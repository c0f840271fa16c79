# Verification of SpecR's algorithmic cores

SpecR parses construction specifications into trees and issues them again as Markdown and DOCX.
This project models the parts of it that compute something subtle, and proves what they are for:

- the star-height scanner that decides which user-supplied regular expressions are stored;
- CSI numbering on four independent walks: the Markdown renderer, the flat DOCX paragraph list
  that a word processor numbers with counters, the hierarchy report and the hierarchy summary;
- the namespacing of hidden character styles, so that documents can share one style table;
- the section-number grammar with its parser, its printer and the two scanners of free text;
- the readiness gate, the base64 size check, the finder of implied sections, GFM tables, the
  snapshot diff and the note-region automaton.

Code that computes by recursion and expressions is modelled by functions. Loops and accumulators
are methods and classes, each proved equal to a specification function; the lemmas are about those
functions. Strings are sequences of characters, numbers are unbounded (the code only counts and
indexes), confidences are reals or hundredths. `docx` objects are the datatype `Docx.Block`, XML
blobs the datatype `SpecTree.Blob`. Errors thrown are `Result` values.

## Modules

| module | about |
|---|---|
| `Text`, `Sorting`, `Counting` | strings, `Array.prototype.sort`, insertion-ordered `Map` and `Set` |
| `RegexSafety`, `RegexSyntax` | the scanner; syntax trees, printing and the decision proof |
| `SpecTree`, `Labels` | the document tree; CSI labels |
| `Markdown`, `MarkdownContent`, `GfmTable` | the renderer; what it shows; pipe tables |
| `Docx`, `DocxContent`, `WordCounters`, `Manual` | the DOCX walk; what it shows; multilevel counters (section 17.9 of ECMA-376 Part 1); whole documents |
| `HierarchyReport`, `HierarchySummary`, `HierarchyContent` | the two scoring walks; what they show |
| `VanishStyles`, `VanishNamespace`, `VanishTrees`, `VanishWalks` | hidden styles: ids, allocation and renaming, meaning kept, the loops |
| `VanishRefs`, `VanishKept` | hidden ids and references read off the nodes; nothing else changes |
| `VanishRanks`, `VanishStability`, `VanishCollation` | what is allocated in all, repeated application, a collation under which it is not stable |
| `SectionNumber`, `SectionReferences`, `SectionRewriting`, `SectionScanning` | section numbers: grammar, scanners, rewriting, finding |
| `SectionWriting`, `SectionCitations`, `SectionParsing` | the same described on the text alone: written numbers, citations, what is parsed |
| `Readiness`, `NoteDelimiters`, `Base64`, `FixtureSnapshot`, `ImpliedRelated` | the supporting cores |

## Where the code and its description differ

- Empty classes. `skipCharClass` takes a `]` right behind `[` or `[^` for a member, as POSIX does;
  in ECMAScript it ends the class. What follows a class gets the right verdict if and only if the
  class has a member (`RegexSyntax.VerdictsRightIff`). Both errors occur: `[](a+)+` has star height
  two and is accepted (`RegexSyntax.EmptyClassHidesNesting`), `a+[](])+` has star height one and is
  rejected (`RegexSyntax.EmptyClassRejects`).
- Namespacing cycles. "Cycle N+1 reproduces cycle N's id exactly" holds if and only if, wherever
  hidden ids of one tree strip to one name, the collation sorts the names they can get by their
  suffixes (`VanishStability.NamespacingStableIff`). That is always so when the ids strip to
  different names. A collation that puts `-10` before `-2` changes a tree with eleven ids of one
  name (`VanishCollation.ElevenIdsUnstable`). What holds on every input is that the set of a tree's
  hidden ids settles after one pass (`VanishStability.HiddenIdsSettle`), so ids never grow.
- Line breaks in tables. Breaks are collapsed at `\n` and `\r\n` only, while a carriage return alone
  ends a line too (section 2.1 of the GFM specification). A table reads back exactly if and only if
  no cell's trimmed text holds one (`GfmTable.TableRoundTrip`, `GfmTable.LoneReturnBreaksRow`).

## Exact conditions that the callers meet

- Report labels are those of the rendered Markdown if and only if every scored node is one the
  renderer labels (`HierarchyReport.LabelsNeverDrift`). Parsers meet it: notes and continuations are
  leaves, and the children of objects carry no inference. A tree edited otherwise can drift
  (`HierarchyReport.DriftBelowObject`).
- The readiness gate finds what the document walk reaches if and only if every node inside a visible
  object is clear (`Readiness.GateIsExact`); `Readiness.ChoiceInsideObject` is the other case. The
  text inside an object is issued through its blob, so those findings are about text a reader sees.
  The gate never passes a document that is not clear (`Readiness.GateIsSafe`).
- The finder of implied sections joins ids and sections with a colon. With colon-free ids, such as
  the UUIDs its caller passes, it is exact (`ImpliedRelated.FinderExact`). For other ids nothing is
  missed exactly when no two pairs share a key (`ImpliedRelated.NothingMissedIff`), and
  `ImpliedRelated.ColonHidesSection` shows two that do.

## Model

| member | source | states |
|---|---|---|
| RegexSafety.SkipCharClass | src/lib/regex-safety.ts:40-48 | the loop over class members ends at the index the recursive reading of the class gives, past the end included |
| RegexSafety.Scanner.Propagate | src/lib/regex-safety.ts:80-83 | marks the innermost frame and nothing else, and does nothing with no frame |
| RegexSafety.Scanner.CloseGroup | src/lib/regex-safety.ts:88-95 | the new index, verdict and whole frame stack of closing a group |
| RegexSafety.Scanner.ApplyQuantifier | src/lib/regex-safety.ts:100-105 | the new index and the whole frame stack behind an atom; never a verdict |
| RegexSafety.Scanner.TakeStep | src/lib/regex-safety.ts:107-118 | every step moves strictly forward and does to the stack what the step function says |
| RegexSafety.HasNestedUnbounded | src/lib/regex-safety.ts:121-130 | the scan terminates on every string, well formed or not, with the verdict of the recursive scan |
| RegexSyntax.BraceBody | src/lib/regex-safety.ts:60-68 | the body of every `{n}`, `{n,}`, `{n,m}` is recognised, and read as unbounded only for `{n,}` |
| RegexSyntax.ReadPrinted | src/lib/regex-safety.ts:71-77 | every printed quantifier is read back with its length and its unboundedness, lazy marks included |
| RegexSyntax.ReadsBracesIff | src/lib/regex-safety.ts:60-68 | a brace is read as a quantifier if and only if the text behind it is one of the three counts and a closing brace |
| RegexSyntax.OpenerSkipped | src/lib/regex-safety.ts:52-58 | the opener of every kind of group is skipped exactly, so that its marks are not taken for quantifiers |
| RegexSyntax.ClassSkippedIff | src/lib/regex-safety.ts:38-48 | a printed class is skipped exactly, whatever follows it, if and only if it has a member |
| RegexSyntax.NothingToQuantify | src/lib/regex-safety.ts:71-77 | no printed term or end of group is taken for a quantifier of what stands before it |
| RegexSyntax.ScanClose | src/lib/regex-safety.ts:85-95 | a closed group is danger exactly when it is unbounded and holds unboundedness, else both pass to the parent frame |
| RegexSyntax.ScanPrinted | src/lib/regex-safety.ts:107-130 | scanning a printed regex before any text gives its own verdict or the verdict on the text, with the innermost frame marked exactly when the regex holds an unbounded quantifier |
| RegexSyntax.ScannerDecidesStarHeight | src/lib/regex-safety.ts:120-130 | for every regex in the syntax the scanner answers true if and only if the star height exceeds one |
| RegexSyntax.EmptyClassHidesNesting | src/lib/regex-safety.ts:38-48 | `[](a+)+` and `[^](a+)+` have star height two and are accepted |
| RegexSyntax.EmptyClassRejects | src/lib/regex-safety.ts:38-48 | `a+[](])+` has star height one and is rejected |
| RegexSyntax.VerdictsRightIff | src/lib/regex-safety.ts:107-130 | every valid regex behind a class gets the right verdict if and only if the class has a member |
| Labels.AlphaLabel | src/ast/labels.ts:11-21 | the loop writes the letters of the number in bijective base 26 |
| Labels.LettersRoundTrip | src/ast/labels.ts:11-21 | reading the letters of a number gives the number back |
| Labels.ValueRoundTrip | src/ast/labels.ts:11-21 | every word of letters is the label of the number it reads as |
| Labels.EqualLabels | src/ast/labels.ts:23-43 | structural labels, of whatever types, under one part number are equal only for equal ordinals |
| Labels.LabelReads | src/ast/labels.ts:23-43 | a label read in the style of its level gives the ordinal counted from one, an article's also the part number before the point |
| Markdown.RenderChildren | src/generator/markdown.ts:93-104 | the loop prints the children with ordinals that count numbered siblings only |
| Markdown.RenderMarkdown | src/generator/markdown.ts:173-184 | the document is the heading and every root that renders to anything, parts counted without the others |
| Markdown.ChildLine | src/generator/markdown.ts:93-104 | the line of every structural child carries the label of the number of numbered siblings before it |
| Markdown.SiblingLabelsDistinct | src/generator/markdown.ts:91-104 | two numbered siblings under one parent never carry the same label |
| MarkdownContent.ObjectShows | src/generator/markdown.ts:63-89 | an object shows its title and the collapsed texts inside it: a text box on one line, a simple grid as a table that reads back, anything else as a list |
| MarkdownContent.MarkdownShows | src/generator/markdown.ts:106-184 | the document is its title and then the texts of all printed nodes in document order, a newline before each root that shows anything and nothing else between; every labelled node stands under the mark or indent of its depth with a label that reads as its ordinals, siblings counted without notes, continuations, objects and hidden nodes |
| GfmTable.ChunkIntoRows | src/generator/markdown.ts:29-35 | the loop cuts the cells into rows of the given width |
| GfmTable.ChunksOfGrid | src/generator/markdown.ts:41-52 | a simple grid gives exactly its rows of exactly its columns, whose concatenation is the input |
| GfmTable.TwoReplacements | src/generator/markdown.ts:21-27 | backslashes first, then pipes, escapes each character exactly once |
| GfmTable.EscapedCell | src/generator/markdown.ts:17-27 | collapsing breaks after escaping is escaping the collapsed text |
| GfmTable.BreakBecomesBlank | src/generator/markdown.ts:17-19 | every LF and every CRLF becomes one blank, and nothing else changes |
| GfmTable.CollapseIff | src/generator/markdown.ts:17-19 | of the text with its breaks replaced exactly the white space at both ends is taken |
| GfmTable.RowRoundTrip | src/generator/markdown.ts:37-39 | splitting a rendered row at unescaped pipes, trimming and unescaping gives back every cell's collapsed text |
| GfmTable.RowOnOneLine | src/generator/markdown.ts:12-39 | a rendered row never holds a newline, and stays on one line if and only if no cell's collapsed text holds a carriage return |
| GfmTable.TableRoundTrip | src/generator/markdown.ts:54-61 | reading a rendered simple grid as GFM does, with lines that end at CR, LF or CRLF and a delimiter row as wide as the header, gives back its rows cell by cell if and only if no cell's collapsed text holds a carriage return |
| GfmTable.LoneReturnBreaksRow | src/generator/markdown.ts:17-19 | a cell with a carriage return and no newline behind it breaks its row and the round trip |
| Docx.SectionWriter.CollectParagraphs | src/generator/index.ts:164-172 | the list passed down grows by exactly the blocks of the nodes reached, in document order |
| Docx.BuildSectionChildren | src/generator/index.ts:175-184 | the title and then the collected blocks, or the error of the walk |
| Docx.FailsIff | src/generator/index.ts:136-144 | the walk throws if and only if some node it reaches is a visible object without blob |
| DocxContent.ThrowsIff | src/generator/index.ts:136-144 | the same, with the nodes reached described without the walk: all but those below hidden nodes that are no notes and inside objects |
| DocxContent.LevelsInverse | src/generator/numbering.ts:6-42 | the level table and the type table are inverse to each other |
| DocxContent.DisplayReads | src/lib/section-number.ts:196-199 | the displayed number parses back to the section in the format, and is the text itself if that is no number |
| DocxContent.SectionShows | src/generator/index.ts:129-184 | the section is its title and then, in document order, one block for each note and each visible continuation, object and numbered node: with its id and its text, citations rewritten, or the captured blob, numbered at the level of its type or plain |
| WordCounters.ListAgrees | src/generator/index.ts:164-172 | started below any ordinals, the counters number a list's paragraphs as the renderer numbers its nodes, and stand where they stood above it |
| WordCounters.EqualDepths | src/generator/numbering.ts:6-29 | both walks number equally many nodes, and equal depths everywhere make the list levelled |
| WordCounters.FlatNumberingIsTreeNumbering | src/generator/index.ts:129-184 | numbering the flat list with counters gives every node the ordinals of the recursive renderer if and only if the tree is levelled |
| WordCounters.Independent | src/generator/index.ts:308-316 | the numbers of one instance depend on that instance's counters only and leave all others alone |
| Manual.ReferencesDistinct | src/generator/index.ts:369-370 | no two sections share a numbering reference, nor one with a single-section document |
| Manual.GenerateDocx | src/generator/index.ts:277-307 | one namespaced tree in the default instance with its style table, or the walk's error |
| Manual.GenerateManual | src/generator/index.ts:349-403 | an error for no trees or a missing blob, else one section and one instance for each namespaced tree and one style table for all |
| Manual.DocumentShows | src/generator/index.ts:277-307 | a document shows its tree, but for the names of hidden ids, in one section of the default instance |
| Manual.ManualShows | src/generator/index.ts:349-403 | the i-th section of a manual shows the i-th tree, but for the names of hidden ids, in the i-th numbering instance |
| Manual.StyleNames | src/generator/object-vanish-styles.ts:83-95 | the styles are hidden, distinct, in collation order, each under its id up to the first separator |
| Manual.SectionsNumberedAlone | src/generator/index.ts:308-316 | numbering the whole manual gives the numbers of every section counted from nothing |
| Manual.SectionNumberedAsTree | src/generator/index.ts:369-377 | every section of a manual is numbered as Markdown numbers its source tree, in spite of the renaming, if and only if that tree is levelled |
| Manual.TableHides | src/generator/index.ts:221-230 | the shared style table hides an id exactly when some object of some tree lists it |
| Manual.ManualHides | src/generator/index.ts:357-363 | in the manual a reference is hidden by the shared table if and only if it was hidden in its own source tree |
| Manual.BuiltInsUntouched | src/generator/object-vanish-namespace.ts:315-324 | the table defines no id without the separator, so no built-in style becomes hidden |
| HierarchyReport.Acc.TallyNode | src/lib/hierarchy-report.ts:120-129 | every accumulator after one node; an error exactly for a scored node without level |
| HierarchyReport.Acc.WalkSiblings | src/lib/hierarchy-report.ts:131-149 | counts and paragraphs grow by exactly the scored nodes of the list with their contexts |
| HierarchyReport.Acc.VisitNode | src/lib/hierarchy-report.ts:155-171 | the same for one subtree: hidden ones pruned, skipped types passing their context on |
| HierarchyReport.BuildHierarchyReport | src/lib/hierarchy-report.ts:192-208 | all scored nodes with their provenance and conflicts, worst first, the counts and the reason for unscored ones; an error exactly if a scored node has no level |
| HierarchyReport.CountIgnoresContext | src/lib/hierarchy-report.ts:151-171 | how many nodes are scored does not depend on the label context |
| HierarchyReport.LabelsNeverDrift | src/lib/hierarchy-report.ts:63-91 | nodes and labels are exactly those of the renderer's scored lines, in order, if and only if all that the renderer gives no label, with what is below it, is unscored |
| HierarchyReport.SilentScores | src/lib/hierarchy-report.ts:155-171 | the report lists nothing of some nodes exactly when none of them or below them is visible, structural and scored |
| HierarchyReport.DriftBelowObject | src/lib/hierarchy-report.ts:160-166 | a scored paragraph below an object is reported, without error, though no line shows it |
| HierarchySummary.Acc.Tally | src/lib/hierarchy-summary.ts:45-62 | counts and entries after one node; an error exactly for a low node without level |
| HierarchySummary.Acc.Walk | src/lib/hierarchy-summary.ts:64-76 | the accumulator grows by exactly the visible structural nodes of the list |
| HierarchySummary.SummarizeHierarchy | src/lib/hierarchy-summary.ts:86-103 | counts, the reason for unscored nodes and the low-confidence entries, worst first |
| HierarchySummary.SameNodes | src/lib/hierarchy-report.ts:185-190 | the two walks score the same nodes in the same order and leave equally many unscored |
| HierarchySummary.SameEntries | src/lib/hierarchy-summary.ts:51-61 | the summary's entries are the report's low paragraphs, projected, in order |
| HierarchySummary.ReportRefinesSummary | src/lib/hierarchy-report.ts:185-208 | equal counts and reasons, and the summary's list is the projection of the report's first `belowThreshold` paragraphs |
| HierarchyContent.ReportShows | src/lib/hierarchy-report.ts:96-171 | the paragraphs before sorting are exactly the visible scored nodes that are no note, continuation or `spec`, in document order and each with the values of its node; the counts are those of such nodes |
| HierarchyContent.ReportFailsIff | src/lib/hierarchy-report.ts:96-129 | there is no report exactly when some visible scored paragraph has no level |
| HierarchyContent.WorstComeFirst | src/lib/hierarchy-report.ts:198-200 | sorting keeps the paragraphs and puts lower confidence first, ties in the order of the ids |
| HierarchyContent.ReasonGiven | src/lib/hierarchy-report.ts:201-206 | a reason is given exactly when something is unscored, the explicit one exactly for UFGS sources |
| HierarchyContent.SummaryShows | src/lib/hierarchy-summary.ts:45-103 | the summary lists exactly the visible paragraphs below the threshold, each with the values of its node, and fails exactly when one of them has no level |
| Sorting.SortStable | src/lib/hierarchy-report.ts:198-200 | elements that compare equal keep their order |
| Sorting.SortFilter | src/lib/hierarchy-summary.ts:93-95 | sorting commutes with filtering |
| VanishStyles.CollectFromNodes | src/generator/object-vanish-styles.ts:28-35 | the set grows by the ids of the objects in and below the nodes, in order of first occurrence |
| VanishStyles.CollectVanishCharacterStyleIds | src/generator/object-vanish-styles.ts:44-48 | the ids of all trees, without repeats, sorted |
| VanishStyles.CollectTreesElements | src/generator/object-vanish-styles.ts:37-48 | no id twice, and exactly those that some tree's objects list |
| VanishRefs.HiddenListed | src/generator/object-vanish-styles.ts:28-35 | a tree hides exactly the ids that some object anywhere in it lists |
| VanishStyles.StripIff | src/generator/object-vanish-styles.ts:78-81 | the stripped id is what stands before the first separator, or all of an id without one |
| VanishStyles.StripIsFree | src/generator/object-vanish-styles.ts:78-81 | a stripped id holds no separator |
| VanishStyles.StripMinted | src/generator/object-vanish-styles.ts:57-81 | stripping gives back any separator-free name that anything behind a separator was appended to |
| VanishNamespace.FreeFrom | src/generator/object-vanish-namespace.ts:79-84 | the suffix found is the first whose candidate is free, after at most as many tries as there are reserved ids |
| VanishNamespace.CandidateInjective | src/generator/object-vanish-namespace.ts:78-84 | different suffixes give different candidates, which is why the search ends |
| VanishNamespace.ReservedIds.Allocate | src/generator/object-vanish-namespace.ts:74-87 | the loop terminates with the first free candidate and reserves it and nothing else |
| VanishNamespace.AllocateFor | src/generator/object-vanish-namespace.ts:332-334 | one name for each id in order, each reserved for those after it |
| VanishNamespace.BlobRefsRenamed | src/generator/object-vanish-namespace.ts:172-191 | every reference in a rewritten blob is the new name of the reference at its place, and no reference comes or goes |
| VanishNamespace.NodesRefsRenamed | src/generator/object-vanish-namespace.ts:234-259 | the same for whole forests |
| VanishRefs.RefsNamed | src/generator/object-vanish-namespace.ts:261-281 | the references of a tree are the texts or numbers named by the `w:rStyle` nodes of its objects, in document order |
| VanishNamespace.VanishIdsRenamed | src/generator/object-vanish-namespace.ts:206-232 | the hidden ids of rewritten nodes are the new names of their hidden ids |
| VanishWalks.CollectBlobRStyleIds | src/generator/object-vanish-namespace.ts:261-270 | adds exactly the references of the blob, none below an `rStyle` or in an untagged node |
| VanishWalks.CollectNodeStyleIds | src/generator/object-vanish-namespace.ts:272-281 | adds every id that objects in and below the nodes list or refer to |
| VanishWalks.CollectRemainingStyleIds | src/generator/object-vanish-namespace.ts:296-305 | the ids still in use after the renaming: each tree's without those it renames away |
| VanishWalks.RewriteRStyleIds | src/generator/object-vanish-namespace.ts:172-191 | the renamed blob; changed exactly if it refers to a renamed id, and the input itself if not |
| VanishWalks.RewriteBlobRoots | src/generator/object-vanish-namespace.ts:193-204 | the same for a list of blobs |
| VanishWalks.RenameIds | src/generator/object-vanish-namespace.ts:209-221 | the same for a list of ids |
| VanishWalks.RewriteObjectMeta | src/generator/object-vanish-namespace.ts:223-232 | the same for an object |
| VanishWalks.RewriteNodes | src/generator/object-vanish-namespace.ts:248-259 | the same for a forest |
| VanishWalks.NamespaceVanishTrees | src/generator/object-vanish-namespace.ts:326-341 | every tree renamed with its own map; changed if and only if some tree hides something, and otherwise the input itself |
| VanishTrees.MintedNames | src/generator/object-vanish-namespace.ts:67-87 | over all trees the minted names are pairwise different, avoid every id left in the output, hold the separator and strip to what their ids strip to |
| VanishTrees.HiddenIds | src/generator/object-vanish-namespace.ts:326-341 | the ids hidden in an output tree are exactly the names minted for it |
| VanishTrees.HidingPreserved | src/generator/object-vanish-namespace.ts:283-305 | with one style table for all output trees, a reference is hidden if and only if it was hidden in its own tree |
| VanishKept.OnlyHiddenIdsChange | src/generator/object-vanish-namespace.ts:117-259 | a tree and its output are equal once hidden ids are erased from both: section, title, texts, metadata, tags, attributes and leaf texts are kept |
| VanishRanks.CandidateText | src/generator/object-vanish-namespace.ts:74-87 | a candidate is the stripped id, the separator and the tree's index, with a hyphen and the suffix behind it from the second on |
| VanishRanks.CandidateOrigin | src/generator/object-vanish-namespace.ts:78-84 | a minted name determines the stripped id, the tree and the suffix it was made from |
| VanishRanks.RankedNames | src/generator/object-vanish-namespace.ts:326-334 | the hidden id with k others that strip alike sorted before it gets the k-th free candidate, counted from zero, whatever else is minted |
| VanishStability.RemainingStable | src/generator/object-vanish-namespace.ts:288-305 | the ids left in use are the same after a second pass |
| VanishStability.StableIffIdentity | src/generator/object-vanish-namespace.ts:326-341 | a second pass changes nothing exactly when it mints every name for itself |
| VanishStability.NamespacingStableIff | src/generator/object-vanish-styles.ts:70-76 | namespacing its own output changes nothing if and only if, wherever hidden ids of a tree strip alike, the collation sorts the names they can get by suffix |
| VanishStability.NamespacingStable | src/generator/object-vanish-styles.ts:70-76 | under any collation it changes nothing when the ids of each tree strip to different names |
| VanishStability.HiddenIdsSettle | src/generator/object-vanish-styles.ts:70-76 | under any collation the set of hidden ids of a tree is the same after every further pass |
| VanishCollation.ElevenIdsUnstable | src/generator/object-vanish-styles.ts:70-76 | a manual of eleven sections read back as one document changes at the next pass under a total order that sorts strings before their extensions |
| SectionNumber.MatchFormIff | src/lib/section-number.ts:60-62 | each syntax accepts exactly what it prints and recovers the parts |
| SectionNumber.FormsDisjoint | src/lib/section-number.ts:60-62 | no string is in two of the four syntaxes |
| SectionNumber.CollapseTidy | src/lib/section-number.ts:85-93 | collapsing leaves single inner spaces only, and collapsing again changes nothing |
| SectionParsing.CollapseJoins | src/lib/section-number.ts:90-93 | collapsing joins the words of a text by single blanks |
| SectionParsing.ParsesIff | src/lib/section-number.ts:123-190 | a text parses as a number in a format if and only if, its white space collapsed, it is the form of that number |
| SectionParsing.ParsesSome | src/lib/section-number.ts:123-151 | every accepted text is the form of some number |
| SectionParsing.RefusalReason | src/lib/section-number.ts:139-151 | a refusal names its reason: nothing but white space, not canonical, or in none of the formats |
| SectionNumber.ParseOfFormat | src/lib/section-number.ts:139-189 | parsing a canonical number printed in any format gives back both |
| SectionNumber.FormatOfParse | src/lib/section-number.ts:123-189 | every accepted string, its white space collapsed, is its number printed in its format |
| SectionNumber.CanonicalContext | src/lib/section-number.ts:139-151 | without strong context exactly the canonical syntax is accepted |
| SectionReferences.NumberEats | src/lib/section-number.ts:59 | a match of the fragment is a prefix of the text, in parts that are valid and separated as its format says |
| SectionRewriting.MatchedParses | src/lib/section-number.ts:210-211 | the parse behind a match never fails, and reports the format that matched |
| SectionRewriting.NumberReprint | src/lib/section-number.ts:59 | a matched number printed in any format before an equal context is matched again, with the same parts and rest |
| SectionRewriting.NumberSame | src/lib/section-number.ts:59 | which number matches depends only on the run of digits, points and white space it stands in |
| SectionRewriting.RewriteComposes | src/lib/section-number.ts:201-217 | rewriting to one format and then to another is rewriting to the second, so rewriting is idempotent |
| SectionRewriting.RewriteKeeps | src/lib/section-number.ts:201-217 | all text outside cited numbers is kept, and every cited number is replaced by its canonical form in the format |
| SectionWriting.WrittenIsRead | src/lib/section-number.ts:46-59 | a number written in any syntax, with any white space, is read with its parts and its rest, if the rest does not go on with it |
| SectionWriting.ReadIsWritten | src/lib/section-number.ts:46-59 | whatever is read is a number so written, and stops there |
| SectionCitations.RewritesCitation | src/lib/section-number.ts:201-217 | every citation that no word character precedes is rewritten: keyword, in any case, and white space stay, the number takes its form in the format, and what stands before and behind is rewritten on its own |
| SectionCitations.NeverRewritten | src/lib/section-number.ts:201-217 | a text in which no such citation starts is never changed |
| SectionRewriting.FormatSectionReferences | src/lib/section-number.ts:201-217 | the loop over leftmost matches computes the recursive rewriting |
| SectionScanning.FindSectionNumbers | src/lib/section-number.ts:225-234 | the loop collects every match of the scan; no match is dropped by the normalisation |
| SectionScanning.HitsSound | src/lib/section-number.ts:46-59 | every match is delimited, in normal form, and behind the one before it |
| SectionScanning.HitStands | src/lib/section-number.ts:46-59 | every match is a canonically written number that stands there, neither digit nor point before it, and its value is the number's canonical form |
| SectionScanning.HitsComplete | src/lib/section-number.ts:225-234 | wherever such a number stands, a match starts or goes on |
| Readiness.AssessIffClear | src/lib/readiness-review.ts:58-124 | a node yields no finding exactly when it is clear, and its findings name it |
| Readiness.NodeFindings | src/lib/readiness-review.ts:58-124 | a node yields its choice tokens and its open comments in order and then an unacknowledged text box, each finding with the node's id and text; a note not acknowledged yields itself only, a hidden node that is no note nothing |
| Readiness.WalkVisits | src/lib/readiness-review.ts:134-144 | the findings are those of all nodes but the ones below hidden nodes that are no notes, in document order |
| Readiness.WalkCounts | src/lib/readiness-review.ts:134-144 | the gate finds what the nodes reached by the DOCX walk yield and what hides below objects, and nothing else |
| Readiness.GateIsExact | src/lib/readiness-review.ts:126-158 | the gate's findings are exactly those of the issued nodes in document order if and only if every node inside a visible object is clear; it is then empty exactly when every issued node is clear |
| Readiness.GateIsSafe | src/lib/readiness-review.ts:146-158 | an empty gate means every issued node is clear, without any condition |
| Readiness.ChoiceInsideObject | src/lib/readiness-review.ts:138-144 | an unresolved choice inside a visible object is found, though every node the document walk reaches is clear |
| Readiness.SummaryAddsUp | src/lib/readiness-review.ts:160-172 | the four counts add up to the number of findings |
| Readiness.SummaryCounts | src/lib/readiness-review.ts:160-172 | every count is the number of findings of its type |
| NoteDelimiters.OpenStep | src/lib/note-delimiters.ts:70-82 | a region is open exactly after an odd number of rule rows since the last heading: one step of the toggle |
| NoteDelimiters.AssignRoles | src/lib/note-delimiters.ts:66-85 | every item's role from its region, one role for each item |
| NoteDelimiters.ClassifyNoteRoles | src/lib/note-delimiters.ts:57-63 | all roles are none if a structural item would be enclosed; on every input no structural item is a note |
| NoteDelimiters.RuleRowIff | src/lib/note-delimiters.ts:5-17 | a rule row is five asterisks or more, with white space around them or none |
| NoteDelimiters.RoleIff | src/lib/note-delimiters.ts:66-85 | an item that is neither rule row nor heading is a note exactly when the rule rows since the last heading are odd in number |
| Base64.TrailingPaddingLength | src/lib/decode-base64.ts:29-35 | the bounded count of trailing pads |
| Base64.DecodeBase64Payload | src/lib/decode-base64.ts:65-85 | refuses exactly what is not base64 and what decodes to more than the cap |
| Base64.EncodeDecode | src/lib/decode-base64.ts:57-63 | every encoding of bytes (section 4 of RFC 4648) is accepted and decodes to them |
| Base64.AlphabetTable | src/lib/decode-base64.ts:12 | the alphabet in the order of its values (Table 1 of RFC 4648) |
| Base64.SameBits | src/lib/decode-base64.ts:57-63 | the four sextets of a quad are the 24 bits of its bytes, most significant first |
| Base64.DecodeEncode | src/lib/decode-base64.ts:38-42 | an accepted text is the encoding of its bytes exactly when the bits its padding drops are zero |
| Base64.DecodedSizeExact | src/lib/decode-base64.ts:74-81 | the size computed from length and padding is the number of bytes decoded |
| Base64.CapIsExact | src/lib/decode-base64.ts:74-84 | an encoding passes a cap exactly when its bytes do |
| Base64.ImageCap | src/lib/image-media-type.ts:30-42 | every image within the byte cap fits the length cap, and every accepted text within that decodes to at most one byte over |
| FixtureSnapshot.CountBy | src/lib/fixture-snapshot.ts:69-73 | the map holds the multiplicity of every item, keys in order of first occurrence |
| Counting.FirstsByFirst | src/lib/fixture-snapshot.ts:69-73 | keys come in the order of their first occurrence |
| FixtureSnapshot.DiffLists | src/lib/fixture-snapshot.ts:78-93 | both surpluses, each grouped by item in order of first occurrence |
| Text.SplitJoins | src/lib/fixture-snapshot.ts:95-103 | splitting a rendering cuts at every newline and nowhere else |
| FixtureSnapshot.SurplusIsDifference | src/lib/fixture-snapshot.ts:87-91 | a surplus is the multiset difference |
| FixtureSnapshot.DiffConserves | src/lib/fixture-snapshot.ts:75-93 | before with added is after with removed, nothing is both added and removed, and no other account of the change is smaller |
| FixtureSnapshot.PathDeltaIff | src/lib/fixture-snapshot.ts:95-130 | a path has no delta exactly when it is in neither snapshot or the records agree up to the order of references |
| FixtureSnapshot.DeltasSay | src/lib/fixture-snapshot.ts:95-144 | the deltas are those of the paths where the snapshots differ, in the order of the paths; each says on which side a record is missing, or both values of every field that differs and added and removed references and lines that account for the change |
| FixtureSnapshot.DiffSnapshots | src/lib/fixture-snapshot.ts:132-144 | the deltas of all paths in collation order, and their number |
| FixtureSnapshot.PathsSorted | src/lib/fixture-snapshot.ts:134-136 | the paths are those of both snapshots, once each, in collation order |
| FixtureSnapshot.ChangedPaths | src/lib/fixture-snapshot.ts:125-144 | a path is reported exactly when its records differ in presence or content |
| FixtureSnapshot.NoChangeIff | src/lib/fixture-snapshot.ts:132-144 | no change is reported exactly when the paths match and the records agree up to the order of references |
| FixtureSnapshot.DiffMirrors | src/lib/fixture-snapshot.ts:78-144 | swapping the snapshots swaps added and removed, path by path, and changes nothing else |
| ImpliedRelated.CountKeywords | src/coordination/implied-related.ts:151-157 | the map holds how often every keyword occurs over all entries |
| ImpliedRelated.BuildTitleKeywordIndex | src/coordination/implied-related.ts:171-177 | every entry keeps exactly its keywords that at most two titles have, in order |
| ImpliedRelated.IndexedKeywords | src/coordination/implied-related.ts:159-169 | a keyword is in as many index entries as titles have it, or in none if more than two have it |
| ImpliedRelated.IndexSays | src/coordination/implied-related.ts:143-177 | an entry has, once each and in collation order, exactly the tokens of its title that at most two titles have |
| ImpliedRelated.MatchMeans | src/coordination/implied-related.ts:179-195 | a paragraph matches with two shared keywords, or with the title's only one; the match names the first shared one, and the confidence is 0.72, 0.80, 0.88 or 0.92 for one, two, three or more of them |
| ImpliedRelated.Finder.FindingForEntry | src/coordination/implied-related.ts:232-245 | a finding unless suppressed or reported before; the shared set grows by its key exactly then |
| ImpliedRelated.Finder.FindingsForParagraph | src/coordination/implied-related.ts:247-259 | the fresh candidates of the paragraph, in catalog order, and their keys added |
| ImpliedRelated.Finder.FindingsForSpec | src/coordination/implied-related.ts:261-270 | the fresh candidates of the spec, in document order, and their keys added |
| ImpliedRelated.FindImpliedRelatedSections | src/coordination/implied-related.ts:272-278 | the machine with the shared set reports every candidate whose key no earlier candidate has |
| ImpliedRelated.ReportedOnce | src/coordination/implied-related.ts:219-230 | of every key exactly the first candidate is reported |
| ImpliedRelated.CatalogOrder | src/coordination/implied-related.ts:247-259 | the candidates of a paragraph come in catalog order |
| ImpliedRelated.ParagraphOrder | src/coordination/implied-related.ts:261-270 | the candidates of a spec come paragraph by paragraph |
| ImpliedRelated.SpecOrder | src/coordination/implied-related.ts:272-278 | all candidates come spec by spec |
| ImpliedRelated.FinderExact | src/coordination/implied-related.ts:219-278 | with distinct colon-free ids a pair is reported exactly once if and only if the section is neither own nor listed and some paragraph implies it, anchored at the earliest such paragraph and its first matching entry |
| ImpliedRelated.FinderSound | src/coordination/implied-related.ts:272-278 | every finding is about one of the specs |
| ImpliedRelated.NothingMissedIff | src/coordination/implied-related.ts:197-199 | for any ids, no implied section is missed exactly when no two pairs share a key |
| ImpliedRelated.ColonHidesSection | src/coordination/implied-related.ts:197-199 | two specs with a colon in an id where a section that is implied and not listed is not reported |

## Left out

- RegexSyntax.ScannerDecidesStarHeight: for classes with at least one member, which is exact (`RegexSyntax.VerdictsRightIff`), and for literals that are no syntax characters; other strings are covered by `RegexSafety.HasNestedUnbounded`, which says what the scan computes.
- VanishStability.NamespacingStableIff: for collations that are total orders; names that a collation cannot tell apart keep the order they were collected in.
- WordCounters.FlatNumberingIsTreeNumbering: for trees whose notes, continuations and object texts are leaves and which hold no `spec` node, as parsers promise; on others the two walks do not visit the same nodes.
- Markdown.SiblingLabelsDistinct: not for `spec` nodes, which never occur among parts and have no label below the articles.
- HierarchyReport.LabelsNeverDrift: for trees without `spec` nodes, which the report skips and the renderer numbers.
- VanishWalks.RewriteNodes: returning a part "by reference" is modelled by a flag that says unchanged, not by object identity.
- ImpliedRelated.FinderExact: the tokenizer with its stemming and stop words is an arbitrary function, so the result holds for any.
- Readiness.GateIsExact: the highlight advisory, which the gate never reads, is not modelled.
- Unicode: strings are sequences of characters without surrogate pairs, and case folding is ASCII.
- `localeCompare` is an arbitrary comparison, a total order only where a lemma says so.
- `new RegExp`, `matchAll` and `Buffer.from`: the regular expressions are explicit scanners, and base64 decoding is the one of RFC 4648.
- The write `frames[-1]` of `applyQuantifier` on an empty stack sets a property no one reads; it is modelled as doing nothing.
- Objects as dictionaries: keys that name members of `Object.prototype` are ordinary keys.
- Style templates (`applyOverride`, fonts, spacing), headers and footers, page sizes, front matter and images.
- The letter glyphs a word processor draws for counters; numbers are compared as counters.
- `fixtureRecord` and the corpus walk that feeds snapshots; parsers, the database, the merge engine, the servers and the Revit add-in.
