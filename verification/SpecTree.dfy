/** The document tree of src/ast/types.ts, with the fields the modelled walks read. */
module SpecTree {
  import opened Text

  datatype NodeType =
    | Spec | Part | Article | Pr1 | Pr2 | Pr3 | Pr4 | Pr5 | Pr6 | Pr7
    | Note | Continuation | Object | ObjectText

  /** An XML attribute value; `Num` carries the text `String` gives of the number. */
  datatype AttrValue = Str(s: string) | Num(digits: string)

  /**
   A node of a captured OOXML blob. `Element` and `Leaf` have exactly one tag, with child nodes
   or a text under it; `Untagged` is any node with no tag or several.
   */
  datatype Blob =
    | Element(tag: string, children: seq<Blob>, attrs: Option<map<string, AttrValue>>)
    | Leaf(tag: string, text: string, attrs: Option<map<string, AttrValue>>)
    | Untagged(raw: string)

  type Positive = n: nat | n > 0 witness 1

  datatype ObjectKind = Table | TextBox

  datatype ObjectMeta = ObjectMeta(
    kind: ObjectKind,
    floating: bool,
    rows: Option<Positive>,
    columns: Option<Positive>,
    vanishCharStyleIds: Option<seq<string>>,
    blob: seq<Blob>
  )

  /** The signals of the inference engine are numbered from 1 to 5. */
  type Signal = n: nat | 1 <= n <= 5 witness 1

  datatype SignalConflict = SignalConflict(signal: Signal, reportedIlvl: nat, reportedNodeType: NodeType)

  datatype Inference = Inference(confidence: real, signalUsed: Signal, agreed: seq<Signal>, evidence: seq<string>)

  datatype ChoiceToken = ChoiceToken(bracket: bool, options: seq<string>)

  datatype Comment = Comment(author: string, closed: bool)

  datatype Meta = Meta(
    vanish: bool,
    acknowledged: bool,
    inference: Option<Inference>,
    conflicts: seq<SignalConflict>,
    choiceTokens: seq<ChoiceToken>,
    comments: seq<Comment>,
    object_: Option<ObjectMeta>
  )

  datatype Node = Node(id: string, kind: NodeType, text: string, children: seq<Node>, meta: Meta)

  datatype Tree = Tree(section: string, title: string, parts: seq<Node>)

  /** Level of a structural type, from `part` = 0 to `pr7` = 8; none for the others. */
  function LevelOf(kind: NodeType): (level: Option<nat>)
    ensures level.Some? ==> level.value < 9
  {
    match kind
    case Part => Some(0)
    case Article => Some(1)
    case Pr1 => Some(2)
    case Pr2 => Some(3)
    case Pr3 => Some(4)
    case Pr4 => Some(5)
    case Pr5 => Some(6)
    case Pr6 => Some(7)
    case Pr7 => Some(8)
    case _ => None
  }
}
