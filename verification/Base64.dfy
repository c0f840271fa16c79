/** The payload check of src/lib/decode-base64.ts, against the encoding of section 4 of RFC 4648. */
module Base64 {
  import opened Text

  type Byte = b: int | 0 <= b < 256

  const MAX_PADDING_LENGTH := 2
  const MAX_IMAGE_BYTES := 5 * 1024 * 1024

  /** `Math.ceil(MAX_IMAGE_BYTES / 3) * 4` */
  const MAX_IMAGE_BASE64_LENGTH := (MAX_IMAGE_BYTES + 2) / 3 * 4

  // ---------------------------------------------------------------- the payload check

  predicate IsAlphabet(c: char) {
    'A' <= c <= 'Z' || 'a' <= c <= 'z' || IsDigit(c) || c == '+' || c == '/'
  }

  /** Trailing `=` characters, counted up to one more than is valid. */
  function Padding(input: string): (n: nat)
    ensures n <= |input| && n <= MAX_PADDING_LENGTH + 1
    ensures forall k :: |input| - n <= k < |input| ==> input[k] == '='
    ensures n <= MAX_PADDING_LENGTH && n < |input| ==> input[|input| - 1 - n] != '='
  {
    if input == "" || input[|input| - 1] != '=' then 0
    else if |input| == 1 || input[|input| - 2] != '=' then 1
    else if |input| == 2 || input[|input| - 3] != '=' then 2
    else 3
  }

  method TrailingPaddingLength(input: string) returns (count: nat)
    ensures count == Padding(input)
  {
    count := 0;
    while count <= MAX_PADDING_LENGTH && count < |input| && input[|input| - 1 - count] == '='
      invariant count <= MAX_PADDING_LENGTH + 1 && count <= |input|
      invariant forall k :: |input| - count <= k < |input| ==> input[k] == '='
    {
      count := count + 1;
    }
  }

  predicate IsValid(input: string) {
    && |input| % 4 == 0
    && Padding(input) <= MAX_PADDING_LENGTH
    && forall k :: 0 <= k < |input| - Padding(input) ==> IsAlphabet(input[k])
  }

  function DecodedSize(input: string): (n: int) {
    |input| * 3 / 4 - Padding(input)
  }

  datatype Failure = NotBase64 | TooLarge

  method DecodeBase64Payload(content: string, maxBytes: nat) returns (bytes: Result<seq<Byte>, Failure>)
    ensures bytes == if !IsValid(content) then Err(NotBase64)
                     else if |Decode(content)| > maxBytes then Err(TooLarge)
                     else Ok(Decode(content))
  {
    if !IsValid(content) {
      return Err(NotBase64);
    }
    var padding := TrailingPaddingLength(content);
    var decodedBytes := |content| * 3 / 4 - padding;
    DecodedSizeExact(content);
    if decodedBytes > maxBytes {
      return Err(TooLarge);
    }
    return Ok(Decode(content));
  }

  // ---------------------------------------------------------------- the encoding

  type Sextet = n: int | 0 <= n < 64

  function CharOf(n: Sextet): (c: char)
    ensures IsAlphabet(c)
  {
    if n < 26 then 'A' + n as char
    else if n < 52 then 'a' + (n - 26) as char
    else if n < 62 then '0' + (n - 52) as char
    else if n == 62 then '+'
    else '/'
  }

  function ValueOf(c: char): Sextet
    requires IsAlphabet(c)
  {
    if 'A' <= c <= 'Z' then (c - 'A') as int
    else if 'a' <= c <= 'z' then (c - 'a') as int + 26
    else if IsDigit(c) then (c - '0') as int + 52
    else if c == '+' then 62
    else 63
  }

  lemma ValueOfChar(n: Sextet)
    ensures ValueOf(CharOf(n)) == n
  {
  }

  // Three bytes cut into four sextets, and four sextets joined into three bytes.

  function Cut0(a: Byte): Sextet { a / 4 }
  function Cut1(a: Byte, b: Byte): Sextet { a % 4 * 16 + b / 16 }
  function Cut2(b: Byte, c: Byte): Sextet { b % 16 * 4 + c / 64 }
  function Cut3(c: Byte): Sextet { c % 64 }

  function Join0(v: Sextet, w: Sextet): Byte { v * 4 + w / 16 }
  function Join1(w: Sextet, x: Sextet): Byte { w % 16 * 16 + x / 4 }
  function Join2(x: Sextet, y: Sextet): Byte { x % 4 * 64 + y }

  /** Table 1 of RFC 4648: `A` to `Z`, `a` to `z`, `0` to `9`, `+` and `/`, in the order of their values. */
  lemma AlphabetTable(n: Sextet)
    ensures CharOf(0) == 'A' && CharOf(25) == 'Z' && CharOf(26) == 'a' && CharOf(51) == 'z'
    ensures CharOf(52) == '0' && CharOf(61) == '9' && CharOf(62) == '+' && CharOf(63) == '/'
    ensures n < 61 && n != 25 && n != 51 ==> CharOf(n + 1) as int == CharOf(n) as int + 1
  {
  }

  /** The four sextets, most significant first, are the 24 bits of the three bytes. */
  lemma SameBits(a: Byte, b: Byte, c: Byte)
    ensures ((Cut0(a) * 64 + Cut1(a, b)) * 64 + Cut2(b, c)) * 64 + Cut3(c) == (a * 256 + b) * 256 + c
  {
  }

  lemma JoinCut(a: Byte, b: Byte, c: Byte)
    ensures Join0(Cut0(a), Cut1(a, b)) == a
    ensures Join1(Cut1(a, b), Cut2(b, c)) == b
    ensures Join2(Cut2(b, c), Cut3(c)) == c
  {
  }

  /** The quad of one to three bytes; missing bytes are cut as zero and shown as `=`. */
  function EncodeQuad(bytes: seq<Byte>): (q: string)
    requires 0 < |bytes| <= 3
    ensures |q| == 4 && IsAlphabet(q[0]) && IsAlphabet(q[1])
    ensures if |bytes| == 1 then q[2] == '=' else IsAlphabet(q[2])
    ensures if |bytes| <= 2 then q[3] == '=' else IsAlphabet(q[3])
  {
    var a := bytes[0];
    var b := if |bytes| > 1 then bytes[1] else 0;
    var c := if |bytes| > 2 then bytes[2] else 0;
    [CharOf(Cut0(a)), CharOf(Cut1(a, b)),
     if |bytes| > 1 then CharOf(Cut2(b, c)) else '=',
     if |bytes| > 2 then CharOf(Cut3(c)) else '=']
  }

  function Encode(bytes: seq<Byte>): string {
    if bytes == [] then ""
    else if |bytes| <= 3 then EncodeQuad(bytes)
    else EncodeQuad(bytes[..3]) + Encode(bytes[3..])
  }

  /** The bytes of one quad, fewer when it is padded; bits beyond whole bytes are dropped. */
  function DecodeQuad(q: string): (bytes: seq<Byte>)
    requires |q| == 4 && IsAlphabet(q[0]) && IsAlphabet(q[1])
    requires (IsAlphabet(q[2]) && IsAlphabet(q[3])) || (IsAlphabet(q[2]) && q[3] == '=') || (q[2] == '=' && q[3] == '=')
    ensures |bytes| == 3 - Padding(q)
  {
    var v, w := ValueOf(q[0]), ValueOf(q[1]);
    if q[2] == '=' then [Join0(v, w)]
    else
      var x := ValueOf(q[2]);
      if q[3] == '=' then [Join0(v, w), Join1(w, x)]
      else [Join0(v, w), Join1(w, x), Join2(x, ValueOf(q[3]))]
  }

  function Decode(input: string): seq<Byte>
    requires IsValid(input)
    decreases |input|
  {
    if input == "" then []
    else if |input| == 4 then DecodeQuad(input)
    else
      ValidTail(input);
      DecodeQuad(input[..4]) + Decode(input[4..])
  }

  lemma ValidTail(input: string)
    requires IsValid(input) && |input| > 4
    ensures IsValid(input[4..]) && Padding(input[4..]) == Padding(input)
    ensures forall k :: 0 <= k < 4 ==> IsAlphabet(input[..4][k])
  {
    var tail := input[4..];
    assert |tail| >= 4;
    assert forall k :: 0 <= k < |tail| ==> tail[k] == input[k + 4];
  }

  lemma OneQuadMore(n: nat)
    ensures (n + 4) * 3 / 4 == 3 + n * 3 / 4
  {
  }

  lemma FirstQuadWhole(input: string)
    requires IsValid(input) && |input| > 4
    ensures Padding(input[..4]) == 0
  {
    NotPadding();
    assert input[..4][3] == input[3] && IsAlphabet(input[3]);
  }

  /** The size computed from the length is the number of bytes decoded. */
  lemma {:induction false} DecodedSizeExact(input: string)
    requires IsValid(input)
    ensures |Decode(input)| == DecodedSize(input)
    decreases |input|
  {
    if |input| > 4 {
      ValidTail(input);
      FirstQuadWhole(input);
      OneQuadMore(|input| - 4);
      DecodedSizeExact(input[4..]);
      hide IsValid, IsAlphabet, DecodeQuad, Padding;
    } else {
      hide IsAlphabet;
    }
  }

  lemma QuadRoundTrip(bytes: seq<Byte>)
    requires 0 < |bytes| <= 3
    ensures DecodeQuad(EncodeQuad(bytes)) == bytes
  {
    hide CharOf, ValueOf, IsAlphabet, Padding, Cut0, Cut1, Cut2, Cut3, Join0, Join1, Join2;
    var a := bytes[0];
    var b := if |bytes| > 1 then bytes[1] else 0;
    var c := if |bytes| > 2 then bytes[2] else 0;
    ValueOfChar(Cut0(a));
    ValueOfChar(Cut1(a, b));
    ValueOfChar(Cut2(b, c));
    ValueOfChar(Cut3(c));
    JoinCut(a, b, c);
    NotPadding();
  }

  lemma NotPadding()
    ensures !IsAlphabet('=')
  {
  }

  /** A whole quad before a text does not change its padding. */
  lemma PaddingAfterQuad(q: string, rest: string)
    requires |q| == 4 && q[3] != '=' && (|rest| == 0 || |rest| >= 4)
    ensures Padding(q + rest) == Padding(rest)
  {
    var s := q + rest;
    assert |s| == 4 + |rest|;
    if rest == "" {
      assert s[|s| - 1] == q[3];
    } else {
      assert s[|s| - 1] == rest[|rest| - 1];
      assert s[|s| - 2] == rest[|rest| - 2];
      assert s[|s| - 3] == rest[|rest| - 3];
    }
  }

  lemma ValidAfterQuad(q: string, rest: string)
    requires |q| == 4 && (forall k :: 0 <= k < 4 ==> IsAlphabet(q[k])) && IsValid(rest)
    ensures IsValid(q + rest) && Padding(q + rest) == Padding(rest)
  {
    NotPadding();
    hide IsAlphabet, Padding;
    PaddingAfterQuad(q, rest);
    var s := q + rest;
    forall k | 0 <= k < |s| - Padding(s) ensures IsAlphabet(s[k]) {
      if k >= 4 {
        assert s[k] == rest[k - 4];
      }
    }
  }

  lemma DecodeAfterQuad(q: string, rest: string)
    requires |q| == 4 && (forall k :: 0 <= k < 4 ==> IsAlphabet(q[k])) && IsValid(rest)
    requires IsValid(q + rest)
    ensures Decode(q + rest) == DecodeQuad(q) + Decode(rest)
  {
    hide IsValid, IsAlphabet, DecodeQuad;
    assert (q + rest)[..4] == q && (q + rest)[4..] == rest;
    if rest == "" {
      assert q + rest == q;
    }
  }

  lemma QuadIsValid(bytes: seq<Byte>)
    requires 0 < |bytes| <= 3
    ensures IsValid(EncodeQuad(bytes)) && Decode(EncodeQuad(bytes)) == bytes
  {
    hide EncodeQuad, IsAlphabet, DecodeQuad;
    NotPadding();
    QuadRoundTrip(bytes);
  }

  /** Every encoding is accepted and decodes to its bytes. */
  lemma {:induction false} EncodeDecode(bytes: seq<Byte>)
    ensures IsValid(Encode(bytes)) && Decode(Encode(bytes)) == bytes
  {
    hide IsValid, IsAlphabet, EncodeQuad, DecodeQuad, Decode;
    if bytes == [] {
      EmptyDecodes();
    } else if |bytes| <= 3 {
      QuadIsValid(bytes);
    } else {
      var head, tail := bytes[..3], bytes[3..];
      var q := EncodeQuad(head);
      assert forall k :: 0 <= k < 4 ==> IsAlphabet(q[k]);
      EncodeDecode(tail);
      QuadRoundTrip(head);
      ValidAfterQuad(q, Encode(tail));
      DecodeAfterQuad(q, Encode(tail));
    }
  }

  lemma EmptyDecodes()
    ensures IsValid("") && Decode("") == []
  {
  }

  lemma {:induction false} EncodedLength(bytes: seq<Byte>)
    ensures |Encode(bytes)| == (|bytes| + 2) / 3 * 4
  {
    hide EncodeQuad;
    if |bytes| > 3 {
      EncodedLength(bytes[3..]);
    }
  }

  lemma CharOfValue(c: char)
    requires IsAlphabet(c)
    ensures CharOf(ValueOf(c)) == c
  {
  }

  lemma CutJoin(v: Sextet, w: Sextet, x: Sextet, y: Sextet)
    ensures Cut0(Join0(v, w)) == v
    ensures Cut1(Join0(v, w), Join1(w, x)) == w
    ensures Cut2(Join1(w, x), Join2(x, y)) == x
    ensures Cut3(Join2(x, y)) == y
    ensures Cut1(Join0(v, w), 0) == w <==> w % 16 == 0
    ensures Cut2(Join1(w, x), 0) == x <==> x % 4 == 0
  {
  }

  /** The bits of a padded quad that decoding drops are all zero. */
  predicate SpareBitsClear(q: string)
    requires |q| == 4 && IsAlphabet(q[1])
    requires q[2] == '=' || IsAlphabet(q[2])
  {
    if q[2] == '=' then ValueOf(q[1]) % 16 == 0
    else q[3] == '=' ==> ValueOf(q[2]) % 4 == 0
  }

  lemma WholeReencoded(q: string)
    requires |q| == 4 && IsAlphabet(q[0]) && IsAlphabet(q[1]) && IsAlphabet(q[2]) && IsAlphabet(q[3])
    ensures EncodeQuad(DecodeQuad(q)) == q
  {
    NotPadding();
    hide CharOf, ValueOf, IsAlphabet, Cut0, Cut1, Cut2, Cut3, Join0, Join1, Join2, Padding;
    CharOfValue(q[0]);
    CharOfValue(q[1]);
    CharOfValue(q[2]);
    CharOfValue(q[3]);
    CutJoin(ValueOf(q[0]), ValueOf(q[1]), ValueOf(q[2]), ValueOf(q[3]));
  }

  lemma OnePadReencoded(q: string)
    requires |q| == 4 && IsAlphabet(q[0]) && IsAlphabet(q[1]) && IsAlphabet(q[2]) && q[3] == '='
    ensures EncodeQuad(DecodeQuad(q)) == q <==> ValueOf(q[2]) % 4 == 0
  {
    NotPadding();
    hide CharOf, ValueOf, IsAlphabet, Cut0, Cut1, Cut2, Cut3, Join0, Join1, Join2, Padding;
    var w, x := ValueOf(q[1]), ValueOf(q[2]);
    CharOfValue(q[0]);
    CharOfValue(q[1]);
    CharOfValue(q[2]);
    CutJoin(ValueOf(q[0]), w, x, 0);
    ValueOfChar(Cut2(Join1(w, x), 0));
    assert EncodeQuad(DecodeQuad(q)) == [q[0], q[1], CharOf(Cut2(Join1(w, x), 0)), '='];
    hide EncodeQuad, DecodeQuad;
    assert q == [q[0], q[1], q[2], '='];
  }

  lemma TwoPadsReencoded(q: string)
    requires |q| == 4 && IsAlphabet(q[0]) && IsAlphabet(q[1]) && q[2] == '=' && q[3] == '='
    ensures EncodeQuad(DecodeQuad(q)) == q <==> ValueOf(q[1]) % 16 == 0
  {
    hide CharOf, ValueOf, IsAlphabet, Cut0, Cut1, Cut2, Cut3, Join0, Join1, Join2, Padding;
    var v, w := ValueOf(q[0]), ValueOf(q[1]);
    CharOfValue(q[0]);
    CharOfValue(q[1]);
    CutJoin(v, w, 0, 0);
    ValueOfChar(Cut1(Join0(v, w), 0));
    assert EncodeQuad(DecodeQuad(q)) == [q[0], CharOf(Cut1(Join0(v, w), 0)), '=', '='];
    hide EncodeQuad, DecodeQuad;
    assert q == [q[0], q[1], '=', '='];
  }

  lemma QuadReencoded(q: string)
    requires |q| == 4 && IsValid(q)
    ensures IsAlphabet(q[0]) && IsAlphabet(q[1])
    ensures (IsAlphabet(q[2]) && (IsAlphabet(q[3]) || q[3] == '=')) || (q[2] == '=' && q[3] == '=')
    ensures EncodeQuad(DecodeQuad(q)) == q <==> SpareBitsClear(q)
  {
    NotPadding();
    OneQuad(q);
    hide IsAlphabet, IsValid, EncodeQuad, DecodeQuad, ValueOf;
    if q[2] == '=' {
      TwoPadsReencoded(q);
    } else if q[3] == '=' {
      OnePadReencoded(q);
    } else {
      WholeReencoded(q);
    }
  }

  lemma LastQuad(input: string)
    requires IsValid(input) && input != ""
    ensures |input| >= 4 && IsAlphabet(input[|input| - 3])
    ensures input[|input| - 2] == '=' || IsAlphabet(input[|input| - 2])
  {
    if Padding(input) < 2 {
      assert IsAlphabet(input[|input| - 2]);
    }
  }

  lemma SpareOf(input: string)
    requires IsValid(input) && |input| > 4
    ensures IsValid(input[4..]) && input[4..] != ""
    ensures input[4..][|input[4..]| - 4..] == input[|input| - 4..]
  {
    ValidTail(input);
  }

  lemma WholeQuadFirst(input: string)
    requires IsValid(input) && |input| > 4
    ensures IsValid(input[..4]) && Padding(input[..4]) == 0 && SpareBitsClear(input[..4])
  {
    ValidTail(input);
    NotPadding();
    var q := input[..4];
    assert IsAlphabet(q[0]) && IsAlphabet(q[1]) && IsAlphabet(q[2]) && IsAlphabet(q[3]);
  }

  lemma EncodeAfterQuad(first: seq<Byte>, rest: seq<Byte>)
    requires |first| == 3
    ensures Encode(first + rest) == EncodeQuad(first) + Encode(rest)
  {
    hide EncodeQuad;
    if rest == [] {
      assert first + rest == first;
    } else {
      assert (first + rest)[..3] == first && (first + rest)[3..] == rest;
    }
  }

  lemma SameAfter(q: string, a: string, b: string)
    ensures q + a == q + b <==> a == b
  {
    if q + a == q + b {
      assert (q + a)[|q|..] == a && (q + b)[|q|..] == b;
    }
  }

  /** An accepted text is the encoding of its bytes exactly when its last quad wastes no set bit. */
  lemma {:induction false} DecodeEncode(input: string)
    requires IsValid(input) && input != ""
    ensures |input| >= 4 && IsAlphabet(input[|input| - 3])
    ensures input[|input| - 2] == '=' || IsAlphabet(input[|input| - 2])
    ensures Encode(Decode(input)) == input <==> SpareBitsClear(input[|input| - 4..])
    decreases |input|
  {
    LastQuad(input);
    hide IsValid, EncodeQuad, DecodeQuad, IsAlphabet, Encode, Padding;
    if |input| == 4 {
      QuadReencoded(input);
      hide SpareBitsClear;
      assert input[|input| - 4..] == input;
      OneQuad(input);
    } else {
      var q, tail := input[..4], input[4..];
      SpareOf(input);
      WholeQuadFirst(input);
      DecodeEncode(tail);
      QuadReencoded(q);
      hide SpareBitsClear;
      WholeQuadSize(q);
      EncodeAfterQuad(DecodeQuad(q), Decode(tail));
      SameAfter(q, Encode(Decode(tail)), tail);
      assert q + tail == input;
    }
  }

  lemma WholeQuadSize(q: string)
    requires IsValid(q) && |q| == 4 && Padding(q) == 0
    ensures IsAlphabet(q[0]) && IsAlphabet(q[1]) && IsAlphabet(q[2]) && IsAlphabet(q[3])
    ensures |DecodeQuad(q)| == 3
  {
  }

  lemma OneQuad(q: string)
    requires IsValid(q) && |q| == 4
    ensures IsAlphabet(q[0]) && IsAlphabet(q[1])
    ensures (IsAlphabet(q[2]) && (IsAlphabet(q[3]) || q[3] == '=')) || (q[2] == '=' && q[3] == '=')
    ensures Decode(q) == DecodeQuad(q) && Encode(Decode(q)) == EncodeQuad(DecodeQuad(q))
  {
  }

  /** An encoding passes the cap exactly when its bytes do. */
  lemma CapIsExact(bytes: seq<Byte>, maxBytes: nat)
    ensures DecodedSize(Encode(bytes)) <= maxBytes <==> |bytes| <= maxBytes
  {
    hide IsValid, Decode, DecodedSize, Encode;
    EncodeDecode(bytes);
    DecodedSizeExact(Encode(bytes));
  }

  /** The image cap on string length admits every image in size, and one byte too many at most. */
  lemma ImageCap(bytes: seq<Byte>, input: string)
    requires IsValid(input)
    ensures |bytes| <= MAX_IMAGE_BYTES ==> |Encode(bytes)| <= MAX_IMAGE_BASE64_LENGTH
    ensures |input| <= MAX_IMAGE_BASE64_LENGTH ==> |Decode(input)| <= MAX_IMAGE_BYTES + 1
  {
    hide IsValid, Decode, Encode, Padding;
    EncodedLength(bytes);
    DecodedSizeExact(input);
  }
}
