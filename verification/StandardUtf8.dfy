/**
  How the bytes of this binding relate to standard UTF-8 (section 4 of RFC 3629), which is what the
  library documents for text, and how text stored by other programs reads back.
 */
module StandardUtf8 {
  import opened ModifiedUtf8

  /** The length of the well-formed UTF-8 sequence that starts `b`, or 0 when there is none. */
  function Utf8Length(b: Bytes): nat
    requires b != []
  {
    if b[0] <= 0x7F then 1
    else if |b| >= 2 && 0xC2 <= b[0] <= 0xDF && Continuation(b[1]) then 2
    else if |b| >= 3 && Utf8ThreeByteStart(b[0], b[1]) && Continuation(b[2]) then 3
    else if |b| >= 4 && Utf8FourByteStart(b[0], b[1]) && Continuation(b[2]) && Continuation(b[3]) then 4
    else 0
  }

  predicate Utf8ThreeByteStart(b0: Byte, b1: Byte) {
    || (b0 == 0xE0 && 0xA0 <= b1 <= 0xBF)
    || (0xE1 <= b0 <= 0xEC && Continuation(b1))
    || (b0 == 0xED && 0x80 <= b1 <= 0x9F)
    || (0xEE <= b0 <= 0xEF && Continuation(b1))
  }

  predicate Utf8FourByteStart(b0: Byte, b1: Byte) {
    || (b0 == 0xF0 && 0x90 <= b1 <= 0xBF)
    || (0xF1 <= b0 <= 0xF3 && Continuation(b1))
    || (b0 == 0xF4 && 0x80 <= b1 <= 0x8F)
  }

  predicate IsUtf8(b: Bytes)
    decreases |b|
  {
    b == [] || (Utf8Length(b) != 0 && Utf8Length(b) <= |b| && IsUtf8(b[Utf8Length(b)..]))
  }

  predicate Surrogate(u: Unit) {
    0xD800 <= u <= 0xDFFF
  }

  predicate PlainUnit(u: Unit) {
    u != 0 && !Surrogate(u)
  }

  lemma EncodedUnitInUtf8(u: Unit, rest: Bytes)
    ensures var b := EncodeUnit(u) + rest;
            && (PlainUnit(u) ==> Utf8Length(b) == |EncodeUnit(u)| && b[Utf8Length(b)..] == rest)
            && (!PlainUnit(u) ==> Utf8Length(b) == 0)
  {
    var b := EncodeUnit(u) + rest;
    assert b[|EncodeUnit(u)|..] == rest;
    if u > 0x7FF {
      assert u / 0x1000 == u / 0x40 / 0x40;
    }
  }

  /** The bytes bound for `s` are standard UTF-8 exactly when `s` has no NUL and no surrogate. */
  lemma {:induction false} EncodeIsUtf8(s: JavaString)
    ensures IsUtf8(Encode(s)) <==> forall i | 0 <= i < |s| :: PlainUnit(s[i])
  {
    if s == [] {
    } else {
      EncodeIsUtf8(s[1..]);
      EncodedUnitInUtf8(s[0], Encode(s[1..]));
      assert forall i | 1 <= i < |s| :: s[i] == s[1..][i - 1];
    }
  }

  /** No byte starts a four-byte sequence. */
  predicate NoFourByte(b: Bytes) {
    forall i :: 0 <= i < |b| ==> b[i] < 0xF0
  }

  lemma NoFourByteSplit(b: Bytes, n: nat)
    requires n <= |b|
    ensures NoFourByte(b) <==> NoFourByte(b[..n]) && NoFourByte(b[n..])
  {
    assert forall i :: n <= i < |b| ==> b[i] == b[n..][i - n];
  }

  /** A shortest group in front of bytes that read back reads back too. */
  lemma DecodeUnfolds(b: Bytes)
    requires b != [] && GroupLength(b) != 0
    ensures Decode(b).Some? <==> Decode(b[GroupLength(b)..]).Some?
    ensures Decode(b).Some? && b[..GroupLength(b)] == EncodeUnit(GroupUnit(b))
            && Encode(Decode(b[GroupLength(b)..]).value) == b[GroupLength(b)..]
            ==> Encode(Decode(b).value) == b
  {
    var n := GroupLength(b);
    if Decode(b[n..]).Some? {
      assert Decode(b).value[1..] == Decode(b[n..]).value;
      assert b == b[..n] + b[n..];
    }
  }

  /** What DecodeOfUtf8 says about one byte string. */
  predicate ReadsBack(b: Bytes) {
    && (Decode(b).Some? <==> NoFourByte(b))
    && (Decode(b).Some? ==> Encode(Decode(b).value) == b)
  }

  lemma ReadsBackStep(b: Bytes)
    requires b != [] && b[0] != 0 && 0 < Utf8Length(b) <= |b| && ReadsBack(b[Utf8Length(b)..])
    ensures ReadsBack(b)
  {
    var n := Utf8Length(b);
    Utf8SequenceAsGroup(b);
    NoFourByteSplit(b, n);
    if n == 4 {
      assert b[0] >= 0xF0;
    } else {
      DecodeUnfolds(b);
    }
  }

  /**
    Standard UTF-8 without zero bytes, whoever wrote it, is readable exactly when it holds no four-byte
    sequence; what is then read encodes back to the same bytes.
   */
  lemma {:induction false} DecodeOfUtf8(b: Bytes)
    requires IsUtf8(b) && 0 !in b
    ensures ReadsBack(b)
    decreases |b|
  {
    if b == [] {
    } else {
      assert b[0] in b;
      DecodeOfUtf8(b[Utf8Length(b)..]);
      ReadsBackStep(b);
    }
  }

  /** A sequence of one to three bytes is the encoding of one unit; a four-byte one is no group at all. */
  lemma Utf8SequenceAsGroup(b: Bytes)
    requires b != [] && b[0] != 0 && Utf8Length(b) != 0
    ensures Utf8Length(b) == 4 ==> GroupLength(b) == 0 && b[0] >= 0xF0
    ensures Utf8Length(b) != 4 ==>
              && GroupLength(b) == Utf8Length(b)
              && b[..GroupLength(b)] == EncodeUnit(GroupUnit(b))
              && NoFourByte(b[..GroupLength(b)])
  {
    if Utf8Length(b) != 4 {
      assert GroupLength(b) == Utf8Length(b);
      GroupIsEncodedUnit(b);
    }
  }

  /**
    What getColumnString gives for any UTF-8 text in the database: the part before the first zero
    byte, provided that part has no four-byte sequence; the whole text only if it has no zero byte.
   */
  lemma ForeignTextReadsBack(b: Bytes)
    requires IsUtf8(b)
    ensures IsUtf8(CutAtZero(b))
    ensures TextToJava(b).Some? <==> NoFourByte(CutAtZero(b))
    ensures TextToJava(b).Some? ==> Encode(TextToJava(b).value) == CutAtZero(b)
    ensures TextToJava(b).Some? && Encode(TextToJava(b).value) == b <==> NoFourByte(b) && 0 !in b
  {
    CutAtZeroIsPrefix(b);
    Utf8Prefix(b, |CutAtZero(b)|);
    assert b[..|CutAtZero(b)|] == CutAtZero(b);
    DecodeOfUtf8(CutAtZero(b));
  }

  /** Cutting UTF-8 in front of a zero byte (or at its end) cuts between two sequences. */
  lemma {:induction false} Utf8Prefix(b: Bytes, k: nat)
    requires IsUtf8(b) && k <= |b|
    requires k < |b| ==> b[k] == 0
    ensures IsUtf8(b[..k])
    decreases |b|
  {
    if k == 0 {
    } else if k == |b| {
      assert b[..k] == b;
    } else {
      var n := Utf8Length(b);
      assert n <= k;
      Utf8Prefix(b[n..], k - n);
      assert b[..k][n..] == b[n..][..k - n];
      assert Utf8Length(b[..k]) == n;
    }
  }

  // ---------------------------------------------------------------- which characters the bytes denote

  /** How many bytes the lead byte announces (section 3 of RFC 3629). */
  function SequenceLength(lead: Byte): nat {
    if lead < 0x80 then 1 else if lead < 0xE0 then 2 else if lead < 0xF0 then 3 else 4
  }

  /** The payload bits of the first sequence: those below the lead's length mark, then six from each byte that follows. */
  function CodePoint(b: Bytes): nat
    requires b != [] && |b| >= SequenceLength(b[0])
  {
    match SequenceLength(b[0])
    case 1 => b[0]
    case 2 => Low(b[0], 0x20) * 0x40 + Low(b[1], 0x40)
    case 3 => Low(b[0], 0x10) * 0x1000 + Low(b[1], 0x40) * 0x40 + Low(b[2], 0x40)
    case _ => Low(b[0], 0x08) * 0x4_0000 + Low(b[1], 0x40) * 0x1000 + Low(b[2], 0x40) * 0x40 + Low(b[3], 0x40)
  }

  function Low(b: Byte, unit: nat): nat
    requires unit > 0
  {
    b % unit
  }

  /** The code points of a byte string, one for each sequence; a cut sequence at the end denotes nothing. */
  function CodePoints(b: Bytes): seq<nat>
    decreases |b|
  {
    if b == [] || |b| < SequenceLength(b[0]) then []
    else [CodePoint(b)] + CodePoints(b[SequenceLength(b[0])..])
  }

  /** The least code point that needs `n` bytes. */
  function LeastOf(n: nat): nat {
    if n <= 1 then 0 else if n == 2 then 0x80 else if n == 3 then 0x800 else 0x1_0000
  }

  predicate ScalarValue(c: nat) {
    c < 0x11_0000 && !(0xD800 <= c <= 0xDFFF)
  }

  /** As long as announced, in shortest form, and denoting a Unicode scalar value. */
  predicate StartsWellFormed(b: Bytes)
    requires b != []
  {
    && !Continuation(b[0]) && b[0] < 0xF8
    && SequenceLength(b[0]) <= |b|
    && (forall i :: 1 <= i < SequenceLength(b[0]) ==> Continuation(b[i]))
    && LeastOf(SequenceLength(b[0])) <= CodePoint(b) && ScalarValue(CodePoint(b))
  }

  lemma ThreeByteStart(b: Bytes)
    requires b != [] && SequenceLength(b[0]) == 3
    ensures Utf8Length(b) == 3 <==> StartsWellFormed(b)
  {
  }

  lemma FourByteStart(b: Bytes)
    requires b != [] && SequenceLength(b[0]) == 4
    ensures Utf8Length(b) == 4 <==> StartsWellFormed(b)
  {
  }

  /** The byte ranges of a well-formed sequence are those of the shortest forms of scalar values. */
  lemma Utf8LengthMeans(b: Bytes)
    requires b != []
    ensures Utf8Length(b) == 0 || Utf8Length(b) == SequenceLength(b[0])
    ensures Utf8Length(b) != 0 <==> StartsWellFormed(b)
  {
    if SequenceLength(b[0]) == 3 {
      ThreeByteStart(b);
    } else if SequenceLength(b[0]) == 4 {
      FourByteStart(b);
    }
  }

  lemma GroupDenotesUnit(b: Bytes)
    requires b != [] && GroupLength(b) != 0
    ensures SequenceLength(b[0]) == GroupLength(b) && CodePoint(b) == GroupUnit(b)
  {
  }

  /** Bytes that can be read at all are read as the code points they denote. */
  lemma {:induction false} DecodeGivesCodePoints(b: Bytes)
    requires Decode(b).Some?
    ensures Decode(b).value == CodePoints(b)
    decreases |b|
  {
    if b == [] {
    } else {
      DecodeGivesCodePoints(b[GroupLength(b)..]);
      GroupDenotesUnit(b);
    }
  }

  /** What is bound for a string denotes that string: each UTF-16 unit, also U+0000 and a surrogate, as a code point of its own. */
  lemma BoundTextDenotes(s: JavaString)
    ensures CodePoints(NativeText(s)) == s
  {
    NativeTextKeepsString(s, s);
    DecodeGivesCodePoints(NativeText(s));
  }

  /** What is read of any text are the code points before its first zero byte. */
  lemma TextReadDenotes(b: Bytes)
    requires TextToJava(b).Some?
    ensures TextToJava(b).value == CodePoints(CutAtZero(b))
    ensures 0 !in b ==> TextToJava(b).value == CodePoints(b)
  {
    DecodeGivesCodePoints(CutAtZero(b));
    CutAtZeroIsPrefix(b);
  }
}
