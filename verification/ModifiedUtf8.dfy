/**
  The string path of the binding.  A Java string is a sequence of UTF-16 code units; it reaches the
  library as modified UTF-8 (section 4.4.7 of the Java Virtual Machine Specification) in a
  zero-terminated buffer, and comes back by decoding the bytes up to the first zero.
 */
module ModifiedUtf8 {
  import opened Options

  type Unit = u: int | 0 <= u < 0x1_0000
  type Byte = b: int | 0 <= b < 0x100
  type JavaString = seq<Unit>
  type Bytes = seq<Byte>

  // ---------------------------------------------------------------- encoding

  /** What GetStringUTFChars writes for one code unit; a surrogate is encoded like any other unit. */
  function EncodeUnit(u: Unit): Bytes {
    if 1 <= u <= 0x7F then [u]
    else if u <= 0x7FF then [0xC0 + u / 0x40, 0x80 + u % 0x40]
    else [0xE0 + u / 0x1000, 0x80 + u / 0x40 % 0x40, 0x80 + u % 0x40]
  }

  function Encode(s: JavaString): Bytes {
    if s == [] then [] else EncodeUnit(s[0]) + Encode(s[1..])
  }

  // ---------------------------------------------------------------- decoding

  predicate Continuation(b: Byte) {
    0x80 <= b <= 0xBF
  }

  /** The length of the group that starts `b`, or 0 when no group does (zero byte, stray or 4-byte lead, cut group). */
  function GroupLength(b: Bytes): nat
    requires b != []
  {
    if 1 <= b[0] <= 0x7F then 1
    else if 0xC0 <= b[0] <= 0xDF && |b| >= 2 && Continuation(b[1]) then 2
    else if 0xE0 <= b[0] <= 0xEF && |b| >= 3 && Continuation(b[1]) && Continuation(b[2]) then 3
    else 0
  }

  function GroupUnit(b: Bytes): Unit
    requires b != [] && GroupLength(b) != 0
  {
    var n := GroupLength(b);
    if n == 1 then b[0]
    else if n == 2 then Join(b[0], 0xC0, b[1])
    else Join(Join(b[0], 0xE0, b[1]), 0, b[2])
  }

  /** Appends the six payload bits of a continuation byte to the bits of `high` above its tag. */
  function Join(high: int, tag: int, low: int): int {
    (high - tag) * 0x40 + (low - 0x80)
  }

  /** What NewStringUTF reads; None where the bytes are not modified UTF-8. */
  function Decode(b: Bytes): Option<JavaString>
    decreases |b|
  {
    if b == [] then Some([])
    else if GroupLength(b) == 0 then None
    else match Decode(b[GroupLength(b)..])
      case None => None
      case Some(rest) => Some([GroupUnit(b)] + rest)
  }

  // ---------------------------------------------------------------- C strings

  /** The value of strlen on a buffer that holds a zero byte. */
  function StrLen(buffer: Bytes): (n: nat)
    requires 0 in buffer
    ensures n < |buffer| && buffer[n] == 0 && 0 !in buffer[..n]
  {
    if buffer[0] == 0 then 0
    else
      assert buffer == [buffer[0]] + buffer[1..];
      var m := StrLen(buffer[1..]);
      assert buffer[..m + 1] == [buffer[0]] + buffer[1..][..m];
      m + 1
  }

  /** The bytes a zero-terminated reader sees in `b` once the library has appended its terminator. */
  function CutAtZero(b: Bytes): Bytes {
    (b + [0])[..StrLen(b + [0])]
  }

  /** The buffer GetStringUTFChars returns. */
  function Utf8Chars(s: JavaString): Bytes {
    Encode(s) + [0]
  }

  /** The bytes handed on by `strlen(value)` or `std::string(value)` (bind, result, SQL and name paths). */
  function NativeText(s: JavaString): Bytes {
    Utf8Chars(s)[..StrLen(Utf8Chars(s))]
  }

  /** `NewStringUTF` applied to zero-terminated library text. */
  function TextToJava(stored: Bytes): Option<JavaString> {
    Decode(CutAtZero(stored))
  }

  // ---------------------------------------------------------------- round trip

  lemma EncodeUnitIsGroup(u: Unit, rest: Bytes)
    ensures var b := EncodeUnit(u) + rest;
            b != [] && GroupLength(b) == |EncodeUnit(u)| && GroupUnit(b) == u && b[GroupLength(b)..] == rest
  {
    var b := EncodeUnit(u) + rest;
    assert b[|EncodeUnit(u)|..] == rest;
    if u > 0x7FF {
      assert u / 0x1000 == u / 0x40 / 0x40;
    }
  }

  /** Decoding undoes encoding, for NUL and for unpaired surrogates too. */
  lemma {:induction false} DecodeEncode(s: JavaString)
    ensures Decode(Encode(s)) == Some(s)
  {
    if s == [] {
    } else {
      DecodeEncode(s[1..]);
      EncodeUnitIsGroup(s[0], Encode(s[1..]));
      assert s == [s[0]] + s[1..];
    }
  }

  lemma EncodeInjective(s: JavaString, t: JavaString)
    requires Encode(s) == Encode(t)
    ensures s == t
  {
    DecodeEncode(s);
    DecodeEncode(t);
  }

  lemma {:induction false} EncodeHasNoZero(s: JavaString)
    ensures 0 !in Encode(s)
  {
    if s == [] {
    } else {
      EncodeHasNoZero(s[1..]);
      assert 0 !in EncodeUnit(s[0]);
    }
  }

  lemma StrLenOfTerminated(b: Bytes)
    requires 0 !in b
    ensures StrLen(b + [0]) == |b| && (b + [0])[..StrLen(b + [0])] == b
  {
    assert forall i | 0 <= i < |b| :: (b + [0])[i] == b[i] && b[i] in b;
    assert StrLen(b + [0]) == |b|;
    assert (b + [0])[..|b|] == b;
  }

  /** No zero-terminated copy shortens a string, and two different strings stay different. */
  lemma NativeTextKeepsString(s: JavaString, t: JavaString)
    ensures NativeText(s) == Encode(s) && 0 !in NativeText(s)
    ensures Decode(NativeText(s)) == Some(s)
    ensures NativeText(s) == NativeText(t) <==> s == t
  {
    EncodeHasNoZero(s);
    EncodeHasNoZero(t);
    StrLenOfTerminated(Encode(s));
    StrLenOfTerminated(Encode(t));
    DecodeEncode(s);
    DecodeEncode(t);
  }

  /** bindString followed by getColumnString, through a store that keeps the bytes. */
  lemma StringRoundTrip(s: JavaString)
    ensures TextToJava(NativeText(s)) == Some(s)
  {
    NativeTextKeepsString(s, s);
    StrLenOfTerminated(NativeText(s));
  }

  lemma CutAtZeroIsPrefix(b: Bytes)
    ensures CutAtZero(b) <= b && 0 !in CutAtZero(b)
    ensures CutAtZero(b) == b <==> 0 !in b
    ensures CutAtZero(b) != b ==> |CutAtZero(b)| < |b| && b[|CutAtZero(b)|] == 0
  {
    var n := StrLen(b + [0]);
    if 0 !in b {
      StrLenOfTerminated(b);
    } else {
      assert (b + [0])[..|b|] == b;
      assert n < |b|;
    }
    assert (b + [0])[..n] == b[..n];
  }

  // ---------------------------------------------------------------- which byte strings are encodings

  /** Every group is the shortest one for its unit, with NUL as the two-byte group. */
  predicate Shortest(b: Bytes)
    decreases |b|
  {
    b == [] ||
    (&& GroupLength(b) != 0
     && GroupLength(b) == |EncodeUnit(GroupUnit(b))|
     && Shortest(b[GroupLength(b)..]))
  }

  lemma JoinSplits(high: int, tag: int, low: int)
    requires 0x80 <= low <= 0xBF
    ensures Join(high, tag, low) / 0x40 == high - tag && Join(high, tag, low) % 0x40 == low - 0x80
  {
  }

  lemma GroupIsEncodedUnit(b: Bytes)
    requires b != [] && GroupLength(b) != 0
    ensures GroupLength(b) == |EncodeUnit(GroupUnit(b))| <==> b[..GroupLength(b)] == EncodeUnit(GroupUnit(b))
  {
    var n, u := GroupLength(b), GroupUnit(b);
    if n == 2 {
      JoinSplits(b[0], 0xC0, b[1]);
      assert b[..2] == [b[0], b[1]];
    } else if n == 3 {
      JoinSplits(b[0], 0xE0, b[1]);
      JoinSplits(Join(b[0], 0xE0, b[1]), 0, b[2]);
      assert u / 0x40 / 0x40 == u / 0x1000;
      assert b[..3] == [b[0], b[1], b[2]];
    } else {
      assert b[..1] == [b[0]];
    }
  }

  /** A byte string is the encoding of some string exactly when its groups are shortest. */
  lemma {:induction false} EncodeDecode(b: Bytes)
    ensures Shortest(b) <==> Decode(b).Some? && Encode(Decode(b).value) == b
    decreases |b|
  {
    if b == [] || GroupLength(b) == 0 {
    } else {
      var n, u := GroupLength(b), GroupUnit(b);
      var tail := b[n..];
      EncodeDecode(tail);
      GroupIsEncodedUnit(b);
      assert b == b[..n] + tail;
      if Decode(tail).Some? {
        var s := Decode(b).value;
        assert s[0] == u && s[1..] == Decode(tail).value;
        if Encode(s) == b {
          EncodeUnitIsGroup(u, Encode(s[1..]));
        }
      }
    }
  }
}
