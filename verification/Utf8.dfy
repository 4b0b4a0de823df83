/** UTF-8 as the Rust standard library reads it: which byte strings are valid text, and their code
    points (RFC 3629, section 4). Overlong forms, surrogates and code points above 0x10FFFF are not valid.
    Decoding goes piece by piece, and an ASCII byte is never part of a longer character. White space here
    is the Unicode property White_Space, which differs from what Python calls white space. */
module Utf8 {
  import opened Ordering
  import opened Results

  predicate IsTail(b: byte) { 0x80 <= b <= 0xBF }

  /** The length of the character at the front of b; 0 if there is none. */
  function CharLength(b: Bytes): (n: nat)
    ensures n <= 4 && n <= |b|
  {
    if b == [] then 0
    else if b[0] < 0x80 then 1
    else if |b| > 1 && 0xC2 <= b[0] <= 0xDF && IsTail(b[1]) then 2
    else if |b| > 2 && SecondOfThree(b[0], b[1]) && IsTail(b[2]) then 3
    else if |b| > 3 && SecondOfFour(b[0], b[1]) && IsTail(b[2]) && IsTail(b[3]) then 4
    else 0
  }

  predicate SecondOfThree(first: byte, second: byte) {
    || (first == 0xE0 && 0xA0 <= second <= 0xBF)
    || ((0xE1 <= first <= 0xEC || 0xEE <= first <= 0xEF) && IsTail(second))
    || (first == 0xED && 0x80 <= second <= 0x9F)
  }

  predicate SecondOfFour(first: byte, second: byte) {
    || (first == 0xF0 && 0x90 <= second <= 0xBF)
    || (0xF1 <= first <= 0xF3 && IsTail(second))
    || (first == 0xF4 && 0x80 <= second <= 0x8F)
  }

  /** Six bits from a tail byte. */
  function Six(b: byte): int { b as int - 0x80 }

  function CodePoint(b: Bytes): int
    requires CharLength(b) > 0
  {
    var first := b[0] as int;
    match CharLength(b)
    case 1 => first
    case 2 => (first - 0xC0) * 0x40 + Six(b[1])
    case 3 => ((first - 0xE0) * 0x40 + Six(b[1])) * 0x40 + Six(b[2])
    case _ => (((first - 0xF0) * 0x40 + Six(b[1])) * 0x40 + Six(b[2])) * 0x40 + Six(b[3])
  }

  /** The code points of b; None if b is not valid UTF-8. */
  function Decode(b: Bytes): Option<seq<int>> {
    if b == [] then Some([])
    else
      var n := CharLength(b);
      if n == 0 then None
      else
        match Decode(b[n..])
        case None => None
        case Some(rest) => Some([CodePoint(b)] + rest)
  }

  lemma CharLengthAppend(a: Bytes, b: Bytes)
    requires CharLength(a) > 0
    ensures CharLength(a + b) == CharLength(a) && CodePoint(a + b) == CodePoint(a)
  {
  }

  /** Decoding goes piece by piece. */
  lemma {:induction false} DecodeAppend(a: Bytes, b: Bytes)
    requires Decode(a).Some? && Decode(b).Some?
    ensures Decode(a + b) == Some(Decode(a).value + Decode(b).value)
  {
    hide CodePoint, CharLength;
    if a == [] {
      assert a + b == b && Decode(a).value + Decode(b).value == Decode(b).value;
    } else {
      var n := CharLength(a);
      CharLengthAppend(a, b);
      assert (a + b)[n..] == a[n..] + b;
      DecodeAppend(a[n..], b);
      var rest := Decode(a[n..]).value;
      assert [CodePoint(a)] + (rest + Decode(b).value) == ([CodePoint(a)] + rest) + Decode(b).value;
    }
  }

  /** After valid text, what follows decides whether the whole is valid. */
  lemma {:induction false} DecodeTail(a: Bytes, b: Bytes)
    requires Decode(a).Some?
    ensures Decode(a + b).Some? <==> Decode(b).Some?
  {
    hide CodePoint, CharLength;
    if a == [] {
      assert a + b == b;
    } else {
      var n := CharLength(a);
      CharLengthAppend(a, b);
      assert (a + b)[n..] == a[n..] + b;
      DecodeTail(a[n..], b);
    }
  }

  /** Before an ASCII byte a character cannot go on, so both sides must be valid by themselves. */
  lemma {:induction false} DecodeSplit(a: Bytes, b: Bytes)
    requires b == [] || b[0] < 0x80
    ensures Decode(a + b).Some? <==> Decode(a).Some? && Decode(b).Some?
  {
    if a == [] {
      assert a + b == b;
    } else {
      CharLengthSplit(a, b);
      hide CodePoint, CharLength;
      var n := CharLength(a);
      if n > 0 {
        assert (a + b)[n..] == a[n..] + b;
        DecodeSplit(a[n..], b);
      }
    }
  }

  lemma CharLengthSplit(a: Bytes, b: Bytes)
    requires a != [] && (b == [] || b[0] < 0x80)
    ensures CharLength(a + b) == CharLength(a)
  {
    if b == [] {
      assert a + b == a;
    }
  }

  /** ASCII bytes are their own code points. */
  lemma {:induction false} DecodeAscii(a: Bytes)
    requires forall i :: 0 <= i < |a| ==> a[i] < 0x80
    ensures Decode(a).Some? && |Decode(a).value| == |a|
    ensures forall i :: 0 <= i < |a| ==> Decode(a).value[i] == a[i] as int
  {
    if a == [] {
    } else {
      DecodeAscii(a[1..]);
      assert CharLength(a) == 1;
      var d := Decode(a[1..]).value;
      assert Decode(a).value == [a[0] as int] + d;
    }
  }

  /** What UTF-8 can write: every code point but the surrogates. */
  predicate IsScalar(c: int) {
    0 <= c < 0xD800 || 0xE000 <= c <= 0x10FFFF
  }

  /** A code point in the shortest of the four forms that holds it. */
  function EncodeChar(c: int): (b: Bytes)
    requires IsScalar(c)
    ensures 1 <= |b| <= 4
  {
    if c < 0x80 then [c]
    else if c < 0x800 then [0xC0 + c / 0x40, 0x80 + c % 0x40]
    else if c < 0x1_0000 then [0xE0 + c / 0x1000, 0x80 + c / 0x40 % 0x40, 0x80 + c % 0x40]
    else [0xF0 + c / 0x4_0000, 0x80 + c / 0x1000 % 0x40, 0x80 + c / 0x40 % 0x40, 0x80 + c % 0x40]
  }

  predicate AreScalars(s: seq<int>) {
    forall i :: 0 <= i < |s| ==> IsScalar(s[i])
  }

  function EncodeText(s: seq<int>): Bytes
    requires AreScalars(s)
  {
    if s == [] then [] else EncodeChar(s[0]) + EncodeText(s[1..])
  }

  /** The encoding of a code point is one character, and it means that code point. */
  lemma EncodedChar(c: int)
    requires IsScalar(c)
    ensures CharLength(EncodeChar(c)) == |EncodeChar(c)| && CodePoint(EncodeChar(c)) == c
  {
    var q := c / 0x1000;
    assert c / 0x40 / 0x40 == q && q / 0x40 == c / 0x4_0000;
    assert c == (c / 0x40) * 0x40 + c % 0x40;
    assert c / 0x40 == q * 0x40 + c / 0x40 % 0x40;
    assert q == (c / 0x4_0000) * 0x40 + q % 0x40;
  }

  lemma Digits(x: int, y: int)
    requires 0 <= y < 0x40
    ensures (x * 0x40 + y) / 0x40 == x && (x * 0x40 + y) % 0x40 == y
  {
  }

  lemma ThreeDigits(x: int, y: int, z: int)
    requires 0 <= y < 0x40 && 0 <= z < 0x40
    ensures var c := (x * 0x40 + y) * 0x40 + z;
            c / 0x1000 == x && c / 0x40 % 0x40 == y && c % 0x40 == z && c / 0x40 == x * 0x40 + y
  {
    var c := (x * 0x40 + y) * 0x40 + z;
    Digits(x * 0x40 + y, z);
    Digits(x, y);
    assert c / 0x1000 == c / 0x40 / 0x40;
  }

  /** A character is the encoding of what it means. */
  lemma CharIsEncoded(b: Bytes)
    requires CharLength(b) > 0
    ensures IsScalar(CodePoint(b)) && EncodeChar(CodePoint(b)) == b[..CharLength(b)]
  {
    var n := CharLength(b);
    if n == 2 {
      Digits(b[0] as int - 0xC0, Six(b[1]));
      assert b[..2] == [b[0], b[1]];
    } else if n == 3 {
      ThreeBytes(b);
    } else if n == 4 {
      FourBytes(b);
    }
  }

  lemma ThreeBytes(b: Bytes)
    requires CharLength(b) == 3
    ensures IsScalar(CodePoint(b)) && EncodeChar(CodePoint(b)) == b[..3]
  {
    var x, y, z := b[0] as int - 0xE0, Six(b[1]), Six(b[2]);
    ThreeDigits(x, y, z);
    assert 0x800 <= CodePoint(b) < 0x1_0000;
    assert b[..3] == [b[0], b[1], b[2]];
  }

  lemma FourBytes(b: Bytes)
    requires CharLength(b) == 4
    ensures IsScalar(CodePoint(b)) && EncodeChar(CodePoint(b)) == b[..4]
  {
    var x, y, z, w := b[0] as int - 0xF0, Six(b[1]), Six(b[2]), Six(b[3]);
    var c := CodePoint(b);
    ThreeDigits(x * 0x40 + y, z, w);
    Digits(x, y);
    assert c / 0x4_0000 == c / 0x1000 / 0x40;
    assert 0x1_0000 <= c <= 0x10FFFF;
    assert b[..4] == [b[0], b[1], b[2], b[3]];
  }

  /** Every text can be written and is read back. */
  lemma {:induction false} EncodedIsText(s: seq<int>)
    requires AreScalars(s)
    ensures Decode(EncodeText(s)) == Some(s)
  {
    hide CodePoint, CharLength, EncodeChar;
    if s == [] {
    } else {
      var b, rest := EncodeChar(s[0]), EncodeText(s[1..]);
      EncodedIsText(s[1..]);
      EncodedChar(s[0]);
      CharLengthAppend(b, rest);
      assert (b + rest)[|b|..] == rest;
      assert s == [s[0]] + s[1..];
    }
  }

  /** What is read is the only way to write it. */
  lemma {:induction false} TextIsEncoded(b: Bytes)
    requires Decode(b).Some?
    ensures AreScalars(Decode(b).value) && EncodeText(Decode(b).value) == b
  {
    hide CodePoint, CharLength, EncodeChar;
    if b == [] {
    } else {
      var n := CharLength(b);
      CharIsEncoded(b);
      TextIsEncoded(b[n..]);
      var rest := Decode(b[n..]).value;
      assert Decode(b).value == [CodePoint(b)] + rest;
      assert Decode(b).value[1..] == rest;
      assert b == b[..n] + b[n..];
    }
  }

  /** Unicode White_Space, what str::trim removes. */
  predicate IsWhite(c: int) {
    || 0x09 <= c <= 0x0D || c == 0x20 || c == 0x85 || c == 0xA0 || c == 0x1680 || 0x2000 <= c <= 0x200A
    || c == 0x2028 || c == 0x2029 || c == 0x202F || c == 0x205F || c == 0x3000
  }

  /** The 25 code points with that property, one by one. */
  lemma WhiteListed(c: int)
    ensures var all := {9, 10, 11, 12, 13, 32, 133, 160, 5760, 8192, 8193, 8194, 8195, 8196, 8197, 8198, 8199, 8200,
                        8201, 8202, 8232, 8233, 8239, 8287, 12288};
            IsWhite(c) <==> c in all
  {
  }

  /** What is left after trimming: the text between its first and its last character that is not white. */
  lemma {:induction false} TrimMeaning(before: seq<int>, s: seq<int>, after: seq<int>)
    requires forall i :: 0 <= i < |before| ==> IsWhite(before[i])
    requires forall i :: 0 <= i < |after| ==> IsWhite(after[i])
    requires s == [] || (!IsWhite(s[0]) && !IsWhite(s[|s| - 1]))
    ensures Trim(before + s + after) == s
  {
    hide IsWhite;
    var rest := s + after;
    StartTrimmed(before, rest);
    assert before + s + after == before + rest;
    if s == [] {
      assert rest == after;
      StartTrimmed(after, []);
      assert after + [] == after;
    } else {
      EndTrimmed(s, after);
      assert TrimStart(rest) == rest;
    }
  }

  lemma {:induction false} StartTrimmed(before: seq<int>, rest: seq<int>)
    requires forall i :: 0 <= i < |before| ==> IsWhite(before[i])
    ensures TrimStart(before + rest) == TrimStart(rest)
  {
    hide IsWhite;
    if before == [] {
      assert before + rest == rest;
    } else {
      assert (before + rest)[1..] == before[1..] + rest;
      StartTrimmed(before[1..], rest);
    }
  }

  lemma {:induction false} EndTrimmed(s: seq<int>, after: seq<int>)
    requires forall i :: 0 <= i < |after| ==> IsWhite(after[i])
    requires s == [] || !IsWhite(s[|s| - 1])
    ensures TrimEnd(s + after) == s
  {
    hide IsWhite;
    if after == [] {
      assert s + after == s;
    } else {
      var k := |after| - 1;
      assert (s + after)[..|s + after| - 1] == s + after[..k];
      EndTrimmed(s, after[..k]);
    }
  }

  function TrimStart(s: seq<int>): seq<int> {
    if s != [] && IsWhite(s[0]) then TrimStart(s[1..]) else s
  }

  function TrimEnd(s: seq<int>): (r: seq<int>)
    ensures r <= s
  {
    if s != [] && IsWhite(s[|s| - 1]) then TrimEnd(s[..|s| - 1]) else s
  }

  function Trim(s: seq<int>): seq<int> {
    TrimEnd(TrimStart(s))
  }
}
