/** Well-formed UTF-8, as section 4 of RFC 3629 spells it out and `str` guarantees. */
module Utf8 {
  import opened Bytes

  predicate Tail(b: Byte) {
    0x80 <= b <= 0xBF
  }

  predicate Tails(s: Str, from: nat, to: nat)
    requires to <= |s|
  {
    forall i | from <= i < to :: Tail(s[i])
  }

  /** Length of the character at the front, or 0 if there is no well-formed one. */
  function CharWidth(s: Str): (w: nat)
    ensures w <= |s| && w <= 4
  {
    if s == [] then 0
    else if s[0] <= 0x7F then 1
    else if 0xC2 <= s[0] <= 0xDF && |s| >= 2 && Tail(s[1]) then 2
    else if |s| >= 3 && Tails(s, 1, 3) && (
              || (s[0] == 0xE0 && 0xA0 <= s[1])
              || 0xE1 <= s[0] <= 0xEC
              || (s[0] == 0xED && s[1] <= 0x9F)
              || 0xEE <= s[0] <= 0xEF) then 3
    else if |s| >= 4 && Tails(s, 1, 4) && (
              || (s[0] == 0xF0 && 0x90 <= s[1])
              || 0xF1 <= s[0] <= 0xF3
              || (s[0] == 0xF4 && s[1] <= 0x8F)) then 4
    else 0
  }

  predicate ValidUtf8(s: Str)
    decreases |s|
  {
    s == [] || (CharWidth(s) > 0 && ValidUtf8(s[CharWidth(s)..]))
  }

  /** A tail byte is never first and never follows an ASCII byte. */
  lemma {:induction false} TailFollowsNonAscii(s: Str, k: nat)
    requires ValidUtf8(s) && k < |s| && Tail(s[k])
    ensures k > 0 && s[k - 1] >= 0x80
    decreases |s|
  {
    var w := CharWidth(s);
    if k < w {
    } else {
      assert s[w..][k - w] == s[k];
      TailFollowsNonAscii(s[w..], k - w);
      assert s[w..][k - w - 1] == s[k - 1];
    }
  }

  // ----- The grammar against code points -----

  /** A Unicode scalar value: any code point but a surrogate. */
  predicate IsScalar(c: nat) {
    c < 0xD800 || 0xE000 <= c <= 0x10FFFF
  }

  /** The bytes of a character (section 3 of RFC 3629). */
  function EncodeChar(c: nat): Str
    requires c <= 0x10FFFF
  {
    if c < 0x80 then [c]
    else if c < 0x800 then [0xC0 + c / 64, 0x80 + c % 64]
    else if c < 0x1_0000 then [0xE0 + c / 4096, 0x80 + c / 64 % 64, 0x80 + c % 64]
    else [0xF0 + c / 262144, 0x80 + c / 4096 % 64, 0x80 + c / 64 % 64, 0x80 + c % 64]
  }

  ghost predicate AllScalars(cs: seq<nat>) {
    forall c | c in cs :: IsScalar(c)
  }

  ghost function Encode(cs: seq<nat>): Str
    requires AllScalars(cs)
  {
    if cs == [] then [] else assert cs[0] in cs; EncodeChar(cs[0]) + Encode(cs[1..])
  }

  lemma EncodedWidth(c: nat, rest: Str)
    requires IsScalar(c)
    ensures CharWidth(EncodeChar(c) + rest) == |EncodeChar(c)|
  {
    var e := EncodeChar(c);
    EncodedAlone(c);
    WidthAhead(e, rest);
  }

  /** What follows a whole character does not change its width. */
  lemma WidthAhead(e: Str, rest: Str)
    requires CharWidth(e) == |e| > 0
    ensures CharWidth(e + rest) == |e|
  {
    var s := e + rest;
    assert forall i | 0 <= i < |e| :: s[i] == e[i];
  }

  lemma EncodedAlone(c: nat)
    requires IsScalar(c)
    ensures CharWidth(EncodeChar(c)) == |EncodeChar(c)|
  {
    if c < 0x800 {
    } else if c < 0x1_0000 {
      ThreeAlone(c, c / 64);
    } else {
      FourAlone(c, c / 64, c / 4096);
    }
  }

  lemma ThreeAlone(c: nat, y: nat)
    requires IsScalar(c) && 0x800 <= c < 0x1_0000 && y == c / 64
    ensures CharWidth(EncodeChar(c)) == 3
  {
    assert c / 4096 == y / 64 && 32 <= y < 1024;
    assert y / 64 == 13 ==> y % 64 < 32;
  }

  lemma FourAlone(c: nat, y: nat, z: nat)
    requires 0x1_0000 <= c <= 0x10FFFF && y == c / 64 && z == c / 4096
    ensures CharWidth(EncodeChar(c)) == 4
  {
    assert c / 262144 == z / 64 && 16 <= z < 272;
  }

  /** Six bits more. */
  function Extend(c: nat, tail: Byte): nat
    requires Tail(tail)
  {
    c * 64 + (tail as int - 0x80)
  }

  lemma ExtendSplits(c: nat, tail: Byte)
    requires Tail(tail)
    ensures Extend(c, tail) / 64 == c && 0x80 + Extend(c, tail) % 64 == tail
  {
  }

  /** The character that a well-formed front stands for. */
  function Decode(s: Str): nat
    requires CharWidth(s) > 0
  {
    match CharWidth(s)
    case 1 => s[0]
    case 2 => Extend(s[0] - 0xC0, s[1])
    case 3 => Extend(Extend(s[0] - 0xE0, s[1]), s[2])
    case _ => Extend(Extend(Extend(s[0] - 0xF0, s[1]), s[2]), s[3])
  }

  lemma DecodedTwo(a: nat, b: Byte)
    requires 2 <= a < 32 && Tail(b)
    ensures 0x80 <= Extend(a, b) < 0x800
    ensures EncodeChar(Extend(a, b)) == [0xC0 + a, b]
  {
    ExtendSplits(a, b);
  }

  lemma DecodedThree(a: nat, b: Byte, c: Byte)
    requires a < 16 && Tail(b) && Tail(c) && (a == 0 ==> b >= 0xA0) && (a == 13 ==> b <= 0x9F)
    ensures var x := Extend(Extend(a, b), c);
            0x800 <= x < 0x1_0000 && IsScalar(x) && EncodeChar(x) == [0xE0 + a, b, c]
  {
    var y := Extend(a, b);
    var x := Extend(y, c);
    ExtendSplits(a, b);
    ExtendSplits(y, c);
    assert x / 4096 == x / 64 / 64;
  }

  lemma DecodedFour(a: nat, b: Byte, c: Byte, d: Byte)
    requires a < 5 && Tail(b) && Tail(c) && Tail(d) && (a == 0 ==> b >= 0x90) && (a == 4 ==> b <= 0x8F)
    ensures var x := Extend(Extend(Extend(a, b), c), d);
            0x1_0000 <= x <= 0x10FFFF && EncodeChar(x) == [0xF0 + a, b, c, d]
  {
    var z := Extend(a, b);
    var y := Extend(z, c);
    var x := Extend(y, d);
    LeadOfFour(a, b);
    ExtendSplits(z, c);
    ExtendSplits(y, d);
    FourFrom(x, y, z, a, b, c, d);
  }

  lemma FourFrom(x: nat, y: nat, z: nat, a: nat, b: Byte, c: Byte, d: Byte)
    requires y == x / 64 && z == y / 64 && 16 <= z < 272
    requires a == z / 64 && b == 0x80 + z % 64 && c == 0x80 + y % 64 && d == 0x80 + x % 64
    ensures 0x1_0000 <= x <= 0x10FFFF && EncodeChar(x) == [0xF0 + a, b, c, d]
  {
    EncodedFour(x, y, z);
  }

  lemma LeadOfFour(a: nat, b: Byte)
    requires a < 5 && Tail(b) && (a == 0 ==> b >= 0x90) && (a == 4 ==> b <= 0x8F)
    ensures var z := Extend(a, b);
            16 <= z < 272 && z / 64 == a && 0x80 + z % 64 == b
  {
    ExtendSplits(a, b);
  }

  lemma EncodedFour(x: nat, y: nat, z: nat)
    requires y == x / 64 && z == y / 64 && 16 <= z < 272
    ensures 0x1_0000 <= x <= 0x10FFFF
    ensures EncodeChar(x) == [0xF0 + z / 64, 0x80 + z % 64, 0x80 + y % 64, 0x80 + x % 64]
  {
    Shifts(x);
  }

  lemma Shifts(x: nat)
    ensures x / 4096 == x / 64 / 64 && x / 262144 == x / 4096 / 64
  {
  }

  lemma DecodedFront(s: Str)
    requires CharWidth(s) > 0
    ensures IsScalar(Decode(s)) && EncodeChar(Decode(s)) == s[..CharWidth(s)]
  {
    match CharWidth(s)
    case 1 => assert s[..1] == [s[0]];
    case 2 =>
      DecodedTwo(s[0] - 0xC0, s[1]);
      assert s[..2] == [s[0], s[1]];
    case 3 =>
      DecodedThree(s[0] - 0xE0, s[1], s[2]);
      assert s[..3] == [s[0], s[1], s[2]];
    case _ =>
      DecodedFour(s[0] - 0xF0, s[1], s[2], s[3]);
      assert s[..4] == [s[0], s[1], s[2], s[3]];
  }

  lemma {:induction false} EncodedIsValid(cs: seq<nat>)
    requires AllScalars(cs)
    ensures ValidUtf8(Encode(cs))
  {
    if cs == [] {
    } else {
      assert cs[0] in cs;
      EncodedIsValid(cs[1..]);
      EncodedWidth(cs[0], Encode(cs[1..]));
      assert Encode(cs)[|EncodeChar(cs[0])|..] == Encode(cs[1..]);
    }
  }

  lemma EncodeCons(c: nat, cs: seq<nat>)
    requires IsScalar(c) && AllScalars(cs)
    ensures AllScalars([c] + cs) && Encode([c] + cs) == EncodeChar(c) + Encode(cs)
  {
    assert ([c] + cs)[1..] == cs;
  }

  lemma {:induction false} ValidIsEncoded(s: Str) returns (cs: seq<nat>)
    requires ValidUtf8(s)
    ensures AllScalars(cs) && s == Encode(cs)
    decreases |s|
  {
    if s == [] {
      cs := [];
    } else {
      var w := CharWidth(s);
      var rest := ValidIsEncoded(s[w..]);
      DecodedFront(s);
      EncodeCons(Decode(s), rest);
      cs := [Decode(s)] + rest;
      assert s == s[..w] + s[w..];
    }
  }

  /** The accepted strings are exactly the encodings of sequences of scalar values. */
  lemma ValidExactly(s: Str)
    ensures ValidUtf8(s) <==> exists cs :: AllScalars(cs) && s == Encode(cs)
  {
    if ValidUtf8(s) {
      var cs := ValidIsEncoded(s);
    }
    if cs :| AllScalars(cs) && s == Encode(cs) {
      EncodedIsValid(cs);
    }
  }
}
