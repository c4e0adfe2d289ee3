/**
  Bytes, options and the facts about concatenated byte strings that every codec and
  every hash pre-image below relies on.

  A Rust `str` is modelled as its UTF-8 bytes: comparing, splitting on an ASCII pattern
  and hashing all act on those bytes.
 */
module Bytes {

  type Byte = x: int | 0 <= x < 256
  type Str = seq<Byte>

  const U16_LIMIT := 0x1_0000
  const U32_LIMIT := 0x1_0000_0000
  const U63_LIMIT := 0x8000_0000_0000_0000
  const U64_LIMIT := 0x1_0000_0000_0000_0000

  type U8 = Byte
  type U16 = x: int | 0 <= x < U16_LIMIT
  type U32 = x: int | 0 <= x < U32_LIMIT
  type U64 = x: int | 0 <= x < U64_LIMIT

  datatype Option<+T> = None | Some(value: T) {
    predicate IsFailure() { None? }

    function PropagateFailure<U>(): Option<U>
      requires None?
    {
      None
    }

    function Extract(): T
      requires Some?
    {
      value
    }
  }

  /** An absent string leaves no bytes, like an empty one. */
  function OrEmpty(s: Option<Str>): Str {
    if s.None? then [] else s.value
  }

  predicate NulFree(s: Str) {
    0 !in s
  }

  /** Big-endian bytes in a field of `width` bytes. */
  function BeWidth(n: nat, width: nat): (s: Str)
    ensures |s| == width
  {
    if width == 0 then [] else BeWidth(n / 256, width - 1) + [n % 256]
  }

  /** `u16::to_be_bytes` */
  function BeU16(n: U16): (s: Str)
    ensures |s| == 2
  {
    BeWidth(n, 2)
  }

  /** `u32::to_be_bytes` */
  function BeU32(n: U32): (s: Str)
    ensures |s| == 4
  {
    BeWidth(n, 4)
  }

  /** `to_le_bytes` of an unsigned integer of `width` bytes. */
  function LeBytes(n: nat, width: nat): (s: Str)
    ensures |s| == width
  {
    if width == 0 then [] else [n % 256] + LeBytes(n / 256, width - 1)
  }

  /** Big-endian value of a byte string; the `(acc << 8) | b` fold of the readers. */
  function BeValue(s: Str): nat {
    if s == [] then 0 else BeValue(s[..|s| - 1]) * 256 + s[|s| - 1]
  }

  ghost function Pow256(k: nat): (p: nat)
    ensures p > 0
  {
    if k == 0 then 1 else 256 * Pow256(k - 1)
  }

  lemma {:induction false} BeValueBound(s: Str)
    ensures BeValue(s) < Pow256(|s|)
  {
    if s == [] {
    } else {
      BeValueBound(s[..|s| - 1]);
    }
  }

  lemma {:induction false} BeValueInjective(s: Str, t: Str)
    requires |s| == |t| && BeValue(s) == BeValue(t)
    ensures s == t
  {
    if s == [] {
    } else {
      var n := |s| - 1;
      BeValueInjective(s[..n], t[..n]);
      assert s == s[..n] + [s[n]] && t == t[..n] + [t[n]];
    }
  }

  lemma {:induction false} BeWidthValue(n: nat, width: nat)
    requires n < Pow256(width)
    ensures BeValue(BeWidth(n, width)) == n
    decreases width
  {
    if width == 0 {
    } else {
      var q, b := n / 256, n % 256;
      DivBelow(n, Pow256(width - 1));
      BeWidthValue(q, width - 1);
      BeValueSnoc(BeWidth(q, width - 1), b);
      assert n == q * 256 + b;
    }
  }

  lemma DivBelow(n: nat, p: nat)
    requires n < 256 * p
    ensures n / 256 < p
  {
  }

  lemma BeValueSnoc(s: Str, b: Byte)
    ensures BeValue(s + [b]) == BeValue(s) * 256 + b
  {
    assert (s + [b])[..|s|] == s;
  }

  lemma PowLimits()
    ensures Pow256(1) == 256 && Pow256(2) == U16_LIMIT && Pow256(4) == U32_LIMIT && Pow256(8) == U64_LIMIT
  {
    assert Pow256(3) == 256 * Pow256(2) && Pow256(5) == 256 * Pow256(4);
    assert Pow256(6) == 256 * Pow256(5) && Pow256(7) == 256 * Pow256(6);
  }

  lemma BeU16Value(n: U16)
    ensures BeValue(BeU16(n)) == n
  {
    PowLimits();
    BeWidthValue(n, 2);
  }

  lemma BeU32Value(n: U32)
    ensures BeValue(BeU32(n)) == n
  {
    PowLimits();
    BeWidthValue(n, 4);
  }

  lemma {:induction false} LeBytesInjective(m: nat, n: nat, width: nat)
    requires m < Pow256(width) && n < Pow256(width)
    requires LeBytes(m, width) == LeBytes(n, width)
    ensures m == n
  {
    if width == 0 {
    } else {
      assert LeBytes(m, width)[0] == LeBytes(n, width)[0];
      assert LeBytes(m, width)[1..] == LeBytes(m / 256, width - 1);
      assert LeBytes(n, width)[1..] == LeBytes(n / 256, width - 1);
      LeBytesInjective(m / 256, n / 256, width - 1);
    }
  }

  lemma Appended(a: Str, b: Str, c: Str)
    ensures a + b + c == a + (b + c)
  {
  }

  /** Fields of equal, fixed width can be peeled off both sides of an equation. */
  lemma SplitFixed(a: Str, x: Str, b: Str, y: Str)
    requires |a| == |b| && a + x == b + y
    ensures a == b && x == y
  {
    assert a == (a + x)[..|a|] && b == (b + y)[..|b|];
    assert x == (a + x)[|a|..] && y == (b + y)[|b|..];
  }

  /** A NUL-free field ends at the first separator, so it can be peeled off as well. */
  lemma SplitNul(a: Str, x: Str, b: Str, y: Str)
    requires NulFree(a) && NulFree(b)
    requires a + [0] + x == b + [0] + y
    ensures a == b && x == y
  {
    var s, t := a + [0] + x, b + [0] + y;
    assert forall i | 0 <= i < |a| :: s[i] == a[i];
    assert forall i | 0 <= i < |b| :: t[i] == b[i];
    assert s[|a|] == 0 && t[|b|] == 0;
    SplitFixed(a + [0], x, b + [0], y);
    SplitFixed(a, [0], b, [0]);
  }

  /** In front of a NUL-free field, the last separator is the field's own. */
  lemma SplitLastNul(x: Str, a: Str, y: Str, b: Str)
    requires NulFree(a) && NulFree(b)
    requires x + [0] + a == y + [0] + b
    ensures x == y && a == b
  {
    var s, t := x + [0] + a, y + [0] + b;
    assert forall i | |x| < i < |s| :: s[i] == a[i - |x| - 1];
    assert forall i | |y| < i < |t| :: t[i] == b[i - |y| - 1];
    assert s[|x|] == 0 && t[|y|] == 0;
    SplitFixed(x + [0], a, y + [0], b);
    SplitFixed(x, [0], y, [0]);
  }

  // ----- Byte order and spelling -----

  /** The most significant byte comes first, */
  lemma BigEndian16(n: U16)
    ensures BeU16(n) == [n / 256, n % 256]
  {
    assert BeWidth(n / 256, 1) == BeWidth(n / 256 / 256, 0) + [n / 256 % 256];
  }

  lemma BigEndian32(n: U32)
    ensures BeU32(n) == [n / 0x100_0000, n / 0x1_0000 % 256, n / 256 % 256, n % 256]
  {
    var a, b, c := n / 256, n / 256 / 256, n / 256 / 256 / 256;
    assert b == n / 0x1_0000 && c == n / 0x100_0000;
    assert BeWidth(c, 1) == BeWidth(c / 256, 0) + [c % 256];
    assert BeWidth(b, 2) == BeWidth(c, 1) + [b % 256];
    assert BeWidth(a, 3) == BeWidth(b, 2) + [a % 256];
  }

  /** The value of bytes that come the other way round. */
  function LeValue(s: Str): nat {
    if s == [] then 0 else s[0] + 256 * LeValue(s[1..])
  }

  /** or last. */
  lemma {:induction false} LeBytesValue(n: nat, width: nat)
    requires n < Pow256(width)
    ensures LeValue(LeBytes(n, width)) == n
    decreases width
  {
    if width == 0 {
    } else {
      DivBelow(n, Pow256(width - 1));
      LeBytesValue(n / 256, width - 1);
      assert LeBytes(n, width)[1..] == LeBytes(n / 256, width - 1);
    }
  }

  function AsciiByte(c: char): Byte
    requires c < 128 as char
  {
    c as int
  }

  /** The bytes of a text in ASCII. */
  function Ascii(text: string): (s: Str)
    requires forall i | 0 <= i < |text| :: text[i] < 128 as char
    ensures |s| == |text| && forall i | 0 <= i < |s| :: s[i] == text[i] as int
  {
    seq(|text|, i requires 0 <= i < |text| => AsciiByte(text[i]))
  }

  lemma {:induction false} LeValueInjective(s: Str, t: Str)
    requires |s| == |t| && LeValue(s) == LeValue(t)
    ensures s == t
  {
    if s == [] {
    } else {
      LeValueInjective(s[1..], t[1..]);
      assert s == [s[0]] + s[1..] && t == [t[0]] + t[1..];
    }
  }
}
