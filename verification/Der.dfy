/**
  DER lengths and values: the two length writers (`der_len` and `der_len_prefix`) and the
  two length readers of the repository (sections 8.1.3 and 10.1 of X.690).
 */
module Der {
  import opened Bytes

  const SEQUENCE: Byte := 0x30
  const INTEGER: Byte := 0x02

  /** The big-endian bytes of a number without leading zeros. */
  function BeBytes(n: nat): Str {
    if n == 0 then [] else BeBytes(n / 256) + [n % 256]
  }

  lemma {:induction false} BeBytesValue(n: nat)
    ensures BeValue(BeBytes(n)) == n
  {
    if n == 0 {
    } else {
      var s := BeBytes(n);
      assert s[..|s| - 1] == BeBytes(n / 256);
      BeBytesValue(n / 256);
    }
  }

  lemma {:induction false} BeBytesWidth(n: nat, k: nat)
    ensures |BeBytes(n)| <= k <==> n < Pow256(k)
  {
    if n == 0 || k == 0 {
    } else {
      BeBytesWidth(n / 256, k - 1);
    }
  }

  lemma NonEmptyBytes(n: nat)
    requires n > 0
    ensures BeBytes(n) != []
  {
  }

  /** A number has at most 8 bytes below 2^64, and at most 4 exactly below 2^32. */
  lemma LengthWidth(n: U64)
    ensures |BeBytes(n)| <= 8
    ensures |BeBytes(n)| <= 4 <==> n < U32_LIMIT
  {
    PowLimits();
    BeBytesWidth(n, 8);
    BeBytesWidth(n, 4);
  }

  /** The length octets of `der_len`. */
  function DerLen(n: U64): (s: Str)
    ensures s != []
  {
    if n < 0x80 then [n] else
    LengthWidth(n);
    [0x80 + |BeBytes(n)|] + BeBytes(n)
  }

  /** The long form's loop: puts the low byte in front of the bytes so far until nothing is left. */
  method BigEndian(len: U64) returns (bytes: Str)
    ensures bytes == BeBytes(len)
  {
    bytes := [];
    var l := len;
    while l > 0
      invariant 0 <= l
      invariant BeBytes(l) + bytes == BeBytes(len)
    {
      assert BeBytes(l) + bytes == BeBytes(l / 256) + ([l % 256] + bytes);
      bytes := [l % 256] + bytes;
      l := l / 256;
    }
    assert BeBytes(0) + bytes == bytes;
  }

  /** `der_len` */
  method WriteDerLen(len: U64) returns (out: Str)
    ensures out == DerLen(len)
  {
    if len < 0x80 {
      return [len];
    }
    var bytes := BigEndian(len);
    LengthWidth(len);
    out := [0x80 + |bytes|] + bytes;
  }

  /** `der_len_prefix`: the two-byte form keeps only the low 16 bits of the length. */
  function DerLenPrefix(n: U64): Str {
    if n < 0x80 then [n]
    else if n <= 0xFF then [0x81, n]
    else [0x82, n / 256 % 256, n % 256]
  }

  /** The length and the number of octets it takes, as both readers report them. */
  function ParseLen(bytes: Str): (r: Option<(nat, nat)>)
    ensures r.Some? ==> 1 <= r.value.1 <= 5 && r.value.1 <= |bytes|
  {
    if bytes == [] then None
    else if bytes[0] < 0x80 then Some((bytes[0], 1))
    else
      var n := bytes[0] - 0x80;
      if n == 0 || n > 4 || |bytes| < 1 + n then None
      else Some((BeValue(bytes[1..1 + n]), 1 + n))
  }

  /** `parse_der_length` of the certificate reader. */
  method ReadLength(bytes: Str) returns (r: Option<(nat, nat)>)
    ensures r == ParseLen(bytes)
  {
    if |bytes| == 0 {
      return None;
    }
    var b := bytes[0];
    if b < 0x80 {
      return Some((b, 1));
    }
    var n := b % 0x80;
    if n == 0 || n > 4 || |bytes| < 1 + n {
      return None;
    }
    var len: nat := 0;
    for i := 1 to n + 1
      invariant len == BeValue(bytes[1..i])
    {
      assert bytes[1..i + 1][..i - 1] == bytes[1..i];
      len := len * 256 + bytes[i];
    }
    r := Some((len, 1 + n));
  }

  datatype Result<T> = Ok(value: T) | InvalidEk

  /** `parse_der_length` of the TPM key reader: the same lengths, with an error for none. */
  method ReadEkLength(bytes: Str) returns (r: Result<(nat, nat)>)
    ensures r == match ParseLen(bytes) case Some(v) => Ok(v) case None => InvalidEk
  {
    if |bytes| == 0 {
      return InvalidEk;
    }
    var b := bytes[0];
    if b < 0x80 {
      return Ok((b, 1));
    }
    var n := b % 0x80;
    if n == 0 || n > 4 || |bytes| < 1 + n {
      return InvalidEk;
    }
    var len: nat, i := 0, 1;
    while i <= n
      invariant 1 <= i <= n + 1
      invariant len == BeValue(bytes[1..i])
    {
      assert bytes[1..i + 1][..i - 1] == bytes[1..i];
      len := len * 256 + bytes[i];
      i := i + 1;
    }
    r := Ok((len, 1 + n));
  }

  /** Reading a written length back, whatever follows: it works exactly below 2^32. */
  lemma ReadWrittenLength(n: U64, rest: Str)
    ensures ParseLen(DerLen(n) + rest) ==
            if n < U32_LIMIT then Some((n, |DerLen(n)|)) else None
  {
    if n >= 0x80 {
      LengthWidth(n);
      BeBytesValue(n);
      NonEmptyBytes(n);
      assert (DerLen(n) + rest)[1..1 + |BeBytes(n)|] == BeBytes(n);
    }
  }

  /** `der_len` writes the unique shortest octets that a reader takes for that length. */
  lemma DerLenMinimal(e: Str, rest: Str, n: nat)
    requires ParseLen(e + rest) == Some((n, |e|))
    ensures n < U32_LIMIT && |DerLen(n)| <= |e|
    ensures |DerLen(n)| == |e| ==> DerLen(n) == e
  {
    var k := |e| - 1;
    assert e == (e + rest)[..|e|];
    if e[0] < 0x80 {
      assert e == [n];
    } else {
      assert (e + rest)[1..1 + k] == e[1..];
      MinimalBytes(e[1..], n);
      assert e == [e[0]] + e[1..];
    }
  }

  /** No shorter bytes than these have the value, and no others of this length. */
  lemma MinimalBytes(s: Str, n: nat)
    requires BeValue(s) == n && |s| <= 4
    ensures n < U32_LIMIT && |BeBytes(n)| <= |s|
    ensures |BeBytes(n)| == |s| ==> BeBytes(n) == s
  {
    BeValueBound(s);
    PowLimits();
    Pow256Monotone(|s|, 4);
    BeBytesWidth(n, |s|);
    if |BeBytes(n)| == |s| {
      BeBytesValue(n);
      BeValueInjective(BeBytes(n), s);
    }
  }

  lemma {:induction false} Pow256Monotone(j: nat, k: nat)
    requires j <= k
    ensures Pow256(j) <= Pow256(k)
  {
    if j == k {
    } else {
      Pow256Monotone(j, k - 1);
    }
  }

  lemma SmallBytes(n: nat)
    requires 0 < n < 256
    ensures BeBytes(n) == [n]
  {
    assert n / 256 == 0 && n % 256 == n && BeBytes(0) == [];
  }

  lemma TwoByteNumber(n: nat)
    requires 256 <= n < U16_LIMIT
    ensures BeBytes(n) == [n / 256, n % 256]
  {
    SmallBytes(n / 256);
  }

  /** The two writers agree exactly on the lengths that fit in two bytes. */
  lemma WritersAgree(n: U64)
    ensures DerLenPrefix(n) == DerLen(n) <==> n <= 0xFFFF
  {
    if n < 0x80 {
    } else if n <= 0xFF {
      SmallBytes(n);
    } else if n <= 0xFFFF {
      TwoByteNumber(n);
    } else {
      PowLimits();
      BeBytesWidth(n, 2);
    }
  }

  lemma OneByte(s: Str)
    requires |s| == 1
    ensures BeValue(s) == s[0]
  {
    assert s[..0] == [];
  }

  lemma TwoBytes(s: Str)
    requires |s| == 2
    ensures BeValue(s) == 256 * s[0] as int + s[1]
  {
    OneByte(s[..1]);
  }

  /** Beyond two bytes, the prefix is read back as the length modulo 2^16. */
  lemma LongPrefixReadsShort(n: U64, rest: Str)
    requires n > 0xFFFF
    ensures ParseLen(DerLenPrefix(n) + rest) == Some((n % U16_LIMIT, 3))
  {
    var low := [n / 256 % 256, n % 256];
    assert (DerLenPrefix(n) + rest)[1..3] == low;
    TwoBytes(low);
  }

  // ----- Tag-length-value -----

  function Tlv(tag: Byte, value: Str): Str
    requires |value| < U64_LIMIT
  {
    [tag] + DerLen(|value|) + value
  }

  /** `parse_der_tlv`: the value of a structure with the expected tag. */
  function ParseTlv(bytes: Str, tag: Byte): Option<Str> {
    if bytes == [] || bytes[0] != tag then None else
    var (len, consumed) :- ParseLen(bytes[1..]);
    if 1 + consumed + len > |bytes| then None else Some(bytes[1 + consumed..1 + consumed + len])
  }

  lemma ReadTlv(tag: Byte, value: Str, rest: Str)
    requires |value| < U32_LIMIT
    ensures ParseTlv(Tlv(tag, value) + rest, tag) == Some(value)
  {
    var bytes := Tlv(tag, value) + rest;
    assert bytes[1..] == DerLen(|value|) + (value + rest);
    ReadWrittenLength(|value|, value + rest);
    var start := 1 + |DerLen(|value|)|;
    assert bytes[start..start + |value|] == value;
  }

  lemma RefuseTlv(tag: Byte, value: Str)
    requires U32_LIMIT <= |value| < U64_LIMIT
    ensures ParseTlv(Tlv(tag, value), tag) == None
  {
    NoWrittenLength(tag, value);
    NoLengthNoTlv(Tlv(tag, value), tag);
  }

  lemma NoWrittenLength(tag: Byte, value: Str)
    requires U32_LIMIT <= |value| < U64_LIMIT
    ensures ParseLen(Tlv(tag, value)[1..]) == None
  {
    ReadWrittenLength(|value|, value);
    BehindTag(tag, DerLen(|value|), value);
  }

  lemma BehindTag(tag: Byte, len: Str, value: Str)
    ensures ([tag] + len + value)[1..] == len + value
  {
  }

  lemma NoLengthNoTlv(bytes: Str, tag: Byte)
    requires bytes != [] && ParseLen(bytes[1..]) == None
    ensures ParseTlv(bytes, tag) == None
  {
  }

  // ----- INTEGER bodies -----

  /** Without leading zeros, but never empty. */
  function StripZeros(v: Str): (r: Str)
    requires v != []
    ensures 0 < |r| <= |v|
    ensures |r| > 1 ==> r[0] != 0
  {
    if |v| > 1 && v[0] == 0 then StripZeros(v[1..]) else v
  }

  /** A leading zero keeps an INTEGER with its top bit set positive (section 8.3 of X.690). */
  function SignPad(v: Str): Str
    requires v != []
  {
    if v[0] >= 0x80 then [0] + v else v
  }

  /** The readers fold an INTEGER into 32 bits; higher bits are shifted out. */
  function FoldU32(s: Str): U32 {
    if s == [] then 0 else (FoldU32(s[..|s| - 1]) * 256 + s[|s| - 1]) % U32_LIMIT
  }

  lemma {:induction false} LeadingZero(v: Str)
    ensures BeValue([0] + v) == BeValue(v)
  {
    if v == [] {
      assert ([0] + v)[..0] == [];
    } else {
      var n := |v| - 1;
      assert ([0] + v)[..|v|] == [0] + v[..n];
      LeadingZero(v[..n]);
    }
  }

  /** Leading zeros carry no value, and without them the bytes are the number's own. */
  lemma {:induction false} StripZerosKeepsValue(v: Str)
    requires v != []
    ensures BeValue(StripZeros(v)) == BeValue(v)
  {
    if |v| == 1 || v[0] != 0 {
    } else {
      assert v == [0] + v[1..];
      LeadingZero(v[1..]);
      StripZerosKeepsValue(v[1..]);
    }
  }

  lemma {:induction false} FoldIsValue(s: Str)
    ensures FoldU32(s) == BeValue(s) % U32_LIMIT
  {
    if s == [] {
    } else {
      var t := s[..|s| - 1];
      FoldIsValue(t);
      ModMul(BeValue(t), s[|s| - 1]);
    }
  }

  lemma ModMul(x: nat, b: Byte)
    ensures (x % U32_LIMIT * 256 + b) % U32_LIMIT == (x * 256 + b) % U32_LIMIT
  {
    var q := x / U32_LIMIT;
    assert x * 256 + b == U32_LIMIT * (256 * q) + (x % U32_LIMIT * 256 + b);
  }

  lemma SignPadKeepsValue(v: Str)
    requires v != []
    ensures BeValue(SignPad(v)) == BeValue(v)
  {
    LeadingZero(v);
  }

  lemma FoldPadded(s: Str)
    requires s != [] && BeValue(s) < U32_LIMIT
    ensures FoldU32(SignPad(StripZeros(s))) == BeValue(s)
  {
    StripZerosKeepsValue(s);
    SignPadKeepsValue(StripZeros(s));
    FoldSmall(SignPad(StripZeros(s)));
  }

  lemma FoldSmall(s: Str)
    requires BeValue(s) < U32_LIMIT
    ensures FoldU32(s) == BeValue(s)
  {
    FoldIsValue(s);
  }

  lemma PaddedSurvives(n: U32)
    ensures FoldU32(SignPad(StripZeros(BeU32(n)))) == n
  {
    BeU32Value(n);
    FoldPadded(BeU32(n));
  }

  // ----- The grammar of lengths and values -----

  /** Length octets, with nothing behind them, that the reader takes for `n`. */
  predicate IsLength(octets: Str, n: nat) {
    ParseLen(octets) == Some((n, |octets|))
  }

  /** The length octets alone decide what is read, whatever follows them. */
  lemma LengthIsLocal(octets: Str, rest: Str, n: nat)
    ensures ParseLen(octets + rest) == Some((n, |octets|)) <==> IsLength(octets, n)
  {
    if octets == [] {
    } else {
      var k := octets[0] as int - 0x80;
      if 0 < k && |octets| == 1 + k {
        assert (octets + rest)[1..1 + k] == octets[1..1 + k];
      }
    }
  }

  /** The reader's view of a length: its octets and what follows them. */
  lemma SplitLength(s: Str, n: nat, consumed: nat)
    requires ParseLen(s) == Some((n, consumed))
    ensures IsLength(s[..consumed], n)
  {
    assert s == s[..consumed] + s[consumed..];
    LengthIsLocal(s[..consumed], s[consumed..], n);
  }


  /** A written length is the short form below 128, and otherwise the count and the shortest bytes. */
  lemma DerLenForm(n: U64)
    ensures n < 128 ==> DerLen(n) == [n]
    ensures n >= 128 ==> |DerLen(n)| >= 2 && DerLen(n)[0] == 128 + (|DerLen(n)| - 1)
    ensures n >= 128 ==> BeValue(DerLen(n)[1..]) == n && DerLen(n)[1] != 0
  {
    if n >= 128 {
      BeBytesValue(n);
      NonEmptyBytes(n);
      NoLeadingZero(n);
      assert DerLen(n)[1..] == BeBytes(n);
    }
  }

  lemma {:induction false} NoLeadingZero(n: nat)
    requires n > 0
    ensures BeBytes(n) != [] && BeBytes(n)[0] != 0
  {
    if n < 256 {
      SmallBytes(n);
    } else {
      NoLeadingZero(n / 256);
    }
  }

  /** A length is one byte below 128, or a count of one to four and that many bytes. */
  lemma IsLengthExactly(octets: Str, n: nat)
    ensures IsLength(octets, n) <==>
            || (octets == [n] && n < 128)
            || (2 <= |octets| <= 5 && octets[0] == 127 + |octets| && BeValue(octets[1..]) == n)
  {
    if |octets| == 1 { assert octets == [octets[0]]; }
    if |octets| >= 1 { assert octets[1..|octets|] == octets[1..]; }
  }

  /** A value behind its tag and its length. */
  predicate IsTlv(bytes: Str, tag: Byte, octets: Str, value: Str, rest: Str) {
    bytes == [tag] + octets + value + rest && IsLength(octets, |value|)
  }

  /** `parse_der_tlv` returns exactly the value that the bytes begin with, under that tag. */
  lemma ParseTlvExactly(bytes: Str, tag: Byte, value: Str)
    ensures ParseTlv(bytes, tag) == Some(value) <==> exists octets, rest :: IsTlv(bytes, tag, octets, value, rest)
  {
    if ParseTlv(bytes, tag) == Some(value) {
      var (len, used) := ParseLen(bytes[1..]).value;
      SplitLength(bytes[1..], len, used);
      assert bytes == [tag] + bytes[1..][..used] + value + bytes[1 + used + len..];
      assert IsTlv(bytes, tag, bytes[1..][..used], value, bytes[1 + used + len..]);
    }
    if octets, rest :| IsTlv(bytes, tag, octets, value, rest) {
      assert bytes[1..] == octets + (value + rest);
      LengthIsLocal(octets, value + rest, |value|);
      assert bytes[1 + |octets|..1 + |octets| + |value|] == value;
    }
  }

  // ----- Object identifiers -----

  function Base128High(n: nat): Str {
    if n == 0 then [] else Base128High(n / 128) + [0x80 + n % 128]
  }

  /** A component in base 128, all bytes but the last with their top bit set (section 8.19 of X.690). */
  function Base128(n: nat): Str {
    Base128High(n / 128) + [n % 128]
  }

  function Base128All(arcs: seq<nat>): Str {
    if arcs == [] then [] else Base128(arcs[0]) + Base128All(arcs[1..])
  }

  function OidBytes(first: nat, second: nat, arcs: seq<nat>): Str
    requires first < 3 && second < 40
  {
    [40 * first + second] + Base128All(arcs)
  }

  lemma SmallArc(n: nat)
    requires n < 128
    ensures Base128(n) == [n]
  {
  }

  /** The two components of more than one byte that are used here. */
  lemma LargeArcs()
    ensures Base128(840) == [0x86, 0x48]
    ensures Base128(113549) == [0x86, 0xF7, 0x0D]
    ensures Base128(66561) == [0x84, 0x88, 0x01]
  {
    assert Base128High(6) == Base128High(0) + [0x86];
    assert Base128High(887) == Base128High(6) + [0xF7];
    assert Base128High(4) == Base128High(0) + [0x84];
    assert Base128High(520) == Base128High(4) + [0x88];
  }

  lemma Arcs(n: nat, rest: seq<nat>)
    ensures Base128All([n] + rest) == Base128(n) + Base128All(rest)
  {
    assert ([n] + rest)[1..] == rest;
  }

  lemma FourArcs(a: nat, b: nat, c: nat, d: nat, rest: seq<nat>)
    requires a < 128 && b < 128 && c < 128 && d < 128
    ensures Base128All([a, b, c, d] + rest) == [a, b, c, d] + Base128All(rest)
  {
    SmallArc(a);
    SmallArc(b);
    SmallArc(c);
    SmallArc(d);
    Arcs(d, rest);
    Arcs(c, [d] + rest);
    Arcs(b, [c] + ([d] + rest));
    Arcs(a, [b] + ([c] + ([d] + rest)));
    assert [a] + ([b] + ([c] + ([d] + rest))) == [a, b, c, d] + rest;
  }

  lemma {:induction false} SmallArcs(s: Str)
    requires forall i | 0 <= i < |s| :: s[i] < 128
    ensures Base128All(s) == s
  {
    if s == [] {
    } else {
      SmallArc(s[0]);
      SmallArcs(s[1..]);
      assert s == [s[0]] + s[1..];
    }
  }
}
