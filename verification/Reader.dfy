/** The bounds-checked big-endian reader of the quote verifier. */
module Reader {
  import opened Bytes

  /** A value read from the front, and what is left. */
  type Parse<T> = Option<(T, Str)>

  function Take(s: Str, n: nat): Parse<Str> {
    if |s| < n then None else Some((s[..n], s[n..]))
  }

  function TakeU8(s: Str): Parse<U8> {
    if |s| < 1 then None else Some((s[0], s[1..]))
  }

  function TakeU16(s: Str): Parse<U16> {
    if |s| < 2 then None else Value16(s[..2]); Some((BeValue(s[..2]), s[2..]))
  }

  function TakeU32(s: Str): Parse<U32> {
    if |s| < 4 then None else Value32(s[..4]); Some((BeValue(s[..4]), s[4..]))
  }

  /** A TPM2B: its size in two bytes, then that many bytes. */
  function TakeSized(s: Str): Parse<Str> {
    var (n, rest) :- TakeU16(s);
    Take(rest, n)
  }

  function Sized(s: Str): Str
    requires |s| < U16_LIMIT
  {
    BeU16(|s|) + s
  }

  lemma Value16(s: Str)
    requires |s| == 2
    ensures BeValue(s) < U16_LIMIT
  {
    BeValueBound(s);
    PowLimits();
  }

  lemma Value32(s: Str)
    requires |s| == 4
    ensures BeValue(s) < U32_LIMIT
  {
    BeValueBound(s);
    PowLimits();
  }

  /** `Reader`: every read takes its bytes off the front, and a failed one takes none. */
  class Reader {
    var data: Str

    constructor (data: Str)
      ensures this.data == data
    {
      this.data := data;
    }

    method TakeBytes(n: nat) returns (r: Option<Str>)
      modifies this
      ensures match Take(old(data), n)
              case None => r == None && data == old(data)
              case Some((v, rest)) => r == Some(v) && data == rest
    {
      if |data| < n { return None; }
      r := Some(data[..n]);
      data := data[n..];
    }

    method NextU8() returns (r: Option<U8>)
      modifies this
      ensures match TakeU8(old(data))
              case None => r == None && data == old(data)
              case Some((v, rest)) => r == Some(v) && data == rest
    {
      var b := TakeBytes(1);
      if b.None? { return None; }
      r := Some(b.value[0]);
    }

    method NextU16() returns (r: Option<U16>)
      modifies this
      ensures match TakeU16(old(data))
              case None => r == None && data == old(data)
              case Some((v, rest)) => r == Some(v) && data == rest
    {
      var b := TakeBytes(2);
      if b.None? { return None; }
      Value16(b.value);
      r := Some(BeValue(b.value));
    }

    method NextU32() returns (r: Option<U32>)
      modifies this
      ensures match TakeU32(old(data))
              case None => r == None && data == old(data)
              case Some((v, rest)) => r == Some(v) && data == rest
    {
      var b := TakeBytes(4);
      if b.None? { return None; }
      Value32(b.value);
      r := Some(BeValue(b.value));
    }

    /** The size and then the bytes; failing on the bytes leaves the size taken. */
    method NextSized() returns (r: Option<Str>)
      modifies this
      ensures match TakeSized(old(data))
              case None => r == None
              case Some((v, rest)) => r == Some(v) && data == rest
    {
      var n := NextU16();
      if n.None? { return None; }
      r := TakeBytes(n.value);
    }
  }

  // ----- Reading is the inverse of writing, with any bytes behind -----

  lemma TakeExactly(s: Str, n: nat, v: Str, rest: Str)
    ensures Take(s, n) == Some((v, rest)) <==> |v| == n && s == v + rest
  {
  }

  lemma TakeU8Exactly(s: Str, n: U8, rest: Str)
    ensures TakeU8(s) == Some((n, rest)) <==> s == [n] + rest
  {
  }

  lemma TakeU16Exactly(s: Str, n: U16, rest: Str)
    ensures TakeU16(s) == Some((n, rest)) <==> s == BeU16(n) + rest
  {
    BeU16Value(n);
    if |s| >= 2 && BeValue(s[..2]) == n {
      BeValueInjective(s[..2], BeU16(n));
    }
    if s == BeU16(n) + rest {
      assert s[..2] == BeU16(n);
    }
  }

  lemma TakeU32Exactly(s: Str, n: U32, rest: Str)
    ensures TakeU32(s) == Some((n, rest)) <==> s == BeU32(n) + rest
  {
    BeU32Value(n);
    if |s| >= 4 && BeValue(s[..4]) == n {
      BeValueInjective(s[..4], BeU32(n));
    }
    if s == BeU32(n) + rest {
      assert s[..4] == BeU32(n);
    }
  }

  lemma TakeSizedExactly(s: Str, v: Str, rest: Str)
    ensures TakeSized(s) == Some((v, rest)) <==> |v| < U16_LIMIT && s == Sized(v) + rest
  {
    if TakeSized(s) == Some((v, rest)) {
      var (n, tail) := TakeU16(s).value;
      TakeU16Exactly(s, n, tail);
      assert s == Sized(v) + rest;
    }
    if |v| < U16_LIMIT && s == Sized(v) + rest {
      assert s == BeU16(|v|) + (v + rest);
      TakeU16Exactly(s, |v|, v + rest);
    }
  }

  /** Five fields with any bytes behind, regrouped so that they can be read one by one. */
  lemma Nested(a: Str, b: Str, c: Str, d: Str, e: Str, rest: Str)
    ensures a + (b + (c + (d + e))) + rest == a + (b + (c + (d + (e + rest))))
  {
    assert c + (d + e) + rest == c + (d + (e + rest));
    assert a + (b + (c + (d + e))) + rest == a + (b + (c + (d + e) + rest));
  }

  /** A two-byte size and that many bytes. */
  function Counted(s: Str): Str
    requires |s| < 0x1_0000
  {
    [|s| / 256, |s| % 256] + s
  }

  lemma SizedIsCounted(s: Str)
    requires |s| < 0x1_0000
    ensures Sized(s) == Counted(s)
  {
    BigEndian16(|s|);
  }
}
