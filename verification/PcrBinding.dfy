/**
  `verify_pcr_binding`: submitted PCR values are bound to a signed quote by hashing those that
  the quote selects and comparing with the digest that the TPM attested.

  The hash is a parameter. Where two inputs must agree because their hashes do, the theorems
  say that they agree or are a collision of the hash.
 */
module PcrBinding {
  import opened Bytes
  import opened Reader
  import opened Pcr

  const MAGIC: Str := [0xff, 0x54, 0x43, 0x47]
  const ST_ATTEST_QUOTE: U16 := 0x8018
  const ALG_SHA256: U16 := 0x000B
  const ALG_SHA384: U16 := 0x000C
  const ALG_SHA512: U16 := 0x000D

  type Hash = (U16, Str) -> Str

  /** The fields of a TPMS_ATTEST of a quote (section 10.12 of TPM 2.0 Part 2). */
  datatype Attest = Attest(
    signer: Str,
    extraData: Str,
    clock: Str,
    firmware: Str,
    algorithm: U16,
    bitmap: Str,
    digest: Str)

  // ----- Reading the quote -----

  predicate ValidAttest(a: Attest) {
    && |a.signer| < U16_LIMIT && |a.extraData| < U16_LIMIT && |a.clock| == 17 && |a.firmware| == 8
    && 1 <= |a.bitmap| <= 4 && |a.digest| < U16_LIMIT
  }

  function HeadBytes(a: Attest): Str
    requires ValidAttest(a)
  {
    MAGIC + (BeU16(ST_ATTEST_QUOTE) + (Sized(a.signer) + (Sized(a.extraData) + (a.clock + a.firmware))))
  }

  function SelectionBytes(a: Attest): Str
    requires ValidAttest(a)
  {
    BeU32(1) + (BeU16(a.algorithm) + ([|a.bitmap|] + (a.bitmap + Sized(a.digest))))
  }

  function Marshal(a: Attest): Str
    requires ValidAttest(a)
  {
    HeadBytes(a) + SelectionBytes(a)
  }

  function TakeHead(q: Str): Parse<(Str, Str, Str, Str)> {
    var (magic, s1) :- Take(q, 4);
    if magic != MAGIC then None else
    var (kind, s2) :- TakeU16(s1);
    if kind != ST_ATTEST_QUOTE then None else
    var (signer, s3) :- TakeSized(s2);
    var (extraData, s4) :- TakeSized(s3);
    var (clock, s5) :- Take(s4, 17);
    var (firmware, s6) :- Take(s5, 8);
    Some(((signer, extraData, clock, firmware), s6))
  }

  function TakeSelection(s: Str): Parse<(U16, Str, Str)> {
    var (count, s1) :- TakeU32(s);
    if count != 1 then None else
    var (algorithm, s2) :- TakeU16(s1);
    var (size, s3) :- TakeU8(s2);
    if size == 0 || size > 4 then None else
    var (bitmap, s4) :- Take(s3, size);
    var (digest, s5) :- TakeSized(s4);
    Some(((algorithm, bitmap, digest), s5))
  }

  function TakeAttest(q: Str): Parse<Attest> {
    var ((signer, extraData, clock, firmware), s1) :- TakeHead(q);
    var ((algorithm, bitmap, digest), s2) :- TakeSelection(s1);
    Some((Attest(signer, extraData, clock, firmware, algorithm, bitmap, digest), s2))
  }

  method ReadHead(r: Reader) returns (ok: bool)
    modifies r
    ensures ok <==> TakeHead(old(r.data)).Some?
    ensures ok ==> r.data == TakeHead(old(r.data)).value.1
  {
    var magic := r.TakeBytes(4);
    if magic.None? || magic.value != MAGIC { return false; }
    var kind := r.NextU16();
    if kind.None? || kind.value != ST_ATTEST_QUOTE { return false; }
    var signer := r.NextSized();
    if signer.None? { return false; }
    var extraData := r.NextSized();
    if extraData.None? { return false; }
    var clock := r.TakeBytes(17);
    if clock.None? { return false; }
    var firmware := r.TakeBytes(8);
    ok := firmware.Some?;
  }

  method ReadSelection(r: Reader) returns (sel: Option<(U16, Str, Str)>)
    modifies r
    ensures sel == (match TakeSelection(old(r.data)) case None => None case Some((v, _)) => Some(v))
  {
    var count := r.NextU32();
    if count.None? || count.value != 1 { return None; }
    var algorithm := r.NextU16();
    if algorithm.None? { return None; }
    var size := r.NextU8();
    if size.None? || size.value == 0 || size.value > 4 { return None; }
    var bitmap := r.TakeBytes(size.value);
    if bitmap.None? { return None; }
    var digest := r.NextSized();
    if digest.None? { return None; }
    sel := Some((algorithm.value, bitmap.value, digest.value));
  }

  // ----- The selected registers -----

  function Pow2(k: nat): (p: nat)
    ensures p > 0
  {
    if k == 0 then 1 else 2 * Pow2(k - 1)
  }

  /** `byte & (1 << bit) != 0` */
  predicate BitSet(b: Byte, bit: nat) {
    b / Pow2(bit) % 2 == 1
  }

  predicate IsSelected(bitmap: Str, index: nat) {
    index / 8 < |bitmap| && BitSet(bitmap[index / 8], index % 8)
  }

  /** The wanted numbers below `n`, in ascending order. */
  function Below(wanted: nat -> bool, n: nat): seq<nat> {
    if n == 0 then [] else Below(wanted, n - 1) + (if wanted(n - 1) then [n - 1] else [])
  }

  function SelectedBelow(bitmap: Str, n: nat): seq<nat> {
    Below((i: nat) => IsSelected(bitmap, i), n)
  }

  function Selected(bitmap: Str): seq<nat> {
    SelectedBelow(bitmap, 8 * |bitmap|)
  }

  /** The nested loops over bytes and bits. */
  method SelectIndices(bitmap: Str) returns (selected: seq<nat>)
    ensures selected == Selected(bitmap)
  {
    selected := [];
    for i := 0 to |bitmap|
      invariant selected == SelectedBelow(bitmap, 8 * i)
    {
      for bit := 0 to 8
        invariant selected == SelectedBelow(bitmap, 8 * i + bit)
      {
        assert (8 * i + bit) / 8 == i && (8 * i + bit) % 8 == bit;
        if BitSet(bitmap[i], bit) {
          selected := selected + [i * 8 + bit];
        }
      }
    }
  }

  ghost predicate Ascending(s: seq<nat>) {
    forall i, j | 0 <= i < j < |s| :: s[i] < s[j]
  }

  lemma {:induction false} BelowExactly(wanted: nat -> bool, n: nat)
    ensures Ascending(Below(wanted, n))
    ensures forall i: nat :: i in Below(wanted, n) <==> i < n && wanted(i)
  {
    if n == 0 {
    } else {
      BelowExactly(wanted, n - 1);
      var before := Below(wanted, n - 1);
      if wanted(n - 1) {
        AscendingSnoc(before, n - 1);
      } else {
        assert before + [] == before;
      }
    }
  }

  lemma AscendingSnoc(s: seq<nat>, x: nat)
    requires Ascending(s) && forall i | i in s :: i < x
    ensures Ascending(s + [x]) && forall i :: i in s + [x] <==> i in s || i == x
  {
    assert forall i | 0 <= i < |s| :: s[i] in s;
  }

  /** The list is strictly ascending and holds exactly the set bits, all below 32. */
  lemma SelectedExactly(bitmap: Str)
    requires |bitmap| <= 4
    ensures Ascending(Selected(bitmap))
    ensures forall index: nat :: index in Selected(bitmap) <==> IsSelected(bitmap, index)
    ensures forall index | index in Selected(bitmap) :: index < 32
  {
    BelowExactly((i: nat) => IsSelected(bitmap, i), 8 * |bitmap|);
  }

  // ----- The binding -----

  function DigestSize(algorithm: U16): Option<nat> {
    if algorithm == ALG_SHA256 then Some(32)
    else if algorithm == ALG_SHA384 then Some(48)
    else if algorithm == ALG_SHA512 then Some(64)
    else None
  }

  /** The submitted digest of one selected register, if it is there with the bank's length. */
  function DigestFor(submitted: seq<PcrValue>, algorithm: U16, size: nat, index: nat): (d: Option<Str>)
    ensures d.Some? ==> |d.value| == size
  {
    if index >= 256 then None else
    var found :- Find(submitted, index, algorithm);
    if |found.digest| != size then None else Some(found.digest)
  }

  function Concat(submitted: seq<PcrValue>, algorithm: U16, size: nat, selected: seq<nat>): Option<Str> {
    if selected == [] then Some([]) else
    var first :- DigestFor(submitted, algorithm, size, selected[0]);
    var rest :- Concat(submitted, algorithm, size, selected[1..]);
    Some(first + rest)
  }

  /** The bytes that a submission is hashed from, for a given quote. */
  function Hashed(a: Attest, submitted: seq<PcrValue>): Option<Str> {
    var size :- DigestSize(a.algorithm);
    Concat(submitted, a.algorithm, size, Selected(a.bitmap))
  }

  predicate BindsTo(hash: Hash, a: Attest, submitted: seq<PcrValue>) {
    var concat := Hashed(a, submitted);
    concat.Some? && hash(a.algorithm, concat.value) == a.digest
  }

  predicate Binds(hash: Hash, quote: Str, submitted: seq<PcrValue>) {
    var a := TakeAttest(quote);
    a.Some? && BindsTo(hash, a.value.0, submitted)
  }

  method ConcatDigests(submitted: seq<PcrValue>, algorithm: U16, size: nat, selected: seq<nat>)
    returns (r: Option<Str>)
    requires forall i | i in selected :: i < 256
    ensures r == Concat(submitted, algorithm, size, selected)
  {
    var concat: Str := [];
    ghost var whole := Concat(submitted, algorithm, size, selected);
    assert selected[0..] == selected && (whole.Some? ==> [] + whole.value == whole.value);
    for i := 0 to |selected|
      invariant Concat(submitted, algorithm, size, selected) ==
                (match Concat(submitted, algorithm, size, selected[i..])
                 case None => None
                 case Some(rest) => Some(concat + rest))
    {
      assert selected[i..][0] == selected[i] && selected[i..][1..] == selected[i + 1..];
      assert selected[i] in selected;
      var found := Find(submitted, selected[i], algorithm);
      if found.None? || |found.value.digest| != size {
        return None;
      }
      assert forall rest: Str :: concat + (found.value.digest + rest) == concat + found.value.digest + rest;
      concat := concat + found.value.digest;
    }
    assert selected[|selected|..] == [] && concat + [] == concat;
    r := Some(concat);
  }

  /** The bank, the bitmap and the digest of a quote. */
  method ReadQuote(quote: Str) returns (sel: Option<(U16, Str, Str)>)
    ensures sel == (match TakeAttest(quote)
                    case None => None
                    case Some((a, _)) => Some((a.algorithm, a.bitmap, a.digest)))
    ensures sel.Some? ==> |sel.value.1| <= 4
  {
    var r := new Reader(quote);
    var head := ReadHead(r);
    if !head { return None; }
    sel := ReadSelection(r);
  }

  method VerifyPcrBinding(hash: Hash, quote: Str, submitted: seq<PcrValue>) returns (ok: bool)
    ensures ok <==> Binds(hash, quote, submitted)
  {
    var selection := ReadQuote(quote);
    if selection.None? { return false; }
    var (algorithm, bitmap, digest) := selection.value;
    var size := DigestSize(algorithm);
    if size.None? { return false; }
    var selected := SelectIndices(bitmap);
    SelectedExactly(bitmap);
    var concat := ConcatDigests(submitted, algorithm, size.value, selected);
    if concat.None? { return false; }
    ok := CtEq(hash(algorithm, concat.value), digest);
  }

  // ----- Reading is exactly the inverse of marshalling -----

  lemma HeadForward(q: Str, signer: Str, extraData: Str, clock: Str, firmware: Str, rest: Str)
    requires TakeHead(q) == Some(((signer, extraData, clock, firmware), rest))
    ensures |signer| < U16_LIMIT && |extraData| < U16_LIMIT && |clock| == 17 && |firmware| == 8
    ensures q == MAGIC + (BeU16(ST_ATTEST_QUOTE) + (Sized(signer) + (Sized(extraData) + (clock + firmware)))) + rest
  {
    var s1 := Take(q, 4).value.1;
    var s2 := TakeU16(s1).value.1;
    var s3 := TakeSized(s2).value.1;
    var s4 := TakeSized(s3).value.1;
    var s5 := Take(s4, 17).value.1;
    TakeExactly(q, 4, MAGIC, s1);
    TakeU16Exactly(s1, ST_ATTEST_QUOTE, s2);
    TakeSizedExactly(s2, signer, s3);
    TakeSizedExactly(s3, extraData, s4);
    TakeExactly(s4, 17, clock, s5);
    TakeExactly(s5, 8, firmware, rest);
    Nested(MAGIC, BeU16(ST_ATTEST_QUOTE), Sized(signer), Sized(extraData), clock + firmware, rest);
    assert clock + firmware + rest == clock + (firmware + rest);
  }

  lemma HeadBackward(a: Attest, rest: Str)
    requires ValidAttest(a)
    ensures TakeHead(HeadBytes(a) + rest) == Some(((a.signer, a.extraData, a.clock, a.firmware), rest))
  {
    var s5 := a.firmware + rest;
    var s4 := a.clock + s5;
    var s3 := Sized(a.extraData) + s4;
    var s2 := Sized(a.signer) + s3;
    var s1 := BeU16(ST_ATTEST_QUOTE) + s2;
    assert a.clock + a.firmware + rest == s4;
    Nested(MAGIC, BeU16(ST_ATTEST_QUOTE), Sized(a.signer), Sized(a.extraData), a.clock + a.firmware, rest);
    TakeExactly(MAGIC + s1, 4, MAGIC, s1);
    TakeU16Exactly(s1, ST_ATTEST_QUOTE, s2);
    TakeSizedExactly(s2, a.signer, s3);
    TakeSizedExactly(s3, a.extraData, s4);
    TakeExactly(s4, 17, a.clock, s5);
    TakeExactly(s5, 8, a.firmware, rest);
  }

  lemma SelectionForward(s: Str, algorithm: U16, bitmap: Str, digest: Str, rest: Str)
    requires TakeSelection(s) == Some(((algorithm, bitmap, digest), rest))
    ensures 1 <= |bitmap| <= 4 && |digest| < U16_LIMIT
    ensures s == BeU32(1) + (BeU16(algorithm) + ([|bitmap|] + (bitmap + Sized(digest)))) + rest
  {
    var s1 := TakeU32(s).value.1;
    var s2 := TakeU16(s1).value.1;
    var (size, s3) := TakeU8(s2).value;
    var s4 := Take(s3, size).value.1;
    TakeU32Exactly(s, 1, s1);
    TakeU16Exactly(s1, algorithm, s2);
    TakeU8Exactly(s2, size, s3);
    TakeExactly(s3, size, bitmap, s4);
    TakeSizedExactly(s4, digest, rest);
    Nested(BeU32(1), BeU16(algorithm), [|bitmap|], bitmap, Sized(digest), rest);
  }

  lemma SelectionBackward(a: Attest, rest: Str)
    requires ValidAttest(a)
    ensures TakeSelection(SelectionBytes(a) + rest) == Some(((a.algorithm, a.bitmap, a.digest), rest))
  {
    var s4 := Sized(a.digest) + rest;
    var s3 := a.bitmap + s4;
    var s2 := [|a.bitmap|] + s3;
    var s1 := BeU16(a.algorithm) + s2;
    Nested(BeU32(1), BeU16(a.algorithm), [|a.bitmap|], a.bitmap, Sized(a.digest), rest);
    TakeU32Exactly(BeU32(1) + s1, 1, s1);
    TakeU16Exactly(s1, a.algorithm, s2);
    TakeU8Exactly(s2, |a.bitmap|, s3);
    TakeExactly(s3, |a.bitmap|, a.bitmap, s4);
    TakeSizedExactly(s4, a.digest, rest);
  }

  lemma AttestForward(q: Str, a: Attest, rest: Str)
    requires TakeAttest(q) == Some((a, rest))
    ensures ValidAttest(a) && q == Marshal(a) + rest
  {
    var s := AttestParts(q, a, rest);
    HeadForward(q, a.signer, a.extraData, a.clock, a.firmware, s);
    SelectionForward(s, a.algorithm, a.bitmap, a.digest, rest);
    AttestJoined(q, a, s, rest);
  }

  lemma AttestParts(q: Str, a: Attest, rest: Str) returns (s: Str)
    requires TakeAttest(q) == Some((a, rest))
    ensures TakeHead(q) == Some(((a.signer, a.extraData, a.clock, a.firmware), s))
    ensures TakeSelection(s) == Some(((a.algorithm, a.bitmap, a.digest), rest))
  {
    s := TakeHead(q).value.1;
  }

  lemma AttestJoined(q: Str, a: Attest, s: Str, rest: Str)
    requires ValidAttest(a) && q == HeadBytes(a) + s && s == SelectionBytes(a) + rest
    ensures q == Marshal(a) + rest
  {
    Appended(HeadBytes(a), SelectionBytes(a), rest);
  }

  lemma AttestBackward(a: Attest, rest: Str)
    requires ValidAttest(a)
    ensures TakeAttest(Marshal(a) + rest) == Some((a, rest))
  {
    Appended(HeadBytes(a), SelectionBytes(a), rest);
    HeadBackward(a, SelectionBytes(a) + rest);
    SelectionBackward(a, rest);
  }

  /** Bytes are read as an attestation exactly when they begin with its marshalled form. */
  lemma AttestExactly(q: Str, a: Attest, rest: Str)
    ensures TakeAttest(q) == Some((a, rest)) <==> ValidAttest(a) && q == Marshal(a) + rest
  {
    if TakeAttest(q) == Some((a, rest)) {
      AttestForward(q, a, rest);
    }
    if ValidAttest(a) && q == Marshal(a) + rest {
      AttestBackward(a, rest);
    }
  }

  // ----- What binding to a quote means -----

  lemma {:induction false} ConcatGrows(s: seq<PcrValue>, more: seq<PcrValue>, algorithm: U16, size: nat, selected: seq<nat>)
    requires Concat(s, algorithm, size, selected).Some?
    ensures Concat(s + more, algorithm, size, selected) == Concat(s, algorithm, size, selected)
  {
    if selected == [] {
    } else {
      FindFirst(s, more, selected[0], algorithm);
      ConcatGrows(s, more, algorithm, size, selected[1..]);
    }
  }

  /** Appending any entries leaves a successful verdict as it is. */
  lemma AppendKeepsVerdict(hash: Hash, quote: Str, s: seq<PcrValue>, more: seq<PcrValue>)
    requires Binds(hash, quote, s)
    ensures Binds(hash, quote, s + more)
  {
    var a := TakeAttest(quote).value.0;
    ConcatGrows(s, more, a.algorithm, DigestSize(a.algorithm).value, Selected(a.bitmap));
  }

  /** Digests of one width can be told apart inside their concatenation. */
  lemma {:induction false} ConcatInjective(s: seq<PcrValue>, t: seq<PcrValue>, algorithm: U16, size: nat,
                                           selected: seq<nat>, index: nat)
    requires Concat(s, algorithm, size, selected).Some?
    requires Concat(s, algorithm, size, selected) == Concat(t, algorithm, size, selected)
    requires index in selected
    ensures DigestFor(s, algorithm, size, index).Some?
    ensures DigestFor(s, algorithm, size, index) == DigestFor(t, algorithm, size, index)
  {
    var x, y := DigestFor(s, algorithm, size, selected[0]).value, DigestFor(t, algorithm, size, selected[0]).value;
    SplitFixed(x, Concat(s, algorithm, size, selected[1..]).value, y, Concat(t, algorithm, size, selected[1..]).value);
    if index == selected[0] {
    } else {
      ConcatInjective(s, t, algorithm, size, selected[1..], index);
    }
  }

  ghost predicate Collision(hash: Hash, algorithm: U16, x: Str, y: Str) {
    x != y && hash(algorithm, x) == hash(algorithm, y)
  }

  /** Both submissions present the register, and their first entries for it agree. */
  predicate AgreeOn(s: seq<PcrValue>, t: seq<PcrValue>, index: nat, algorithm: U16) {
    && index < 256
    && Find(s, index, algorithm).Some? && Find(t, index, algorithm).Some?
    && Find(s, index, algorithm).value.digest == Find(t, index, algorithm).value.digest
  }

  /**
    Two submissions that bind to one quote agree on every selected register, even with
    duplicate entries, or they are a collision of the hash.
   */
  lemma BoundSubmissionsAgree(hash: Hash, quote: Str, s: seq<PcrValue>, t: seq<PcrValue>)
    requires Binds(hash, quote, s) && Binds(hash, quote, t)
    ensures var a := TakeAttest(quote).value.0;
            || Collision(hash, a.algorithm, Hashed(a, s).value, Hashed(a, t).value)
            || forall index: nat | IsSelected(a.bitmap, index) :: AgreeOn(s, t, index, a.algorithm)
  {
    var (a, rest) := TakeAttest(quote).value;
    AttestExactly(quote, a, rest);
    SelectedExactly(a.bitmap);
    if Hashed(a, s) == Hashed(a, t) {
      forall index: nat | IsSelected(a.bitmap, index)
        ensures AgreeOn(s, t, index, a.algorithm)
      {
        ConcatInjective(s, t, a.algorithm, DigestSize(a.algorithm).value, Selected(a.bitmap), index);
      }
    }
  }

  /**
    Binding and policy together: every mandated register that the quote selects in its bank
    has, in the attested values, the mandated digest.
   */
  lemma BoundPolicyHolds(hash: Hash, quote: Str, submitted: seq<PcrValue>, attested: seq<PcrValue>, policy: seq<PcrValue>)
    requires Binds(hash, quote, submitted) && Binds(hash, quote, attested)
    requires PolicyHolds(submitted, policy)
    ensures var a := TakeAttest(quote).value.0;
            || Collision(hash, a.algorithm, Hashed(a, submitted).value, Hashed(a, attested).value)
            || forall e | e in policy && e.algorithm == a.algorithm && IsSelected(a.bitmap, e.index) ::
                 Meets(attested, e)
  {
    BoundSubmissionsAgree(hash, quote, submitted, attested);
    var a := TakeAttest(quote).value.0;
    if !Collision(hash, a.algorithm, Hashed(a, submitted).value, Hashed(a, attested).value) {
      forall e | e in policy && e.algorithm == a.algorithm && IsSelected(a.bitmap, e.index)
        ensures Meets(attested, e)
      {
        assert AgreeOn(submitted, attested, e.index, a.algorithm);
        assert Meets(submitted, e);
      }
    }
  }

  // ----- What binding and policy say about the whole policy -----

  /** The quote attests every mandated register: it is in the quote's bank and selected. */
  predicate Covers(a: Attest, policy: seq<PcrValue>) {
    forall e | e in policy :: e.algorithm == a.algorithm && IsSelected(a.bitmap, e.index)
  }

  /** Values that bind to the same quote, without exhibiting a collision of the hash. */
  ghost predicate EquallyBound(hash: Hash, quote: Str, s: seq<PcrValue>, t: seq<PcrValue>)
    requires Binds(hash, quote, s)
  {
    && Binds(hash, quote, t)
    && var a := TakeAttest(quote).value.0;
       !Collision(hash, a.algorithm, Hashed(a, s).value, Hashed(a, t).value)
  }

  /** The same submission with every entry for one register left out. */
  function Without(s: seq<PcrValue>, index: U8, algorithm: U16): seq<PcrValue> {
    if s == [] then []
    else (if s[0].index == index && s[0].algorithm == algorithm then [] else [s[0]]) + Without(s[1..], index, algorithm)
  }

  lemma {:induction false} FindWithout(s: seq<PcrValue>, e: PcrValue, index: U8, algorithm: U16)
    ensures Find(Without(s, e.index, e.algorithm), index, algorithm) ==
            if index == e.index && algorithm == e.algorithm then None else Find(s, index, algorithm)
  {
    if s == [] {
    } else {
      FindWithout(s[1..], e, index, algorithm);
      var rest := Without(s[1..], e.index, e.algorithm);
      assert ([s[0]] + rest)[1..] == rest;
      assert [] + rest == rest;
    }
  }

  lemma {:induction false} ConcatWithout(s: seq<PcrValue>, e: PcrValue, algorithm: U16, size: nat, selected: seq<nat>)
    requires e.algorithm != algorithm || e.index !in selected
    ensures Concat(Without(s, e.index, e.algorithm), algorithm, size, selected) == Concat(s, algorithm, size, selected)
  {
    if selected == [] {
    } else {
      if selected[0] < 256 { FindWithout(s, e, selected[0], algorithm); }
      ConcatWithout(s, e, algorithm, size, selected[1..]);
    }
  }

  /** The same submission with another digest for one register. */
  function Instead(s: seq<PcrValue>, e: PcrValue, other: Str): seq<PcrValue> {
    Without(s, e.index, e.algorithm) + [e.(digest := other)]
  }

  /** Every mandated register is presented, with whatever digest. */
  predicate Presents(s: seq<PcrValue>, policy: seq<PcrValue>) {
    forall e | e in policy :: Find(s, e.index, e.algorithm).Some?
  }

  lemma InsteadPresents(s: seq<PcrValue>, e: PcrValue, other: Str, policy: seq<PcrValue>)
    requires Presents(s, policy)
    ensures Presents(Instead(s, e, other), policy)
    ensures Find(Instead(s, e, other), e.index, e.algorithm) == Some(e.(digest := other))
  {
    var without := Without(s, e.index, e.algorithm);
    FindWithout(s, e, e.index, e.algorithm);
    FindAppended(without, e.(digest := other));
    forall p | p in policy
      ensures Find(Instead(s, e, other), p.index, p.algorithm).Some?
    {
      FindWithout(s, e, p.index, p.algorithm);
      if p.index != e.index || p.algorithm != e.algorithm {
        FindFirst(without, [e.(digest := other)], p.index, p.algorithm);
      }
    }
  }

  /** A register that the quote does not cover may have held any digest. */
  lemma UncoveredIsNotBound(hash: Hash, quote: Str, s: seq<PcrValue>, e: PcrValue, other: Str)
    requires Binds(hash, quote, s) && !Covers(TakeAttest(quote).value.0, [e])
    ensures EquallyBound(hash, quote, s, Instead(s, e, other))
  {
    var (a, rest) := TakeAttest(quote).value;
    var size, selected := DigestSize(a.algorithm).value, Selected(a.bitmap);
    AttestExactly(quote, a, rest);
    SelectedExactly(a.bitmap);
    ConcatWithout(s, e, a.algorithm, size, selected);
    ConcatGrows(Without(s, e.index, e.algorithm), [e.(digest := other)], a.algorithm, size, selected);
  }

  /** And the node can claim any digest for a register that it does not present yet. */
  lemma UncoveredIsClaimed(hash: Hash, quote: Str, s: seq<PcrValue>, e: PcrValue)
    requires Binds(hash, quote, s) && Find(s, e.index, e.algorithm).None?
    ensures Binds(hash, quote, s + [e]) && PolicyHolds(s + [e], [e]) && !PolicyHolds(s, [e])
  {
    AppendKeepsVerdict(hash, quote, s, [e]);
    FindAppended(s, e);
    assert e in [e];
  }

  lemma {:induction false} FindAppended(s: seq<PcrValue>, e: PcrValue)
    requires Find(s, e.index, e.algorithm).None?
    ensures Find(s + [e], e.index, e.algorithm) == Some(e)
  {
    if s == [] {
      assert s + [e] == [e];
    } else {
      assert (s + [e])[1..] == s[1..] + [e];
      FindAppended(s[1..], e);
    }
  }

  /**
    A submission that binds and passes the policy attests the whole policy, for all register
    contents that the quote may have been made from, if and only if the quote covers the policy.
   */
  lemma PolicyAttestedExactly(hash: Hash, quote: Str, submitted: seq<PcrValue>, policy: seq<PcrValue>)
    requires Binds(hash, quote, submitted) && PolicyHolds(submitted, policy)
    ensures (forall attested | EquallyBound(hash, quote, submitted, attested) && Presents(attested, policy) ::
               PolicyHolds(attested, policy)) <==>
            Covers(TakeAttest(quote).value.0, policy)
  {
    var a := TakeAttest(quote).value.0;
    if Covers(a, policy) {
      forall attested | EquallyBound(hash, quote, submitted, attested)
        ensures PolicyHolds(attested, policy)
      {
        BoundPolicyHolds(hash, quote, submitted, attested, policy);
      }
    } else {
      var e :| e in policy && !(e.algorithm == a.algorithm && IsSelected(a.bitmap, e.index));
      var other := e.digest + [0];
      assert e in [e];
      UncoveredIsNotBound(hash, quote, submitted, e, other);
      InsteadPresents(submitted, e, other, policy);
      assert !Meets(Instead(submitted, e, other), e);
    }
  }

  lemma {:induction false} ConcatExists(s: seq<PcrValue>, algorithm: U16, size: nat, selected: seq<nat>)
    requires forall i | i in selected :: DigestFor(s, algorithm, size, i).Some?
    ensures Concat(s, algorithm, size, selected).Some?
  {
    if selected == [] {
    } else {
      ConcatExists(s, algorithm, size, selected[1..]);
    }
  }

  /** An honest quote binds the values it was made from, whatever its other fields are. */
  lemma HonestQuoteBinds(hash: Hash, a: Attest, values: seq<PcrValue>, rest: Str)
    requires ValidAttest(a) && DigestSize(a.algorithm).Some?
    requires forall index: nat | IsSelected(a.bitmap, index) ::
               DigestFor(values, a.algorithm, DigestSize(a.algorithm).value, index).Some?
    requires Hashed(a, values).Some? ==> a.digest == hash(a.algorithm, Hashed(a, values).value)
    ensures Binds(hash, Marshal(a) + rest, values)
  {
    SelectedExactly(a.bitmap);
    ConcatExists(values, a.algorithm, DigestSize(a.algorithm).value, Selected(a.bitmap));
    AttestExactly(Marshal(a) + rest, a, rest);
  }

  // ----- What is hashed, and which bytes are read -----

  /** Bit 0 of the first byte is register 0, bit 7 of it register 7, and so on byte by byte. */
  lemma BitmapByte(bitmap: Str, k: nat)
    requires k < |bitmap| <= 4
    ensures 8 * k in Selected(bitmap) <==> bitmap[k] % 2 == 1
    ensures 8 * k + 1 in Selected(bitmap) <==> bitmap[k] / 2 % 2 == 1
    ensures 8 * k + 2 in Selected(bitmap) <==> bitmap[k] / 4 % 2 == 1
    ensures 8 * k + 3 in Selected(bitmap) <==> bitmap[k] / 8 % 2 == 1
    ensures 8 * k + 4 in Selected(bitmap) <==> bitmap[k] / 16 % 2 == 1
    ensures 8 * k + 5 in Selected(bitmap) <==> bitmap[k] / 32 % 2 == 1
    ensures 8 * k + 6 in Selected(bitmap) <==> bitmap[k] / 64 % 2 == 1
    ensures 8 * k + 7 in Selected(bitmap) <==> bitmap[k] / 128 % 2 == 1
  {
    Powers();
    RegisterBit(bitmap, k, 0);
    RegisterBit(bitmap, k, 1);
    RegisterBit(bitmap, k, 2);
    RegisterBit(bitmap, k, 3);
    RegisterBit(bitmap, k, 4);
    RegisterBit(bitmap, k, 5);
    RegisterBit(bitmap, k, 6);
    RegisterBit(bitmap, k, 7);
  }

  lemma RegisterBit(bitmap: Str, k: nat, j: nat)
    requires k < |bitmap| <= 4 && j < 8
    ensures 8 * k + j in Selected(bitmap) <==> BitSet(bitmap[k], j)
  {
    SelectedExactly(bitmap);
    assert (8 * k + j) / 8 == k && (8 * k + j) % 8 == j;
    assert IsSelected(bitmap, 8 * k + j) <==> BitSet(bitmap[k], j);
  }

  lemma Powers()
    ensures Pow2(0) == 1 && Pow2(1) == 2 && Pow2(2) == 4 && Pow2(3) == 8
    ensures Pow2(4) == 16 && Pow2(5) == 32 && Pow2(6) == 64 && Pow2(7) == 128
  {
    assert Pow2(3) == 2 * Pow2(2) && Pow2(5) == 2 * Pow2(4);
  }

  /** The digest of the k-th selected register stands at the k-th place. */
  lemma {:induction false} ConcatAt(s: seq<PcrValue>, algorithm: U16, size: nat, selected: seq<nat>, k: nat)
    requires Concat(s, algorithm, size, selected).Some? && k < |selected|
    ensures var c := Concat(s, algorithm, size, selected).value;
            && DigestFor(s, algorithm, size, selected[k]).Some?
            && 0 <= k * size && k * size + size <= |c|
            && c[k * size..k * size + size] == DigestFor(s, algorithm, size, selected[k]).value
  {
    var first := DigestFor(s, algorithm, size, selected[0]).value;
    var rest := Concat(s, algorithm, size, selected[1..]).value;
    var c := first + rest;
    if k == 0 {
      assert c[0..size] == first;
    } else {
      ConcatAt(s, algorithm, size, selected[1..], k - 1);
      var at := (k - 1) * size;
      assert k * size == at + size;
      assert c[at + size..at + size + size] == rest[at..at + size];
    }
  }

  lemma {:induction false} ConcatLength(s: seq<PcrValue>, algorithm: U16, size: nat, selected: seq<nat>)
    requires Concat(s, algorithm, size, selected).Some?
    ensures |Concat(s, algorithm, size, selected).value| == |selected| * size
  {
    if selected == [] {
    } else {
      ConcatLength(s, algorithm, size, selected[1..]);
      assert |selected| * size == size + |selected[1..]| * size;
    }
  }

  /** The size of a digest in a supported bank: SHA-256, SHA-384 or SHA-512. */
  predicate BankSize(algorithm: U16, size: nat) {
    (algorithm == 0x000B && size == 32) || (algorithm == 0x000C && size == 48) || (algorithm == 0x000D && size == 64)
  }

  /** The first digest submitted for each selected register, in ascending order of the registers. */
  ghost predicate IsHashed(a: Attest, s: seq<PcrValue>, size: nat, bytes: Str) {
    && BankSize(a.algorithm, size) && |bytes| == |Selected(a.bitmap)| * size
    && forall k: nat | k < |Selected(a.bitmap)| :: DigestStandsAt(s, a.algorithm, size, Selected(a.bitmap)[k], bytes, k)
  }

  ghost predicate DigestStandsAt(s: seq<PcrValue>, algorithm: U16, size: nat, index: nat, bytes: Str, k: nat) {
    && index < 256 && Find(s, index, algorithm).Some?
    && |Find(s, index, algorithm).value.digest| == size
    && 0 <= k * size <= k * size + size <= |bytes|
    && bytes[k * size..k * size + size] == Find(s, index, algorithm).value.digest
  }

  /** What is hashed, digest by digest. */
  lemma HashedDigests(a: Attest, s: seq<PcrValue>)
    requires Hashed(a, s).Some?
    ensures exists size :: IsHashed(a, s, size, Hashed(a, s).value)
  {
    var size, selected := DigestSize(a.algorithm).value, Selected(a.bitmap);
    var bytes := Hashed(a, s).value;
    ConcatLength(s, a.algorithm, size, selected);
    forall k: nat | k < |selected|
      ensures DigestStandsAt(s, a.algorithm, size, selected[k], bytes, k)
    {
      ConcatAt(s, a.algorithm, size, selected, k);
    }
    assert IsHashed(a, s, size, bytes);
  }

  /** A submission that lacks a selected register, or has it in another length or bank, hashes to nothing. */
  lemma HashedExactly(a: Attest, s: seq<PcrValue>)
    ensures Hashed(a, s).Some? <==>
            exists size :: BankSize(a.algorithm, size) && AllPresent(s, a.algorithm, size, Selected(a.bitmap))
  {
    if Hashed(a, s).Some? {
      var size := DigestSize(a.algorithm).value;
      forall i | i in Selected(a.bitmap)
        ensures Present(s, a.algorithm, size, i)
      {
        var k :| 0 <= k < |Selected(a.bitmap)| && Selected(a.bitmap)[k] == i;
        ConcatAt(s, a.algorithm, size, Selected(a.bitmap), k);
      }
      assert BankSize(a.algorithm, size) && AllPresent(s, a.algorithm, size, Selected(a.bitmap));
    }
    if size :| BankSize(a.algorithm, size) && AllPresent(s, a.algorithm, size, Selected(a.bitmap)) {
      assert forall i | i in Selected(a.bitmap) :: Present(s, a.algorithm, size, i);
      ConcatExists(s, a.algorithm, size, Selected(a.bitmap));
    }
  }

  predicate Present(s: seq<PcrValue>, algorithm: U16, size: nat, index: nat) {
    index < 256 && Find(s, index, algorithm).Some? && |Find(s, index, algorithm).value.digest| == size
  }

  ghost predicate AllPresent(s: seq<PcrValue>, algorithm: U16, size: nat, selected: seq<nat>) {
    forall i | i in selected :: Present(s, algorithm, size, i)
  }

  /** The bytes of a quote: magic FF "TCG", type 8018, one selection of one to four bytes. */
  lemma QuoteSpelled(a: Attest)
    requires ValidAttest(a)
    ensures 1 <= |a.bitmap| <= 4 && |a.clock| == 17 && |a.firmware| == 8
    ensures Marshal(a) ==
            [0xFF, 0x54, 0x43, 0x47, 0x80, 0x18]
            + (Counted(a.signer) + (Counted(a.extraData) + (a.clock + a.firmware)))
            + ([0, 0, 0, 1, a.algorithm / 256, a.algorithm % 256, |a.bitmap|] + (a.bitmap + Counted(a.digest)))
  {
    SizedIsCounted(a.signer);
    SizedIsCounted(a.extraData);
    SizedIsCounted(a.digest);
    BigEndian16(0x8018);
    BigEndian16(a.algorithm);
    BigEndian32(1);
    Prefixed(MAGIC, [0x80, 0x18], Counted(a.signer) + (Counted(a.extraData) + (a.clock + a.firmware)));
    Prefixed([0, 0, 0, 1] + [a.algorithm / 256, a.algorithm % 256], [|a.bitmap|], a.bitmap + Counted(a.digest));
    assert [0, 0, 0, 1] + [a.algorithm / 256, a.algorithm % 256] + [|a.bitmap|] ==
           [0, 0, 0, 1, a.algorithm / 256, a.algorithm % 256, |a.bitmap|];
    Appended([0, 0, 0, 1], [a.algorithm / 256, a.algorithm % 256], [|a.bitmap|] + (a.bitmap + Counted(a.digest)));
  }

  lemma Prefixed(a: Str, b: Str, c: Str)
    ensures a + (b + c) == (a + b) + c
  {
  }

  /** Only such fields are valid. */
  lemma FieldLimits(a: Attest)
    ensures ValidAttest(a) <==>
            && |a.signer| <= 65535 && |a.extraData| <= 65535 && |a.digest| <= 65535
            && |a.clock| == 17 && |a.firmware| == 8 && 1 <= |a.bitmap| <= 4
  {
  }
}
