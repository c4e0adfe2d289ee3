/** PCR values, the constant-time comparison and the PCR policy (`attestation.rs`). */
module Pcr {
  import opened Bytes

  datatype PcrValue = PcrValue(index: U8, algorithm: U16, digest: Str)

  /** `find`: the first entry for a register in a bank. */
  function Find(values: seq<PcrValue>, index: U8, algorithm: U16): (r: Option<PcrValue>)
    ensures r.Some? ==> r.value in values && r.value.index == index && r.value.algorithm == algorithm
    ensures r.None? ==> forall v | v in values :: v.index != index || v.algorithm != algorithm
  {
    if values == [] then None
    else if values[0].index == index && values[0].algorithm == algorithm then Some(values[0])
    else Find(values[1..], index, algorithm)
  }

  /** Entries appended later are never looked at when an earlier one matches. */
  lemma {:induction false} FindFirst(values: seq<PcrValue>, more: seq<PcrValue>, index: U8, algorithm: U16)
    requires Find(values, index, algorithm).Some?
    ensures Find(values + more, index, algorithm) == Find(values, index, algorithm)
  {
    assert (values + more)[1..] == values[1..] + more;
    if values[0].index == index && values[0].algorithm == algorithm {
    } else {
      FindFirst(values[1..], more, index, algorithm);
    }
  }

  /** `x ^ y`, bit by bit. */
  function BitXor(x: nat, y: nat): nat {
    if x == 0 && y == 0 then 0 else (x + y) % 2 + 2 * BitXor(x / 2, y / 2)
  }

  /** `x | y`, bit by bit. */
  function BitOr(x: nat, y: nat): nat {
    if x == 0 && y == 0 then 0 else (if x % 2 == 0 && y % 2 == 0 then 0 else 1) + 2 * BitOr(x / 2, y / 2)
  }

  /** No bit differs exactly when the numbers are equal. */
  lemma {:induction false} XorZero(x: nat, y: nat)
    ensures BitXor(x, y) == 0 <==> x == y
  {
    if x == 0 && y == 0 {
    } else {
      XorZero(x / 2, y / 2);
    }
  }

  lemma {:induction false} OrZero(x: nat, y: nat)
    ensures BitOr(x, y) == 0 <==> x == 0 && y == 0
  {
    if x == 0 && y == 0 {
    } else {
      OrZero(x / 2, y / 2);
    }
  }

  /** `ct_eq`: folds the differences of all bytes together before looking at them. */
  method CtEq(a: Str, b: Str) returns (equal: bool)
    ensures equal <==> a == b
  {
    if |a| != |b| { return false; }
    var acc: nat := 0;
    for i := 0 to |a|
      invariant acc == 0 <==> a[..i] == b[..i]
    {
      XorZero(a[i], b[i]);
      OrZero(acc, BitXor(a[i], b[i]));
      assert a[..i + 1] == a[..i] + [a[i]] && b[..i + 1] == b[..i] + [b[i]];
      acc := BitOr(acc, BitXor(a[i], b[i]));
    }
    assert a[..|a|] == a && b[..|b|] == b;
    equal := acc == 0;
  }

  /** Every mandated register is presented, and its first entry has the mandated digest. */
  predicate Meets(submitted: seq<PcrValue>, expected: PcrValue) {
    var found := Find(submitted, expected.index, expected.algorithm);
    found.Some? && found.value.digest == expected.digest
  }

  predicate PolicyHolds(submitted: seq<PcrValue>, policy: seq<PcrValue>) {
    forall e | e in policy :: Meets(submitted, e)
  }

  /** `verify_pcr_policy` */
  method VerifyPcrPolicy(submitted: seq<PcrValue>, policy: seq<PcrValue>) returns (ok: bool)
    ensures ok <==> PolicyHolds(submitted, policy)
  {
    for i := 0 to |policy|
      invariant forall k | 0 <= k < i :: Meets(submitted, policy[k])
    {
      var e := policy[i];
      assert e in policy;
      var found := Find(submitted, e.index, e.algorithm);
      if found.None? {
        return false;
      }
      var equal := CtEq(found.value.digest, e.digest);
      if !equal {
        return false;
      }
    }
    ok := true;
  }

  /** The first entry for a mandated register, at its place in the list. */
  predicate FirstAt(submitted: seq<PcrValue>, k: nat, e: PcrValue) {
    && k < |submitted| && submitted[k] == e
    && forall j | 0 <= j < k :: submitted[j].index != e.index || submitted[j].algorithm != e.algorithm
  }

  /** A mandated register is met exactly when the mandated entry itself is the first for it. */
  lemma {:induction false} MeetsExactly(submitted: seq<PcrValue>, e: PcrValue)
    ensures Meets(submitted, e) <==> exists k: nat :: FirstAt(submitted, k, e)
  {
    if submitted == [] {
    } else {
      var rest := submitted[1..];
      MeetsExactly(rest, e);
      if submitted[0].index == e.index && submitted[0].algorithm == e.algorithm {
        if Meets(submitted, e) { assert FirstAt(submitted, 0, e); }
      } else {
        if Meets(submitted, e) {
          var k: nat :| FirstAt(rest, k, e);
          assert FirstAt(submitted, k + 1, e);
        }
        if k: nat :| FirstAt(submitted, k, e) {
          assert FirstAt(rest, k - 1, e);
        }
      }
    }
  }
}
