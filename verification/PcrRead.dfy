/**
  `read_pcr_values`: the register values that a node submits beside its quote.

  The TPM answers a PCR read in ascending order of the selected registers and with at most
  eight digests, and the node labels the answers with the caller's indices in the caller's
  order. Whether the server can bind them to the quote depends on that order.
 */
module PcrRead {
  import opened Bytes
  import opened Pcr
  import opened PcrBinding

  const MAX_DIGESTS := 8

  /** The registers of the SHA-256 bank. */
  type Registers = nat -> Str

  ghost predicate Sha256Bank(regs: Registers) {
    forall i: nat :: |regs(i)| == 32
  }

  function AscendingBelow(s: set<nat>, n: nat): seq<nat> {
    Below((i: nat) => i in s, n)
  }

  function IndexSet(indices: seq<U8>): set<nat> {
    set k | 0 <= k < |indices| :: indices[k]
  }

  /** The selection, in the order in which the TPM answers. */
  function Selection(indices: seq<U8>): seq<nat> {
    AscendingBelow(IndexSet(indices), 24)
  }

  function Digests(regs: Registers, selection: seq<nat>): seq<Str> {
    seq(if |selection| < MAX_DIGESTS then |selection| else MAX_DIGESTS,
        i requires 0 <= i < |selection| => regs(selection[i]))
  }

  function Labelled(indices: seq<U8>, digests: seq<Str>): seq<PcrValue> {
    seq(if |indices| < |digests| then |indices| else |digests|,
        i requires 0 <= i < |indices| && i < |digests| => PcrValue(indices[i], ALG_SHA256, digests[i]))
  }

  /** What the node submits. */
  function Submitted(indices: seq<U8>, regs: Registers): seq<PcrValue> {
    Labelled(indices, Digests(regs, Selection(indices)))
  }

  /** The labelling loop of `read_pcr_values`, on the digests that the TPM returned. */
  method ReadPcrValues(indices: seq<U8>, digests: seq<Str>) returns (out: seq<PcrValue>)
    ensures out == Labelled(indices, digests)
  {
    out := [];
    for i := 0 to |indices|
      invariant out == Labelled(indices[..i], digests)
    {
      if i < |digests| {
        out := out + [PcrValue(indices[i], ALG_SHA256, digests[i])];
      }
    }
    assert indices[..|indices|] == indices;
  }

  /** All 24 registers as they are. */
  function Actual(regs: Registers): seq<PcrValue> {
    seq(24, i requires 0 <= i < 24 => PcrValue(i, ALG_SHA256, regs(i)))
  }

  /** The list begins with its selection in ascending order and repeats nothing before it ends. */
  predicate Ordered(indices: seq<U8>) {
    var selection := Selection(indices);
    |selection| <= MAX_DIGESTS && |selection| <= |indices| &&
    forall j | 0 <= j < |selection| :: indices[j] == selection[j]
  }

  /** The quote is over the caller's selection in the SHA-256 bank. */
  ghost predicate Selects(a: Attest, indices: seq<U8>) {
    && ValidAttest(a) && a.algorithm == ALG_SHA256
    && forall i: nat :: IsSelected(a.bitmap, i) <==> i < 24 && i in indices
  }

  lemma SelectionExactly(indices: seq<U8>)
    ensures Ascending(Selection(indices))
    ensures forall i: nat :: i in Selection(indices) <==> i < 24 && i in indices
  {
    BelowExactly((i: nat) => i in IndexSet(indices), 24);
    assert forall i: nat :: i in IndexSet(indices) <==> i in indices;
  }

  /** An actual register is found with its own digest. */
  lemma ActualDigest(regs: Registers, i: nat)
    requires i < 24 && Sha256Bank(regs)
    ensures DigestFor(Actual(regs), ALG_SHA256, 32, i) == Some(regs(i))
  {
    assert Actual(regs)[i] == PcrValue(i, ALG_SHA256, regs(i));
    assert Actual(regs)[i] in Actual(regs);
  }

  lemma OrderedDigest(indices: seq<U8>, regs: Registers, i: nat)
    requires Ordered(indices) && Sha256Bank(regs) && i in Selection(indices)
    ensures i < 24 && DigestFor(Submitted(indices, regs), ALG_SHA256, 32, i) == Some(regs(i))
  {
    SelectionExactly(indices);
    var selection, values := Selection(indices), Submitted(indices, regs);
    var j :| 0 <= j < |selection| && selection[j] == i;
    assert values[j] == PcrValue(i, ALG_SHA256, regs(i)) && values[j] in values;
    var found := Find(values, i, ALG_SHA256).value;
    var k :| 0 <= k < |values| && values[k] == found;
    assert selection[k] == selection[j];
  }

  lemma {:induction false} ConcatAgrees(s: seq<PcrValue>, t: seq<PcrValue>, algorithm: U16, size: nat, selected: seq<nat>)
    requires forall i | i in selected :: DigestFor(s, algorithm, size, i) == DigestFor(t, algorithm, size, i)
    ensures Concat(s, algorithm, size, selected) == Concat(t, algorithm, size, selected)
  {
    if selected == [] {
    } else {
      ConcatAgrees(s, t, algorithm, size, selected[1..]);
    }
  }

  /** In an ordered list every register is submitted with its actual value. */
  lemma OrderedAgrees(a: Attest, indices: seq<U8>, regs: Registers)
    requires Selects(a, indices) && Sha256Bank(regs) && Ordered(indices)
    ensures Hashed(a, Submitted(indices, regs)) == Hashed(a, Actual(regs))
  {
    SelectedExactly(a.bitmap);
    SelectionExactly(indices);
    forall i | i in Selected(a.bitmap)
      ensures DigestFor(Submitted(indices, regs), ALG_SHA256, 32, i) == DigestFor(Actual(regs), ALG_SHA256, 32, i)
    {
      OrderedDigest(indices, regs, i);
      ActualDigest(regs, i);
    }
    ConcatAgrees(Submitted(indices, regs), Actual(regs), ALG_SHA256, 32, Selected(a.bitmap));
  }

  /** Registers that all differ. */
  function Distinct(i: nat): Str {
    seq(32, _ => i % 256)
  }

  lemma ActualHashed(a: Attest, indices: seq<U8>, regs: Registers)
    requires Selects(a, indices) && Sha256Bank(regs)
    ensures Hashed(a, Actual(regs)).Some?
  {
    SelectedExactly(a.bitmap);
    forall i | i in Selected(a.bitmap) ensures DigestFor(Actual(regs), ALG_SHA256, 32, i).Some? {
      ActualDigest(regs, i);
    }
    ConcatExists(Actual(regs), ALG_SHA256, 32, Selected(a.bitmap));
  }

  /** If differing registers hash alike, each is submitted with its actual value, */
  lemma FoundAsActual(a: Attest, indices: seq<U8>, i: nat)
    requires Selects(a, indices) && Hashed(a, Submitted(indices, Distinct)) == Hashed(a, Actual(Distinct))
    requires i in Selection(indices)
    ensures i < 24 && DigestFor(Submitted(indices, Distinct), ALG_SHA256, 32, i) == Some(Distinct(i))
  {
    SelectedExactly(a.bitmap);
    SelectionExactly(indices);
    ActualHashed(a, indices, Distinct);
    ConcatInjective(Submitted(indices, Distinct), Actual(Distinct), ALG_SHA256, 32, Selected(a.bitmap), i);
    ActualDigest(Distinct, i);
  }

  /** and so each label stands at its place in the selection. */
  lemma LabelInPlace(indices: seq<U8>, j: nat)
    requires j < |Selection(indices)| && Selection(indices)[j] < 24
    requires var i := Selection(indices)[j];
             DigestFor(Submitted(indices, Distinct), ALG_SHA256, 32, i) == Some(Distinct(i))
    ensures j < MAX_DIGESTS && j < |indices| && indices[j] == Selection(indices)[j]
  {
    var selection, values := Selection(indices), Submitted(indices, Distinct);
    SelectionExactly(indices);
    var found := Find(values, selection[j], ALG_SHA256).value;
    var k :| 0 <= k < |values| && values[k] == found;
    SubmittedAt(indices, Distinct, k);
    assert selection[k] in selection;
    DistinctDiffer(selection[k], selection[j]);
    assert k == j;
  }

  /** The k-th answer of the TPM under the caller's k-th index. */
  lemma SubmittedAt(indices: seq<U8>, regs: Registers, k: nat)
    requires k < |Submitted(indices, regs)|
    ensures k < MAX_DIGESTS && k < |indices| && k < |Selection(indices)|
    ensures Submitted(indices, regs)[k] == PcrValue(indices[k], ALG_SHA256, regs(Selection(indices)[k]))
  {
  }

  lemma DistinctDiffer(a: nat, b: nat)
    requires a < 256 && b < 256 && Distinct(a) == Distinct(b)
    ensures a == b
  {
    assert Distinct(a)[0] == Distinct(b)[0];
  }

  /**
    The node's values stand for the registers that the quote attests, whatever they hold, if
    and only if the caller's indices are ordered.
   */
  lemma SubmittedStandsExactly(a: Attest, indices: seq<U8>)
    requires Selects(a, indices)
    ensures Ordered(indices) <==>
            forall regs: Registers | Sha256Bank(regs) ::
              Hashed(a, Submitted(indices, regs)) == Hashed(a, Actual(regs))
  {
    if Ordered(indices) {
      forall regs: Registers | Sha256Bank(regs)
        ensures Hashed(a, Submitted(indices, regs)) == Hashed(a, Actual(regs))
      {
        OrderedAgrees(a, indices, regs);
      }
    }
    if forall regs: Registers | Sha256Bank(regs) ::
         Hashed(a, Submitted(indices, regs)) == Hashed(a, Actual(regs)) {
      assert Sha256Bank(Distinct);
      forall j | 0 <= j < |Selection(indices)|
        ensures j < MAX_DIGESTS && j < |indices| && indices[j] == Selection(indices)[j]
      {
        FoundAsActual(a, indices, Selection(indices)[j]);
        LabelInPlace(indices, j);
      }
      if |Selection(indices)| > 0 {
        FoundAsActual(a, indices, Selection(indices)[|Selection(indices)| - 1]);
        LabelInPlace(indices, |Selection(indices)| - 1);
      }
    }
  }

  /** From node to server: ordered indices give a submission that the honest quote binds. */
  lemma OrderedQuoteBinds(hash: Hash, a: Attest, indices: seq<U8>, regs: Registers, rest: Str)
    requires Selects(a, indices) && Sha256Bank(regs) && Ordered(indices)
    requires Hashed(a, Actual(regs)).Some? ==> a.digest == hash(a.algorithm, Hashed(a, Actual(regs)).value)
    ensures Binds(hash, Marshal(a) + rest, Submitted(indices, regs))
  {
    OrderedAgrees(a, indices, regs);
    ActualHashed(a, indices, regs);
    AttestExactly(Marshal(a) + rest, a, rest);
  }

  lemma {:induction false} AscendingSkips(s: set<nat>, m: nat, n: nat)
    requires m <= n && forall i | m <= i < n :: i !in s
    ensures AscendingBelow(s, n) == AscendingBelow(s, m)
  {
    if m == n {
    } else {
      AscendingSkips(s, m, n - 1);
    }
  }

  /** Indices in descending order are labelled the wrong way round. */
  lemma DescendingMislabels(regs: Registers)
    ensures Submitted([7, 0], regs) == [PcrValue(7, ALG_SHA256, regs(0)), PcrValue(0, ALG_SHA256, regs(7))]
  {
    var s: set<nat> := {7, 0};
    var indices: seq<U8> := [7, 0];
    assert indices[0] in IndexSet(indices) && indices[1] in IndexSet(indices);
    assert IndexSet(indices) == s;
    AscendingSkips(s, 8, 24);
    AscendingSkips(s, 1, 7);
    assert AscendingBelow(s, 1) == AscendingBelow(s, 0) + [0];
    assert AscendingBelow(s, 8) == AscendingBelow(s, 7) + [7];
    assert Selection([7, 0]) == [0, 7];
  }

  /** More than eight selected registers are never all submitted. */
  lemma AtMostEight(indices: seq<U8>, regs: Registers)
    ensures |Submitted(indices, regs)| <= 8
    ensures |Selection(indices)| > 8 ==> !Ordered(indices)
  {
  }
}
