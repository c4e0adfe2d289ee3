/**
  Exactly which failures leave objects or policy sessions behind.

  Begin, seal, unseal and activate return at the first failure, without freeing what they
  took so far. What a call loses is therefore decided by the step at which it fails; each
  condition below is stated in terms of the oracle and the clock at the start of the call.
 */
module SlotLeaks {
  import opened Bytes
  import opened Chip
  import opened SlotManager
  import opened SlotCalls

  /** One of the `n` steps from `from` on fails. */
  ghost predicate FailsWithin(fails: Oracle, from: nat, n: nat) {
    exists k: nat :: from <= k < from + n && fails(k, Other)
  }

  lemma {:induction false} StepsExactly(fails: Oracle, t: Tpm, n: nat)
    ensures var (after, ok) := Steps(fails, t, n);
            && (ok <==> !FailsWithin(fails, t.clock, n))
            && (ok ==> after == t.(clock := t.clock + n))
    decreases n
  {
    if n == 0 {
    } else {
      StepsExactly(fails, Tick(t), n - 1);
      assert FailsWithin(fails, t.clock, n) <==>
             fails(t.clock, Other) || FailsWithin(fails, t.clock + 1, n - 1);
    }
  }

  lemma OneStep(fails: Oracle, t: Tpm)
    ensures Steps(fails, t, 1) == (Tick(t), !fails(t.clock, Other))
  {
    assert Steps(fails, Tick(t), 0) == (Tick(t), true);
  }

  // ----- Begin -----

  /** The keys that a failing begin leaves behind: those it had created so far. */
  ghost function BeginLoss(fails: Oracle, t: Tpm): set<Handle> {
    if fails(t.clock, Other) || fails(t.clock + 1, Create) then {}
    else if fails(t.clock + 2, Other) || fails(t.clock + 3, Create) then {t.next}
    else if FailsWithin(fails, t.clock + 4, 2) then {t.next, t.next + 1}
    else {}
  }

  ghost predicate BeginFails(fails: Oracle, c: nat) {
    || fails(c, Other) || fails(c + 1, Create)
    || fails(c + 2, Other) || fails(c + 3, Create)
    || FailsWithin(fails, c + 4, 2)
  }

  lemma CreateAkUnfolds(fails: Oracle, ek: Reply<Handle>)
    requires ek.result.Some?
    ensures var c, ak := ek.tpm.clock, CreatePrimary(fails, Tick(ek.tpm), AkTemplate);
            var r := CreateAk(fails, ek);
            && (fails(c, Other) ==> r == Reply(Tick(ek.tpm), None))
            && (!fails(c, Other) ==>
                  && r.tpm == ak.tpm.(clock := r.tpm.clock)
                  && (r.result.None? <==> fails(c + 1, Create) || FailsWithin(fails, c + 2, 2)))
  {
    OneStep(fails, ek.tpm);
    var ak := CreatePrimary(fails, Tick(ek.tpm), AkTemplate);
    StepsExactly(fails, ak.tpm, 2);
  }

  /** A command that loads one object under the next handle, or fails and loads none. */
  predicate LoadsOne(failed: bool, t: Tpm, r: Reply<Handle>) {
    && TpmOk(r.tpm) && r.tpm.clock == t.clock + 1 && r.tpm.sessions == t.sessions
    && (r.result.None? <==> failed)
    && (failed ==> r.tpm.loaded == t.loaded)
    && (!failed ==>
          && r.result.value == t.next && r.tpm.next == t.next + 1
          && r.tpm.loaded.Keys == t.loaded.Keys + {t.next})
  }

  lemma CreatePrimaryExactly(fails: Oracle, t: Tpm, template: Template)
    requires TpmOk(t)
    ensures LoadsOne(fails(t.clock, Create), t, CreatePrimary(fails, t, template))
  {
    CreateSafe(fails, t, template);
  }

  ghost predicate AkLost(fails: Oracle, c: nat, keys: set<Handle>, n: Handle, r: Reply<(Handle, Handle)>) {
    && (r.result.None? <==> fails(c, Other) || fails(c + 1, Create) || FailsWithin(fails, c + 2, 2))
    && (fails(c, Other) || fails(c + 1, Create) ==> r.tpm.loaded.Keys == keys + {n})
    && (!fails(c, Other) && !fails(c + 1, Create) ==> r.tpm.loaded.Keys == keys + {n, n + 1})
  }

  lemma CreateAkExactly(fails: Oracle, ek: Reply<Handle>, keys: set<Handle>, n: Handle)
    requires TpmOk(ek.tpm) && ek.result.Some? && ek.tpm.next == n + 1 && ek.tpm.loaded.Keys == keys + {n}
    ensures AkLost(fails, ek.tpm.clock, keys, n, CreateAk(fails, ek))
  {
    CreateAkUnfolds(fails, ek);
    CreatePrimaryExactly(fails, Tick(ek.tpm), AkTemplate);
    assert keys + {n} + {n + 1} == keys + {n, n + 1};
  }

  lemma CreateKeysUnfolds(fails: Oracle, t: Tpm)
    ensures CreateKeys(fails, t) ==
            if fails(t.clock, Other) then Reply(Tick(t), None)
            else CreateAk(fails, CreatePrimary(fails, Tick(t), EkTemplate))
  {
    OneStep(fails, t);
  }

  ghost predicate KeysLost(fails: Oracle, t: Tpm, r: Reply<(Handle, Handle)>) {
    && (r.result.None? <==> BeginFails(fails, t.clock))
    && (r.result.None? ==> r.tpm.loaded.Keys == t.loaded.Keys + BeginLoss(fails, t))
  }

  lemma EkThenAk(fails: Oracle, t: Tpm, r: Reply<(Handle, Handle)>)
    requires !fails(t.clock, Other)
    requires fails(t.clock + 1, Create) ==> r.result.None? && r.tpm.loaded.Keys == t.loaded.Keys
    requires !fails(t.clock + 1, Create) ==> AkLost(fails, t.clock + 2, t.loaded.Keys, t.next, r)
    ensures KeysLost(fails, t, r)
  {
  }

  lemma AkAfterEk(fails: Oracle, t: Tpm, ek: Reply<Handle>, r: Reply<(Handle, Handle)>)
    requires !fails(t.clock, Other) && r == CreateAk(fails, ek)
    requires LoadsOne(fails(t.clock + 1, Create), Tick(t), ek)
    ensures KeysLost(fails, t, r)
  {
    if ek.result.Some? {
      CreateAkExactly(fails, ek, t.loaded.Keys, t.next);
    }
    EkThenAk(fails, t, r);
  }

  lemma CreateKeysExactly(fails: Oracle, t: Tpm)
    requires TpmOk(t)
    ensures KeysLost(fails, t, CreateKeys(fails, t))
  {
    CreateKeysUnfolds(fails, t);
    CreatePrimaryExactly(fails, Tick(t), EkTemplate);
    if !fails(t.clock, Other) {
      AkAfterEk(fails, t, CreatePrimary(fails, Tick(t), EkTemplate), CreateKeys(fails, t));
    }
  }

  ghost predicate BeginLost(fails: Oracle, t: Tpm, r: Reply<Session>) {
    && (r.result.None? <==> BeginFails(fails, t.clock))
    && r.tpm.loaded.Keys == t.loaded.Keys + (if r.result.Some? then Handles(r.result.value) else BeginLoss(fails, t))
    && r.tpm.sessions == t.sessions
  }

  /** A begin fails exactly if one of its steps does, and then leaves behind what it had created. */
  lemma BeginLosesExactly(fails: Oracle, rm: bool, t: Tpm)
    requires TpmOk(t) && Reliable(fails)
    ensures BeginLost(fails, t, BeginAttestation(fails, rm, t))
  {
    CreateKeysExactly(fails, t);
    BeginSafe(fails, rm, t);
    BeginUnfolds(fails, rm, t);
    BegunLoses(fails, rm, t, CreateKeys(fails, t), BeginAttestation(fails, rm, t));
  }

  lemma BegunLoses(fails: Oracle, rm: bool, t: Tpm, keys: Reply<(Handle, Handle)>, r: Reply<Session>)
    requires Reliable(fails) && KeysLost(fails, t, keys) && Began(fails, rm, t, r)
    requires r.result.None? <==> keys.result.None?
    requires r.result.None? ==> r.tpm == keys.tpm
    ensures BeginLost(fails, t, r)
  {
  }

  lemma BeginUnfolds(fails: Oracle, rm: bool, t: Tpm)
    requires TpmOk(t) && Reliable(fails)
    ensures var keys, r := CreateKeys(fails, t), BeginAttestation(fails, rm, t);
            && (r.result.None? <==> keys.result.None?)
            && (r.result.None? ==> r.tpm == keys.tpm)
  {
    CreateKeysSafe(fails, t);
    var keys := CreateKeys(fails, t);
    if keys.result.Some? && !rm {
      SaveKeysSafe(fails, keys.tpm, t.next, t.next + 1);
    }
  }

  // ----- Seal -----

  /** The steps up to the trial session work, and one inside it does not. */
  ghost predicate SealLosesSession(fails: Oracle, c: nat, indices: seq<U8>) {
    AllSlots(indices) && !fails(c, Other) && !fails(c + 1, Other) && FailsWithin(fails, c + 2, 3)
  }

  /** Everything up to the storage root key works, and sealing under it does not. */
  ghost predicate SealLosesSrk(fails: Oracle, c: nat, indices: seq<U8>) {
    && AllSlots(indices) && !FailsWithin(fails, c, 5)
    && !fails(c + 6, Other) && !fails(c + 7, Create)
    && FailsWithin(fails, c + 8, 3)
  }

  ghost predicate SealFails(fails: Oracle, c: nat, indices: seq<U8>) {
    || !AllSlots(indices) || FailsWithin(fails, c, 5)
    || fails(c + 6, Other) || fails(c + 7, Create)
    || FailsWithin(fails, c + 8, 3) || fails(c + 12, Other)
  }

  lemma PolicyDigestExactly(fails: Oracle, t: Tpm)
    requires TpmOk(t) && Reliable(fails)
    ensures var (after, ok) := PolicyDigest(fails, t);
            && (ok <==> !fails(t.clock, Other) && !FailsWithin(fails, t.clock + 1, 3))
            && (ok ==> after == t.(clock := t.clock + 5, next := t.next + 1))
            && after.loaded == t.loaded
            && (fails(t.clock, Other) ==> after.sessions == t.sessions)
            && (!ok && !fails(t.clock, Other) ==> after.sessions == t.sessions + {t.next})
  {
    var trial := StartAuthSession(fails, t);
    if trial.result.Some? {
      StepsExactly(fails, trial.tpm, 3);
      assert t.sessions + {t.next} - {t.next} == t.sessions;
    }
  }

  lemma CreateSrkExactly(fails: Oracle, t: Tpm)
    requires TpmOk(t)
    ensures var r := CreateSrk(fails, t);
            && (fails(t.clock, Other) ==> r == Reply(Tick(t), None))
            && (!fails(t.clock, Other) ==> LoadsOne(fails(t.clock + 1, Create), Tick(t), r))
  {
    OneStep(fails, t);
    CreatePrimaryExactly(fails, Tick(t), SrkTemplate);
  }

  lemma SealUnderExactly(fails: Oracle, t: Tpm, srk: Handle)
    requires TpmOk(t) && Reliable(fails) && srk in t.loaded
    ensures var r := SealUnder(fails, t, srk);
            && r.tpm.sessions == t.sessions
            && (r.result.None? <==> FailsWithin(fails, t.clock, 3) || fails(t.clock + 4, Other))
            && (FailsWithin(fails, t.clock, 3) ==> r.tpm.loaded == t.loaded)
            && (!FailsWithin(fails, t.clock, 3) ==> r.tpm.loaded == t.loaded - {srk})
  {
    StepsExactly(fails, t, 2);
    var (t1, ok1) := Steps(fails, t, 2);
    if ok1 {
      assert FailsWithin(fails, t.clock, 3) <==> fails(t.clock + 2, Other);
      var created := UseKey(fails, t1, srk);
      if created.result.Some? {
        OneStep(fails, FlushObject(fails, created.tpm, srk));
      }
    }
  }

  /** Behind the policy digest: is the storage root key left behind? */
  ghost predicate SrkLost(fails: Oracle, t: Tpm, r: Reply<Object>) {
    var c := t.clock;
    var lost := !fails(c, Other) && !fails(c + 1, Create) && FailsWithin(fails, c + 2, 3);
    && r.tpm.sessions == t.sessions
    && (r.result.None? <==>
          fails(c, Other) || fails(c + 1, Create) || FailsWithin(fails, c + 2, 3) || fails(c + 6, Other))
    && (lost ==> r.tpm.loaded.Keys == t.loaded.Keys + {t.next})
    && (!lost ==> r.tpm.loaded.Keys == t.loaded.Keys)
  }

  lemma SealWithExactly(fails: Oracle, t: Tpm, srk: Reply<Handle>)
    requires TpmOk(t) && Reliable(fails)
    requires fails(t.clock, Other) ==> srk == Reply(Tick(t), None)
    requires !fails(t.clock, Other) ==> LoadsOne(fails(t.clock + 1, Create), Tick(t), srk)
    ensures SrkLost(fails, t, SealWith(fails, srk))
  {
    if srk.result.Some? {
      SealUnderExactly(fails, srk.tpm, t.next);
      assert t.loaded.Keys + {t.next} - {t.next} == t.loaded.Keys;
    }
  }

  ghost predicate SealLost(fails: Oracle, t: Tpm, indices: seq<U8>, r: Reply<Object>) {
    && (r.result.None? <==> SealFails(fails, t.clock, indices))
    && (SealLosesSrk(fails, t.clock, indices) ==> r.tpm.loaded.Keys == t.loaded.Keys + {t.next + 1})
    && (!SealLosesSrk(fails, t.clock, indices) ==> r.tpm.loaded.Keys == t.loaded.Keys)
    && (SealLosesSession(fails, t.clock, indices) ==> r.tpm.sessions == t.sessions + {t.next})
    && (!SealLosesSession(fails, t.clock, indices) ==> r.tpm.sessions == t.sessions)
  }

  lemma SealUnfolds(fails: Oracle, t: Tpm, indices: seq<U8>)
    requires AllSlots(indices) && !fails(t.clock, Other)
    ensures var (t2, ok) := PolicyDigest(fails, Tick(t));
            SealToPcr(fails, t, indices) == if ok then SealWith(fails, CreateSrk(fails, t2)) else Reply(t2, None)
  {
    OneStep(fails, t);
  }

  lemma EarlySealLost(fails: Oracle, t: Tpm, indices: seq<U8>)
    requires !AllSlots(indices) || fails(t.clock, Other)
    ensures SealLost(fails, t, indices, SealToPcr(fails, t, indices))
  {
    OneStep(fails, t);
  }

  lemma DigestLost(fails: Oracle, t: Tpm, indices: seq<U8>, t2: Tpm)
    requires AllSlots(indices) && !fails(t.clock, Other)
    requires fails(t.clock + 1, Other) || FailsWithin(fails, t.clock + 2, 3)
    requires t2.loaded == t.loaded
    requires fails(t.clock + 1, Other) ==> t2.sessions == t.sessions
    requires !fails(t.clock + 1, Other) ==> t2.sessions == t.sessions + {t.next}
    ensures SealLost(fails, t, indices, Reply(t2, None))
  {
    FirstFive(fails, t.clock);
  }

  lemma FirstFive(fails: Oracle, c: nat)
    ensures FailsWithin(fails, c, 5) <==> fails(c, Other) || fails(c + 1, Other) || FailsWithin(fails, c + 2, 3)
  {
  }

  lemma DigestKept(fails: Oracle, t: Tpm, indices: seq<U8>, r: Reply<Object>)
    requires AllSlots(indices) && !fails(t.clock, Other)
    requires !fails(t.clock + 1, Other) && !FailsWithin(fails, t.clock + 2, 3)
    requires SrkLost(fails, t.(clock := t.clock + 6, next := t.next + 1), r)
    ensures SealLost(fails, t, indices, r)
  {
    FirstFive(fails, t.clock);
  }

  lemma SealAfterDigest(fails: Oracle, t: Tpm, indices: seq<U8>, t2: Tpm)
    requires TpmOk(t) && Reliable(fails) && AllSlots(indices) && !fails(t.clock, Other)
    requires !fails(t.clock + 1, Other) && !FailsWithin(fails, t.clock + 2, 3)
    requires t2 == t.(clock := t.clock + 6, next := t.next + 1)
    ensures SealLost(fails, t, indices, SealWith(fails, CreateSrk(fails, t2)))
  {
    CreateSrkExactly(fails, t2);
    SealWithExactly(fails, t2, CreateSrk(fails, t2));
    DigestKept(fails, t, indices, SealWith(fails, CreateSrk(fails, t2)));
  }

  /** A seal leaves its trial session or its storage root key behind exactly in these cases. */
  lemma SealLosesExactly(fails: Oracle, t: Tpm, indices: seq<U8>)
    requires TpmOk(t) && Reliable(fails)
    ensures SealLost(fails, t, indices, SealToPcr(fails, t, indices))
  {
    if !AllSlots(indices) || fails(t.clock, Other) {
      EarlySealLost(fails, t, indices);
    } else {
      SealUnfolds(fails, t, indices);
      PolicyDigestExactly(fails, Tick(t));
      var (t2, ok) := PolicyDigest(fails, Tick(t));
      if ok {
        SealAfterDigest(fails, t, indices, t2);
      } else {
        DigestLost(fails, t, indices, t2);
      }
    }
  }

  // ----- Unseal -----

  /** The objects that a failing unseal leaves behind: those it had loaded so far. */
  ghost function UnsealLoss(fails: Oracle, t: Tpm, indices: seq<U8>): set<Handle> {
    var c := t.clock;
    if fails(c, Other) || fails(c + 1, Create) then {}
    else if FailsWithin(fails, c + 2, 2) || fails(c + 4, Load) then {t.next}
    else if !AllSlots(indices) || FailsWithin(fails, c + 5, 5) then {t.next, t.next + 1}
    else {}
  }

  ghost predicate LoadFails(fails: Oracle, c: nat) {
    || fails(c, Other) || fails(c + 1, Create)
    || FailsWithin(fails, c + 2, 2) || fails(c + 4, Load)
  }

  /** Both objects are loaded and the policy session is open, and a step inside it fails. */
  ghost predicate UnsealLosesSession(fails: Oracle, c: nat, indices: seq<U8>) {
    && !LoadFails(fails, c) && AllSlots(indices)
    && !fails(c + 5, Other) && !fails(c + 6, Other)
    && FailsWithin(fails, c + 7, 3)
  }

  ghost predicate UnsealFails(fails: Oracle, c: nat, indices: seq<U8>) {
    LoadFails(fails, c) || !AllSlots(indices) || FailsWithin(fails, c + 5, 5)
  }

  lemma LoadObjectExactly(fails: Oracle, t: Tpm, parent: Handle, blob: Object)
    requires TpmOk(t) && parent in t.loaded
    ensures LoadsOne(fails(t.clock, Load), t, LoadObject(fails, t, parent, blob))
  {
    InstallKeys(Tick(t), blob);
  }

  /** What a failing load leaves behind, and what a working one gives to the rest. */
  ghost predicate SrkAndObject(fails: Oracle, t: Tpm, r: Reply<(Handle, Handle)>) {
    var c := t.clock;
    && r.tpm.sessions == t.sessions
    && (r.result.None? <==> LoadFails(fails, c))
    && (fails(c, Other) || fails(c + 1, Create) ==> r.tpm.loaded.Keys == t.loaded.Keys)
    && (r.result.None? && !fails(c, Other) && !fails(c + 1, Create) ==> r.tpm.loaded.Keys == t.loaded.Keys + {t.next})
    && (r.result.Some? ==>
          && r.result.value == (t.next, t.next + 1)
          && TpmOk(r.tpm) && r.tpm.clock == c + 5 && r.tpm.next == t.next + 2
          && r.tpm.loaded.Keys == t.loaded.Keys + {t.next, t.next + 1})
  }

  lemma SrkOnly(fails: Oracle, t: Tpm, srk: Reply<Handle>, after: Tpm)
    requires !fails(t.clock, Other) && LoadsOne(fails(t.clock + 1, Create), Tick(t), srk) && srk.result.Some?
    requires FailsWithin(fails, t.clock + 2, 2) && after == srk.tpm.(clock := after.clock)
    ensures SrkAndObject(fails, t, Reply(after, None))
  {
  }

  lemma ObjectUnderSrk(fails: Oracle, t: Tpm, srk: Reply<Handle>, obj: Reply<Handle>)
    requires !fails(t.clock, Other) && LoadsOne(fails(t.clock + 1, Create), Tick(t), srk) && srk.result.Some?
    requires !FailsWithin(fails, t.clock + 2, 2)
    requires LoadsOne(fails(t.clock + 4, Load), srk.tpm.(clock := t.clock + 4), obj)
    ensures SrkAndObject(fails, t, PairWith(t.next, obj))
  {
    assert t.loaded.Keys + {t.next} + {t.next + 1} == t.loaded.Keys + {t.next, t.next + 1};
  }

  lemma LoadedUnderSrk(fails: Oracle, t: Tpm, srk: Reply<Handle>, t1: Tpm, blob: Object)
    requires !fails(t.clock, Other) && LoadsOne(fails(t.clock + 1, Create), Tick(t), srk) && srk.result.Some?
    requires !FailsWithin(fails, t.clock + 2, 2) && t1 == srk.tpm.(clock := t.clock + 4)
    ensures SrkAndObject(fails, t, PairWith(t.next, LoadObject(fails, t1, t.next, blob)))
  {
    LoadObjectExactly(fails, t1, t.next, blob);
    ObjectUnderSrk(fails, t, srk, LoadObject(fails, t1, t.next, blob));
  }

  lemma LoadUnderSrkExactly(fails: Oracle, t: Tpm, srk: Reply<Handle>, blob: Object)
    requires !fails(t.clock, Other) && LoadsOne(fails(t.clock + 1, Create), Tick(t), srk)
    ensures SrkAndObject(fails, t, LoadUnderSrk(fails, srk, blob))
  {
    if srk.result.Some? {
      StepsExactly(fails, srk.tpm, 2);
      var (t1, ok1) := Steps(fails, srk.tpm, 2);
      if ok1 {
        LoadedUnderSrk(fails, t, srk, t1, blob);
      } else {
        SrkOnly(fails, t, srk, t1);
      }
    }
  }

  lemma LoadSealedExactly(fails: Oracle, t: Tpm, blob: Object)
    requires TpmOk(t)
    ensures SrkAndObject(fails, t, LoadSealed(fails, t, blob))
  {
    CreateSrkExactly(fails, t);
    if !fails(t.clock, Other) {
      LoadUnderSrkExactly(fails, t, CreateSrk(fails, t), blob);
    }
  }

  /** Inside the policy session; on failure everything loaded stays. */
  ghost predicate DataRead(fails: Oracle, t: Tpm, r: Reply<(Object, Handle)>) {
    var c := t.clock;
    && (r.result.None? <==> FailsWithin(fails, c, 5))
    && r.tpm.loaded == t.loaded && TpmOk(r.tpm)
    && (fails(c, Other) || fails(c + 1, Other) ==> r.tpm.sessions == t.sessions)
    && (!fails(c, Other) && !fails(c + 1, Other) ==> r.tpm.sessions == t.sessions + {t.next})
    && (r.result.Some? ==> r.result.value.1 == t.next)
  }

  lemma ReadSealedExactly(fails: Oracle, t: Tpm, obj: Handle)
    requires TpmOk(t) && obj in t.loaded
    ensures DataRead(fails, t, ReadSealed(fails, t, obj))
  {
    OneStep(fails, t);
    FirstFive(fails, t.clock);
    if !fails(t.clock, Other) {
      var policy := StartAuthSession(fails, Tick(t));
      if policy.result.Some? {
        StepsExactly(fails, policy.tpm, 2);
        assert FailsWithin(fails, t.clock + 2, 3) <==> FailsWithin(fails, t.clock + 2, 2) || fails(t.clock + 4, Other);
      }
    }
  }

  /** From both objects loaded to the end of the call. */
  ghost predicate LoadedUnsealed(fails: Oracle, t: Tpm, srk: Handle, obj: Handle, r: Reply<Object>) {
    var c := t.clock;
    && (r.result.None? <==> FailsWithin(fails, c, 5))
    && (r.result.None? ==> r.tpm.loaded == t.loaded)
    && (r.result.Some? ==> r.tpm.loaded == t.loaded - {srk, obj})
    && (r.result.None? && !fails(c, Other) && !fails(c + 1, Other) ==> r.tpm.sessions == t.sessions + {t.next})
    && (r.result.Some? || fails(c, Other) || fails(c + 1, Other) ==> r.tpm.sessions == t.sessions)
  }

  lemma UnsealDataExactly(fails: Oracle, t: Tpm, srk: Handle, obj: Handle, data: Reply<(Object, Handle)>)
    requires TpmOk(t) && Reliable(fails) && srk in t.loaded && obj in t.loaded && srk != obj
    requires DataRead(fails, t, data)
    ensures LoadedUnsealed(fails, t, srk, obj, UnsealData(fails, data, srk, obj))
  {
    if data.result.Some? {
      FirstFive(fails, t.clock);
      FlushedTwice(fails, data.tpm, obj, srk);
      assert {obj, srk} == {srk, obj};
      assert t.sessions + {t.next} - {t.next} == t.sessions;
    }
  }

  ghost predicate UnsealLost(fails: Oracle, t: Tpm, indices: seq<U8>, r: Reply<Object>) {
    && (r.result.None? <==> UnsealFails(fails, t.clock, indices))
    && r.tpm.loaded.Keys == t.loaded.Keys + UnsealLoss(fails, t, indices)
    && (UnsealLosesSession(fails, t.clock, indices) ==> r.tpm.sessions == t.sessions + {t.next + 2})
    && (!UnsealLosesSession(fails, t.clock, indices) ==> r.tpm.sessions == t.sessions)
  }

  lemma UnsealedLoses(fails: Oracle, t: Tpm, indices: seq<U8>, t1: Tpm, r: Reply<Object>)
    requires TpmOk(t) && !LoadFails(fails, t.clock) && AllSlots(indices)
    requires t1.sessions == t.sessions && t1.clock == t.clock + 5 && t1.next == t.next + 2
    requires t1.loaded.Keys == t.loaded.Keys + {t.next, t.next + 1}
    requires LoadedUnsealed(fails, t1, t.next, t.next + 1, r)
    ensures UnsealLost(fails, t, indices, r)
  {
    FirstFive(fails, t1.clock);
    assert t.loaded.Keys + {t.next, t.next + 1} - {t.next, t.next + 1} == t.loaded.Keys;
  }

  lemma NotUnsealedLoses(fails: Oracle, t: Tpm, indices: seq<U8>, loaded: Reply<(Handle, Handle)>)
    requires SrkAndObject(fails, t, loaded) && (loaded.result.None? || !AllSlots(indices))
    ensures UnsealLost(fails, t, indices, Reply(loaded.tpm, None))
  {
  }

  lemma UnsealWithExactly(fails: Oracle, t: Tpm, loaded: Reply<(Handle, Handle)>, indices: seq<U8>)
    requires TpmOk(t) && Reliable(fails) && SrkAndObject(fails, t, loaded)
    ensures UnsealLost(fails, t, indices, UnsealWith(fails, loaded, indices))
  {
    if loaded.result.None? || !AllSlots(indices) {
      NotUnsealedLoses(fails, t, indices, loaded);
    } else {
      var srk, obj := t.next, t.next + 1;
      ReadSealedExactly(fails, loaded.tpm, obj);
      UnsealDataExactly(fails, loaded.tpm, srk, obj, ReadSealed(fails, loaded.tpm, obj));
      UnsealedLoses(fails, t, indices, loaded.tpm, UnsealLoaded(fails, loaded.tpm, srk, obj));
    }
  }

  /** An unseal leaves objects and its policy session behind exactly in these cases. */
  lemma UnsealLosesExactly(fails: Oracle, t: Tpm, blob: Object, indices: seq<U8>)
    requires TpmOk(t) && Reliable(fails)
    ensures UnsealLost(fails, t, indices, Unseal(fails, t, blob, indices))
  {
    LoadSealedExactly(fails, t, blob);
    UnsealWithExactly(fails, t, LoadSealed(fails, t, blob), indices);
  }

  // ----- Activate -----

  function Reloads(state: KeyState): nat {
    if state.Saved? then 1 else 0
  }

  /** Both keys are loaded and the policy session is open, and a step inside it fails. */
  ghost predicate ActivateLosesSession(fails: Oracle, c: nat, s: Session) {
    var d := c + Reloads(s.ak) + Reloads(s.ek);
    && !(s.ak.Saved? && fails(c, Load))
    && !(s.ek.Saved? && fails(c + Reloads(s.ak), Load))
    && !FailsWithin(fails, d, 3) && FailsWithin(fails, d + 3, 3)
  }

  ghost predicate ActivateFails(fails: Oracle, c: nat, s: Session) {
    || (s.ak.Saved? && fails(c, Load))
    || (s.ek.Saved? && fails(c + Reloads(s.ak), Load))
    || FailsWithin(fails, c + Reloads(s.ak) + Reloads(s.ek), 6)
  }

  ghost predicate CredentialLost(fails: Oracle, t: Tpm, r: Reply<(Object, Object)>) {
    var lost := !FailsWithin(fails, t.clock, 3) && FailsWithin(fails, t.clock + 3, 3);
    && (r.result.None? <==> FailsWithin(fails, t.clock, 6))
    && (lost ==> r.tpm.sessions == t.sessions + {t.next})
    && (!lost ==> r.tpm.sessions == t.sessions)
  }

  lemma ActivateCredentialExactly(fails: Oracle, t: Tpm, ak: Handle, ek: Handle)
    requires TpmOk(t) && Reliable(fails) && ak in t.loaded && ek in t.loaded
    ensures CredentialLost(fails, t, ActivateCredential(fails, t, ak, ek))
  {
    StepsExactly(fails, t, 2);
    var (t1, ok1) := Steps(fails, t, 2);
    assert FailsWithin(fails, t.clock, 6) <==> FailsWithin(fails, t.clock, 3) || FailsWithin(fails, t.clock + 3, 3);
    assert FailsWithin(fails, t.clock, 3) <==> FailsWithin(fails, t.clock, 2) || fails(t.clock + 2, Other);
    if ok1 {
      var policy := StartAuthSession(fails, t1);
      if policy.result.Some? {
        StepsExactly(fails, policy.tpm, 2);
        assert FailsWithin(fails, t.clock + 3, 3) <==> FailsWithin(fails, t.clock + 3, 2) || fails(t.clock + 5, Other);
        assert t.sessions + {t.next} - {t.next} == t.sessions;
      }
    }
  }

  /** Loading a saved key takes one step and one handle, or fails; a live one takes none. */
  predicate Reloaded(fails: Oracle, t: Tpm, state: KeyState, r: Ensured) {
    && r.tpm.sessions == t.sessions
    && (r.result.None? <==> state.Saved? && fails(t.clock, Load))
    && (r.result.Some? ==> r.tpm.clock == t.clock + Reloads(state) && r.tpm.next == t.next + Reloads(state))
  }

  lemma EnsureLoadedExactly(fails: Oracle, t: Tpm, state: KeyState)
    ensures Reloaded(fails, t, state, EnsureLoaded(fails, t, state))
  {
  }

  ghost predicate ActivateLost(fails: Oracle, t: Tpm, s: Session, sessions: set<Handle>, failed: bool) {
    && (failed <==> ActivateFails(fails, t.clock, s))
    && (ActivateLosesSession(fails, t.clock, s) ==>
          sessions == t.sessions + {t.next + Reloads(s.ak) + Reloads(s.ek)})
    && (!ActivateLosesSession(fails, t.clock, s) ==> sessions == t.sessions)
  }

  lemma LoadedThenLost(fails: Oracle, t: Tpm, s: Session, ak: Ensured, ek: Ensured, r: Reply<(Object, Object)>)
    requires Reloaded(fails, t, s.ak, ak) && ak.result.Some?
    requires Reloaded(fails, ak.tpm, s.ek, ek)
    requires ek.result.None? ==> r == Reply(ek.tpm, None)
    requires ek.result.Some? ==> CredentialLost(fails, ek.tpm, r)
    ensures ActivateLost(fails, t, s, r.tpm.sessions, r.result.None?)
  {
  }

  lemma BothLoadedLoses(fails: Oracle, t: Tpm, s: Session, ak: Ensured)
    requires TpmOk(ak.tpm) && SessionOk(ak.tpm, s.(ak := ak.state)) && Reliable(fails)
    requires Reloaded(fails, t, s.ak, ak) && ak.result.Some? && ak.state == Live(ak.result.value)
    ensures var ek := EnsureLoaded(fails, ak.tpm, s.ek);
            var r := if ek.result.None? then Reply(ek.tpm, None)
                     else ActivateCredential(fails, ek.tpm, ak.result.value, ek.result.value);
            ActivateLost(fails, t, s, r.tpm.sessions, r.result.None?)
  {
    EnsureEkSafe(fails, ak.tpm, s.(ak := ak.state));
    EnsureLoadedExactly(fails, ak.tpm, s.ek);
    var ek := EnsureLoaded(fails, ak.tpm, s.ek);
    if ek.result.Some? {
      ActivateCredentialExactly(fails, ek.tpm, ak.result.value, ek.result.value);
      LoadedThenLost(fails, t, s, ak, ek, ActivateCredential(fails, ek.tpm, ak.result.value, ek.result.value));
    } else {
      LoadedThenLost(fails, t, s, ak, ek, Reply(ek.tpm, None));
    }
  }

  lemma ActivateInnerLoses(fails: Oracle, t: Tpm, s: Session)
    requires TpmOk(t) && SessionOk(t, s) && Reliable(fails)
    ensures var r := ActivateInner(fails, t, s);
            ActivateLost(fails, t, s, r.tpm.sessions, r.result.None?)
  {
    EnsureAkSafe(fails, t, s);
    EnsureLoadedExactly(fails, t, s.ak);
    if EnsureLoaded(fails, t, s.ak).result.Some? {
      BothLoadedLoses(fails, t, s, EnsureLoaded(fails, t, s.ak));
    }
  }

  /** An activation fails exactly if one of its steps does, and leaves its session behind if that one is inside it. */
  lemma ActivateLosesExactly(fails: Oracle, rm: bool, t: Tpm, s: Session)
    requires TpmOk(t) && SessionOk(t, s) && Reliable(fails)
    ensures var r := Activate(fails, rm, t, s);
            ActivateLost(fails, t, s, r.tpm.sessions, r.result.None?)
  {
    ActivateInnerLoses(fails, t, s);
    ActivateInnerSafe(fails, t, s);
    var inner := ActivateInner(fails, t, s);
    SaveAkSafe(fails, rm, inner.tpm, inner.session);
    var (t1, ak) := SaveIfNeeded(fails, rm, inner.tpm, inner.session.ak);
    SaveEkSafe(fails, rm, t1, inner.session.(ak := ak));
  }

  // ----- Each of these losses happens -----

  /** One step that moves no object fails, and nothing else ever does. */
  ghost predicate FailsOnlyAt(fails: Oracle, step: nat) {
    forall n: nat, c :: fails(n, c) <==> n == step && c == Other
  }

  /** A begin that fails behind both creations leaves both keys loaded. */
  lemma FailedBeginLeaks(fails: Oracle, rm: bool, t: Tpm)
    requires TpmOk(t) && FailsOnlyAt(fails, t.clock + 4)
    ensures var r := BeginAttestation(fails, rm, t);
            r.result.None? && r.tpm.loaded.Keys == t.loaded.Keys + {t.next, t.next + 1}
  {
    BeginLosesExactly(fails, rm, t);
    BeginLossAt4(fails, t);
  }

  lemma BeginLossAt4(fails: Oracle, t: Tpm)
    requires FailsOnlyAt(fails, t.clock + 4)
    ensures BeginFails(fails, t.clock) && BeginLoss(fails, t) == {t.next, t.next + 1}
  {
    assert fails(t.clock + 4, Other);
  }

  /** A seal that fails in its trial session leaves the session open; */
  lemma FailedSealLeaksSession(fails: Oracle, t: Tpm, indices: seq<U8>)
    requires TpmOk(t) && AllSlots(indices) && FailsOnlyAt(fails, t.clock + 2)
    ensures var r := SealToPcr(fails, t, indices);
            r.result.None? && r.tpm.sessions == t.sessions + {t.next}
  {
    SealLosesExactly(fails, t, indices);
    assert fails(t.clock + 2, Other);
    assert SealLosesSession(fails, t.clock, indices) && SealFails(fails, t.clock, indices);
  }

  /** one that fails to seal leaves the storage root key. */
  lemma FailedSealLeaksKey(fails: Oracle, t: Tpm, indices: seq<U8>)
    requires TpmOk(t) && AllSlots(indices) && FailsOnlyAt(fails, t.clock + 10)
    ensures var r := SealToPcr(fails, t, indices);
            r.result.None? && r.tpm.loaded.Keys == t.loaded.Keys + {t.next + 1}
  {
    SealLosesExactly(fails, t, indices);
    assert fails(t.clock + 10, Other);
    assert SealLosesSrk(fails, t.clock, indices) && SealFails(fails, t.clock, indices);
  }

  /** An unseal that fails last of all leaves both objects and its policy session. */
  lemma FailedUnsealLeaks(fails: Oracle, t: Tpm, blob: Object, indices: seq<U8>)
    requires TpmOk(t) && AllSlots(indices) && FailsOnlyAt(fails, t.clock + 9)
    ensures var r := Unseal(fails, t, blob, indices);
            && r.result.None?
            && r.tpm.loaded.Keys == t.loaded.Keys + {t.next, t.next + 1}
            && r.tpm.sessions == t.sessions + {t.next + 2}
  {
    UnsealLosesExactly(fails, t, blob, indices);
    UnsealLossAt9(fails, t, indices);
  }

  lemma UnsealLossAt9(fails: Oracle, t: Tpm, indices: seq<U8>)
    requires AllSlots(indices) && FailsOnlyAt(fails, t.clock + 9)
    ensures UnsealFails(fails, t.clock, indices) && UnsealLoss(fails, t, indices) == {t.next, t.next + 1}
    ensures UnsealLosesSession(fails, t.clock, indices)
  {
    assert fails(t.clock + 9, Other);
  }

  /** An activation with both keys saved that cannot recover the credential leaves its session. */
  lemma FailedActivateLeaks(fails: Oracle, rm: bool, t: Tpm, s: Session)
    requires TpmOk(t) && SessionOk(t, s) && s.ak.Saved? && s.ek.Saved? && FailsOnlyAt(fails, t.clock + 7)
    ensures var r := Activate(fails, rm, t, s);
            r.result.None? && r.tpm.sessions == t.sessions + {t.next + 2}
  {
    var r := Activate(fails, rm, t, s);
    ActivateLosesExactly(fails, rm, t, s);
    ActivateLossAt7(fails, t.clock, s);
    SessionIsLost(fails, t, s, r.tpm.sessions, r.result.None?);
  }

  lemma SessionIsLost(fails: Oracle, t: Tpm, s: Session, sessions: set<Handle>, failed: bool)
    requires ActivateLost(fails, t, s, sessions, failed) && s.ak.Saved? && s.ek.Saved?
    requires ActivateFails(fails, t.clock, s) && ActivateLosesSession(fails, t.clock, s)
    ensures failed && sessions == t.sessions + {t.next + 2}
  {
  }

  lemma ActivateLossAt7(fails: Oracle, c: nat, s: Session)
    requires s.ak.Saved? && s.ek.Saved? && FailsOnlyAt(fails, c + 7)
    ensures ActivateFails(fails, c, s) && ActivateLosesSession(fails, c, s)
  {
    assert fails(c + 7, Other);
  }

  ghost predicate NeverFails(fails: Oracle) {
    forall n: nat, c :: !fails(n, c)
  }

  /**
    Unseal looks at the indices only when both objects are loaded: an index beyond the last
    register leaks them even on a TPM on which no command ever fails.
   */
  lemma BadIndexLeaks(fails: Oracle, t: Tpm, blob: Object, indices: seq<U8>)
    requires TpmOk(t) && NeverFails(fails) && !AllSlots(indices)
    ensures var r := Unseal(fails, t, blob, indices);
            r.result.None? && r.tpm.loaded.Keys == t.loaded.Keys + {t.next, t.next + 1}
  {
    UnsealLosesExactly(fails, t, blob, indices);
    BadIndexLoss(fails, t, indices);
  }

  lemma BadIndexLoss(fails: Oracle, t: Tpm, indices: seq<U8>)
    requires NeverFails(fails) && !AllSlots(indices)
    ensures UnsealFails(fails, t.clock, indices) && UnsealLoss(fails, t, indices) == {t.next, t.next + 1}
  {
  }

  // ----- When the remaining calls fail, and what they keep -----

  /** A quote fails exactly if loading the AK does, an index is no register, or one of its steps does. */
  ghost predicate QuoteFails(fails: Oracle, c: nat, s: Session, indices: seq<U8>) {
    || (s.ak.Saved? && fails(c, Load))
    || !(forall i | i in indices :: i < 24)
    || FailsWithin(fails, c + Reloads(s.ak), 6)
  }

  lemma SignQuoteExactly(fails: Oracle, t: Tpm, ak: Handle)
    requires ak in t.loaded
    ensures SignQuote(fails, t, ak).result.None? <==> FailsWithin(fails, t.clock, 6)
  {
    StepsExactly(fails, t, 2);
    var (t1, ok1) := Steps(fails, t, 2);
    assert FailsWithin(fails, t.clock, 6) <==>
           FailsWithin(fails, t.clock, 2) || fails(t.clock + 2, Other) || FailsWithin(fails, t.clock + 3, 3);
    if ok1 {
      var signed := UseKey(fails, t1, ak);
      if signed.result.Some? { StepsExactly(fails, signed.tpm, 3); }
    }
  }

  lemma QuoteFailsExactly(fails: Oracle, rm: bool, t: Tpm, s: Session, indices: seq<U8>)
    requires TpmOk(t) && SessionOk(t, s)
    ensures Quote(fails, rm, t, s, indices).result.None? <==> QuoteFails(fails, t.clock, s, indices)
  {
    EnsureAkSafe(fails, t, s);
    EnsureLoadedExactly(fails, t, s.ak);
    var ak := EnsureLoaded(fails, t, s.ak);
    if ak.result.Some? {
      SignQuoteExactly(fails, ak.tpm, ak.result.value);
    }
  }

  /** Behind a resource manager a live key is never saved: quote and activate leave it where it is. */
  lemma LiveKeysStay(fails: Oracle, t: Tpm, s: Session, indices: seq<U8>)
    requires TpmOk(t) && SessionOk(t, s)
    ensures s.ak.Live? ==>
              var r := Quote(fails, true, t, s, indices);
              r.session == s && r.tpm.loaded == t.loaded
    ensures s.ak.Live? && s.ek.Live? ==>
              var r := Activate(fails, true, t, s);
              r.session == s && r.tpm.loaded == t.loaded
  {
    if s.ak.Live? {
      SignQuoteCalm(fails, t, s.ak.handle);
      if s.ek.Live? { ActivateCredentialCalm(fails, t, s.ak.handle, s.ek.handle); }
    }
  }

  // ----- A TPM on which nothing fails -----

  /** Begin succeeds; seal and unseal succeed exactly if all indices are registers, 0 to 23. */
  lemma HealthyCalls(fails: Oracle, rm: bool, t: Tpm, blob: Object, indices: seq<U8>)
    requires NeverFails(fails) && TpmOk(t)
    ensures BeginAttestation(fails, rm, t).result.Some?
    ensures SealToPcr(fails, t, indices).result.Some? <==> forall i | i in indices :: i <= 23
    ensures Unseal(fails, t, blob, indices).result.Some? <==> forall i | i in indices :: i <= 23
  {
    BeginLosesExactly(fails, rm, t);
    SealLosesExactly(fails, t, indices);
    UnsealLosesExactly(fails, t, blob, indices);
    HealthyConditions(fails, t.clock, indices);
  }

  lemma HealthyConditions(fails: Oracle, c: nat, indices: seq<U8>)
    requires NeverFails(fails)
    ensures !BeginFails(fails, c)
    ensures SealFails(fails, c, indices) <==> !(forall i | i in indices :: i <= 23)
    ensures UnsealFails(fails, c, indices) <==> !(forall i | i in indices :: i <= 23)
  {
  }

  /** What was sealed is unsealed: in any later state the blob gives back the very object sealed. */
  lemma SealedIsUnsealed(fails: Oracle, t: Tpm, later: Tpm, indices: seq<U8>)
    requires NeverFails(fails) && TpmOk(t) && TpmOk(later) && forall i | i in indices :: i <= 23
    ensures var sealed := SealToPcr(fails, t, indices);
            && sealed.result.Some? && IsNewBlob(t, sealed.tpm, sealed.result.value)
            && Unseal(fails, later, sealed.result.value, indices).result == sealed.result
  {
    var sealed := SealToPcr(fails, t, indices);
    HealthyCalls(fails, false, t, SealedObject(0), indices);
    SealSafe(fails, t, indices);
    HealthyCalls(fails, false, later, sealed.result.value, indices);
    UnsealSafe(fails, later, sealed.result.value, indices);
  }

  // ----- The order of saving and flushing -----

  /** The EK is saved before the AK: what stays loaded tells which save failed. */
  lemma SavesEkFirst(fails: Oracle, t: Tpm, ek: Handle, ak: Handle)
    requires TpmOk(t) && ek in t.loaded && ak in t.loaded && ek != ak && !fails(t.clock + 1, Flush)
    ensures var r := SaveKeys(fails, t, ek, ak);
            && (fails(t.clock, Save) ==> r.result.None? && r.tpm.loaded == t.loaded)
            && (!fails(t.clock, Save) && fails(t.clock + 2, Save) ==> r.result.None? && r.tpm.loaded == t.loaded - {ek})
            && (!fails(t.clock, Save) && !fails(t.clock + 2, Save) ==> r.result.Some?)
  {
  }

  /** After an activation the AK is saved before the EK. */
  lemma SavesAkFirst(fails: Oracle, t: Tpm, s: Session)
    requires TpmOk(t) && SessionOk(t, s)
    ensures var inner := ActivateInner(fails, t, s);
            inner.session.ak.Live? ==>
              (Activate(fails, false, t, s).session.ak.Live? <==> fails(inner.tpm.clock, Save))
  {
    ActivateInnerSafe(fails, t, s);
  }

  /** Finishing flushes the EK before the AK, and a failed flush leaves its key loaded. */
  lemma FlushesEkFirst(fails: Oracle, t: Tpm, s: Session)
    requires TpmOk(t) && SessionOk(t, s) && s.ek.Live? && s.ak.Live?
    ensures var after := FinishAttestation(fails, t, s);
            && (s.ek.handle in after.loaded <==> fails(t.clock, Flush))
            && (s.ak.handle in after.loaded <==> fails(t.clock + 1, Flush))
  {
  }

  /** Unsealing flushes the object, the storage root key and the session, in this order. */
  lemma FlushesObjectFirst(fails: Oracle, data: Reply<(Object, Handle)>, srk: Handle, obj: Handle)
    requires TpmOk(data.tpm) && srk in data.tpm.loaded && obj in data.tpm.loaded && srk != obj
    requires data.result.Some? && data.result.value.1 in data.tpm.sessions
    ensures var r := UnsealData(fails, data, srk, obj);
            var c := data.tpm.clock;
            && (obj in r.tpm.loaded <==> fails(c, Flush))
            && (srk in r.tpm.loaded <==> fails(c + 1, Flush))
            && (data.result.value.1 in r.tpm.sessions <==> fails(c + 2, Flush))
  {
  }
}
