/**
  What each call of the slot manager keeps, under every pattern of TPM failures, and what it
  gives back when saving and flushing work.
 */
module SlotCalls {
  import opened Bytes
  import opened Chip
  import opened SlotManager

  // ----- Safety: what every call keeps, whatever fails -----

  predicate TpmOk(t: Tpm) {
    && !t.stale
    && (forall h | h in t.loaded :: h < t.next)
    && (forall h | h in t.sessions :: h < t.next)
  }

  function HandlesOf(state: KeyState): set<Handle> {
    if state.Live? then {state.handle} else {}
  }

  function Handles(s: Session): set<Handle> {
    HandlesOf(s.ek) + HandlesOf(s.ak)
  }

  /** A live handle is loaded and a saved context is of the same, own object. */
  predicate Holds(t: Tpm, state: KeyState, own: Object) {
    match state
    case Live(h) => h in t.loaded && t.loaded[h] == own
    case Saved(o) => o == own
  }

  predicate IsPrimary(o: Object, template: Template) {
    o.Primary? && o.template == template
  }

  /** An object of its own: it was created between the two states. */
  predicate IsNewPrimary(t: Tpm, after: Tpm, o: Object, template: Template) {
    IsPrimary(o, template) && t.clock <= o.serial < after.clock
  }

  predicate SessionOk(t: Tpm, s: Session) {
    && IsPrimary(s.ekObject, EkTemplate) && IsPrimary(s.akObject, AkTemplate)
    && Holds(t, s.ek, s.ekObject)
    && Holds(t, s.ak, s.akObject)
    && HandlesOf(s.ek) !! HandlesOf(s.ak)
  }

  /** Objects outside `mine` stay loaded as they were; handles, the clock and the peak only grow. */
  predicate Leaves(t: Tpm, after: Tpm, mine: set<Handle>) {
    && t.next <= after.next
    && t.clock <= after.clock
    && t.peak <= after.peak
    && forall h | h in t.loaded && h !in mine :: h in after.loaded && after.loaded[h] == t.loaded[h]
  }

  /** Saving a context and flushing an object always work. */
  ghost predicate Reliable(fails: Oracle) {
    forall n: nat :: !fails(n, Save) && !fails(n, Flush)
  }

  /**
    A call on one session: the session stays consistent and nobody else's object moves. When
    saving and flushing work, the session's own handles account for every change.
   */
  ghost predicate SafeCall(fails: Oracle, t: Tpm, s: Session, after: Tpm, s': Session) {
    && TpmOk(after)
    && SessionOk(after, s')
    && s'.akObject == s.akObject && s'.ekObject == s.ekObject
    && Leaves(t, after, Handles(s))
    && (forall h | h in Handles(s') :: h in Handles(s) || t.next <= h)
    && (Reliable(fails) ==> after.loaded.Keys == t.loaded.Keys - Handles(s) + Handles(s'))
  }

  lemma InstallKeys(t: Tpm, o: Object)
    requires TpmOk(t)
    ensures var after := Install(t, o);
            && after.loaded.Keys == t.loaded.Keys + {t.next}
            && |after.loaded| == |t.loaded| + 1
  {
    assert t.next !in t.loaded.Keys;
    assert Install(t, o).loaded.Keys == t.loaded.Keys + {t.next};
  }

  lemma IdleSafe(fails: Oracle, t: Tpm, s: Session, after: Tpm)
    requires TpmOk(t) && SessionOk(t, s) && after == t.(clock := after.clock) && t.clock <= after.clock
    ensures SafeCall(fails, t, s, after, s)
  {
    assert Handles(s) <= t.loaded.Keys;
  }

  lemma EnsureAkSafe(fails: Oracle, t: Tpm, s: Session)
    requires TpmOk(t) && SessionOk(t, s)
    ensures var r := EnsureLoaded(fails, t, s.ak);
            && SafeCall(fails, t, s, r.tpm, s.(ak := r.state))
            && (r.result.Some? ==> r.state == Live(r.result.value))
            && r.tpm.sessions == t.sessions && |r.tpm.loaded| <= |t.loaded| + 1
            && r.tpm.peak <= Max(t.peak, |t.loaded| + 1)
  {
    if s.ak.Saved? && !fails(t.clock, Load) {
      InstallKeys(Tick(t), s.ak.context);
      AkLoadedSafe(fails, t, s, Install(Tick(t), s.ak.context));
    } else {
      assert s.(ak := s.ak) == s;
      IdleSafe(fails, t, s, EnsureLoaded(fails, t, s.ak).tpm);
    }
  }

  lemma AkLoadedSafe(fails: Oracle, t: Tpm, s: Session, after: Tpm)
    requires TpmOk(t) && SessionOk(t, s) && s.ak.Saved?
    requires TpmOk(after) && t.next < after.next && t.clock <= after.clock && t.peak <= after.peak
    requires after.loaded == t.loaded[t.next := s.akObject]
    ensures SafeCall(fails, t, s, after, s.(ak := Live(t.next)))
  {
    assert HandlesOf(s.ek) <= t.loaded.Keys;
    assert after.loaded.Keys == t.loaded.Keys + {t.next};
  }

  lemma EnsureEkSafe(fails: Oracle, t: Tpm, s: Session)
    requires TpmOk(t) && SessionOk(t, s)
    ensures var r := EnsureLoaded(fails, t, s.ek);
            && SafeCall(fails, t, s, r.tpm, s.(ek := r.state))
            && (r.result.Some? ==> r.state == Live(r.result.value))
            && r.tpm.sessions == t.sessions && |r.tpm.loaded| <= |t.loaded| + 1
            && r.tpm.peak <= Max(t.peak, |t.loaded| + 1)
  {
    if s.ek.Saved? && !fails(t.clock, Load) {
      InstallKeys(Tick(t), s.ek.context);
      EkLoadedSafe(fails, t, s, Install(Tick(t), s.ek.context));
    } else {
      assert s.(ek := s.ek) == s;
      IdleSafe(fails, t, s, EnsureLoaded(fails, t, s.ek).tpm);
    }
  }

  lemma EkLoadedSafe(fails: Oracle, t: Tpm, s: Session, after: Tpm)
    requires TpmOk(t) && SessionOk(t, s) && s.ek.Saved?
    requires TpmOk(after) && t.next < after.next && t.clock <= after.clock && t.peak <= after.peak
    requires after.loaded == t.loaded[t.next := s.ekObject]
    ensures SafeCall(fails, t, s, after, s.(ek := Live(t.next)))
  {
    assert HandlesOf(s.ak) <= t.loaded.Keys;
    assert after.loaded.Keys == t.loaded.Keys + {t.next};
  }

  lemma SignQuoteCalm(fails: Oracle, t: Tpm, ak: Handle)
    requires ak in t.loaded
    ensures var r := SignQuote(fails, t, ak);
            && r.tpm == t.(clock := r.tpm.clock) && t.clock <= r.tpm.clock
            && (r.result.Some? ==> r.result.value == t.loaded[ak])
  {
  }

  lemma QuoteInnerSafe(fails: Oracle, t: Tpm, s: Session, indices: seq<U8>)
    requires TpmOk(t) && SessionOk(t, s)
    ensures var r := QuoteInner(fails, t, s, indices);
            && SafeCall(fails, t, s, r.tpm, r.session)
            && r.tpm.sessions == t.sessions && r.tpm.peak <= Max(t.peak, |t.loaded| + 2)
            && r.session.ek == s.ek
            && (r.result.Some? ==> r.result.value == s.akObject)
  {
    var ak := EnsureLoaded(fails, t, s.ak);
    EnsureAkSafe(fails, t, s);
    if ak.result.Some? {
      SignQuoteCalm(fails, ak.tpm, ak.result.value);
      CalmIsSafe(fails, t, s, ak.tpm, s.(ak := ak.state), SignQuote(fails, ak.tpm, ak.result.value).tpm);
    }
  }

  /** Policy sessions, conversions and failed commands move no object. */
  predicate Calm(t: Tpm, after: Tpm) {
    && after.loaded == t.loaded && after.peak == t.peak && after.stale == t.stale
    && t.next <= after.next && t.clock <= after.clock
    && forall h | h in after.sessions :: h in t.sessions || h < after.next
  }

  lemma CalmIsSafe(fails: Oracle, t: Tpm, s: Session, t1: Tpm, s1: Session, t2: Tpm)
    requires SafeCall(fails, t, s, t1, s1) && Calm(t1, t2)
    ensures SafeCall(fails, t, s, t2, s1)
  {
  }

  lemma ActivateCredentialCalm(fails: Oracle, t: Tpm, ak: Handle, ek: Handle)
    requires TpmOk(t) && ak in t.loaded && ek in t.loaded
    ensures var r := ActivateCredential(fails, t, ak, ek);
            && Calm(t, r.tpm)
            && (r.result.Some? ==> r.result.value == (t.loaded[ak], t.loaded[ek]))
            && |r.tpm.sessions| <= |t.sessions| + 1
            && (Reliable(fails) && r.result.Some? ==> r.tpm.sessions == t.sessions)
  {
  }

  lemma ActivateInnerSafe(fails: Oracle, t: Tpm, s: Session)
    requires TpmOk(t) && SessionOk(t, s)
    ensures var r := ActivateInner(fails, t, s);
            && SafeCall(fails, t, s, r.tpm, r.session)
            && r.tpm.peak <= Max(t.peak, |t.loaded| + 2)
            && |r.tpm.sessions| <= |t.sessions| + 1
            && (Reliable(fails) && r.result.Some? ==> r.tpm.sessions == t.sessions)
            && (r.result.Some? ==> r.result.value == (s.akObject, s.ekObject))
  {
    EnsureAkSafe(fails, t, s);
    var ak := EnsureLoaded(fails, t, s.ak);
    var s1 := s.(ak := ak.state);
    if ak.result.Some? {
      EnsureEkSafe(fails, ak.tpm, s1);
      var ek := EnsureLoaded(fails, ak.tpm, s1.ek);
      var s2 := s1.(ek := ek.state);
      SafeCallTransitive(fails, t, s, ak.tpm, s1, ek.tpm, s2);
      if ek.result.Some? {
        ActivateCredentialCalm(fails, ek.tpm, ak.result.value, ek.result.value);
        CalmIsSafe(fails, t, s, ek.tpm, s2, ActivateInner(fails, t, s).tpm);
      }
    }
  }

  lemma SaveAkSafe(fails: Oracle, rm: bool, t: Tpm, s: Session)
    requires TpmOk(t) && SessionOk(t, s)
    ensures var (after, ak) := SaveIfNeeded(fails, rm, t, s.ak);
            && SafeCall(fails, t, s, after, s.(ak := ak))
            && after.sessions == t.sessions && after.peak == t.peak
            && (!rm && Reliable(fails) ==> ak.Saved?)
  {
  }

  lemma SaveEkSafe(fails: Oracle, rm: bool, t: Tpm, s: Session)
    requires TpmOk(t) && SessionOk(t, s)
    ensures var (after, ek) := SaveIfNeeded(fails, rm, t, s.ek);
            && SafeCall(fails, t, s, after, s.(ek := ek))
            && after.sessions == t.sessions && after.peak == t.peak
            && (!rm && Reliable(fails) ==> ek.Saved?)
  {
  }

  lemma SafeCallTransitive(fails: Oracle, t0: Tpm, s0: Session, t1: Tpm, s1: Session, t2: Tpm, s2: Session)
    requires TpmOk(t0)
    requires SafeCall(fails, t0, s0, t1, s1) && SafeCall(fails, t1, s1, t2, s2)
    ensures SafeCall(fails, t0, s0, t2, s2)
  {
  }

  /** What a quote keeps; the object that signs it is the session's own AK. */
  ghost predicate QuotedFrom(fails: Oracle, rm: bool, t: Tpm, s: Session, r: Called<Object>) {
    && SafeCall(fails, t, s, r.tpm, r.session)
    && r.tpm.sessions == t.sessions && r.tpm.peak <= Max(t.peak, |t.loaded| + 2)
    && (!rm && Reliable(fails) && Handles(s) == {} ==> Handles(r.session) == {})
    && (r.result.Some? ==> r.result.value == s.akObject)
  }

  lemma QuoteSafe(fails: Oracle, rm: bool, t: Tpm, s: Session, indices: seq<U8>)
    requires TpmOk(t) && SessionOk(t, s)
    ensures QuotedFrom(fails, rm, t, s, Quote(fails, rm, t, s, indices))
  {
    var inner := QuoteInner(fails, t, s, indices);
    QuoteInnerSafe(fails, t, s, indices);
    SaveAkSafe(fails, rm, inner.tpm, inner.session);
    var r := Quote(fails, rm, t, s, indices);
    SafeCallTransitive(fails, t, s, inner.tpm, inner.session, r.tpm, r.session);
  }

  /** What an activation keeps; it uses the session's own AK and EK. */
  ghost predicate ActivatedFrom(fails: Oracle, rm: bool, t: Tpm, s: Session, r: Called<(Object, Object)>) {
    && SafeCall(fails, t, s, r.tpm, r.session)
    && r.tpm.peak <= Max(t.peak, |t.loaded| + 2)
    && |r.tpm.sessions| <= |t.sessions| + 1
    && (Reliable(fails) && r.result.Some? ==> r.tpm.sessions == t.sessions)
    && (!rm && Reliable(fails) ==> Handles(r.session) == {})
    && (r.result.Some? ==> r.result.value == (s.akObject, s.ekObject))
  }

  lemma ActivateSafe(fails: Oracle, rm: bool, t: Tpm, s: Session)
    requires TpmOk(t) && SessionOk(t, s)
    ensures ActivatedFrom(fails, rm, t, s, Activate(fails, rm, t, s))
  {
    var inner := ActivateInner(fails, t, s);
    ActivateInnerSafe(fails, t, s);
    SaveAkSafe(fails, rm, inner.tpm, inner.session);
    var (t1, ak) := SaveIfNeeded(fails, rm, inner.tpm, inner.session.ak);
    var s1 := inner.session.(ak := ak);
    SafeCallTransitive(fails, t, s, inner.tpm, inner.session, t1, s1);
    SaveEkSafe(fails, rm, t1, s1);
    var r := Activate(fails, rm, t, s);
    SafeCallTransitive(fails, t, s, t1, s1, r.tpm, r.session);
  }

  /** The handles of the objects that a call added and left loaded. */
  function NewObjects(t: Tpm, after: Tpm): set<Handle> {
    after.loaded.Keys - t.loaded.Keys
  }

  /** A call without a session: it keeps every object, and adds at most two of its own. */
  predicate SafeStart(t: Tpm, after: Tpm) {
    && TpmOk(after)
    && Leaves(t, after, {})
    && NewObjects(t, after) <= {t.next, t.next + 1}
    && after.peak <= Max(t.peak, |t.loaded| + 2)
  }

  /** A primary is created under the next handle, or nothing changes but the clock. */
  predicate Created(t: Tpm, template: Template, r: Reply<Handle>) {
    && TpmOk(r.tpm) && r.tpm.sessions == t.sessions
    && t.clock <= r.tpm.clock
    && (r.result.None? ==> r.tpm == t.(clock := r.tpm.clock))
    && (r.result.Some? ==>
          && r.result.value == t.next && r.tpm.next == t.next + 1
          && t.next in r.tpm.loaded && IsNewPrimary(t, r.tpm, r.tpm.loaded[t.next], template)
          && r.tpm.loaded == t.loaded[t.next := r.tpm.loaded[t.next]]
          && |r.tpm.loaded| == |t.loaded| + 1
          && t.peak <= r.tpm.peak <= Max(t.peak, |t.loaded| + 1))
  }

  lemma CreateSafe(fails: Oracle, t: Tpm, template: Template)
    requires TpmOk(t)
    ensures Created(t, template, CreatePrimary(fails, t, template))
  {
    InstallKeys(Tick(t), Primary(template, t.clock));
  }

  /** Two creations in a row add at most the two handles after `next`. */
  lemma CreatedTwice(t: Tpm, a: Template, ek: Reply<Handle>, t2: Tpm, b: Template, ak: Reply<Handle>)
    requires TpmOk(t) && Created(t, a, ek) && ek.result.Some?
    requires t2 == ek.tpm.(clock := t2.clock) && ek.tpm.clock <= t2.clock && Created(t2, b, ak)
    ensures SafeStart(t, ek.tpm) && SafeStart(t, ak.tpm) && ak.tpm.sessions == t.sessions
    ensures ak.result.Some? ==>
              && ak.result.value == t.next + 1 && ak.tpm.loaded.Keys == t.loaded.Keys + {t.next, t.next + 1}
              && IsNewPrimary(t, ak.tpm, ak.tpm.loaded[t.next], a) && IsNewPrimary(t, ak.tpm, ak.tpm.loaded[t.next + 1], b)
  {
  }

  ghost predicate KeysCreated(t: Tpm, r: Reply<(Handle, Handle)>) {
    && SafeStart(t, r.tpm) && r.tpm.sessions == t.sessions
    && (r.result.Some? ==>
          && r.result.value == (t.next, t.next + 1)
          && r.tpm.loaded.Keys == t.loaded.Keys + {t.next, t.next + 1}
          && IsNewPrimary(t, r.tpm, r.tpm.loaded[t.next], EkTemplate)
          && IsNewPrimary(t, r.tpm, r.tpm.loaded[t.next + 1], AkTemplate))
  }

  lemma CreateAkSafe(fails: Oracle, t: Tpm, ek: Reply<Handle>)
    requires TpmOk(t) && Created(t, EkTemplate, ek)
    ensures KeysCreated(t, CreateAk(fails, ek))
  {
    if ek.result.Some? {
      var t2 := Steps(fails, ek.tpm, 1).0;
      CreateSafe(fails, t2, AkTemplate);
      CreatedTwice(t, EkTemplate, ek, t2, AkTemplate, CreatePrimary(fails, t2, AkTemplate));
    }
  }

  lemma KeysCreatedLater(t: Tpm, t1: Tpm, r: Reply<(Handle, Handle)>)
    requires TpmOk(t) && t1 == t.(clock := t1.clock) && t.clock <= t1.clock && (r == Reply(t1, None) || KeysCreated(t1, r))
    ensures KeysCreated(t, r)
  {
  }

  lemma CreateKeysSafe(fails: Oracle, t: Tpm)
    requires TpmOk(t)
    ensures KeysCreated(t, CreateKeys(fails, t))
  {
    var t1 := Steps(fails, t, 1).0;
    CreateSafe(fails, t1, EkTemplate);
    CreateAkSafe(fails, t1, CreatePrimary(fails, t1, EkTemplate));
    KeysCreatedLater(t, t1, CreateKeys(fails, t));
  }

  lemma SaveAndFlushSafe(fails: Oracle, t: Tpm, h: Handle)
    requires TpmOk(t) && h in t.loaded
    ensures var r := SaveAndFlush(fails, t, h);
            && TpmOk(r.tpm) && r.tpm.sessions == t.sessions
            && r.tpm.next == t.next && t.clock <= r.tpm.clock && r.tpm.peak == t.peak
            && (r.tpm.loaded == t.loaded || r.tpm.loaded == t.loaded - {h})
            && (r.result.Some? ==> r.result.value == t.loaded[h])
            && (Reliable(fails) ==> r.result.Some? && r.tpm.loaded == t.loaded - {h})
  {
  }

  lemma SaveKeysSafe(fails: Oracle, t: Tpm, ek: Handle, ak: Handle)
    requires TpmOk(t) && ek in t.loaded && ak in t.loaded && ek != ak
    ensures var r := SaveKeys(fails, t, ek, ak);
            && TpmOk(r.tpm) && r.tpm.sessions == t.sessions
            && r.tpm.next == t.next && t.clock <= r.tpm.clock && r.tpm.peak == t.peak
            && (forall h | h in t.loaded && h != ek && h != ak ::
                  h in r.tpm.loaded && r.tpm.loaded[h] == t.loaded[h])
            && r.tpm.loaded.Keys <= t.loaded.Keys
            && (r.result.Some? ==> r.result.value == (t.loaded[ek], t.loaded[ak]))
            && (Reliable(fails) ==>
                  r.result.Some? && r.tpm.loaded.Keys == t.loaded.Keys - {ek, ak})
  {
    SaveAndFlushSafe(fails, t, ek);
    var ekSaved := SaveAndFlush(fails, t, ek);
    if ekSaved.result.Some? {
      SaveAndFlushSafe(fails, ekSaved.tpm, ak);
    }
  }

  ghost predicate Opened(fails: Oracle, rm: bool, t: Tpm, ek: Handle, ak: Handle, r: Reply<Session>)
    requires ek in t.loaded && ak in t.loaded
  {
    && TpmOk(r.tpm) && r.tpm.sessions == t.sessions
    && r.tpm.loaded.Keys <= t.loaded.Keys && Leaves(t, r.tpm, {ek, ak})
    && r.tpm.peak == t.peak
    && (r.result.Some? ==>
          && SessionOk(r.tpm, r.result.value)
          && r.result.value.ekObject == t.loaded[ek] && r.result.value.akObject == t.loaded[ak]
          && Handles(r.result.value) == (if rm then {ek, ak} else {})
          && (Reliable(fails) ==>
                r.tpm.loaded.Keys == t.loaded.Keys - {ek, ak} + Handles(r.result.value)))
  }

  lemma OpenSessionSafe(fails: Oracle, rm: bool, t: Tpm, ek: Handle, ak: Handle)
    requires TpmOk(t) && ek in t.loaded && ak in t.loaded && ek != ak
    requires IsPrimary(t.loaded[ek], EkTemplate) && IsPrimary(t.loaded[ak], AkTemplate)
    ensures Opened(fails, rm, t, ek, ak, OpenSession(fails, rm, t, ek, ak))
  {
    if !rm {
      SaveKeysSafe(fails, t, ek, ak);
    }
  }

  /** The session that a successful begin opens, and the objects any begin leaves behind. */
  ghost predicate Began(fails: Oracle, rm: bool, t: Tpm, r: Reply<Session>) {
    && SafeStart(t, r.tpm) && r.tpm.sessions == t.sessions
    && (r.result.Some? ==>
          && SessionOk(r.tpm, r.result.value)
          && IsNewPrimary(t, r.tpm, r.result.value.ekObject, EkTemplate)
          && IsNewPrimary(t, r.tpm, r.result.value.akObject, AkTemplate)
          && (forall h | h in Handles(r.result.value) :: t.next <= h)
          && (!rm ==> Handles(r.result.value) == {})
          && (Reliable(fails) ==>
                r.tpm.loaded.Keys == t.loaded.Keys + Handles(r.result.value)))
  }

  lemma OpenedAfterCreate(fails: Oracle, rm: bool, t: Tpm, t1: Tpm, r: Reply<Session>)
    requires TpmOk(t) && SafeStart(t, t1) && t1.sessions == t.sessions
    requires t1.loaded.Keys == t.loaded.Keys + {t.next, t.next + 1}
    requires IsNewPrimary(t, t1, t1.loaded[t.next], EkTemplate) && IsNewPrimary(t, t1, t1.loaded[t.next + 1], AkTemplate)
    requires Opened(fails, rm, t1, t.next, t.next + 1, r)
    ensures Began(fails, rm, t, r)
  {
    assert t.next !in t.loaded && t.next + 1 !in t.loaded;
  }

  lemma BeginSafe(fails: Oracle, rm: bool, t: Tpm)
    requires TpmOk(t)
    ensures Began(fails, rm, t, BeginAttestation(fails, rm, t))
  {
    CreateKeysSafe(fails, t);
    var keys := CreateKeys(fails, t);
    if keys.result.Some? {
      OpenSessionSafe(fails, rm, keys.tpm, t.next, t.next + 1);
      OpenedAfterCreate(fails, rm, t, keys.tpm, BeginAttestation(fails, rm, t));
    }
  }

  lemma FinishSafe(fails: Oracle, t: Tpm, s: Session)
    requires TpmOk(t) && SessionOk(t, s)
    ensures var after := FinishAttestation(fails, t, s);
            && TpmOk(after) && Leaves(t, after, Handles(s))
            && after.sessions == t.sessions && after.peak == t.peak
            && after.loaded.Keys <= t.loaded.Keys
            && (Reliable(fails) ==> after.loaded.Keys == t.loaded.Keys - Handles(s))
  {
  }

  /** Sealing and unsealing: on success every slot and session they took is free again. */
  ghost predicate Borrowed(fails: Oracle, t: Tpm, after: Tpm, ok: bool) {
    && SafeStart(t, after)
    && |after.sessions| <= |t.sessions| + 1
    && (Reliable(fails) && ok ==> after.loaded == t.loaded && after.sessions == t.sessions)
  }

  lemma PolicyDigestCalm(fails: Oracle, t: Tpm)
    requires TpmOk(t)
    ensures var (after, ok) := PolicyDigest(fails, t);
            && Calm(t, after) && TpmOk(after) && after.next <= t.next + 1 && (ok ==> after.next == t.next + 1)
            && |after.sessions| <= |t.sessions| + 1
            && (Reliable(fails) && ok ==> after.sessions == t.sessions)
  {
  }

  /** Sealing leaves the storage root key loaded, or flushes it. */
  lemma SealUnderFlushes(fails: Oracle, t: Tpm, srk: Handle)
    requires TpmOk(t) && srk in t.loaded
    ensures var r := SealUnder(fails, t, srk);
            && r.tpm == t.(loaded := r.tpm.loaded, clock := r.tpm.clock) && t.clock <= r.tpm.clock
            && (r.tpm.loaded == t.loaded || r.tpm.loaded == t.loaded - {srk})
            && (Reliable(fails) && r.result.Some? ==> r.tpm.loaded == t.loaded - {srk})
            && (r.result.Some? ==> IsNewBlob(t, r.tpm, r.result.value))
  {
  }

  /** The object that TPM2_Create made between the two states. */
  predicate IsNewBlob(t: Tpm, after: Tpm, blob: Object) {
    blob.SealedObject? && t.clock <= blob.serial < after.clock
  }

  lemma SealUnderSafe(fails: Oracle, t: Tpm, t1: Tpm, srk: Handle)
    requires TpmOk(t1) && srk in t1.loaded
    requires t.next <= srk <= t.next + 1 && t1.loaded == t.loaded[srk := t1.loaded[srk]]
    requires srk !in t.loaded && t.next <= t1.next && t.clock <= t1.clock
    requires t.peak <= t1.peak <= Max(t.peak, |t.loaded| + 1)
    ensures var r := SealUnder(fails, t1, srk);
            && SafeStart(t, r.tpm) && NewObjects(t, r.tpm) <= {srk} && r.tpm.sessions == t1.sessions
            && (Reliable(fails) && r.result.Some? ==> r.tpm.loaded == t.loaded)
            && (r.result.Some? ==> IsNewBlob(t, r.tpm, r.result.value))
  {
    SealUnderFlushes(fails, t1, srk);
    SrkGone(t, t1, srk, SealUnder(fails, t1, srk).tpm);
  }

  lemma SrkGone(t: Tpm, t1: Tpm, srk: Handle, after: Tpm)
    requires TpmOk(t1) && srk in t1.loaded
    requires t.next <= srk <= t.next + 1 && t1.loaded == t.loaded[srk := t1.loaded[srk]]
    requires srk !in t.loaded && t.next <= t1.next && t.clock <= t1.clock
    requires t.peak <= t1.peak <= Max(t.peak, |t.loaded| + 1)
    requires after == t1.(loaded := after.loaded, clock := after.clock) && t1.clock <= after.clock
    requires after.loaded == t1.loaded || after.loaded == t1.loaded - {srk}
    ensures SafeStart(t, after) && NewObjects(t, after) <= {srk} && t1.loaded - {srk} == t.loaded
  {
    assert t1.loaded - {srk} == t.loaded;
  }

  lemma CreateSrkSafe(fails: Oracle, t: Tpm)
    requires TpmOk(t)
    ensures Created(t, SrkTemplate, CreateSrk(fails, t))
  {
    CreateSafe(fails, Steps(fails, t, 1).0, SrkTemplate);
  }

  lemma SealSafe(fails: Oracle, t: Tpm, indices: seq<U8>)
    requires TpmOk(t)
    ensures var r := SealToPcr(fails, t, indices);
            && Borrowed(fails, t, r.tpm, r.result.Some?) && NewObjects(t, r.tpm) <= {t.next + 1}
            && (r.result.Some? ==> IsNewBlob(t, r.tpm, r.result.value))
  {
    var (t1, ok1) := Steps(fails, t, 1);
    PolicyDigestCalm(fails, t1);
    var (t2, ok2) := PolicyDigest(fails, t1);
    CreateSrkSafe(fails, t2);
    var srk := CreateSrk(fails, t2);
    if srk.result.Some? {
      SealUnderSafe(fails, t, srk.tpm, srk.result.value);
    }
  }

  /** Both objects of an unseal are loaded, under the two handles after `t.next`. */
  predicate BothLoaded(t: Tpm, after: Tpm, blob: Object) {
    && t.next in after.loaded && t.next + 1 in after.loaded
    && after.loaded[t.next + 1] == blob
    && after.loaded - {t.next, t.next + 1} == t.loaded
  }

  lemma LoadObjectSafe(fails: Oracle, t: Tpm, t1: Tpm, blob: Object)
    requires TpmOk(t) && TpmOk(t1) && t1.next == t.next + 1 && t.next in t1.loaded
    requires t1.loaded == t.loaded[t.next := t1.loaded[t.next]] && t.clock <= t1.clock
    requires t.peak <= t1.peak <= Max(t.peak, |t.loaded| + 1)
    ensures var r := LoadObject(fails, t1, t.next, blob);
            && SafeStart(t, r.tpm) && r.tpm.sessions == t1.sessions
            && (r.result.Some? ==> r.result.value == t.next + 1 && BothLoaded(t, r.tpm, blob))
  {
  }

  ghost predicate SealedLoaded(t: Tpm, blob: Object, r: Reply<(Handle, Handle)>) {
    && SafeStart(t, r.tpm) && r.tpm.sessions == t.sessions
    && (r.result.Some? ==> r.result.value == (t.next, t.next + 1) && BothLoaded(t, r.tpm, blob))
  }

  lemma LoadUnderSrkSafe(fails: Oracle, t: Tpm, srk: Reply<Handle>, blob: Object)
    requires TpmOk(t) && Created(t, SrkTemplate, srk)
    ensures SealedLoaded(t, blob, LoadUnderSrk(fails, srk, blob))
  {
    if srk.result.Some? {
      LoadObjectSafe(fails, t, Steps(fails, srk.tpm, 2).0, blob);
    }
  }

  lemma LoadSealedSafe(fails: Oracle, t: Tpm, blob: Object)
    requires TpmOk(t)
    ensures SealedLoaded(t, blob, LoadSealed(fails, t, blob))
  {
    CreateSrkSafe(fails, t);
    LoadUnderSrkSafe(fails, t, CreateSrk(fails, t), blob);
  }

  ghost predicate UnsealedFrom(fails: Oracle, t: Tpm, srk: Handle, obj: Handle, r: Reply<Object>) {
    && TpmOk(r.tpm) && Leaves(t, r.tpm, {srk, obj}) && r.tpm.peak == t.peak
    && r.tpm.loaded.Keys <= t.loaded.Keys
    && |r.tpm.sessions| <= |t.sessions| + 1
    && (r.result.Some? ==> obj in t.loaded && r.result.value == t.loaded[obj])
    && (Reliable(fails) && r.result.Some? ==>
          r.tpm.loaded == t.loaded - {srk, obj} && r.tpm.sessions == t.sessions)
  }

  lemma ReadSealedCalm(fails: Oracle, t: Tpm, obj: Handle)
    requires TpmOk(t) && obj in t.loaded
    ensures var r := ReadSealed(fails, t, obj);
            && Calm(t, r.tpm)
            && |r.tpm.sessions| <= |t.sessions| + 1
            && (r.result.Some? ==>
                  && r.result.value.0 == t.loaded[obj]
                  && r.tpm.sessions - {r.result.value.1} == t.sessions)
  {
  }

  lemma UnsealLoadedSafe(fails: Oracle, t: Tpm, srk: Handle, obj: Handle)
    requires TpmOk(t) && srk in t.loaded && obj in t.loaded && srk != obj
    ensures UnsealedFrom(fails, t, srk, obj, UnsealLoaded(fails, t, srk, obj))
  {
    ReadSealedCalm(fails, t, obj);
    UnsealDataSafe(fails, t, srk, obj, ReadSealed(fails, t, obj));
  }

  lemma FlushedTwice(fails: Oracle, t: Tpm, a: Handle, b: Handle)
    requires TpmOk(t) && a in t.loaded && b in t.loaded && a != b
    ensures var after := FlushObject(fails, FlushObject(fails, t, a), b);
            && after == t.(loaded := after.loaded, clock := after.clock) && t.clock <= after.clock
            && after.loaded.Keys <= t.loaded.Keys
            && (forall h | h in t.loaded && h != a && h != b :: h in after.loaded)
            && (forall h | h in after.loaded :: after.loaded[h] == t.loaded[h])
            && (Reliable(fails) ==> after.loaded == t.loaded - {a, b})
  {
    var t1 := FlushObject(fails, t, a);
    assert t1.loaded == t.loaded || t1.loaded == t.loaded - {a};
  }

  lemma UnsealDataSafe(fails: Oracle, t: Tpm, srk: Handle, obj: Handle, data: Reply<(Object, Handle)>)
    requires TpmOk(t) && srk in t.loaded && obj in t.loaded && srk != obj
    requires Calm(t, data.tpm) && |data.tpm.sessions| <= |t.sessions| + 1
    requires data.result.Some? ==>
               data.result.value.0 == t.loaded[obj] && data.tpm.sessions - {data.result.value.1} == t.sessions
    ensures UnsealedFrom(fails, t, srk, obj, UnsealData(fails, data, srk, obj))
  {
    if data.result.Some? {
      FlushedTwice(fails, data.tpm, obj, srk);
      FlushedIsUnsealed(fails, t, srk, obj, data,
                        FlushObject(fails, FlushObject(fails, data.tpm, obj), srk));
    }
  }

  lemma FlushedIsUnsealed(fails: Oracle, t: Tpm, srk: Handle, obj: Handle, data: Reply<(Object, Handle)>, t1: Tpm)
    requires TpmOk(t) && obj in t.loaded && Calm(t, data.tpm) && |data.tpm.sessions| <= |t.sessions| + 1
    requires data.result.Some?
    requires data.result.value.0 == t.loaded[obj] && data.tpm.sessions - {data.result.value.1} == t.sessions
    requires t1 == data.tpm.(loaded := t1.loaded, clock := t1.clock) && data.tpm.clock <= t1.clock
    requires t1.loaded.Keys <= t.loaded.Keys && (forall h | h in t1.loaded :: t1.loaded[h] == t.loaded[h])
    requires forall h | h in t.loaded && h != obj && h != srk :: h in t1.loaded
    requires Reliable(fails) ==> t1.loaded == t.loaded - {obj, srk}
    ensures UnsealedFrom(fails, t, srk, obj,
                         Reply(FlushSession(fails, t1, data.result.value.1), Some(data.result.value.0)))
  {
    assert {obj, srk} == {srk, obj};
  }

  lemma UnsealedIsBorrowed(fails: Oracle, t: Tpm, t1: Tpm, blob: Object, r: Reply<Object>)
    requires TpmOk(t) && SafeStart(t, t1) && t1.sessions == t.sessions && BothLoaded(t, t1, blob)
    requires UnsealedFrom(fails, t1, t.next, t.next + 1, r)
    ensures Borrowed(fails, t, r.tpm, r.result.Some?)
    ensures r.result.Some? ==> r.result.value == blob
  {
    forall h | h in t.loaded
      ensures h in r.tpm.loaded && r.tpm.loaded[h] == t.loaded[h]
    {
      assert h in t1.loaded - {t.next, t.next + 1};
    }
  }

  lemma UnsealWithSafe(fails: Oracle, t: Tpm, loaded: Reply<(Handle, Handle)>, blob: Object, indices: seq<U8>)
    requires TpmOk(t) && SealedLoaded(t, blob, loaded)
    ensures var r := UnsealWith(fails, loaded, indices);
            && Borrowed(fails, t, r.tpm, r.result.Some?)
            && (r.result.Some? ==> r.result.value == blob)
  {
    if loaded.result.Some? && AllSlots(indices) {
      UnsealLoadedSafe(fails, loaded.tpm, t.next, t.next + 1);
      UnsealedIsBorrowed(fails, t, loaded.tpm, blob, UnsealWith(fails, loaded, indices));
    }
  }

  lemma UnsealSafe(fails: Oracle, t: Tpm, blob: Object, indices: seq<U8>)
    requires TpmOk(t)
    ensures var r := Unseal(fails, t, blob, indices);
            && Borrowed(fails, t, r.tpm, r.result.Some?)
            && (r.result.Some? ==> r.result.value == blob)
  {
    LoadSealedSafe(fails, t, blob);
    UnsealWithSafe(fails, t, LoadSealed(fails, t, blob), blob, indices);
  }

  /** Opening a session and finishing it gives back exactly the objects that were loaded. */
  lemma BeginFinishRestores(fails: Oracle, rm: bool, t: Tpm)
    requires TpmOk(t) && Reliable(fails)
    requires BeginAttestation(fails, rm, t).result.Some?
    ensures var begun := BeginAttestation(fails, rm, t);
            var after := FinishAttestation(fails, begun.tpm, begun.result.value);
            after.loaded == t.loaded && after.sessions == t.sessions
  {
    BeginSafe(fails, rm, t);
    var begun := BeginAttestation(fails, rm, t);
    FinishedRestores(fails, t, begun.tpm, begun.result.value);
  }

  lemma FinishedRestores(fails: Oracle, t: Tpm, t1: Tpm, s: Session)
    requires TpmOk(t) && TpmOk(t1) && SessionOk(t1, s) && Reliable(fails)
    requires Leaves(t, t1, {}) && t1.sessions == t.sessions
    requires (forall h | h in Handles(s) :: t.next <= h) && t1.loaded.Keys == t.loaded.Keys + Handles(s)
    ensures var after := FinishAttestation(fails, t1, s);
            after.loaded == t.loaded && after.sessions == t.sessions
  {
    FinishSafe(fails, t1, s);
    var after := FinishAttestation(fails, t1, s);
    assert after.loaded.Keys == t.loaded.Keys;
    forall h | h in t.loaded
      ensures after.loaded[h] == t.loaded[h]
    {
      assert h !in Handles(s);
    }
  }
}
