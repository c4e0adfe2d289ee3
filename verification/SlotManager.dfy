/**
  `TpmContextManager`: every call loads the keys it needs, works, and saves them back, so
  that a TPM without a resource manager never fills its few object slots.

  Each call is a function from the TPM's state to its next state (the specification) and a
  method of the manager class that is proved to compute it. What whole runs guarantee is
  in `SlotRuns`.
 */
module SlotManager {
  import opened Bytes
  import opened Chip

  /** Where a session's key is: in the TPM, or saved to memory with its slot freed. */
  datatype KeyState = Live(handle: Handle) | Saved(context: Object)

  /** The session's own two objects; their public areas are the `ak_pub` and `ek_spki` of the source. */
  datatype Session = Session(ek: KeyState, ak: KeyState, akObject: Object, ekObject: Object)

  datatype Ensured = Ensured(tpm: Tpm, state: KeyState, result: Option<Handle>)
  datatype Called<T> = Called(tpm: Tpm, session: Session, result: Option<T>)

  /** `pcr_slot_from_index` accepts the indices 0 to 23. */
  predicate AllSlots(indices: seq<U8>) {
    forall i | i in indices :: i < 24
  }

  function EnsureLoaded(fails: Oracle, t: Tpm, state: KeyState): Ensured {
    match state
    case Live(h) => Ensured(t, state, Some(h))
    case Saved(o) =>
      var r := ContextLoad(fails, t, o);
      if r.result.None? then Ensured(r.tpm, state, None)
      else Ensured(r.tpm, Live(r.result.value), r.result)
  }

  /** ContextSave leaves the object loaded; the flush frees its slot. */
  function SaveAndFlush(fails: Oracle, t: Tpm, h: Handle): Reply<Object> {
    var r := ContextSave(fails, t, h);
    if r.result.None? then r else Reply(FlushObject(fails, r.tpm, h), r.result)
  }

  function SaveIfNeeded(fails: Oracle, rm: bool, t: Tpm, state: KeyState): (Tpm, KeyState) {
    if rm || state.Saved? then (t, state)
    else
      var r := SaveAndFlush(fails, t, state.handle);
      (r.tpm, if r.result.Some? then Saved(r.result.value) else state)
  }

  /** Creates the session's EK and AK primaries. */
  function CreateKeys(fails: Oracle, t: Tpm): (r: Reply<(Handle, Handle)>)
    ensures r.result.Some? ==> r.result.value.0 in r.tpm.loaded && r.result.value.1 in r.tpm.loaded
  {
    var (t1, ok1) := Steps(fails, t, 1);
    if !ok1 then Reply(t1, None) else
    CreateAk(fails, CreatePrimary(fails, t1, EkTemplate))
  }

  function CreateAk(fails: Oracle, ek: Reply<Handle>): Reply<(Handle, Handle)> {
    if ek.result.None? then Reply(ek.tpm, None) else
    var (t2, ok2) := Steps(fails, ek.tpm, 1);
    if !ok2 then Reply(t2, None) else
    var ak := CreatePrimary(fails, t2, AkTemplate);
    if ak.result.None? then Reply(ak.tpm, None) else
    var (t3, ok3) := Steps(fails, ak.tpm, 2);
    Reply(t3, if ok3 then Some((ek.result.value, ak.result.value)) else None)
  }

  function SaveKeys(fails: Oracle, t: Tpm, ek: Handle, ak: Handle): Reply<(Object, Object)> {
    var ekSaved := SaveAndFlush(fails, t, ek);
    if ekSaved.result.None? then Reply(ekSaved.tpm, None) else
    var akSaved := SaveAndFlush(fails, ekSaved.tpm, ak);
    if akSaved.result.None? then Reply(akSaved.tpm, None) else
    Reply(akSaved.tpm, Some((ekSaved.result.value, akSaved.result.value)))
  }

  function BeginAttestation(fails: Oracle, rm: bool, t: Tpm): Reply<Session> {
    var keys := CreateKeys(fails, t);
    if keys.result.None? then Reply(keys.tpm, None)
    else OpenSession(fails, rm, keys.tpm, keys.result.value.0, keys.result.value.1)
  }

  /** Keeps the new keys live behind a resource manager, and saves them without one. */
  function OpenSession(fails: Oracle, rm: bool, t: Tpm, ek: Handle, ak: Handle): Reply<Session>
    requires ek in t.loaded && ak in t.loaded
  {
    var ekObject, akObject := t.loaded[ek], t.loaded[ak];
    if rm then Reply(t, Some(Session(Live(ek), Live(ak), akObject, ekObject))) else
    var saved := SaveKeys(fails, t, ek, ak);
    if saved.result.None? then Reply(saved.tpm, None) else
    var (ekSaved, akSaved) := saved.result.value;
    Reply(saved.tpm, Some(Session(Saved(ekSaved), Saved(akSaved), akObject, ekObject)))
  }

  function FlushIfLive(fails: Oracle, t: Tpm, state: KeyState): Tpm {
    if state.Live? then FlushObject(fails, t, state.handle) else t
  }

  function FinishAttestation(fails: Oracle, t: Tpm, s: Session): Tpm {
    FlushIfLive(fails, FlushIfLive(fails, t, s.ek), s.ak)
  }

  /** Signs the quote and reads the registers, with a loaded key. */
  function SignQuote(fails: Oracle, t: Tpm, ak: Handle): Reply<Object> {
    var (t1, ok1) := Steps(fails, t, 2);
    if !ok1 then Reply(t1, None) else
    var signed := UseKey(fails, t1, ak);
    if signed.result.None? then signed else
    var (t2, ok2) := Steps(fails, signed.tpm, 3);
    Reply(t2, if ok2 then signed.result else None)
  }

  /** The result is the object that signed the quote. */
  function QuoteInner(fails: Oracle, t: Tpm, s: Session, indices: seq<U8>): Called<Object> {
    var ak := EnsureLoaded(fails, t, s.ak);
    var s1 := s.(ak := ak.state);
    if ak.result.None? || !AllSlots(indices) then Called(ak.tpm, s1, None) else
    var r := SignQuote(fails, ak.tpm, ak.result.value);
    Called(r.tpm, s1, r.result)
  }

  function Quote(fails: Oracle, rm: bool, t: Tpm, s: Session, indices: seq<U8>): Called<Object> {
    var inner := QuoteInner(fails, t, s, indices);
    var (t1, ak) := SaveIfNeeded(fails, rm, inner.tpm, inner.session.ak);
    Called(t1, inner.session.(ak := ak), inner.result)
  }

  /** Satisfies the EK's policy in a session of its own and recovers the credential. */
  function ActivateCredential(fails: Oracle, t: Tpm, ak: Handle, ek: Handle): Reply<(Object, Object)> {
    var (t1, ok1) := Steps(fails, t, 2);
    if !ok1 then Reply(t1, None) else
    var policy := StartAuthSession(fails, t1);
    if policy.result.None? then Reply(policy.tpm, None) else
    var (t2, ok2) := Steps(fails, policy.tpm, 2);
    if !ok2 then Reply(t2, None) else
    var used := UseKeys(fails, t2, ak, ek);
    if used.result.None? then used else
    Reply(FlushSession(fails, used.tpm, policy.result.value), used.result)
  }

  /** The result is the pair of objects (AK, EK) that recovered the credential. */
  function ActivateInner(fails: Oracle, t: Tpm, s: Session): Called<(Object, Object)> {
    var ak := EnsureLoaded(fails, t, s.ak);
    var s1 := s.(ak := ak.state);
    if ak.result.None? then Called(ak.tpm, s1, None) else
    var ek := EnsureLoaded(fails, ak.tpm, s.ek);
    var s2 := s1.(ek := ek.state);
    if ek.result.None? then Called(ek.tpm, s2, None) else
    var r := ActivateCredential(fails, ek.tpm, ak.result.value, ek.result.value);
    Called(r.tpm, s2, r.result)
  }

  function Activate(fails: Oracle, rm: bool, t: Tpm, s: Session): Called<(Object, Object)> {
    var inner := ActivateInner(fails, t, s);
    var (t1, ak) := SaveIfNeeded(fails, rm, inner.tpm, inner.session.ak);
    var (t2, ek) := SaveIfNeeded(fails, rm, t1, inner.session.ek);
    Called(t2, inner.session.(ak := ak, ek := ek), inner.result)
  }

  /** `compute_pcr_policy_digest`: a trial session, flushed only when all goes well. */
  function PolicyDigest(fails: Oracle, t: Tpm): (Tpm, bool) {
    var trial := StartAuthSession(fails, t);
    if trial.result.None? then (trial.tpm, false) else
    var (t1, ok1) := Steps(fails, trial.tpm, 3);
    if !ok1 then (t1, false) else (FlushSession(fails, t1, trial.result.value), true)
  }

  function CreateSrk(fails: Oracle, t: Tpm): Reply<Handle> {
    var (t1, ok1) := Steps(fails, t, 1);
    if !ok1 then Reply(t1, None) else CreatePrimary(fails, t1, SrkTemplate)
  }

  /** TPM2_Create under the storage root key, whose slot is then freed. */
  function SealUnder(fails: Oracle, t: Tpm, srk: Handle): Reply<Object> {
    var (t1, ok1) := Steps(fails, t, 2);
    if !ok1 then Reply(t1, None) else
    var created := UseKey(fails, t1, srk);
    if created.result.None? then created else
    var (t2, ok2) := Steps(fails, FlushObject(fails, created.tpm, srk), 1);
    Reply(t2, if ok2 then Some(SealedObject(t1.clock)) else None)
  }

  /** The result is the identity of the sealed object that the blob carries. */
  function SealToPcr(fails: Oracle, t: Tpm, indices: seq<U8>): Reply<Object> {
    if !AllSlots(indices) then Reply(t, None) else
    var (t1, ok1) := Steps(fails, t, 1);
    if !ok1 then Reply(t1, None) else
    var (t2, ok2) := PolicyDigest(fails, t1);
    if !ok2 then Reply(t2, None) else
    SealWith(fails, CreateSrk(fails, t2))
  }

  function SealWith(fails: Oracle, srk: Reply<Handle>): Reply<Object> {
    if srk.result.None? then Reply(srk.tpm, None) else SealUnder(fails, srk.tpm, srk.result.value)
  }

  /** Loads the sealed object under the storage root key: the handles of both. */
  function LoadSealed(fails: Oracle, t: Tpm, blob: Object): Reply<(Handle, Handle)> {
    LoadUnderSrk(fails, CreateSrk(fails, t), blob)
  }

  function LoadUnderSrk(fails: Oracle, srk: Reply<Handle>, blob: Object): Reply<(Handle, Handle)> {
    if srk.result.None? then Reply(srk.tpm, None) else
    var (t1, ok1) := Steps(fails, srk.tpm, 2);
    if !ok1 then Reply(t1, None) else
    PairWith(srk.result.value, LoadObject(fails, t1, srk.result.value, blob))
  }

  function PairWith(srk: Handle, obj: Reply<Handle>): Reply<(Handle, Handle)> {
    Reply(obj.tpm, if obj.result.None? then None else Some((srk, obj.result.value)))
  }

  /** Satisfies the PCR policy and unseals: the object and the policy session. */
  function ReadSealed(fails: Oracle, t: Tpm, obj: Handle): Reply<(Object, Handle)> {
    var (t1, ok1) := Steps(fails, t, 1);
    if !ok1 then Reply(t1, None) else
    var policy := StartAuthSession(fails, t1);
    if policy.result.None? then Reply(policy.tpm, None) else
    var (t2, ok2) := Steps(fails, policy.tpm, 2);
    if !ok2 then Reply(t2, None) else
    var data := UseKey(fails, t2, obj);
    Reply(data.tpm, if data.result.None? then None else Some((data.result.value, policy.result.value)))
  }

  /** Unseals, and then frees both slots and the session. */
  function UnsealLoaded(fails: Oracle, t: Tpm, srk: Handle, obj: Handle): Reply<Object> {
    UnsealData(fails, ReadSealed(fails, t, obj), srk, obj)
  }

  function UnsealData(fails: Oracle, data: Reply<(Object, Handle)>, srk: Handle, obj: Handle): Reply<Object> {
    if data.result.None? then Reply(data.tpm, None) else
    var t1 := FlushObject(fails, FlushObject(fails, data.tpm, obj), srk);
    Reply(FlushSession(fails, t1, data.result.value.1), Some(data.result.value.0))
  }

  function UnsealWith(fails: Oracle, loaded: Reply<(Handle, Handle)>, indices: seq<U8>): Reply<Object> {
    if loaded.result.None? || !AllSlots(indices) then Reply(loaded.tpm, None) else
    UnsealLoaded(fails, loaded.tpm, loaded.result.value.0, loaded.result.value.1)
  }

  /** The result is the object whose data was unsealed. */
  function Unseal(fails: Oracle, t: Tpm, blob: Object, indices: seq<U8>): Reply<Object> {
    UnsealWith(fails, LoadSealed(fails, t, blob), indices)
  }

  class ManagedAttestationSession {
    var ekState: KeyState
    var akState: KeyState
    const akObject: Object
    const ekObject: Object

    constructor (ek: KeyState, ak: KeyState, akObject: Object, ekObject: Object)
      ensures View() == Session(ek, ak, akObject, ekObject)
    {
      ekState, akState := ek, ak;
      this.akObject, this.ekObject := akObject, ekObject;
    }

    function View(): Session
      reads this
    {
      Session(ekState, akState, akObject, ekObject)
    }
  }

  class TpmContextManager {
    const context: Context
    const hasResourceManager: bool

    /** Only the `Device` endpoint sits behind the kernel's resource manager. */
    constructor (context: Context, isDevice: bool)
      ensures this.context == context && hasResourceManager == isDevice
    {
      this.context, hasResourceManager := context, isDevice;
    }

    method EnsureKeyLoaded(state: KeyState) returns (after: KeyState, r: Option<Handle>)
      modifies context
      ensures Ensured(context.tpm, after, r) == EnsureLoaded(context.fails, old(context.tpm), state)
    {
      match state
      case Live(h) =>
        after, r := state, Some(h);
      case Saved(saved) =>
        r := context.Load(saved);
        after := if r.Some? then Live(r.value) else state;
    }

    method SaveKeyIfNeeded(state: KeyState) returns (after: KeyState)
      modifies context
      ensures (context.tpm, after) ==
              SaveIfNeeded(context.fails, hasResourceManager, old(context.tpm), state)
    {
      after := state;
      if hasResourceManager { return; }
      match state
      case Live(h) =>
        var saved := context.Save(h);
        if saved.None? { return; }
        context.Flush(h);
        after := Saved(saved.value);
      case Saved(_) =>
    }

    method Begin() returns (r: Option<ManagedAttestationSession>)
      modifies context
      ensures r.Some? ==> fresh(r.value)
      ensures Reply(context.tpm, if r.Some? then Some(r.value.View()) else None) ==
              BeginAttestation(context.fails, hasResourceManager, old(context.tpm))
    {
      var ok := context.Attempt(1);
      if !ok { return None; }
      var ek := context.Create(EkTemplate);
      if ek.None? { return None; }
      ok := context.Attempt(1);
      if !ok { return None; }
      var ak := context.Create(AkTemplate);
      if ak.None? { return None; }
      var akObject, ekObject := context.tpm.loaded[ak.value], context.tpm.loaded[ek.value];
      ok := context.Attempt(2);
      if !ok { return None; }
      if hasResourceManager {
        var s := new ManagedAttestationSession(Live(ek.value), Live(ak.value), akObject, ekObject);
        return Some(s);
      }
      var ekSaved := context.Save(ek.value);
      if ekSaved.None? { return None; }
      context.Flush(ek.value);
      var akSaved := context.Save(ak.value);
      if akSaved.None? { return None; }
      context.Flush(ak.value);
      var s := new ManagedAttestationSession(Saved(ekSaved.value), Saved(akSaved.value), akObject, ekObject);
      return Some(s);
    }

    method Finish(session: ManagedAttestationSession)
      modifies context
      ensures context.tpm == FinishAttestation(context.fails, old(context.tpm), old(session.View()))
    {
      match session.ekState {
        case Live(h) => context.Flush(h);
        case Saved(_) =>
      }
      match session.akState {
        case Live(h) => context.Flush(h);
        case Saved(_) =>
      }
    }

    method QuoteWithAk(session: ManagedAttestationSession, indices: seq<U8>) returns (r: Option<Object>)
      modifies context, session
      ensures Called(context.tpm, session.View(), r) ==
              QuoteInner(context.fails, old(context.tpm), old(session.View()), indices)
    {
      var ak;
      session.akState, ak := EnsureKeyLoaded(session.akState);
      if ak.None? || !AllSlots(indices) { return None; }
      var ok := context.Attempt(2);
      if !ok { return None; }
      r := context.Use(ak.value);
      if r.None? { return None; }
      ok := context.Attempt(3);
      if !ok { return None; }
    }

    method RunQuote(session: ManagedAttestationSession, indices: seq<U8>) returns (r: Option<Object>)
      modifies context, session
      ensures Called(context.tpm, session.View(), r) ==
              Quote(context.fails, hasResourceManager, old(context.tpm), old(session.View()), indices)
    {
      r := QuoteWithAk(session, indices);
      session.akState := SaveKeyIfNeeded(session.akState);
    }

    method ActivateWithKeys(session: ManagedAttestationSession) returns (r: Option<(Object, Object)>)
      modifies context, session
      ensures Called(context.tpm, session.View(), r) ==
              ActivateInner(context.fails, old(context.tpm), old(session.View()))
    {
      var ak, ek;
      session.akState, ak := EnsureKeyLoaded(session.akState);
      if ak.None? { return None; }
      session.ekState, ek := EnsureKeyLoaded(session.ekState);
      if ek.None? { return None; }
      var ok := context.Attempt(2);
      if !ok { return None; }
      var policy := context.StartSession();
      if policy.None? { return None; }
      ok := context.Attempt(2);
      if !ok { return None; }
      r := context.Activate(ak.value, ek.value);
      if r.None? { return None; }
      context.EndSession(policy.value);
    }

    method RunActivate(session: ManagedAttestationSession) returns (r: Option<(Object, Object)>)
      modifies context, session
      ensures Called(context.tpm, session.View(), r) ==
              Activate(context.fails, hasResourceManager, old(context.tpm), old(session.View()))
    {
      r := ActivateWithKeys(session);
      session.akState := SaveKeyIfNeeded(session.akState);
      session.ekState := SaveKeyIfNeeded(session.ekState);
    }

    method ComputePolicyDigest() returns (ok: bool)
      modifies context
      ensures (context.tpm, ok) == PolicyDigest(context.fails, old(context.tpm))
    {
      var trial := context.StartSession();
      if trial.None? { return false; }
      ok := context.Attempt(3);
      if !ok { return; }
      context.EndSession(trial.value);
    }

    method CreateSrkIn() returns (r: Option<Handle>)
      modifies context
      ensures Reply(context.tpm, r) == CreateSrk(context.fails, old(context.tpm))
    {
      var ok := context.Attempt(1);
      if !ok { return None; }
      r := context.Create(SrkTemplate);
    }

    method RunSeal(indices: seq<U8>) returns (r: Option<Object>)
      modifies context
      ensures Reply(context.tpm, r) == SealToPcr(context.fails, old(context.tpm), indices)
    {
      if !AllSlots(indices) { return None; }
      var ok := context.Attempt(1);
      if !ok { return None; }
      ok := ComputePolicyDigest();
      if !ok { return None; }
      var srk := CreateSrkIn();
      if srk.None? { return None; }
      ok := context.Attempt(2);
      if !ok { return None; }
      var blob := SealedObject(context.tpm.clock);
      var created := context.Use(srk.value);
      if created.None? { return None; }
      context.Flush(srk.value);
      ok := context.Attempt(1);
      return if ok then Some(blob) else None;
    }

    method RunUnseal(blob: Object, indices: seq<U8>) returns (r: Option<Object>)
      modifies context
      ensures Reply(context.tpm, r) == Unseal(context.fails, old(context.tpm), blob, indices)
    {
      var srk := CreateSrkIn();
      if srk.None? { return None; }
      var ok := context.Attempt(2);
      if !ok { return None; }
      var obj := context.LoadUnder(srk.value, blob);
      if obj.None? || !AllSlots(indices) { return None; }
      ok := context.Attempt(1);
      if !ok { return None; }
      var policy := context.StartSession();
      if policy.None? { return None; }
      ok := context.Attempt(2);
      if !ok { return None; }
      r := context.Use(obj.value);
      if r.None? { return None; }
      context.Flush(obj.value);
      context.Flush(srk.value);
      context.EndSession(policy.value);
    }
  }
}
