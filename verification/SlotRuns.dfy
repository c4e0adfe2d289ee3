/**
  What every run of the slot manager guarantees, for any number of open sessions, any
  interleaving of calls and any pattern of TPM failures.
 */
module SlotRuns {
  import opened Bytes
  import opened Chip
  import opened SlotManager
  import opened SlotCalls
  import opened SlotLeaks

  datatype Op =
    | Begin
    | Finish(id: nat)
    | QuoteOp(id: nat, indices: seq<U8>)
    | ActivateOp(id: nat)
    | SealOp(indices: seq<U8>)
    | UnsealOp(blob: Object, indices: seq<U8>)

  /** What came out of the TPM, beside the objects of the session it was asked for. */
  datatype Output =
    | Quoted(akObject: Object, signer: Object)
    | Activated(akObject: Object, ekObject: Object, used: (Object, Object))
    | Sealed(blob: Object)
    | Unsealed(blob: Object, data: Object)

  /** How many calls of each kind returned an error. */
  datatype Failures = Failures(begins: nat, seals: nat, unseals: nat, activations: nat)

  datatype Run = Run(
    tpm: Tpm,
    open: map<nat, Session>,
    nextId: nat,
    failures: Failures,
    outputs: seq<Output>)

  function Start(): Run {
    Run(Tpm(map[], {}, 0, 0, 0, false), map[], 0, Failures(0, 0, 0, 0), [])
  }

  function Begun(m: Run, r: Reply<Session>): Run {
    if r.result.None? then m.(tpm := r.tpm, failures := m.failures.(begins := m.failures.begins + 1))
    else m.(tpm := r.tpm, open := m.open[m.nextId := r.result.value], nextId := m.nextId + 1)
  }

  function Finished(m: Run, id: nat, tpm: Tpm): Run {
    m.(tpm := tpm, open := m.open - {id})
  }

  function WithSession(m: Run, id: nat, tpm: Tpm, s: Session): Run {
    m.(tpm := tpm, open := m.open[id := s])
  }

  function AfterQuote(m: Run, id: nat, r: Called<Object>): Run {
    var m1 := WithSession(m, id, r.tpm, r.session);
    if r.result.None? then m1
    else m1.(outputs := m.outputs + [Quoted(r.session.akObject, r.result.value)])
  }

  function AfterActivate(m: Run, id: nat, r: Called<(Object, Object)>): Run {
    var m1 := WithSession(m, id, r.tpm, r.session);
    if r.result.None? then m1.(failures := m.failures.(activations := m.failures.activations + 1))
    else m1.(outputs := m.outputs + [Activated(r.session.akObject, r.session.ekObject, r.result.value)])
  }

  function AfterSeal(m: Run, r: Reply<Object>): Run {
    if r.result.None? then m.(tpm := r.tpm, failures := m.failures.(seals := m.failures.seals + 1))
    else m.(tpm := r.tpm, outputs := m.outputs + [Sealed(r.result.value)])
  }

  function AfterUnseal(m: Run, blob: Object, r: Reply<Object>): Run {
    if r.result.None? then m.(tpm := r.tpm, failures := m.failures.(unseals := m.failures.unseals + 1))
    else m.(tpm := r.tpm, outputs := m.outputs + [Unsealed(blob, r.result.value)])
  }

  /** One call of the manager; a call naming a session that is not open is no call. */
  function Step(fails: Oracle, rm: bool, m: Run, op: Op): Run {
    match op
    case Begin => Begun(m, BeginAttestation(fails, rm, m.tpm))
    case Finish(id) =>
      if id !in m.open then m
      else Finished(m, id, FinishAttestation(fails, m.tpm, m.open[id]))
    case QuoteOp(id, indices) =>
      if id !in m.open then m else AfterQuote(m, id, Quote(fails, rm, m.tpm, m.open[id], indices))
    case ActivateOp(id) =>
      if id !in m.open then m else AfterActivate(m, id, Activate(fails, rm, m.tpm, m.open[id]))
    case SealOp(indices) => AfterSeal(m, SealToPcr(fails, m.tpm, indices))
    case UnsealOp(blob, indices) => AfterUnseal(m, blob, Unseal(fails, m.tpm, blob, indices))
  }

  function RunAll(fails: Oracle, rm: bool, m: Run, ops: seq<Op>): Run
    decreases |ops|
  {
    if ops == [] then m else RunAll(fails, rm, Step(fails, rm, m, ops[0]), ops[1..])
  }

  /** The objects at work were the session's own AK and EK, and the unsealed one that of the blob. */
  predicate OwnObjects(o: Output) {
    match o
    case Quoted(akObject, signer) => signer == akObject && IsPrimary(signer, AkTemplate)
    case Activated(akObject, ekObject, used) =>
      used == (akObject, ekObject) && IsPrimary(akObject, AkTemplate) && IsPrimary(ekObject, EkTemplate)
    case Sealed(blob) => blob.SealedObject?
    case Unsealed(blob, data) => data == blob
  }

  /** Two sessions share no handle and no object. */
  predicate Apart(a: Session, b: Session) {
    Handles(a) !! Handles(b) && a.akObject != b.akObject && a.ekObject != b.ekObject
  }

  predicate CreatedBefore(s: Session, clock: nat) {
    s.akObject.serial < clock && s.ekObject.serial < clock
  }

  /**
    The safety invariant: no command was ever given a handle that is not loaded, every open
    session holds two objects of its own, live or saved, no two sessions share a handle or an
    object, and every output came from the right objects.
   */
  ghost predicate Safe(m: Run) {
    && TpmOk(m.tpm)
    && (forall id | id in m.open ::
          id < m.nextId && SessionOk(m.tpm, m.open[id]) && CreatedBefore(m.open[id], m.tpm.clock))
    && (forall i, j | i in m.open && j in m.open && i != j :: Apart(m.open[i], m.open[j]))
    && (forall o | o in m.outputs :: OwnObjects(o))
  }

  // ----- Every call keeps the safety invariant -----

  lemma KeepsOthers(m: Run, id: nat, tpm: Tpm, mine: set<Handle>)
    requires Safe(m) && TpmOk(tpm) && Leaves(m.tpm, tpm, mine)
    requires id in m.open && mine !! Handles(m.open[id])
    ensures SessionOk(tpm, m.open[id]) && CreatedBefore(m.open[id], tpm.clock)
  {
  }

  lemma SessionStepSafe(fails: Oracle, m: Run, id: nat, tpm: Tpm, s: Session)
    requires Safe(m) && id in m.open && SafeCall(fails, m.tpm, m.open[id], tpm, s)
    ensures Safe(WithSession(m, id, tpm, s))
  {
    forall j | j in m.open && j != id
      ensures SessionOk(tpm, m.open[j]) && CreatedBefore(m.open[j], tpm.clock)
      ensures Apart(m.open[j], s) && Apart(s, m.open[j])
    {
      assert Apart(m.open[id], m.open[j]) && Apart(m.open[j], m.open[id]);
      KeepsOthers(m, j, tpm, Handles(m.open[id]));
      assert Handles(m.open[j]) <= m.tpm.loaded.Keys;
    }
  }

  lemma BegunSafe(fails: Oracle, rm: bool, m: Run, r: Reply<Session>)
    requires Safe(m) && Began(fails, rm, m.tpm, r)
    ensures Safe(Begun(m, r))
  {
    forall j | j in m.open
      ensures SessionOk(r.tpm, m.open[j]) && CreatedBefore(m.open[j], r.tpm.clock)
      ensures r.result.Some? ==> Apart(m.open[j], r.result.value) && Apart(r.result.value, m.open[j])
    {
      KeepsOthers(m, j, r.tpm, {});
      assert Handles(m.open[j]) <= m.tpm.loaded.Keys;
    }
  }

  /** A call without a session keeps all of them. */
  lemma StartedSafe(m: Run, m': Run)
    requires Safe(m) && SafeStart(m.tpm, m'.tpm) && m'.open == m.open && m'.nextId == m.nextId
    requires forall o | o in m'.outputs :: o in m.outputs || OwnObjects(o)
    ensures Safe(m')
  {
    forall j | j in m.open
      ensures SessionOk(m'.tpm, m.open[j]) && CreatedBefore(m.open[j], m'.tpm.clock)
    {
      KeepsOthers(m, j, m'.tpm, {});
    }
  }

  lemma FinishedSafe(m: Run, id: nat, tpm: Tpm)
    requires Safe(m) && id in m.open && TpmOk(tpm) && Leaves(m.tpm, tpm, Handles(m.open[id]))
    ensures Safe(Finished(m, id, tpm))
  {
    forall j | j in m.open && j != id
      ensures SessionOk(tpm, m.open[j]) && CreatedBefore(m.open[j], tpm.clock)
    {
      assert Apart(m.open[id], m.open[j]);
      KeepsOthers(m, j, tpm, Handles(m.open[id]));
    }
  }

  lemma QuotedSafe(fails: Oracle, rm: bool, m: Run, id: nat, r: Called<Object>)
    requires Safe(m) && id in m.open && QuotedFrom(fails, rm, m.tpm, m.open[id], r)
    ensures Safe(AfterQuote(m, id, r))
  {
    SessionStepSafe(fails, m, id, r.tpm, r.session);
  }

  lemma ActivatedSafe(fails: Oracle, rm: bool, m: Run, id: nat, r: Called<(Object, Object)>)
    requires Safe(m) && id in m.open && ActivatedFrom(fails, rm, m.tpm, m.open[id], r)
    ensures Safe(AfterActivate(m, id, r))
  {
    SessionStepSafe(fails, m, id, r.tpm, r.session);
  }

  // ----- Accounting: who holds which slot -----

  function LiveHandles(open: map<nat, Session>): set<Handle> {
    set id, h | id in open && h in Handles(open[id]) :: h
  }

  /** Loaded objects that no open session knows of. */
  function Leaked(m: Run): set<Handle> {
    m.tpm.loaded.Keys - LiveHandles(m.open)
  }

  /** Replacing or adding one session changes the live handles by that session's own. */
  lemma LiveUpdate(open: map<nat, Session>, id: nat, s: Session)
    ensures Handles(s) <= LiveHandles(open[id := s])
    ensures LiveHandles(open[id := s]) <= LiveHandles(open) + Handles(s)
    ensures LiveHandles(open) <=
            LiveHandles(open[id := s]) + (if id in open then Handles(open[id]) else {})
  {
    var open' := open[id := s];
    assert open'[id] == s;
    forall h | h in LiveHandles(open)
      ensures h in LiveHandles(open') || (id in open && h in Handles(open[id]))
    {
      var j :| j in open && h in Handles(open[j]);
      if j != id { assert open'[j] == open[j]; }
    }
  }

  lemma LiveRemove(open: map<nat, Session>, id: nat)
    requires id in open
    ensures LiveHandles(open - {id}) <= LiveHandles(open) <= LiveHandles(open - {id}) + Handles(open[id])
  {
    var open' := open - {id};
    forall h | h in LiveHandles(open)
      ensures h in LiveHandles(open') || h in Handles(open[id])
    {
      var j :| j in open && h in Handles(open[j]);
      if j != id { assert j in open' && open'[j] == open[j]; }
    }
  }

  lemma LiveIncludes(open: map<nat, Session>, id: nat)
    requires id in open
    ensures Handles(open[id]) <= LiveHandles(open)
  {
    LiveUpdate(open, id, open[id]);
    assert open[id := open[id]] == open;
  }

  lemma LiveLoaded(m: Run)
    requires Safe(m)
    ensures LiveHandles(m.open) <= m.tpm.loaded.Keys
  {
    forall h | h in LiveHandles(m.open)
      ensures h in m.tpm.loaded
    {
      var id :| id in m.open && h in Handles(m.open[id]);
      assert SessionOk(m.tpm, m.open[id]);
    }
  }

  /** The objects that a call leaves behind, decided by the step at which it fails. */
  ghost function ObjectsLost(fails: Oracle, m: Run, op: Op): set<Handle> {
    match op
    case Begin => BeginLoss(fails, m.tpm)
    case SealOp(indices) => if SealLosesSrk(fails, m.tpm.clock, indices) then {m.tpm.next + 1} else {}
    case UnsealOp(_, indices) => UnsealLoss(fails, m.tpm, indices)
    case _ => {}
  }

  /** The policy sessions that a call leaves open. */
  ghost function SessionsLost(fails: Oracle, m: Run, op: Op): set<Handle> {
    match op
    case SealOp(indices) => if SealLosesSession(fails, m.tpm.clock, indices) then {m.tpm.next} else {}
    case UnsealOp(_, indices) => if UnsealLosesSession(fails, m.tpm.clock, indices) then {m.tpm.next + 2} else {}
    case ActivateOp(id) =>
      if id in m.open && ActivateLosesSession(fails, m.tpm.clock, m.open[id])
      then {m.tpm.next + Reloads(m.open[id].ak) + Reloads(m.open[id].ek)} else {}
    case _ => {}
  }

  /** What is leaked between two states, and nothing else. */
  ghost predicate Lost(m: Run, m': Run, objects: set<Handle>, sessions: set<Handle>) {
    Leaked(m') == Leaked(m) + objects && m'.tpm.sessions == m.tpm.sessions + sessions
  }

  /** A call leaks exactly the objects and sessions that it loses. */
  ghost predicate LosesExactly(fails: Oracle, m: Run, op: Op, m': Run) {
    Lost(m, m', ObjectsLost(fails, m, op), SessionsLost(fails, m, op))
  }

  /** A call on an open session leaks nothing. */
  lemma SessionStepLeaks(fails: Oracle, m: Run, id: nat, m': Run)
    requires Safe(m) && Reliable(fails) && id in m.open && id in m'.open
    requires SafeCall(fails, m.tpm, m.open[id], m'.tpm, m'.open[id])
    requires m'.open == m.open[id := m'.open[id]]
    ensures Leaked(m') == Leaked(m)
  {
    LiveUpdate(m.open, id, m'.open[id]);
    LiveIncludes(m.open, id);
  }

  lemma FinishedLeaks(fails: Oracle, m: Run, id: nat, m': Run)
    requires id in m.open && m'.open == m.open - {id} && m'.tpm.sessions == m.tpm.sessions
    requires m'.tpm.loaded.Keys == m.tpm.loaded.Keys - Handles(m.open[id]) && m'.failures == m.failures
    ensures LosesExactly(fails, m, Finish(id), m') && Charged(fails, m, Finish(id), m')
  {
    LiveRemove(m.open, id);
    LiveIncludes(m.open, id);
    assert Leaked(m') == Leaked(m);
    LosesNothing(fails, m, Finish(id), m');
  }

  /** A new session accounts for the objects it was given. */
  lemma OpenedLeaks(m: Run, m': Run, s: Session)
    requires LiveHandles(m.open) <= m.tpm.loaded.Keys && m.nextId !in m.open && m'.open == m.open[m.nextId := s]
    requires m'.tpm.loaded.Keys == m.tpm.loaded.Keys + Handles(s) && m.tpm.loaded.Keys !! Handles(s)
    ensures Leaked(m') == Leaked(m)
  {
    LiveUpdate(m.open, m.nextId, s);
  }

  /** A call without a session leaks exactly what it leaves loaded. */
  lemma StartedLeaks(m: Run, m': Run, lost: set<Handle>)
    requires LiveHandles(m.open) <= m.tpm.loaded.Keys && m'.open == m.open
    requires m'.tpm.loaded.Keys == m.tpm.loaded.Keys + lost && m.tpm.loaded.Keys !! lost
    ensures Leaked(m') == Leaked(m) + lost
  {
  }

  /** Handles that are given out later are not those of loaded objects. */
  lemma FreshHandles(t: Tpm, handles: set<Handle>)
    requires TpmOk(t) && forall h | h in handles :: t.next <= h
    ensures t.loaded.Keys !! handles
  {
  }

  lemma BegunLoses(fails: Oracle, m: Run, m': Run)
    requires Lost(m, m', BeginLoss(fails, m.tpm), {})
    ensures LosesExactly(fails, m, Begin, m')
  {
  }

  lemma FailedBeginAccount(fails: Oracle, m: Run, m': Run)
    requires TpmOk(m.tpm) && LiveHandles(m.open) <= m.tpm.loaded.Keys && m'.open == m.open
    requires m'.tpm.loaded.Keys == m.tpm.loaded.Keys + BeginLoss(fails, m.tpm) && m'.tpm.sessions == m.tpm.sessions
    ensures LosesExactly(fails, m, Begin, m')
  {
    BeginLossIsNew(fails, m.tpm);
    StartedLeaks(m, m', BeginLoss(fails, m.tpm));
    BegunLoses(fails, m, m');
  }

  lemma OpenedAccount(fails: Oracle, m: Run, m': Run, s: Session)
    requires TpmOk(m.tpm) && LiveHandles(m.open) <= m.tpm.loaded.Keys && m.nextId !in m.open
    requires !BeginFails(fails, m.tpm.clock) && m'.open == m.open[m.nextId := s]
    requires m'.tpm.loaded.Keys == m.tpm.loaded.Keys + Handles(s) && m'.tpm.sessions == m.tpm.sessions
    requires forall h | h in Handles(s) :: m.tpm.next <= h
    ensures LosesExactly(fails, m, Begin, m')
  {
    BeginLossIsNew(fails, m.tpm);
    FreshHandles(m.tpm, Handles(s));
    OpenedLeaks(m, m', s);
    BegunLoses(fails, m, m');
  }

  lemma BeginLossIsNew(fails: Oracle, t: Tpm)
    requires TpmOk(t)
    ensures t.loaded.Keys !! BeginLoss(fails, t)
    ensures !BeginFails(fails, t.clock) ==> BeginLoss(fails, t) == {}
  {
    FreshHandles(t, BeginLoss(fails, t));
  }

  lemma SealedLeaks(fails: Oracle, m: Run, indices: seq<U8>, r: Reply<Object>)
    requires Safe(m) && SealLost(fails, m.tpm, indices, r)
    ensures LosesExactly(fails, m, SealOp(indices), AfterSeal(m, r))
  {
    LiveLoaded(m);
    StartedLeaks(m, AfterSeal(m, r), ObjectsLost(fails, m, SealOp(indices)));
  }

  lemma UnsealedLeaks(fails: Oracle, m: Run, blob: Object, indices: seq<U8>, r: Reply<Object>)
    requires Safe(m) && UnsealLost(fails, m.tpm, indices, r)
    ensures LosesExactly(fails, m, UnsealOp(blob, indices), AfterUnseal(m, blob, r))
  {
    LiveLoaded(m);
    StartedLeaks(m, AfterUnseal(m, blob, r), UnsealLoss(fails, m.tpm, indices));
  }

  lemma ActivatedLeaks(fails: Oracle, m: Run, id: nat, m': Run, failed: bool)
    requires id in m.open && Leaked(m') == Leaked(m)
    requires ActivateLost(fails, m.tpm, m.open[id], m'.tpm.sessions, failed)
    ensures LosesExactly(fails, m, ActivateOp(id), m')
  {
  }

  lemma QuotedLeaks(fails: Oracle, rm: bool, m: Run, id: nat, indices: seq<U8>, r: Called<Object>)
    requires Safe(m) && Reliable(fails) && id in m.open
    requires QuotedFrom(fails, rm, m.tpm, m.open[id], r)
    ensures LosesExactly(fails, m, QuoteOp(id, indices), AfterQuote(m, id, r))
    ensures Charged(fails, m, QuoteOp(id, indices), AfterQuote(m, id, r))
  {
    SessionStepLeaks(fails, m, id, AfterQuote(m, id, r));
    LosesNothing(fails, m, QuoteOp(id, indices), AfterQuote(m, id, r));
  }

  lemma LosesNothing(fails: Oracle, m: Run, op: Op, m': Run)
    requires op.Finish? || op.QuoteOp? || (op.ActivateOp? && op.id !in m.open)
    requires Leaked(m') == Leaked(m) && m'.tpm.sessions == m.tpm.sessions && m'.failures == m.failures
    ensures LosesExactly(fails, m, op, m') && Charged(fails, m, op, m')
  {
    assert ObjectsLost(fails, m, op) == {} == SessionsLost(fails, m, op);
    assert Leaked(m) + {} == Leaked(m) && m.tpm.sessions + {} == m.tpm.sessions;
  }

  // ----- Slots without a resource manager -----

  /** No session holds a slot, and no call ever needed more than two beside the leaked ones. */
  ghost predicate Tight(m: Run) {
    LiveHandles(m.open) == {} && m.tpm.peak <= |Leaked(m)| + 2
  }

  lemma StillNone(open: map<nat, Session>, id: nat, s: Session)
    requires LiveHandles(open) == {} && Handles(s) == {}
    ensures LiveHandles(open[id := s]) == {}
  {
    LiveUpdate(open, id, s);
  }

  /** A call takes at most two slots, and gives back those of its session. */
  ghost predicate TakesTwo(m: Run, m': Run) {
    LiveHandles(m'.open) == {} && m'.tpm.peak <= Max(m.tpm.peak, |m.tpm.loaded| + 2)
  }

  lemma BegunTakesTwo(fails: Oracle, m: Run, r: Reply<Session>)
    requires LiveHandles(m.open) == {} && Began(fails, false, m.tpm, r)
    ensures TakesTwo(m, Begun(m, r))
  {
    if r.result.Some? { StillNone(m.open, m.nextId, r.result.value); }
  }

  lemma QuotedTakesTwo(fails: Oracle, m: Run, id: nat, r: Called<Object>)
    requires Reliable(fails) && LiveHandles(m.open) == {} && id in m.open
    requires QuotedFrom(fails, false, m.tpm, m.open[id], r)
    ensures TakesTwo(m, AfterQuote(m, id, r))
  {
    LiveIncludes(m.open, id);
    StillNone(m.open, id, r.session);
  }

  lemma ActivatedTakesTwo(fails: Oracle, m: Run, id: nat, r: Called<(Object, Object)>)
    requires Reliable(fails) && LiveHandles(m.open) == {} && id in m.open
    requires ActivatedFrom(fails, false, m.tpm, m.open[id], r)
    ensures TakesTwo(m, AfterActivate(m, id, r))
  {
    StillNone(m.open, id, r.session);
  }

  lemma FinishedTakesTwo(m: Run, id: nat, m': Run)
    requires LiveHandles(m.open) == {} && id in m.open && m'.open == m.open - {id} && m'.tpm.peak == m.tpm.peak
    ensures TakesTwo(m, m')
  {
    LiveRemove(m.open, id);
  }

  lemma RoomForTwo(m: Run, m': Run, lost: set<Handle>)
    requires Tight(m) && TakesTwo(m, m') && Leaked(m') == Leaked(m) + lost
    ensures Tight(m')
  {
    assert Leaked(m) == m.tpm.loaded.Keys;
    CardGrows(Leaked(m), lost);
  }

  lemma CardGrows<T>(a: set<T>, b: set<T>)
    ensures |a| <= |a + b| <= |a| + |b|
  {
    assert a + b == a + (b - a);
    assert b == (b - a) + (b * a);
  }

  // ----- Counting failures -----

  /** Two objects for a begin or an unseal, and one for a seal. */
  function ObjectBound(f: Failures): nat {
    2 * f.begins + f.seals + 2 * f.unseals
  }

  function Total(f: Failures): nat {
    f.begins + f.seals + f.unseals + f.activations
  }

  /** One policy session for a seal, an unseal or an activation. */
  function SessionBound(f: Failures): nat {
    f.seals + f.unseals + f.activations
  }

  /** Only a call that fails loses anything, and no more than its share. */
  ghost predicate Charged(fails: Oracle, m: Run, op: Op, m': Run) {
    && |ObjectsLost(fails, m, op)| + ObjectBound(m.failures) <= ObjectBound(m'.failures)
    && |SessionsLost(fails, m, op)| + SessionBound(m.failures) <= SessionBound(m'.failures)
    && Total(m.failures) <= Total(m'.failures) <= Total(m.failures) + 1
  }

  lemma BegunCharged(fails: Oracle, m: Run, r: Reply<Session>)
    requires BeginLost(fails, m.tpm, r)
    ensures Charged(fails, m, Begin, Begun(m, r))
  {
  }

  lemma SealedCharged(fails: Oracle, m: Run, indices: seq<U8>, r: Reply<Object>)
    requires SealLost(fails, m.tpm, indices, r)
    ensures Charged(fails, m, SealOp(indices), AfterSeal(m, r))
  {
    if SealLosesSession(fails, m.tpm.clock, indices) { FirstFive(fails, m.tpm.clock); }
  }

  lemma UnsealedCharged(fails: Oracle, m: Run, blob: Object, indices: seq<U8>, r: Reply<Object>)
    requires UnsealLost(fails, m.tpm, indices, r)
    ensures Charged(fails, m, UnsealOp(blob, indices), AfterUnseal(m, blob, r))
  {
    if UnsealLosesSession(fails, m.tpm.clock, indices) { FirstFive(fails, m.tpm.clock + 5); }
  }

  lemma ActivatedCharged(fails: Oracle, m: Run, id: nat, r: Called<(Object, Object)>)
    requires id in m.open && ActivateLost(fails, m.tpm, m.open[id], r.tpm.sessions, r.result.None?)
    ensures Charged(fails, m, ActivateOp(id), AfterActivate(m, id, r))
  {
    if ActivateLosesSession(fails, m.tpm.clock, m.open[id]) {
      assert ActivateFails(fails, m.tpm.clock, m.open[id]);
    }
  }

  // ----- What every call keeps -----

  /**
    The safety invariant, whatever fails; and when saving and flushing work, the exact account
    of what the call lost, the charge for it, and the slots it took.
   */
  ghost predicate Kept(fails: Oracle, rm: bool, m: Run, op: Op, m': Run) {
    && Safe(m')
    && Produced(m, m')
    && (rm && AllLive(m.open) ==> AllLive(m'.open))
    && (Reliable(fails) ==> LosesExactly(fails, m, op, m') && Charged(fails, m, op, m'))
    && (Reliable(fails) && !rm && LiveHandles(m.open) == {} ==> TakesTwo(m, m'))
  }

  /** At most one output more; a sealed blob is of an object that this call created. */
  predicate Produced(m: Run, m': Run) {
    && m.tpm.clock <= m'.tpm.clock
    && (m'.outputs == m.outputs ||
        (&& m'.outputs != [] && m'.outputs[..|m'.outputs| - 1] == m.outputs
         && (m'.outputs[|m'.outputs| - 1].Sealed? ==>
               IsNewBlob(m.tpm, m'.tpm, m'.outputs[|m'.outputs| - 1].blob))))
  }

  /** Every session has both its keys loaded. */
  predicate AllLive(open: map<nat, Session>) {
    forall id | id in open :: open[id].ek.Live? && open[id].ak.Live?
  }

  lemma ProducesAtMostOne(m: Run, m': Run, outputs: seq<Output>)
    requires m.tpm.clock <= m'.tpm.clock && m'.outputs == m.outputs + outputs
    requires |outputs| == 0 || (|outputs| == 1 && !outputs[0].Sealed?)
    ensures Produced(m, m')
  {
  }

  lemma StaysLive(open: map<nat, Session>, id: nat, s: Session)
    requires AllLive(open) && id in open && s == open[id]
    ensures AllLive(open[id := s])
  {
  }

  lemma BegunKept(fails: Oracle, rm: bool, m: Run, r: Reply<Session>)
    requires Safe(m) && Began(fails, rm, m.tpm, r) && (Reliable(fails) ==> BeginLost(fails, m.tpm, r))
    requires rm && r.result.Some? ==> r.result.value.ek.Live? && r.result.value.ak.Live?
    ensures Kept(fails, rm, m, Begin, Begun(m, r))
  {
    BegunSafe(fails, rm, m, r);
    if Reliable(fails) {
      LiveLoaded(m);
      if r.result.Some? {
        OpenedAccount(fails, m, Begun(m, r), r.result.value);
      } else {
        FailedBeginAccount(fails, m, Begun(m, r));
      }
      BegunCharged(fails, m, r);
      if !rm && LiveHandles(m.open) == {} { BegunTakesTwo(fails, m, r); }
    }
  }

  lemma BegunLive(fails: Oracle, t: Tpm)
    ensures var r := BeginAttestation(fails, true, t);
            r.result.Some? ==> r.result.value.ek.Live? && r.result.value.ak.Live?
  {
  }

  lemma BeginKeeps(fails: Oracle, rm: bool, m: Run)
    requires Safe(m)
    ensures Kept(fails, rm, m, Begin, Begun(m, BeginAttestation(fails, rm, m.tpm)))
  {
    BeginSafe(fails, rm, m.tpm);
    BegunLive(fails, m.tpm);
    if Reliable(fails) { BeginLosesExactly(fails, rm, m.tpm); }
    BegunKept(fails, rm, m, BeginAttestation(fails, rm, m.tpm));
  }

  lemma FinishKeeps(fails: Oracle, rm: bool, m: Run, id: nat)
    requires Safe(m) && id in m.open
    ensures Kept(fails, rm, m, Finish(id), Finished(m, id, FinishAttestation(fails, m.tpm, m.open[id])))
  {
    FinishSafe(fails, m.tpm, m.open[id]);
    var tpm := FinishAttestation(fails, m.tpm, m.open[id]);
    FinishedSafe(m, id, tpm);
    if Reliable(fails) {
      FinishedLeaks(fails, m, id, Finished(m, id, tpm));
      if LiveHandles(m.open) == {} { FinishedTakesTwo(m, id, Finished(m, id, tpm)); }
    }
  }

  lemma QuotedKept(fails: Oracle, rm: bool, m: Run, id: nat, indices: seq<U8>, r: Called<Object>)
    requires Safe(m) && id in m.open && QuotedFrom(fails, rm, m.tpm, m.open[id], r)
    requires rm && m.open[id].ak.Live? ==> r.session == m.open[id]
    ensures Kept(fails, rm, m, QuoteOp(id, indices), AfterQuote(m, id, r))
  {
    QuotedSafe(fails, rm, m, id, r);
    ProducesAtMostOne(m, AfterQuote(m, id, r),
                      if r.result.None? then [] else [Quoted(r.session.akObject, r.result.value)]);
    if rm && AllLive(m.open) { StaysLive(m.open, id, r.session); }
    if Reliable(fails) {
      QuotedLeaks(fails, rm, m, id, indices, r);
      if !rm && LiveHandles(m.open) == {} { QuotedTakesTwo(fails, m, id, r); }
    }
  }

  lemma QuoteKeeps(fails: Oracle, rm: bool, m: Run, id: nat, indices: seq<U8>)
    requires Safe(m) && id in m.open
    ensures Kept(fails, rm, m, QuoteOp(id, indices), AfterQuote(m, id, Quote(fails, rm, m.tpm, m.open[id], indices)))
  {
    QuoteSafe(fails, rm, m.tpm, m.open[id], indices);
    LiveKeysStay(fails, m.tpm, m.open[id], indices);
    QuotedKept(fails, rm, m, id, indices, Quote(fails, rm, m.tpm, m.open[id], indices));
  }

  lemma ActivatedAccount(fails: Oracle, rm: bool, m: Run, id: nat, r: Called<(Object, Object)>)
    requires Safe(m) && Reliable(fails) && id in m.open && ActivatedFrom(fails, rm, m.tpm, m.open[id], r)
    requires ActivateLost(fails, m.tpm, m.open[id], r.tpm.sessions, r.result.None?)
    ensures LosesExactly(fails, m, ActivateOp(id), AfterActivate(m, id, r))
    ensures Charged(fails, m, ActivateOp(id), AfterActivate(m, id, r))
  {
    SessionStepLeaks(fails, m, id, AfterActivate(m, id, r));
    ActivatedLeaks(fails, m, id, AfterActivate(m, id, r), r.result.None?);
    ActivatedCharged(fails, m, id, r);
  }

  lemma ActivatedKept(fails: Oracle, rm: bool, m: Run, id: nat, r: Called<(Object, Object)>)
    requires Safe(m) && id in m.open && ActivatedFrom(fails, rm, m.tpm, m.open[id], r)
    requires rm && m.open[id].ak.Live? && m.open[id].ek.Live? ==> r.session == m.open[id]
    requires Reliable(fails) ==> ActivateLost(fails, m.tpm, m.open[id], r.tpm.sessions, r.result.None?)
    ensures Kept(fails, rm, m, ActivateOp(id), AfterActivate(m, id, r))
  {
    ActivatedSafe(fails, rm, m, id, r);
    ProducesAtMostOne(m, AfterActivate(m, id, r),
                      if r.result.None? then [] else [Activated(r.session.akObject, r.session.ekObject, r.result.value)]);
    if rm && AllLive(m.open) { StaysLive(m.open, id, r.session); }
    if Reliable(fails) {
      ActivatedAccount(fails, rm, m, id, r);
      if !rm && LiveHandles(m.open) == {} { ActivatedTakesTwo(fails, m, id, r); }
    }
  }

  lemma ActivateKeeps(fails: Oracle, rm: bool, m: Run, id: nat)
    requires Safe(m) && id in m.open
    ensures Kept(fails, rm, m, ActivateOp(id), AfterActivate(m, id, Activate(fails, rm, m.tpm, m.open[id])))
  {
    ActivateSafe(fails, rm, m.tpm, m.open[id]);
    LiveKeysStay(fails, m.tpm, m.open[id], []);
    if Reliable(fails) { ActivateLosesExactly(fails, rm, m.tpm, m.open[id]); }
    ActivatedKept(fails, rm, m, id, Activate(fails, rm, m.tpm, m.open[id]));
  }

  lemma SealedKept(fails: Oracle, rm: bool, m: Run, indices: seq<U8>, r: Reply<Object>)
    requires Safe(m) && SafeStart(m.tpm, r.tpm) && (Reliable(fails) ==> SealLost(fails, m.tpm, indices, r))
    requires r.result.Some? ==> IsNewBlob(m.tpm, r.tpm, r.result.value)
    ensures Kept(fails, rm, m, SealOp(indices), AfterSeal(m, r))
  {
    StartedSafe(m, AfterSeal(m, r));
    if Reliable(fails) {
      SealedLeaks(fails, m, indices, r);
      SealedCharged(fails, m, indices, r);
    }
  }

  lemma SealKeeps(fails: Oracle, rm: bool, m: Run, indices: seq<U8>)
    requires Safe(m)
    ensures Kept(fails, rm, m, SealOp(indices), AfterSeal(m, SealToPcr(fails, m.tpm, indices)))
  {
    SealSafe(fails, m.tpm, indices);
    if Reliable(fails) { SealLosesExactly(fails, m.tpm, indices); }
    SealedKept(fails, rm, m, indices, SealToPcr(fails, m.tpm, indices));
  }

  lemma UnsealedKept(fails: Oracle, rm: bool, m: Run, blob: Object, indices: seq<U8>, r: Reply<Object>)
    requires Safe(m) && SafeStart(m.tpm, r.tpm) && (r.result.Some? ==> r.result.value == blob)
    requires Reliable(fails) ==> UnsealLost(fails, m.tpm, indices, r)
    ensures Kept(fails, rm, m, UnsealOp(blob, indices), AfterUnseal(m, blob, r))
  {
    StartedSafe(m, AfterUnseal(m, blob, r));
    if Reliable(fails) {
      UnsealedLeaks(fails, m, blob, indices, r);
      UnsealedCharged(fails, m, blob, indices, r);
    }
  }

  lemma UnsealKeeps(fails: Oracle, rm: bool, m: Run, blob: Object, indices: seq<U8>)
    requires Safe(m)
    ensures Kept(fails, rm, m, UnsealOp(blob, indices), AfterUnseal(m, blob, Unseal(fails, m.tpm, blob, indices)))
  {
    UnsealSafe(fails, m.tpm, blob, indices);
    if Reliable(fails) { UnsealLosesExactly(fails, m.tpm, blob, indices); }
    UnsealedKept(fails, rm, m, blob, indices, Unseal(fails, m.tpm, blob, indices));
  }

  lemma IdleKept(fails: Oracle, rm: bool, m: Run, op: Op)
    requires Safe(m) && (op.Finish? || op.QuoteOp? || op.ActivateOp?) && op.id !in m.open
    ensures Kept(fails, rm, m, op, m)
  {
    LosesNothing(fails, m, op, m);
  }

  /** Every call keeps safety and the account, on every path. */
  lemma StepKeeps(fails: Oracle, rm: bool, m: Run, op: Op)
    requires Safe(m)
    ensures Kept(fails, rm, m, op, Step(fails, rm, m, op))
  {
    match op
    case Begin => BeginKeeps(fails, rm, m);
    case Finish(id) =>
      if id in m.open { FinishKeeps(fails, rm, m, id); } else { IdleKept(fails, rm, m, op); }
    case QuoteOp(id, indices) =>
      if id in m.open { QuoteKeeps(fails, rm, m, id, indices); } else { IdleKept(fails, rm, m, op); }
    case ActivateOp(id) =>
      if id in m.open { ActivateKeeps(fails, rm, m, id); } else { IdleKept(fails, rm, m, op); }
    case SealOp(indices) => SealKeeps(fails, rm, m, indices);
    case UnsealOp(blob, indices) => UnsealKeeps(fails, rm, m, blob, indices);
  }

  // ----- Whole runs -----

  lemma {:induction false} RunSafe(fails: Oracle, rm: bool, m: Run, ops: seq<Op>)
    requires Safe(m)
    ensures Safe(RunAll(fails, rm, m, ops))
    decreases |ops|
  {
    if ops == [] {
    } else {
      StepKeeps(fails, rm, m, ops[0]);
      RunSafe(fails, rm, Step(fails, rm, m, ops[0]), ops[1..]);
    }
  }

  /** Safety of every run, on both backends and under every pattern of failures. */
  lemma EveryRunIsSafe(fails: Oracle, rm: bool, ops: seq<Op>)
    ensures Safe(RunAll(fails, rm, Start(), ops))
  {
    RunSafe(fails, rm, Start(), ops);
  }

  /** Over every run behind a resource manager, every open session has both its keys loaded. */
  lemma {:induction false} RunLive(fails: Oracle, m: Run, ops: seq<Op>)
    requires Safe(m) && AllLive(m.open)
    ensures AllLive(RunAll(fails, true, m, ops).open)
    decreases |ops|
  {
    if ops == [] {
    } else {
      StepKeeps(fails, true, m, ops[0]);
      RunLive(fails, Step(fails, true, m, ops[0]), ops[1..]);
    }
  }

  lemma KeysStayLoaded(fails: Oracle, ops: seq<Op>)
    ensures AllLive(RunAll(fails, true, Start(), ops).open)
  {
    RunLive(fails, Start(), ops);
  }

  /** Sealed blobs are of objects created before now, and all different. */
  ghost predicate SealsApart(m: Run) {
    && (forall i | 0 <= i < |m.outputs| && m.outputs[i].Sealed? :: m.outputs[i].blob.serial < m.tpm.clock)
    && (forall i, j | 0 <= i < j < |m.outputs| && m.outputs[i].Sealed? && m.outputs[j].Sealed? ::
          m.outputs[i].blob != m.outputs[j].blob)
  }

  lemma SealsStayApart(m: Run, m': Run)
    requires SealsApart(m) && Produced(m, m')
    ensures SealsApart(m')
  {
    if m'.outputs != m.outputs {
      assert forall i | 0 <= i < |m.outputs| :: m'.outputs[i] == m.outputs[i];
    }
  }

  lemma {:induction false} RunSeals(fails: Oracle, rm: bool, m: Run, ops: seq<Op>)
    requires Safe(m) && SealsApart(m)
    ensures SealsApart(RunAll(fails, rm, m, ops))
    decreases |ops|
  {
    if ops == [] {
    } else {
      StepKeeps(fails, rm, m, ops[0]);
      SealsStayApart(m, Step(fails, rm, m, ops[0]));
      RunSeals(fails, rm, Step(fails, rm, m, ops[0]), ops[1..]);
    }
  }

  /** Over every run, no two seals give the same blob. */
  lemma EverySealIsItsOwn(fails: Oracle, rm: bool, ops: seq<Op>)
    ensures SealsApart(RunAll(fails, rm, Start(), ops))
  {
    RunSeals(fails, rm, Start(), ops);
  }

  /** Two sessions show the same public areas to their callers. */
  predicate SameKeys(a: Session, b: Session) {
    Public(a.akObject) == Public(b.akObject) && Public(a.ekObject) == Public(b.ekObject)
  }

  /**
    Begin derives its keys again each time. Over every run all sessions of a TPM therefore have
    the same EK and AK, although their objects differ, and every quote is signed with that AK.
   */
  lemma SessionsShareKeys(fails: Oracle, rm: bool, ops: seq<Op>)
    ensures var m := RunAll(fails, rm, Start(), ops);
            && (forall i, j | i in m.open && j in m.open :: SameKeys(m.open[i], m.open[j]))
            && (forall i, o | i in m.open && o in m.outputs && o.Quoted? ::
                  Public(o.signer) == Public(m.open[i].akObject))
  {
    EveryRunIsSafe(fails, rm, ops);
  }

  ghost predicate Counted(m: Run) {
    |Leaked(m)| <= ObjectBound(m.failures) && |m.tpm.sessions| <= SessionBound(m.failures)
  }

  /** What all the calls of a run lose together. */
  ghost function AllObjectsLost(fails: Oracle, rm: bool, m: Run, ops: seq<Op>): set<Handle>
    decreases |ops|
  {
    if ops == [] then {}
    else ObjectsLost(fails, m, ops[0]) + AllObjectsLost(fails, rm, Step(fails, rm, m, ops[0]), ops[1..])
  }

  ghost function AllSessionsLost(fails: Oracle, rm: bool, m: Run, ops: seq<Op>): set<Handle>
    decreases |ops|
  {
    if ops == [] then {}
    else SessionsLost(fails, m, ops[0]) + AllSessionsLost(fails, rm, Step(fails, rm, m, ops[0]), ops[1..])
  }

  lemma LostInTurn(m: Run, m1: Run, m2: Run, o1: set<Handle>, o2: set<Handle>, s1: set<Handle>, s2: set<Handle>)
    requires Lost(m, m1, o1, s1) && Lost(m1, m2, o2, s2)
    ensures Lost(m, m2, o1 + o2, s1 + s2)
  {
    assert Leaked(m) + o1 + o2 == Leaked(m) + (o1 + o2);
    assert m.tpm.sessions + s1 + s2 == m.tpm.sessions + (s1 + s2);
  }

  /** What is leaked after a run is exactly what its calls lost. */
  lemma {:induction false} RunLosesExactly(fails: Oracle, rm: bool, m: Run, ops: seq<Op>)
    requires Safe(m) && Reliable(fails)
    ensures Lost(m, RunAll(fails, rm, m, ops), AllObjectsLost(fails, rm, m, ops), AllSessionsLost(fails, rm, m, ops))
    decreases |ops|
  {
    if ops == [] {
    } else {
      var m1 := Step(fails, rm, m, ops[0]);
      StepKeeps(fails, rm, m, ops[0]);
      RunLosesExactly(fails, rm, m1, ops[1..]);
      LostInTurn(m, m1, RunAll(fails, rm, m1, ops[1..]),
                 ObjectsLost(fails, m, ops[0]), AllObjectsLost(fails, rm, m1, ops[1..]),
                 SessionsLost(fails, m, ops[0]), AllSessionsLost(fails, rm, m1, ops[1..]));
    }
  }

  lemma CountedAfter(fails: Oracle, m: Run, op: Op, m': Run)
    requires Counted(m) && LosesExactly(fails, m, op, m') && Charged(fails, m, op, m')
    ensures Counted(m')
  {
    CardGrows(Leaked(m), ObjectsLost(fails, m, op));
    CardGrows(m.tpm.sessions, SessionsLost(fails, m, op));
  }

  lemma {:induction false} RunCounted(fails: Oracle, rm: bool, m: Run, ops: seq<Op>)
    requires Safe(m) && Reliable(fails) && Counted(m)
    ensures Counted(RunAll(fails, rm, m, ops))
    decreases |ops|
  {
    if ops == [] {
    } else {
      StepKeeps(fails, rm, m, ops[0]);
      CountedAfter(fails, m, ops[0], Step(fails, rm, m, ops[0]));
      RunCounted(fails, rm, Step(fails, rm, m, ops[0]), ops[1..]);
    }
  }

  lemma {:induction false} RunTight(fails: Oracle, m: Run, ops: seq<Op>)
    requires Safe(m) && Reliable(fails) && Tight(m)
    ensures Tight(RunAll(fails, false, m, ops))
    decreases |ops|
  {
    if ops == [] {
    } else {
      var m1 := Step(fails, false, m, ops[0]);
      StepKeeps(fails, false, m, ops[0]);
      RoomForTwo(m, m1, ObjectsLost(fails, m, ops[0]));
      RunTight(fails, m1, ops[1..]);
    }
  }

  /**
    The balance of a run: the loaded objects are those of the open sessions and, apart from
    them, the lost ones. A failed begin or unseal loses at most two objects, a failed seal one,
    and a failed seal, unseal or activation one policy session. Without a resource manager
    the sessions hold no slot, and only two beside the lost ones were ever taken.
   */
  ghost predicate Balanced(rm: bool, m: Run, objects: set<Handle>, sessions: set<Handle>) {
    && m.tpm.loaded.Keys == LiveHandles(m.open) + objects && LiveHandles(m.open) !! objects
    && m.tpm.sessions == sessions
    && |objects| <= ObjectBound(m.failures) && |sessions| <= SessionBound(m.failures)
    && (!rm ==> LiveHandles(m.open) == {} && m.tpm.peak <= |objects| + 2)
  }

  lemma Balance(rm: bool, m: Run)
    requires LiveHandles(m.open) <= m.tpm.loaded.Keys && Counted(m) && (!rm ==> Tight(m))
    ensures Balanced(rm, m, Leaked(m), m.tpm.sessions)
  {
  }

  lemma RunBalances(fails: Oracle, rm: bool, m: Run, ops: seq<Op>)
    requires Safe(m) && Reliable(fails) && Leaked(m) == {} && m.tpm.sessions == {} && (!rm ==> Tight(m))
    ensures Balanced(rm, RunAll(fails, rm, m, ops),
                     AllObjectsLost(fails, rm, m, ops), AllSessionsLost(fails, rm, m, ops))
  {
    RunSafe(fails, rm, m, ops);
    RunLosesExactly(fails, rm, m, ops);
    RunCounted(fails, rm, m, ops);
    if !rm { RunTight(fails, m, ops); }
    LiveLoaded(RunAll(fails, rm, m, ops));
    Balance(rm, RunAll(fails, rm, m, ops));
  }

  /** Every run in which saving and flushing work balances with exactly what its calls lost. */
  lemma EveryRunBalances(fails: Oracle, rm: bool, ops: seq<Op>)
    requires Reliable(fails)
    ensures Balanced(rm, RunAll(fails, rm, Start(), ops),
                     AllObjectsLost(fails, rm, Start(), ops), AllSessionsLost(fails, rm, Start(), ops))
  {
    assert LiveHandles(Start().open) == {} == Leaked(Start());
    RunBalances(fails, rm, Start(), ops);
  }

  /** The manager's promise: two slots suffice, and all are free between calls unless a call lost them. */
  lemma TwoSlotsSuffice(fails: Oracle, ops: seq<Op>)
    requires Reliable(fails)
    ensures var m := RunAll(fails, false, Start(), ops);
            && (m.tpm.loaded == map[] <==> AllObjectsLost(fails, false, Start(), ops) == {})
            && (m.tpm.loaded == map[] ==> m.tpm.peak <= 2)
            && (ObjectBound(m.failures) == 0 ==> m.tpm.loaded == map[])
  {
    EveryRunBalances(fails, false, ops);
  }

  // ----- A TPM on which nothing fails -----

  /** On a healthy TPM a quote is signed by the session's AK, live or saved, */
  lemma HealthyQuote(fails: Oracle, rm: bool, t: Tpm, s: Session, indices: seq<U8>)
    requires NeverFails(fails) && TpmOk(t) && SessionOk(t, s) && AllSlots(indices)
    ensures Quote(fails, rm, t, s, indices).result == Some(s.akObject)
  {
    EnsureAkSafe(fails, t, s);
    var ak := EnsureLoaded(fails, t, s.ak);
    StepsExactly(fails, ak.tpm, 2);
    StepsExactly(fails, UseKey(fails, Steps(fails, ak.tpm, 2).0, ak.result.value).tpm, 3);
    QuoteSafe(fails, rm, t, s, indices);
  }

  /** and a credential is recovered by its AK and EK. */
  lemma HealthyActivate(fails: Oracle, rm: bool, t: Tpm, s: Session)
    requires NeverFails(fails) && TpmOk(t) && SessionOk(t, s)
    ensures Activate(fails, rm, t, s).result == Some((s.akObject, s.ekObject))
  {
    EnsureAkSafe(fails, t, s);
    var ak := EnsureLoaded(fails, t, s.ak);
    var s1 := s.(ak := ak.state);
    EnsureEkSafe(fails, ak.tpm, s1);
    var ek := EnsureLoaded(fails, ak.tpm, s1.ek);
    ActivateCredentialExactly(fails, ek.tpm, ak.result.value, ek.result.value);
    ActivateSafe(fails, rm, t, s);
  }

  predicate GoodIndices(op: Op) {
    match op
    case SealOp(indices) => AllSlots(indices)
    case UnsealOp(_, indices) => AllSlots(indices)
    case _ => true
  }

  lemma {:induction false} HealthyRunLosesNothing(fails: Oracle, rm: bool, m: Run, ops: seq<Op>)
    requires NeverFails(fails) && forall op | op in ops :: GoodIndices(op)
    ensures AllObjectsLost(fails, rm, m, ops) == {} && AllSessionsLost(fails, rm, m, ops) == {}
    decreases |ops|
  {
    if ops == [] {
    } else {
      assert ops[0] in ops;
      HealthyRunLosesNothing(fails, rm, Step(fails, rm, m, ops[0]), ops[1..]);
    }
  }

  /** On a healthy TPM no run leaves a session behind, nor an object that no session holds. */
  lemma HealthyRunLeavesNothing(fails: Oracle, rm: bool, ops: seq<Op>)
    requires NeverFails(fails) && forall op | op in ops :: GoodIndices(op)
    ensures var m := RunAll(fails, rm, Start(), ops);
            m.tpm.sessions == {} && m.tpm.loaded.Keys == LiveHandles(m.open)
  {
    HealthyRunLosesNothing(fails, rm, Start(), ops);
    EveryRunBalances(fails, rm, ops);
  }

  // ----- What the caller gets -----

  /** A successful quote hands out one signature, by the session's own AK; a failed one nothing. */
  lemma QuoteOutput(fails: Oracle, rm: bool, m: Run, id: nat, indices: seq<U8>)
    requires Safe(m) && id in m.open
    ensures var r := Quote(fails, rm, m.tpm, m.open[id], indices);
            var s := m.open[id];
            AfterQuote(m, id, r).outputs ==
            m.outputs + (if r.result.Some? then [Quoted(s.akObject, s.akObject)] else [])
  {
    QuoteSafe(fails, rm, m.tpm, m.open[id], indices);
  }

  /** A successful activation hands out one credential, recovered with the session's own AK and EK. */
  lemma ActivateOutput(fails: Oracle, rm: bool, m: Run, id: nat)
    requires Safe(m) && id in m.open
    ensures var r := Activate(fails, rm, m.tpm, m.open[id]);
            var s := m.open[id];
            AfterActivate(m, id, r).outputs ==
            m.outputs + (if r.result.Some? then [Activated(s.akObject, s.ekObject, (s.akObject, s.ekObject))] else [])
  {
    ActivateSafe(fails, rm, m.tpm, m.open[id]);
  }

  /** A successful unseal hands out the data of the blob's own object, and a successful seal its blob. */
  lemma SealOutputs(fails: Oracle, m: Run, blob: Object, indices: seq<U8>)
    requires Safe(m)
    ensures var r := Unseal(fails, m.tpm, blob, indices);
            AfterUnseal(m, blob, r).outputs == m.outputs + (if r.result.Some? then [Unsealed(blob, blob)] else [])
    ensures var r := SealToPcr(fails, m.tpm, indices);
            AfterSeal(m, r).outputs == m.outputs + (if r.result.Some? then [Sealed(r.result.value)] else [])
  {
    UnsealSafe(fails, m.tpm, blob, indices);
  }
}
