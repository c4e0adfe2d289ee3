/**
  The TPM as the slot manager sees it: which transient objects are loaded, which policy
  sessions are open, and whether the next command fails.

  Failures come from an oracle indexed by the number of steps taken so far, so that every
  statement quantified over the oracle covers every pattern of failures. Handles are
  `ESYS_TR` numbers, which are never reused. A saved context carries the identity of the
  object it was saved from (section 28 of TPM 2.0 Part 3).
 */
module Chip {
  import opened Bytes

  type Handle = nat

  datatype Template = EkTemplate | AkTemplate | SrkTemplate

  /**
    What is under a handle, or in a saved context: one object for each creation. A primary
    created again is another object with the same key.
   */
  datatype Object = Primary(template: Template, serial: nat) | SealedObject(serial: nat)

  datatype PublicArea = Derived(template: Template) | Generated(serial: nat)

  /** A primary key is derived from the TPM's seed and the template alone; all templates are constant. */
  function Public(o: Object): PublicArea {
    match o
    case Primary(template, _) => Derived(template)
    case SealedObject(serial) => Generated(serial)
  }

  datatype Command = Create | Load | Save | Flush | Other

  /** `fails(step, command)`: does this command fail at this step? */
  type Oracle = (nat, Command) -> bool

  /**
    `peak` is the greatest number of objects that were loaded at any instant, and `stale`
    records whether any command was ever given a handle that is not loaded.
   */
  datatype Tpm = Tpm(
    loaded: map<Handle, Object>,
    sessions: set<Handle>,
    next: Handle,
    clock: nat,
    peak: nat,
    stale: bool)

  datatype Reply<T> = Reply(tpm: Tpm, result: Option<T>)

  function Tick(t: Tpm): Tpm {
    t.(clock := t.clock + 1)
  }

  function Max(a: nat, b: nat): nat {
    if a < b then b else a
  }

  function Install(t: Tpm, o: Object): Tpm {
    var loaded := t.loaded[t.next := o];
    t.(loaded := loaded, next := t.next + 1, peak := Max(t.peak, |loaded|))
  }

  function CreatePrimary(fails: Oracle, t: Tpm, template: Template): Reply<Handle> {
    if fails(t.clock, Create) then Reply(Tick(t), None)
    else Reply(Install(Tick(t), Primary(template, t.clock)), Some(t.next))
  }

  function ContextLoad(fails: Oracle, t: Tpm, saved: Object): Reply<Handle> {
    if fails(t.clock, Load) then Reply(Tick(t), None)
    else Reply(Install(Tick(t), saved), Some(t.next))
  }

  function ContextSave(fails: Oracle, t: Tpm, h: Handle): Reply<Object> {
    if h !in t.loaded then Reply(Tick(t).(stale := true), None)
    else if fails(t.clock, Save) then Reply(Tick(t), None)
    else Reply(Tick(t), Some(t.loaded[h]))
  }

  /** Flushing an object; every caller ignores the result. */
  function FlushObject(fails: Oracle, t: Tpm, h: Handle): Tpm {
    if h !in t.loaded then Tick(t).(stale := true)
    else if fails(t.clock, Flush) then Tick(t)
    else Tick(t).(loaded := t.loaded - {h})
  }

  function StartAuthSession(fails: Oracle, t: Tpm): Reply<Handle> {
    if fails(t.clock, Other) then Reply(Tick(t), None)
    else Reply(Tick(t).(sessions := t.sessions + {t.next}, next := t.next + 1), Some(t.next))
  }

  function FlushSession(fails: Oracle, t: Tpm, s: Handle): Tpm {
    if fails(t.clock, Flush) then Tick(t) else Tick(t).(sessions := t.sessions - {s})
  }

  /** A command that works with the object under a handle: Quote, Create under a parent, Unseal. */
  function UseKey(fails: Oracle, t: Tpm, h: Handle): Reply<Object> {
    if h !in t.loaded then Reply(Tick(t).(stale := true), None)
    else if fails(t.clock, Other) then Reply(Tick(t), None)
    else Reply(Tick(t), Some(t.loaded[h]))
  }

  /** ActivateCredential works with two objects. */
  function UseKeys(fails: Oracle, t: Tpm, ak: Handle, ek: Handle): Reply<(Object, Object)> {
    if ak !in t.loaded || ek !in t.loaded then Reply(Tick(t).(stale := true), None)
    else if fails(t.clock, Other) then Reply(Tick(t), None)
    else Reply(Tick(t), Some((t.loaded[ak], t.loaded[ek])))
  }

  /** TPM2_Load of a sealed object under a loaded storage root key, which is the same key every time. */
  function LoadObject(fails: Oracle, t: Tpm, parent: Handle, blob: Object): Reply<Handle> {
    if parent !in t.loaded then Reply(Tick(t).(stale := true), None)
    else if fails(t.clock, Load) then Reply(Tick(t), None)
    else Reply(Install(Tick(t), blob), Some(t.next))
  }

  /**
    `n` fallible steps in a row that touch no object: templates, conversions, marshalling,
    policy commands and PCR reads. The first failure ends the row.
   */
  function Steps(fails: Oracle, t: Tpm, n: nat): (r: (Tpm, bool))
    ensures t.clock <= r.0.clock && r.0 == t.(clock := r.0.clock)
    decreases n
  {
    if n == 0 then (t, true)
    else if fails(t.clock, Other) then (Tick(t), false)
    else Steps(fails, Tick(t), n - 1)
  }

  /** The tss_esapi context: the one object through which the TPM is driven. */
  class Context {
    var tpm: Tpm
    const fails: Oracle

    constructor (fails: Oracle)
      ensures this.fails == fails
      ensures tpm == Tpm(map[], {}, 0, 0, 0, false)
    {
      this.fails := fails;
      tpm := Tpm(map[], {}, 0, 0, 0, false);
    }

    method Create(template: Template) returns (r: Option<Handle>)
      modifies this
      ensures Reply(tpm, r) == CreatePrimary(fails, old(tpm), template)
    {
      var reply := CreatePrimary(fails, tpm, template);
      tpm, r := reply.tpm, reply.result;
    }

    method Load(saved: Object) returns (r: Option<Handle>)
      modifies this
      ensures Reply(tpm, r) == ContextLoad(fails, old(tpm), saved)
    {
      var reply := ContextLoad(fails, tpm, saved);
      tpm, r := reply.tpm, reply.result;
    }

    method Save(h: Handle) returns (r: Option<Object>)
      modifies this
      ensures Reply(tpm, r) == ContextSave(fails, old(tpm), h)
    {
      var reply := ContextSave(fails, tpm, h);
      tpm, r := reply.tpm, reply.result;
    }

    method Flush(h: Handle)
      modifies this
      ensures tpm == FlushObject(fails, old(tpm), h)
    {
      tpm := FlushObject(fails, tpm, h);
    }

    method StartSession() returns (r: Option<Handle>)
      modifies this
      ensures Reply(tpm, r) == StartAuthSession(fails, old(tpm))
    {
      var reply := StartAuthSession(fails, tpm);
      tpm, r := reply.tpm, reply.result;
    }

    method EndSession(s: Handle)
      modifies this
      ensures tpm == FlushSession(fails, old(tpm), s)
    {
      tpm := FlushSession(fails, tpm, s);
    }

    method Use(h: Handle) returns (r: Option<Object>)
      modifies this
      ensures Reply(tpm, r) == UseKey(fails, old(tpm), h)
    {
      var reply := UseKey(fails, tpm, h);
      tpm, r := reply.tpm, reply.result;
    }

    method Activate(ak: Handle, ek: Handle) returns (r: Option<(Object, Object)>)
      modifies this
      ensures Reply(tpm, r) == UseKeys(fails, old(tpm), ak, ek)
    {
      var reply := UseKeys(fails, tpm, ak, ek);
      tpm, r := reply.tpm, reply.result;
    }

    method LoadUnder(parent: Handle, blob: Object) returns (r: Option<Handle>)
      modifies this
      ensures Reply(tpm, r) == LoadObject(fails, old(tpm), parent, blob)
    {
      var reply := LoadObject(fails, tpm, parent, blob);
      tpm, r := reply.tpm, reply.result;
    }

    method Attempt(n: nat) returns (ok: bool)
      modifies this
      ensures (tpm, ok) == Steps(fails, old(tpm), n)
    {
      var reply := Steps(fails, tpm, n);
      tpm, ok := reply.0, reply.1;
    }
  }

  // ----- What the bookkeeping records -----

  /** A command that is given a handle that is not loaded fails, and is recorded for good. */
  lemma StaleIsRecorded(fails: Oracle, t: Tpm, h: Handle, other: Handle, blob: Object)
    requires h !in t.loaded
    ensures ContextSave(fails, t, h) == Reply(Tick(t).(stale := true), None)
    ensures FlushObject(fails, t, h) == Tick(t).(stale := true)
    ensures UseKey(fails, t, h) == Reply(Tick(t).(stale := true), None)
    ensures UseKeys(fails, t, h, other) == Reply(Tick(t).(stale := true), None)
    ensures UseKeys(fails, t, other, h) == Reply(Tick(t).(stale := true), None)
    ensures LoadObject(fails, t, h, blob) == Reply(Tick(t).(stale := true), None)
  {
  }

  /** The peak follows every object that is loaded, and never falls. */
  lemma PeakIsRecorded(t: Tpm, o: Object)
    requires t.next !in t.loaded
    ensures Install(t, o).peak >= |t.loaded| + 1 && Install(t, o).peak >= t.peak
    ensures Install(t, o).loaded == t.loaded[t.next := o]
  {
    assert Install(t, o).loaded.Keys == t.loaded.Keys + {t.next};
    assert |Install(t, o).loaded.Keys| == |t.loaded.Keys| + 1;
  }
}
