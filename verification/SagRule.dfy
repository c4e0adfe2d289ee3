/** `SagRuleId::of_rule`: the bytes that identify a service authorization rule. */
module SagRule {
  import opened Bytes
  import opened Hasher

  datatype Rule = Rule(
    tenant: Str,
    fromService: Str,
    fromRole: Option<Str>,
    fromPort: Option<U16>,
    toService: Str,
    toRole: Option<Str>,
    toPort: Option<U16>,
    action: Str)

  /** An absent port leaves no bytes, and the two bytes of a present one may be zero. */
  function PortBytes(port: Option<U16>): Str {
    if port.None? then [] else [port.value / 256, port.value % 256]
  }

  function ToBytes(r: Rule): Str {
    r.toService + [0] + (OrEmpty(r.toRole) + [0] + (PortBytes(r.toPort) + [0] + r.action))
  }

  function Preimage(r: Rule): Str {
    r.tenant + [0] + (r.fromService + [0] + (OrEmpty(r.fromRole) + [0] + (PortBytes(r.fromPort) + [0] + ToBytes(r))))
  }

  function FromBytes(r: Rule): Str {
    r.tenant + [0] + r.fromService + [0] + OrEmpty(r.fromRole) + [0] + PortBytes(r.fromPort) + [0]
  }

  lemma FromThenTo(t: Str, s: Str, r: Str, p: Str, rest: Str)
    ensures t + [0] + s + [0] + r + [0] + p + [0] + rest == t + [0] + (s + [0] + (r + [0] + (p + [0] + rest)))
  {
    var x := r + [0] + (p + [0] + rest);
    assert r + [0] + p + [0] + rest == x;
    assert t + [0] + s + [0] + x == t + [0] + (s + [0] + x);
    assert t + [0] + s + [0] + r + [0] + p + [0] + rest == t + [0] + s + [0] + (r + [0] + p + [0] + rest);
  }

  method FeedFrom(hasher: Hasher, r: Rule)
    requires hasher.fed == []
    modifies hasher
    ensures hasher.fed == FromBytes(r)
  {
    hasher.Update(r.tenant);
    hasher.Update([0]);
    hasher.Update(r.fromService);
    hasher.Update([0]);
    if r.fromRole.Some? {
      hasher.Update(r.fromRole.value);
    }
    assert hasher.fed == r.tenant + [0] + r.fromService + [0] + OrEmpty(r.fromRole);
    hasher.Update([0]);
    if r.fromPort.Some? {
      hasher.Update(PortBytes(r.fromPort));
    }
    hasher.Update([0]);
  }

  method FeedTo(hasher: Hasher, r: Rule)
    modifies hasher
    ensures hasher.fed == old(hasher.fed) + ToBytes(r)
  {
    hasher.Update(r.toService);
    hasher.Update([0]);
    if r.toRole.Some? {
      hasher.Update(r.toRole.value);
    }
    hasher.Update([0]);
    if r.toPort.Some? {
      hasher.Update(PortBytes(r.toPort));
    }
    hasher.Update([0]);
    hasher.Update(r.action);
  }

  /** `of_rule`, up to the hash of what it feeds. */
  method OfRule(r: Rule) returns (preimage: Str)
    ensures preimage == Preimage(r)
  {
    var hasher := new Hasher();
    FeedFrom(hasher, r);
    FeedTo(hasher, r);
    FromThenTo(r.tenant, r.fromService, OrEmpty(r.fromRole), PortBytes(r.fromPort), ToBytes(r));
    preimage := hasher.fed;
  }

  // ----- Exactly when two pre-images coincide -----

  ghost predicate WellSeparated(r: Rule) {
    && NulFree(r.tenant) && NulFree(r.fromService) && NulFree(OrEmpty(r.fromRole))
    && NulFree(r.toService) && NulFree(OrEmpty(r.toRole)) && NulFree(r.action)
  }

  ghost predicate SameFrom(r: Rule, q: Rule) {
    && r.tenant == q.tenant && r.fromService == q.fromService
    && OrEmpty(r.fromRole) == OrEmpty(q.fromRole)
  }

  ghost predicate SameTo(r: Rule, q: Rule) {
    && r.toService == q.toService && OrEmpty(r.toRole) == OrEmpty(q.toRole)
    && r.toPort == q.toPort && r.action == q.action
  }

  /** The same rule; an absent role counts as an empty one. */
  ghost predicate SameRule(r: Rule, q: Rule) {
    SameFrom(r, q) && r.fromPort == q.fromPort && SameTo(r, q)
  }

  /**
    The targets of two rules that collide although one has a source port and the other has
    none: each reads the other's bytes as its own.
   */
  ghost predicate CrossedTo(r: Rule, q: Rule) {
    && r.action == q.action && r.toPort.None? && q.toPort.Some?
    && (|| (&& PortBytes(r.fromPort) == [0] + q.toService
            && OrEmpty(q.toRole) == r.toService
            && PortBytes(q.toPort) == OrEmpty(r.toRole) + [0])
        || (&& r.fromPort == q.toPort == Some(0)
            && r.toService == q.toService == OrEmpty(r.toRole) == OrEmpty(q.toRole) == []))
  }

  ghost predicate Crossed(r: Rule, q: Rule) {
    SameFrom(r, q) && r.fromPort.Some? && q.fromPort.None? && CrossedTo(r, q)
  }

  lemma PortInjective(p: Option<U16>, q: Option<U16>)
    requires PortBytes(p) == PortBytes(q)
    ensures p == q
  {
    if p.Some? {
      assert PortBytes(p)[0] == PortBytes(q)[0] && PortBytes(p)[1] == PortBytes(q)[1];
    }
  }

  lemma ToInjective(r: Rule, q: Rule)
    requires WellSeparated(r) && WellSeparated(q)
    ensures ToBytes(r) == ToBytes(q) <==> SameTo(r, q)
  {
    if ToBytes(r) == ToBytes(q) {
      var x, y := PortBytes(r.toPort) + [0] + r.action, PortBytes(q.toPort) + [0] + q.action;
      SplitNul(r.toService, OrEmpty(r.toRole) + [0] + x, q.toService, OrEmpty(q.toRole) + [0] + y);
      SplitNul(OrEmpty(r.toRole), x, OrEmpty(q.toRole), y);
      SplitLastNul(PortBytes(r.toPort), r.action, PortBytes(q.toPort), q.action);
      PortInjective(r.toPort, q.toPort);
    }
  }

  /** A port and an action read as a role, a port and an action: the role has one byte. */
  lemma PortAsRole(port: Option<U16>, a: Str, role: Str, other: Option<U16>, b: Str)
    requires NulFree(a) && NulFree(b)
    requires PortBytes(port) + [0] + a == role + [0] + (PortBytes(other) + [0] + b)
    ensures a == b && other.None? && PortBytes(port) == role + [0]
  {
    assert role + [0] + (PortBytes(other) + [0] + b) == (role + [0] + PortBytes(other)) + [0] + b;
    SplitLastNul(PortBytes(port), a, role + [0] + PortBytes(other), b);
    assert PortBytes(other) == [];
  }

  lemma CrossedForward(r: Rule, q: Rule)
    requires WellSeparated(r) && WellSeparated(q) && r.fromPort.Some?
    requires PortBytes(r.fromPort) + [0] + ToBytes(r) == [0] + ToBytes(q)
    ensures CrossedTo(r, q)
  {
    var hi, lo := r.fromPort.value / 256, r.fromPort.value % 256;
    var s := PortBytes(r.fromPort) + [0] + ToBytes(r);
    assert s[0] == hi && ([0] + ToBytes(q))[0] == 0;
    assert s[1..] == [lo] + [0] + ToBytes(r) && ([0] + ToBytes(q))[1..] == ToBytes(q);
    if lo != 0 {
      PortAsService(r, q, lo);
    } else {
      PortAsSeparators(r, q);
    }
  }

  /** The low byte of the source port is read as a service name. */
  lemma PortAsService(r: Rule, q: Rule, lo: Byte)
    requires WellSeparated(r) && WellSeparated(q) && lo != 0
    requires ToBytes(q) == [lo] + [0] + ToBytes(r)
    ensures q.toService == [lo] && OrEmpty(q.toRole) == r.toService
    ensures r.toPort == None && PortBytes(q.toPort) == OrEmpty(r.toRole) + [0] && q.action == r.action
  {
    var x, y := PortBytes(r.toPort) + [0] + r.action, PortBytes(q.toPort) + [0] + q.action;
    SplitNul(q.toService, OrEmpty(q.toRole) + [0] + y, [lo], ToBytes(r));
    SplitNul(OrEmpty(q.toRole), y, r.toService, OrEmpty(r.toRole) + [0] + x);
    PortAsRole(q.toPort, q.action, OrEmpty(r.toRole), r.toPort, r.action);
  }

  /** The source port 0 is read as two separators. */
  lemma PortAsSeparators(r: Rule, q: Rule)
    requires WellSeparated(r) && WellSeparated(q)
    requires ToBytes(q) == [0] + [0] + ToBytes(r)
    ensures q.toService == [] && OrEmpty(q.toRole) == []
    ensures r.toService == [] && OrEmpty(r.toRole) == []
    ensures r.toPort == None && PortBytes(q.toPort) == [0, 0] && q.action == r.action
  {
    var x, y := PortBytes(r.toPort) + [0] + r.action, PortBytes(q.toPort) + [0] + q.action;
    var role := r.toService + [0] + OrEmpty(r.toRole);
    assert [0] + [0] + ToBytes(r) == [] + [0] + ([] + [0] + ToBytes(r));
    SplitNul(q.toService, OrEmpty(q.toRole) + [0] + y, [], [] + [0] + ToBytes(r));
    SplitNul(OrEmpty(q.toRole), y, [], ToBytes(r));
    assert ToBytes(r) == role + [0] + x;
    PortAsRole(q.toPort, q.action, role, r.toPort, r.action);
    assert |PortBytes(q.toPort)| == |role| + 1 && |role| == 1;
  }

  lemma CrossedBackward(r: Rule, q: Rule)
    requires r.fromPort.Some? && CrossedTo(r, q)
    ensures PortBytes(r.fromPort) + [0] + ToBytes(r) == [0] + ToBytes(q)
  {
    var x := PortBytes(r.toPort) + [0] + r.action;
    assert x == [0] + r.action;
    if PortBytes(r.fromPort) == [0] + q.toService {
      var y := OrEmpty(r.toRole) + [0] + x;
      assert y == PortBytes(q.toPort) + [0] + q.action;
    } else {
      assert PortBytes(q.toPort) == [0, 0];
    }
  }

  /**
    Two rules have the same pre-image exactly when they are the same rule or one of the two
    crossed pairs: every separator tells its fields apart but the one after the source port.
   */
  lemma SameRuleExactly(r: Rule, q: Rule)
    requires WellSeparated(r) && WellSeparated(q)
    ensures Preimage(r) == Preimage(q) <==> SameRule(r, q) || Crossed(r, q) || Crossed(q, r)
  {
    var rTail, qTail := PortBytes(r.fromPort) + [0] + ToBytes(r), PortBytes(q.fromPort) + [0] + ToBytes(q);
    FromInjective(r, rTail, q, qTail);
    ToInjective(r, q);
    assert r.fromPort.None? ==> rTail == [0] + ToBytes(r);
    assert q.fromPort.None? ==> qTail == [0] + ToBytes(q);
    if r.fromPort.Some? == q.fromPort.Some? {
      if rTail == qTail {
        SplitFixed(PortBytes(r.fromPort) + [0], ToBytes(r), PortBytes(q.fromPort) + [0], ToBytes(q));
        SplitFixed(PortBytes(r.fromPort), [0], PortBytes(q.fromPort), [0]);
        PortInjective(r.fromPort, q.fromPort);
      }
    } else if r.fromPort.Some? {
      if rTail == qTail { CrossedForward(r, q); }
      if CrossedTo(r, q) { CrossedBackward(r, q); }
    } else {
      if rTail == qTail { CrossedForward(q, r); }
      if CrossedTo(q, r) { CrossedBackward(q, r); }
    }
  }

  lemma FromInjective(r: Rule, x: Str, q: Rule, y: Str)
    requires WellSeparated(r) && WellSeparated(q)
    ensures r.tenant + [0] + (r.fromService + [0] + (OrEmpty(r.fromRole) + [0] + x)) ==
            q.tenant + [0] + (q.fromService + [0] + (OrEmpty(q.fromRole) + [0] + y)) <==>
            SameFrom(r, q) && x == y
  {
    var r2, q2 := OrEmpty(r.fromRole) + [0] + x, OrEmpty(q.fromRole) + [0] + y;
    var r1, q1 := r.fromService + [0] + r2, q.fromService + [0] + q2;
    if r.tenant + [0] + r1 == q.tenant + [0] + q1 {
      SplitNul(r.tenant, r1, q.tenant, q1);
      SplitNul(r.fromService, r2, q.fromService, q2);
      SplitNul(OrEmpty(r.fromRole), x, OrEmpty(q.fromRole), y);
    }
  }

  /** Rules that agree on whether the source port is present never collide. */
  lemma SameShapeSameRule(r: Rule, q: Rule)
    requires WellSeparated(r) && WellSeparated(q) && r.fromPort.Some? == q.fromPort.Some?
    ensures Preimage(r) == Preimage(q) <==> SameRule(r, q)
  {
    SameRuleExactly(r, q);
  }

  /** Two different rules with one identifier: from port 80 to "db" as "a", and to "P" port 0x6100 as "db". */
  lemma CollidingRules(tenant: Str, service: Str, action: Str)
    requires NulFree(tenant) && NulFree(service) && NulFree(action)
    ensures var r := Rule(tenant, service, None, Some(80), [0x64, 0x62], Some([0x61]), None, action);
            var q := Rule(tenant, service, None, None, [0x50], Some([0x64, 0x62]), Some(0x6100), action);
            Preimage(r) == Preimage(q) && !SameRule(r, q)
  {
    var r := Rule(tenant, service, None, Some(80), [0x64, 0x62], Some([0x61]), None, action);
    var q := Rule(tenant, service, None, None, [0x50], Some([0x64, 0x62]), Some(0x6100), action);
    assert CrossedTo(r, q);
    SameRuleExactly(r, q);
  }

  /**
    The pre-image, field by field, with a NUL between all: absent roles and ports leave no bytes,
    and ports are big-endian.
   */
  lemma FrozenLayout(r: Rule)
    ensures Preimage(r) ==
            r.tenant + [0] + r.fromService + [0] + OrEmpty(r.fromRole) + [0]
            + (if r.fromPort.Some? then [r.fromPort.value / 256, r.fromPort.value % 256] else []) + [0]
            + (r.toService + [0]
               + (OrEmpty(r.toRole) + [0]
                  + ((if r.toPort.Some? then [r.toPort.value / 256, r.toPort.value % 256] else []) + [0] + r.action)))
  {
    FromThenTo(r.tenant, r.fromService, OrEmpty(r.fromRole), PortBytes(r.fromPort), ToBytes(r));
  }
}
