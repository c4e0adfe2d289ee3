/** `OperatorGrantId::of_grant`: the canonical bytes of an operator access grant. */
module Grant {
  import opened Bytes
  import opened Hasher

  datatype Grant = Grant(
    operatorId: Str,
    grantedBy: Str,
    grantedAt: U64,
    expiresAt: U64,
    clusterAdmin: bool,
    readOnly: bool,
    tenants: seq<Str>)

  const TAG: Str := [
    0x46, 0x6C, 0x65, 0x65, 0x74, 0x4F, 0x53, 0x20, 0x76, 0x31, 0x20, 0x4F, 0x70,
    0x65, 0x72, 0x61, 0x74, 0x6F, 0x72, 0x47, 0x72, 0x61, 0x6E, 0x74, 0x49, 0x64]  // FleetOS v1 OperatorGrantId

  function Flag(b: bool): Str {
    [if b then 1 else 0]
  }

  // ----- Byte-wise order -----

  /** Byte-wise lexicographic order, the order of `str`. */
  predicate Less(a: Str, b: Str) {
    b != [] && (a == [] || a[0] < b[0] || (a[0] == b[0] && Less(a[1..], b[1..])))
  }

  lemma {:induction false} LessTotal(a: Str, b: Str)
    ensures Less(a, b) || Less(b, a) || a == b
    ensures !(Less(a, b) && Less(b, a))
  {
    if a == [] || b == [] || a[0] != b[0] {
    } else {
      LessTotal(a[1..], b[1..]);
      assert a == [a[0]] + a[1..] && b == [b[0]] + b[1..];
    }
  }

  lemma {:induction false} LessTransitive(a: Str, b: Str, c: Str)
    requires Less(a, b) && Less(b, c)
    ensures Less(a, c)
  {
    if a == [] || a[0] != b[0] || b[0] != c[0] {
    } else {
      LessTransitive(a[1..], b[1..], c[1..]);
    }
  }

  // ----- The canonical tenant list -----

  ghost predicate StrictlySorted(s: seq<Str>) {
    forall i, j | 0 <= i < j < |s| :: Less(s[i], s[j])
  }

  ghost function Elements(s: seq<Str>): set<Str> {
    set t | t in s
  }

  /** Into a strictly sorted list, unless it is there already. */
  function Insert(t: Str, s: seq<Str>): seq<Str> {
    if s == [] || Less(t, s[0]) then [t] + s
    else if t == s[0] then s
    else [s[0]] + Insert(t, s[1..])
  }

  /** The reference: the tenants as a strictly sorted list without duplicates. */
  function Canonical(tenants: seq<Str>): seq<Str> {
    if tenants == [] then [] else Insert(tenants[0], Canonical(tenants[1..]))
  }

  lemma PrependKeepsSorted(x: Str, s: seq<Str>)
    requires StrictlySorted(s) && forall y | y in s :: Less(x, y)
    ensures StrictlySorted([x] + s) && Elements([x] + s) == Elements(s) + {x}
  {
  }

  lemma {:induction false} InsertKeepsSorted(t: Str, s: seq<Str>)
    requires StrictlySorted(s)
    ensures StrictlySorted(Insert(t, s)) && Elements(Insert(t, s)) == Elements(s) + {t}
  {
    if s == [] {
    } else if Less(t, s[0]) {
      forall j | 0 < j < |s| ensures Less(t, s[j]) { LessTransitive(t, s[0], s[j]); }
      PrependKeepsSorted(t, s);
    } else if t != s[0] {
      InsertKeepsSorted(t, s[1..]);
      LessTotal(t, s[0]);
      var r := Insert(t, s[1..]);
      forall x | x in r ensures Less(s[0], x) {
        assert x in Elements(r);
        assert x in s[1..] || x == t;
      }
      PrependKeepsSorted(s[0], r);
      assert Elements(s) == Elements(s[1..]) + {s[0]};
    }
  }

  lemma {:induction false} CanonicalIsSorted(tenants: seq<Str>)
    ensures StrictlySorted(Canonical(tenants)) && Elements(Canonical(tenants)) == Elements(tenants)
  {
    if tenants == [] {
    } else {
      CanonicalIsSorted(tenants[1..]);
      InsertKeepsSorted(tenants[0], Canonical(tenants[1..]));
      assert Elements(tenants) == Elements(tenants[1..]) + {tenants[0]};
    }
  }

  lemma SomeElement(s: seq<Str>)
    requires s != []
    ensures Elements(s) != {}
  {
    assert s[0] in Elements(s);
  }

  /** A strictly sorted list is determined by its elements. */
  lemma {:induction false} SortedIsUnique(s: seq<Str>, t: seq<Str>)
    requires StrictlySorted(s) && StrictlySorted(t) && Elements(s) == Elements(t)
    ensures s == t
  {
    if s == [] {
      if t != [] { SomeElement(t); }
    } else {
      assert s[0] in Elements(t);
      HeadsEqual(s, t);
      LessTotal(s[0], s[0]);
      assert Elements(s[1..]) == Elements(s) - {s[0]};
      assert Elements(t[1..]) == Elements(t) - {t[0]};
      SortedIsUnique(s[1..], t[1..]);
      assert s == [s[0]] + s[1..] && t == [t[0]] + t[1..];
    }
  }

  lemma HeadsEqual(s: seq<Str>, t: seq<Str>)
    requires StrictlySorted(s) && StrictlySorted(t) && Elements(s) == Elements(t) && s != [] && t != []
    ensures s[0] == t[0]
  {
    assert s[0] in Elements(t) && t[0] in Elements(s);
    LessTotal(s[0], t[0]);
  }

  ghost predicate Sorted(s: seq<Str>) {
    forall i, j | 0 <= i < j < |s| :: !Less(s[j], s[i])
  }

  /** Where an element goes: behind all that are not greater. */
  method FindPlace(s: seq<Str>, t: Str) returns (i: nat)
    ensures i <= |s| && (forall k | 0 <= k < i :: !Less(t, s[k])) && (i < |s| ==> Less(t, s[i]))
  {
    i := 0;
    while i < |s| && !Less(t, s[i])
      invariant i <= |s|
      invariant forall k | 0 <= k < i :: !Less(t, s[k])
    {
      i := i + 1;
    }
  }

  lemma PlacedIsSorted(s: seq<Str>, t: Str, i: nat)
    requires Sorted(s) && i <= |s|
    requires (forall k | 0 <= k < i :: !Less(t, s[k])) && (i < |s| ==> Less(t, s[i]))
    ensures Sorted(s[..i] + [t] + s[i..])
  {
    forall k | i <= k < |s|
      ensures !Less(s[k], t)
    {
      if k > i { LessTotal(s[i], s[k]); if Less(s[i], s[k]) { LessTransitive(t, s[i], s[k]); } }
      LessTotal(t, s[k]);
    }
  }

  lemma PlacedIsAdded(s: seq<Str>, t: Str, i: nat)
    requires i <= |s|
    ensures multiset(s[..i] + [t] + s[i..]) == multiset(s) + multiset{t}
  {
    assert s == s[..i] + s[i..];
  }

  /** `sort_unstable`: only its result is promised, so any sorting will do. */
  method SortUnstable(v: seq<Str>) returns (s: seq<Str>)
    ensures Sorted(s) && multiset(s) == multiset(v)
  {
    s := [];
    for n := 0 to |v|
      invariant Sorted(s) && multiset(s) == multiset(v[..n])
    {
      var i := FindPlace(s, v[n]);
      PlacedIsSorted(s, v[n], i);
      PlacedIsAdded(s, v[n], i);
      assert v[..n + 1] == v[..n] + [v[n]];
      s := s[..i] + [v[n]] + s[i..];
    }
    assert v[..|v|] == v;
  }

  /** `dedup`: drops each element equal to the one kept before it. */
  method Dedup(s: seq<Str>) returns (d: seq<Str>)
    requires Sorted(s)
    ensures StrictlySorted(d) && Elements(d) == Elements(s)
  {
    d := [];
    for n := 0 to |s|
      invariant StrictlySorted(d) && Elements(d) == Elements(s[..n])
      invariant d != [] <==> n > 0
      invariant n > 0 ==> d[|d| - 1] == s[n - 1]
    {
      assert s[..n + 1] == s[..n] + [s[n]];
      assert Elements(s[..n + 1]) == Elements(s[..n]) + {s[n]};
      if n == 0 || d[|d| - 1] != s[n] {
        if n > 0 {
          var last := d[|d| - 1];
          LessTotal(last, s[n]);
          forall k | 0 <= k < |d| ensures Less(d[k], s[n]) {
            if k < |d| - 1 { LessTransitive(d[k], last, s[n]); }
          }
        }
        d := d + [s[n]];
      } else {
        assert s[n] in Elements(d);
      }
    }
    assert s[..|s|] == s;
  }

  // ----- The pre-image -----

  function Join(s: seq<Str>): Str {
    if s == [] then [] else if |s| == 1 then s[0] else s[0] + [0] + Join(s[1..])
  }

  lemma {:induction false} JoinSnoc(s: seq<Str>, t: Str)
    requires s != []
    ensures Join(s + [t]) == Join(s) + [0] + t
  {
    if |s| == 1 {
      assert (s + [t])[1..] == [t];
    } else {
      assert (s + [t])[1..] == s[1..] + [t];
      JoinSnoc(s[1..], t);
    }
  }

  function Ids(g: Grant): Str {
    TAG + [0] + g.operatorId + [0] + g.grantedBy + [0]
  }

  function Scalars(g: Grant): Str {
    LeBytes(g.grantedAt, 8) + [0] + LeBytes(g.expiresAt, 8) + [0] + Flag(g.clusterAdmin) + [0] + Flag(g.readOnly) + [0]
  }

  /** The bytes fed to the hasher, with the canonical tenants in place of the submitted ones. */
  function Preimage(g: Grant): Str {
    Ids(g) + (Scalars(g) + Join(Canonical(g.tenants)))
  }

  method FeedIds(hasher: Hasher, g: Grant)
    requires hasher.fed == []
    modifies hasher
    ensures hasher.fed == Ids(g)
  {
    hasher.Update(TAG);
    hasher.Update([0]);
    hasher.Update(g.operatorId);
    hasher.Update([0]);
    hasher.Update(g.grantedBy);
    hasher.Update([0]);
  }

  method FeedScalars(hasher: Hasher, g: Grant)
    modifies hasher
    ensures hasher.fed == old(hasher.fed) + Scalars(g)
  {
    hasher.Update(LeBytes(g.grantedAt, 8));
    hasher.Update([0]);
    hasher.Update(LeBytes(g.expiresAt, 8));
    hasher.Update([0]);
    hasher.Update(Flag(g.clusterAdmin));
    hasher.Update([0]);
    hasher.Update(Flag(g.readOnly));
    hasher.Update([0]);
  }

  /** Sorts, dedups and feeds the tenants, a separator before each but the first. */
  method FeedTenants(hasher: Hasher, tenants: seq<Str>)
    modifies hasher
    ensures hasher.fed == old(hasher.fed) + Join(Canonical(tenants))
  {
    var sorted := SortUnstable(tenants);
    var canonical := Dedup(sorted);
    assert canonical == Canonical(tenants) by {
      assert Elements(sorted) == Elements(tenants) by {
        assert forall t :: t in sorted <==> t in multiset(sorted);
        assert forall t :: t in tenants <==> t in multiset(tenants);
      }
      CanonicalIsSorted(tenants);
      SortedIsUnique(canonical, Canonical(tenants));
    }
    for i := 0 to |canonical|
      invariant hasher.fed == old(hasher.fed) + Join(canonical[..i])
    {
      assert canonical[..i + 1] == canonical[..i] + [canonical[i]];
      if i > 0 {
        JoinSnoc(canonical[..i], canonical[i]);
        hasher.Update([0]);
      }
      hasher.Update(canonical[i]);
    }
    assert canonical[..|canonical|] == canonical;
  }

  /** `of_grant`, up to the hash of what it feeds. */
  method OfGrant(g: Grant) returns (preimage: Str)
    ensures preimage == Preimage(g)
  {
    var hasher := new Hasher();
    FeedIds(hasher, g);
    FeedScalars(hasher, g);
    FeedTenants(hasher, g.tenants);
    assert Ids(g) + Scalars(g) + Join(Canonical(g.tenants)) == Preimage(g);
    preimage := hasher.fed;
  }

  // ----- Exactly when two pre-images coincide -----

  ghost predicate AllNulFree(s: seq<Str>) {
    forall t | t in s :: NulFree(t)
  }

  predicate Blank(s: seq<Str>) {
    s == [] || s == [[]]
  }

  /** The separators tell NUL-free lists apart, but for the empty list and [""]. */
  lemma {:induction false} JoinInjective(s: seq<Str>, t: seq<Str>)
    requires AllNulFree(s) && AllNulFree(t)
    ensures Join(s) == Join(t) <==> s == t || (Blank(s) && Blank(t))
  {
    if |s| >= 2 && |t| >= 2 {
      JoinInjective(s[1..], t[1..]);
      if Join(s) == Join(t) {
        SplitNul(s[0], Join(s[1..]), t[0], Join(t[1..]));
        assert s == [s[0]] + s[1..] && t == [t[0]] + t[1..];
        assert Blank(s[1..]) && Blank(t[1..]) ==> s[1..] == t[1..];
      }
    } else {
      JoinHasSeparator(s);
      JoinHasSeparator(t);
      assert |s| == 1 ==> s == [s[0]] && s[0] in s;
      assert |t| == 1 ==> t == [t[0]] && t[0] in t;
    }
  }

  lemma JoinHasSeparator(s: seq<Str>)
    ensures |s| >= 2 ==> 0 in Join(s)
  {
    if |s| >= 2 { assert Join(s)[|s[0]|] == 0; }
  }

  ghost predicate SameScalars(g: Grant, h: Grant) {
    && g.operatorId == h.operatorId && g.grantedBy == h.grantedBy
    && g.grantedAt == h.grantedAt && g.expiresAt == h.expiresAt
    && g.clusterAdmin == h.clusterAdmin && g.readOnly == h.readOnly
  }

  ghost predicate WellSeparated(g: Grant) {
    NulFree(g.operatorId) && NulFree(g.grantedBy) && AllNulFree(g.tenants)
  }

  /** No tenants, or nothing but the empty name. */
  ghost predicate NoName(tenants: seq<Str>) {
    Elements(tenants) <= {[]}
  }

  /** The scalar fields have fixed widths. */
  lemma ScalarsInjective(g: Grant, x: Str, h: Grant, y: Str)
    ensures Scalars(g) + x == Scalars(h) + y <==>
            && g.grantedAt == h.grantedAt && g.expiresAt == h.expiresAt
            && g.clusterAdmin == h.clusterAdmin && g.readOnly == h.readOnly
            && x == y
  {
    if Scalars(g) + x == Scalars(h) + y {
      SplitFixed(Scalars(g), x, Scalars(h), y);
      var s, t := Scalars(g), Scalars(h);
      assert LeBytes(g.grantedAt, 8) == s[..8] == t[..8] == LeBytes(h.grantedAt, 8);
      assert LeBytes(g.expiresAt, 8) == s[9..17] == t[9..17] == LeBytes(h.expiresAt, 8);
      assert s[18] == Flag(g.clusterAdmin)[0] && t[18] == Flag(h.clusterAdmin)[0];
      assert s[20] == Flag(g.readOnly)[0] && t[20] == Flag(h.readOnly)[0];
      TimestampInjective(g.grantedAt, h.grantedAt);
      TimestampInjective(g.expiresAt, h.expiresAt);
    }
  }

  /** The tag is fixed and both ids end at their separators. */
  lemma IdsInjective(g: Grant, x: Str, h: Grant, y: Str)
    requires WellSeparated(g) && WellSeparated(h) && Ids(g) + x == Ids(h) + y
    ensures g.operatorId == h.operatorId && g.grantedBy == h.grantedBy && x == y
  {
    var gx, hy := g.grantedBy + [0] + x, h.grantedBy + [0] + y;
    assert Ids(g) + x == (TAG + [0]) + (g.operatorId + [0] + gx);
    assert Ids(h) + y == (TAG + [0]) + (h.operatorId + [0] + hy);
    SplitFixed(TAG + [0], g.operatorId + [0] + gx, TAG + [0], h.operatorId + [0] + hy);
    SplitNul(g.operatorId, gx, h.operatorId, hy);
    SplitNul(g.grantedBy, x, h.grantedBy, y);
  }

  lemma TimestampInjective(m: U64, n: U64)
    requires LeBytes(m, 8) == LeBytes(n, 8)
    ensures m == n
  {
    PowLimits();
    LeBytesInjective(m, n, 8);
  }

  lemma CanonicalListsAgree(s: seq<Str>, t: seq<Str>)
    requires AllNulFree(s) && AllNulFree(t)
    ensures Join(Canonical(s)) == Join(Canonical(t)) <==>
            Elements(s) == Elements(t) || (NoName(s) && NoName(t))
  {
    var cs, ct := Canonical(s), Canonical(t);
    CanonicalIsSorted(s);
    CanonicalIsSorted(t);
    assert AllNulFree(cs) by { forall x | x in cs ensures NulFree(x) { assert x in Elements(cs); } }
    assert AllNulFree(ct) by { forall x | x in ct ensures NulFree(x) { assert x in Elements(ct); } }
    JoinInjective(cs, ct);
    if Elements(s) == Elements(t) { SortedIsUnique(cs, ct); }
    if NoName(s) { NoNameJoin(s); }
    if NoName(t) { NoNameJoin(t); }
    assert Elements([[]]) == {[]};
  }

  lemma NoNameJoin(s: seq<Str>)
    requires NoName(s)
    ensures Join(Canonical(s)) == []
  {
    CanonicalIsSorted(s);
    var c := Canonical(s);
    forall i | 0 <= i < |c| ensures c[i] == [] { assert c[i] in Elements(c); }
  }

  /**
    Two grants have the same pre-image exactly when all six scalar fields agree and the
    tenants are the same set, an empty name counting as no tenant when it is alone.
   */
  lemma SameGrantExactly(g: Grant, h: Grant)
    requires WellSeparated(g) && WellSeparated(h)
    ensures Preimage(g) == Preimage(h) <==>
            && SameScalars(g, h)
            && (Elements(g.tenants) == Elements(h.tenants) || (NoName(g.tenants) && NoName(h.tenants)))
  {
    CanonicalListsAgree(g.tenants, h.tenants);
    var x, y := Join(Canonical(g.tenants)), Join(Canonical(h.tenants));
    ScalarsInjective(g, x, h, y);
    if Preimage(g) == Preimage(h) {
      IdsInjective(g, Scalars(g) + x, h, Scalars(h) + y);
    }
  }

  /** With validated tenants, which are never empty, nothing but the set of them counts. */
  lemma SameScopeExactly(g: Grant, h: Grant)
    requires WellSeparated(g) && WellSeparated(h) && [] !in g.tenants && [] !in h.tenants
    ensures Preimage(g) == Preimage(h) <==> SameScalars(g, h) && Elements(g.tenants) == Elements(h.tenants)
  {
    SameGrantExactly(g, h);
    if NoName(g.tenants) && NoName(h.tenants) {
      assert Elements(g.tenants) == {} == Elements(h.tenants);
    }
  }

  /** A NUL inside an id moves the border between the two ids: two different grants coincide. */
  lemma NulMovesBorder(g: Grant, a: Str, b: Str, c: Str)
    ensures var g1 := g.(operatorId := a + [0] + b, grantedBy := c);
            var g2 := g.(operatorId := a, grantedBy := b + [0] + c);
            g1 != g2 && Preimage(g1) == Preimage(g2)
  {
    var g1 := g.(operatorId := a + [0] + b, grantedBy := c);
    var g2 := g.(operatorId := a, grantedBy := b + [0] + c);
    assert |g1.operatorId| > |g2.operatorId|;
    assert Ids(g1) == Ids(g2);
    assert Scalars(g1) == Scalars(g2);
  }

  /** A NUL inside a tenant passes for the separator of two: again two different grants coincide. */
  lemma NulSplitsTenant(g: Grant, a: Str, b: Str)
    requires Less(a, b)
    ensures var g1, g2 := g.(tenants := [a + [0] + b]), g.(tenants := [a, b]);
            g1 != g2 && Preimage(g1) == Preimage(g2)
  {
    LessTotal(a, b);
    assert Canonical([b]) == [b] && Canonical([a, b]) == [a, b] by { assert [a, b][1..] == [b] && [b][1..] == []; }
    assert Canonical([a + [0] + b]) == [a + [0] + b];
    assert Join([b]) == b && Join([a, b]) == a + [0] + b by { assert [a, b][1..] == [b]; }
    var g1, g2 := g.(tenants := [a + [0] + b]), g.(tenants := [a, b]);
    assert |g1.tenants| != |g2.tenants|;
    assert Ids(g1) == Ids(g2) && Scalars(g1) == Scalars(g2);
  }

  // ----- The frozen layout -----

  /** Byte-wise order: at the first difference the smaller byte, or the end, comes first. */
  lemma {:induction false} LessExactly(a: Str, b: Str)
    ensures Less(a, b) <==> exists k: nat :: DiffersAt(a, b, k)
  {
    if a == [] {
      if b != [] { assert DiffersAt(a, b, 0); }
    } else if b == [] {
    } else if a[0] != b[0] {
      if a[0] < b[0] { assert DiffersAt(a, b, 0); }
      if k: nat :| DiffersAt(a, b, k) { SameStart(a, b, k); }
    } else {
      LessExactly(a[1..], b[1..]);
      if Less(a, b) {
        var k: nat :| DiffersAt(a[1..], b[1..], k);
        assert a[..k + 1] == [a[0]] + a[1..][..k] && b[..k + 1] == [b[0]] + b[1..][..k];
        assert DiffersAt(a, b, k + 1);
      }
      if k: nat :| DiffersAt(a, b, k) {
        assert k > 0;
        assert a[1..][..k - 1] == a[..k][1..] && b[1..][..k - 1] == b[..k][1..];
        assert DiffersAt(a[1..], b[1..], k - 1);
      }
    }
  }

  lemma SameStart(a: Str, b: Str, k: nat)
    requires DiffersAt(a, b, k)
    ensures k == 0 || a[0] == b[0]
  {
    if k > 0 { assert a[..k][0] == b[..k][0]; }
  }

  /** The strings agree before `k`, where the first one ends or has the smaller byte. */
  predicate DiffersAt(a: Str, b: Str, k: nat) {
    k <= |a| && k < |b| && a[..k] == b[..k] && (k == |a| || a[k] < b[k])
  }

  /**
    The pre-image, field by field: the tag, the two ids, the two times in little-endian, the two
    flags, and the tenants in ascending byte order without duplicates, with a NUL between all.
   */
  lemma FrozenLayout(g: Grant, canonical: seq<Str>, at: Str, until: Str)
    requires StrictlySorted(canonical) && Elements(canonical) == Elements(g.tenants)
    requires |at| == 8 && LeValue(at) == g.grantedAt && |until| == 8 && LeValue(until) == g.expiresAt
    ensures Preimage(g) ==
            Ascii("FleetOS v1 OperatorGrantId") + [0] + g.operatorId + [0] + g.grantedBy + [0]
            + (at + [0] + until + [0] + [if g.clusterAdmin then 1 else 0] + [0] + [if g.readOnly then 1 else 0] + [0]
               + Join(canonical))
  {
    TagSpelled();
    CanonicalIsSorted(g.tenants);
    SortedIsUnique(canonical, Canonical(g.tenants));
    TimeBytes(at, g.grantedAt);
    TimeBytes(until, g.expiresAt);
  }

  lemma TagSpelled()
    ensures TAG == Ascii("FleetOS v1 OperatorGrantId")
  {
  }

  lemma TimeBytes(s: Str, t: U64)
    requires |s| == 8 && LeValue(s) == t
    ensures LeBytes(t, 8) == s
  {
    PowLimits();
    LeBytesValue(t, 8);
    LeValueInjective(LeBytes(t, 8), s);
  }

  /** Tenants are joined by single NULs. */
  lemma JoinedByNul(s: seq<Str>, t: Str)
    ensures Join([]) == [] && Join([t]) == t
    ensures s != [] ==> Join(s + [t]) == Join(s) + [0] + t
  {
    if s != [] { JoinSnoc(s, t); }
  }
}
