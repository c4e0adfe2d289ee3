/** SPIFFE identities: `spiffe://<trust-domain>/ns/<tenant>/<kind>/<name>`. */
module Spiffe {
  import opened Bytes

  const SCHEME: Str := [0x73, 0x70, 0x69, 0x66, 0x66, 0x65, 0x3A, 0x2F, 0x2F]  // spiffe://
  const NS: Str := [0x2F, 0x6E, 0x73, 0x2F]  // /ns/
  const SLASH: Byte := 0x2F

  datatype IdKind = Sa | Node | Router | Gateway | Ctrl | Control | Operator

  datatype SpiffeId = SpiffeId(trustDomain: Str, tenant: Str, kind: IdKind, name: Str)

  /** The kind as it is printed and hashed. */
  function KindBytes(kind: IdKind): Str {
    match kind
    case Sa => [0x73, 0x61]
    case Node => [0x6E, 0x6F, 0x64, 0x65]
    case Router => [0x72, 0x6F, 0x75, 0x74, 0x65, 0x72]
    case Gateway => [0x67, 0x61, 0x74, 0x65, 0x77, 0x61, 0x79]
    case Ctrl => [0x63, 0x74, 0x72, 0x6C]
    case Control => [0x63, 0x6F, 0x6E, 0x74, 0x72, 0x6F, 0x6C]
    case Operator => [0x6F, 0x70, 0x65, 0x72, 0x61, 0x74, 0x6F, 0x72]
  }

  function ParseKind(s: Str): Option<IdKind> {
    if s == KindBytes(Sa) then Some(Sa)
    else if s == KindBytes(Node) then Some(Node)
    else if s == KindBytes(Router) then Some(Router)
    else if s == KindBytes(Gateway) then Some(Gateway)
    else if s == KindBytes(Ctrl) then Some(Ctrl)
    else if s == KindBytes(Control) then Some(Control)
    else if s == KindBytes(Operator) then Some(Operator)
    else None
  }

  function Print(id: SpiffeId): Str {
    SCHEME + (id.trustDomain + NS + Path(id))
  }

  function Path(id: SpiffeId): Str {
    id.tenant + [SLASH] + (KindBytes(id.kind) + [SLASH] + id.name)
  }

  predicate OccursAt(s: Str, pat: Str, i: nat) {
    i + |pat| <= |s| && s[i..i + |pat|] == pat
  }

  ghost predicate Contains(s: Str, pat: Str) {
    exists i: nat :: OccursAt(s, pat, i)
  }

  function IndexFrom(s: Str, pat: Str, i: nat): (r: Option<nat>)
    ensures r.Some? ==> i <= r.value && OccursAt(s, pat, r.value)
    ensures forall j: nat | i <= j && (r.Some? ==> j < r.value) :: !OccursAt(s, pat, j)
    decreases |s| - i
  {
    if i + |pat| > |s| then None
    else if OccursAt(s, pat, i) then Some(i)
    else if i == |s| then None
    else IndexFrom(s, pat, i + 1)
  }

  /** `split_once`: around the first occurrence. */
  function SplitOnce(s: Str, pat: Str): Option<(Str, Str)> {
    var i :- IndexFrom(s, pat, 0);
    Some((s[..i], s[i + |pat|..]))
  }

  datatype Parsed = Ok(id: SpiffeId) | InvalidFormat | InvalidKind

  function Parse(s: Str): Parsed {
    if !(SCHEME <= s) then InvalidFormat else
    match SplitOnce(s[|SCHEME|..], NS)
    case None => InvalidFormat
    case Some((trustDomain, path)) => ParsePath(trustDomain, path)
  }

  /** `splitn(3, '/')`: everything after the second slash is the name. */
  function ParsePath(trustDomain: Str, path: Str): Parsed {
    match SplitOnce(path, [SLASH])
    case None => InvalidFormat
    case Some((tenant, rest)) =>
      match SplitOnce(rest, [SLASH])
      case None => InvalidFormat
      case Some((kind, name)) =>
        match ParseKind(kind)
        case None => InvalidKind
        case Some(k) => Ok(SpiffeId(trustDomain, tenant, k, name))
  }

  // ----- Splitting -----

  lemma SplitJoins(s: Str, pat: Str)
    ensures SplitOnce(s, pat).Some? ==>
              s == SplitOnce(s, pat).value.0 + pat + SplitOnce(s, pat).value.1
  {
  }

  /** A string splits around a given separator exactly when no earlier one occurs. */
  lemma SplitAt(a: Str, pat: Str, b: Str)
    ensures SplitOnce(a + pat + b, pat) == Some((a, b)) <==>
            forall i: nat | i < |a| :: !OccursAt(a + pat + b, pat, i)
  {
    var s := a + pat + b;
    assert OccursAt(s, pat, |a|) by { assert s[|a|..|a| + |pat|] == pat; }
    var r := IndexFrom(s, pat, 0);
    assert r.Some? && r.value <= |a|;
    if r.value == |a| {
      assert s[..|a|] == a && s[|a| + |pat|..] == b;
    } else {
      assert |s[..r.value]| < |a|;
    }
  }

  lemma SplitAtSlash(a: Str, b: Str)
    ensures SplitOnce(a + [SLASH] + b, [SLASH]) == Some((a, b)) <==> SLASH !in a
  {
    var s := a + [SLASH] + b;
    SplitAt(a, [SLASH], b);
    forall i: nat | i < |a|
      ensures OccursAt(s, [SLASH], i) <==> a[i] == SLASH
    {
      assert s[i..i + 1] == [a[i]];
    }
  }

  /** The separator "/ns/" overlaps itself in one slash only. */
  lemma SplitAtNs(a: Str, b: Str)
    ensures SplitOnce(a + NS + b, NS) == Some((a, b)) <==> !Contains(a + [SLASH], NS)
  {
    var s, t := a + NS + b, a + [SLASH];
    SplitAt(a, NS, b);
    forall i: nat | i < |a|
      ensures OccursAt(s, NS, i) <==> OccursAt(t, NS, i)
    {
      NsOverlap(a, b, i);
    }
    forall i: nat | OccursAt(t, NS, i)
      ensures i < |a|
    {
    }
  }

  lemma NsOverlap(a: Str, b: Str, i: nat)
    requires i < |a|
    ensures OccursAt(a + NS + b, NS, i) <==> OccursAt(a + [SLASH], NS, i)
  {
    var s, t := a + NS + b, a + [SLASH];
    if i + 4 <= |t| {
      assert s[i..i + 4] == t[i..i + 4];
    } else {
      // The second or third byte of the pattern would have to be the separator's slash.
      assert s[|a|] == SLASH != NS[|a| - i];
    }
  }

  // ----- Printing and parsing -----

  /** No separator in a place where the parser would take it for its own. */
  ghost predicate RoundTrips(id: SpiffeId) {
    !Contains(id.trustDomain + [SLASH], NS) && SLASH !in id.tenant
  }

  lemma KindRoundTrips(kind: IdKind)
    ensures ParseKind(KindBytes(kind)) == Some(kind) && SLASH !in KindBytes(kind)
  {
  }

  lemma PathRoundTrips(td: Str, id: SpiffeId)
    ensures ParsePath(td, Path(id)) == Ok(id.(trustDomain := td)) <==> SLASH !in id.tenant
  {
    var rest := KindBytes(id.kind) + [SLASH] + id.name;
    SplitAtSlash(id.tenant, rest);
    SplitAtSlash(KindBytes(id.kind), id.name);
    KindRoundTrips(id.kind);
    if SplitOnce(Path(id), [SLASH]).Some? {
      SplitJoins(Path(id), [SLASH]);
      var (tenant, rest') := SplitOnce(Path(id), [SLASH]).value;
      if tenant == id.tenant {
        SplitFixed(tenant + [SLASH], rest', id.tenant + [SLASH], rest);
      }
    }
  }

  /** Parsing a printed identity gives it back exactly when it `RoundTrips`. */
  lemma ParsePrinted(id: SpiffeId)
    ensures Parse(Print(id)) == Ok(id) <==> RoundTrips(id)
  {
    var rest := id.trustDomain + NS + Path(id);
    assert Print(id)[|SCHEME|..] == rest;
    SplitAtNs(id.trustDomain, Path(id));
    PathRoundTrips(id.trustDomain, id);
    if SplitOnce(rest, NS).Some? {
      SplitJoins(rest, NS);
      var (td, path) := SplitOnce(rest, NS).value;
      if td == id.trustDomain {
        SplitFixed(td + NS, path, id.trustDomain + NS, Path(id));
      }
    }
  }

  lemma PrintPath(td: Str, path: Str)
    ensures ParsePath(td, path).Ok? ==>
              ParsePath(td, path).id.trustDomain == td && Path(ParsePath(td, path).id) == path
  {
    SplitJoins(path, [SLASH]);
    if SplitOnce(path, [SLASH]).Some? {
      SplitJoins(SplitOnce(path, [SLASH]).value.1, [SLASH]);
    }
  }

  /** Every accepted string is the print of what it parsed to. */
  lemma PrintParsed(s: Str)
    ensures Parse(s).Ok? ==> Print(Parse(s).id) == s
  {
    if Parse(s).Ok? {
      var rest := s[|SCHEME|..];
      SplitJoins(rest, NS);
      var (td, path) := SplitOnce(rest, NS).value;
      PrintPath(td, path);
      assert s == SCHEME + rest;
    }
  }

  /** Whatever parses to an identity shows that the identity round-trips. */
  lemma ParsedRoundTrips(s: Str)
    ensures Parse(s).Ok? ==> RoundTrips(Parse(s).id)
  {
    if Parse(s).Ok? {
      PrintParsed(s);
      ParsePrinted(Parse(s).id);
    }
  }

  // ----- The spelling -----

  function KindName(kind: IdKind): (name: string)
    ensures forall i | 0 <= i < |name| :: name[i] < 128 as char
  {
    match kind
    case Sa => "sa"
    case Node => "node"
    case Router => "router"
    case Gateway => "gateway"
    case Ctrl => "ctrl"
    case Control => "control"
    case Operator => "operator"
  }

  lemma KindSpelled(kind: IdKind)
    ensures KindBytes(kind) == Ascii(KindName(kind))
  {
  }

  /** Every identity is printed as `spiffe://<trust-domain>/ns/<tenant>/<kind>/<name>`. */
  lemma PrintSpelled(id: SpiffeId)
    ensures Print(id) == Ascii("spiffe://") + id.trustDomain + Ascii("/ns/") + id.tenant + Ascii("/")
                         + Ascii(KindName(id.kind)) + Ascii("/") + id.name
  {
    KindSpelled(id.kind);
    assert SCHEME == Ascii("spiffe://") && NS == Ascii("/ns/") && [SLASH] == Ascii("/");
    Flat(SCHEME, id.trustDomain, NS, id.tenant, [SLASH], KindBytes(id.kind), id.name);
  }

  lemma Flat(scheme: Str, td: Str, ns: Str, tenant: Str, slash: Str, kind: Str, name: Str)
    ensures scheme + (td + ns + (tenant + slash + (kind + slash + name))) ==
            scheme + td + ns + tenant + slash + kind + slash + name
  {
    var path := kind + slash + name;
    assert scheme + (td + ns + (tenant + slash + path)) == scheme + td + ns + tenant + slash + path;
  }

  /** A string is accepted for an identity exactly when it is its print, and the identity round-trips. */
  lemma AcceptedExactly(s: Str, id: SpiffeId)
    ensures Parse(s) == Ok(id) <==> s == Print(id) && RoundTrips(id)
  {
    PrintParsed(s);
    ParsePrinted(id);
    if Parse(s).Ok? { ParsedRoundTrips(s); }
  }

  /** An identity in all but its kind. */
  ghost predicate UnknownKind(s: Str, trustDomain: Str, tenant: Str, kind: Str, name: Str) {
    && s == SCHEME + (trustDomain + NS + (tenant + [SLASH] + (kind + [SLASH] + name)))
    && !Contains(trustDomain + [SLASH], NS) && SLASH !in tenant && SLASH !in kind
    && forall k :: kind != KindBytes(k)
  }

  lemma ParseKindExactly(s: Str)
    ensures ParseKind(s).None? <==> forall k :: s != KindBytes(k)
  {
    forall k: IdKind | s == KindBytes(k)
      ensures ParseKind(s).Some?
    {
      KindRoundTrips(k);
    }
  }

  /** Of the refused strings, exactly these are refused for their kind; all others for their format. */
  lemma InvalidKindExactly(s: Str)
    ensures Parse(s) == InvalidKind <==>
            exists trustDomain, tenant, kind, name :: UnknownKind(s, trustDomain, tenant, kind, name)
  {
    if Parse(s) == InvalidKind {
      var rest := s[|SCHEME|..];
      var (td, path) := SplitOnce(rest, NS).value;
      var (tenant, tail) := SplitOnce(path, [SLASH]).value;
      var (kind, name) := SplitOnce(tail, [SLASH]).value;
      SplitJoins(rest, NS);
      SplitJoins(path, [SLASH]);
      SplitJoins(tail, [SLASH]);
      SplitAtNs(td, path);
      SplitAtSlash(tenant, tail);
      SplitAtSlash(kind, name);
      ParseKindExactly(kind);
      assert s == SCHEME + rest;
      assert UnknownKind(s, td, tenant, kind, name);
    }
    if td, tenant, kind, name :| UnknownKind(s, td, tenant, kind, name) {
      UnknownKindRefused(s, td, tenant, kind, name);
    }
  }

  lemma UnknownKindRefused(s: Str, td: Str, tenant: Str, kind: Str, name: Str)
    requires UnknownKind(s, td, tenant, kind, name)
    ensures Parse(s) == InvalidKind
  {
    var tail := kind + [SLASH] + name;
    var path := tenant + [SLASH] + tail;
    assert s[|SCHEME|..] == td + NS + path;
    SplitAtNs(td, path);
    SplitAtSlash(tenant, tail);
    SplitAtSlash(kind, name);
    ParseKindExactly(kind);
  }
}
