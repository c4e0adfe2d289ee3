/**
  `sign_svid_delegated`: a node renews one workload certificate with a delegated key.

  Parsing the request, the signature and the calendar are foreign code. A parsed request is
  its list of subject alternative names (the parser refuses custom extensions), `signs` says
  whether building the issuer and signing succeed, and the calendar is its range of
  timestamps.
 */
module Delegation {
  import opened Bytes
  import opened Spiffe
  import opened Extensions
  import opened Stamping

  datatype San = Uri(uri: Str) | OtherSan

  /** What `CertificateSigningRequestParams::from_der` gives, or nothing if it fails. */
  type Csr = Option<seq<San>>

  datatype DelegatedKey = DelegatedKey(
    target: SpiffeId,
    ordinal: Option<U32>,
    role: Option<Str>,
    expiresAt: U64)

  datatype Extension = DegradedExt(value: bool) | RoleExt(role: Str) | OrdinalExt(ordinal: U32)

  datatype LeafCert = LeafCert(uri: Str, extensions: seq<Extension>, notBefore: int, notAfter: int)

  datatype Error = DelegationKeyExpired | InvalidFormatError | TargetSvidMismatch | ValidityOverrun | ValidationFailed

  /** `Panics` is the overflow of the end date. */
  datatype Outcome = Signed(leaf: LeafCert) | Refused(error: Error) | Panics

  /** The timestamps that the calendar can represent. */
  datatype Calendar = Calendar(first: int, last: int) {
    predicate Valid() {
      -U63_LIMIT <= first <= 0 <= last < U63_LIMIT
    }
  }

  /** The cast `as i64` wraps around. */
  function AsI64(n: U64): int {
    if n < U63_LIMIT then n else n - U64_LIMIT
  }

  function Stamped(key: DelegatedKey): seq<Extension> {
    [DegradedExt(true)]
    + (if key.role.Some? then [RoleExt(key.role.value)] else [])
    + (if key.ordinal.Some? then [OrdinalExt(key.ordinal.value)] else [])
  }

  datatype Scope = Matched(uri: Str) | Unmatched(error: Error)

  /** The scope check: exactly one name, a SPIFFE URI that parses to the key's target. */
  function CheckScope(key: DelegatedKey, csr: Csr): Scope {
    if csr.None? || |csr.value| != 1 || !csr.value[0].Uri? || !(SCHEME <= csr.value[0].uri)
    then Unmatched(InvalidFormatError)
    else match Parse(csr.value[0].uri)
      case Ok(id) => if id == key.target then Matched(csr.value[0].uri) else Unmatched(TargetSvidMismatch)
      case _ => Unmatched(InvalidFormatError)
  }

  /** The validity window, and the signature. */
  function SignFor(key: DelegatedKey, uri: Str, validity: U64, now: U64, calendar: Calendar, signs: bool): Outcome
    requires now < key.expiresAt
  {
    if validity > key.expiresAt - now then Refused(ValidityOverrun) else
    var notBefore := AsI64(now);
    if !(calendar.first <= notBefore <= calendar.last) then Refused(InvalidFormatError) else
    var notAfter := notBefore + AsI64(validity);
    if !(calendar.first <= notAfter <= calendar.last) then Panics
    else if !signs then Refused(ValidationFailed)
    else Signed(LeafCert(uri, Stamped(key), notBefore, notAfter))
  }

  function SignWithin(key: DelegatedKey, scope: Scope, validity: U64, now: U64, calendar: Calendar, signs: bool): Outcome {
    if key.expiresAt <= now then Refused(DelegationKeyExpired) else
    match scope
    case Unmatched(error) => Refused(error)
    case Matched(uri) => SignFor(key, uri, validity, now, calendar, signs)
  }

  function Sign(key: DelegatedKey, csr: Csr, validity: U64, now: U64, calendar: Calendar, signs: bool): Outcome {
    SignWithin(key, CheckScope(key, csr), validity, now, calendar, signs)
  }

  /** Exactly one name, a `spiffe://` URI, and the key's target once parsed. */
  method MatchScope(key: DelegatedKey, csr: Csr) returns (scope: Scope)
    ensures scope == CheckScope(key, csr)
  {
    if csr.None? || |csr.value| != 1 { return Unmatched(InvalidFormatError); }
    var san := csr.value[0];
    if !san.Uri? { return Unmatched(InvalidFormatError); }
    if !(SCHEME <= san.uri) { return Unmatched(InvalidFormatError); }
    var parsed := Parse(san.uri);
    if !parsed.Ok? { return Unmatched(InvalidFormatError); }
    if parsed.id != key.target { return Unmatched(TargetSvidMismatch); }
    scope := Matched(san.uri);
  }

  /** Pushes the key's extensions onto the certificate's list. */
  method PushExtensions(key: DelegatedKey) returns (extensions: seq<Extension>)
    ensures extensions == Stamped(key)
  {
    extensions := [DegradedExt(true)];
    if key.role.Some? {
      extensions := extensions + [RoleExt(key.role.value)];
    }
    if key.ordinal.Some? {
      extensions := extensions + [OrdinalExt(key.ordinal.value)];
    }
  }

  method SignSvidDelegated(key: DelegatedKey, csr: Csr, validity: U64, now: U64, calendar: Calendar, signs: bool)
    returns (r: Outcome)
    ensures r == Sign(key, csr, validity, now, calendar, signs)
  {
    if key.expiresAt <= now { return Refused(DelegationKeyExpired); }
    var scope := MatchScope(key, csr);
    if scope.Unmatched? { return Refused(scope.error); }
    var remaining := key.expiresAt - now;
    if validity > remaining { return Refused(ValidityOverrun); }
    var validitySecs := if validity < remaining then validity else remaining;
    var extensions := PushExtensions(key);
    var notBefore := AsI64(now);
    if !(calendar.first <= notBefore <= calendar.last) { return Refused(InvalidFormatError); }
    var notAfter := notBefore + AsI64(validitySecs);
    if !(calendar.first <= notAfter <= calendar.last) { return Panics; }
    if !signs { return Refused(ValidationFailed); }
    r := Signed(LeafCert(scope.uri, extensions, notBefore, notAfter));
  }

  // ----- What one renewal guarantees -----

  /** Comparing parsed identities is comparing bytes: the request names the printed target. */
  lemma ScopeIsByteExact(key: DelegatedKey, csr: Csr)
    ensures CheckScope(key, csr).Matched? <==>
            csr == Some([Uri(Print(key.target))]) && RoundTrips(key.target)
    ensures CheckScope(key, csr).Matched? ==> CheckScope(key, csr).uri == Print(key.target)
  {
    var printed := Print(key.target);
    ParsePrinted(key.target);
    if CheckScope(key, csr).Matched? {
      PrintParsed(csr.value[0].uri);
      ParsedRoundTrips(csr.value[0].uri);
      assert csr.value == [csr.value[0]];
    }
    assert SCHEME <= printed;
  }

  /** The window lies inside the key's remaining life. */
  predicate InsideWindow(leaf: LeafCert, key: DelegatedKey, now: U64) {
    now <= leaf.notBefore <= leaf.notAfter <= key.expiresAt
  }

  /**
    A renewal is signed for the printed target only, with the key's own extensions only, and
    its window lies inside [now, expiry] exactly when neither cast to `i64` wraps around.
   */
  lemma SignedStaysInScope(key: DelegatedKey, csr: Csr, validity: U64, now: U64, calendar: Calendar, signs: bool)
    requires Sign(key, csr, validity, now, calendar, signs).Signed?
    ensures var leaf := Sign(key, csr, validity, now, calendar, signs).leaf;
            && csr == Some([Uri(Print(key.target))])
            && leaf.uri == Print(key.target) && Parse(leaf.uri) == Ok(key.target)
            && leaf.extensions == Stamped(key)
            && (now < U63_LIMIT && validity < U63_LIMIT ==> leaf.notBefore == now && leaf.notAfter == now + validity)
            && (InsideWindow(leaf, key, now) <==> now < U63_LIMIT && validity < U63_LIMIT)
  {
    SignedWithin(key, CheckScope(key, csr), validity, now, calendar, signs);
    ScopeIsByteExact(key, csr);
    ParsePrinted(key.target);
  }

  lemma SignedWithin(key: DelegatedKey, scope: Scope, validity: U64, now: U64, calendar: Calendar, signs: bool)
    requires SignWithin(key, scope, validity, now, calendar, signs).Signed?
    ensures var leaf := SignWithin(key, scope, validity, now, calendar, signs).leaf;
            && scope.Matched? && leaf.uri == scope.uri && leaf.extensions == Stamped(key)
            && (now < U63_LIMIT && validity < U63_LIMIT ==> leaf.notBefore == now && leaf.notAfter == now + validity)
            && (InsideWindow(leaf, key, now) <==> now < U63_LIMIT && validity < U63_LIMIT)
  {
  }

  /** Requests with valid clocks succeed exactly when the scope and the life of the key allow it. */
  lemma SignsExactlyInScope(key: DelegatedKey, csr: Csr, validity: U64, now: U64, calendar: Calendar)
    requires calendar.Valid() && now + validity <= calendar.last
    ensures Sign(key, csr, validity, now, calendar, true).Signed? <==>
            && csr == Some([Uri(Print(key.target))])
            && RoundTrips(key.target)
            && now < key.expiresAt && now + validity <= key.expiresAt
  {
    ScopeIsByteExact(key, csr);
    SignsExactlyInLife(key, CheckScope(key, csr), validity, now, calendar);
  }

  lemma SignsExactlyInLife(key: DelegatedKey, scope: Scope, validity: U64, now: U64, calendar: Calendar)
    requires calendar.Valid() && now + validity <= calendar.last
    ensures SignWithin(key, scope, validity, now, calendar, true).Signed? <==>
            scope.Matched? && now < key.expiresAt && now + validity <= key.expiresAt
  {
  }

  /** A clock beyond 2^63 is cast to a time before 1970. */
  lemma WrappedClock(key: DelegatedKey, calendar: Calendar)
    requires key.expiresAt == U64_LIMIT - 1 && RoundTrips(key.target)
    requires calendar.Valid() && calendar.first < -2
    ensures var now: U64 := U64_LIMIT - 2;
            Sign(key, Some([Uri(Print(key.target))]), 0, now, calendar, true) ==
            Signed(LeafCert(Print(key.target), Stamped(key), -2, -2))
  {
    ScopeIsByteExact(key, Some([Uri(Print(key.target))]));
  }

  // ----- Every sequence of renewals -----

  datatype Request = Request(csr: Csr, validity: U64, now: U64, signs: bool)

  /** The certificates issued over a sequence of requests with one key. */
  function Issued(key: DelegatedKey, requests: seq<Request>, calendar: Calendar): seq<LeafCert> {
    if requests == [] then [] else
    var q := requests[0];
    var outcome := Sign(key, q.csr, q.validity, q.now, calendar, q.signs);
    (if outcome.Signed? then [outcome.leaf] else []) + Issued(key, requests[1..], calendar)
  }

  predicate RealClock(q: Request) {
    q.now < U63_LIMIT && q.validity < U63_LIMIT
  }

  /** The request that this very certificate was issued for, and what it asked for. */
  predicate IssuedFor(leaf: LeafCert, key: DelegatedKey, q: Request, calendar: Calendar) {
    && Sign(key, q.csr, q.validity, q.now, calendar, q.signs) == Signed(leaf)
    && q.csr == Some([Uri(leaf.uri)])
    && q.now < key.expiresAt
    && (RealClock(q) ==> leaf.notBefore == q.now && leaf.notAfter == q.now + q.validity)
    && (InsideWindow(leaf, key, q.now) <==> RealClock(q))
  }

  ghost predicate InScope(leaf: LeafCert, key: DelegatedKey, requests: seq<Request>, calendar: Calendar) {
    && leaf.uri == Print(key.target)
    && Parse(leaf.uri) == Ok(key.target)
    && leaf.extensions == Stamped(key)
    && exists q | q in requests :: IssuedFor(leaf, key, q, calendar)
  }

  /**
    Every certificate that one key ever issues was signed for one of its requests, names the
    target, and lies inside the key's life exactly if that request's clock did not wrap.
   */
  lemma {:induction false} IssuedStayInScope(key: DelegatedKey, requests: seq<Request>, calendar: Calendar)
    ensures forall leaf | leaf in Issued(key, requests, calendar) :: InScope(leaf, key, requests, calendar)
  {
    if requests == [] {
    } else {
      var q := requests[0];
      IssuedStayInScope(key, requests[1..], calendar);
      forall leaf | leaf in Issued(key, requests, calendar)
        ensures InScope(leaf, key, requests, calendar)
      {
        if leaf in Issued(key, requests[1..], calendar) {
          assert InScope(leaf, key, requests[1..], calendar);
        } else {
          SignedStaysInScope(key, q.csr, q.validity, q.now, calendar, q.signs);
          assert IssuedFor(leaf, key, q, calendar);
        }
      }
    }
  }

  /** A key whose target does not round-trip never issues anything. */
  lemma {:induction false} UnprintableTargetIssuesNothing(key: DelegatedKey, requests: seq<Request>, calendar: Calendar)
    requires !RoundTrips(key.target)
    ensures Issued(key, requests, calendar) == []
  {
    if requests == [] {
    } else {
      ScopeIsByteExact(key, requests[0].csr);
      UnprintableTargetIssuesNothing(key, requests[1..], calendar);
    }
  }

  // ----- What the readers see -----

  predicate Encodable(e: Extension) {
    e.RoleExt? ==> |e.role| < U32_LIMIT - 200
  }

  /** The encoded extension; one too long to encode has no bytes. */
  function ExtensionBytes(e: Extension): Str {
    if !Encodable(e) then [] else
    match e
    case DegradedExt(value) => ExtensionDer(DEGRADED_OID, DegradedValue(value))
    case RoleExt(role) => ExtensionDer(ROLE_OID, RoleValue(role))
    case OrdinalExt(ordinal) => ExtensionDer(ORDINAL_OID, OrdinalValue(ordinal))
  }

  function Flatten(es: seq<Extension>, bytes: Extension -> Str): Str {
    if es == [] then [] else bytes(es[0]) + Flatten(es[1..], bytes)
  }

  /** The extensions come one behind the other, in the order they were pushed. */
  lemma FlattenStamped(key: DelegatedKey, bytes: Extension -> Str)
    ensures Flatten(Stamped(key), bytes) ==
            bytes(DegradedExt(true))
            + (if key.role.Some? then bytes(RoleExt(key.role.value)) else [])
            + (if key.ordinal.Some? then bytes(OrdinalExt(key.ordinal.value)) else [])
  {
    var last := if key.ordinal.Some? then [OrdinalExt(key.ordinal.value)] else [];
    assert Flatten(last, bytes) == if key.ordinal.Some? then bytes(OrdinalExt(key.ordinal.value)) else [] by {
      if key.ordinal.Some? { assert last[1..] == []; }
    }
    var es := Stamped(key);
    assert es[0] == DegradedExt(true);
    if key.role.Some? {
      assert es[1..][0] == RoleExt(key.role.value) && es[1..][1..] == last;
    } else {
      assert es[1..] == last;
    }
  }

  /** The certificate readers return the key's role and ordinal from a renewed certificate. */
  lemma RenewedReadsAsScoped(key: DelegatedKey, before: Str, after: Str)
    requires CleanBefore(before) && (key.role.None? || key.ordinal.None? ==> CleanAfter(after))
    requires key.role.Some? ==> IsRole(key.role.value) && |key.role.value| <= 0xFFFF
    ensures var cert := before + Flatten(Stamped(key), ExtensionBytes) + after;
            && DegradedIn(cert)
            && RoleIn(cert) == key.role
            && OrdinalIn(cert) == (if key.ordinal == None || key.ordinal.value >= 0x8000_0000 then None else key.ordinal)
  {
    FlattenStamped(key, ExtensionBytes);
    Ungroup(before, ExtensionBytes(DegradedExt(true)),
            RoleExtension(key.role), OrdinalExtension(key.ordinal), after);
    StampReadsBack(before, true, key.role, key.ordinal, after);
  }

  lemma Ungroup(b: Str, d: Str, r: Str, o: Str, a: Str)
    ensures b + (d + r + o) + a == b + d + r + o + a
  {
    assert b + (d + r + o) == b + d + r + o;
  }

  // ----- Every refusal -----

  /** The one name of a request, if it has exactly one and that is a `spiffe://` URI which parses. */
  function NamedBy(csr: Csr): Option<SpiffeId> {
    if csr.Some? && |csr.value| == 1 && csr.value[0].Uri? && Parse(csr.value[0].uri).Ok?
    then Some(Parse(csr.value[0].uri).id) else None
  }

  lemma ScopeErrors(key: DelegatedKey, csr: Csr)
    ensures CheckScope(key, csr).Matched? <==> NamedBy(csr) == Some(key.target)
    ensures CheckScope(key, csr) == Unmatched(TargetSvidMismatch) <==> NamedBy(csr).Some? && NamedBy(csr) != Some(key.target)
    ensures CheckScope(key, csr) == Unmatched(InvalidFormatError) <==> NamedBy(csr).None?
  {
  }

  /**
    The checks in their order: an expired key, a request that names no identity or another one,
    and a validity that outlives the key.
   */
  lemma RefusedExactly(key: DelegatedKey, csr: Csr, validity: U64, now: U64, calendar: Calendar, signs: bool)
    ensures var r := Sign(key, csr, validity, now, calendar, signs);
            && (r == Refused(DelegationKeyExpired) <==> key.expiresAt <= now)
            && (r == Refused(TargetSvidMismatch) <==>
                  now < key.expiresAt && NamedBy(csr).Some? && NamedBy(csr).value != key.target)
            && (r == Refused(ValidityOverrun) <==>
                  now < key.expiresAt && NamedBy(csr) == Some(key.target) && now + validity > key.expiresAt)
            && (now < key.expiresAt && NamedBy(csr).None? ==> r == Refused(InvalidFormatError))
  {
    ScopeErrors(key, csr);
  }

  /** Behind the checks: the dates and the signature. */
  predicate Granted(key: DelegatedKey, csr: Csr, validity: U64, now: U64) {
    now < key.expiresAt && NamedBy(csr) == Some(key.target) && now + validity <= key.expiresAt
  }

  /** With times below 2^63, the calendar and the signature decide a granted request. */
  lemma GrantedExactly(key: DelegatedKey, csr: Csr, validity: U64, now: U64, calendar: Calendar, signs: bool)
    requires Granted(key, csr, validity, now) && now < U63_LIMIT && validity < U63_LIMIT
    ensures Sign(key, csr, validity, now, calendar, signs) ==
            if !(calendar.first <= now <= calendar.last) then Refused(InvalidFormatError)
            else if !(calendar.first <= now + validity <= calendar.last) then Panics
            else if !signs then Refused(ValidationFailed)
            else Signed(LeafCert(Print(key.target), Stamped(key), now, now + validity))
  {
    ScopeErrors(key, csr);
    ScopeIsByteExact(key, csr);
    GrantedFor(key, Print(key.target), validity, now, calendar, signs);
  }

  lemma GrantedFor(key: DelegatedKey, uri: Str, validity: U64, now: U64, calendar: Calendar, signs: bool)
    requires now < key.expiresAt && now + validity <= key.expiresAt && now < U63_LIMIT && validity < U63_LIMIT
    ensures SignWithin(key, Matched(uri), validity, now, calendar, signs) ==
            if !(calendar.first <= now <= calendar.last) then Refused(InvalidFormatError)
            else if !(calendar.first <= now + validity <= calendar.last) then Panics
            else if !signs then Refused(ValidationFailed)
            else Signed(LeafCert(uri, Stamped(key), now, now + validity))
  {
  }

  /** A leaf carries the degraded marker first, then the role and the ordinal of the key, if it has them. */
  lemma StampedInOrder(key: DelegatedKey)
    ensures Stamped(key) ==
            if key.role.Some? && key.ordinal.Some?
            then [DegradedExt(true), RoleExt(key.role.value), OrdinalExt(key.ordinal.value)]
            else if key.role.Some? then [DegradedExt(true), RoleExt(key.role.value)]
            else if key.ordinal.Some? then [DegradedExt(true), OrdinalExt(key.ordinal.value)]
            else [DegradedExt(true)]
  {
  }
}
