/** The canonical hostname `{service}.{role}.{tenant}.svc.{trust_domain}`. */
module Naming {
  import opened Bytes

  const DOT: Byte := 0x2E
  const HYPHEN: Byte := 0x2D
  const SVC: Str := [0x73, 0x76, 0x63]

  datatype NamingError = EmptyLabel | UnsafeLabel(part: Str) | LabelTooLong(part: Str)
  datatype Named = Ok(hostname: Str) | Err(error: NamingError)

  function LowerByte(b: Byte): Byte {
    if 0x41 <= b <= 0x5A then b + 0x20 else b
  }

  /** `to_ascii_lowercase` */
  function Lower(s: Str): (r: Str)
    ensures |r| == |s| && forall i | 0 <= i < |s| :: r[i] == LowerByte(s[i])
  {
    seq(|s|, i requires 0 <= i < |s| => LowerByte(s[i]))
  }

  predicate SafeByte(b: Byte) {
    0x61 <= b <= 0x7A || 0x30 <= b <= 0x39 || b == HYPHEN
  }

  /** A label of section 2.3.1 of RFC 1035, in lower case, that may start with a digit. */
  predicate IsLabel(part: Str) {
    && 1 <= |part| <= 63
    && (forall b | b in part :: SafeByte(b))
    && part[0] != HYPHEN && part[|part| - 1] != HYPHEN
  }

  function ValidateLabel(part: Str): Option<NamingError> {
    if part == [] then Some(EmptyLabel)
    else if |part| > 63 then Some(LabelTooLong(part))
    else if (forall b | b in part :: SafeByte(b)) && part[0] != HYPHEN && part[|part| - 1] != HYPHEN then None
    else Some(UnsafeLabel(part))
  }

  function ValidateAll(labels: seq<Str>): Option<NamingError> {
    if labels == [] then None
    else if ValidateLabel(labels[0]).Some? then ValidateLabel(labels[0])
    else ValidateAll(labels[1..])
  }

  function FirstDot(s: Str): (n: nat)
    ensures n <= |s| && DOT !in s[..n] && (n < |s| ==> s[n] == DOT)
  {
    if s == [] || s[0] == DOT then 0 else
    var n := 1 + FirstDot(s[1..]);
    assert s[..n] == [s[0]] + s[1..][..n - 1];
    n
  }

  /** `split('.')`: always at least one piece. */
  function SplitDots(s: Str): seq<Str>
    decreases |s|
  {
    var n := FirstDot(s);
    if n == |s| then [s] else [s[..n]] + SplitDots(s[n + 1..])
  }

  function Assemble(service: Str, role: Str, tenant: Str, trustDomain: Str): Str {
    service + [DOT] + (role + [DOT] + (tenant + [DOT] + (SVC + [DOT] + trustDomain)))
  }

  /** `dummy_ip_hostname` */
  function Hostname(service: Str, role: Str, tenant: Str, trustDomain: Str): Named {
    var s, r, t, d := Lower(service), Lower(role), Lower(tenant), Lower(trustDomain);
    match ValidateAll([s, r, t])
    case Some(e) => Err(e)
    case None =>
      if d == [] then Err(EmptyLabel) else
      match ValidateAll(SplitDots(d))
      case Some(e) => Err(e)
      case None => Ok(Assemble(s, r, t, d))
  }

  ghost predicate AllLabels(labels: seq<Str>) {
    forall l | l in labels :: IsLabel(l)
  }

  lemma {:induction false} ValidateAllExactly(labels: seq<Str>)
    ensures ValidateAll(labels).None? <==> AllLabels(labels)
  {
    if labels == [] {
    } else {
      ValidateAllExactly(labels[1..]);
      assert labels[0] in labels;
      assert forall l | l in labels :: l == labels[0] || l in labels[1..];
    }
  }

  /** A name is accepted exactly when every label of it, in lower case, is one of the RFC's. */
  lemma AcceptedExactly(service: Str, role: Str, tenant: Str, trustDomain: Str)
    ensures Hostname(service, role, tenant, trustDomain).Ok? <==>
            AllLabels([Lower(service), Lower(role), Lower(tenant)] + SplitDots(Lower(trustDomain)))
  {
    var first, d := [Lower(service), Lower(role), Lower(tenant)], Lower(trustDomain);
    ValidateAllExactly(first);
    ValidateAllExactly(SplitDots(d));
    assert forall l :: l in first + SplitDots(d) <==> l in first || l in SplitDots(d);
    if d == [] { assert SplitDots(d) == [[]] && [] in SplitDots(d); }
  }

  lemma FirstDotAt(a: Str, b: Str)
    requires DOT !in a
    ensures FirstDot(a + [DOT] + b) == |a|
  {
    var s := a + [DOT] + b;
    var n := FirstDot(s);
    assert s[|a|] == DOT;
    assert forall i | 0 <= i < |a| :: s[i] == a[i];
    assert n <= |a| by { assert forall i | 0 <= i < n :: s[i] == s[..n][i]; }
  }

  lemma SplitFirst(a: Str, b: Str)
    requires DOT !in a
    ensures SplitDots(a + [DOT] + b) == [a] + SplitDots(b)
  {
    var s := a + [DOT] + b;
    FirstDotAt(a, b);
    assert s[..|a|] == a && s[|a| + 1..] == b;
  }

  lemma SplitTwo(a: Str, b: Str, rest: Str, tail: Str)
    requires DOT !in a && DOT !in b && tail == b + [DOT] + rest
    ensures SplitDots(a + [DOT] + tail) == [a, b] + SplitDots(rest)
  {
    SplitFirst(b, rest);
    SplitFirst(a, tail);
  }

  lemma SplitFour(a: Str, b: Str, c: Str, d: Str, rest: Str, tail: Str)
    requires DOT !in a && DOT !in b && DOT !in c && DOT !in d && tail == c + [DOT] + (d + [DOT] + rest)
    ensures SplitDots(a + [DOT] + (b + [DOT] + tail)) == [a, b] + ([c, d] + SplitDots(rest))
  {
    SplitTwo(c, d, rest, d + [DOT] + rest);
    SplitTwo(a, b, tail, b + [DOT] + tail);
  }

  lemma AssembledSplits(s: Str, r: Str, t: Str, d: Str)
    requires DOT !in s && DOT !in r && DOT !in t
    ensures SplitDots(Assemble(s, r, t, d)) == [s, r, t, SVC] + SplitDots(d)
  {
    SplitFour(s, r, t, SVC, d, t + [DOT] + (SVC + [DOT] + d));
    FourLabels([s, r], [t, SVC], SplitDots(d));
  }

  lemma FourLabels(a: seq<Str>, b: seq<Str>, c: seq<Str>)
    ensures a + (b + c) == (a + b) + c
  {
  }

  /** Splitting an accepted name gives its four labels and those of the trust domain. */
  lemma HostnameSplits(service: Str, role: Str, tenant: Str, trustDomain: Str)
    requires Hostname(service, role, tenant, trustDomain).Ok?
    ensures var labels := SplitDots(Hostname(service, role, tenant, trustDomain).hostname);
            && labels == [Lower(service), Lower(role), Lower(tenant), SVC] + SplitDots(Lower(trustDomain))
            && AllLabels(labels)
  {
    AcceptedExactly(service, role, tenant, trustDomain);
    LabelsSplit(Lower(service), Lower(role), Lower(tenant), Lower(trustDomain));
  }

  lemma LabelsSplit(s: Str, r: Str, t: Str, d: Str)
    requires AllLabels([s, r, t] + SplitDots(d))
    ensures SplitDots(Assemble(s, r, t, d)) == [s, r, t, SVC] + SplitDots(d)
    ensures AllLabels([s, r, t, SVC] + SplitDots(d))
  {
    var all := [s, r, t] + SplitDots(d);
    assert s == all[0] && r == all[1] && t == all[2];
    assert IsLabel(s) && IsLabel(r) && IsLabel(t) && IsLabel(SVC);
    AssembledSplits(s, r, t, d);
    forall l | l in [s, r, t, SVC] + SplitDots(d) ensures IsLabel(l) {
      assert l == SVC || l in all;
    }
  }

  lemma {:induction false} SplitInjective(s: Str, t: Str)
    requires SplitDots(s) == SplitDots(t)
    ensures s == t
    decreases |s|
  {
    SplitLength(s);
    SplitLength(t);
    var n := FirstDot(s);
    assert SplitDots(s)[0] == SplitDots(t)[0];
    assert n == FirstDot(t);
    if n == |s| {
    } else {
      SplitInjective(SplitTail(s), SplitTail(t));
      assert s == s[..n] + [DOT] + SplitTail(s) && t == t[..n] + [DOT] + SplitTail(t);
    }
  }

  function SplitTail(s: Str): (r: Str)
    requires FirstDot(s) < |s|
    ensures |r| < |s| && SplitDots(r) == SplitDots(s)[1..]
  {
    s[FirstDot(s) + 1..]
  }

  lemma SplitLength(s: Str)
    ensures |SplitDots(s)| >= 1 && (|SplitDots(s)| == 1 <==> FirstDot(s) == |s|)
    ensures SplitDots(s)[0] == s[..FirstDot(s)]
    decreases |s|
  {
    if FirstDot(s) < |s| { SplitLength(s[FirstDot(s) + 1..]); }
  }

  /** Accepted names are equal exactly when all four parts agree up to the case of letters. */
  lemma SameHostnameExactly(s: Str, r: Str, t: Str, d: Str, s': Str, r': Str, t': Str, d': Str)
    requires Hostname(s, r, t, d).Ok? && Hostname(s', r', t', d').Ok?
    ensures Hostname(s, r, t, d) == Hostname(s', r', t', d') <==>
            Lower(s) == Lower(s') && Lower(r) == Lower(r') && Lower(t) == Lower(t') && Lower(d) == Lower(d')
  {
    if Hostname(s, r, t, d) == Hostname(s', r', t', d') {
      HostnameSplits(s, r, t, d);
      HostnameSplits(s', r', t', d');
      var a := [Lower(s), Lower(r), Lower(t), SVC] + SplitDots(Lower(d));
      var b := [Lower(s'), Lower(r'), Lower(t'), SVC] + SplitDots(Lower(d'));
      assert a == b;
      assert a[0] == b[0] && a[1] == b[1] && a[2] == b[2] && a[4..] == b[4..];
      SplitInjective(Lower(d), Lower(d'));
    }
  }

  // ----- The alphabet and the errors -----

  /** Exactly the capital letters change, each into the small letter at its place in the alphabet. */
  lemma LowerExactly(b: Byte)
    ensures 'A' as int <= b <= 'Z' as int ==> LowerByte(b) - 'a' as int == b - 'A' as int
    ensures !('A' as int <= b <= 'Z' as int) ==> LowerByte(b) == b
  {
  }

  /** The safe bytes are the small letters, the digits and the hyphen. */
  lemma SafeExactly(b: Byte)
    ensures SafeByte(b) <==>
            || 'a' as int <= b <= 'z' as int
            || '0' as int <= b <= '9' as int
            || b == '-' as int
  {
  }

  /** All labels of a name, in the order in which they are validated. */
  function LabelsOf(service: Str, role: Str, tenant: Str, trustDomain: Str): seq<Str> {
    [Lower(service), Lower(role), Lower(tenant)] + SplitDots(Lower(trustDomain))
  }

  /** The error of a string that is no label. */
  predicate ErrorOf(part: Str, e: NamingError) {
    match e
    case EmptyLabel => |part| == 0
    case LabelTooLong(p) => p == part && |part| >= 64
    case UnsafeLabel(p) => p == part && 1 <= |part| <= 63 && !IsLabel(part)
  }

  /** The first string that is no label decides the error. */
  ghost predicate FirstError(labels: seq<Str>, e: NamingError) {
    exists k :: 0 <= k < |labels| && ErrorOf(labels[k], e) && forall j | 0 <= j < k :: IsLabel(labels[j])
  }

  lemma {:induction false} ValidateAllError(labels: seq<Str>)
    ensures ValidateAll(labels).Some? ==> FirstError(labels, ValidateAll(labels).value)
  {
    if labels == [] {
    } else if ValidateLabel(labels[0]).Some? {
      assert ErrorOf(labels[0], ValidateLabel(labels[0]).value);
    } else {
      ValidateAllError(labels[1..]);
      if ValidateAll(labels).Some? {
        var e := ValidateAll(labels).value;
        var k :| 0 <= k < |labels[1..]| && ErrorOf(labels[1..][k], e) && forall j | 0 <= j < k :: IsLabel(labels[1..][j]);
        assert ErrorOf(labels[k + 1], e);
        assert forall j | 0 <= j < k + 1 :: j > 0 ==> labels[j] == labels[1..][j - 1];
      }
    }
  }

  lemma {:induction false} ValidateAllJoined(a: seq<Str>, b: seq<Str>)
    ensures ValidateAll(a + b) == if ValidateAll(a).Some? then ValidateAll(a) else ValidateAll(b)
  {
    if a == [] {
      assert a + b == b;
    } else {
      assert (a + b)[1..] == a[1..] + b;
      ValidateAllJoined(a[1..], b);
    }
  }

  /** A refused name is refused for the first of its labels that is none. */
  lemma RefusedForFirst(service: Str, role: Str, tenant: Str, trustDomain: Str)
    ensures var r := Hostname(service, role, tenant, trustDomain);
            r.Err? ==> FirstError(LabelsOf(service, role, tenant, trustDomain), r.error)
  {
    var first, d := [Lower(service), Lower(role), Lower(tenant)], Lower(trustDomain);
    ValidateAllJoined(first, SplitDots(d));
    ValidateAllError(first + SplitDots(d));
    if d == [] {
      assert SplitDots(d) == [[]];
      assert ValidateAll([[]]) == Some(EmptyLabel);
    }
  }

  /** An accepted name is `{service}.{role}.{tenant}.svc.{trust_domain}` in lower case. */
  lemma HostnameSpelled(service: Str, role: Str, tenant: Str, trustDomain: Str)
    requires Hostname(service, role, tenant, trustDomain).Ok?
    ensures Hostname(service, role, tenant, trustDomain).hostname ==
            Lower(service) + Ascii(".") + Lower(role) + Ascii(".") + Lower(tenant) + Ascii(".svc.") + Lower(trustDomain)
  {
    var s, r, t, d := Lower(service), Lower(role), Lower(tenant), Lower(trustDomain);
    assert Ascii(".") == [DOT] && Ascii(".svc.") == [DOT] + SVC + [DOT];
    Flat(s, [DOT], r, t, SVC, d);
  }

  lemma Flat(s: Str, dot: Str, r: Str, t: Str, svc: Str, d: Str)
    ensures s + dot + (r + dot + (t + dot + (svc + dot + d))) == s + dot + r + dot + t + (dot + svc + dot) + d
  {
    var x := t + dot + (svc + dot + d);
    assert x == t + (dot + svc + dot) + d;
    assert s + dot + (r + dot + x) == s + dot + r + dot + x;
  }

  predicate LetterOrDigit(b: Byte) {
    'a' as int <= b <= 'z' as int || '0' as int <= b <= '9' as int
  }

  /** A label is a letter or digit, or two of them with at most 61 letters, digits and hyphens between. */
  lemma LabelGrammar(part: Str)
    ensures IsLabel(part) <==>
            || (|part| == 1 && LetterOrDigit(part[0]))
            || (&& 2 <= |part| <= 63 && LetterOrDigit(part[0]) && LetterOrDigit(part[|part| - 1])
                && forall i | 1 <= i < |part| - 1 :: LetterOrDigit(part[i]) || part[i] == '-' as int)
  {
    assert forall i | 0 <= i < |part| :: part[i] in part;
  }
}
