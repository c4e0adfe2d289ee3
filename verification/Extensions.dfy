/**
  The three FleetOS certificate extensions: what the signer stamps and what the readers
  find by scanning the certificate's bytes for the extension's OID.

  A certificate is the encoded extensions between arbitrary bytes. An extension is encoded
  as section 4.1 of RFC 5280 prescribes: a SEQUENCE of the OID and, without a critical
  flag, an OCTET STRING.
 */
module Extensions {
  import opened Bytes
  import opened Utf8
  import opened Der

  const ROLE_OID: Str := [0x2B, 0x06, 0x01, 0x04, 0x01, 0x84, 0x88, 0x01, 0x01, 0x01]
  const DEGRADED_OID: Str := [0x2B, 0x06, 0x01, 0x04, 0x01, 0x84, 0x88, 0x01, 0x01, 0x02]
  const ORDINAL_OID: Str := [0x2B, 0x06, 0x01, 0x04, 0x01, 0x84, 0x88, 0x01, 0x01, 0x03]

  predicate FleetOid(oid: Str) {
    oid == ROLE_OID || oid == DEGRADED_OID || oid == ORDINAL_OID
  }

  const OBJECT_ID: Byte := 0x06
  const OCTET_STRING: Byte := 0x04
  const BOOLEAN: Byte := 0x01
  const UTF8_STRING: Byte := 0x0C
  const PRINTABLE_STRING: Byte := 0x13

  // ----- Writers -----

  function RoleValue(role: Str): Str
    requires |role| < U64_LIMIT
  {
    [UTF8_STRING] + DerLenPrefix(|role|) + role
  }

  function DegradedValue(degraded: bool): Str {
    [BOOLEAN, 0x01, if degraded then 0xFF else 0x00]
  }

  /** The shortest positive INTEGER: no leading zeros but the one that keeps it positive. */
  function OrdinalBody(ordinal: U32): (s: Str)
    ensures 0 < |s| <= 5
  {
    SignPad(StripZeros(BeU32(ordinal)))
  }

  function OrdinalValue(ordinal: U32): Str {
    [INTEGER, |OrdinalBody(ordinal)|] + OrdinalBody(ordinal)
  }

  /**
    `ordinal_extension`: skips a zero byte only while the next byte keeps the number positive,
    and pads afterwards.
   */
  method WriteOrdinal(ordinal: U32) returns (value: Str)
    ensures value == OrdinalValue(ordinal)
  {
    var bytes := BeU32(ordinal);
    var start := 0;
    while start < 3 && bytes[start] == 0 && bytes[start + 1] < 0x80
      invariant 0 <= start <= 3
      invariant StripZeros(bytes[start..]) == StripZeros(bytes)
      invariant start > 0 ==> bytes[start] < 0x80
    {
      assert bytes[start..][1..] == bytes[start + 1..];
      start := start + 1;
    }
    var significant := bytes[start..];
    var pad := significant[0] >= 0x80;
    var len := |significant| + (if pad then 1 else 0);
    value := [INTEGER, len];
    if pad {
      value := value + [0];
    }
    value := value + significant;
    if start < 3 && bytes[start] == 0 {
      assert significant[1..][0] >= 0x80;
      assert StripZeros(significant) == significant[1..];
      assert significant == [0] + significant[1..];
    }
  }

  /** An encoded extension. */
  function ExtensionDer(oid: Str, value: Str): Str
    requires |oid| == 10 && |value| < U32_LIMIT - 100
  {
    ExtensionSizes(oid, value);
    Tlv(SEQUENCE, Tlv(OBJECT_ID, oid) + Tlv(OCTET_STRING, value))
  }

  lemma ExtensionSizes(oid: Str, value: Str)
    requires |oid| == 10 && |value| < U32_LIMIT - 100
    ensures |DerLen(|value|)| <= 5
    ensures |Tlv(OBJECT_ID, oid) + Tlv(OCTET_STRING, value)| < U32_LIMIT
    ensures |DerLen(|Tlv(OBJECT_ID, oid) + Tlv(OCTET_STRING, value)|)| <= 5
  {
    LengthWidth(|value|);
    LengthWidth(|Tlv(OBJECT_ID, oid) + Tlv(OCTET_STRING, value)|);
  }

  // ----- Readers -----

  predicate Occurs(s: Str, oid: Str, i: nat) {
    i + |oid| <= |s| && s[i..i + |oid|] == oid
  }

  /** Past a critical flag, if there is one; none if its length cannot be read. */
  function SkipCritical(cert: Str, j: nat): Option<nat> {
    if j < |cert| && cert[j] == BOOLEAN then
      var (len, consumed) :- ParseLen(cert[j + 1..]);
      Some(j + 1 + consumed + len)
    else Some(j)
  }

  /** The OCTET STRING that follows an OID ending at `j`. */
  function ValueAt(cert: Str, j: nat): Option<Str> {
    var k :- SkipCritical(cert, j);
    if k < |cert| && cert[k] == OCTET_STRING then
      var (len, consumed) :- ParseLen(cert[k + 1..]);
      var start := k + 1 + consumed;
      if start + len <= |cert| then Some(cert[start..start + len]) else None
    else None
  }

  /** The value after the first occurrence, from `i` on, that is followed by one. */
  function FindFrom(cert: Str, oid: Str, i: nat): Option<Str>
    decreases |cert| - i
  {
    if i + |oid| > |cert| then None
    else if Occurs(cert, oid, i) && ValueAt(cert, i + |oid|).Some? then ValueAt(cert, i + |oid|)
    else if i == |cert| then None
    else FindFrom(cert, oid, i + 1)
  }

  /** What the scan does at a match: skips the critical flag and takes the OCTET STRING. */
  method ReadValueAt(cert: Str, after: nat) returns (r: Option<Str>)
    ensures r == ValueAt(cert, after)
  {
    var j := after;
    if j < |cert| && cert[j] == BOOLEAN {
      var flag := ReadLength(cert[j + 1..]);
      if flag.None? {
        return None;
      }
      j := j + 1 + flag.value.1 + flag.value.0;
    }
    if j < |cert| && cert[j] == OCTET_STRING {
      var len := ReadLength(cert[j + 1..]);
      if len.Some? {
        var start := j + 1 + len.value.1;
        if start + len.value.0 <= |cert| {
          return Some(cert[start..start + len.value.0]);
        }
      }
    }
    r := None;
  }

  /** `find_oid_extension` */
  method FindOidExtension(cert: Str, oid: Str) returns (r: Option<Str>)
    ensures r == FindFrom(cert, oid, 0)
  {
    if |cert| < |oid| {
      return None;
    }
    for i := 0 to |cert| - |oid| + 1
      invariant FindFrom(cert, oid, i) == FindFrom(cert, oid, 0)
    {
      if cert[i..i + |oid|] == oid {
        r := ReadValueAt(cert, i + |oid|);
        if r.Some? {
          return;
        }
      }
    }
    r := None;
  }

  function RoleOf(value: Str): Option<Str> {
    var bytes :- match ParseTlv(value, UTF8_STRING)
                 case Some(s) => Some(s)
                 case None => ParseTlv(value, PRINTABLE_STRING);
    if ValidUtf8(bytes) && NulFree(bytes) then Some(bytes) else None
  }

  function RoleIn(cert: Str): Option<Str> {
    var value :- FindFrom(cert, ROLE_OID, 0);
    RoleOf(value)
  }

  method ExtractRole(cert: Str) returns (r: Option<Str>)
    ensures r == RoleIn(cert)
  {
    var value := FindOidExtension(cert, ROLE_OID);
    if value.None? {
      return None;
    }
    var bytes := ParseTlv(value.value, UTF8_STRING);
    if bytes.None? {
      bytes := ParseTlv(value.value, PRINTABLE_STRING);
    }
    if bytes.None? || !ValidUtf8(bytes.value) || !NulFree(bytes.value) {
      return None;
    }
    r := bytes;
  }

  function OrdinalOf(value: Str): Option<U32> {
    var bytes :- ParseTlv(value, INTEGER);
    if |bytes| > 4 then None else Some(FoldU32(bytes))
  }

  function OrdinalIn(cert: Str): Option<U32> {
    var value :- FindFrom(cert, ORDINAL_OID, 0);
    OrdinalOf(value)
  }

  method ExtractOrdinal(cert: Str) returns (r: Option<U32>)
    ensures r == OrdinalIn(cert)
  {
    var value := FindOidExtension(cert, ORDINAL_OID);
    if value.None? {
      return None;
    }
    var bytes := ParseTlv(value.value, INTEGER);
    if bytes.None? || |bytes.value| > 4 {
      return None;
    }
    var result: U32 := 0;
    for i := 0 to |bytes.value|
      invariant result == FoldU32(bytes.value[..i])
    {
      assert bytes.value[..i + 1][..i] == bytes.value[..i];
      result := (result * 256 + bytes.value[i]) % U32_LIMIT;
    }
    assert bytes.value[..|bytes.value|] == bytes.value;
    r := Some(result);
  }

  predicate DegradedBy(value: Str) {
    match ParseTlv(value, BOOLEAN)
    case Some(b) => b != [] && b[0] != 0
    case None => false
  }

  predicate DegradedIn(cert: Str) {
    match FindFrom(cert, DEGRADED_OID, 0)
    case Some(value) => DegradedBy(value)
    case None => false
  }

  method IsDegraded(cert: Str) returns (r: bool)
    ensures r == DegradedIn(cert)
  {
    var value := FindOidExtension(cert, DEGRADED_OID);
    if value.Some? {
      var bytes := ParseTlv(value.value, BOOLEAN);
      if bytes.Some? && |bytes.value| != 0 && bytes.value[0] != 0 {
        return true;
      }
    }
    r := false;
  }

  // ----- No occurrence but the extension's own -----

  /** No occurrence anywhere. */
  ghost predicate Free(s: Str, oid: Str) {
    forall i: nat :: !Occurs(s, oid, i)
  }

  /** Bytes that begin a SEQUENCE, as every extension and the signature after them do. */
  predicate StartsClean(s: Str) {
    s == [] || s[0] == SEQUENCE
  }

  /**
    Values in which an OID cannot begin or continue: too short to hold one, or without the
    bytes 04 01 84 in a row, and not starting with the last of them.
   */
  ghost predicate Quiet(v: Str) {
    || |v| <= 7
    || (&& v[0] != 0x84 && v[0] != 0x01
        && forall k | 0 <= k < |v| - 2 :: !(v[k] == 0x04 && v[k + 1] == 0x01 && v[k + 2] == 0x84))
  }

  lemma OccursByte(s: Str, oid: Str, i: nat, k: nat)
    requires Occurs(s, oid, i) && k < |oid|
    ensures s[i + k] == oid[k]
  {
    assert s[i..i + |oid|][k] == s[i + k];
  }

  /** No OID holds the byte that begins a SEQUENCE, so none straddles the start of one. */
  lemma OccursSplit(a: Str, b: Str, oid: Str, i: nat)
    requires FleetOid(oid) && StartsClean(b) && Occurs(a + b, oid, i)
    ensures Occurs(a, oid, i) || (i >= |a| && Occurs(b, oid, i - |a|))
  {
    if i + 10 <= |a| {
      assert (a + b)[i..i + 10] == a[i..i + 10];
    } else if i >= |a| {
      assert (a + b)[i..i + 10] == b[i - |a|..i - |a| + 10];
    } else {
      OccursByte(a + b, oid, i, |a| - i);
    }
  }

  lemma FreeConcat(a: Str, b: Str, oid: Str)
    requires FleetOid(oid) && StartsClean(b) && Free(a, oid) && Free(b, oid)
    ensures Free(a + b, oid)
  {
    forall i: nat
      ensures !Occurs(a + b, oid, i)
    {
      if Occurs(a + b, oid, i) {
        OccursSplit(a, b, oid, i);
      }
    }
  }

  /** The header before the OID is at most 8 bytes long and ends in 0A, which no OID holds. */
  lemma NotInHeader(len: Str, rest: Str, oid: Str, o: nat)
    requires FleetOid(oid) && |len| <= 5 && o < |len| + 3
    ensures !Occurs([SEQUENCE] + len + [OBJECT_ID, 0x0A] + rest, oid, o)
  {
    var s := [SEQUENCE] + len + [OBJECT_ID, 0x0A] + rest;
    if Occurs(s, oid, o) {
      OccursByte(s, oid, o, |len| + 2 - o);
    }
  }

  /** An OID overlaps no other but itself: its first byte is not repeated. */
  lemma NotInOid(pre: Str, own: Str, rest: Str, oid: Str, o: nat)
    requires FleetOid(oid) && FleetOid(own)
    requires |pre| <= o < |pre| + 10 && Occurs(pre + own + rest, oid, o)
    ensures o == |pre| && oid == own
  {
    var s := pre + own + rest;
    OccursByte(s, oid, o, 0);
    assert s[|pre|..|pre| + 10] == own;
    assert s[o] == own[o - |pre|];
  }

  /** Nothing begins in the OCTET STRING of a quiet value. */
  lemma NotInValue(pre: Str, len: Str, v: Str, oid: Str, o: nat)
    requires FleetOid(oid) && |len| <= 5 && Quiet(v) && (|v| <= 7 ==> |len| == 1) && |pre| <= o
    ensures !Occurs(pre + ([OCTET_STRING] + len + v), oid, o)
  {
    var s := pre + ([OCTET_STRING] + len + v);
    if Occurs(s, oid, o) {
      OccursByte(s, oid, o, 0);
      OccursByte(s, oid, o, 3);
      OccursByte(s, oid, o, 4);
      OccursByte(s, oid, o, 5);
    }
  }

  /** The encoded extension, piece by piece; both lengths take at most five octets. */
  lemma ExtensionParts(oid: Str, v: Str) returns (len: Str, vLen: Str)
    requires |oid| == 10 && |v| < U32_LIMIT - 100
    ensures ExtensionDer(oid, v) ==
            [SEQUENCE] + len + [OBJECT_ID, 0x0A] + (oid + ([OCTET_STRING] + vLen + v))
    ensures |len| <= 5 && |vLen| <= 5 && vLen == DerLen(|v|) && (|v| <= 7 ==> |vLen| == 1)
  {
    ExtensionSizes(oid, v);
    var value := Tlv(OCTET_STRING, v);
    len, vLen := DerLen(|Tlv(OBJECT_ID, oid) + value|), DerLen(|v|);
    assert Tlv(OBJECT_ID, oid) == [OBJECT_ID, 0x0A] + oid;
  }

  lemma PartsFree(len: Str, own: Str, vLen: Str, v: Str, oid: Str)
    requires FleetOid(own) && FleetOid(oid) && own != oid && Quiet(v)
    requires |len| <= 5 && |vLen| <= 5 && (|v| <= 7 ==> |vLen| == 1)
    ensures Free([SEQUENCE] + len + [OBJECT_ID, 0x0A] + (own + ([OCTET_STRING] + vLen + v)), oid)
  {
    var value := [OCTET_STRING] + vLen + v;
    var pre := [SEQUENCE] + len + [OBJECT_ID, 0x0A];
    var e := pre + (own + value);
    assert e == pre + own + value;
    forall o: nat
      ensures !Occurs(e, oid, o)
    {
      if o < |pre| {
        NotInHeader(len, own + value, oid, o);
      } else if o < |pre| + 10 {
        if Occurs(pre + own + value, oid, o) { NotInOid(pre, own, value, oid, o); }
      } else {
        NotInValue(pre + own, vLen, v, oid, o);
      }
    }
  }

  /** An extension with a quiet value holds no OID but its own. */
  lemma OnlyOwnOid(own: Str, v: Str, oid: Str)
    requires FleetOid(own) && FleetOid(oid) && own != oid && |v| < U32_LIMIT - 100 && Quiet(v)
    ensures Free(ExtensionDer(own, v), oid)
  {
    var len, vLen := ExtensionParts(own, v);
    PartsFree(len, own, vLen, v, oid);
  }

  // ----- Finding a stamped extension -----

  lemma {:induction false} FindSkips(cert: Str, oid: Str, i: nat, j: nat)
    requires oid != [] && i <= j
    requires forall k: nat | i <= k < j :: !Occurs(cert, oid, k)
    ensures FindFrom(cert, oid, i) == FindFrom(cert, oid, j)
    decreases j - i
  {
    if i == j {
    } else {
      FindSkips(cert, oid, i + 1, j);
    }
  }

  lemma NothingFound(cert: Str, oid: Str)
    requires FleetOid(oid) && Free(cert, oid)
    ensures FindFrom(cert, oid, 0) == None
  {
    FindSkips(cert, oid, 0, |cert|);
  }

  /** The value after an OID is read whatever follows it. */
  lemma ReadValueAfter(pre: Str, len: Str, v: Str, rest: Str)
    requires ParseLen(len + (v + rest)) == Some((|v|, |len|))
    ensures ValueAt(pre + ([OCTET_STRING] + len + v) + rest, |pre|) == Some(v)
  {
    var cert := pre + ([OCTET_STRING] + len + v) + rest;
    assert cert[|pre|] == OCTET_STRING;
    assert cert[|pre| + 1..] == len + (v + rest);
    var start := |pre| + 1 + |len|;
    assert cert[start..start + |v|] == v;
  }

  /** Behind bytes free of the OID, nothing is found before the extension's own OID. */
  lemma NotBefore(a: Str, len: Str, rest: Str, oid: Str, i: nat)
    requires FleetOid(oid) && Free(a, oid) && |len| <= 5 && i < |a| + |len| + 3
    ensures !Occurs(a + ([SEQUENCE] + len + [OBJECT_ID, 0x0A] + rest), oid, i)
  {
    var tail := [SEQUENCE] + len + [OBJECT_ID, 0x0A] + rest;
    if Occurs(a + tail, oid, i) {
      OccursSplit(a, tail, oid, i);
      NotInHeader(len, rest, oid, i - |a|);
    }
  }

  lemma FoundAt(pre: Str, oid: Str, vLen: Str, v: Str, b: Str)
    requires oid != [] && ParseLen(vLen + (v + b)) == Some((|v|, |vLen|))
    ensures FindFrom(pre + oid + ([OCTET_STRING] + vLen + v) + b, oid, |pre|) == Some(v)
  {
    var cert := pre + oid + ([OCTET_STRING] + vLen + v) + b;
    assert cert[|pre|..|pre| + |oid|] == oid;
    ReadValueAfter(pre + oid, vLen, v, b);
  }

  lemma Regroup(a: Str, h: Str, o: Str, v: Str, b: Str)
    ensures a + (h + (o + v)) + b == a + (h + (o + v + b))
    ensures a + (h + (o + v)) + b == a + h + o + v + b
  {
    assert h + (o + v + b) == h + (o + v) + b;
    assert a + (h + (o + v)) == a + h + o + v;
  }

  lemma FindParts(a: Str, len: Str, oid: Str, vLen: Str, v: Str, b: Str)
    requires FleetOid(oid) && Free(a, oid) && |len| <= 5
    requires ParseLen(vLen + (v + b)) == Some((|v|, |vLen|))
    ensures var e := [SEQUENCE] + len + [OBJECT_ID, 0x0A] + (oid + ([OCTET_STRING] + vLen + v));
            FindFrom(a + e + b, oid, 0) == Some(v)
  {
    var value := [OCTET_STRING] + vLen + v;
    var head := [SEQUENCE] + len + [OBJECT_ID, 0x0A];
    var cert := a + (head + (oid + value)) + b;
    Regroup(a, head, oid, value, b);
    forall i: nat | i < |a + head|
      ensures !Occurs(cert, oid, i)
    {
      NotBefore(a, len, oid + value + b, oid, i);
    }
    FindSkips(cert, oid, 0, |a + head|);
    FoundAt(a + head, oid, vLen, v, b);
  }

  /** The scan finds the extension behind any bytes that do not hold its OID. */
  lemma FindStamped(a: Str, oid: Str, v: Str, b: Str)
    requires FleetOid(oid) && Free(a, oid) && |v| < U32_LIMIT - 100
    ensures FindFrom(a + ExtensionDer(oid, v) + b, oid, 0) == Some(v)
  {
    var len, vLen := ExtensionParts(oid, v);
    ReadWrittenLength(|v|, v + b);
    FindParts(a, len, oid, vLen, v, b);
  }

  // ----- The object identifiers -----

  /** The byte constants of the readers are the encodings of the arcs that the writers use. */
  lemma OidsAreArcs(last: nat)
    requires 1 <= last <= 3
    ensures OidBytes(1, 3, [6, 1, 4, 1, 66561, 1, last]) ==
            (if last == 1 then ROLE_OID else if last == 2 then DEGRADED_OID else ORDINAL_OID)
  {
    LargeArcs();
    SmallArcs([1, last]);
    Arcs(66561, [1, last]);
    assert [66561] + [1, last] == [66561, 1, last];
    var tail := [66561, 1, last];
    assert Base128All(tail) == [0x84, 0x88, 0x01] + [1, last] == [0x84, 0x88, 0x01, 1, last];
    FourArcs(6, 1, 4, 1, tail);
    assert [6, 1, 4, 1] + tail == [6, 1, 4, 1, 66561, 1, last];
    Spelled(Base128All(tail), last);
  }

  lemma Spelled(tail: Str, last: Byte)
    requires 1 <= last <= 3 && tail == [0x84, 0x88, 0x01, 1, last]
    ensures [40 * 1 + 3] + ([6, 1, 4, 1] + tail) ==
            (if last == 1 then ROLE_OID else if last == 2 then DEGRADED_OID else ORDINAL_OID)
  {
  }

  // ----- What the readers accept, whatever the certificate holds -----

  /** An optional critical flag, the OCTET STRING, and what follows. */
  predicate IsExtnValue(s: Str, flag: Str, octets: Str, value: Str, rest: Str) {
    && s == flag + ([0x04] + octets + (value + rest))
    && IsLength(octets, |value|)
  }

  /** Either nothing, or a BOOLEAN with its length and contents. */
  predicate IsFlag(flag: Str) {
    || flag == []
    || (&& flag[0] == 0x01 && ParseLen(flag[1..]).Some?
        && |flag| == 1 + ParseLen(flag[1..]).value.1 + ParseLen(flag[1..]).value.0)
  }

  lemma FlagIsSkipped(pre: Str, flag: Str, tail: Str)
    requires IsFlag(flag) && tail != [] && tail[0] == 0x04
    ensures SkipCritical(pre + (flag + tail), |pre|) == Some(|pre| + |flag|)
  {
    var cert := pre + (flag + tail);
    assert cert[|pre|] == (flag + tail)[0];
    if flag != [] {
      var (len, used) := ParseLen(flag[1..]).value;
      var octets, contents := flag[1..][..used], flag[1..][used..];
      SplitLength(flag[1..], len, used);
      assert cert[|pre| + 1..] == octets + (contents + tail);
      LengthIsLocal(octets, contents + tail, len);
    }
  }

  lemma OctetsAreRead(cert: Str, j: nat, k: nat, octets: Str, value: Str, rest: Str)
    requires SkipCritical(cert, j) == Some(k) && k <= |cert| && IsLength(octets, |value|)
    requires cert[k..] == [0x04] + octets + (value + rest)
    ensures ValueAt(cert, j) == Some(value)
  {
    assert [0x04] + octets + (value + rest) == [0x04] + (octets + (value + rest));
    SliceAt(cert, k, [0x04], octets + (value + rest));
    SliceAt(cert, k + 1, octets, value + rest);
    SliceAt(cert, k + 1 + |octets|, value, rest);
    assert cert[k] == cert[k..k + 1][0];
    LengthIsLocal(octets, value + rest, |value|);
  }

  lemma SliceAt(s: Str, k: nat, a: Str, b: Str)
    requires k <= |s| && s[k..] == a + b
    ensures k + |a| <= |s| && s[k..k + |a|] == a && s[k + |a|..] == b
  {
    assert s[k..k + |a|] == s[k..][..|a|];
    assert s[k + |a|..] == s[k..][|a|..];
  }

  /** The value behind an OID is read past a critical flag, whatever follows it. */
  lemma ValueIsRead(pre: Str, flag: Str, octets: Str, value: Str, rest: Str, s: Str)
    requires IsFlag(flag) && IsExtnValue(s, flag, octets, value, rest)
    ensures ValueAt(pre + s, |pre|) == Some(value)
  {
    var tail := [0x04] + octets + (value + rest);
    FlagIsSkipped(pre, flag, tail);
    assert (pre + s)[|pre| + |flag|..] == tail;
    OctetsAreRead(pre + s, |pre|, |pre| + |flag|, octets, value, rest);
  }

  lemma {:induction false} SkipsValueless(cert: Str, oid: Str, i: nat, k: nat)
    requires oid != [] && i <= k && k + |oid| <= |cert| && NoneBefore(cert, oid, i, k)
    ensures FindFrom(cert, oid, i) == FindFrom(cert, oid, k)
    decreases k - i
  {
    if i == k {
    } else {
      SkipsValueless(cert, oid, i + 1, k);
    }
  }

  lemma {:induction false} FoundSomewhere(cert: Str, oid: Str, i: nat) returns (k: nat)
    requires oid != [] && FindFrom(cert, oid, i).Some?
    ensures i <= k && FoundHere(cert, oid, k, FindFrom(cert, oid, i).value) && NoneBefore(cert, oid, i, k)
    decreases |cert| - i
  {
    if Occurs(cert, oid, i) && ValueAt(cert, i + |oid|).Some? {
      k := i;
    } else {
      k := FoundSomewhere(cert, oid, i + 1);
      NoneEarlier(cert, oid, i, k);
    }
  }

  lemma NoneEarlier(cert: Str, oid: Str, i: nat, k: nat)
    requires NoneBefore(cert, oid, i + 1, k) && !(Occurs(cert, oid, i) && ValueAt(cert, i + |oid|).Some?)
    ensures NoneBefore(cert, oid, i, k)
  {
  }

  /** The scan returns a value exactly from the first occurrence of the OID that is followed by one. */
  lemma FoundExactly(cert: Str, oid: Str, v: Str)
    requires oid != []
    ensures FindFrom(cert, oid, 0) == Some(v) <==>
            exists k: nat :: FoundHere(cert, oid, k, v) && NoneBefore(cert, oid, 0, k)
  {
    if FindFrom(cert, oid, 0) == Some(v) {
      var k := FoundSomewhere(cert, oid, 0);
    }
    if k: nat :| FoundHere(cert, oid, k, v) && NoneBefore(cert, oid, 0, k) {
      SkipsValueless(cert, oid, 0, k);
    }
  }

  predicate FoundHere(cert: Str, oid: Str, k: nat, v: Str) {
    Occurs(cert, oid, k) && ValueAt(cert, k + |oid|) == Some(v)
  }

  /** No earlier occurrence is followed by a value. */
  ghost predicate NoneBefore(cert: Str, oid: Str, i: nat, k: nat) {
    forall j: nat | i <= j < k :: Occurs(cert, oid, j) ==> ValueAt(cert, j + |oid|) == None
  }

  /** Of a UTF8String or PrintableString only NUL-free UTF-8 is a role; any other tag is none. */
  lemma RoleOfExactly(tag: Byte, s: Str)
    requires |s| < U32_LIMIT
    ensures RoleOf(Tlv(tag, s)) ==
            if (tag == 0x0C || tag == 0x13) && ValidUtf8(s) && 0 !in s then Some(s) else None
  {
    ReadTlv(tag, s, []);
    assert Tlv(tag, s) + [] == Tlv(tag, s);
  }

  /** An INTEGER of at most four bytes is an ordinal, with its big-endian value. */
  lemma OrdinalOfExactly(tag: Byte, s: Str)
    requires |s| < U32_LIMIT
    ensures OrdinalOf(Tlv(tag, s)) == if tag == 0x02 && |s| <= 4 then Some(ValueU32(s)) else None
  {
    ReadTlv(tag, s, []);
    assert Tlv(tag, s) + [] == Tlv(tag, s);
    FoldIsValue(s);
  }

  function ValueU32(s: Str): (n: U32)
    ensures |s| <= 4 ==> n == BeValue(s)
  {
    if |s| > 4 then 0 else
    BeValueBound(s);
    PowLimits();
    Pow256Monotone(|s|, 4);
    BeValue(s)
  }

  /** A BOOLEAN marks degraded mode exactly when its first byte is not zero. */
  lemma DegradedByExactly(tag: Byte, s: Str)
    requires |s| < U32_LIMIT
    ensures DegradedBy(Tlv(tag, s)) <==> tag == 0x01 && s != [] && s[0] != 0
  {
    ReadTlv(tag, s, []);
    assert Tlv(tag, s) + [] == Tlv(tag, s);
  }

  /** The stamped values are a UTF8String, a BOOLEAN of FF or 00, and an INTEGER. */
  lemma StampedValues(role: Str, ordinal: U32)
    requires |role| <= 0xFFFF
    ensures RoleValue(role) == Tlv(0x0C, role)
    ensures DegradedValue(true) == [0x01, 0x01, 0xFF] && DegradedValue(false) == [0x01, 0x01, 0x00]
    ensures OrdinalValue(ordinal) == Tlv(0x02, OrdinalBody(ordinal))
  {
    WritersAgree(|role|);
  }
}
