/** Stamping extensions into a certificate and reading them back gives what was stamped. */
module Stamping {
  import opened Bytes
  import opened Utf8
  import opened Der
  import opened Extensions

  /** A validated `WorkloadRole`. */
  predicate IsRole(role: Str) {
    ValidUtf8(role) && NulFree(role)
  }

  // ----- One value at a time -----

  /** A role value hides no OID: after 01, UTF-8 never continues with 84. */
  lemma RoleValueQuiet(role: Str)
    requires IsRole(role) && |role| < U64_LIMIT
    ensures Quiet(RoleValue(role))
  {
    var v := RoleValue(role);
    var start := 1 + |DerLenPrefix(|role|)|;
    assert v[0] == UTF8_STRING;
    forall k | 0 <= k < |v| - 2
      ensures !(v[k] == 0x04 && v[k + 1] == 0x01 && v[k + 2] == 0x84)
    {
      if k + 2 >= start {
        var r := k + 2 - start;
        assert v[k + 2] == role[r];
        if role[r] == 0x84 {
          TailFollowsNonAscii(role, r);
          assert v[k + 1] == role[r - 1];
        }
      }
    }
  }

  /** A string is read back exactly when it is a role and its length fits the two-byte prefix. */
  lemma RoleReadsBack(role: Str)
    requires |role| < U32_LIMIT
    ensures RoleOf(RoleValue(role)) == Some(role) <==> IsRole(role) && |role| <= 0xFFFF
  {
    var v := RoleValue(role);
    if |role| <= 0xFFFF {
      WritersAgree(|role|);
      ReadTlv(UTF8_STRING, role, []);
      assert Tlv(UTF8_STRING, role) + [] == v;
    } else {
      assert v[1..] == DerLenPrefix(|role|) + role;
      LongPrefixReadsShort(|role|, role);
      assert ParseTlv(v, UTF8_STRING).Some? ==>
          |ParseTlv(v, UTF8_STRING).value| == |role| % U16_LIMIT < |role|;
    }
  }

  lemma DegradedReadsBack(degraded: bool)
    ensures DegradedBy(DegradedValue(degraded)) == degraded
  {
    var v := DegradedValue(degraded);
    assert v[1..][0] == 1;
    assert v[2..3] == [v[2]];
  }

  lemma {:induction false} StripZerosWhole(v: Str)
    requires v != []
    ensures |StripZeros(v)| == |v| <==> |v| == 1 || v[0] != 0
    ensures |StripZeros(v)| == |v| ==> StripZeros(v) == v
  {
  }

  /** Only an ordinal with its top bit set needs a fifth byte. */
  lemma OrdinalWidth(ordinal: U32)
    ensures |OrdinalBody(ordinal)| <= 4 <==> ordinal < 0x8000_0000
  {
    var s := BeU32(ordinal);
    BeU32Value(ordinal);
    TopByte(s);
    StripZerosWhole(s);
  }

  lemma TopByte(s: Str)
    requires |s| == 4
    ensures s[0] >= 0x80 <==> BeValue(s) >= 0x8000_0000
  {
    var s3, s2 := s[..3], s[..3][..2];
    TwoBytes(s2);
    assert BeValue(s3) == BeValue(s2) * 256 + s3[2];
    assert BeValue(s) == BeValue(s3) * 256 + s[3];
  }

  /** An ordinal is read back exactly when it is below 2^31; the five-byte form is refused. */
  lemma OrdinalReadsBack(ordinal: U32)
    ensures OrdinalOf(OrdinalValue(ordinal)) ==
            if ordinal < 0x8000_0000 then Some(ordinal) else None
  {
    var body := OrdinalBody(ordinal);
    ReadTlv(INTEGER, body, []);
    assert Tlv(INTEGER, body) + [] == OrdinalValue(ordinal);
    OrdinalWidth(ordinal);
    PaddedSurvives(ordinal);
  }

  lemma BodyValue(ordinal: U32)
    ensures BeValue(OrdinalBody(ordinal)) == ordinal && OrdinalBody(ordinal)[0] < 0x80
  {
    BeU32Value(ordinal);
    StripZerosKeepsValue(BeU32(ordinal));
    SignPadKeepsValue(StripZeros(BeU32(ordinal)));
  }

  /**
    The stamped INTEGER is the unique shortest one: every other positive INTEGER of the same
    value (section 8.3 of X.690) is longer.
   */
  lemma OrdinalMinimal(ordinal: U32, other: Str)
    requires other != [] && other[0] < 0x80 && BeValue(other) == ordinal
    ensures |OrdinalBody(ordinal)| <= |other|
    ensures |OrdinalBody(ordinal)| == |other| ==> OrdinalBody(ordinal) == other
  {
    var v := StripZeros(BeU32(ordinal));
    BeU32Value(ordinal);
    StripZerosKeepsValue(BeU32(ordinal));
    BodyValue(ordinal);
    if |v| > 1 || v[0] != 0 {
      ShorterIsSmaller(other, v);
      if |other| == |v| { BeValueInjective(other, v); }
    }
    if |OrdinalBody(ordinal)| == |other| {
      BeValueInjective(OrdinalBody(ordinal), other);
    }
  }

  /** A byte string without a leading zero has no shorter equal. */
  lemma ShorterIsSmaller(s: Str, t: Str)
    requires t != [] && t[0] != 0 && BeValue(s) == BeValue(t)
    ensures |t| <= |s|
  {
    if |s| < |t| {
      BeValueBound(s);
      Pow256Monotone(|s|, |t| - 1);
      LeadingByte(t);
    }
  }

  lemma {:induction false} LeadingByte(t: Str)
    requires t != [] && t[0] != 0
    ensures BeValue(t) >= Pow256(|t| - 1)
  {
    if |t| > 1 {
      var u := t[..|t| - 1];
      LeadingByte(u);
    } else {
      assert t[..0] == [];
    }
  }

  // ----- All three together -----

  function RoleExtension(role: Option<Str>): Str
    requires role.Some? ==> |role.value| < U32_LIMIT - 200
  {
    if role.None? then [] else ExtensionDer(ROLE_OID, RoleValue(role.value))
  }

  function OrdinalExtension(ordinal: Option<U32>): Str {
    if ordinal.None? then [] else ExtensionDer(ORDINAL_OID, OrdinalValue(ordinal.value))
  }

  /** A certificate whose signer stamped the three extensions in this order. */
  function Leaf(before: Str, degraded: bool, role: Option<Str>, ordinal: Option<U32>, after: Str): Str
    requires role.Some? ==> |role.value| < U32_LIMIT - 200
  {
    before + ExtensionDer(DEGRADED_OID, DegradedValue(degraded))
    + RoleExtension(role) + OrdinalExtension(ordinal) + after
  }

  /** The bytes before hold none of the three OIDs. */
  ghost predicate CleanBefore(before: Str) {
    Free(before, DEGRADED_OID) && Free(before, ROLE_OID) && Free(before, ORDINAL_OID)
  }

  /** The bytes after begin another SEQUENCE and hold no OID of an extension left out. */
  ghost predicate CleanAfter(after: Str) {
    StartsClean(after) && Free(after, ROLE_OID) && Free(after, ORDINAL_OID)
  }

  lemma DegradedFound(before: Str, degraded: bool, rest: Str)
    requires Free(before, DEGRADED_OID)
    ensures DegradedIn(before + ExtensionDer(DEGRADED_OID, DegradedValue(degraded)) + rest) == degraded
  {
    FindStamped(before, DEGRADED_OID, DegradedValue(degraded), rest);
    DegradedReadsBack(degraded);
  }

  lemma DegradedHidesNone(before: Str, degraded: bool, oid: Str)
    requires FleetOid(oid) && oid != DEGRADED_OID && Free(before, oid)
    ensures Free(before + ExtensionDer(DEGRADED_OID, DegradedValue(degraded)), oid)
  {
    OnlyOwnOid(DEGRADED_OID, DegradedValue(degraded), oid);
    FreeConcat(before, ExtensionDer(DEGRADED_OID, DegradedValue(degraded)), oid);
  }

  lemma RoleFound(before: Str, role: Str, rest: Str)
    requires Free(before, ROLE_OID) && IsRole(role) && |role| < U32_LIMIT - 200
    ensures RoleIn(before + RoleExtension(Some(role)) + rest) == Some(role) <==> |role| <= 0xFFFF
  {
    FindStamped(before, ROLE_OID, RoleValue(role), rest);
    RoleReadsBack(role);
  }

  lemma RoleHidesNone(before: Str, role: Option<Str>)
    requires Free(before, ORDINAL_OID)
    requires role.Some? ==> IsRole(role.value) && |role.value| < U32_LIMIT - 200
    ensures Free(before + RoleExtension(role), ORDINAL_OID)
  {
    if role.None? {
      assert before + RoleExtension(role) == before;
    } else {
      RoleValueQuiet(role.value);
      OnlyOwnOid(ROLE_OID, RoleValue(role.value), ORDINAL_OID);
      FreeConcat(before, RoleExtension(role), ORDINAL_OID);
    }
  }

  lemma OrdinalHidesNone(ordinal: Option<U32>, after: Str)
    requires CleanAfter(after)
    ensures Free(OrdinalExtension(ordinal) + after, ROLE_OID)
    ensures StartsClean(OrdinalExtension(ordinal) + after)
  {
    if ordinal.None? {
      assert OrdinalExtension(ordinal) + after == after;
    } else {
      OnlyOwnOid(ORDINAL_OID, OrdinalValue(ordinal.value), ROLE_OID);
      FreeConcat(OrdinalExtension(ordinal), after, ROLE_OID);
    }
  }

  lemma OrdinalFound(before: Str, ordinal: U32, rest: Str)
    requires Free(before, ORDINAL_OID)
    ensures OrdinalIn(before + OrdinalExtension(Some(ordinal)) + rest) ==
            if ordinal < 0x8000_0000 then Some(ordinal) else None
  {
    FindStamped(before, ORDINAL_OID, OrdinalValue(ordinal), rest);
    OrdinalReadsBack(ordinal);
  }

  lemma Grouped(b: Str, d: Str, r: Str, o: Str, a: Str)
    ensures b + d + r + o + a == b + d + (r + o + a)
    ensures b + d + r + o + a == b + d + r + (o + a)
  {
    assert b + d + r + o + a == b + d + (r + o + a);
    assert b + d + r + o + a == b + d + r + (o + a);
  }

  lemma RoleStamped(bd: Str, role: Option<Str>, ordinal: Option<U32>, after: Str)
    requires Free(bd, ROLE_OID)
    requires role.Some? ==> IsRole(role.value) && |role.value| < U32_LIMIT - 200
    requires role.None? ==> CleanAfter(after)
    ensures var rest := OrdinalExtension(ordinal) + after;
            RoleIn(bd + RoleExtension(role) + rest) == role <==> role.None? || |role.value| <= 0xFFFF
  {
    var rest := OrdinalExtension(ordinal) + after;
    if role.Some? {
      RoleFound(bd, role.value, rest);
    } else {
      OrdinalHidesNone(ordinal, after);
      FreeConcat(bd, rest, ROLE_OID);
      assert bd + RoleExtension(role) == bd;
      NothingFound(bd + rest, ROLE_OID);
    }
  }

  lemma OrdinalStamped(bdr: Str, ordinal: Option<U32>, after: Str)
    requires Free(bdr, ORDINAL_OID) && (ordinal.None? ==> CleanAfter(after))
    ensures OrdinalIn(bdr + OrdinalExtension(ordinal) + after) ==
            if ordinal == None || ordinal.value >= 0x8000_0000 then None else ordinal
  {
    if ordinal.Some? {
      OrdinalFound(bdr, ordinal.value, after);
    } else {
      FreeConcat(bdr, after, ORDINAL_OID);
      assert bdr + OrdinalExtension(ordinal) == bdr;
      NothingFound(bdr + after, ORDINAL_OID);
    }
  }

  /**
    Reading a stamped certificate returns exactly the degraded marker, the role if and only
    if it has at most 65535 bytes, and the ordinal if and only if it is below 2^31. An
    extension that was not stamped is not found either, when the bytes after are clean.
   */
  lemma StampReadsBack(before: Str, degraded: bool, role: Option<Str>, ordinal: Option<U32>, after: Str)
    requires CleanBefore(before)
    requires role.Some? ==> IsRole(role.value) && |role.value| < U32_LIMIT - 200
    requires role.None? || ordinal.None? ==> CleanAfter(after)
    ensures var leaf := Leaf(before, degraded, role, ordinal, after);
            && DegradedIn(leaf) == degraded
            && (RoleIn(leaf) == role <==> role.None? || |role.value| <= 0xFFFF)
            && OrdinalIn(leaf) == (if ordinal == None || ordinal.value >= 0x8000_0000 then None else ordinal)
  {
    var d := ExtensionDer(DEGRADED_OID, DegradedValue(degraded));
    var r, o := RoleExtension(role), OrdinalExtension(ordinal);
    Grouped(before, d, r, o, after);
    DegradedFound(before, degraded, r + o + after);
    DegradedHidesNone(before, degraded, ROLE_OID);
    RoleStamped(before + d, role, ordinal, after);
    DegradedHidesNone(before, degraded, ORDINAL_OID);
    RoleHidesNone(before + d, role);
    OrdinalStamped(before + d + r, ordinal, after);
  }

  /** Whatever a certificate holds, what is read as its role is one. */
  lemma OnlyRolesAreRead(cert: Str)
    ensures RoleIn(cert).Some? ==> IsRole(RoleIn(cert).value)
  {
  }
}
