/** `IdentityFingerprint`: the bytes that identify a workload and its role. */
module Fingerprint {
  import opened Bytes
  import opened Hasher
  import opened Spiffe

  function Preimage(id: SpiffeId, role: Option<Str>): Str {
    Print(id) + [0] + OrEmpty(role)
  }

  function OrdinalBytes(ordinal: Option<U32>): Str {
    if ordinal.None? then [] else LeBytes(ordinal.value, 4)
  }

  function OrdinalPreimage(id: SpiffeId, role: Option<Str>, ordinal: Option<U32>): Str {
    Preimage(id, role) + [0] + OrdinalBytes(ordinal)
  }

  method WritePath(hasher: Hasher, id: SpiffeId)
    modifies hasher
    ensures hasher.fed == old(hasher.fed) + Path(id)
  {
    hasher.Update(id.tenant);
    hasher.Update([SLASH]);
    ghost var before := hasher.fed;
    hasher.Update(KindBytes(id.kind));
    hasher.Update([SLASH]);
    hasher.Update(id.name);
    assert hasher.fed == before + (KindBytes(id.kind) + [SLASH] + id.name);
    Appended(old(hasher.fed), id.tenant + [SLASH], KindBytes(id.kind) + [SLASH] + id.name);
  }

  /** `write_uri_bytes` feeds, piece by piece, exactly the printed identity. */
  method WriteUriBytes(hasher: Hasher, id: SpiffeId)
    modifies hasher
    ensures hasher.fed == old(hasher.fed) + Print(id)
  {
    hasher.Update(SCHEME);
    ghost var before := hasher.fed;
    hasher.Update(id.trustDomain);
    hasher.Update(NS);
    assert hasher.fed == before + (id.trustDomain + NS);
    WritePath(hasher, id);
    Appended(before, id.trustDomain + NS, Path(id));
    Appended(old(hasher.fed), SCHEME, id.trustDomain + NS + Path(id));
  }

  method FeedIdentity(hasher: Hasher, id: SpiffeId, role: Option<Str>)
    requires hasher.fed == []
    modifies hasher
    ensures hasher.fed == Preimage(id, role)
  {
    WriteUriBytes(hasher, id);
    hasher.Update([0]);
    if role.Some? {
      hasher.Update(role.value);
    }
  }

  /** `of`, up to the hash of what it feeds. */
  method Of(id: SpiffeId, role: Option<Str>) returns (preimage: Str)
    ensures preimage == Preimage(id, role)
  {
    var hasher := new Hasher();
    FeedIdentity(hasher, id, role);
    preimage := hasher.fed;
  }

  /** `of_with_ordinal`, up to the hash of what it feeds. */
  method OfWithOrdinal(id: SpiffeId, role: Option<Str>, ordinal: Option<U32>) returns (preimage: Str)
    ensures preimage == OrdinalPreimage(id, role, ordinal)
  {
    var hasher := new Hasher();
    FeedIdentity(hasher, id, role);
    hasher.Update([0]);
    if ordinal.Some? {
      hasher.Update(LeBytes(ordinal.value, 4));
    }
    preimage := hasher.fed;
  }

  /** Identities that round-trip are told apart by their printed form. */
  lemma PrintInjective(id: SpiffeId, other: SpiffeId)
    requires RoundTrips(id) && RoundTrips(other)
    ensures Print(id) == Print(other) <==> id == other
  {
    ParsePrinted(id);
    ParsePrinted(other);
  }

  /**
    A validated role has no NUL, so the last one is the separator, whatever the identity
    holds: pre-images coincide exactly when the printed identities and the roles do.
   */
  lemma SameFingerprintExactly(id: SpiffeId, role: Option<Str>, id': SpiffeId, role': Option<Str>)
    requires NulFree(OrEmpty(role)) && NulFree(OrEmpty(role'))
    ensures Preimage(id, role) == Preimage(id', role') <==>
            Print(id) == Print(id') && OrEmpty(role) == OrEmpty(role')
    ensures RoundTrips(id) && RoundTrips(id') ==>
              (Preimage(id, role) == Preimage(id', role') <==> id == id' && OrEmpty(role) == OrEmpty(role'))
  {
    if Preimage(id, role) == Preimage(id', role') {
      SplitLastNul(Print(id), OrEmpty(role), Print(id'), OrEmpty(role'));
    }
    if RoundTrips(id) && RoundTrips(id') {
      PrintInjective(id, id');
    }
  }

  /** With an ordinal behind the role, the identity must be NUL-free as well. */
  lemma SameInstanceExactly(id: SpiffeId, role: Option<Str>, ordinal: Option<U32>,
                            id': SpiffeId, role': Option<Str>, ordinal': Option<U32>)
    requires NulFree(OrEmpty(role)) && NulFree(OrEmpty(role'))
    requires NulFree(Print(id)) && NulFree(Print(id'))
    ensures OrdinalPreimage(id, role, ordinal) == OrdinalPreimage(id', role', ordinal') <==>
            Print(id) == Print(id') && OrEmpty(role) == OrEmpty(role') && ordinal == ordinal'
  {
    if OrdinalPreimage(id, role, ordinal) == OrdinalPreimage(id', role', ordinal') {
      SplitTwice(Print(id), OrEmpty(role), OrdinalBytes(ordinal), Print(id'), OrEmpty(role'), OrdinalBytes(ordinal'));
      OrdinalInjective(ordinal, ordinal');
    }
  }

  lemma SplitTwice(a: Str, b: Str, c: Str, a': Str, b': Str, c': Str)
    requires NulFree(a) && NulFree(b) && NulFree(a') && NulFree(b')
    requires a + [0] + b + [0] + c == a' + [0] + b' + [0] + c'
    ensures a == a' && b == b' && c == c'
  {
    assert a + [0] + b + [0] + c == a + [0] + (b + [0] + c);
    assert a' + [0] + b' + [0] + c' == a' + [0] + (b' + [0] + c');
    SplitNul(a, b + [0] + c, a', b' + [0] + c');
    SplitNul(b, c, b', c');
  }

  lemma OrdinalInjective(a: Option<U32>, b: Option<U32>)
    requires OrdinalBytes(a) == OrdinalBytes(b)
    ensures a == b
  {
    if a.Some? && b.Some? {
      PowLimits();
      LeBytesInjective(a.value, b.value, 4);
    }
  }

  /** Without that, a NUL in the name lets an ordinal pass for a role. */
  lemma NulInNameCollides(id: SpiffeId)
    ensures OrdinalPreimage(id, Some([0x61]), Some(0x646362)) ==
            OrdinalPreimage(id.(name := id.name + [0, 0x61]), Some([0x62, 0x63, 0x64]), None)
  {
    var id' := id.(name := id.name + [0, 0x61]);
    assert Path(id') == Path(id) + [0, 0x61];
    assert Print(id') == Print(id) + [0, 0x61];
    assert LeBytes(0x646362, 4) == [0x62, 0x63, 0x64, 0] by {
      assert LeBytes(0x6463, 3) == [0x63] + LeBytes(0x64, 2) && LeBytes(0x64, 2) == [0x64] + LeBytes(0, 1);
      assert LeBytes(0, 1) == [0] + LeBytes(0, 0);
    }
  }

  /** The pre-images, field by field: URI, role and, in little-endian, the ordinal, with a NUL between all. */
  lemma FrozenLayout(id: SpiffeId, role: Option<Str>, ordinal: U32, bytes: Str)
    requires |bytes| == 4 && LeValue(bytes) == ordinal
    ensures Preimage(id, role) == Print(id) + [0] + (if role.Some? then role.value else [])
    ensures OrdinalPreimage(id, role, Some(ordinal)) == Preimage(id, role) + [0] + bytes
    ensures OrdinalPreimage(id, role, None) == Preimage(id, role) + [0]
  {
    PowLimits();
    LeBytesValue(ordinal, 4);
    LeValueInjective(LeBytes(ordinal, 4), bytes);
  }
}
