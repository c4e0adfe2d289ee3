/**
  `parse_ak_public`: the attestation key inside a marshalled TPMT_PUBLIC (section 12.2.4 of
  TPM 2.0 Part 2).

  The specification reads the whole layout, although the code keeps only the key: reading is
  then proved to be exactly the inverse of marshalling.
 */
module AkPublic {
  import opened Bytes
  import opened Reader

  const ALG_RSA: U16 := 0x0001
  const ALG_ECC: U16 := 0x0023
  const ALG_NULL: U16 := 0x0010
  const ALG_RSAES: U16 := 0x0015
  const ALG_OAEP: U16 := 0x0017
  const ALG_ECDAA: U16 := 0x001A

  datatype AkKey = Rsa(modulus: Str, exponent: U32) | Ecc(x: Str, y: Str)

  /**
    A scheme selector and what the code takes it to carry; `extra` is ECDAA's count, or a label
    that the code expects behind OAEP. Signing schemes carry what the code says.
   */
  datatype Scheme = NullScheme | Hashed(selector: U16, hash: U16) | Extended(hash: U16, extra: Str)

  datatype Common = Common(nameAlg: U16, attributes: U32, authPolicy: Str)

  datatype Layout =
    | RsaLayout(common: Common, scheme: Scheme, keyBits: U16, exponent: U32, modulus: Str)
    | EccLayout(common: Common, scheme: Scheme, curve: U16, kdf: Scheme, x: Str, y: Str)

  /** The key of a layout; the exponent 0 stands for 65537. */
  function KeyOf(l: Layout): AkKey {
    match l
    case RsaLayout(_, _, _, e, n) => Rsa(n, if e == 0 then 65537 else e)
    case EccLayout(_, _, _, _, x, y) => Ecc(x, y)
  }

  // ----- Marshalling -----

  /** `special` is the selector that carries something extra; KDF schemes have none. */
  predicate ValidScheme(s: Scheme, special: U16) {
    match s
    case NullScheme => true
    case Hashed(selector, _) => selector != ALG_NULL && selector != special
    case Extended(_, extra) =>
      && special != ALG_NULL && |extra| < U16_LIMIT
      && (special == ALG_ECDAA ==> |extra| == 2)
  }

  predicate Valid(l: Layout) {
    && |l.common.authPolicy| < U16_LIMIT
    && match l
       case RsaLayout(_, scheme, _, _, n) => ValidScheme(scheme, ALG_OAEP) && |n| < U16_LIMIT
       case EccLayout(_, scheme, _, kdf, x, y) =>
         ValidScheme(scheme, ALG_ECDAA) && ValidScheme(kdf, ALG_NULL) && |x| < U16_LIMIT && |y| < U16_LIMIT
  }

  function SchemeBytes(s: Scheme, special: U16): Str
    requires ValidScheme(s, special)
  {
    match s
    case NullScheme => BeU16(ALG_NULL)
    case Hashed(selector, hash) => BeU16(selector) + BeU16(hash)
    case Extended(hash, extra) =>
      BeU16(special) + (BeU16(hash) + (if special == ALG_ECDAA then extra else Sized(extra)))
  }

  function CommonBytes(kind: U16, c: Common): Str
    requires |c.authPolicy| < U16_LIMIT
  {
    BeU16(kind) + (BeU16(c.nameAlg) + (BeU32(c.attributes) + Sized(c.authPolicy)))
  }

  function BodyBytes(l: Layout): Str
    requires Valid(l)
  {
    match l
    case RsaLayout(_, scheme, bits, e, n) =>
      BeU16(ALG_NULL) + (SchemeBytes(scheme, ALG_OAEP) + (BeU16(bits) + (BeU32(e) + Sized(n))))
    case EccLayout(_, scheme, curve, kdf, x, y) =>
      BeU16(ALG_NULL) + (SchemeBytes(scheme, ALG_ECDAA) +
      (BeU16(curve) + (SchemeBytes(kdf, ALG_NULL) + (Sized(x) + Sized(y)))))
  }

  function KindOf(l: Layout): U16 {
    if l.RsaLayout? then ALG_RSA else ALG_ECC
  }

  function Marshal(l: Layout): Str
    requires Valid(l)
  {
    CommonBytes(KindOf(l), l.common) + BodyBytes(l)
  }

  // ----- Reading -----

  function TakeScheme(s: Str, special: U16): Parse<Scheme> {
    var (selector, s1) :- TakeU16(s);
    if selector == ALG_NULL then Some((NullScheme, s1)) else
    var (hash, s2) :- TakeU16(s1);
    if selector != special then Some((Hashed(selector, hash), s2)) else
    var (extra, s3) :- if special == ALG_ECDAA then Take(s2, 2) else TakeSized(s2);
    Some((Extended(hash, extra), s3))
  }

  function TakeCommon(s: Str): Parse<(U16, Common)> {
    var (kind, s1) :- TakeU16(s);
    var (nameAlg, s2) :- TakeU16(s1);
    var (attributes, s3) :- TakeU32(s2);
    var (authPolicy, s4) :- TakeSized(s3);
    Some(((kind, Common(nameAlg, attributes, authPolicy)), s4))
  }

  function TakeRsa(c: Common, s: Str): Parse<Layout> {
    var (symmetric, s1) :- TakeU16(s);
    if symmetric != ALG_NULL then None else
    var (scheme, s2) :- TakeScheme(s1, ALG_OAEP);
    var (bits, s3) :- TakeU16(s2);
    var (e, s4) :- TakeU32(s3);
    var (n, s5) :- TakeSized(s4);
    Some((RsaLayout(c, scheme, bits, e, n), s5))
  }

  function TakeEcc(c: Common, s: Str): Parse<Layout> {
    var (symmetric, s1) :- TakeU16(s);
    if symmetric != ALG_NULL then None else
    var (scheme, s2) :- TakeScheme(s1, ALG_ECDAA);
    var (curve, s3) :- TakeU16(s2);
    var (kdf, s4) :- TakeScheme(s3, ALG_NULL);
    var (x, s5) :- TakeSized(s4);
    var (y, s6) :- TakeSized(s5);
    Some((EccLayout(c, scheme, curve, kdf, x, y), s6))
  }

  function TakeLayout(s: Str): Parse<Layout> {
    var ((kind, common), rest) :- TakeCommon(s);
    TakeBody(kind, common, rest)
  }

  function TakeBody(kind: U16, c: Common, s: Str): Parse<Layout> {
    if kind == ALG_RSA then TakeRsa(c, s) else if kind == ALG_ECC then TakeEcc(c, s) else None
  }

  /** The key, if the bytes begin with a layout; anything behind it is ignored. */
  function ParseAk(bytes: Str): Option<AkKey> {
    var (l, _) :- TakeLayout(bytes);
    Some(KeyOf(l))
  }

  /** Consumes a scheme, of which the code keeps nothing. */
  method SkipScheme(r: Reader, special: U16) returns (ok: bool)
    modifies r
    ensures ok == TakeScheme(old(r.data), special).Some?
    ensures ok ==> r.data == TakeScheme(old(r.data), special).value.1
  {
    var scheme := r.NextU16();
    if scheme.None? { return false; }
    if scheme.value != ALG_NULL {
      var hash := r.NextU16();
      if hash.None? { return false; }
      if scheme.value == special {
        var extra: Option<Str>;
        if special == ALG_ECDAA {
          extra := r.TakeBytes(2);
        } else {
          extra := r.NextSized();
        }
        if extra.None? { return false; }
      }
    }
    ok := true;
  }

  /** `expect_null_symmetric` */
  method ExpectNullSymmetric(r: Reader) returns (ok: bool)
    modifies r
    ensures ok <==> TakeU16(old(r.data)).Some? && TakeU16(old(r.data)).value.0 == ALG_NULL
    ensures ok ==> r.data == TakeU16(old(r.data)).value.1
  {
    var alg := r.NextU16();
    ok := alg == Some(ALG_NULL);
  }

  method ReadRsa(r: Reader, ghost c: Common) returns (key: Option<AkKey>)
    modifies r
    ensures key == (match TakeRsa(c, old(r.data)) case None => None case Some((l, _)) => Some(KeyOf(l)))
  {
    var ok := ExpectNullSymmetric(r);
    if !ok { return None; }
    ok := SkipScheme(r, ALG_OAEP);
    if !ok { return None; }
    var bits := r.NextU16();
    if bits.None? { return None; }
    var raw := r.NextU32();
    if raw.None? { return None; }
    var modulus := r.NextSized();
    if modulus.None? { return None; }
    key := Some(Rsa(modulus.value, if raw.value == 0 then 65537 else raw.value));
  }

  method ReadEcc(r: Reader, ghost c: Common) returns (key: Option<AkKey>)
    modifies r
    ensures key == (match TakeEcc(c, old(r.data)) case None => None case Some((l, _)) => Some(KeyOf(l)))
  {
    var ok := ExpectNullSymmetric(r);
    if !ok { return None; }
    ok := SkipScheme(r, ALG_ECDAA);
    if !ok { return None; }
    var curve := r.NextU16();
    if curve.None? { return None; }
    ok := SkipScheme(r, ALG_NULL);
    if !ok { return None; }
    var x := r.NextSized();
    if x.None? { return None; }
    var y := r.NextSized();
    if y.None? { return None; }
    key := Some(Ecc(x.value, y.value));
  }

  method ParseAkPublic(bytes: Str) returns (key: Option<AkKey>)
    ensures key == ParseAk(bytes)
  {
    var r := new Reader(bytes);
    var kind := r.NextU16();
    if kind.None? { return None; }
    var nameAlg := r.NextU16();
    if nameAlg.None? { return None; }
    var attributes := r.NextU32();
    if attributes.None? { return None; }
    var policy := r.NextSized();
    if policy.None? { return None; }
    ghost var c := Common(nameAlg.value, attributes.value, policy.value);
    if kind.value == ALG_RSA {
      key := ReadRsa(r, c);
    } else if kind.value == ALG_ECC {
      key := ReadEcc(r, c);
    } else {
      key := None;
    }
  }

  // ----- Reading is exactly the inverse of marshalling -----

  lemma SchemeExactly(s: Str, special: U16, v: Scheme, rest: Str)
    ensures TakeScheme(s, special) == Some((v, rest)) <==>
            ValidScheme(v, special) && s == SchemeBytes(v, special) + rest
  {
    if TakeScheme(s, special) == Some((v, rest)) {
      SchemeForward(s, special, v, rest);
    }
    if ValidScheme(v, special) && s == SchemeBytes(v, special) + rest {
      SchemeBackward(s, special, v, rest);
    }
  }

  lemma SchemeForward(s: Str, special: U16, v: Scheme, rest: Str)
    requires TakeScheme(s, special) == Some((v, rest))
    ensures ValidScheme(v, special) && s == SchemeBytes(v, special) + rest
  {
    var (selector, s1) := TakeU16(s).value;
    TakeU16Exactly(s, selector, s1);
    if selector != ALG_NULL {
      var (hash, s2) := TakeU16(s1).value;
      TakeU16Exactly(s1, hash, s2);
      if selector == special {
        var field := ExtraForward(s2, special, v.extra, rest);
        Appended(BeU16(hash), field, rest);
        Appended(BeU16(special), BeU16(hash) + field, rest);
      } else {
        Appended(BeU16(selector), BeU16(hash), rest);
      }
    }
  }

  lemma ExtraForward(s: Str, special: U16, extra: Str, rest: Str) returns (field: Str)
    requires (if special == ALG_ECDAA then Take(s, 2) else TakeSized(s)) == Some((extra, rest))
    ensures |extra| < U16_LIMIT && (special == ALG_ECDAA ==> |extra| == 2)
    ensures field == (if special == ALG_ECDAA then extra else Sized(extra)) && s == field + rest
  {
    if special == ALG_ECDAA {
      TakeExactly(s, 2, extra, rest);
      field := extra;
    } else {
      TakeSizedExactly(s, extra, rest);
      field := Sized(extra);
    }
  }

  lemma SchemeBackward(s: Str, special: U16, v: Scheme, rest: Str)
    requires ValidScheme(v, special) && s == SchemeBytes(v, special) + rest
    ensures TakeScheme(s, special) == Some((v, rest))
  {
    match v
    case NullScheme =>
      TakeU16Exactly(s, ALG_NULL, rest);
    case Hashed(selector, hash) =>
      TakeTwoU16(selector, hash, rest);
      Appended(BeU16(selector), BeU16(hash), rest);
    case Extended(hash, extra) =>
      var field := if special == ALG_ECDAA then extra else Sized(extra);
      TakeTwoU16(special, hash, field + rest);
      Appended(BeU16(special), BeU16(hash) + field, rest);
      Appended(BeU16(hash), field, rest);
      if special == ALG_ECDAA { TakeExactly(field + rest, 2, extra, rest); } else { TakeSizedExactly(field + rest, extra, rest); }
  }

  lemma TakeTwoU16(m: U16, n: U16, rest: Str)
    ensures TakeU16(BeU16(m) + (BeU16(n) + rest)) == Some((m, BeU16(n) + rest))
    ensures TakeU16(BeU16(n) + rest) == Some((n, rest))
  {
    TakeU16Exactly(BeU16(m) + (BeU16(n) + rest), m, BeU16(n) + rest);
    TakeU16Exactly(BeU16(n) + rest, n, rest);
  }

  lemma CommonForward(s: Str, kind: U16, c: Common, rest: Str)
    requires TakeCommon(s) == Some(((kind, c), rest))
    ensures |c.authPolicy| < U16_LIMIT && s == CommonBytes(kind, c) + rest
  {
    var s1 := TakeU16(s).value.1;
    var s2 := TakeU16(s1).value.1;
    var s3 := TakeU32(s2).value.1;
    TakeU16Exactly(s, kind, s1);
    TakeU16Exactly(s1, c.nameAlg, s2);
    TakeU32Exactly(s2, c.attributes, s3);
    TakeSizedExactly(s3, c.authPolicy, rest);
    CommonNested(BeU16(kind), BeU16(c.nameAlg), BeU32(c.attributes), Sized(c.authPolicy), rest);
  }

  lemma CommonBackward(kind: U16, c: Common, rest: Str)
    requires |c.authPolicy| < U16_LIMIT
    ensures TakeCommon(CommonBytes(kind, c) + rest) == Some(((kind, c), rest))
  {
    var s3 := Sized(c.authPolicy) + rest;
    var s2 := BeU32(c.attributes) + s3;
    CommonNested(BeU16(kind), BeU16(c.nameAlg), BeU32(c.attributes), Sized(c.authPolicy), rest);
    TakeTwoU16(kind, c.nameAlg, s2);
    TakeU32Exactly(s2, c.attributes, s3);
    TakeSizedExactly(s3, c.authPolicy, rest);
  }

  lemma CommonNested(a: Str, b: Str, c: Str, d: Str, rest: Str)
    ensures a + (b + (c + d)) + rest == a + (b + (c + (d + rest)))
  {
    Appended(a, b + (c + d), rest);
    Appended(b, c + d, rest);
    Appended(c, d, rest);
  }

  lemma CommonExactly(s: Str, kind: U16, c: Common, rest: Str)
    ensures TakeCommon(s) == Some(((kind, c), rest)) <==>
            |c.authPolicy| < U16_LIMIT && s == CommonBytes(kind, c) + rest
  {
    if TakeCommon(s) == Some(((kind, c), rest)) { CommonForward(s, kind, c, rest); }
    if |c.authPolicy| < U16_LIMIT && s == CommonBytes(kind, c) + rest { CommonBackward(kind, c, rest); }
  }

  lemma RsaForward(c: Common, s: Str, l: Layout, rest: Str)
    requires TakeRsa(c, s) == Some((l, rest)) && |c.authPolicy| < U16_LIMIT
    ensures l.RsaLayout? && l.common == c && Valid(l) && s == BodyBytes(l) + rest
  {
    var s1 := TakeU16(s).value.1;
    var s2 := TakeScheme(s1, ALG_OAEP).value.1;
    var s3 := TakeU16(s2).value.1;
    var s4 := TakeU32(s3).value.1;
    TakeU16Exactly(s, ALG_NULL, s1);
    SchemeExactly(s1, ALG_OAEP, l.scheme, s2);
    TakeU16Exactly(s2, l.keyBits, s3);
    TakeU32Exactly(s3, l.exponent, s4);
    TakeSizedExactly(s4, l.modulus, rest);
    Nested(BeU16(ALG_NULL), SchemeBytes(l.scheme, ALG_OAEP), BeU16(l.keyBits), BeU32(l.exponent), Sized(l.modulus), rest);
  }

  lemma RsaBackward(l: Layout, rest: Str)
    requires l.RsaLayout? && Valid(l)
    ensures TakeRsa(l.common, BodyBytes(l) + rest) == Some((l, rest))
  {
    var s4 := Sized(l.modulus) + rest;
    var s3 := BeU32(l.exponent) + s4;
    var s2 := BeU16(l.keyBits) + s3;
    var s1 := SchemeBytes(l.scheme, ALG_OAEP) + s2;
    Nested(BeU16(ALG_NULL), SchemeBytes(l.scheme, ALG_OAEP), BeU16(l.keyBits), BeU32(l.exponent), Sized(l.modulus), rest);
    TakeU16Exactly(BeU16(ALG_NULL) + s1, ALG_NULL, s1);
    SchemeExactly(s1, ALG_OAEP, l.scheme, s2);
    TakeU16Exactly(s2, l.keyBits, s3);
    TakeU32Exactly(s3, l.exponent, s4);
    TakeSizedExactly(s4, l.modulus, rest);
  }

  lemma EccForward(c: Common, s: Str, l: Layout, rest: Str)
    requires TakeEcc(c, s) == Some((l, rest)) && |c.authPolicy| < U16_LIMIT
    ensures l.EccLayout? && l.common == c && Valid(l) && s == BodyBytes(l) + rest
  {
    var s1 := TakeU16(s).value.1;
    var s2 := TakeScheme(s1, ALG_ECDAA).value.1;
    var s3 := TakeU16(s2).value.1;
    var s4 := TakeScheme(s3, ALG_NULL).value.1;
    var s5 := TakeSized(s4).value.1;
    TakeU16Exactly(s, ALG_NULL, s1);
    SchemeExactly(s1, ALG_ECDAA, l.scheme, s2);
    TakeU16Exactly(s2, l.curve, s3);
    SchemeExactly(s3, ALG_NULL, l.kdf, s4);
    TakeSizedExactly(s4, l.x, s5);
    TakeSizedExactly(s5, l.y, rest);
    EccNested(l, rest);
  }

  lemma EccBackward(l: Layout, rest: Str)
    requires l.EccLayout? && Valid(l)
    ensures TakeEcc(l.common, BodyBytes(l) + rest) == Some((l, rest))
  {
    var s5 := Sized(l.y) + rest;
    var s4 := Sized(l.x) + s5;
    var s3 := SchemeBytes(l.kdf, ALG_NULL) + s4;
    var s2 := BeU16(l.curve) + s3;
    var s1 := SchemeBytes(l.scheme, ALG_ECDAA) + s2;
    EccNested(l, rest);
    TakeU16Exactly(BeU16(ALG_NULL) + s1, ALG_NULL, s1);
    SchemeExactly(s1, ALG_ECDAA, l.scheme, s2);
    TakeU16Exactly(s2, l.curve, s3);
    SchemeExactly(s3, ALG_NULL, l.kdf, s4);
    TakeSizedExactly(s4, l.x, s5);
    TakeSizedExactly(s5, l.y, rest);
  }

  lemma EccNested(l: Layout, rest: Str)
    requires l.EccLayout? && Valid(l)
    ensures BodyBytes(l) + rest ==
            BeU16(ALG_NULL) + (SchemeBytes(l.scheme, ALG_ECDAA) + (BeU16(l.curve) +
            (SchemeBytes(l.kdf, ALG_NULL) + (Sized(l.x) + (Sized(l.y) + rest)))))
  {
    var xy := Sized(l.x) + Sized(l.y);
    assert xy + rest == Sized(l.x) + (Sized(l.y) + rest);
    Nested(BeU16(ALG_NULL), SchemeBytes(l.scheme, ALG_ECDAA), BeU16(l.curve), SchemeBytes(l.kdf, ALG_NULL), xy, rest);
  }

  lemma BodyExactly(kind: U16, c: Common, s: Str, l: Layout, rest: Str)
    requires |c.authPolicy| < U16_LIMIT
    ensures TakeBody(kind, c, s) == Some((l, rest)) <==>
            Valid(l) && l.common == c && KindOf(l) == kind && s == BodyBytes(l) + rest
  {
    if TakeBody(kind, c, s) == Some((l, rest)) {
      if kind == ALG_RSA { RsaForward(c, s, l, rest); } else { EccForward(c, s, l, rest); }
    }
    if Valid(l) && l.common == c && KindOf(l) == kind {
      if l.RsaLayout? { RsaBackward(l, rest); } else { EccBackward(l, rest); }
    }
  }

  /** Bytes are read as a layout exactly when they begin with its marshalled form. */
  lemma LayoutExactly(s: Str, l: Layout, rest: Str)
    ensures TakeLayout(s) == Some((l, rest)) <==> Valid(l) && s == Marshal(l) + rest
  {
    if TakeLayout(s) == Some((l, rest)) {
      var ((kind, c), body) := TakeCommon(s).value;
      CommonExactly(s, kind, c, body);
      BodyExactly(kind, c, body, l, rest);
      Appended(CommonBytes(kind, c), BodyBytes(l), rest);
    }
    if Valid(l) && s == Marshal(l) + rest {
      LayoutBackward(l, rest);
    }
  }

  lemma LayoutBackward(l: Layout, rest: Str)
    requires Valid(l)
    ensures TakeLayout(Marshal(l) + rest) == Some((l, rest))
  {
    var s, body := Marshal(l) + rest, BodyBytes(l) + rest;
    Appended(CommonBytes(KindOf(l), l.common), BodyBytes(l), rest);
    CommonExactly(s, KindOf(l), l.common, body);
    BodyExactly(KindOf(l), l.common, body, l, rest);
  }

  /** Every marshalled signing key is recovered, whatever bytes follow it. */
  lemma MarshalledKeyRecovered(l: Layout, rest: Str)
    requires Valid(l)
    ensures l.RsaLayout? ==>
              ParseAk(Marshal(l) + rest) == Some(Rsa(l.modulus, if l.exponent == 0 then 65537 else l.exponent))
    ensures l.EccLayout? ==> ParseAk(Marshal(l) + rest) == Some(Ecc(l.x, l.y))
  {
    LayoutExactly(Marshal(l) + rest, l, rest);
  }

  /** Only marshalled layouts are accepted; that the scheme is one of signing is not tested. */
  lemma AcceptedIsMarshalled(bytes: Str) returns (l: Layout, rest: Str)
    requires ParseAk(bytes).Some?
    ensures Valid(l) && bytes == Marshal(l) + rest && ParseAk(bytes).value == KeyOf(l)
  {
    l, rest := TakeLayout(bytes).value.0, TakeLayout(bytes).value.1;
    LayoutExactly(bytes, l, rest);
  }

  /** What follows a layout does not change how it is read. */
  lemma ReadsOnward(s: Str, l: Layout, rest: Str, more: Str)
    requires TakeLayout(s) == Some((l, rest))
    ensures TakeLayout(s + more) == Some((l, rest + more))
  {
    LayoutExactly(s, l, rest);
    Appended(Marshal(l), rest, more);
    LayoutBackward(l, rest + more);
  }

  /** No accepted encoding is cut short into another: every strict prefix is refused. */
  lemma PrefixRefused(l: Layout, n: nat)
    requires Valid(l) && n < |Marshal(l)|
    ensures ParseAk(Marshal(l)[..n]) == None
  {
    LayoutBackward(l, []);
    assert Marshal(l) + [] == Marshal(l);
    ShorterIsRefused(Marshal(l), n, l);
  }

  lemma ShorterIsRefused(s: Str, n: nat, l: Layout)
    requires n < |s| && TakeLayout(s) == Some((l, []))
    ensures ParseAk(s[..n]) == None
  {
    assert s[..n] + s[n..] == s;
    if TakeLayout(s[..n]).Some? {
      ReadsOnward(s[..n], TakeLayout(s[..n]).value.0, TakeLayout(s[..n]).value.1, s[n..]);
    }
  }

  // ----- Encryption schemes, which no signing key has -----

  /** An RSA key as a TPM writes it: RSAES has no parameters, and OAEP a hash but no label. */
  function EncryptionKeyBytes(c: Common, oaepHash: Option<U16>, bits: U16, exponent: U32, modulus: Str): Str
    requires |c.authPolicy| < U16_LIMIT && |modulus| < U16_LIMIT
  {
    CommonBytes(ALG_RSA, c) + (BeU16(ALG_NULL) + EncryptionParameters(oaepHash, bits, exponent, modulus))
  }

  function EncryptionParameters(oaepHash: Option<U16>, bits: U16, exponent: U32, modulus: Str): Str
    requires |modulus| < U16_LIMIT
  {
    var key := BeU16(bits) + (BeU32(exponent) + Sized(modulus));
    if oaepHash.None? then BeU16(ALG_RSAES) + key else BeU16(ALG_OAEP) + (BeU16(oaepHash.value) + key)
  }

  /** Behind any selector but NULL the code takes a hash, and behind OAEP a label as well. */
  lemma TakesHash(c: Common, s: Str, selector: U16, tail: Str)
    requires selector != ALG_NULL && s == BeU16(ALG_NULL) + (BeU16(selector) + tail)
    requires TakeRsa(c, s).Some?
    ensures var l := TakeRsa(c, s).value.0;
            l.RsaLayout? && |l.modulus| + 10 + (if selector == ALG_OAEP then 2 else 0) <= |tail|
  {
    TakeU16Exactly(s, ALG_NULL, BeU16(selector) + tail);
    TakeU16Exactly(BeU16(selector) + tail, selector, tail);
  }

  /** A key with an encryption scheme is never recovered: it is refused, or read with a shorter modulus. */
  lemma EncryptionKeyMisread(c: Common, oaepHash: Option<U16>, bits: U16, exponent: U32, modulus: Str)
    requires |c.authPolicy| < U16_LIMIT && |modulus| < U16_LIMIT
    ensures var r := ParseAk(EncryptionKeyBytes(c, oaepHash, bits, exponent, modulus));
            r.None? || (r.value.Rsa? && |r.value.modulus| + 2 <= |modulus|)
  {
    var key := BeU16(bits) + (BeU32(exponent) + Sized(modulus));
    var s := BeU16(ALG_NULL) + EncryptionParameters(oaepHash, bits, exponent, modulus);
    CommonExactly(CommonBytes(ALG_RSA, c) + s, ALG_RSA, c, s);
    if TakeRsa(c, s).Some? {
      if oaepHash.None? {
        TakesHash(c, s, ALG_RSAES, key);
      } else {
        TakesHash(c, s, ALG_OAEP, BeU16(oaepHash.value) + key);
      }
    }
  }

  // ----- The bytes of a key, and what is made of them -----

  /** Signing schemes of RSA: NULL, RSASSA with its hash, RSAPSS with its hash. */
  predicate IsRsaScheme(s: Str) {
    || s == [0x00, 0x10]
    || (|s| == 4 && s[0] == 0x00 && (s[1] == 0x14 || s[1] == 0x16))
  }

  /** Signing schemes of ECC: NULL, one with a hash, or ECDAA with a hash and a count. */
  predicate IsEccScheme(s: Str) {
    || s == [0x00, 0x10]
    || (|s| == 4 && !(s[0] == 0x00 && (s[1] == 0x10 || s[1] == 0x1A)))
    || (|s| == 6 && s[0] == 0x00 && s[1] == 0x1A)
  }

  /** Key derivation: NULL, or a scheme with a hash. */
  predicate IsKdf(s: Str) {
    || s == [0x00, 0x10]
    || (|s| == 4 && !(s[0] == 0x00 && s[1] == 0x10))
  }

  /** The head of a public area: type, name algorithm, attributes and policy. */
  function HeadBytes(kind: Byte, nameAlg: Str, attributes: Str, policy: Str): Str
    requires |policy| < 0x1_0000
  {
    [0x00, kind] + (nameAlg + (attributes + Counted(policy)))
  }

  lemma HeadIsRead(kind: Byte, nameAlg: Str, attributes: Str, policy: Str, rest: Str)
    requires |nameAlg| == 2 && |attributes| == 4 && |policy| < 0x1_0000
    ensures TakeCommon(HeadBytes(kind, nameAlg, attributes, policy) + rest).Some?
    ensures var ((k, c), tail) := TakeCommon(HeadBytes(kind, nameAlg, attributes, policy) + rest).value;
            k == kind && tail == rest
  {
    Value16(nameAlg);
    Value32(attributes);
    var c := Common(BeValue(nameAlg), BeValue(attributes), policy);
    SizedIsCounted(policy);
    BigEndian16(kind);
    BytesOfValue16(nameAlg);
    BytesOfValue32(attributes);
    CommonExactly(HeadBytes(kind, nameAlg, attributes, policy) + rest, kind, c, rest);
  }

  lemma BytesOfValue16(s: Str)
    requires |s| == 2 && BeValue(s) < U16_LIMIT
    ensures BeU16(BeValue(s)) == s
  {
    BeU16Value(BeValue(s));
    BeValueInjective(BeU16(BeValue(s)), s);
  }

  lemma BytesOfValue32(s: Str)
    requires |s| == 4 && BeValue(s) < U32_LIMIT
    ensures BeU32(BeValue(s)) == s
  {
    BeU32Value(BeValue(s));
    BeValueInjective(BeU32(BeValue(s)), s);
  }

  lemma SelectorIsRead(hi: Byte, lo: Byte, rest: Str)
    ensures TakeU16([hi, lo] + rest) == Some((256 * hi as int + lo, rest))
  {
    var n: U16 := 256 * hi as int + lo;
    BigEndian16(n);
    TakeU16Exactly([hi, lo] + rest, n, rest);
  }

  lemma NullIsRead(special: U16, rest: Str)
    ensures TakeScheme([0x00, 0x10] + rest, special) == Some((NullScheme, rest))
  {
    SelectorIsRead(0x00, 0x10, rest);
  }

  lemma HashedIsRead(s: Str, special: U16, rest: Str)
    requires |s| == 4 && 256 * s[0] as int + s[1] != 0x0010 && 256 * s[0] as int + s[1] != special
    ensures TakeScheme(s + rest, special).Some? && TakeScheme(s + rest, special).value.1 == rest
  {
    assert s + rest == [s[0], s[1]] + ([s[2], s[3]] + rest);
    SelectorIsRead(s[0], s[1], [s[2], s[3]] + rest);
    SelectorIsRead(s[2], s[3], rest);
  }

  lemma EcdaaIsRead(s: Str, rest: Str)
    requires |s| == 6 && s[0] == 0x00 && s[1] == 0x1A
    ensures TakeScheme(s + rest, ALG_ECDAA).Some? && TakeScheme(s + rest, ALG_ECDAA).value.1 == rest
  {
    var count := [s[4], s[5]];
    assert s + rest == [s[0], s[1]] + ([s[2], s[3]] + (count + rest));
    SelectorIsRead(s[0], s[1], [s[2], s[3]] + (count + rest));
    SelectorIsRead(s[2], s[3], count + rest);
    TakeExactly(count + rest, 2, count, rest);
  }

  lemma SchemeIsRead(s: Str, special: U16, rest: Str)
    requires (special == ALG_OAEP && IsRsaScheme(s)) || (special == ALG_ECDAA && IsEccScheme(s)) || (special == ALG_NULL && IsKdf(s))
    ensures TakeScheme(s + rest, special).Some? && TakeScheme(s + rest, special).value.1 == rest
  {
    if s == [0x00, 0x10] {
      NullIsRead(special, rest);
    } else if |s| == 6 {
      EcdaaIsRead(s, rest);
    } else {
      HashedIsRead(s, special, rest);
    }
  }

  lemma CountedIsRead(v: Str, rest: Str)
    requires |v| < 0x1_0000
    ensures TakeSized(Counted(v) + rest) == Some((v, rest))
  {
    SizedIsCounted(v);
    TakeSizedExactly(Counted(v) + rest, v, rest);
  }

  lemma RsaBodyIsRead(c: Common, scheme: Str, bits: Str, e: Str, n: Str, rest: Str, s: Str)
    requires IsRsaScheme(scheme) && |bits| == 2 && |e| == 4 && |n| < 0x1_0000
    requires s == [0x00, 0x10] + (scheme + (bits + (e + (Counted(n) + rest))))
    ensures TakeRsa(c, s).Some?
    ensures var l := TakeRsa(c, s).value.0; l.RsaLayout? && l.modulus == n && l.exponent == BeValue(e)
  {
    var s4 := Counted(n) + rest;
    var s3 := e + s4;
    var s2 := bits + s3;
    SelectorIsRead(0x00, 0x10, scheme + s2);
    SchemeIsRead(scheme, ALG_OAEP, s2);
    Value16(bits);
    Value32(e);
    assert s2[..2] == bits && s2[2..] == s3 && s3[..4] == e && s3[4..] == s4;
    CountedIsRead(n, rest);
  }

  /** From the bytes of an RSA signing key, whatever follows: modulus and exponent, 0 standing for 65537. */
  lemma RsaKeyRecovered(nameAlg: Str, attributes: Str, policy: Str, scheme: Str, bits: Str, e: Str, n: Str, rest: Str)
    requires |nameAlg| == 2 && |attributes| == 4 && |policy| < 0x1_0000
    requires IsRsaScheme(scheme) && |bits| == 2 && |e| == 4 && |n| < 0x1_0000 && BeValue(e) < 0x1_0000_0000
    ensures var body := [0x00, 0x10] + (scheme + (bits + (e + (Counted(n) + rest))));
            ParseAk(HeadBytes(0x01, nameAlg, attributes, policy) + body) ==
            Some(Rsa(n, if BeValue(e) == 0 then 65537 else BeValue(e)))
  {
    var body := [0x00, 0x10] + (scheme + (bits + (e + (Counted(n) + rest))));
    HeadIsRead(0x01, nameAlg, attributes, policy, body);
    var c := TakeCommon(HeadBytes(0x01, nameAlg, attributes, policy) + body).value.0.1;
    RsaBodyIsRead(c, scheme, bits, e, n, rest, body);
  }

  lemma EccBodyIsRead(c: Common, scheme: Str, curve: Str, kdf: Str, x: Str, y: Str, rest: Str, s: Str)
    requires IsEccScheme(scheme) && |curve| == 2 && IsKdf(kdf) && |x| < 0x1_0000 && |y| < 0x1_0000
    requires s == [0x00, 0x10] + (scheme + (curve + (kdf + (Counted(x) + (Counted(y) + rest)))))
    ensures TakeEcc(c, s).Some?
    ensures var l := TakeEcc(c, s).value.0; l.EccLayout? && l.x == x && l.y == y
  {
    var s5 := Counted(y) + rest;
    var s4 := Counted(x) + s5;
    var s3 := kdf + s4;
    var s2 := curve + s3;
    SelectorIsRead(0x00, 0x10, scheme + s2);
    SchemeIsRead(scheme, ALG_ECDAA, s2);
    Value16(curve);
    assert s2[..2] == curve && s2[2..] == s3;
    SchemeIsRead(kdf, ALG_NULL, s4);
    CountedIsRead(x, s5);
    CountedIsRead(y, rest);
  }

  /** From the bytes of an ECC signing key, whatever follows: the point, x before y. */
  lemma EccKeyRecovered(nameAlg: Str, attributes: Str, policy: Str, scheme: Str, curve: Str, kdf: Str, x: Str, y: Str, rest: Str)
    requires |nameAlg| == 2 && |attributes| == 4 && |policy| < 0x1_0000
    requires IsEccScheme(scheme) && |curve| == 2 && IsKdf(kdf) && |x| < 0x1_0000 && |y| < 0x1_0000
    ensures var body := [0x00, 0x10] + (scheme + (curve + (kdf + (Counted(x) + (Counted(y) + rest)))));
            ParseAk(HeadBytes(0x23, nameAlg, attributes, policy) + body) == Some(Ecc(x, y))
  {
    var body := [0x00, 0x10] + (scheme + (curve + (kdf + (Counted(x) + (Counted(y) + rest)))));
    HeadIsRead(0x23, nameAlg, attributes, policy, body);
    var c := TakeCommon(HeadBytes(0x23, nameAlg, attributes, policy) + body).value.0.1;
    EccBodyIsRead(c, scheme, curve, kdf, x, y, rest, body);
  }
}
