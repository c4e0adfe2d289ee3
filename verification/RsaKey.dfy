/**
  The endorsement key's way from node to server: the node writes its RSA key as a
  SubjectPublicKeyInfo (section 4.1.2.7 of RFC 5280), and the server reads the RSAPublicKey
  inside it (appendix A.1.1 of RFC 8017).
 */
module RsaKey {
  import opened Bytes
  import opened Der

  const BIT_STRING: Byte := 0x03
  const RSA_ALGORITHM: Str := [0x06, 0x09, 0x2a, 0x86, 0x48, 0x86, 0xf7, 0x0d, 0x01, 0x01, 0x01, 0x05, 0x00]

  // ----- Writing -----

  function DerInteger(v: Str): Str
    requires 0 < |v| < U63_LIMIT
  {
    Tlv(INTEGER, SignPad(StripZeros(v)))
  }

  function RsaBody(modulus: Str, exponent: U32): Str
    requires 0 < |modulus| < U63_LIMIT
  {
    DerInteger(modulus) + DerInteger(BeU32(exponent))
  }

  lemma SizeLimits(modulus: Str, exponent: U32)
    requires 0 < |modulus| < U63_LIMIT
    ensures |RsaBody(modulus, exponent)| <= |modulus| + 30
    ensures |DerInteger(modulus)| <= |modulus| + 11
  {
    LengthWidth(|SignPad(StripZeros(modulus))|);
    LengthWidth(|SignPad(StripZeros(BeU32(exponent)))|);
  }

  /** The RSAPublicKey structure: a SEQUENCE of modulus and exponent. */
  function RsaPublicKey(modulus: Str, exponent: U32): Str
    requires 0 < |modulus| < U63_LIMIT
  {
    SizeLimits(modulus, exponent);
    Tlv(SEQUENCE, RsaBody(modulus, exponent))
  }

  function SpkiBody(key: Str): Str
    requires |key| < U64_LIMIT - 1
  {
    Tlv(SEQUENCE, RSA_ALGORITHM) + Tlv(BIT_STRING, [0] + key)
  }

  function Spki(modulus: Str, exponent: U32): Str
    requires 0 < |modulus| < U63_LIMIT
  {
    var key := RsaPublicKey(modulus, exponent);
    SpkiSizes(modulus, exponent);
    Tlv(SEQUENCE, SpkiBody(key))
  }

  lemma SpkiSizes(modulus: Str, exponent: U32)
    requires 0 < |modulus| < U63_LIMIT
    ensures |RsaPublicKey(modulus, exponent)| <= |modulus| + 40
    ensures |SpkiBody(RsaPublicKey(modulus, exponent))| <= |modulus| + 70
  {
    SizeLimits(modulus, exponent);
    LengthWidth(|RsaBody(modulus, exponent)|);
    LengthWidth(|RsaPublicKey(modulus, exponent)| + 1);
  }

  method WriteTlv(tag: Byte, body: Str) returns (out: Str)
    requires |body| < U64_LIMIT
    ensures out == Tlv(tag, body)
  {
    var len := WriteDerLen(|body|);
    out := [tag] + len + body;
  }

  /** `der_integer`: drops leading zeros in a loop, then pads. An empty value would panic. */
  method WriteDerInteger(value: Str) returns (out: Str)
    requires 0 < |value| < U63_LIMIT
    ensures out == DerInteger(value)
  {
    var v := value;
    while |v| > 1 && v[0] == 0
      invariant 0 < |v| <= |value|
      invariant StripZeros(v) == StripZeros(value)
      decreases |v|
    {
      v := v[1..];
    }
    var body: Str := [];
    if v[0] >= 0x80 {
      body := body + [0];
    }
    body := body + v;
    out := WriteTlv(INTEGER, body);
  }

  /** `rsa_public_to_spki` */
  method WriteSpki(modulus: Str, exponent: U32) returns (out: Str)
    requires 0 < |modulus| < U63_LIMIT
    ensures out == Spki(modulus, exponent)
  {
    SizeLimits(modulus, exponent);
    SpkiSizes(modulus, exponent);
    var algorithm := WriteTlv(SEQUENCE, RSA_ALGORITHM);
    var modInt := WriteDerInteger(modulus);
    var expInt := WriteDerInteger(BeU32(exponent));
    var key := WriteTlv(SEQUENCE, modInt + expInt);
    var bits := WriteTlv(BIT_STRING, [0] + key);
    out := WriteTlv(SEQUENCE, algorithm + bits);
  }

  // ----- Reading -----

  /** `Panics` is a slice beyond the end of the input, which the reader does not check. */
  datatype Parsed = Key(modulus: Str, exponent: U32) | Invalid | Panics

  datatype Field = Field(body: Str, next: nat) | Bad | OutOfBounds

  /** The body of the INTEGER at `offset`, and the offset after it. */
  function ParseInteger(der: Str, offset: nat): Field {
    if |der| <= offset || der[offset] != INTEGER then Bad else
    match ParseLen(der[offset + 1..])
    case None => Bad
    case Some((len, consumed)) =>
      var start := offset + 1 + consumed;
      if start + len > |der| then OutOfBounds else Field(der[start..start + len], start + len)
  }

  function DropSign(body: Str): Str {
    if |body| > 1 && body[0] == 0 then body[1..] else body
  }

  /** A TPM writes the default exponent 65537 as 0. */
  function TpmExponent(e: U32): U32 {
    if e == 65537 then 0 else e
  }

  function ParseRsaKey(der: Str): Parsed {
    if der == [] || der[0] != SEQUENCE then Invalid else
    match ParseLen(der[1..])
    case None => Invalid
    case Some((_, consumed)) => ParseFields(der, 1 + consumed)
  }

  function ParseFields(der: Str, offset: nat): Parsed {
    match ParseInteger(der, offset)
    case Bad => Invalid
    case OutOfBounds => Panics
    case Field(modulus, next) =>
      match ParseInteger(der, next)
      case Bad => Invalid
      case OutOfBounds => Panics
      case Field(exponent, _) => Key(DropSign(modulus), TpmExponent(FoldU32(exponent)))
  }

  /** The tag check, length and slice that `parse_rsa_public_key` does for each INTEGER. */
  method ReadIntegerAt(der: Str, start: nat) returns (r: Field)
    ensures r == ParseInteger(der, start)
  {
    if |der| <= start || der[start] != INTEGER {
      return Bad;
    }
    var len := ReadEkLength(der[start + 1..]);
    if len.InvalidEk? {
      return Bad;
    }
    var offset := start + 1 + len.value.1;
    if offset + len.value.0 > |der| {
      return OutOfBounds;
    }
    r := Field(der[offset..offset + len.value.0], offset + len.value.0);
  }

  method FoldExponent(bytes: Str) returns (exponent: U32)
    ensures exponent == FoldU32(bytes)
  {
    exponent := 0;
    for i := 0 to |bytes|
      invariant exponent == FoldU32(bytes[..i])
    {
      assert bytes[..i + 1][..i] == bytes[..i];
      exponent := (exponent * 256 + bytes[i]) % U32_LIMIT;
    }
    assert bytes[..|bytes|] == bytes;
  }

  /** `parse_rsa_public_key` */
  method ReadRsaKey(der: Str) returns (r: Parsed)
    ensures r == ParseRsaKey(der)
  {
    if |der| == 0 || der[0] != SEQUENCE {
      return Invalid;
    }
    var len := ReadEkLength(der[1..]);
    if len.InvalidEk? {
      return Invalid;
    }
    var offset := len.value.1 + 1;
    var field := ReadIntegerAt(der, offset);
    if !field.Field? {
      return if field.Bad? then Invalid else Panics;
    }
    var modulus := field.body;
    if |modulus| > 1 && modulus[0] == 0 {
      modulus := modulus[1..];
    }
    offset := field.next;
    field := ReadIntegerAt(der, offset);
    if !field.Field? {
      return if field.Bad? then Invalid else Panics;
    }
    var exponent := FoldExponent(field.body);
    if exponent == 65537 {
      exponent := 0;
    }
    r := Key(modulus, exponent);
  }

  // ----- When reading panics -----

  /** A tag, length octets, and the bytes behind them. */
  predicate IsInteger(s: Str, octets: Str, n: nat, tail: Str) {
    s == [INTEGER] + octets + tail && IsLength(octets, n)
  }

  /** An INTEGER that ends before its length does. */
  ghost predicate CutShort(s: Str) {
    exists octets, n: nat, body :: IsInteger(s, octets, n, body) && |body| < n
  }

  /** A whole INTEGER, and one cut short behind it. */
  ghost predicate SecondCutShort(s: Str) {
    exists octets, n: nat, tail :: IsInteger(s, octets, n, tail) && n <= |tail| && CutShort(tail[n..])
  }

  /** A SEQUENCE of any length whose first or second INTEGER is cut short. */
  ghost predicate Truncated(der: Str) {
    exists octets, s :: StartsSequence(der, octets, s) && (CutShort(s) || SecondCutShort(s))
  }

  ghost predicate StartsSequence(der: Str, octets: Str, s: Str) {
    der == [SEQUENCE] + octets + s && exists n :: IsLength(octets, n)
  }

  /** An INTEGER as the reader splits it: tag, length octets, and what is left behind them. */
  lemma SplitInteger(der: Str, offset: nat) returns (octets: Str, n: nat, tail: Str)
    requires offset < |der| && der[offset] == INTEGER && ParseLen(der[offset + 1..]).Some?
    ensures IsInteger(der[offset..], octets, n, tail)
    ensures ParseLen(der[offset + 1..]) == Some((n, |octets|)) && tail == der[offset + 1 + |octets|..]
  {
    var s, used := der[offset + 1..], 0;
    n, used := ParseLen(s).value.0, ParseLen(s).value.1;
    octets, tail := s[..used], s[used..];
    SplitLength(s, n, used);
    assert s == octets + tail;
    assert der[offset..] == [INTEGER] + s;
  }

  /** And back: what the reader makes of such an INTEGER. */
  lemma JoinInteger(der: Str, offset: nat, octets: Str, n: nat, tail: Str)
    requires offset <= |der| && IsInteger(der[offset..], octets, n, tail)
    ensures offset < |der| && der[offset] == INTEGER && ParseLen(der[offset + 1..]) == Some((n, |octets|))
    ensures der[offset + 1 + |octets|..] == tail
  {
    var s := der[offset..];
    assert der[offset] == s[0] && der[offset + 1..] == s[1..] == octets + tail;
    LengthIsLocal(octets, tail, n);
    assert der[offset + 1..][|octets|..] == tail;
  }

  lemma IntegerCutShort(der: Str, offset: nat)
    requires offset <= |der|
    ensures ParseInteger(der, offset) == OutOfBounds <==> CutShort(der[offset..])
  {
    if ParseInteger(der, offset) == OutOfBounds {
      var octets, n, body := SplitInteger(der, offset);
      assert |body| < n;
    }
    if CutShort(der[offset..]) {
      var octets, n: nat, body :| IsInteger(der[offset..], octets, n, body) && |body| < n;
      JoinInteger(der, offset, octets, n, body);
    }
  }

  lemma SecondIsCut(der: Str, offset: nat)
    requires offset <= |der|
    requires var r := ParseInteger(der, offset); r.Field? && r.next <= |der| && CutShort(der[r.next..])
    ensures SecondCutShort(der[offset..])
  {
    var octets, n, tail := SplitInteger(der, offset);
    assert tail[n..] == der[ParseInteger(der, offset).next..];
  }

  lemma CutIsSecond(der: Str, offset: nat)
    requires offset <= |der| && SecondCutShort(der[offset..])
    ensures var r := ParseInteger(der, offset); r.Field? && r.next <= |der| && CutShort(der[r.next..])
  {
    var octets, n: nat, tail :| IsInteger(der[offset..], octets, n, tail) && n <= |tail| && CutShort(tail[n..]);
    JoinInteger(der, offset, octets, n, tail);
    assert tail[n..] == der[offset + 1 + |octets| + n..];
  }

  lemma FieldsPanicExactly(der: Str, offset: nat)
    requires offset <= |der|
    ensures ParseFields(der, offset) == Panics <==> CutShort(der[offset..]) || SecondCutShort(der[offset..])
  {
    IntegerCutShort(der, offset);
    var r := ParseInteger(der, offset);
    if r.Field? {
      IntegerCutShort(der, r.next);
      if CutShort(der[r.next..]) { SecondIsCut(der, offset); }
    }
    if SecondCutShort(der[offset..]) { CutIsSecond(der, offset); }
  }

  /** `parse_rsa_public_key` panics exactly on a SEQUENCE whose first or second INTEGER is cut short. */
  lemma PanicsExactly(der: Str)
    ensures ParseRsaKey(der) == Panics <==> Truncated(der)
  {
    if ParseRsaKey(der) == Panics {
      PanicIsTruncated(der);
    }
    if Truncated(der) {
      var octets, s :| StartsSequence(der, octets, s) && (CutShort(s) || SecondCutShort(s));
      TruncatedPanics(der, octets, s);
    }
  }

  lemma PanicIsTruncated(der: Str)
    requires ParseRsaKey(der) == Panics
    ensures Truncated(der)
  {
    var (n, used) := ParseLen(der[1..]).value;
    SplitLength(der[1..], n, used);
    FieldsPanicExactly(der, 1 + used);
    assert der == [SEQUENCE] + der[1..][..used] + der[1 + used..];
    TruncatedBy(der, der[1..][..used], der[1 + used..]);
  }

  lemma TruncatedBy(der: Str, octets: Str, s: Str)
    requires StartsSequence(der, octets, s) && (CutShort(s) || SecondCutShort(s))
    ensures Truncated(der)
  {
  }

  lemma TruncatedPanics(der: Str, octets: Str, s: Str)
    requires StartsSequence(der, octets, s) && (CutShort(s) || SecondCutShort(s))
    ensures ParseRsaKey(der) == Panics
  {
    var n :| IsLength(octets, n);
    assert der[1..] == octets + s;
    LengthIsLocal(octets, s, n);
    assert der[1 + |octets|..] == s;
    FieldsPanicExactly(der, 1 + |octets|);
  }

  /** Four bytes are enough: a modulus of five bytes, none of which are there. */
  lemma ShortKeyPanics()
    ensures ParseRsaKey([SEQUENCE, 2, INTEGER, 5]) == Panics
  {
    var der := [SEQUENCE, 2, INTEGER, 5];
    assert ParseLen(der[1..]) == Some((2, 1));
    assert ParseLen(der[3..]) == Some((5, 1));
  }

  // ----- What survives the way -----

  lemma ReadInteger(pre: Str, len: Str, body: Str, rest: Str, der: Str)
    requires ParseLen(len + (body + rest)) == Some((|body|, |len|))
    requires der == pre + [INTEGER] + len + body + rest
    ensures ParseInteger(der, |pre|) == Field(body, |pre| + 1 + |len| + |body|)
  {
    assert der[|pre|] == INTEGER;
    assert der[|pre| + 1..] == len + (body + rest);
    var start := |pre| + 1 + |len|;
    assert der[start..start + |body|] == body;
  }

  lemma Fields(pre: Str, i: Str, mLen: Str, m: Str, eLen: Str, e: Str)
    ensures pre + (i + mLen + m + (i + eLen + e)) == pre + i + mLen + m + (i + eLen + e)
    ensures pre + (i + mLen + m + (i + eLen + e)) == (pre + i + mLen + m) + i + eLen + e + []
  {
    var x := i + eLen + e;
    assert pre + (i + mLen + m + x) == pre + i + mLen + m + x;
  }

  lemma ReadHeader(len: Str, body: Str)
    requires ParseLen(len + body) == Some((|body|, |len|))
    ensures ParseRsaKey([SEQUENCE] + len + body) == ParseFields([SEQUENCE] + len + body, 1 + |len|)
  {
    assert ([SEQUENCE] + len + body)[1..] == len + body;
  }

  lemma ReadFields(der: Str, offset: nat, m: Str, next: nat, e: Str, end: nat)
    requires ParseInteger(der, offset) == Field(m, next) && ParseInteger(der, next) == Field(e, end)
    ensures ParseFields(der, offset) == Key(DropSign(m), TpmExponent(FoldU32(e)))
  {
  }

  /** The second INTEGER is read where the first one ends. */
  lemma ReadIntegers(pre: Str, mLen: Str, m: Str, next: Str, eLen: Str, e: Str, der: Str)
    requires next == pre + [INTEGER] + mLen + m
    requires der == next + ([INTEGER] + eLen + e) && der == next + [INTEGER] + eLen + e + []
    requires ParseLen(mLen + (m + ([INTEGER] + eLen + e))) == Some((|m|, |mLen|))
    requires ParseLen(eLen + (e + [])) == Some((|e|, |eLen|))
    ensures ParseFields(der, |pre|) == Key(DropSign(m), TpmExponent(FoldU32(e)))
  {
    ReadInteger(pre, mLen, m, [INTEGER] + eLen + e, der);
    ReadInteger(next, eLen, e, [], der);
    ReadFields(der, |pre|, m, |next|, e, |next| + 1 + |eLen| + |e|);
  }

  lemma ReadKeyWith(len: Str, mLen: Str, m: Str, eLen: Str, e: Str, body: Str)
    requires body == [INTEGER] + mLen + m + ([INTEGER] + eLen + e)
    requires ParseLen(len + body) == Some((|body|, |len|))
    requires ParseLen(mLen + (m + ([INTEGER] + eLen + e))) == Some((|m|, |mLen|))
    requires ParseLen(eLen + (e + [])) == Some((|e|, |eLen|))
    ensures ParseRsaKey([SEQUENCE] + len + body) == Key(DropSign(m), TpmExponent(FoldU32(e)))
  {
    ReadHeader(len, body);
    var pre := [SEQUENCE] + len;
    Fields(pre, [INTEGER], mLen, m, eLen, e);
    ReadIntegers(pre, mLen, m, pre + [INTEGER] + mLen + m, eLen, e, pre + body);
  }

  lemma ReadKeyBody(m: Str, e: Str)
    requires |m| < U32_LIMIT && |e| < U32_LIMIT && |Tlv(INTEGER, m) + Tlv(INTEGER, e)| < U32_LIMIT
    ensures ParseRsaKey(Tlv(SEQUENCE, Tlv(INTEGER, m) + Tlv(INTEGER, e))) ==
            Key(DropSign(m), TpmExponent(FoldU32(e)))
  {
    var body := Tlv(INTEGER, m) + Tlv(INTEGER, e);
    ReadWrittenLength(|body|, body);
    ReadWrittenLength(|m|, m + Tlv(INTEGER, e));
    ReadWrittenLength(|e|, e + []);
    ReadKeyWith(DerLen(|body|), DerLen(|m|), m, DerLen(|e|), e, body);
  }

  lemma RefuseKeyBody(body: Str)
    requires U32_LIMIT <= |body| < U64_LIMIT
    ensures ParseRsaKey(Tlv(SEQUENCE, body)) == Invalid
  {
    NoWrittenLength(SEQUENCE, body);
    NoLengthNoKey(Tlv(SEQUENCE, body));
  }

  lemma NoLengthNoKey(der: Str)
    requires der != [] && ParseLen(der[1..]) == None
    ensures ParseRsaKey(der) == Invalid
  {
  }

  /**
    Reading the key that the node wrote never panics. It gives back the modulus without
    leading zeros and the exponent in TPM form, exactly when the body's length fits the
    four-byte form that the reader accepts.
   */
  lemma KeySurvives(modulus: Str, exponent: U32)
    requires 0 < |modulus| < U63_LIMIT
    ensures ParseRsaKey(RsaPublicKey(modulus, exponent)) ==
            if |RsaBody(modulus, exponent)| < U32_LIMIT
            then Key(StripZeros(modulus), TpmExponent(exponent)) else Invalid
  {
    SizeLimits(modulus, exponent);
    var m, e := SignPad(StripZeros(modulus)), SignPad(StripZeros(BeU32(exponent)));
    if |RsaBody(modulus, exponent)| < U32_LIMIT {
      ReadKeyBody(m, e);
      PaddedSurvives(exponent);
    } else {
      RefuseKeyBody(RsaBody(modulus, exponent));
    }
  }

  /** The written SubjectPublicKeyInfo holds the algorithm and, after a zero, the key. */
  lemma SpkiHoldsKey(modulus: Str, exponent: U32)
    requires 0 < |modulus| < U63_LIMIT
    requires |RsaPublicKey(modulus, exponent)| < U64_LIMIT - 1
    requires |SpkiBody(RsaPublicKey(modulus, exponent))| < U32_LIMIT
    ensures var key := RsaPublicKey(modulus, exponent);
            var algorithm := Tlv(SEQUENCE, RSA_ALGORITHM);
            var bits := Tlv(BIT_STRING, [0] + key);
            && ParseTlv(Spki(modulus, exponent), SEQUENCE) == Some(algorithm + bits)
            && ParseTlv(algorithm + bits, SEQUENCE) == Some(RSA_ALGORITHM)
            && ParseTlv(bits, BIT_STRING) == Some([0] + key)
  {
    SpkiSizes(modulus, exponent);
    var key := RsaPublicKey(modulus, exponent);
    var body := SpkiBody(key);
    ReadTlv(SEQUENCE, body, []);
    assert Spki(modulus, exponent) + [] == Spki(modulus, exponent);
    ReadTlv(SEQUENCE, RSA_ALGORITHM, Tlv(BIT_STRING, [0] + key));
    ReadTlv(BIT_STRING, [0] + key, []);
    assert Tlv(BIT_STRING, [0] + key) + [] == Tlv(BIT_STRING, [0] + key);
  }

  /**
    What the server does before it reads the key: it unwraps the SubjectPublicKeyInfo and
    insists on RSA. The library that unwraps it is not part of this model; its place is taken
    by the repository's own TLV reader.
   */
  function UnwrapSpki(der: Str): Option<Str> {
    var body :- ParseTlv(der, SEQUENCE);
    var algorithm :- ParseTlv(body, SEQUENCE);
    if algorithm != RSA_ALGORITHM || !(Tlv(SEQUENCE, RSA_ALGORITHM) <= body) then None else
    var bits :- ParseTlv(body[|Tlv(SEQUENCE, RSA_ALGORITHM)|..], BIT_STRING);
    if bits == [] || bits[0] != 0 then None else Some(bits[1..])
  }

  function ServerKey(spki: Str): Parsed {
    match UnwrapSpki(spki)
    case None => Invalid
    case Some(key) => ParseRsaKey(key)
  }

  predicate SpkiFits(modulus: Str, exponent: U32)
    requires 0 < |modulus| < U63_LIMIT
  {
    SpkiSizes(modulus, exponent);
    |SpkiBody(RsaPublicKey(modulus, exponent))| < U32_LIMIT
  }

  lemma UnwrapWritten(modulus: Str, exponent: U32)
    requires 0 < |modulus| < U63_LIMIT && SpkiFits(modulus, exponent)
    ensures UnwrapSpki(Spki(modulus, exponent)) == Some(RsaPublicKey(modulus, exponent))
  {
    SpkiSizes(modulus, exponent);
    SpkiHoldsKey(modulus, exponent);
    var algorithm := Tlv(SEQUENCE, RSA_ALGORITHM);
    var bits := Tlv(BIT_STRING, [0] + RsaPublicKey(modulus, exponent));
    assert (algorithm + bits)[|algorithm|..] == bits;
  }

  lemma RefuseSpki(modulus: Str, exponent: U32)
    requires 0 < |modulus| < U63_LIMIT && !SpkiFits(modulus, exponent)
    ensures UnwrapSpki(Spki(modulus, exponent)) == None
  {
    SpkiSizes(modulus, exponent);
    RefuseTlv(SEQUENCE, SpkiBody(RsaPublicKey(modulus, exponent)));
  }

  /** `extract_rsa_public`: the node writes the default exponent out. */
  function NodeExponent(e: U32): U32 {
    if e == 0 then 65537 else e
  }

  /**
    From the node's TPM to the server's, through the whole SubjectPublicKeyInfo: the modulus
    keeps its value, and the exponent is the same number once 0 stands for 65537 on both
    sides, exactly when the structure's length fits the four-byte form.
   */
  lemma NodeToServer(modulus: Str, exponent: U32)
    requires 0 < |modulus| < U63_LIMIT
    ensures var e := TpmExponent(NodeExponent(exponent));
            && ServerKey(Spki(modulus, NodeExponent(exponent))) ==
               (if SpkiFits(modulus, NodeExponent(exponent)) then Key(StripZeros(modulus), e) else Invalid)
            && NodeExponent(e) == NodeExponent(exponent)
    ensures BeValue(StripZeros(modulus)) == BeValue(modulus)
  {
    var e := NodeExponent(exponent);
    if SpkiFits(modulus, e) {
      UnwrapWritten(modulus, e);
      SpkiSizes(modulus, e);
      KeyInSpki(modulus, e);
      KeySurvives(modulus, e);
    } else {
      RefuseSpki(modulus, e);
    }
    StripZerosKeepsValue(modulus);
  }

  /** The key's body is shorter than the structure around it. */
  lemma KeyInSpki(modulus: Str, exponent: U32)
    requires 0 < |modulus| < U63_LIMIT && |RsaPublicKey(modulus, exponent)| < U64_LIMIT - 1
    ensures |RsaBody(modulus, exponent)| < |SpkiBody(RsaPublicKey(modulus, exponent))|
  {
    SizeLimits(modulus, exponent);
  }

  // ----- What is read, byte by byte -----

  /** Two INTEGERs in a SEQUENCE, whatever length the SEQUENCE claims and whatever follows. */
  predicate IsKeyDer(der: Str, octets: Str, mOctets: Str, m: Str, eOctets: Str, e: Str, rest: Str) {
    && der == [0x30] + octets + ([0x02] + mOctets + (m + ([0x02] + eOctets + (e + rest))))
    && ParseLen(octets).Some? && ParseLen(octets).value.1 == |octets|
    && IsLength(mOctets, |m|) && IsLength(eOctets, |e|)
  }

  lemma IntegerIsRead(der: Str, offset: nat, octets: Str, body: Str, after: Str)
    requires offset <= |der| && der[offset..] == [0x02] + octets + (body + after) && IsLength(octets, |body|)
    ensures ParseInteger(der, offset) == Field(body, |der| - |after|) && der[|der| - |after|..] == after
  {
    JoinInteger(der, offset, octets, |body|, body + after);
    var start := offset + 1 + |octets|;
    assert der[start..][..|body|] == body && der[start..][|body|..] == after;
  }

  lemma SequenceIsRead(der: Str, octets: Str, s: Str)
    requires der == [0x30] + octets + s && ParseLen(octets).Some? && ParseLen(octets).value.1 == |octets|
    ensures ParseRsaKey(der) == ParseFields(der, 1 + |octets|) && der[1 + |octets|..] == s
  {
    assert der[1..] == octets + s;
    LengthIsLocal(octets, s, ParseLen(octets).value.0);
  }

  /** Such bytes are read: one sign byte dropped, and the exponent modulo 2^32 with 65537 as 0. */
  lemma KeyDerIsRead(der: Str, octets: Str, mOctets: Str, m: Str, eOctets: Str, e: Str, rest: Str)
    requires IsKeyDer(der, octets, mOctets, m, eOctets, e, rest)
    ensures ParseRsaKey(der) ==
            Key(if |m| > 1 && m[0] == 0 then m[1..] else m,
                if BeValue(e) % U32_LIMIT == 65537 then 0 else BeValue(e) % U32_LIMIT)
  {
    SequenceIsRead(der, octets, [0x02] + mOctets + (m + ([0x02] + eOctets + (e + rest))));
    BothAreRead(der, 1 + |octets|, mOctets, m, eOctets, e, rest);
    ReadExponent(e);
  }

  lemma BothAreRead(der: Str, offset: nat, mOctets: Str, m: Str, eOctets: Str, e: Str, rest: Str)
    requires offset <= |der| && IsLength(mOctets, |m|) && IsLength(eOctets, |e|)
    requires der[offset..] == [0x02] + mOctets + (m + ([0x02] + eOctets + (e + rest)))
    ensures ParseFields(der, offset) == Key(DropSign(m), TpmExponent(FoldU32(e)))
  {
    var second := [0x02] + eOctets + (e + rest);
    IntegerIsRead(der, offset, mOctets, m, second);
    IntegerIsRead(der, |der| - |second|, eOctets, e, rest);
    ReadFields(der, offset, m, |der| - |second|, e, |der| - |rest|);
  }

  lemma ReadExponent(e: Str)
    ensures TpmExponent(FoldU32(e)) == if BeValue(e) % U32_LIMIT == 65537 then 0 else BeValue(e) % U32_LIMIT
  {
    FoldIsValue(e);
  }

  lemma IntegerIsSplit(der: Str, offset: nat) returns (octets: Str)
    requires ParseInteger(der, offset).Field?
    ensures var r := ParseInteger(der, offset);
            && offset <= |der| && r.next <= |der| && IsLength(octets, |r.body|)
            && der[offset..] == [0x02] + octets + (r.body + der[r.next..])
  {
    var n: nat, tail: Str;
    octets, n, tail := SplitInteger(der, offset);
    var r := ParseInteger(der, offset);
    assert tail[..n] == r.body && tail[n..] == der[r.next..];
    assert tail == tail[..n] + tail[n..];
  }

  /** And nothing else is read. */
  lemma OnlyKeyDerIsRead(der: Str)
    requires ParseRsaKey(der).Key?
    ensures exists octets, mOctets, m, eOctets, e, rest :: IsKeyDer(der, octets, mOctets, m, eOctets, e, rest)
  {
    var octets := SequenceIsSplit(der);
    var offset := 1 + |octets|;
    var first := ParseInteger(der, offset);
    var mOctets := IntegerIsSplit(der, offset);
    var second := ParseInteger(der, first.next);
    var eOctets := IntegerIsSplit(der, first.next);
    KeyIsThere(der, octets, mOctets, first.body, eOctets, second.body, der[second.next..]);
  }

  lemma SequenceIsSplit(der: Str) returns (octets: Str)
    requires ParseRsaKey(der).Key?
    ensures 1 + |octets| <= |der| && der == [0x30] + octets + der[1 + |octets|..]
    ensures ParseLen(octets).Some? && ParseLen(octets).value.1 == |octets|
    ensures ParseFields(der, 1 + |octets|).Key?
  {
    var (n, used) := ParseLen(der[1..]).value;
    SplitLength(der[1..], n, used);
    octets := der[1..][..used];
    assert der == [0x30] + octets + der[1 + used..];
  }

  lemma KeyIsThere(der: Str, octets: Str, mOctets: Str, m: Str, eOctets: Str, e: Str, rest: Str)
    requires IsKeyDer(der, octets, mOctets, m, eOctets, e, rest)
    ensures exists octets, mOctets, m, eOctets, e, rest :: IsKeyDer(der, octets, mOctets, m, eOctets, e, rest)
  {
  }

  /** The default exponent arrives as 0, as a TPM writes it, and every other as itself. */
  lemma ExponentArrives(modulus: Str, exponent: U32)
    requires 0 < |modulus| < U63_LIMIT && |RsaBody(modulus, exponent)| < U32_LIMIT
    ensures exponent == 65537 ==> ParseRsaKey(RsaPublicKey(modulus, exponent)) == Key(StripZeros(modulus), 0)
    ensures exponent != 65537 ==> ParseRsaKey(RsaPublicKey(modulus, exponent)) == Key(StripZeros(modulus), exponent)
  {
    KeySurvives(modulus, exponent);
  }

  /** The node writes out the exponent that its TPM abbreviates as 0, and no other differently. */
  lemma DefaultExponentWritten(e: U32)
    ensures e == 0 ==> DerInteger(BeU32(NodeExponent(e))) == [0x02, 0x03, 0x01, 0x00, 0x01]
    ensures e != 0 ==> NodeExponent(e) == e
  {
    if e == 0 {
      BigEndian32(65537);
      var bytes := [0, 1, 0, 1];
      assert bytes[1..] == [1, 0, 1];
      assert StripZeros(bytes) == StripZeros([1, 0, 1]) == [1, 0, 1];
    }
  }

  /** The structure around a written key, with the object identifier of RSA. */
  lemma SpkiSpelled(modulus: Str, exponent: U32)
    requires 0 < |modulus| < U63_LIMIT && SpkiFits(modulus, exponent)
    ensures RSA_ALGORITHM == [0x06, 0x09] + OidBytes(1, 2, [840, 113549, 1, 1, 1]) + [0x05, 0x00]
    ensures exists algorithm, bits ::
              && ParseTlv(Spki(modulus, exponent), 0x30) == Some(algorithm + bits)
              && ParseTlv(algorithm, 0x30) == Some(RSA_ALGORITHM)
              && ParseTlv(bits, 0x03) == Some([0] + RsaPublicKey(modulus, exponent))
  {
    RsaOid();
    SpkiSizes(modulus, exponent);
    SpkiHoldsKey(modulus, exponent);
    var algorithm := Tlv(SEQUENCE, RSA_ALGORITHM);
    ReadTlv(SEQUENCE, RSA_ALGORITHM, []);
    assert algorithm + [] == algorithm;
    var bits := Tlv(BIT_STRING, [0] + RsaPublicKey(modulus, exponent));
    assert ParseTlv(Spki(modulus, exponent), 0x30) == Some(algorithm + bits);
  }

  lemma RsaOid()
    ensures RSA_ALGORITHM == [0x06, 0x09] + OidBytes(1, 2, [840, 113549, 1, 1, 1]) + [0x05, 0x00]
  {
    LargeArcs();
    SmallArcs([1, 1, 1]);
    Arcs(113549, [1, 1, 1]);
    assert [113549] + [1, 1, 1] == [113549, 1, 1, 1];
    Arcs(840, [113549, 1, 1, 1]);
    assert [840] + [113549, 1, 1, 1] == [840, 113549, 1, 1, 1];
  }
}
