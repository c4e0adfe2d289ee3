# fleetos-core in Dafny

A model of the parts of `fleetos-core` whose behaviour is decided by the repository's own code,
and proofs of what those parts promise. `dafny verify dfyconfig.toml` checks everything.

## What is modelled

| file | part of the system |
|---|---|
| `Chip.dfy`, `SlotManager.dfy` | the TPM behind its context, and `TpmContextManager` as a class over it |
| `SlotCalls.dfy`, `SlotLeaks.dfy` | what each manager call keeps, and exactly what it loses when it fails |
| `SlotRuns.dfy` | what every run of calls guarantees |
| `Reader.dfy`, `AkPublic.dfy` | the bounds-checked reader and the attestation key inside a TPMT_PUBLIC |
| `Pcr.dfy`, `PcrBinding.dfy`, `PcrRead.dfy` | PCR policy, binding of PCR values to a quote, and the node's side of it |
| `Der.dfy`, `RsaKey.dfy` | DER lengths, and an RSA key's way from node to server |
| `Utf8.dfy`, `Extensions.dfy`, `Stamping.dfy` | the three certificate extensions, written and found again by scanning |
| `Spiffe.dfy`, `Delegation.dfy` | SPIFFE identities and renewals under a delegated key |
| `Hasher.dfy`, `Grant.dfy`, `SagRule.dfy`, `Fingerprint.dfy` | the bytes that identifiers are hashed from |
| `Header.dfy`, `Naming.dfy` | the identity header stream and the canonical hostname |
| `Bytes.dfy` | bytes, and the facts about concatenation that the rest relies on |

How foreign code appears:

- A Rust `str` is its UTF-8 bytes. `usize` has 64 bits. Casts that truncate or wrap are written out.
- A TPM command fails or not according to an oracle indexed by the step and the kind of command. Every
  theorem about the manager is quantified over the oracle. An `Object` is the identity of one creation, so
  "the session's own AK" is a statement about one loaded or saved object. The key inside a primary is derived
  from the TPM's seed and a constant template, so the sessions of one TPM have different objects and the same
  keys (`SessionsShareKeys`).
- `Steps` stands for fallible work that moves no object: templates, conversions, marshalling, policy
  commands and PCR reads.
- Hash functions are parameters. A theorem that needs two hashed inputs to be equal concludes that they are
  equal or are a collision. For identifiers, the theorems speak of the bytes that are hashed.
- Slices beyond the end and overflowing dates are a `Panics` outcome, not a precondition.
- A certificate is the encoded extensions between arbitrary bytes; a certificate request is its list of
  subject alternative names.

## What the proofs found

- `begin_attestation`, `seal_to_pcr`, `unseal` and `activate` return errors without flushing. For each call
  the objects and policy sessions it leaves behind are given exactly, by the step at which it fails
  (`BeginLosesExactly`, `SealLosesExactly`, `UnsealLosesExactly`, `ActivateLosesExactly`, each with a witness).
  Over every run the leaked ones are exactly those that the calls lost, and at most two objects for a failed
  begin or unseal, one for a failed seal, and one session for a failed seal, unseal or activate
  (`EveryRunBalances`).
- `unseal` looks at the blob's PCR indices only after loading both objects. A blob with an index of 24 or more
  leaks two objects even on a TPM on which no command ever fails (`BadIndexLeaks`).
- `read_pcr_values` labels the TPM's answers, which come in ascending order and at most eight at a time, in
  the caller's order. The submitted values stand for the quoted registers if and only if the caller's list
  begins with its own selection in ascending order and selects at most eight registers
  (`SubmittedStandsExactly`, `DescendingMislabels`).
- `of_rule` is documented to be free of concatenation collisions. It is not: a source port below 256 can be
  read as the separator and a one-byte service name. `SameRuleExactly` gives every colliding pair, and
  `CollidingRules` one of them; rules that agree on whether a source port is present never collide.
- An ordinal is read back if and only if it is below 2^31 (`OrdinalReadsBack`), and a role if and only if it
  has at most 65535 bytes (`RoleReadsBack`).
- A renewed certificate's window lies inside the key's life if and only if neither the clock nor the
  validity wraps around in the cast to `i64` (`SignedStaysInScope`, `WrappedClock`).
- A grant for the tenants `[""]` has the bytes of a grant for no tenants (`SameGrantExactly`), and a NUL
  inside an operator id or a tenant always makes two different grants coincide (`NulMovesBorder`,
  `NulSplitsTenant`).
- Binding and policy together say nothing about a mandated register that the quote does not select, or that
  is in another bank: the node can claim any value for it (`UncoveredIsClaimed`). The whole policy is attested
  if and only if the quote covers it (`PolicyAttestedExactly`).
- `parse_ak_public` expects a hash behind RSAES and a label behind OAEP, which a TPM does not write there. Keys
  with these schemes, which do not sign, are never recovered (`EncryptionKeyMisread`).
- `read_header` says that it can safely slice, but tests only the outer length: it panics exactly when the
  inner lengths reach beyond the buffer (`Header.PanicsExactly`, `EmptyFramePanics`).
- `parse_rsa_public_key` panics exactly on a SEQUENCE whose first or second INTEGER is cut short
  (`RsaKey.PanicsExactly`, `ShortKeyPanics`).
- A target identity that does not survive printing and parsing can never be renewed
  (`UnprintableTargetIssuesNothing`).

## Model

| member | source | states |
|---|---|---|
| SlotManager.TpmContextManager.EnsureKeyLoaded | src/attestation/tpm.rs:1157-1171 | a live key keeps its handle; a saved one is loaded and becomes live, or stays saved if the load fails |
| SlotManager.TpmContextManager.SaveKeyIfNeeded | src/attestation/tpm.rs:1177-1196 | without a resource manager a live key is saved and flushed; it stays live if the save fails |
| SlotManager.TpmContextManager.Begin | src/attestation/tpm.rs:1203-1263 | the new session and the TPM's next state, on every failure path |
| SlotManager.TpmContextManager.Finish | src/attestation/tpm.rs:1269-1286 | exactly the live handles of the session are flushed |
| SlotManager.TpmContextManager.RunQuote | src/attestation/tpm.rs:1400-1454 | loads the AK, quotes, and saves the AK back whatever happened in between |
| SlotManager.TpmContextManager.RunActivate | src/attestation/tpm.rs:1292-1397 | loads AK and EK, activates in a policy session, and saves both back whatever happened in between |
| SlotManager.TpmContextManager.RunSeal | src/attestation/tpm.rs:1554-1600 | the TPM's next state, with the storage root key flushed on the success path |
| SlotManager.TpmContextManager.RunUnseal | src/attestation/tpm.rs:1606-1683 | the TPM's next state, with object, storage root key and session flushed on the success path |
| SlotCalls.QuoteSafe | src/attestation/tpm.rs:1400-1454 | a quote, failing anywhere, touches no other session's object, is signed by the session's own AK, and leaves the loaded set changed only by the session's handles |
| SlotCalls.ActivateSafe | src/attestation/tpm.rs:1292-1397 | the same for activation with the session's own AK and EK; a successful one frees its policy session |
| SlotCalls.BeginSafe | src/attestation/tpm.rs:1203-1263 | begin keeps every loaded object and adds at most two; a successful one accounts for them by the session's handles, which are none without a resource manager |
| SlotCalls.FinishSafe | src/attestation/tpm.rs:1269-1286 | finishing removes exactly the session's handles when flushing works |
| SlotCalls.SealSafe | src/attestation/tpm.rs:1554-1600 | a successful seal leaves objects and sessions as they were and returns the object that this call sealed; a failed one leaves at most the storage root key and the trial session |
| SlotCalls.UnsealSafe | src/attestation/tpm.rs:1606-1683 | the same for unseal, and the object unsealed is the one in the blob |
| SlotCalls.BeginFinishRestores | src/attestation/tpm.rs:1203-1286 | begin followed by finish restores the loaded objects, on both backends |
| SlotLeaks.BeginLosesExactly | src/attestation/tpm.rs:1203-1263 | begin fails exactly at one of six steps, and leaves behind none, the EK, or both keys, as the step decides |
| SlotLeaks.SealLosesExactly | src/attestation/tpm.rs:1554-1600 | seal leaves its trial session, its storage root key or nothing behind, as the failing step decides |
| SlotLeaks.UnsealLosesExactly | src/attestation/tpm.rs:1606-1683 | unseal leaves the storage root key, both objects, both and the policy session, or nothing behind, as the failing step or the indices decide |
| SlotLeaks.ActivateLosesExactly | src/attestation/tpm.rs:1308-1397 | activate fails exactly at one of its loads or six steps, and leaves its policy session behind if and only if it fails while the session is open |
| SlotLeaks.QuoteFailsExactly | src/attestation/tpm.rs:1400-1454 | a quote fails exactly if loading the AK does, an index is not 0 to 23, or one of its six steps does |
| SlotLeaks.LiveKeysStay | src/attestation/tpm.rs:1177-1182 | behind a resource manager quote and activate leave live keys where they are, whatever fails |
| SlotLeaks.HealthyCalls | src/attestation/tpm.rs:1203-1683 | on a healthy TPM begin succeeds, and seal and unseal succeed if and only if all indices are 0 to 23 |
| SlotLeaks.SealedIsUnsealed | src/attestation/tpm.rs:1554-1683 | on a healthy TPM a seal returns a new object, and unsealing its blob in any later state gives that very object |
| SlotLeaks.SavesEkFirst | src/attestation/tpm.rs:1241-1262 | what stays loaded tells which of the two saves of a begin failed |
| SlotLeaks.SavesAkFirst | src/attestation/tpm.rs:1299-1303 | after an activation the AK is saved before the EK |
| SlotLeaks.FlushesEkFirst | src/attestation/tpm.rs:1269-1286 | finishing flushes the EK before the AK, and a failed flush leaves its key |
| SlotLeaks.FlushesObjectFirst | src/attestation/tpm.rs:1673-1677 | unsealing flushes object, storage root key and session in this order |
| SlotLeaks.FailedBeginLeaks | src/attestation/tpm.rs:1203-1231 | in every state, one failure behind both creations leaves both keys loaded |
| SlotLeaks.FailedSealLeaksSession | src/attestation/tpm.rs:1567-1572 | in every state, one failure in the trial session leaves it open |
| SlotLeaks.FailedSealLeaksKey | src/attestation/tpm.rs:1573-1587 | in every state, one failure of the sealing itself leaves the storage root key loaded |
| SlotLeaks.FailedUnsealLeaks | src/attestation/tpm.rs:1606-1683 | in every state, one failure at the end leaves both objects and the session |
| SlotLeaks.FailedActivateLeaks | src/attestation/tpm.rs:1308-1397 | in every state, one failure to recover the credential makes the call fail and leaves the session |
| SlotLeaks.BadIndexLeaks | src/attestation/tpm.rs:1616-1637 | an index that is no register makes unseal leave both objects loaded although no command fails |
| SlotRuns.StepKeeps | src/attestation/tpm.rs:1138-1684 | every call keeps the safety invariant, whatever fails; with working save and flush it adds to the leaked objects and sessions exactly what it loses, only a call that fails loses anything (two objects for begin and unseal, one for seal, one session for seal, unseal and activate), and without a resource manager it takes at most two slots |
| SlotRuns.EveryRunIsSafe | src/attestation/tpm.rs:1078-1101 | over every run, on both backends and under every pattern of failures: live handles are loaded and hold the session's own object, sessions share no handle and no object, no command ever gets a flushed handle, and every output came from the session's own AK and EK or the blob's own object |
| SlotRuns.SessionsShareKeys | src/attestation/tpm.rs:1203-1231 | over every run all open sessions have the same EK and AK public area, and every quote is signed with that AK |
| SlotRuns.KeysStayLoaded | src/attestation/tpm.rs:1177-1182 | over every run behind a resource manager, every open session has both its keys loaded |
| SlotRuns.EverySealIsItsOwn | src/attestation/tpm.rs:1577-1600 | over every run no two seals return the same blob |
| SlotRuns.QuoteOutput | src/attestation/tpm.rs:1400-1454 | a successful quote gives one signature by the session's own AK and a failed one none |
| SlotRuns.ActivateOutput | src/attestation/tpm.rs:1292-1397 | a successful activation gives one credential recovered with the session's own AK and EK and a failed one none |
| SlotRuns.SealOutputs | src/attestation/tpm.rs:1554-1683 | a successful unseal gives the data of the blob's own object, a successful seal its blob, and failed ones nothing |
| SlotRuns.EveryRunBalances | src/attestation/tpm.rs:1049-1061 | over every run with working save and flush: the loaded objects are those of the open sessions and, apart from them, exactly those that failing calls lost; the open policy sessions are exactly the lost ones; both are bounded by the failures of each kind; without a resource manager sessions hold none, and at most two more than the lost ones were ever loaded |
| SlotRuns.TwoSlotsSuffice | src/attestation/tpm.rs:1049-1061 | without a resource manager no object is loaded between calls if and only if no call lost one, and then at most two ever were |
| SlotRuns.HealthyQuote | src/attestation/tpm.rs:1400-1454 | on a healthy TPM a quote succeeds, signed by the session's AK, live or saved |
| SlotRuns.HealthyActivate | src/attestation/tpm.rs:1292-1397 | on a healthy TPM an activation succeeds with the session's AK and EK, live or saved |
| SlotRuns.HealthyRunLeavesNothing | src/attestation/tpm.rs:1049-1061 | on a healthy TPM no run leaves a policy session or an object that no session holds |
| Reader.Reader.TakeBytes | src/attestation/quote.rs:239-246 | a read takes its bytes off the front or fails and takes none |
| Reader.TakeSizedExactly | src/attestation/quote.rs:119-120 | a size-prefixed field is read exactly when the bytes begin with it |
| AkPublic.ParseAkPublic | src/attestation/quote.rs:113-175 | the key of the layout that the bytes begin with, or an error |
| AkPublic.ExpectNullSymmetric | src/attestation/quote.rs:178-184 | succeeds exactly on the NULL algorithm |
| AkPublic.LayoutExactly | src/attestation/quote.rs:113-175 | bytes are read as a layout if and only if they begin with its marshalled form: NULL and hash-carrying schemes for RSA and ECC, ECDAA with its count, both KDF forms, all field lengths |
| AkPublic.MarshalledKeyRecovered | src/attestation/quote.rs:113-175 | every marshalled key with a signing scheme gives its own modulus and exponent, 0 read as 65537, or its own x and y, whatever follows it |
| AkPublic.RsaKeyRecovered | src/attestation/quote.rs:113-147 | the same from the bytes themselves: type 0001, NULL symmetric, NULL, RSASSA or RSAPSS, any lengths |
| AkPublic.EccKeyRecovered | src/attestation/quote.rs:148-171 | the same for type 0023 with a NULL, hash-carrying or ECDAA scheme and either KDF form: x before y |
| AkPublic.AcceptedIsMarshalled | src/attestation/quote.rs:108-112 | whatever is accepted begins with a marshalled layout, of which it gives the key; the scheme need not be one of signing |
| AkPublic.ReadsOnward | src/attestation/quote.rs:113-175 | the result depends only on the bytes consumed |
| AkPublic.PrefixRefused | src/attestation/quote.rs:113-175 | every strict prefix of a marshalled key is rejected |
| AkPublic.EncryptionKeyMisread | src/attestation/quote.rs:124-137 | an RSA key with an encryption scheme, as a TPM writes it, is never recovered: it is refused or read with a modulus at least two bytes shorter |
| Pcr.CtEq | src/attestation.rs:151-160 | the fold of xor and or is equality |
| Pcr.VerifyPcrPolicy | src/attestation.rs:111-123 | passes exactly when the first entry of every mandated register has the mandated digest |
| Pcr.MeetsExactly | src/attestation.rs:111-123 | a mandated register is met if and only if the mandated entry itself stands in the list before any other for its register and bank |
| PcrBinding.SelectIndices | src/attestation/quote.rs:347-355 | the nested loops compute the selected indices |
| PcrBinding.SelectedExactly | src/attestation/quote.rs:347-355 | strictly ascending, exactly the set bits, all below 32 |
| PcrBinding.BitmapByte | src/attestation/quote.rs:347-355 | bit j of byte k is register 8k + j, from the least significant bit on |
| PcrBinding.ConcatDigests | src/attestation/quote.rs:357-369 | the digests of the selected registers in order, or failure if one is missing or of the wrong length |
| PcrBinding.VerifyPcrBinding | src/attestation/quote.rs:298-376 | accepts exactly the submissions that bind to the quote |
| PcrBinding.HashedDigests | src/attestation/quote.rs:339-369 | the hashed string is, register by register in ascending order, the first digest submitted for it, each 32, 48 or 64 bytes long as the bank says |
| PcrBinding.HashedExactly | src/attestation/quote.rs:339-369 | a submission is hashed if and only if the bank is SHA-256, SHA-384 or SHA-512 and every selected register is there with that length |
| PcrBinding.QuoteSpelled | src/attestation/quote.rs:304-337 | the bytes of a quote, from the magic FF 54 43 47 and the type 80 18 to the digest |
| PcrBinding.FieldLimits | src/attestation/quote.rs:315-334 | the exact limits of a quote's fields |
| PcrBinding.AttestExactly | src/attestation/quote.rs:304-337 | bytes are read as a quote if and only if they begin with its marshalled form |
| PcrBinding.AppendKeepsVerdict | src/attestation/quote.rs:357-369 | appending any entries keeps a successful verdict |
| PcrBinding.BoundSubmissionsAgree | src/attestation/quote.rs:278-376 | two submissions bound to one quote agree on the first match of every selected register, or are a hash collision |
| PcrBinding.BoundPolicyHolds | src/attestation.rs:103-123 | binding and policy together force every mandated register that the quote selects in its bank to have the mandated digest in the attested values, or exhibit a collision |
| PcrBinding.PolicyAttestedExactly | src/attestation.rs:103-123 | a submission that binds and passes attests the whole policy, for all contents of the mandated registers that the quote may have been made from, if and only if the quote selects every one of them in its bank |
| PcrBinding.UncoveredIsNotBound | src/attestation/quote.rs:357-369 | a register that the quote does not select in its bank may have held any digest |
| PcrBinding.UncoveredIsClaimed | src/attestation.rs:103-123 | any digest can be claimed for a register that is not presented yet, and the claim binds and passes |
| PcrBinding.HonestQuoteBinds | src/attestation/quote.rs:278-286 | an honestly made quote binds the values it was made from |
| PcrRead.ReadPcrValues | src/attestation/tpm.rs:1475-1486 | the digests returned, labelled with the caller's indices in the caller's order |
| PcrRead.SubmittedStandsExactly | src/attestation/tpm.rs:1460-1488 | what the node submits stands for the quoted registers, whatever they hold, if and only if the indices are ordered and select at most eight |
| PcrRead.AtMostEight | src/attestation/tpm.rs:1470-1486 | no more than eight values are submitted, and no larger selection is ordered |
| PcrRead.OrderedQuoteBinds | src/attestation/tpm.rs:1414-1488 | with ordered indices the node's submission binds to its honest quote |
| PcrRead.DescendingMislabels | src/attestation/tpm.rs:1475-1486 | the indices 7 and 0, in this order, get each other's digests |
| Der.WriteDerLen | src/attestation/tpm.rs:649-663 | the loop writes the length octets of X.690 |
| Der.ReadLength | src/spiffe.rs:384-404 | the certificate reader's lengths |
| Der.ReadEkLength | src/attestation/tpm.rs:243-261 | the key reader agrees with the certificate reader on every input |
| Der.ReadWrittenLength | src/attestation/tpm.rs:243-261 | a written length is read back, whatever follows, if and only if it is below 2^32 |
| Der.DerLenMinimal | src/attestation/tpm.rs:649-663 | the written octets are the unique shortest ones read as that length |
| Der.DerLenForm | src/attestation/tpm.rs:649-663 | one byte below 128, otherwise a count with its top bit set and the value without leading zeros |
| Der.IsLengthExactly | src/spiffe.rs:384-404 | a length is accepted if and only if it is one byte below 128, or a count of one to four and that many bytes |
| Der.ParseTlvExactly | src/spiffe.rs:407-417 | a value is returned if and only if the bytes begin with that tag, its length and the value |
| Der.WritersAgree | src/spiffe.rs:48-56 | the two writers agree if and only if the length is at most 65535 |
| Der.LongPrefixReadsShort | src/spiffe.rs:48-56 | a longer length is read back modulo 2^16 |
| Der.ReadTlv | src/spiffe.rs:407-417 | a written value is read back, whatever follows |
| RsaKey.WriteDerInteger | src/attestation/tpm.rs:664-677 | leading zeros dropped in a loop, then padded to stay positive |
| RsaKey.WriteSpki | src/attestation/tpm.rs:648-712 | the SubjectPublicKeyInfo of the key |
| RsaKey.ReadRsaKey | src/attestation/tpm.rs:206-241 | modulus and exponent, an error, or a panic, as the offsets fall |
| Der.StripZerosKeepsValue | src/attestation/tpm.rs:664-668 | dropping leading zeros keeps the number |
| RsaKey.PanicsExactly | src/attestation/tpm.rs:206-241 | reading panics if and only if the input is a SEQUENCE whose first or second INTEGER is cut short |
| RsaKey.ShortKeyPanics | src/attestation/tpm.rs:216-222 | four bytes that panic |
| RsaKey.KeySurvives | src/attestation/tpm.rs:206-241 | reading a written key never panics and gives back modulus and exponent, if and only if the body is shorter than 2^32 |
| RsaKey.ExponentArrives | src/attestation/tpm.rs:228-240 | exponent 65537 arrives as 0 and every other as itself |
| RsaKey.KeyDerIsRead | src/attestation/tpm.rs:206-241 | two INTEGERs in a SEQUENCE of any claimed length are read: one sign byte dropped, the exponent modulo 2^32 with 65537 as 0 |
| RsaKey.OnlyKeyDerIsRead | src/attestation/tpm.rs:206-241 | nothing else is read as a key |
| RsaKey.DefaultExponentWritten | src/attestation/tpm.rs:745-756 | the node writes the exponent 0 of its TPM out as 65537, and any other as it is |
| RsaKey.SpkiSpelled | src/attestation/tpm.rs:679-711 | the written structure holds the object identifier 1.2.840.113549.1.1.1 and, in a BIT STRING without unused bits, the key |
| RsaKey.SpkiHoldsKey | src/attestation/tpm.rs:692-711 | the written structure unwraps to the algorithm and the key |
| RsaKey.NodeToServer | src/attestation/tpm.rs:143-166 | through the whole SubjectPublicKeyInfo, modulus and exponent survive from node to server, 0 and 65537 being the same exponent, if and only if its length fits four bytes; otherwise it is refused |
| Utf8.TailFollowsNonAscii | src/spiffe.rs:468-477 | in UTF-8 a tail byte is never first and never follows ASCII |
| Utf8.ValidExactly | src/spiffe.rs:468-477 | the accepted strings are exactly the encodings of sequences of Unicode scalar values |
| Extensions.WriteOrdinal | src/spiffe.rs:92-107 | the loop and the pad write the shortest positive INTEGER |
| Extensions.FindOidExtension | src/spiffe.rs:421-450 | the value after the first occurrence of the OID that is followed by one |
| Extensions.FoundExactly | src/spiffe.rs:421-450 | a value is returned if and only if it follows the first occurrence of the OID that is followed by one |
| Extensions.ValueIsRead | src/spiffe.rs:428-445 | the value is read past an optional critical flag, whatever follows |
| Extensions.OidsAreArcs | src/spiffe.rs:26-44 | the byte constants of the readers are the encodings of the arcs that the writers use |
| Extensions.RoleOfExactly | src/spiffe.rs:454-490 | a UTF8String or PrintableString is a role if and only if it is UTF-8 without NUL |
| Extensions.OrdinalOfExactly | src/spiffe.rs:493-504 | an INTEGER is an ordinal if and only if it has at most four bytes |
| Extensions.DegradedByExactly | src/spiffe.rs:507-516 | a BOOLEAN marks degraded mode if and only if its first byte is not zero |
| Extensions.StampedValues | src/spiffe.rs:63-111 | the stamped values are a UTF8String, a BOOLEAN of FF or 00 and an INTEGER |
| Extensions.ExtractRole | src/spiffe.rs:454-490 | the role in the certificate's bytes |
| Extensions.ExtractOrdinal | src/spiffe.rs:493-504 | the ordinal in the certificate's bytes |
| Extensions.IsDegraded | src/spiffe.rs:507-516 | the degraded marker in the certificate's bytes |
| Extensions.OnlyOwnOid | src/spiffe.rs:31-36 | an extension with a quiet value holds no OID but its own |
| Extensions.FindStamped | src/spiffe.rs:421-450 | the scan finds an extension behind any bytes that do not hold its OID |
| Stamping.RoleValueQuiet | src/spiffe.rs:58-72 | no UTF-8 role can hide an OID |
| Stamping.RoleReadsBack | src/spiffe.rs:63-72 | any string is read back if and only if it is UTF-8 without NUL of at most 65535 bytes |
| Stamping.OnlyRolesAreRead | src/spiffe.rs:454-490 | whatever a certificate holds, what is read as its role is UTF-8 without NUL |
| Stamping.OrdinalReadsBack | src/spiffe.rs:493-504 | an ordinal is read back if and only if it is below 2^31 |
| Stamping.OrdinalMinimal | src/spiffe.rs:88-111 | the stamped INTEGER is the unique shortest positive one of its value |
| Stamping.StampReadsBack | src/spiffe.rs:780-794 | stamping degraded, role and ordinal and reading back returns exactly what was stamped, and nothing for what was not |
| Spiffe.ParsePrinted | src/spiffe.rs:247-281 | parsing a printed identity gives it back if and only if the trust domain followed by a slash has no "/ns/" and the tenant no slash |
| Spiffe.PrintParsed | src/spiffe.rs:257-281 | every accepted string is the print of what it parsed to |
| Spiffe.PrintSpelled | src/spiffe.rs:247-255 | every identity is printed as spiffe://trust-domain/ns/tenant/kind/name, with the seven kinds spelled out |
| Spiffe.AcceptedExactly | src/spiffe.rs:257-281 | a string is accepted for an identity if and only if it is its print and the identity round-trips |
| Spiffe.InvalidKindExactly | src/spiffe.rs:165-178 | a string is refused for its kind if and only if it is an identity in all but the kind |
| Delegation.SignSvidDelegated | src/spiffe.rs:737-812 | the outcome of every check in order |
| Delegation.ScopeIsByteExact | src/spiffe.rs:755-771 | comparing parsed identities accepts exactly the printed target |
| Delegation.SignedStaysInScope | src/spiffe.rs:773-798 | a signed leaf names the target, carries only the key's extensions, runs from the clock for the requested validity if no cast wraps, and then and only then stays inside the key's life |
| Delegation.SignsExactlyInScope | src/spiffe.rs:745-778 | with representable times, signing succeeds exactly for the printed target within the key's life |
| Delegation.RefusedExactly | src/spiffe.rs:745-778 | which requests are refused for an expired key, for another identity and for their validity, and that all others naming no identity are refused for their format |
| Delegation.GrantedExactly | src/spiffe.rs:780-810 | what becomes of a request that passes the checks |
| Delegation.StampedInOrder | src/spiffe.rs:780-794 | the extensions of a leaf and their order |
| Delegation.WrappedClock | src/spiffe.rs:795-798 | a clock near 2^64 gives a certificate from before 1970 |
| Delegation.IssuedStayInScope | src/spiffe.rs:709-731 | over every sequence of renewals with one key, every leaf was signed for one of its requests, names the target, carries the key's extensions, runs for the requested validity, and lies inside the life of the key if and only if that request's times do not wrap |
| Delegation.UnprintableTargetIssuesNothing | src/spiffe.rs:767-771 | a target that does not round-trip is never renewed |
| Delegation.RenewedReadsAsScoped | src/spiffe.rs:780-794 | the certificate readers find the key's role and ordinal in a renewed certificate |
| Grant.SortUnstable | src/operator.rs:60 | a sorted permutation in byte order |
| Grant.Dedup | src/operator.rs:61 | strictly sorted with the same elements |
| Grant.OfGrant | src/operator.rs:33-72 | the bytes fed for a grant, with sort and dedup computing the canonical list |
| Grant.FrozenLayout | src/operator.rs:20-32 | the bytes field by field: tag, ids, little-endian times, flags, and any strictly ascending list of the tenants |
| Grant.LessExactly | src/operator.rs:57-61 | the order of tenants is decided by the first differing byte |
| Grant.JoinedByNul | src/operator.rs:62-67 | tenants are joined by single NULs |
| Grant.SortedIsUnique | src/operator.rs:57-61 | a strictly sorted list is determined by its elements |
| Grant.SameGrantExactly | src/operator.rs:20-72 | grants have the same bytes if and only if all six scalars agree and the tenants are the same set, an empty name alone counting as none |
| Grant.SameScopeExactly | src/operator.rs:20-72 | with validated, non-empty tenants nothing but the set of tenants counts |
| Grant.NulMovesBorder | src/operator.rs:30-32 | a NUL anywhere inside an operator id makes two different grants coincide |
| Grant.NulSplitsTenant | src/operator.rs:30-32 | a NUL inside a tenant makes it coincide with two tenants |
| SagRule.OfRule | src/policy.rs:29-72 | the bytes fed for a rule |
| SagRule.FrozenLayout | src/policy.rs:29-72 | the bytes field by field, with big-endian ports |
| SagRule.SameRuleExactly | src/policy.rs:26-72 | rules have the same bytes if and only if they are the same rule or a crossed pair |
| SagRule.SameShapeSameRule | src/policy.rs:26-72 | rules that agree on the presence of a source port have the same bytes only if they are the same |
| SagRule.CollidingRules | src/policy.rs:26-28 | two different rules with the same bytes |
| Fingerprint.WriteUriBytes | src/spiffe.rs:217-228 | feeds exactly the printed identity |
| Fingerprint.Of | src/hash.rs:23-37 | the bytes fed for an identity and a role |
| Fingerprint.OfWithOrdinal | src/hash.rs:49-72 | the bytes fed for an identity, a role and an ordinal |
| Fingerprint.FrozenLayout | src/hash.rs:21-72 | the bytes field by field, with a little-endian ordinal |
| Fingerprint.SameFingerprintExactly | src/hash.rs:21-37 | the bytes coincide if and only if the printed identities and the roles do, and for identities that round-trip only if the identities do |
| Fingerprint.SameInstanceExactly | src/hash.rs:39-72 | for NUL-free identities the ordinal is told apart as well |
| Fingerprint.NulInNameCollides | src/hash.rs:49-72 | a NUL in the name lets an ordinal pass for a role |
| Header.WriteHeader | src/proto.rs:140-158 | the frame, with both lengths cast to their fields |
| Header.FrameSpelled | src/proto.rs:140-158 | the bytes field by field, with version 1 and every length cut to its field |
| Header.Cursor.ReadHeader | src/proto.rs:160-196 | what a read returns, and where it leaves the cursor |
| Header.FieldsAreRead | src/proto.rs:160-196 | fields of valid UTF-8 are read behind any sufficient length and any version |
| Header.ReadWasThere | src/proto.rs:160-196 | whatever is read was there: valid UTF-8 behind its lengths, with the rest behind it |
| Header.FrameReadsBack | src/proto.rs:140-196 | a frame is read back and exactly consumed if and only if both lengths fit their fields |
| Header.PrefixIsNotRead | src/proto.rs:161-172 | a strict prefix of a frame returns nothing and does not move the cursor |
| Header.StreamReadsBack | src/proto.rs:134-196 | any concatenation of frames is read back in order, with a frame cut short at the end left for later |
| Header.PanicsExactly | src/proto.rs:160-196 | a read panics if and only if the frame is complete by its outer length and its inner lengths overrun the buffer |
| Header.EmptyFramePanics | src/proto.rs:167-180 | a frame that announces no bytes panics |
| Header.UnmovedExactly | src/proto.rs:160-196 | a read that returns nothing leaves the cursor unmoved if and only if the frame is incomplete; on invalid UTF-8 it has moved |
| Header.ConsumesExactly | src/proto.rs:166-196 | a successful read consumes exactly the announced bytes if and only if the announced length is that of the fields read |
| Naming.AcceptedExactly | src/naming.rs:29-74 | a name is accepted exactly when every label is valid |
| Naming.LabelGrammar | src/naming.rs:56-74 | a label is one letter or digit, or two with at most 61 letters, digits and hyphens between |
| Naming.LowerExactly | src/naming.rs:35-38 | exactly the capital letters change, each into its small letter |
| Naming.SafeExactly | src/naming.rs:65-69 | the bytes of a label are the small letters, the digits and the hyphen |
| Naming.RefusedForFirst | src/naming.rs:40-48 | a refused name is refused for its first part that is no label, with the error of that part |
| Naming.HostnameSpelled | src/naming.rs:50-53 | an accepted name is service.role.tenant.svc.trust-domain in lower case |
| Naming.HostnameSplits | src/naming.rs:50-53 | splitting an accepted name on dots gives its labels, all valid |
| Naming.SameHostnameExactly | src/naming.rs:24-54 | accepted names are equal if and only if all four parts agree up to the case of letters |

## Left out

- Internals of `tss_esapi`: templates, attributes, null-authorisation sessions, the context's session slots set by `set_sessions`, NV reads and TCTI strings; only loading, saving, flushing and using objects and opening policy sessions are modelled.
- The object slot that TPM2_Create may need while it runs: the peak counts loaded objects only.
- `AttestationSession` and the free functions `seal_to_pcr` and `unseal`, which own a context each: the same commands without slot management.
- The library that unwraps a SubjectPublicKeyInfo: `RsaKey.UnwrapSpki` stands in its place and reads the same structure with the repository's own TLV reader, so stricter limits of the library are not modelled.
- `compute_ak_name`, `make_credential`, `spki_to_tpm_public`'s key-size check and `marshal_signature`: dispatch and wrappers around foreign code.
- Signature verification, SHA-2, BLAKE3 and the sealing primitives of `src/crypto.rs`: library wrappers; the truncation of hashes to 16 bytes is not modelled.
- `verify_quote_structure` and the activation proof: a few comparisons each, which would only add easy members.
- `validate_svid`, `extract_spiffe_id`, `of_ek_cert` and `build_csr`: foreign certificate parsing and chain validation.
- Extensions.FindStamped: certificates whose extension values reach four gigabytes are outside its precondition, because their lengths have no DER form that the readers accept.
- Grant.SortUnstable: works on a sequence instead of in place, and shows any sort, because the library's algorithm is not part of the repository.
- SlotRuns.EveryRunBalances: needs saving and flushing to work, because an ignored flush error leaks the object for good; `EveryRunIsSafe` needs neither.
- `create_rule` and `TenantCtx`: they only build values; that a closure may ignore the context and name another tenant is outside the identifier's bytes.
- The hex codecs of the identifiers, `Ord` implementations, `TenantId::new`, `Expiring` and `MonotonicVersion`: easy compared with the rest.
- Timing of `ct_eq` and zeroing of memory: not expressible in the model.
- Protobuf schemas, generated types and `src/vsock_proto.rs`: no behaviour of their own here.
