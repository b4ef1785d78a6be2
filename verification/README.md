# BareProxy, modelled and verified

BareProxy is a reverse proxy that brings its own cryptography, ASN.1, TLS 1.3 and
HTTP/1.1. This project models the parts of it that compute, parse, frame and
stream, and proves what they promise.

The model follows the program's own shape. Code that works by updating local
variables, fields or buffers is a method or a class here, with the same
branches, limits and error conditions, and is proved equal to a specification
function; the promises of the program are lemmas about these functions. Code
made of expressions is a function. What the program holds in u8, u32 and u64 has
a bounded type here, and 128-bit products have proved bounds, so an overflow of
these would be a failed proof; usize counters and lengths are natural numbers, and
so are the shifted limbs while `Poly1305.PackWords` puts them together.

Four groups of modules:

- **Numbers and curve.** `Words` and `NumberTheory` hold bounded words, byte strings
  as numbers, and modular arithmetic up to Fermat's little theorem. `Limbs` is the
  256-bit arithmetic on four 64-bit limbs. `Curve` and `JacobianLaw` prove that the
  Jacobian formulas are the affine chord-and-tangent law. `P256` has the parameters
  and multiples of points, `LimbPoints` the point operations on limbs, and `Ecc` point
  encoding, key exchange and signatures.
- **Symmetric primitives.** `Poly1305` is the authenticator in 26-bit limbs, `Sha256`
  the streaming hash with HMAC and HKDF on top, `Aead` the ChaCha20-Poly1305
  construction.
- **TLS 1.3.** `Framing` states independence from fragmentation once for every decoder.
  `TlsRecords`, `RecordProtection` and `ApplicationState` are the record layer and the
  application phase. `HandshakeReading`, `ClientHello`, `ServerHello` and `HelloAgreement`
  are the exchange of hellos down to mirrored keys. `Der`, `Base64` and `Pem` are the
  encodings around keys and certificates.
- **HTTP/1.1.** `HttpSyntax` and `Streams` are shared. `HttpHead` parses and reads request
  heads, `RequestRewrite` is the head the proxy sends on, `RewriteLimits` when that head is
  within the parser's limits. `ChunkedBody` streams bodies, and `ChunkLines` compares the
  chunk-size lines it accepts with those of the standard.

What is taken as a hypothesis appears as such in the lemmas, never as an axiom:
that the two moduli are prime, that curve addition is associative and that the
group order kills the generator (`P256.GroupHypotheses`, `Curve.Field`). The compression
function of SHA-256, the ChaCha20 block function, the keyed hash of the nonce
generator, and in the hello exchange the hash and the HKDF steps are function
parameters, so the results hold whatever they compute. `IpAddr` and `Ipv6Addr` parsing
are predicate parameters. Reads return any positive number of bytes up to what
is asked and may fail, writes may fail after any part of their bytes, and
random bytes are arbitrary inputs.

Five results say where the program differs from the plain promise, with the exact
condition and an input that fails:

- An accepted head is incomplete at every proper prefix if and only if its request
  line is shorter than 8192 bytes (`HttpHead.PrefixesIncomplete`): at exactly 8192
  bytes the prefix cut between CR and LF is refused as too long
  (`RewriteLimits.LongestLineCut`).
- The head sent upstream parses if and only if the kept headers and the proxy's own are
  together within the limits (`RewriteLimits.SentHeadParsesIff`): a request with a host and
  97 more headers is accepted, and the 101 headers sent for it are not
  (`RewriteLimits.RewriteCanOverflow`).
- A fatal alert arrives as itself if and only if it is not an unknown description with the
  code of a named one (`ApplicationState.FatalAlertDelivered`): the sender looks at the
  name of the description only, so that `Unknown(0)` is read as a closure
  (`ApplicationState.UnknownZeroIsCloseNotify`) and `Unknown(10)` as another alert
  (`ApplicationState.UnknownTenIsUnexpectedMessage`).
- A chunk-size line of RFC 9112 is accepted if and only if no blank precedes its first
  semicolon, it is ASCII and its size fits 64 bits (`ChunkLines.SizeLineDecided`);
  beyond the standard, any nonempty printable text may follow the semicolon
  (`ChunkLines.NamelessExtensionAccepted`).
- The client accepts the server's hello if and only if its random is not the one that
  marks a HelloRetryRequest (`HelloAgreement.HelloAgreement`); the server does not
  exclude that value when it draws its random.

`dafny verify dfyconfig.toml` checks the whole project.

## Model

| member | source | states |
|---|---|---|
| `Limbs.CompareLimbs` | src/p256.rs:222-233 | comparing limbs from the top orders the numbers they stand for, as Less, Equal or Greater |
| `Limbs.OverflowingAdd` | src/p256.rs:142-158 | the four limbs plus the carry out are the exact sum of the two numbers |
| `Limbs.OverflowingSub` | src/p256.rs:160-176 | the four limbs less the borrow are the exact difference, and there is a borrow exactly when the left number is smaller |
| `Limbs.MultiplyWide` | src/p256.rs:178-212 | the eight limbs are the exact product for all inputs: no partial sum leaves 128 bits and no carry is lost |
| `Limbs.BitOfValue` | src/p256.rs:214-248 | the bit test on limbs is the binary digit of the number |
| `Limbs.ShiftFiveLimbsLeftOne` | src/p256.rs:278-290 | doubles the number held in the array, and no bit falls out |
| `Limbs.SubtractFiveLimbs` | src/p256.rs:261-276 | subtracts in place, and no borrow is left over, whenever the left number is not the smaller |
| `Limbs.ReduceWide` | src/p256.rs:292-312 | the bit-serial division leaves the remainder of every 512-bit number by every nonzero modulus; its intermediate values always fit five limbs |
| `Limbs.ReduceUint` | src/p256.rs:314-319 | the remainder of a 256-bit number |
| `Limbs.AddMod` | src/p256.rs:321-330 | the exact sum modulo m for all limb inputs, reduced or not, and every nonzero m |
| `Limbs.SubMod` | src/p256.rs:332-340 | the exact difference modulo m of reduced inputs, through the wrap-around when there is a borrow |
| `Limbs.MulMod` | src/p256.rs:342-344 | the exact product modulo m for all limb inputs and every nonzero m |
| `Limbs.PowMod` | src/p256.rs:346-359 | square-and-multiply from the top bit computes the power modulo m for every 256-bit exponent |
| `Limbs.InvertMod` | src/p256.rs:361-373 | for a prime modulus: None exactly on multiples of it, otherwise the reduced number whose product with the input is 1 |
| `NumberTheory.Fermat` | src/p256.rs:361-373 | what the inversion by exponent m-2 rests on: the power p-1 of a number not divisible by the prime p is 1 modulo p, proved from the definition of a prime |
| `NumberTheory.InverseCorrect` | src/p256.rs:407-409 | the power p-2 is a multiplicative inverse modulo the prime p |
| `NumberTheory.InverseUnique` | src/p256.rs:440-442 | no other reduced number is an inverse |
| `Limbs.FromBEBytes` | src/p256.rs:114-128 | 32 bytes are read as their big-endian number |
| `Limbs.ToBEBytes` | src/p256.rs:130-140 | the 32 bytes whose big-endian number is the value |
| `P256.ConstantValues` | src/p256.rs:17-56 | the limb constants are the numbers of the standard, and the coefficient a is p - 3 |
| `P256.GeneratorOnCurve` | src/p256.rs:461-466 | the generator is reduced and satisfies the curve equation |
| `Curve.IsOnCurveIff` | src/p256.rs:489-505 | the test with field operations holds exactly when y^2 and x^3 - 3x + b agree modulo p |
| `Curve.AddPointsOnCurve` | src/p256.rs:511-519 | the chord-and-tangent sum of two curve points, in all its cases, is a curve point |
| `Curve.ToPointRepresents` | src/p256.rs:871-891 | dividing by the powers of z recovers the affine point that Jacobian coordinates stand for |
| `JacobianLaw.DoubleRepresents` | src/p256.rs:893-929 | doubling Jacobian coordinates of a curve point gives coordinates of its affine double, for every scaling, the identity and points with y = 0 included |
| `JacobianLaw.AddRepresents` | src/p256.rs:931-994 | adding Jacobian coordinates of two curve points gives coordinates of their affine sum: equal, opposite and identity points included |
| `JacobianLaw.AddPointIsAffineLaw` | src/p256.rs:511-519 | adding or doubling by way of Jacobian coordinates is the affine chord-and-tangent law on every pair of curve points |
| `LimbPoints.P256Domain` | src/p256.rs:17-56 | the six limb constants are the parameters of the curve that the lemmas speak of |
| `LimbPoints.DoubleLimbs` | src/p256.rs:893-929 | the field operations on limbs, in the order of the program, give the coordinates of the doubling formula, all reduced |
| `LimbPoints.AddLimbs` | src/p256.rs:931-994 | the same for the addition formula, with its four special cases |
| `LimbPoints.ToLimbPoint` | src/p256.rs:871-891 | the inversion and the three products on limbs give the affine point; a nonzero z always has an inverse |
| `LimbPoints.IsOnCurveLimbs` | src/p256.rs:489-505 | the test on limbs is the test on the numbers |
| `LimbPoints.AddPoint` | src/p256.rs:511-515 | adding two points on limbs is the affine chord-and-tangent law and stays on the curve |
| `LimbPoints.DoublePoint` | src/p256.rs:517-519 | doubling a point on limbs is the affine law and stays on the curve |
| `LimbPoints.MultiplyUint` | src/p256.rs:525-538 | double-and-add from the top bit, on limbs throughout, is the k-fold sum of the point for every 256-bit k (associativity is a hypothesis) |
| `P256.MultipleOfMultiple` | src/p256.rs:614-633 | the j-fold sum of the k-fold sum is the jk-fold sum |
| `P256.GeneratorOrder` | src/p256.rs:24-30 | a multiple of the generator vanishes exactly when the group order divides the scalar (hypotheses: the order is prime and kills the generator) |
| `Ecc.Sec1RoundTrip` | src/p256.rs:540-579 | every curve point but the identity is read back from its 65-byte encoding |
| `Ecc.Sec1Canonical` | src/p256.rs:555-579 | whatever encoding is accepted is a curve point and re-encodes to the same bytes |
| `Ecc.PointFromCoordinates` | src/p256.rs:468-487 | the point on limbs, or the exact error for a coordinate out of range or a pair off the curve |
| `Ecc.PointToSec1` | src/p256.rs:540-553 | the 65 bytes that encode the point, or the error for the identity |
| `Ecc.PointFromSec1` | src/p256.rs:555-579 | the point that the bytes encode, or the exact error |
| `Ecc.Ecdh` | src/p256.rs:614-633 | the error for a zero scalar, an identity peer or an identity result, otherwise the 32 bytes of the x coordinate of the scalar multiple |
| `Ecc.EcdhAgreement` | src/p256.rs:614-633 | for all nonzero scalars below the order both ends compute the same 32 bytes and neither fails |
| `Ecc.P256EcdhAgreement` | src/p256.rs:614-633 | the same for the parameters of P-256, given what is taken of them |
| `Ecc.Rfc6979.constructor` | src/p256.rs:692-723 | the generator starts from the two keyed updates over the scalar and the reduced hash |
| `Ecc.Rfc6979.NextScalar` | src/p256.rs:725-737 | wherever the drawing loop ends, it ends with the first candidate in [1, n-1], the key and value updated exactly as the specified draw |
| `Ecc.Rfc6979.RejectCandidate` | src/p256.rs:739-749 | the state moves as a rejection prescribes |
| `Ecc.AttemptSignature` | src/p256.rs:785-809 | what one nonce gives, on limbs: the signature equation, or nothing for an identity, a zero r or a zero s |
| `Ecc.Sign` | src/p256.rs:766-810 | refuses exactly the zero scalar; otherwise, wherever the loop ends, the signature returned is the one the loop determines, has components in [1, n-1] and is accepted under the matching key |
| `Ecc.SignatureVerifies` | src/p256.rs:813-840 | a signature from any nonce in range, with nonzero components, is accepted by the verification equation under the matching public key |
| `Ecc.SignThenVerify` | src/p256.rs:766-840 | whatever the nonce generator draws, the signature that signing returns has components in range and is accepted |
| `Ecc.SignsOnce` | src/p256.rs:779-810 | from any state the signing loop ends with at most one signature |
| `Ecc.P256SignThenVerify` | src/p256.rs:766-840 | the same for the parameters of P-256, given what is taken of them |
| `Ecc.SignatureFromComponents` | src/p256.rs:666-680 | components in [1, n-1] are accepted, and the exact error otherwise |
| `Ecc.VerifySignature` | src/p256.rs:813-840 | the verification on limbs is the verification equation on the numbers |
| `Poly1305.ClampKey` | src/crypto.rs:869-879 | clearing bits byte by byte is the clamping of the key half |
| `Poly1305.LimbsOfBytes` | src/crypto.rs:881-889 | the five overlapping reads split the 16 bytes into 26-bit limbs of the same number |
| `Poly1305.LoadBlock` | src/crypto.rs:903-922 | a padded block and its high bit stand for the bytes followed by a one |
| `Poly1305.FoldedProduct` | src/crypto.rs:924-933 | the five sums are the product of accumulator and key modulo 2^130 - 5, each within a bound far below 64 bits |
| `Poly1305.PropagateCarries` | src/crypto.rs:935-961 | the delayed carries keep the residue and bring the limbs back within their bounds, with no 64-bit overflow |
| `Poly1305.ProcessBlock` | src/crypto.rs:902-970 | one block adds its value to the accumulator and multiplies by the key modulo 2^130 - 5, and the limb bounds hold again |
| `Poly1305.FinalReduction` | src/crypto.rs:972-1021 | the last carries and the constant-time select leave the accumulator fully reduced modulo 2^130 - 5, for all limbs within the bounds |
| `Poly1305.AddPad` | src/crypto.rs:1023-1062 | repacking to 32-bit words and adding the pad with carries is addition modulo 2^128, written little-endian |
| `Poly1305.Authenticate` | src/crypto.rs:868-1062 | the tag of every message of any length is the accumulator of section 2.5 of RFC 8439 plus s, and no operation leaves its machine word |
| `Poly1305.AccumulateIsPolynomial` | src/crypto.rs:902-970 | the running accumulator is the polynomial of the blocks evaluated at r modulo 2^130 - 5 |
| `Sha256.Hasher.Update` | src/crypto.rs:389-435 | feeding more bytes, in any amount, appends them to the message hashed so far |
| `Sha256.Hasher.Finalize` | src/crypto.rs:437-469 | the digest is the fold of the compression function over the padded message (section 5.1.1 of FIPS 180-4) |
| `Sha256.PaddedBlocks` | src/crypto.rs:437-469 | the one or two final blocks are what the padding rule puts after the whole blocks |
| `Sha256.HashParts` | src/crypto.rs:389-469 | every way of cutting a message into updates gives the digest of the whole |
| `Sha256.HmacParts` | src/crypto.rs:561-605 | the code depends only on the concatenation of the parts, and is the nested hash with the two pads |
| `Sha256.HkdfExpand` | src/crypto.rs:616-651 | the output is the chain of keyed blocks cut to the length asked for, and the two errors are exactly a short key and a long output |
| `Sha256.ExpandPrefix` | src/crypto.rs:616-651 | a shorter expansion is a prefix of a longer one |
| `Aead.ChaCha20Xor` | src/crypto.rs:823-862 | every byte is combined with the keystream byte of its block; the error is returned exactly when the 32-bit counter cannot cover the input |
| `Aead.XorStreamInvolution` | src/crypto.rs:823-862 | applying the keystream twice gives the input back |
| `Aead.MacDataInjective` | src/crypto.rs:1096-1114 | different pairs of associated data and ciphertext are authenticated as different bytes |
| `Aead.ConstantTimeEq` | src/crypto.rs:225-237 | true exactly on equal byte strings |
| `Aead.EncryptImpl` | src/crypto.rs:1119-1143 | ciphertext and tag as specified |
| `Aead.DecryptImpl` | src/crypto.rs:1149-1173 | the plaintext when the tag matches, otherwise the authentication error |
| `Aead.AeadRoundTrip` | src/crypto.rs:1119-1173 | what is encrypted decrypts to itself under the same key, nonce and associated data |
| `Aead.DecryptedWasEncrypted` | src/crypto.rs:1149-1173 | whatever decrypts is exactly what encrypting the result produces |
| `Framing.SplitIndependent` | src/tls.rs:2206-2268 | for any incremental decoder, two ways of cutting the same stream end in the same error, and without error in the same frames and residue |
| `Framing.ErrorIsFinal` | src/tls.rs:2206-2268 | once in error a decoder stays in that error and yields nothing more |
| `TlsRecords.CiphertextRecordDecoder.Push` | src/tls.rs:2206-2268 | one call yields the records that the buffered and new bytes start with and keeps the rest, or the first error with the buffer kept |
| `TlsRecords.PlaintextRecordDecoder.Push` | src/tls.rs:2553-2609 | the same for plaintext records |
| `TlsRecords.CiphertextSplitIndependent` | src/tls.rs:2206-2268 | protected records do not depend on how the transport split the bytes; a bad stream ends in the same error and stays there |
| `TlsRecords.PlaintextSplitIndependent` | src/tls.rs:2553-2609 | the same for plaintext records |
| `TlsRecords.CiphertextRoundTrip` | src/tls.rs:2169-2188 | a serialized record is the first thing decoded from whatever starts with it |
| `TlsRecords.CiphertextCanonical` | src/tls.rs:2206-2268 | a decoded record serializes to exactly the bytes it was decoded from |
| `TlsRecords.PlaintextRoundTrip` | src/tls.rs:2131-2147 | the same round trip for plaintext records |
| `TlsRecords.HandshakeDeframer.PushRecord` | src/tls.rs:2626-2672 | messages followed by the buffer are always the old buffer followed by the fragment; another content type is refused exactly inside a message |
| `TlsRecords.MessagesConserve` | src/tls.rs:2626-2672 | taking messages off loses no byte, never fails, and stops only when no whole message is left |
| `TlsRecords.FragmentsDeframe` | src/tls.rs:2626-2672 | every fragmentation of a well-framed message deframes to that message and an empty buffer |
| `TlsRecords.MessageBoundary` | src/tls.rs:2626-2682 | the deframer is at a message boundary if and only if what it got is a list of well-framed messages, however fragmented, and then it delivered that list |
| `RecordProtection.NonceInjective` | src/tls.rs:2408-2417 | different sequence numbers give different nonces under one static IV |
| `RecordProtection.InnerRoundTrip` | src/tls.rs:2444-2515 | the inner plaintext reads back with its content type and fragment, whatever the padding |
| `RecordProtection.Tls13RecordProtection.EncryptRecord` | src/tls.rs:2309-2351 | record or error and the new state are those of the encryption step: the write counter moves only on success |
| `RecordProtection.Tls13RecordProtection.DecryptRecord` | src/tls.rs:2353-2388 | the same for decryption; a rejected record changes nothing |
| `RecordProtection.Tls13RecordProtection.Erase` | src/tls.rs:2390-2400 | all keys and IVs become zero and both directions are closed |
| `RecordProtection.ConsecutiveSequences` | src/tls.rs:2309-2351 | over every run of attempts the emitted records carry consecutive sequence numbers |
| `RecordProtection.NoncesNeverRepeat` | src/tls.rs:2309-2351 | over every run of succeeding and failing attempts no two emitted records share a nonce |
| `RecordProtection.LastSequenceThenRefused` | src/tls.rs:2309-2351 | the greatest sequence number is used once, and everything after it is refused |
| `RecordProtection.AlwaysEncrypts` | src/tls.rs:2309-2351 | encryption succeeds exactly when the direction is open and the inner plaintext can be encoded |
| `RecordProtection.RecordRoundTrip` | src/tls.rs:2309-2388 | a mirrored peer decrypts the record to its content type and fragment, and both counters stay in step |
| `RecordProtection.PeerReceivesAll` | src/tls.rs:2309-2388 | over every run the mirrored peer receives exactly what was sent, in order |
| `RecordProtection.EncryptHandshakeMessage` | src/tls.rs:3477-3490 | the records of the chunks of the message in order, or the first error |
| `RecordProtection.ChunksDelivered` | src/tls.rs:3477-3490 | decrypting these records returns the chunks |
| `RecordProtection.HandshakeMessageDelivered` | src/tls.rs:3477-3490 | fragmenting, encrypting, decrypting and deframing a well-framed message returns it |
| `ApplicationState.Tls13ApplicationState.EncryptApplicationData` | src/tls.rs:944-959 | outcome and new state are those of the data step: refused after failure or close_notify |
| `ApplicationState.Tls13ApplicationState.EncryptCloseNotify` | src/tls.rs:961-976 | the close_notify step: sent once |
| `ApplicationState.Tls13ApplicationState.EncryptFatalAlert` | src/tls.rs:978-992 | the fatal alert step: closure descriptions refused, keys wiped once sent |
| `ApplicationState.Tls13ApplicationState.ReceiveProtectedRecord` | src/tls.rs:994-1031 | the receiving step: event, refusal or silence after close_notify |
| `ApplicationState.Tls13ApplicationState.Fail` | src/tls.rs:1048-1056 | secrets and keys become zero and the connection failed |
| `ApplicationState.EmittedLanguage` | src/tls.rs:944-992 | the records of every run are data records, then at most one close_notify, then at most one fatal alert |
| `ApplicationState.NothingAfterCloseNotify` | src/tls.rs:994-1031 | after a received close_notify every later record is ignored: no data and no alert is delivered |
| `ApplicationState.FailureIsFinal` | src/tls.rs:1048-1056 | in every run the keys are zero once the connection failed; from then on nothing is emitted, delivered or changed |
| `ApplicationState.DataDelivered` | src/tls.rs:944-1031 | data sent is delivered as that data by a mirrored end that is still open |
| `ApplicationState.CodeRoundTrip` | src/tls.rs:129-196 | reading the code of a description gives it back unless it is an Unknown with the code of a named one |
| `ApplicationState.FatalAlertSent` | src/tls.rs:978-992 | an end that may still write sends every fatal alert except the two closure descriptions |
| `ApplicationState.FatalAlertDelivered` | src/tls.rs:978-1031 | a fatal alert arrives as whatever its code is read as; that is the alert itself if and only if it is not an Unknown with the code of a named description |
| `ApplicationState.UnknownZeroIsCloseNotify` | src/tls.rs:978-1031 | the first failing input: Unknown(0) is sent as fatal and received as close_notify |
| `ApplicationState.UnknownTenIsUnexpectedMessage` | src/tls.rs:978-1031 | the second: Unknown(10) is received as another fatal alert |
| `HandshakeReading.HandshakeReader.ReadExact` | src/tls.rs:3678-3692 | takes exactly the bytes asked for or fails as truncated without moving |
| `HandshakeReading.HandshakeReader.ReadU16` | src/tls.rs:3665-3669 | a big-endian 16-bit number |
| `HandshakeReading.HandshakeReader.ReadVector8` | src/tls.rs:3694-3699 | the data after a one-byte length, or the error for a vector that is cut short |
| `HandshakeReading.HandshakeReader.ReadVector16` | src/tls.rs:3701-3706 | the same with a two-byte length |
| `HandshakeReading.HandshakeReader.Finish` | src/tls.rs:3716-3722 | succeeds exactly at the end |
| `HandshakeReading.ReadsVector16` | src/tls.rs:3701-3706 | an encoded vector is read as its data wherever it stands |
| `HandshakeReading.Vector16Canonical` | src/tls.rs:3701-3706 | a vector that is read is the encoding of its data |
| `ClientHello.ReadServerName` | src/tls.rs:2928-2967 | the name list is accepted and lowercased, or refused, as specified |
| `ClientHello.ReadProtocols` | src/tls.rs:2901-2926 | the protocol names, all nonempty |
| `ClientHello.ReadShares` | src/tls.rs:3022-3055 | the key shares, one for a group |
| `ClientHello.ReadExtensions` | src/tls.rs:2840-2899 | the loop over extensions: duplicates refused, each one handled in order |
| `ClientHello.ReadClientHello` | src/tls.rs:2689-2826 | the whole message, every check in the order of the program |
| `ClientHello.WriteClientHello` | src/tls.rs:1535-1660 | the appended pieces are the encoding of the offered extensions and the fixed fields |
| `ClientHello.BlockRead` | src/tls.rs:2840-2899 | the bytes of any list of extensions are read as that list, with the outcome of handling it one by one |
| `ClientHello.ClientHelloRoundTrip` | src/tls.rs:1535-1660 | every hello a client builds is accepted, with the same random, share and lowercased name and the offered versions, groups, algorithms and protocol |
| `ServerHello.ReadServerHello` | src/tls.rs:1839-1977 | the whole message, every check in the order of the program |
| `ServerHello.WriteServerHello` | src/tls.rs:3567-3612 | the appended pieces are the encoding of the answer |
| `ServerHello.ServerHelloRoundTrip` | src/tls.rs:1839-1977 | the answer is read as its session identifier and share exactly when its random is not the one of a HelloRetryRequest, and is refused as such otherwise |
| `HelloAgreement.PublicShare` | src/tls.rs:1548-1548 | the share of every private key in range is 65 bytes that read back as the public point |
| `HelloAgreement.ServerAgrees` | src/tls.rs:3143-3218 | the server accepts every hello the client builds and derives the shared secret of the two keys |
| `HelloAgreement.HelloAgreement` | src/tls.rs:2013-2055 | for all names, randoms and private keys both ends derive the same secrets and mirrored record protection, and the first protected record decrypts to the encrypted extensions; the client accepts exactly when the random is not the one of a HelloRetryRequest |
| `Der.DerReader.ReadLength` | src/asn1.rs:246-287 | the definite length at the position, or the exact error for indefinite, padded, overlong and short-form-able lengths |
| `Der.DerReader.ReadTlv` | src/asn1.rs:170-193 | tag and content at the position, and the position moves past them |
| `Der.DerReader.ReadExpected` | src/asn1.rs:195-206 | the same when the tag is the expected one |
| `Der.DerReader.ReadIntegerUnsigned` | src/asn1.rs:212-234 | a canonical non-negative INTEGER without its sign octet |
| `Der.DerReader.Finish` | src/asn1.rs:160-168 | succeeds exactly at the end, otherwise tells how much is left |
| `Der.TlvWritten` | src/asn1.rs:1294-1304 | an encoded element is read back wherever it stands, whatever follows |
| `Der.TlvRead` | src/asn1.rs:170-193 | whatever element is accepted is exactly the bytes that encoding it produces |
| `Der.TlvUnique` | src/asn1.rs:170-193 | an element is read at a position if and only if its one encoding stands there and its tag has the low form |
| `Der.IntegerRead` | src/asn1.rs:212-234 | every accepted INTEGER re-encodes to exactly the bytes consumed |
| `Der.IntegerWritten` | src/asn1.rs:295-316 | an encoded INTEGER is read back as the same number without leading zeros |
| `Der.PushDerLength` | src/asn1.rs:1306-1327 | appends the short or the shortest long form of the length |
| `Der.DerWrap` | src/asn1.rs:1294-1304 | tag, length and content |
| `Der.DerIntegerUnsigned` | src/asn1.rs:295-316 | the INTEGER of the value, without its leading zeros and with a sign octet where needed |
| `Der.PushBase128` | src/asn1.rs:1329-1354 | appends the digits in base 128, all but the last marked; ten bytes always suffice |
| `Der.DerObjectIdentifier` | src/asn1.rs:350-383 | the encoding of the arcs, or the error exactly for arcs that have none |
| `Der.ObjectIdentifierInjective` | src/asn1.rs:350-383 | different accepted arcs have different encodings |
| `Base64.EncodeInner` | src/crypto.rs:299-364 | the encoding of any bytes in the given alphabet, padded or not, from the shifts and masks of the program |
| `Base64.DecodeBase64` | src/asn1.rs:1388-1436 | the decoded bytes, or the error, from the shifts and masks of the program |
| `Base64.UrlUnpaddedInjective` | src/crypto.rs:292-364 | the URL-safe form without padding determines the bytes |
| `Base64.Base64RoundTrip` | src/asn1.rs:1388-1436 | decoding the encoding of any bytes returns them |
| `Base64.Base64Canonical` | src/asn1.rs:1388-1436 | every accepted text is the encoding of what it decodes to |
| `Pem.ValidatePemLabel` | src/asn1.rs:1356-1386 | accepts exactly upper-case letters and digits with single spaces and dashes between them |
| `Pem.EncodePem` | src/asn1.rs:423-445 | the boundary lines around the Base64 text cut at 64 characters |
| `Pem.DecodePem` | src/asn1.rs:451-500 | the first block with the label, or the exact error |
| `Pem.DecodeCertificateChain` | src/asn1.rs:933-984 | all certificate blocks in order, or the exact error |
| `Pem.PemRoundTrip` | src/asn1.rs:451-500 | decoding the encoding returns the bytes, for every valid label |
| `Pem.ChainRoundTrip` | src/asn1.rs:933-984 | any nonempty list of certificates is decoded from the concatenation of their encodings, in order |
| `HttpSyntax.Trim` | src/http.rs:557-567 | removes blanks from both ends, one at a time |
| `HttpHead.ParseHeaders` | src/http.rs:430-460 | the headers of a block, or the first error |
| `HttpHead.ParseContentLength` | src/http.rs:489-521 | the one length all Content-Length values agree on, or the first error |
| `HttpHead.ParseTransferEncoding` | src/http.rs:523-542 | whether the coding is exactly one chunked, or the error |
| `HttpHead.ParseRequestWithConsumed` | src/http.rs:339-399 | the request and the length of its head, or the first error in the order of the program |
| `HttpHead.ParseAgrees` | src/http.rs:339-399 | an accepted head is found again, the same and of the same length, in whatever continues its bytes |
| `HttpHead.ProperPrefix` | src/http.rs:340-349 | every proper prefix of an accepted head is incomplete, except that a request line of exactly 8192 bytes cut between CR and LF is called too long |
| `HttpHead.PrefixesIncomplete` | src/http.rs:339-399 | all proper prefixes are incomplete if and only if the request line is shorter than 8192 bytes |
| `RewriteLimits.LongestLineCut` | src/http.rs:339-349 | the failing input: a head with a request line of 8192 bytes parses, and cut between CR and LF it is refused as too long |
| `RewriteLimits.RequestLineParses` | src/http.rs:401-428 | the request line of a method token and an ASCII target is read as these two |
| `HttpHead.IncompleteIsShort` | src/server.rs:798-803 | a buffer as long as the greatest head is never called incomplete, so the size error of the reading loop cannot occur |
| `HttpHead.ReadRequestHead` | src/server.rs:772-822 | for every way reads return bytes: the request found is the one of all the bytes together, and head, buffered body and unread bytes make up those bytes; a head with a request line below the limit is found unless a read fails |
| `RequestRewrite.SerializeRequestHead` | src/proxy.rs:1848-1944 | the appended pieces are the request line, the kept headers and the proxy's own; the error comes in the order of the program |
| `RequestRewrite.HeadReparses` | src/http.rs:339-399 | the bytes of a head with clean headers parse, all of them, as a request with just these headers when counts and sizes allow |
| `RequestRewrite.FramingKept` | src/http.rs:489-542 | of the headers sent, the lengths, codings and hosts are only the proxy's, so body framing and host are those of the request |
| `RequestRewrite.RewrittenHead` | src/proxy.rs:1848-1944 | what the proxy sends for a parsed request parses, all of it, exactly when it is within the limits on counts and sizes, and then as a request with the same method, target, host, length and coding whose headers are those sent |
| `RewriteLimits.SentHeadParsesIff` | src/proxy.rs:1848-1944 | the head sent for a parsed request parses if and only if its kept headers and the proxy's own, counted and measured on the request and the client address, are within the limits |
| `RewriteLimits.RewriteCanOverflow` | src/proxy.rs:1848-1944 | the failing input: a request with a host and 97 more headers is accepted, and the head sent for it is refused |
| `RequestRewrite.NothingNamedSurvives` | src/proxy.rs:1946-1974 | a header sent upstream is the proxy's own, or one of the client's that its Connection headers do not name |
| `RequestRewrite.DecimalParses` | src/proxy.rs:1879-1881 | the decimal text of a length is read as that length |
| `ChunkedBody.PrefixedReader.constructor` | src/proxy.rs:493-499 | nothing has been handed out yet of the prefix and the stream |
| `ChunkedBody.PrefixedReader.Read` | src/proxy.rs:506-524 | the next bytes of the prefix, then of the stream; none only at the end of both |
| `ChunkedBody.PrefixedReader.Split` | src/proxy.rs:501-503 | what is left of the buffer and of the stream follows from how many bytes were handed out |
| `ChunkedBody.ReadChunkLine` | src/proxy.rs:666-711 | the line up to its CRLF, or the error that the bytes deserve |
| `ChunkedBody.StreamChunkData` | src/proxy.rs:576-612 | exactly the announced bytes go upstream, in pieces of any size |
| `ChunkedBody.StreamRequestTrailers` | src/proxy.rs:614-664 | exactly the trailer section goes upstream, within its limits on lines, bytes and fields |
| `ChunkedBody.StreamChunkedRequestBody` | src/proxy.rs:526-574 | whatever happens the bytes sent are a prefix of buffer and stream; on success they are exactly the complete body these start with, the client is not read past it and the unread part of the buffer is returned; the body is called invalid, or the client gone, only when there is no complete body |
| `ChunkedBody.ChunkedGrammar` | src/proxy.rs:526-574 | the body ends at a position if and only if the bytes up to there are chunks, a last chunk and a trailer section within the limits, each line accepted by the test of the program |
| `ChunkLines.SizeLineDecided` | src/proxy.rs:713-742 | a chunk-size line of section 7.1 of RFC 9112, with any chunk extensions of 7.1.1, is accepted with its value if and only if no blank precedes its first semicolon, it is ASCII, and its size fits 64 bits |
| `ChunkLines.NamelessExtensionAccepted` | src/proxy.rs:727-733 | 5;= is accepted as size 5 and is the text of no line of the standard |
| `ChunkLines.BlankBeforeExtensionRefused` | src/proxy.rs:721-725 | 5 ;a is a line of the standard and is refused |
| `ChunkLines.StandardBodyDecided` | src/proxy.rs:526-574 | bytes that start with a chunked body whose size lines are the standard's are taken exactly to its end if every line fits and is accepted as above and the trailers are accepted, and are refused otherwise |
| `ChunkedBody.ChunkedBodyUnique` | src/proxy.rs:526-574 | no chunked body is a proper prefix of another |
| `ChunkedBody.StreamRequestBody` | src/proxy.rs:818-868 | the same for a body of known length: exactly that many bytes of buffer and stream |

## Left out

- Ecc.Rfc6979.NextScalar: that the drawing loop ends cannot be proved, so the method requires it, as a fact about the keyed hash; a call that would loop for ever is not modelled.
- Ecc.Sign: requires likewise that the loop ends with some signature; the budgets in the lemmas only count draws.
- LimbPoints.MultiplyUint: associativity of the curve law is a hypothesis, and so are primality and the order of the generator where they are used.
- Der.DerReader.ReadTlv: where the position stands after an error inside an element is not stated.
- ChunkLines.StandardBodyDecided: a trailer is any unbroken line here, and which trailer lines are accepted is the test of the program.
- Sha256.Hasher.Finalize: the 64 rounds of the compression function are a parameter.
- Aead.ChaCha20Xor: the 20 rounds of the block function are a parameter.
- HelloAgreement.HelloAgreement: HKDF steps are total functions here; the error returns for a short key, a long label or a long output cannot occur with the lengths used.
- RequestRewrite.RewrittenHead: says nothing of the connection persistence flag, which the proxy decides anew.
- Errors that carry a field name or an inner I/O error in the program carry none here.
- Wiping memory, running time, and the strength of the cryptography.
- Binary decoding of text: labels, names and PEM text are byte strings, and the only UTF-8 check modelled is the one on request lines, lengths and hosts.
- HelloRetryRequest, server authentication messages, certificates and their verification, signing requests, time parsing.
- The response direction of the proxy, connection reuse, tunnels, routing and configuration: input and output plumbing or flat validation.
- The raw accessors of the application state that hand out the record protection.
