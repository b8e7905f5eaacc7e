# Lvau: a verified model of the capsule format and its engines

Lvau encrypts files into capsules: a length-framed envelope followed by a payload
of authenticated chunks. This project models the parts of `lvau-core` and
`lvau-protocol` where correctness is hardest to see, and proves what they are for:

- the batching, parallel chunk engine with short reads, both format versions and all
  three payload algorithms, against a sequential specification
  (`Lco`, `Framing`, `ChunkCipher`, `Frames`, `Parallel`);
- the envelope on the wire, its commitment, its checks and the legacy fallback
  (`Postcard`, `Wire`, `Capsule`, `Layout`), encryption for passwords and for key pairs
  (`FileCrypto`, `FileOps`), what the profiles stand for (`Profiles`), and that wrong file
  keys, passwords and private keys are refused (`Separation`);
- the annotation steps sign, approve, attach-release and attach-recovery, one by one
  and over arbitrary runs (`Signing`, `Release`, `Policy`, `Annotations`, `EndToEnd`,
  `Sizes`), and what a successful decryption authenticates (`Authentication`);
- bundles: paths, layout check, packing, opening, verification and extraction
  (`BundlePaths`, `BundleLayout`, `BundleFormat`, `BundlePack`, `BundleExtract`,
  `BundleCredentials`, `BundleRoundTrip`), and the manifest difference (`Sorting`, `Diff`);
- the chunk primitive of format v3 (`V3Chunk`).

`Bytes`, `Io`, `Files`, `Errors` and `Protocol` hold the data types: little-endian
bytes, streams with short reads, a file system as a map, the envelope types.

## How it is modelled

Code that updates state is a method over that state and is proved against a
specification function; laws about the specification are lemmas. Parallel tasks run
in any order: a batch keeps the set of pending tasks and picks any of them. A reader
returns any positive number of bytes, 0 only at the end; a stream or file system may
be declared faulty and then fails at any call. The sorts of the standard library are
known to their callers only as "a sorted permutation", so what is proved does not
depend on how ties are ordered. Chunk size and batch size are parameters of the
streaming theorems; the file-level theorems use the format's constants.

Round trips and inverses alone would also hold of constructions that forget an input, a
wrapping key that does not depend on the password for one. So every construction is tied
to something that does not share its definition, in one or more of these ways:

- a reader written out from the primitives and the literal labels, to which sealing is
  proved inverse (`OpenByHand` in `ChunkCipher` and `V3Chunk`, `WrappedByHand` and
  `HybridWrappedByHand` in `FileCrypto`), or the bytes written out field by field (`Layout`);
- an equivalence on the inputs: two commitments, messages or artifacts are equal exactly
  if the listed fields are (`Capsule.CommitmentCoverage`, `Signing.AuthorMessageCoverage`,
  `Signing.ApprovalMessageCoverage`), the payload has exactly the documented padding
  (`BundleFormat.PackedIsPadded`), one more seal counts exactly if its signer is new
  (`Policy.ApprovalCountIff`);
- lawful primitives, one for every two inputs that differ, under which what was made with
  the one is refused with the other (`Separation`, `V3Chunk.OtherChunkRefused`,
  `Signing.CopiedSealRefused`).

The cryptographic crates are values of the type `Primitives.Crypto`, and every theorem
that needs a law asks for `Lawful()`: an AEAD opens exactly what it sealed under the
same key, nonce and associated data and adds 16 bytes (sections 2.1 and 2.2 of
RFC 5116, section 2.8 of RFC 8439); signatures verify; the two sides of the key
agreement agree, and its ciphertexts have the size of ML-KEM-768 (section 8 of
FIPS 203). `Primitives.LawsAreSatisfiable` gives an instance. No hash and no key is
assumed collision free or unique. Some theorems need more and ask for it by name, each
time for a property that is shown satisfiable together with the laws:

- `Frames.TagBound` (no authentication tag occurs at two positions) for the theorem that
  no rearrangement of frames is accepted, `Frames.PositionBound` (no whole frame does)
  for rearrangements that keep number and sizes;
- `Authentication.ToldApart` (the hash tells the committed fields of two envelopes apart,
  and no tag under the one commitment is a tag under the other) for what a successful
  decryption authenticates;
- `Signing.HashedApart` (the hash does not confuse two artifacts) and `Signing.Binds` (a
  signature on the one message does not verify for the other) for what happens to a seal or
  an author signature that is copied into another capsule;
- `Primitives.Committing` (a ciphertext determines its message, whatever the key) for
  what happens under keys other than the right one: slots wrapped for other recipients,
  and wrong passwords.

These are idealisations. Tags, hashes and signatures have fixed lengths, so some collide;
the first three hypotheses stand for "nobody finds such a collision". `Committing` is stronger than
that: XChaCha20-Poly1305, which wraps the file keys, is known not to be committing, since
ciphertexts that open under two keys can be constructed. The results under `Committing`
are about an idealised cipher, not about that one. From the laws alone the exact
conditions are proved instead: `Frames.RearrangedAcceptedIff`, `FileCrypto.RecipientOpensIff`
and `FileCrypto.KeypairRoundTripUnlessFalse`.

Randomness, clocks, case folding and directory walks are parameters. Rust strings are
their UTF-8 bytes, so the order of paths is byte order.

## Where the code and its promises differ

- `docs/FORMAT.md` and a comment in the writer promise that an empty v2 payload still
  carries an authenticated frame. The writer does emit it, but the reader also accepts
  declared length 0 with no frame at all (`crates/lvau-core/src/crypto/parallel.rs:304-333`,
  then the final checks). The model follows the code: `Frames.AcceptedLanguage` spells
  the exception out, `Frames.FrameDemandedIffNonEmpty` gives the exact condition and
  `Frames.EmptyPayloadCounterexample` the input.
- `docs/FORMAT.md:87-89` says that a successful v2 decryption authenticates the committed
  public fields. With declared length 0 it does not: any acceptable envelope, whatever
  length it declares, can be replaced without a key by one with the same header, length
  0, other metadata, content type, label and policy flag, and no payload, and this one
  decrypts to nothing under every password or private key that opened the first
  (`Authentication.EmptyPayloadUnauthenticated` and
  `Authentication.EmptyKeypairPayloadUnauthenticated`, from no law at all). Otherwise it
  does, under the hypothesis named above: `Authentication.CommittedFieldsAuthenticatedIff`
  and `Authentication.SharedPayloadIff` prove that two envelopes that differ in a committed
  field share a payload exactly when both declare length 0.
- A v1 author signature covers the approvals, so approving a signed v1 capsule changes
  the message that was signed; `Annotations.ApprovingKeepsAuthorMessageIff` proves that
  version 2 is exactly the condition for it to stay. Attaching release metadata can add a
  lint violation; `Policy.ReleaseAddsViolationIff` says exactly when.
- Packing does not check for paths that collide after case folding, opening does:
  `BundleFormat.PackedOpensIff` gives the exact condition for a packed bundle to open
  again, `BundleFormat.CaseCollisionCounterexample` a bundle that does not.
- The layout check compares path strings, extraction joins path components, so two
  accepted entries can have one target (`BundlePaths.DistinctStringsSameTarget`). With
  `force`, extracting such a bundle succeeds and silently loses a file: the last entry
  replaces the others. `BundleRoundTrip.ForceLosesFile` gives the bundle, authentic and
  sure to be extracted, `BundleExtract.AllKeptIff` the exact condition under which nothing
  is lost, and `BundleExtract.CanonicalTargetsDiffer` what a caller can check on the
  manifest: it cannot happen to canonical paths, those that their components join to
  (`BundlePaths.CanonicalIff`). Packing writes only those (`BundlePack.WalkedPath`), so
  the round trip of packed directories holds with `force` as well. Without `force` the
  second entry is refused; `BundleExtract.CompletedIsCompatible` shows what a completed
  extraction implies.
- Packing takes a password with an optional seed, or key pairs, and the command line
  packs for key pairs whenever a recipient group is given
  (`crates/lvau-core/src/bundle_stream.rs:244-270`, `crates/lvau-cli/src/main.rs:1639-1644`);
  listing, verifying and extracting only ever try a password without a seed
  (`crates/lvau-core/src/bundle_stream.rs:334`). `BundleCredentials.KeypairBundleNeverOpens`
  proves that no password opens a bundle packed for key pairs,
  `BundleCredentials.SeededBundleCounterexample` that a seeded one need not open with its
  own password. `BundleCredentials.BundleEndToEnd` gives the exact condition for every
  credential and password, `BundleCredentials.SureToOpenIff` the one a caller can check
  beforehand.

## Model

| member | source | states |
|---|---|---|
| Bytes.LeOfFromLe | crates/lvau-core/src/crypto/mod.rs:394-409 | writing the number read from little-endian bytes gives those bytes back |
| Bytes.XorBits | crates/lvau-core/src/crypto/lco.rs:33-45 | a bit of the exclusive or is set exactly where one of the two bits is |
| Bytes.Utf8Iff | crates/lvau-protocol/src/envelope.rs:97-118 | the strings of the model are exactly the UTF-8 encodings of sequences of Unicode scalar values |
| Primitives.LawsAreSatisfiable | crates/lvau-core/src/crypto/mod.rs:280-314 | the laws assumed of the primitives and the committing hypothesis hold of one instance, so they are consistent |
| Lco.Involution | crates/lvau-core/src/crypto/lco.rs:7-46 | applying LCO twice restores every buffer, for every key and nonce, the empty nonce included |
| Lco.PrefixCompatible | crates/lvau-core/src/crypto/lco.rs:33-45 | the result on a prefix is the prefix of the result |
| Lco.ScheduleStaysPermutation | crates/lvau-core/src/crypto/lco.rs:8-31 | every step of the key schedule leaves the state a permutation of 0..255 |
| Lco.StreamStaysPermutation | crates/lvau-core/src/crypto/lco.rs:33-45 | every step of the keystream loop leaves the state a permutation of 0..255 |
| Lco.RotationMovesBits | crates/lvau-core/src/crypto/lco.rs:19-45 | rotating by r puts bit k at (k + r) mod 8, to the left, and back, to the right |
| Lco.MixIff | crates/lvau-core/src/crypto/lco.rs:19-27 | two keys give one schedule step the same byte exactly if they agree in the key byte of that step |
| Lco.MixNonceIff | crates/lvau-core/src/crypto/lco.rs:19-27 | the same for two nonces of one length and the nonce byte of the step |
| Lco.FirstDifferenceShows | crates/lvau-core/src/crypto/lco.rs:8-31 | the schedules of two different keys agree until the first byte in which the keys differ, and part there |
| Lco.AdvanceInjective | crates/lvau-core/src/crypto/lco.rs:33-45 | the generator step can be undone, so generators in different states never meet |
| Lco.OutputShowsBox | crates/lvau-core/src/crypto/lco.rs:33-45 | with equal counters, outputs are equal exactly if the selected entries of the boxes are |
| Lco.OutputTakesAll | crates/lvau-core/src/crypto/lco.rs:33-45 | every byte value is the output of some state |
| Lco.InitState | crates/lvau-core/src/crypto/lco.rs:8-31 | the in-place schedule loop computes the specified state |
| Lco.ApplyInPlace | crates/lvau-core/src/crypto/lco.rs:7-46 | the buffer ends as the specified keystream XORed into its old content, byte by byte |
| Framing.NonceInjective | crates/lvau-core/src/crypto/framing.rs:6-21 | distinct chunk indices give nonces that differ in their first eight bytes, for both nonce sizes |
| Framing.NonceBaseInjective | crates/lvau-core/src/crypto/framing.rs:6-21 | for one index, different base nonces give different nonces |
| Framing.ChunkAadInjective | crates/lvau-core/src/crypto/framing.rs:24-29 | the chunk AAD determines commitment and index |
| Framing.XorIndex | crates/lvau-core/src/crypto/framing.rs:6-21 | the XOR loop gives the base nonce with the index in its first eight bytes and the rest unchanged |
| Framing.ChunkAad | crates/lvau-core/src/crypto/framing.rs:24-29 | the filled buffer is commitment then little-endian index |
| Io.ReadUpTo | crates/lvau-core/src/crypto/parallel.rs:81-90 | whatever the sizes of short reads, the fill loop returns exactly the next bytes, fewer only at the end |
| ChunkCipher.FrameLaw | crates/lvau-core/src/crypto/parallel.rs:125-206 | for all three algorithms a frame opens to a chunk exactly when it is that chunk sealed at that index, and is longer by the tag size |
| ChunkCipher.LabelsDistinct | crates/lvau-core/src/crypto/key_schedule.rs:21-36 | no two purposes share a label, so the subkeys of one root key can all differ |
| ChunkCipher.SealedByHand | crates/lvau-core/src/crypto/parallel.rs:57-210 | a frame is the seal of a chunk exactly if a reader with every label, subkey, nonce, associated data and layer spelled out gets that chunk |
| ChunkCipher.SealChunk | crates/lvau-core/src/crypto/parallel.rs:118-210 | one encryption task computes the specified frame, layer by layer |
| ChunkCipher.OpenChunk | crates/lvau-core/src/crypto/parallel.rs:346-427 | one decryption task computes the specified chunk or fails |
| Frames.AcceptedLanguage | crates/lvau-core/src/crypto/parallel.rs:277-460 | an input is accepted with a plaintext exactly when the plaintext has the declared length and the input is the writer's frames of it and nothing more, or the length is 0 and the input empty |
| Frames.RoundTrip | crates/lvau-core/src/crypto/parallel.rs:76-231 | the frames of every plaintext, empty and exact multiples included, are accepted with that plaintext |
| Frames.PayloadSize | crates/lvau-core/src/crypto/parallel.rs:76-231 | a payload has a frame for every chunk begun, one for an empty plaintext since v2, and is longer than the plaintext by the tags of all frames |
| FileCrypto.PayloadOverhead | docs/FORMAT.md:100-119 | for capsules: chunks of 1 MiB, 16 bytes more a frame, 32 for the two cascades |
| Frames.FrameDemandedIffNonEmpty | crates/lvau-core/src/crypto/parallel.rs:304-333 | a stripped payload is refused exactly when the declared length is positive |
| Frames.EmptyPayloadCounterexample | crates/lvau-core/src/crypto/parallel.rs:99-108 | the v2 writer emits a frame for an empty payload that its reader does not demand |
| Frames.NoTruncationNoExtension | crates/lvau-core/src/crypto/parallel.rs:453-460 | accepted inputs of one positive declared length are equally long, so no proper prefix or extension of one is accepted |
| Frames.RearrangedAcceptedIff | crates/lvau-core/src/crypto/parallel.rs:335-446 | a payload of rearranged, repeated or lost frames, as many and as long as before, is accepted exactly when every frame is authentic at its new place |
| Frames.NoReorderingInShape | crates/lvau-core/src/crypto/parallel.rs:335-346 | under the hypothesis that whole frames are bound to their position, and for rearrangements with the same number and sizes of frames, exactly the unmoved payload is accepted |
| Frames.NoReordering | crates/lvau-core/src/crypto/parallel.rs:335-460 | under the hypothesis that tags are bound to their position: of all payloads put together from frames of a payload, moved, repeated or left out in any number and of any sizes, exactly the unmoved one is accepted, and for the empty plaintext also the stripped one |
| Frames.TagBoundIsSatisfiable | crates/lvau-core/src/crypto/framing.rs:6-29 | for every algorithm there are lawful primitives under which tags, and so frames, are bound to their position |
| Frames.BothAcceptIff | crates/lvau-core/src/crypto/parallel.rs:277-460 | where tags tell two contexts apart, both accept an input, for whatever declared lengths, exactly when it is empty and both declare length 0 |
| Frames.Unroll | crates/lvau-core/src/crypto/parallel.rs:277-446 | reading any number of well-sized frames at once and then the rest is reading one frame after the other |
| Parallel.SealBatch | crates/lvau-core/src/crypto/parallel.rs:111-210 | in whatever order tasks finish, slot k holds chunk k sealed at index start + k |
| Parallel.OpenBatch | crates/lvau-core/src/crypto/parallel.rs:335-433 | in whatever order tasks finish, all chunks of the batch come out, or one failure if any frame is not authentic at its index |
| Parallel.EncryptBatch | crates/lvau-core/src/crypto/parallel.rs:78-222 | one turn of the loop takes the next full batch or what is left and writes its frames in order |
| Parallel.StreamEncryptPayload | crates/lvau-core/src/crypto/parallel.rs:41-234 | output is the concatenation over i of chunk i sealed at i, for every batch size, task order and pattern of short reads; the count returned is the input length; the errors are listed |
| Parallel.ReadFrameBatch | crates/lvau-core/src/crypto/parallel.rs:284-333 | frames get the sizes fixed by the declared length, no u64 sum overflows and the subtraction never saturates early; a cut-off frame is an error |
| Parallel.DecryptBatch | crates/lvau-core/src/crypto/parallel.rs:283-451 | one turn releases only chunks that are authentic at their index, and ends the run or advances by exactly one full batch |
| Parallel.DecryptLoop | crates/lvau-core/src/crypto/parallel.rs:277-451 | the loop ends, its counters match what was written, and on any error what was written is authenticated |
| Parallel.StreamDecryptPayload | crates/lvau-core/src/crypto/parallel.rs:237-463 | succeeds exactly on the accepted language with the accepted plaintext; on every error the bytes written are a prefix of authenticated chunks, whole batches unless the writer itself failed |
| Parallel.EncryptThenDecrypt | crates/lvau-core/src/crypto/parallel.rs:41-463 | the streaming round trip through both loops, for every plaintext, algorithm, version, chunk and batch size, read pattern and task order |
| Separation.TagsApartIsSatisfiable | crates/lvau-core/src/crypto/parallel.rs:254-346 | for every two contexts that differ in the commitment, or under one algorithm in the root key or a base nonce, there are lawful primitives whose tags tell them apart |
| Separation.OtherInputsRefused | crates/lvau-core/src/crypto/parallel.rs:237-463 | for every two such contexts, two file keys for instance: lawful primitives under which a payload written with the one is accepted there and, unless empty, with the other never, whatever is declared |
| Postcard.SelfDelimiting | crates/lvau-core/src/crypto/mod.rs:370-377 | what follows an encoding cannot change where it ends or what it decodes to |
| Postcard.VecGood | crates/lvau-protocol/src/envelope.rs:120-128 | encoded lists decode to themselves and leave exactly what follows |
| Wire.EnvelopeGood | crates/lvau-protocol/src/envelope.rs:130-159 | every envelope of thirteen fields decodes from its encoding, leaving exactly what follows |
| Wire.LegacyGood | crates/lvau-core/src/crypto/mod.rs:125-134 | every legacy envelope of six fields decodes from its encoding, leaving exactly what follows |
| Wire.LegacyUnambiguous | crates/lvau-core/src/crypto/mod.rs:370-392 | no byte string is exactly a legacy and exactly a current envelope |
| Layout.VarintIff | crates/lvau-protocol/src/envelope.rs:120-159 | an integer is encoded by exactly the one minimal string of seven-bit groups with its value |
| Layout.EnvelopeIs | crates/lvau-protocol/src/envelope.rs:120-159 | the bytes of an envelope are those of its thirteen fields, tags and lengths written out, in the order of declaration |
| Layout.CommitmentIs | crates/lvau-core/src/crypto/mod.rs:107-177 | the bytes that are hashed: the header in v1, the domain and the committed fields in v2, nothing in other versions |
| Capsule.CommitmentCoverage | crates/lvau-core/src/crypto/mod.rs:113-177 | two v2 envelopes are hashed alike exactly when they agree on every committed field: all are covered and no annotation is |
| Capsule.LegacyCommitmentCoverage | crates/lvau-core/src/crypto/mod.rs:155-177 | two v1 envelopes are hashed alike exactly when their headers are equal: no other field is covered |
| Capsule.CommitmentVersionsApart | crates/lvau-core/src/crypto/mod.rs:155-177 | no v1 envelope is hashed like a v2 envelope |
| Capsule.AcceptableIff | crates/lvau-core/src/crypto/mod.rs:179-278 | the checks pass exactly the documented envelopes (1 to 64 slots of one kind, the costs of the profile, a second nonce exactly for cascades) that carry the hash of what they commit to |
| Capsule.DecodeCurrent | crates/lvau-core/src/crypto/mod.rs:379-392 | an encoded current envelope is never reinterpreted: it decodes to itself or fails the checks |
| Capsule.DecodeLegacy | crates/lvau-core/src/crypto/mod.rs:125-152 | every legacy envelope is recovered with its six fields intact and the later seven absent, empty or false, spelled out |
| Capsule.DecodesIff | crates/lvau-core/src/crypto/mod.rs:188-392 | what decodes, and to what: exactly the acceptable envelopes of either format, in whichever order the formats are tried |
| Capsule.UnframeOfFramed | crates/lvau-core/src/crypto/mod.rs:345-353 | the length framing is undone by reading it |
| Capsule.FramedOfUnframe | crates/lvau-core/src/crypto/mod.rs:394-409 | a file that splits is the framing of its parts |
| Capsule.ReadEnvelope | crates/lvau-core/src/crypto/mod.rs:394-409 | the reader returns the envelope of the file, or its exact error, and stands at the first payload byte |
| Capsule.OpensIff | crates/lvau-core/src/crypto/mod.rs:394-409 | exactly which files open, and to what: a little-endian length of 1 to 1 MiB, an envelope of that length that decodes, and whatever follows as payload |
| Capsule.CapsuleRoundTrip | crates/lvau-core/src/crypto/mod.rs:334-409 | every acceptable envelope and any ciphertext read back from the file written for them |
| FileCrypto.PasswordEnvelopeAcceptable | crates/lvau-core/src/crypto/mod.rs:468-547 | the password writer only emits envelopes that pass all reader checks and that the payload engine can use |
| FileCrypto.PasswordRoundTrip | crates/lvau-core/src/crypto/mod.rs:441-578 | a fresh password capsule decrypts with the same secrets to the plaintext, for every profile |
| FileCrypto.PasswordOpensIff | crates/lvau-core/src/crypto/mod.rs:836-891 | with committing encryption, any secrets give the plaintext exactly when key derivation, spelled out from Argon2id of password and seed to the labelled expansion, wraps the file key to the same bytes, and otherwise DecryptionFailed |
| Separation.WrongSecretsRefused | crates/lvau-core/src/crypto/mod.rs:836-891 | for every two different pairs of password and seed: lawful and committing primitives under which the capsule made with the one decrypts with it, and with the other is DecryptionFailed |
| FileCrypto.UnwrapKeypairFileKey | crates/lvau-core/src/crypto/mod.rs:743-785 | the loop returns the file key of the first slot that opens, skipping password slots and slots that do not |
| FileCrypto.OwnSlotOpens | crates/lvau-core/src/crypto/mod.rs:664-689 | the slot wrapped for a key opens with that key to the same file key |
| FileCrypto.SlotOpensIff | crates/lvau-core/src/crypto/mod.rs:664-785 | the slot is the ephemeral key, the ML-KEM ciphertext and the file key wrapped under both shared secrets, spelled out; with committing encryption a private key opens it exactly if its two shared secrets wrap the file key to the same bytes |
| FileCrypto.RecipientOpensIff | crates/lvau-core/src/crypto/mod.rs:743-785 | from the laws alone: a recipient gets the file key exactly unless an earlier slot opens to something else |
| FileCrypto.EveryRecipientOpens | crates/lvau-core/src/crypto/mod.rs:743-785 | with committing encryption, every recipient at every position gets the file key |
| FileCrypto.KeypairEnvelopeAcceptableIff | crates/lvau-core/src/crypto/mod.rs:691-716 | the key-pair writer's envelope passes all reader checks exactly for 1 to 64 recipients |
| FileCrypto.KeypairRoundTripUnlessFalse | crates/lvau-core/src/crypto/mod.rs:622-834 | from the laws alone: a recipient of a key-pair capsule decrypts it to the plaintext unless an earlier slot opens to something else |
| FileCrypto.KeypairRoundTrip | crates/lvau-core/src/crypto/mod.rs:622-741 | with committing encryption, every recipient of a key-pair capsule decrypts it to the plaintext |
| FileCrypto.KeypairOpensIff | crates/lvau-core/src/crypto/mod.rs:743-834 | with committing encryption, any private key gets the plaintext exactly if for some recipient its two shared secrets, spelled out, wrap the file key to the same bytes, and otherwise DecryptionFailed |
| Separation.StrangerRefused | crates/lvau-core/src/crypto/mod.rs:743-834 | for every private key that no recipient has, be it different in the X25519 half or in the ML-KEM half only: lawful and committing primitives under which every recipient decrypts and this key is DecryptionFailed |
| FileCrypto.KeypairCapsuleTakesNoPassword | crates/lvau-core/src/crypto/mod.rs:836-891 | no password opens a key-pair capsule, and the error says that key derivation parameters are missing |
| FileOps.WriteEnvelopeAndPayload | crates/lvau-core/src/crypto/mod.rs:334-368 | the output file becomes the whole capsule or nothing changes |
| FileOps.EncryptFilePassword | crates/lvau-core/src/crypto/mod.rs:441-578 | the output becomes the specified capsule of the input, under the policy, or no file changes; failures have the listed causes |
| FileOps.EncryptFileKeypairs | crates/lvau-core/src/crypto/mod.rs:622-741 | the same for key pairs |
| FileOps.WrapRecipients | crates/lvau-core/src/crypto/mod.rs:662-689 | one slot per recipient in order, or failure if any key is unusable |
| FileOps.WriteDecryptedPayloadAtomic | crates/lvau-core/src/crypto/mod.rs:787-811 | the output path changes only after the whole payload was accepted, and then holds exactly the plaintext |
| FileOps.DecryptFilePassword | crates/lvau-core/src/crypto/mod.rs:836-891 | the output receives exactly the specified plaintext or nothing changes |
| FileOps.DecryptFileKeypair | crates/lvau-core/src/crypto/mod.rs:813-834 | the same for key pairs |
| Policy.LintEnvelope | crates/lvau-core/src/policy.rs:153-367 | the violations are exactly the violated rules, the warnings exactly the rules met by presence only, and the verdict is valid exactly without violations |
| Policy.SigningAddsNoViolation | crates/lvau-core/src/policy.rs:153-367 | signing never adds a violation |
| Policy.RecoveryAddsNoViolation | crates/lvau-core/src/policy.rs:153-367 | attaching recovery metadata never adds a violation |
| Policy.ApprovingAddsNoViolation | crates/lvau-core/src/policy.rs:344-364 | approving never adds a violation, though distinct approvers are counted as a u32 |
| Policy.ReleaseAddsViolationIff | crates/lvau-core/src/policy.rs:310-330 | attaching release metadata adds a violation exactly when it takes a demanded project name away |
| Policy.ApprovalCountIff | crates/lvau-core/src/policy.rs:344-349 | one more seal raises the count exactly when no earlier seal has its fingerprint, and then by one |
| Policy.ListsIff | crates/lvau-core/src/policy.rs:232-251 | a name is listed exactly if some entry has the same letters up to case |
| Profiles.FreshPasswordEnvelope | crates/lvau-core/src/crypto/mod.rs:468-547 | every field of a fresh password envelope: documented algorithm and costs of the profile, the fresh nonces and salt, the given content type, no annotation, the wrapped key spelled out, the commitment |
| Profiles.ProfileReachesIff | crates/lvau-core/src/policy.rs:182-217 | which minimum KDF strength the costs of which profile meet |
| Profiles.CostsAreLeast | crates/lvau-core/src/policy.rs:182-217 | the costs of the first profile that meets a minimum are the least that do |
| Profiles.FreshPasswordLintIff | crates/lvau-core/src/policy.rs:153-367 | exactly which rules a fresh password capsule of each profile violates |
| Profiles.FreshKeypairLintIff | crates/lvau-core/src/policy.rs:153-367 | the same for fresh key-pair capsules, with all their fields |
| Signing.SignFile | crates/lvau-core/src/signing.rs:326-380 | the output becomes the signed capsule, never over an existing file without force, or nothing changes |
| Signing.AddApprovalSeal | crates/lvau-core/src/signing.rs:430-469 | the output becomes the capsule with one more approval, or nothing changes |
| Signing.VerifyApprovals | crates/lvau-core/src/signing.rs:473-493 | the loop answers whether some approval by that key verifies |
| Signing.AuthorMessageCoverage | crates/lvau-core/src/signing.rs:188-215 | the v2 author message is unchanged exactly when ciphertext and every field but signature bytes and approvals are |
| Signing.LegacyAuthorMessageCoverage | crates/lvau-core/src/signing.rs:188-215 | the v1 author message is unchanged exactly when the whole envelope but the signature is |
| Signing.ArtifactCoverage | crates/lvau-core/src/signing.rs:217-241 | what a v2 approval hashes is equal exactly when the ciphertext and every field but the approvals are |
| Signing.ApprovalMessageCoverage | crates/lvau-core/src/signing.rs:217-241 | where the hash tells the artifacts apart, two v2 approval messages are equal exactly when ciphertext, every field but the approvals, fingerprint and comment are |
| Signing.DomainsApart | crates/lvau-core/src/signing.rs:188-241 | no author message is an approval message, and no artifact is hashed like a v2 commitment |
| Signing.CopiedSealIff | crates/lvau-core/src/signing.rs:430-469 | where hash and signature bind, a seal made for one v2 capsule is valid in another exactly if ciphertext and every field but the approvals are equal |
| Signing.CopiedLegacySealIff | crates/lvau-core/src/signing.rs:217-224 | a v1 seal is valid in another v1 capsule exactly if the commitments are equal, whatever else differs |
| Signing.CopiedSealApprovesIff | crates/lvau-core/src/signing.rs:473-493 | on files: a capsule whose only seals by a key are copies of one made for another v2 capsule is approved by that key exactly if ciphertext and every field but the approvals are equal |
| Signing.CopiedSignatureVerifiesIff | crates/lvau-core/src/signing.rs:385-415 | on files: an author signature copied into another v2 capsule verifies exactly if ciphertext and every field but signature and approvals are equal |
| Signing.CopiedSealIsSatisfiable | crates/lvau-core/src/signing.rs:430-493 | for every seal and every other capsule there are lawful primitives that meet both hypotheses |
| Signing.CopiedSealRefused | crates/lvau-core/src/signing.rs:430-493 | so for every two v2 capsules with another ciphertext or another field outside the approvals there are lawful primitives under which a seal made for the one is valid there and not in the other |
| Release.AttachReleaseMetadata | crates/lvau-core/src/release.rs:68-99 | the output becomes the capsule with the metadata set and the same ciphertext, or nothing changes |
| Release.AttachRecoveryMetadata | crates/lvau-core/src/release.rs:101-122 | the same for recovery data |
| Annotations.FramingDecodersAgree | crates/lvau-core/src/signing.rs:113-132 | the crypto, signing and release decoders accept the same files with the same envelope and split, and the split undoes the framing |
| Annotations.StepDecodes | crates/lvau-core/src/signing.rs:326-469 | every successful step leaves a file that decodes to the annotated envelope and the same ciphertext, committed fields unchanged |
| Annotations.RunPreservesCore | crates/lvau-core/src/release.rs:68-122 | over every finite run ciphertext, header, commitment and all committed fields are unchanged and the file still decodes |
| Annotations.ApprovingKeepsAuthorMessageIff | crates/lvau-core/src/signing.rs:188-215 | approving leaves the author message byte-identical exactly since version 2 |
| Annotations.StepKeepsAuthorMessageIff | crates/lvau-core/src/signing.rs:188-215 | a step leaves the v2 author message unchanged exactly when it changes no signed field |
| Annotations.ApprovingKeepsApprovalMessages | crates/lvau-core/src/signing.rs:217-241 | a later approval leaves the message of every approval byte-identical |
| Annotations.AuthorSignatureSurvivesApprovals | crates/lvau-core/src/signing.rs:385-415 | a v2 capsule signed by an author verifies with the author's key after any number of approvals |
| Annotations.StepKeepsArtifactIff | crates/lvau-core/src/signing.rs:217-241 | a step leaves what v2 approvals hash as it was exactly when it leaves every field but the approvals as it was |
| Annotations.ApprovingRunsKeepApprovals | crates/lvau-core/src/signing.rs:217-241 | runs of approvals, and all runs on v1 capsules, keep the approvals there are |
| Annotations.ApprovalsAccumulate | crates/lvau-core/src/signing.rs:430-493 | after any run whose steps keep approvals, signing and attaching included, every approver's seal verifies, the first as well as the last |
| Annotations.RunAddsNoViolation | crates/lvau-core/src/policy.rs:153-367 | a capsule that passes a policy passes it after any run that takes no demanded project name away |
| EndToEnd.RunPreservesPasswordDecryption | crates/lvau-core/src/crypto/mod.rs:836-891 | for every capsule and run, password decryption gives the same plaintext or error before and after |
| EndToEnd.RunPreservesKeypairDecryption | crates/lvau-core/src/crypto/mod.rs:813-834 | the same for key pairs |
| EndToEnd.PasswordEndToEnd | crates/lvau-core/src/crypto/mod.rs:441-578 | encrypt with a password, annotate by any run, decrypt: the plaintext is back |
| EndToEnd.KeypairEndToEnd | crates/lvau-core/src/crypto/mod.rs:622-741 | with committing encryption, the same for every recipient of a key-pair capsule |
| Authentication.CommittedFieldsAuthenticatedIff | crates/lvau-core/src/crypto/mod.rs:155-177 | under the hypothesis that hash and tags tell them apart: two acceptable v2 envelopes that differ in any committed field accept the same payload exactly when it is empty and both declare length 0 |
| Authentication.SharedPayloadIff | crates/lvau-core/src/crypto/parallel.rs:304-333 | so some payload decrypts under both exactly when both declare length 0 |
| Authentication.PasswordDecryptionAuthenticates | crates/lvau-core/src/crypto/mod.rs:836-891 | under the same hypothesis: after a file decrypted with a password, one with the same payload and a committed field changed decrypts exactly when the payload is empty, length 0 is declared and the slot still opens |
| Authentication.KeypairDecryptionAuthenticates | crates/lvau-core/src/crypto/mod.rs:813-834 | the same for key pairs |
| Authentication.ToldApartIsSatisfiable | crates/lvau-core/src/crypto/mod.rs:155-177 | for any two v2 envelopes with different committed fields there are lawful primitives that meet the hypothesis, whatever the file keys |
| Authentication.EmptyPayloadUnauthenticated | crates/lvau-core/src/crypto/parallel.rs:304-333 | without any key, every acceptable envelope can be replaced by one that declares length 0, has any other committed fields outside the header, and decrypts to nothing with every password that opened the slots |
| Authentication.EmptyKeypairPayloadUnauthenticated | crates/lvau-core/src/crypto/parallel.rs:304-333 | the same with every private key that opened a slot |
| Sizes.PasswordCapsuleIff | crates/lvau-core/src/crypto/mod.rs:334-353 | password encryption yields a capsule exactly when key derivation succeeds: its envelope always fits the size limit |
| Sizes.KeypairCapsuleIff | crates/lvau-core/src/crypto/mod.rs:622-741 | key-pair encryption yields a capsule exactly for 1 to 64 recipients whose keys all contribute: its envelope always fits the size limit |
| Sizes.StepSucceedsIff | crates/lvau-core/src/signing.rs:41-47 | a step succeeds exactly on a file that decodes and whose annotated envelope fits the size limit |
| Sizes.FreshCapsuleCanBeSignedAndApproved | crates/lvau-core/src/signing.rs:326-469 | runs exist: every fresh password capsule can be signed and then approved |
| EndToEnd.AnnotateInPlace | crates/lvau-core/src/signing.rs:326-469 | a list of steps on a file leaves it as after a successful run of the steps before the first failure |
| EndToEnd.EncryptAnnotateDecrypt | crates/lvau-core/src/crypto/mod.rs:441-891 | on files: encryption, any steps, failing ones included, then decryption restores the input and changes no other file |
| BundlePaths.AcceptedPaths | crates/lvau-core/src/bundle.rs:54-85 | exactly the relative slash-separated paths without drive, leading dot or parent reference are accepted, and what is left are plain names, at least one |
| BundlePaths.CanonicalRoundTrip | crates/lvau-core/src/bundle_stream.rs:101-106 | joining canonical names and validating the string undo each other |
| BundlePaths.CanonicalIff | crates/lvau-core/src/bundle.rs:72-84 | a valid path without empty pieces and dots is exactly one that its names join to |
| BundlePaths.CanonicalDistinct | crates/lvau-core/src/bundle.rs:54-85 | canonical paths name one target exactly when they are the same string |
| BundlePaths.EndsInNameIff | crates/lvau-core/src/bundle_stream.rs:574-600 | a path cannot be an output exactly if it is empty or a dot or ends in a slash or a slash and a dot |
| BundlePaths.DistinctStringsSameTarget | crates/lvau-core/src/bundle.rs:60-84 | other accepted strings can differ and name one target |
| BundleLayout.SortedNeighboursDecide | crates/lvau-core/src/bundle_stream.rs:316-324 | after any sort by start, whatever the order of ties, neighbours are disjoint exactly when all ranges are pairwise disjoint |
| BundleLayout.RangesDecide | crates/lvau-core/src/bundle_stream.rs:312-314 | dropping empty ranges loses nothing: the list is pairwise disjoint exactly when all non-empty files are |
| BundleLayout.ValidateLayout | crates/lvau-core/src/bundle_stream.rs:285-326 | accepts exactly when paths are valid and distinct after case folding, files lie inside the payload without overflow and no two non-empty ones overlap |
| BundleFormat.ManifestGood | crates/lvau-protocol/src/envelope.rs:97-118 | every manifest decodes from its encoding, leaving exactly what follows |
| Layout.ManifestIs | crates/lvau-protocol/src/envelope.rs:97-118 | the bytes of a manifest are those of its fields, in the order of declaration |
| BundleFormat.NextPowerOfTwoIsLeast | crates/lvau-core/src/bundle_stream.rs:196-198 | bucket padding goes to the least power of two that holds the payload |
| BundleFormat.PackedIsPadded | crates/lvau-core/src/bundle_stream.rs:222-242 | a packed payload is length, manifest and contents, then only zeroes: none without padding, up to the least power of two that holds the body for buckets, up to the fixed size unless the body is longer |
| BundleFormat.PackedIff | crates/lvau-core/src/bundle_stream.rs:193-242 | sources can be packed exactly if no size overflows, the manifest is at most 16 MiB, and for buckets a u64 holds a large enough power of two |
| BundleFormat.EntryDescribes | crates/lvau-core/src/bundle_stream.rs:124-143 | entry k has the path, size and hash of source k, and its prefix-sum offset points at the source's bytes |
| BundleFormat.PackedOpensIff | crates/lvau-core/src/bundle_stream.rs:328-371 | what packing writes, with any padding, opens exactly when paths are valid and distinct after case folding, to the manifest that was packed |
| BundleFormat.PackedHolds | crates/lvau-core/src/bundle_stream.rs:220-242 | every packed file verifies and its range holds exactly its content |
| BundleFormat.CaseCollisionCounterexample | crates/lvau-core/src/bundle_stream.rs:292-299 | two files whose paths differ in case pack into a bundle that does not open |
| BundlePack.WalkedPath | crates/lvau-core/src/bundle_stream.rs:101-106 | the joined components of a walked file are a canonical path if valid, and validation finds the components again |
| BundlePack.HashReader | crates/lvau-core/src/bundle_stream.rs:40-59 | the hash of exactly the next bytes, whatever the read sizes; too few bytes are an error |
| BundlePack.HashFile | crates/lvau-core/src/bundle_stream.rs:61-73 | size and hash of the whole file |
| BundlePack.CollectSources | crates/lvau-core/src/bundle_stream.rs:97-122 | the walked files in path order, each once, with its size and hash; one invalid path fails all |
| BundlePack.BuildManifest | crates/lvau-core/src/bundle_stream.rs:124-143 | offsets are prefix sums, and the only failure is a u64 overflow of the total |
| BundlePack.CopySourceChecked | crates/lvau-core/src/bundle_stream.rs:145-180 | appends the file's content exactly when it still has the size and hash it was listed with |
| BundlePack.WriteZeroPadding | crates/lvau-core/src/bundle_stream.rs:182-191 | appends exactly that many zero bytes |
| BundlePack.AssemblePayload | crates/lvau-core/src/bundle_stream.rs:222-242 | the temporary file becomes length, manifest, contents and padding as specified |
| BundlePack.PackDirectory | crates/lvau-core/src/bundle_stream.rs:205-273 | the output is the capsule of the packed payload of the walked files in path order, nothing else changes, and on failure nothing does; an existing output is refused exactly without force, and the other failures have the listed causes |
| BundleCredentials.ArchiveIsPadded | crates/lvau-core/src/bundle_stream.rs:205-273 | what a packed archive decrypts to is padded exactly as asked for |
| BundleExtract.OpenPlaintext | crates/lvau-core/src/bundle_stream.rs:336-370 | opening succeeds exactly on payloads with a well-formed length, manifest and layout |
| BundleExtract.DecryptAndOpen | crates/lvau-core/src/bundle_stream.rs:328-371 | the opened bundle is that of the decrypted capsule; failures have the listed causes |
| BundleExtract.VerifyAll | crates/lvau-core/src/bundle_stream.rs:388-396 | succeeds exactly when every file has the hash it was listed with |
| BundleExtract.ListBundle | crates/lvau-core/src/bundle_stream.rs:399-403 | the manifest is returned exactly for an authentic bundle |
| BundleExtract.EnsureDirectories | crates/lvau-core/src/bundle_stream.rs:470-494 | every level down to the parent becomes a directory, none else is created, and only a file in the way or the device fails it |
| BundleExtract.CopyEntry | crates/lvau-core/src/bundle_stream.rs:519-545 | the temporary output becomes exactly the file's range |
| BundleExtract.PersistOutput | crates/lvau-core/src/bundle_stream.rs:496-517 | the target gets all of the content, an existing file only with force |
| BundleExtract.ExtractEntry | crates/lvau-core/src/bundle_stream.rs:574-600 | the target gets the file's bytes, all of them, or no file changes |
| BundleExtract.ExtractBundle | crates/lvau-core/src/bundle_stream.rs:548-602 | nothing is written unless every file verified; at any exit the files are as after some number of complete outputs; where nothing is in the way extraction completes |
| BundleExtract.CompletedIsCompatible | crates/lvau-core/src/bundle_stream.rs:574-600 | extraction completes only if every path ends in a name, no output is a directory on the way to another and, without force, no two share a target |
| BundleExtract.NotObstructed | crates/lvau-core/src/bundle_stream.rs:586-593 | with a free output directory and outputs that are not in each other's way nothing obstructs any output |
| BundleExtract.ExtractionSafety | crates/lvau-core/src/bundle_stream.rs:556-601 | whenever extraction stops: no file is lost, what appeared or changed holds the complete bytes of a manifest entry, and without force nothing old changed |
| BundleExtract.OutputKept | crates/lvau-core/src/bundle_stream.rs:574-600 | an output keeps its bytes exactly if the last entry with its target has the same; without force it is that entry itself |
| BundleExtract.AllKeptIff | crates/lvau-core/src/bundle_stream.rs:574-600 | after any number of outputs, every target holds its entry's bytes exactly if entries with one target have the same bytes |
| BundleExtract.CanonicalTargetsDiffer | crates/lvau-core/src/bundle_stream.rs:292-299 | entries with canonical paths that passed the layout check have different targets |
| BundleCredentials.BundleEndToEnd | crates/lvau-core/src/bundle_stream.rs:220-396 | packed with any credential, encrypted and annotated by any run, a bundle opens exactly when the password tried without a seed unlocks it and its paths are valid and do not collide; then it holds every source file |
| BundleCredentials.KeypairBundleNeverOpens | crates/lvau-core/src/bundle_stream.rs:258-269 | no password ever opens a bundle packed for key pairs |
| BundleCredentials.SeededBundleCounterexample | crates/lvau-core/src/bundle_stream.rs:334 | with lawful primitives that tell keys apart, no bundle packed with a seed opens with its own password |
| BundleCredentials.SureToOpenIff | crates/lvau-core/src/bundle_stream.rs:205-371 | whatever the primitives, a packed bundle is sure to open exactly when it was packed with a password and no seed and its paths are valid and do not collide |
| BundleRoundTrip.ForceLosesFile | crates/lvau-core/src/bundle_stream.rs:586-599 | two files with one target make an authentic bundle that is sure to be extracted with force, and then only the second is there |
| BundleRoundTrip.SourcesRestored | crates/lvau-core/src/bundle_stream.rs:519-601 | after a complete extraction every source is at its path below the output directory, byte for byte, exactly if sources with one target have one content; so always without force, and always where names are distinct |
| BundleRoundTrip.PackThenExtract | crates/lvau-core/src/bundle_stream.rs:652-684 | on files, for every credential and output directory, with and without force: extraction succeeds only if the password unlocks the archive; then it returns the packed manifest and restores every file; it completes whenever nothing is in the way and no device fails; nothing else changes |
| Sorting.Sort | crates/lvau-core/src/bundle_stream.rs:109 | a sorted permutation |
| Sorting.LexAntisymmetric | crates/lvau-core/src/diff.rs:107 | the order of paths tells different paths apart |
| Sorting.LexLeqIff | crates/lvau-core/src/diff.rs:107 | one string is before another exactly if it is a prefix or has the smaller byte where they first differ |
| Diff.IndexByPath | crates/lvau-core/src/diff.rs:47-55 | the map filled in a loop holds the last entry for every path |
| Diff.CompareOld | crates/lvau-core/src/diff.rs:63-92 | removed, modified and unchanged files in order, with matching counters |
| Diff.AddNew | crates/lvau-core/src/diff.rs:94-105 | added files after them, with a matching counter |
| Diff.DiffManifests | crates/lvau-core/src/diff.rs:46-116 | the report is a sorted permutation of the two passes and its counters count it, repeated paths included |
| Diff.DiffIsUnion | crates/lvau-core/src/diff.rs:46-116 | for unique paths the report lists the union of the paths once each, strictly ascending, each with its set-theoretic difference, and the counters sum to its length |
| Diff.SwapSymmetry | crates/lvau-core/src/diff.rs:46-116 | swapping the manifests swaps Added with Removed, old with new sizes and the two counters, and nothing else |
| Diff.DiffBundles | crates/lvau-core/src/diff.rs:34-44 | the difference of two encrypted bundles is that of authentic ones, whose layout check makes their paths unique |
| V3Chunk.BuildAad | crates/lvau-core/src/crypto/suite/v3.rs:172-191 | the pushed buffer has the documented layout |
| V3Chunk.BuildNonceInfo | crates/lvau-core/src/crypto/suite/v3.rs:131-134 | the filled buffer is suite, layer and little-endian index |
| V3Chunk.EncryptXChaChaChunk | crates/lvau-core/src/crypto/suite/v3.rs:216-253 | the checks and derivations of the source, in its order, compute the specified ciphertext or error |
| V3Chunk.DecryptXChaChaChunk | crates/lvau-core/src/crypto/suite/v3.rs:256-299 | the same for the specified plaintext or error |
| V3Chunk.AadInjective | crates/lvau-core/src/crypto/suite/v3.rs:172-191 | the v3 chunk AAD determines all eight values in it |
| V3Chunk.NonceInfoInjective | crates/lvau-core/src/crypto/suite/v3.rs:124-140 | the nonce derivation input determines suite, layer and index |
| V3Chunk.SubkeyInfoInjective | crates/lvau-core/src/crypto/suite/v3.rs:103-122 | no two suites or purposes share a key derivation input |
| V3Chunk.ChunkInverse | crates/lvau-core/src/crypto/suite/v3.rs:216-299 | encryption accepts exactly plaintexts of the described length up to 1 MiB, and a ciphertext decrypts to a plaintext exactly when that plaintext encrypts to it |
| V3Chunk.EncryptedByHand | crates/lvau-core/src/crypto/suite/v3.rs:216-299 | a ciphertext is the encryption of a plaintext exactly if lengths are as described and a reader with labels, nonce and associated data spelled out gets the plaintext |
| V3Chunk.OtherChunkRefused | crates/lvau-core/src/crypto/suite/v3.rs:216-299 | for every two different choices of root key, base nonce, commitment and descriptor: lawful primitives under which a chunk made with the one decrypts with it, and with the other is DecryptionFailed |
| V3Chunk.DescribedRoundTrip | crates/lvau-core/src/crypto/suite/v3.rs:74-84 | a descriptor exists exactly up to 1 MiB, and then the chunk round trip holds |

## Left out

- The cryptographic primitives and the secret sharing behind `recovery.rs`: library code; abstract functions with laws stand for them. The serialisation crate is modelled by the codecs of `Postcard`; the crate itself is not part of this model.
- Frames.NoReordering: uses the named hypothesis on tags, because under the laws alone two frames sealed at different positions could coincide by accident.
- Frames.NoReorderingInShape: uses the named hypothesis on frames for the same reason; without it the exact condition is Frames.RearrangedAcceptedIff.
- Authentication.CommittedFieldsAuthenticatedIff: uses the named hypothesis on hash and tags, because both have fixed lengths and so collide somewhere.
- Authentication.SharedPayloadIff: uses the same hypothesis.
- Authentication.PasswordDecryptionAuthenticates: uses the same hypothesis.
- Authentication.KeypairDecryptionAuthenticates: uses the same hypothesis.
- FileCrypto.PasswordOpensIff: uses the committing hypothesis, because under the laws alone wrong secrets could open the slot to another file key by accident.
- FileCrypto.SlotOpensIff: uses the committing hypothesis for the same reason.
- FileCrypto.KeypairOpensIff: uses the committing hypothesis for the same reason.
- Signing.ApprovalMessageCoverage: uses the named hypothesis on the hash, because the message holds a digest of fixed length.
- Signing.CopiedSealIff: uses the named hypotheses on hash and signature, because under the laws alone a signature could verify for another message by accident.
- Signing.CopiedSealApprovesIff: uses the same hypotheses.
- Signing.CopiedLegacySealIff: uses the hypothesis on the signature for the same reason.
- Signing.CopiedSignatureVerifiesIff: uses the hypothesis on the signature for the same reason.
- Separation.TagsApartIsSatisfiable: for contexts of different algorithms only a different commitment is told apart.
- FileCrypto.EveryRecipientOpens: uses the named committing hypothesis, because under the laws alone a slot wrapped for somebody else could open to another key by accident; without it the exact condition is FileCrypto.RecipientOpensIff.
- FileCrypto.KeypairRoundTrip: uses the committing hypothesis for the same reason.
- EndToEnd.KeypairEndToEnd: uses the committing hypothesis for the same reason.
- BundleCredentials.BundleEndToEnd: uses the committing hypothesis for passwords other than the one packed with and for bundles packed with a seed.
- BundleRoundTrip.PackThenExtract: uses the committing hypothesis in the same cases.
- FileOps.WriteEnvelopeAndPayload: on Unix the parent directory is synced after the rename (`crates/lvau-core/src/crypto/mod.rs:326-329`), and an error there is reported although the output has already been replaced; for a bare relative file name the parent is the empty path, which cannot be opened. Renaming is modelled as the last thing that can fail, so "on an error nothing changes" is about errors up to and including the rename.
- FileOps.WriteDecryptedPayloadAtomic: as FileOps.WriteEnvelopeAndPayload, with everything that calls it.
- Signing.SignFile: leaves out the same sync after the rename, at `crates/lvau-core/src/signing.rs:71-72`.
- Signing.AddApprovalSeal: leaves out the same sync after the rename.
- Release.AttachReleaseMetadata: leaves out the same sync after the rename, at `crates/lvau-core/src/release.rs:41-42`.
- Release.AttachRecoveryMetadata: leaves out the same sync after the rename.
- BundleExtract.PersistOutput: leaves out the same sync, at `crates/lvau-core/src/bundle_stream.rs:512-515`; and the file system map has no symbolic or hard links, so an existing target is only checked to be a file.
- BundleExtract.EnsureDirectories: no symbolic links or reparse points, so an existing level is only checked to be a directory.
- BundleExtract.ExtractEntry: no symbolic links, so paths are canonical and the check that the resolved parent stays inside the output directory has no counterpart; that targets lie below it follows from BundlePaths.AcceptedPaths.
- BundlePack.CollectSources: the directory walk is a list of files; the walk's own errors, symbolic links and special files are not modelled.
- Parallel.StreamEncryptPayload: asks that the input is no longer than a u64 counts, as file lengths are.
- Progress callbacks, logging, message texts of errors, in-memory variants and verification without output, which call the same engine.
- The Windows branches, file permissions, syncing of file contents, and concurrent changes by other programs.
- Command line, user interfaces, key files, recipient groups, SFX trailer, suite tables, preflight reports.
- Randomness is an arbitrary input; nothing is claimed about secrecy.
