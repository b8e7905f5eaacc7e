/** Who can open a packed bundle: packing takes passwords with or without a seed and
    key pairs, opening only ever tries a password without a seed. */
module BundleCredentials {
  import opened Bytes
  import opened BundleExtract
  import opened BundleFormat
  import opened BundlePack
  import opened FileCrypto
  import opened Files
  import opened Primitives
  import opened Protocol
  import Annotations
  import Capsule
  import EndToEnd
  import Sizes

  /** A capsule that decrypts to a packed payload opens exactly when all source paths
      are valid and none collide after case folding; then it is authentic. */
  lemma PackedPayloadOpensIff(crypto: Crypto, lower: bytes -> bytes, data: bytes, password: bytes, sources: seq<Source>,
                              padding: PaddingProfile, createdAt: Option<Str>, toolVersion: Option<Str>)
    requires PackedPayload(crypto, sources, padding, createdAt, toolVersion).Some?
    requires DecryptWithPassword(crypto, data, password, None)
          == Result.Ok(PackedPayload(crypto, sources, padding, createdAt, toolVersion).value)
    ensures OpenBundle(crypto, lower, data, password).Some? <==>
      SourcesValid(sources) && SourcesDistinct(lower, sources)
    ensures OpenBundle(crypto, lower, data, password).Some? ==>
      var (payload, m, dataStart) := OpenBundle(crypto, lower, data, password).value;
      && Authentic(crypto, lower, data, password) && Holds(crypto, payload, m, dataStart, sources)
      && ManifestOf(crypto, sources, createdAt, toolVersion) == Some(m)
  {
    hide DecryptWithPassword, PackedPayload, OpenPayload, ManifestOf, ManifestCodec, AllVerify;
    PackedHasManifest(crypto, sources, padding, createdAt, toolVersion);
    PackedOpensIff(crypto, lower, sources, padding, createdAt, toolVersion);
    PackedHolds(crypto, sources, padding, createdAt, toolVersion);
  }

  // ---- What opening makes of each credential ----

  /** The password, tried without a seed, unwraps the file key. */
  predicate Unlocks(crypto: Crypto, credential: EncryptCredential, password: bytes, profile: SecurityProfile,
                    rnd: Randomness) {
    match credential
    case Password(packedWith, seed) => SameSlot(crypto, packedWith, seed, password, None, profile, rnd)
    case Keypairs(_, _) => false
  }

  /** The laws suffice to decide the outcome: always for key pairs and for the right
      password without a seed, and for other secrets where ciphertexts determine their
      messages. */
  ghost predicate Decided(crypto: Crypto, credential: EncryptCredential, password: bytes) {
    && crypto.Lawful()
    && (Committing(crypto.xchacha) || credential.Keypairs? || credential == Password(password, None))
  }

  lemma CredentialDecides(crypto: Crypto, credential: EncryptCredential, profile: SecurityProfile, rnd: Randomness,
                          payload: bytes, overridden: bool, password: bytes)
    requires credential.Valid() && |payload| <= U64_MAX && Decided(crypto, credential, password)
    requires BundleCapsule(crypto, credential, profile, rnd, payload, overridden).Some?
    ensures var data := BundleCapsule(crypto, credential, profile, rnd, payload, overridden).value;
      && Capsule.OpenCapsule(crypto, data).Ok?
      && if Unlocks(crypto, credential, password, profile, rnd)
           then DecryptWithPassword(crypto, data, password, None) == Result.Ok(payload)
         else DecryptWithPassword(crypto, data, password, None).Err?
  {
    hide Capsule.OpenCapsule, DecryptWithPassword, PasswordCapsule, KeypairCapsule, SameSlot, Committing;
    match credential
    case Password(packedWith, seed) =>
      if credential == Password(password, None) {
        PasswordRoundTrip(crypto, password, None, profile, rnd, payload, Some(ContentType.Bundle), overridden);
        CapsuleHasKey(crypto, password, None, profile, rnd, payload, Some(ContentType.Bundle), overridden);
      } else {
        SecretsOpen(crypto, packedWith, seed, password, None, profile, rnd, payload, Some(ContentType.Bundle),
          overridden);
      }
    case Keypairs(publics, coins) =>
      KeypairCapsuleTakesNoPassword(crypto, publics, coins, profile, rnd, payload, Some(ContentType.Bundle), overridden,
        password, None);
  }

  /** What the packed archive decrypts to with its password: a payload padded exactly as
      asked for. */
  lemma ArchiveIsPadded(crypto: Crypto, before: map<Path, bytes>, after: map<Path, bytes>, outFile: Path,
                        sorted: seq<Walked>, padding: PaddingProfile, password: bytes, seed: Option<bytes>,
                        profile: SecurityProfile, rnd: Randomness, overridden: bool, m: BundleManifest)
    requires crypto.Lawful()
    requires Packed(crypto, before, after, outFile, sorted, padding, Password(password, seed), profile, rnd, overridden,
      m)
    ensures outFile in after && DecryptWithPassword(crypto, after[outFile], password, seed).Ok?
    ensures Padded(padding, BodyLength(m, SourcesAt(before, sorted)),
      DecryptWithPassword(crypto, after[outFile], password, seed).value)
  {
    hide PackedPayload, ManifestOf, DecryptWithPassword, PasswordCapsule, Padded, Capsule.OpenCapsule, BodyLength,
      SourcesAt;
    var payload := PackedPayload(crypto, SourcesAt(before, sorted), padding, m.createdAt, m.toolVersion).value;
    PasswordRoundTrip(crypto, password, seed, profile, rnd, payload, Some(ContentType.Bundle), overridden);
  }

  /** The capsule of the packed sources, annotated. */
  function BundleFile(crypto: Crypto, sources: seq<Source>, padding: PaddingProfile, createdAt: Option<Str>,
                      toolVersion: Option<Str>, credential: EncryptCredential, profile: SecurityProfile,
                      rnd: Randomness, overridden: bool, steps: seq<Annotations.Step>): Option<bytes>
    requires credential.Valid()
  {
    var payload :- PackedPayload(crypto, sources, padding, createdAt, toolVersion);
    var capsule :- BundleCapsule(crypto, credential, profile, rnd, payload, overridden);
    Annotations.Run(crypto, steps, capsule)
  }

  lemma BundleFileDecrypts(crypto: Crypto, sources: seq<Source>, padding: PaddingProfile, createdAt: Option<Str>,
                           toolVersion: Option<Str>, credential: EncryptCredential, profile: SecurityProfile,
                           rnd: Randomness, overridden: bool, steps: seq<Annotations.Step>, password: bytes)
    requires credential.Valid() && Decided(crypto, credential, password)
    requires BundleFile(crypto, sources, padding, createdAt, toolVersion, credential, profile, rnd, overridden,
      steps).Some?
    ensures var data := BundleFile(crypto, sources, padding, createdAt, toolVersion, credential, profile, rnd,
      overridden, steps).value;
      && PackedPayload(crypto, sources, padding, createdAt, toolVersion).Some?
      && if Unlocks(crypto, credential, password, profile, rnd)
         then DecryptWithPassword(crypto, data, password, None) ==
           Result.Ok(PackedPayload(crypto, sources, padding, createdAt, toolVersion).value)
         else DecryptWithPassword(crypto, data, password, None).Err?
  {
    hide PackedPayload, BundleCapsule, DecryptWithPassword, Unlocks, Annotations.Run, Capsule.OpenCapsule, Decided;
    var payload := PackedPayload(crypto, sources, padding, createdAt, toolVersion).value;
    var capsule := BundleCapsule(crypto, credential, profile, rnd, payload, overridden).value;
    CredentialDecides(crypto, credential, profile, rnd, payload, overridden, password);
    EndToEnd.RunPreservesPasswordDecryption(crypto, steps, capsule, password, None);
  }

  /** Packed with any credential, encrypted, annotated by any run: the bundle opens
      exactly when the password unlocks it, all paths are valid and none collide after
      case folding; and then it is authentic and holds every source. */
  lemma BundleEndToEnd(crypto: Crypto, lower: bytes -> bytes, sources: seq<Source>, padding: PaddingProfile,
                       createdAt: Option<Str>, toolVersion: Option<Str>, credential: EncryptCredential,
                       profile: SecurityProfile, rnd: Randomness, overridden: bool, steps: seq<Annotations.Step>,
                       password: bytes)
    requires credential.Valid() && Decided(crypto, credential, password)
    requires BundleFile(crypto, sources, padding, createdAt, toolVersion, credential, profile, rnd, overridden,
      steps).Some?
    ensures var data := BundleFile(crypto, sources, padding, createdAt, toolVersion, credential, profile, rnd,
      overridden, steps).value;
      && (OpenBundle(crypto, lower, data, password).Some? <==>
            Unlocks(crypto, credential, password, profile, rnd) && SourcesValid(sources) &&
              SourcesDistinct(lower, sources))
      && (OpenBundle(crypto, lower, data, password).Some? ==>
            var (payload, m, dataStart) := OpenBundle(crypto, lower, data, password).value;
            && Authentic(crypto, lower, data, password) && Holds(crypto, payload, m, dataStart, sources)
            && ManifestOf(crypto, sources, createdAt, toolVersion) == Some(m))
  {
    hide PackedPayload, BundleFile, DecryptWithPassword, OpenPayload, Authentic, Holds, SourcesValid, SourcesDistinct,
      Unlocks, Decided, ManifestOf;
    BundleFileDecrypts(crypto, sources, padding, createdAt, toolVersion, credential, profile, rnd, overridden, steps,
      password);
    if Unlocks(crypto, credential, password, profile, rnd) {
      PackedPayloadOpensIff(crypto, lower,
        BundleFile(crypto, sources, padding, createdAt, toolVersion, credential, profile, rnd, overridden, steps).value,
        password, sources, padding, createdAt, toolVersion);
    }
  }

  // ---- What a caller can rely on ----

  lemma PasswordBundle(crypto: Crypto, password: bytes, profile: SecurityProfile, rnd: Randomness, payload: bytes,
                       overridden: bool)
    requires |payload| <= U64_MAX
    requires BundleCapsule(crypto, Password(password, None), profile, rnd, payload, overridden).Some?
    ensures PasswordCapsule(crypto, password, None, profile, rnd, payload, Some(ContentType.Bundle), overridden).Some?
  {
    hide PasswordCapsule;
  }

  /** The right password unlocks what was packed without a seed. */
  lemma SeedlessUnlocks(crypto: Crypto, password: bytes, profile: SecurityProfile, rnd: Randomness, payload: bytes,
                        overridden: bool)
    requires |payload| <= U64_MAX
    requires BundleCapsule(crypto, Password(password, None), profile, rnd, payload, overridden).Some?
    ensures Unlocks(crypto, Password(password, None), password, profile, rnd)
  {
    hide PasswordCapsule, SameSlot, BundleCapsule;
    PasswordBundle(crypto, password, profile, rnd, payload, overridden);
    CapsuleHasKey(crypto, password, None, profile, rnd, payload, Some(ContentType.Bundle), overridden);
  }

  /** No password opens a bundle that was packed for key pairs. */
  lemma KeypairBundleNeverOpens(crypto: Crypto, lower: bytes -> bytes, publics: seq<PublicKey>,
                                coins: seq<SlotRandomness>, profile: SecurityProfile, rnd: Randomness, payload: bytes,
                                overridden: bool, password: bytes)
    requires crypto.Lawful() && |coins| == |publics| && |payload| <= U64_MAX
    requires BundleCapsule(crypto, Keypairs(publics, coins), profile, rnd, payload, overridden).Some?
    ensures OpenBundle(crypto, lower,
      BundleCapsule(crypto, Keypairs(publics, coins), profile, rnd, payload, overridden).value, password).None?
  {
    hide KeypairCapsule, DecryptWithPassword, OpenPayload, Capsule.OpenCapsule;
    KeypairCapsuleTakesNoPassword(crypto, publics, coins, profile, rnd, payload, Some(ContentType.Bundle), overridden,
      password, None);
  }

  lemma SeededWrappingKey(password: bytes, seed: bytes, profile: SecurityProfile, rnd: Randomness)
    ensures KeyedCrypto().Lawful() && Committing(KeyedCrypto().xchacha)
    ensures WrappedByHand(KeyedCrypto(), password, Some(seed), profile, rnd).Some?
  {
    KeyedCryptoIsLawful();
  }

  /** With primitives that tell keys apart, no bundle packed with a seed opens with
      its own password. */
  lemma SeededBundleCounterexample(lower: bytes -> bytes, password: bytes, seed: bytes, profile: SecurityProfile,
                                   rnd: Randomness, payload: bytes, overridden: bool)
    requires password != [] && seed != [] && |payload| <= U64_MAX
    ensures KeyedCrypto().Lawful()
    ensures BundleCapsule(KeyedCrypto(), Password(password, Some(seed)), profile, rnd, payload, overridden).Some?
    ensures OpenBundle(KeyedCrypto(), lower,
      BundleCapsule(KeyedCrypto(), Password(password, Some(seed)), profile, rnd, payload, overridden).value,
        password).None?
  {
    hide PasswordCapsule, DecryptWithPassword, KeyedCrypto, BundleCapsule, OpenBundle;
    var crypto := KeyedCrypto();
    SeededCapsule(password, seed, profile, rnd, payload, overridden);
    PasswordMakes(crypto, password, Some(seed), profile, rnd, payload, overridden);
    var data := PasswordCapsule(crypto, password, Some(seed), profile, rnd, payload, Some(ContentType.Bundle),
      overridden).value;
    UndecryptedStaysShut(crypto, lower, data, password);
  }

  lemma PasswordMakes(crypto: Crypto, password: bytes, seed: Option<bytes>, profile: SecurityProfile, rnd: Randomness,
                      payload: bytes, overridden: bool)
    requires password != [] && seed != Some([]) && |payload| <= U64_MAX
    ensures BundleCapsule(crypto, Password(password, seed), profile, rnd, payload, overridden)
         == PasswordCapsule(crypto, password, seed, profile, rnd, payload, Some(ContentType.Bundle), overridden)
  {
    hide PasswordCapsule;
  }

  lemma UndecryptedStaysShut(crypto: Crypto, lower: bytes -> bytes, data: bytes, password: bytes)
    requires DecryptWithPassword(crypto, data, password, None).Err?
    ensures OpenBundle(crypto, lower, data, password).None?
  {
    hide DecryptWithPassword, OpenPayload;
  }

  lemma SeededCapsule(password: bytes, seed: bytes, profile: SecurityProfile, rnd: Randomness, payload: bytes,
                      overridden: bool)
    requires |payload| <= U64_MAX
    ensures KeyedCrypto().Lawful()
    ensures var crypto := KeyedCrypto();
      var data := PasswordCapsule(crypto, password, Some(seed), profile, rnd, payload, Some(ContentType.Bundle),
        overridden);
      data.Some? && DecryptWithPassword(crypto, data.value, password, None).Err?
  {
    hide PasswordCapsule, DecryptWithPassword, Capsule.OpenCapsule, SameSlot, KeyedCrypto, Committing, WrappedByHand;
    var crypto := KeyedCrypto();
    SeededWrappingKey(password, seed, profile, rnd);
    Sizes.PasswordCapsuleIff(crypto, password, Some(seed), profile, rnd, payload, Some(ContentType.Bundle), overridden);
    SeedMatters(password, seed, profile, rnd);
    SecretsOpen(crypto, password, Some(seed), password, None, profile, rnd, payload, Some(ContentType.Bundle),
      overridden);
  }

  /** The bundle, if these primitives make one, opens with the password. */
  ghost predicate OpensUnder(crypto: Crypto, lower: bytes -> bytes, sources: seq<Source>, padding: PaddingProfile,
                             createdAt: Option<Str>, toolVersion: Option<Str>, credential: EncryptCredential,
                             profile: SecurityProfile, rnd: Randomness, overridden: bool, password: bytes)
    requires credential.Valid()
  {
    var data := BundleFile(crypto, sources, padding, createdAt, toolVersion, credential, profile, rnd, overridden, []);
    data.Some? ==> OpenBundle(crypto, lower, data.value, password).Some?
  }

  lemma FileWithoutSteps(crypto: Crypto, sources: seq<Source>, padding: PaddingProfile, createdAt: Option<Str>,
                         toolVersion: Option<Str>, credential: EncryptCredential, profile: SecurityProfile,
                         rnd: Randomness, overridden: bool)
    requires credential.Valid()
    requires BundleFile(crypto, sources, padding, createdAt, toolVersion, credential, profile, rnd, overridden,
      []).Some?
    ensures PackedPayload(crypto, sources, padding, createdAt, toolVersion).Some?
    ensures BundleCapsule(crypto, credential, profile, rnd,
      PackedPayload(crypto, sources, padding, createdAt, toolVersion).value, overridden)
         == BundleFile(crypto, sources, padding, createdAt, toolVersion, credential, profile, rnd, overridden, [])
  {
    hide PackedPayload, BundleCapsule;
  }

  /** What can be checked before packing: whatever the primitives, a packed bundle is
      sure to open with its password exactly when it was packed with a password and
      no seed, all paths are valid and none collide after case folding. (For key
      pairs any password may be tried.) */
  lemma SureToOpenIff(lower: bytes -> bytes, sources: seq<Source>, padding: PaddingProfile, createdAt: Option<Str>,
                      toolVersion: Option<Str>, credential: EncryptCredential, profile: SecurityProfile,
                      rnd: Randomness, overridden: bool, password: bytes)
    requires credential.Valid() && (credential.Password? ==> credential.password == password)
    requires BundleFile(KeyedCrypto(), sources, padding, createdAt, toolVersion, credential, profile, rnd, overridden,
      []).Some?
    ensures (forall crypto: Crypto | crypto.Lawful() ::
               OpensUnder(crypto, lower, sources, padding, createdAt, toolVersion, credential, profile, rnd, overridden,
                 password))
       <==> credential.Password? && credential.seed.None? && SourcesValid(sources) && SourcesDistinct(lower, sources)
  {
    hide BundleFile, OpensUnder, SourcesValid, SourcesDistinct, KeyedCrypto;
    KeyedCryptoIsLawful();
    if credential.Password? && credential.seed.None? && SourcesValid(sources) && SourcesDistinct(lower, sources) {
      forall crypto: Crypto | crypto.Lawful()
        ensures OpensUnder(crypto, lower, sources, padding, createdAt, toolVersion, credential, profile, rnd,
          overridden, password)
      {
        OpensWithoutSeed(crypto, lower, sources, padding, createdAt, toolVersion, credential, profile, rnd, overridden,
          password);
      }
    } else {
      RefusedWhenKeyed(lower, sources, padding, createdAt, toolVersion, credential, profile, rnd, overridden, password);
    }
  }

  lemma OpensWithoutSeed(crypto: Crypto, lower: bytes -> bytes, sources: seq<Source>, padding: PaddingProfile,
                         createdAt: Option<Str>, toolVersion: Option<Str>, credential: EncryptCredential,
                         profile: SecurityProfile, rnd: Randomness, overridden: bool, password: bytes)
    requires crypto.Lawful() && credential == Password(password, None) && SourcesValid(sources)
    requires SourcesDistinct(lower, sources)
    ensures OpensUnder(crypto, lower, sources, padding, createdAt, toolVersion, credential, profile, rnd, overridden,
      password)
  {
    hide PackedPayload, BundleFile, BundleCapsule, OpenBundle, Authentic, Holds, SourcesValid, SourcesDistinct,
      ManifestOf, SameSlot;
    if BundleFile(crypto, sources, padding, createdAt, toolVersion, credential, profile, rnd, overridden, []).Some? {
      FileWithoutSteps(crypto, sources, padding, createdAt, toolVersion, credential, profile, rnd, overridden);
      SeedlessUnlocks(crypto, password, profile, rnd,
        PackedPayload(crypto, sources, padding, createdAt, toolVersion).value, overridden);
      BundleEndToEnd(crypto, lower, sources, padding, createdAt, toolVersion, credential, profile, rnd, overridden, [],
        password);
    }
  }

  lemma RefusedWhenKeyed(lower: bytes -> bytes, sources: seq<Source>, padding: PaddingProfile, createdAt: Option<Str>,
                         toolVersion: Option<Str>, credential: EncryptCredential, profile: SecurityProfile,
                         rnd: Randomness, overridden: bool, password: bytes)
    requires credential.Valid() && (credential.Password? ==> credential.password == password)
    requires BundleFile(KeyedCrypto(), sources, padding, createdAt, toolVersion, credential, profile, rnd, overridden,
      []).Some?
    requires !(credential.Password? && credential.seed.None? && SourcesValid(sources) &&
      SourcesDistinct(lower, sources))
    ensures !OpensUnder(KeyedCrypto(), lower, sources, padding, createdAt, toolVersion, credential, profile, rnd,
      overridden, password)
  {
    hide PackedPayload, BundleFile, BundleCapsule, OpenBundle, Authentic, Holds, SourcesValid, SourcesDistinct,
      ManifestOf, SameSlot, KeyedCrypto;
    KeyedCryptoIsLawful();
    BundleEndToEnd(KeyedCrypto(), lower, sources, padding, createdAt, toolVersion, credential, profile, rnd, overridden,
      [], password);
    if credential.Password? && credential.seed.Some? { SeedMatters(password, credential.seed.value, profile, rnd); }
  }
}
