/** The error type of the crypto layer. */
module Errors {
  datatype CryptoError =
    | Io
    | Serialization
    | Validation
    | EncryptionFailed
    | DecryptionFailed
    | UnsupportedProfile
    | MissingKdfParams
    | MissingSecondaryNonce
    | OutputExists
    | PolicyViolation
}
