/**
 * The exceptions the file-encryption library raises, one constructor per
 * distinct condition.  Where the source throws, the model returns
 * `Failure(e)` with one of these values.
 */
module Errors {

  datatype Error =
      /** `Encrypt`: the plaintext file does not exist or is empty (ArgumentOutOfRangeException). */
    | PlaintextMissingOrEmpty
      /** The cipher object rejects a key that is not 32 bytes long. */
    | InvalidKeySize
      /** The finite stream that stands for the random number generator ran dry (model only). */
    | RandomSourceExhausted
      /** `Decrypt` / `Deserialize`: the key file does not exist (ArgumentException). */
    | KeyFileMissing
      /** `Decrypt`: the cipher-text file does not exist (ArgumentException). */
    | CipherFileMissing
      /** `Decrypt`: the cipher-text file is empty (ArgumentOutOfRangeException). */
    | CipherFileEmpty
      /** The key file is not a JSON document (JsonException). */
    | MalformedJson
      /** `Deserialize`: note entry `index` lacks `Nonce`, `Tag` or `Order`. */
    | NoteEntryInvalid(index: nat)
      /** `Deserialize`: no `Key`, or no note was read ("Invalid Keyfile."). */
    | KeyFileInvalid
      /** A string handed to the base64 decoder is not base64 (FormatException). */
    | MalformedBase64
      /** `ValidateLength`: the key is not 32 bytes. */
    | KeyLength(length: nat)
      /** `ValidateLength`: note `index` has a tag that is not 16 bytes. */
    | TagLength(index: nat, length: nat)
      /** `ValidateLength`: note `index` has a nonce that is not 12 bytes. */
    | NonceLength(index: nat, length: nat)
      /** The cipher rejected the tag of chunk `order` while decrypting. */
    | AuthenticationFailure(order: nat)
}
