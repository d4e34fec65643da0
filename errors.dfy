/** The ways `encrypt` and `decrypt` in easyencrypt.py can fail. */
module Errors {

  datatype Error =
    /** ValueError "magic header missing": the input does not start with "EZ". */
    | MagicMissing
    /** ValueError "header length field missing": fewer than 4 bytes follow the magic. */
    | LengthFieldMissing
    /** ValueError "header length is negative": guarded against, never raised (HeaderLengthNeverNegative). */
    | LengthNegative
    /** ValueError "reached EOF while reading header". */
    | HeaderTruncated
    /** UnicodeDecodeError or a json.loads failure on the header bytes. */
    | HeaderUndecodable
    /** KeyError or TypeError subscripting the parsed header with `key`. */
    | FieldMissing(key: string)
    /** KeyError (or TypeError) from the KDF name table. */
    | UnknownKdf
    /** KeyError (or TypeError) from the cipher name table. */
    | UnknownCipher
    /** The KDF's deserialize rejects its header record. */
    | MalformedKdfParams
    /** The cipher's deserialize rejects its header record. */
    | MalformedCipherParams
    /** The KDF's derive raises. */
    | KeyDerivationFailed
    /** OverflowError from `to_bytes(4, "big")`: the header has 2^32 bytes or more. */
    | HeaderTooLong
    /** The cipher's decrypt rejects the ciphertext stream. */
    | AuthenticationFailed
}
