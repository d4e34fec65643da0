/**
 * The two fixed tables `decrypt` uses to map a header's "algorithm" name to
 * the class whose `deserialize` rebuilds the instance.
 */
module Registry {
  import opened Wrappers
  import opened Header

  /** The KDF classes with a deserializer: argon2kdf.Argon2Kdf. */
  datatype KdfClass = Argon2Kdf

  /** The cipher classes with a deserializer: aes256gcmcipher.Aes256GcmCipher. */
  datatype CipherClass = Aes256GcmCipher

  const KdfTable: map<string, KdfClass> :=
    map["argon2id" := Argon2Kdf, "argon2d" := Argon2Kdf, "argon2i" := Argon2Kdf]

  const CipherTable: map<string, CipherClass> := map["aes-256-gcm" := Aes256GcmCipher]

  /**
   * `{...}[name]` over the KDF table: the three Argon2 variants, by exact
   * string, all reach the one Argon2 deserializer; any other value,
   * string or not, makes the lookup raise.
   */
  function LookupKdf(name: Json): (r: Option<KdfClass>)
    ensures r.Some? <==> name == JString("argon2id") || name == JString("argon2d") || name == JString("argon2i")
    ensures r.Some? ==> r.value == Argon2Kdf
  {
    if name.JString? && name.s in KdfTable then Some(KdfTable[name.s]) else None
  }

  /** `{...}[name]` over the cipher table: only "aes-256-gcm" is known. */
  function LookupCipher(name: Json): (r: Option<CipherClass>)
    ensures r.Some? <==> name == JString("aes-256-gcm")
    ensures r.Some? ==> r.value == Aes256GcmCipher
  {
    if name.JString? && name.s in CipherTable then Some(CipherTable[name.s]) else None
  }
}
