/**
 * `encrypt` and `decrypt` of easyencrypt.py: the envelope around a
 * password-derived key, a KDF and a cipher that are known here only
 * through their interfaces.
 */
module EasyEncrypt {
  import opened Wrappers
  import opened BigEndian
  import opened Errors
  import opened Framing
  import opened Header
  import opened Registry
  import opened Streams

  /**
   * The collaborators, as functions over the opaque KDF instances `K` and
   * cipher instances `C`: the KDF and cipher interfaces (kdf.py, cipher.py),
   * the two deserializers the registry names, and json.dumps / json.loads
   * together with the UTF-8 conversion. A None result stands for the
   * collaborator raising. The cipher's own nonce randomness is folded into
   * `encryptStream`.
   */
  datatype Primitives<!K, !C> = Primitives(
    serializeKdf: K -> Json,
    deserializeKdf: (KdfClass, Json) -> Option<K>,
    derive: (K, string, nat) -> Option<seq<byte>>,
    serializeCipher: C -> Json,
    deserializeCipher: (CipherClass, Json) -> Option<C>,
    keyLength: C -> nat,
    encryptStream: (C, seq<byte>, seq<byte>) -> seq<byte>,
    decryptStream: (C, seq<byte>, seq<byte>) -> Option<seq<byte>>,
    dumpHeader: Json -> seq<byte>,
    loadHeader: seq<byte> -> Option<Json>)

  /** The header bytes `encrypt` writes for a KDF and a cipher. */
  function HeaderBytes<K, C>(p: Primitives<K, C>, kdf: K, cipher: C): seq<byte> {
    p.dumpHeader(HeaderRecord(p.serializeKdf(kdf), p.serializeCipher(cipher)))
  }

  /**
   * `encrypt`, with its generator's chunks concatenated: derive the key at
   * the cipher's key length, serialise the header, frame the header and
   * the cipher's output.
   */
  function Encrypt<K, C>(p: Primitives<K, C>, password: string, kdf: K, cipher: C, plaintext: seq<byte>)
    : Result<seq<byte>, Error>
  {
    var key :- p.derive(kdf, password, p.keyLength(cipher)).ToResult(KeyDerivationFailed);
    Envelope(HeaderBytes(p, kdf, cipher), p.encryptStream(cipher, key, plaintext))
  }

  /**
   * Lines 52-65 of `decrypt`: parse the header, take its "kdf" and
   * "cipher" records, and rebuild the KDF and then the cipher through the
   * registry.
   */
  function OpenHeader<K, C>(p: Primitives<K, C>, headerBytes: seq<byte>): Result<(K, C), Error> {
    var header :- p.loadHeader(headerBytes).ToResult(HeaderUndecodable);
    var kdfRecord :- Field(header, "kdf").ToResult(FieldMissing("kdf"));
    var cipherRecord :- Field(header, "cipher").ToResult(FieldMissing("cipher"));
    var kdfName :- Field(kdfRecord, "algorithm").ToResult(FieldMissing("algorithm"));
    var kdfClass :- LookupKdf(kdfName).ToResult(UnknownKdf);
    var kdf :- p.deserializeKdf(kdfClass, kdfRecord).ToResult(MalformedKdfParams);
    var cipherName :- Field(cipherRecord, "algorithm").ToResult(FieldMissing("algorithm"));
    var cipherClass :- LookupCipher(cipherName).ToResult(UnknownCipher);
    var cipher :- p.deserializeCipher(cipherClass, cipherRecord).ToResult(MalformedCipherParams);
    Success((kdf, cipher))
  }

  /** What `decrypt` computes, with the returned plaintext stream concatenated. */
  function DecryptOutcome<K, C>(p: Primitives<K, C>, password: string, input: seq<byte>)
    : Result<seq<byte>, Error>
  {
    var frame :- ParseFrame(input);
    var algorithms :- OpenHeader(p, frame.header);
    var key :- p.derive(algorithms.0, password, p.keyLength(algorithms.1)).ToResult(KeyDerivationFailed);
    p.decryptStream(algorithms.1, key, frame.body).ToResult(AuthenticationFailed)
  }

  /** `decrypt` step by step over a BufferedReader, each check failing fast. */
  method Decrypt<K, C>(p: Primitives<K, C>, password: string, input: seq<byte>)
    returns (r: Result<seq<byte>, Error>)
    ensures r == DecryptOutcome(p, password, input)
  {
    var br := new BufferedReader(input);
    var magic := br.Read(2);
    if magic != Magic {
      return Failure(MagicMissing);
    }
    var lengthField := br.Read(4);
    if |lengthField| != 4 {
      return Failure(LengthFieldMissing);
    }
    var headerLength := FromBytes(lengthField);
    if headerLength < 0 {
      return Failure(LengthNegative);
    }
    var headerBytes := br.Read(headerLength);
    if |headerBytes| != headerLength {
      return Failure(HeaderTruncated);
    }
    assert ParseFrame(input).Success? && ParseFrame(input).value.header == headerBytes;
    var algorithms := OpenHeader(p, headerBytes);
    if algorithms.Failure? {
      return Failure(algorithms.error);
    }
    var (kdf, cipher) := algorithms.value;
    var key := p.derive(kdf, password, p.keyLength(cipher));
    if key.None? {
      return Failure(KeyDerivationFailed);
    }
    var rest := br.Chunks();
    var plaintext := p.decryptStream(cipher, key.value, rest);
    r := plaintext.ToResult(AuthenticationFailed);
  }

  /**
   * `encrypt` fails only where derive raises, or where the header is too long
   * for its 4-byte length field; otherwise it emits "EZ", the header length,
   * the header and exactly the cipher's output under a key derived at the
   * cipher's key length, with nothing in between.
   */
  lemma EncryptLayout<K, C>(p: Primitives<K, C>, password: string, kdf: K, cipher: C, plaintext: seq<byte>)
    ensures var key := p.derive(kdf, password, p.keyLength(cipher));
      var header := HeaderBytes(p, kdf, cipher);
      var out := Encrypt(p, password, kdf, cipher, plaintext);
      && (out == Failure(KeyDerivationFailed) <==> key.None?)
      && (out == Failure(HeaderTooLong) <==> key.Some? && |header| >= Uint32Limit)
      && (out.Success? <==> key.Some? && |header| < Uint32Limit)
      && (out.Success? ==>
            var e := out.value;
            var ciphertext := p.encryptStream(cipher, key.value, plaintext);
            && |e| == HeaderOffset + |header| + |ciphertext|
            && e[..2] == Magic
            && FromBytes(e[2..6]) == |header|
            && e[6..6 + |header|] == header
            && e[6 + |header|..] == ciphertext)
  {
    var key := p.derive(kdf, password, p.keyLength(cipher));
    if key.Some? && |HeaderBytes(p, kdf, cipher)| < Uint32Limit {
      EnvelopeLayout(HeaderBytes(p, kdf, cipher), p.encryptStream(cipher, key.value, plaintext));
    }
  }

  /**
   * The KDF serialises to a record whose "algorithm" the registry knows, and
   * that record deserialises back to the same instance.
   */
  ghost predicate KdfRestorable<K, C>(p: Primitives<K, C>, kdf: K) {
    var record := p.serializeKdf(kdf);
    match Field(record, "algorithm")
    case None => false
    case Some(name) =>
      match LookupKdf(name)
      case None => false
      case Some(cls) => p.deserializeKdf(cls, record) == Some(kdf)
  }

  /** The same for the cipher. */
  ghost predicate CipherRestorable<K, C>(p: Primitives<K, C>, cipher: C) {
    var record := p.serializeCipher(cipher);
    match Field(record, "algorithm")
    case None => false
    case Some(name) =>
      match LookupCipher(name)
      case None => false
      case Some(cls) => p.deserializeCipher(cls, record) == Some(cipher)
  }

  /** A header built by `encrypt` from restorable algorithms opens to those same algorithms. */
  lemma OpenBuiltHeader<K, C>(p: Primitives<K, C>, kdf: K, cipher: C)
    requires KdfRestorable(p, kdf) && CipherRestorable(p, cipher)
    requires p.loadHeader(HeaderBytes(p, kdf, cipher))
          == Some(HeaderRecord(p.serializeKdf(kdf), p.serializeCipher(cipher)))
    ensures OpenHeader(p, HeaderBytes(p, kdf, cipher)) == Success((kdf, cipher))
  {
  }

  /**
   * Round trip: decrypting what `encrypt` produced, with the same password,
   * gives back the plaintext, provided the collaborators keep their own
   * promises: the header text parses back, both algorithms are restorable
   * from their records, and the cipher decrypts its own output.
   */
  lemma DecryptEncrypt<K, C>(p: Primitives<K, C>, password: string, kdf: K, cipher: C,
                                    plaintext: seq<byte>, key: seq<byte>)
    requires p.derive(kdf, password, p.keyLength(cipher)) == Some(key)
    requires |HeaderBytes(p, kdf, cipher)| < Uint32Limit
    requires p.loadHeader(HeaderBytes(p, kdf, cipher))
          == Some(HeaderRecord(p.serializeKdf(kdf), p.serializeCipher(cipher)))
    requires KdfRestorable(p, kdf) && CipherRestorable(p, cipher)
    requires p.decryptStream(cipher, key, p.encryptStream(cipher, key, plaintext)) == Some(plaintext)
    ensures Encrypt(p, password, kdf, cipher, plaintext).Success?
    ensures DecryptOutcome(p, password, Encrypt(p, password, kdf, cipher, plaintext).value) == Success(plaintext)
  {
    var header := HeaderBytes(p, kdf, cipher);
    var ciphertext := p.encryptStream(cipher, key, plaintext);
    ParseEnvelope(header, ciphertext);
    OpenBuiltHeader(p, kdf, cipher);
  }

  /**
   * A successful `decrypt` framed its input, rebuilt a KDF and a cipher from
   * the header, derived the key at that cipher's key length and handed
   * exactly the bytes after the header to the cipher.
   */
  lemma DecryptSucceeded<K, C>(p: Primitives<K, C>, password: string, input: seq<byte>, plaintext: seq<byte>)
    returns (header: seq<byte>, kdf: K, cipher: C, key: seq<byte>)
    requires DecryptOutcome(p, password, input) == Success(plaintext)
    ensures HeaderOffset + |header| <= |input|
    ensures input[..2] == Magic && FromBytes(input[2..6]) == |header|
    ensures input[6..6 + |header|] == header
    ensures OpenHeader(p, header) == Success((kdf, cipher))
    ensures p.derive(kdf, password, p.keyLength(cipher)) == Some(key)
    ensures p.decryptStream(cipher, key, input[6 + |header|..]) == Some(plaintext)
  {
    var frame := ParseFrame(input).value;
    ParseFrameSound(input);
    EnvelopeLayout(frame.header, frame.body);
    header := frame.header;
    kdf, cipher := OpenHeader(p, header).value.0, OpenHeader(p, header).value.1;
    key := p.derive(kdf, password, p.keyLength(cipher)).value;
  }

  /**
   * A malformed envelope or a header that does not open is rejected before
   * any key is derived: the error is the same for every password and every
   * KDF and cipher behaviour.
   */
  lemma RejectedBeforeKeyDerivation<K, C>(p: Primitives<K, C>, password: string, input: seq<byte>,
                                          otherPassword: string,
                                          otherDerive: (K, string, nat) -> Option<seq<byte>>,
                                          otherDecrypt: (C, seq<byte>, seq<byte>) -> Option<seq<byte>>)
    requires ParseFrame(input).Failure? || OpenHeader(p, ParseFrame(input).value.header).Failure?
    ensures var e := if ParseFrame(input).Failure? then ParseFrame(input).error
                     else OpenHeader(p, ParseFrame(input).value.header).error;
      && DecryptOutcome(p, password, input) == Failure(e)
      && DecryptOutcome(p.(derive := otherDerive, decryptStream := otherDecrypt), otherPassword, input) == Failure(e)
  {
  }

  /** A header naming a cipher outside the table fails with UnknownCipher once the KDF has been rebuilt. */
  lemma UnknownCipherRejected<K, C>(p: Primitives<K, C>, password: string, input: seq<byte>,
                                    header: Json, kdf: K)
    requires ParseFrame(input).Success?
    requires p.loadHeader(ParseFrame(input).value.header) == Some(header)
    requires Field(header, "kdf").Some? && Field(header, "cipher").Some?
    requires Field(header.fields["kdf"], "algorithm").Some?
    requires LookupKdf(header.fields["kdf"].fields["algorithm"]).Some?
    requires p.deserializeKdf(Argon2Kdf, header.fields["kdf"]) == Some(kdf)
    requires Field(header.fields["cipher"], "algorithm").Some?
    requires LookupCipher(header.fields["cipher"].fields["algorithm"]).None?
    ensures DecryptOutcome(p, password, input) == Failure(UnknownCipher)
  {
  }
}
