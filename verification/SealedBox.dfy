/** The sealed box in which secrets travel between enclaves (node/enclave/src/crypto.rs).  The
    primitives are ideal: a Diffie-Hellman secret is the unordered pair of public keys (section 6.1
    of RFC 7748), a hash is its input, and a ciphertext opens exactly under the key, nonce and
    associated data it was made with (sections 4 and 5 of RFC 8452). */
module SealedBoxes {
  import opened Bytes

  datatype ChainIdentifier = ChainId(id: u64) | GatewayUrl(url: string) | GatewayUrls(urls: seq<string>)

  datatype SecretId = SecretId(chain: ChainIdentifier, identityAddress: Bytes, identityId: nat)

  /** One tuple of the sealed list: id, data, expiry, generation timestamp. */
  datatype SecretRecord = SecretRecord(id: SecretId, data: Bytes, expiry: nat, generation: nat)

  datatype KeyPair = KeyPair(secret: nat, public: Bytes)

  datatype SharedSecret = SharedSecret(parties: set<Bytes>)

  datatype SymmetricKey = Sha256(input: SharedSecret)

  datatype Ciphertext = Sealed(key: SymmetricKey, nonce: Bytes, aad: Bytes, plaintext: seq<SecretRecord>)

  /** The payload bytes: a nonce then a ciphertext, or anything else. */
  datatype Payload = Payload(nonce: Bytes, ciphertext: Ciphertext) | Malformed(raw: Bytes)

  datatype SecretsBox = SecretsBox(
    payload: Payload, senderPublicKey: Bytes, alg: string, containedSecretIds: seq<SecretId>)

  const AES_NONCE_SIZE: nat := 12
  const BOX_ALG: string := "X25519_AES-GCM-SIV"

  function DiffieHellman(own: KeyPair, theirs: Bytes): SharedSecret {
    SharedSecret({own.public, theirs})
  }

  function DecryptAead(key: SymmetricKey, nonce: Bytes, c: Ciphertext, aad: Bytes): Option<seq<SecretRecord>> {
    if |nonce| == AES_NONCE_SIZE && c.key == key && c.nonce == nonce && c.aad == aad then Some(c.plaintext) else None
  }

  function IdsOf(secrets: seq<SecretRecord>): (ids: seq<SecretId>)
    ensures |ids| == |secrets|
    ensures forall i :: 0 <= i < |ids| ==> ids[i] == secrets[i].id
  {
    seq(|secrets|, i requires 0 <= i < |secrets| => secrets[i].id)
  }

  function EncryptSecretsBox(own: KeyPair, recipient: Bytes, secrets: seq<SecretRecord>, nonce: Bytes): SecretsBox {
    var key := Sha256(DiffieHellman(own, recipient));
    var aad := recipient + own.public;
    SecretsBox(Payload(nonce, Sealed(key, nonce, aad, secrets)), own.public, BOX_ALG, IdsOf(secrets))
  }

  function DecryptSecretsBox(own: KeyPair, box: SecretsBox): Option<seq<SecretRecord>> {
    if box.alg != BOX_ALG || |box.senderPublicKey| != 32 || box.payload.Malformed? then None
    else
      var key := Sha256(DiffieHellman(own, box.senderPublicKey));
      DecryptAead(key, box.payload.nonce, box.payload.ciphertext, own.public + box.senderPublicKey)
  }

  /** A box opens for the key it was sealed to, to exactly the sealed records, and for no other. */
  lemma BoxOpensOnlyForRecipient(sender: KeyPair, recipient: Bytes, reader: KeyPair, secrets: seq<SecretRecord>,
                                 nonce: Bytes)
    requires |sender.public| == 32 && |recipient| == 32 && |reader.public| == 32 && |nonce| == AES_NONCE_SIZE
    ensures DecryptSecretsBox(reader, EncryptSecretsBox(sender, recipient, secrets, nonce)) ==
            if reader.public == recipient then Some(secrets) else None
  {
    if reader.public != recipient {
      var sealedAad, readerAad := recipient + sender.public, reader.public + sender.public;
      assert sealedAad[..32] == recipient && readerAad[..32] == reader.public;
    }
  }

  /** And nothing else opens: a box opens to `secrets` if and only if, up to the list of ids in the clear,
      it is one that the holder of its sender key sealed for this reader. */
  lemma BoxOpensExactly(reader: KeyPair, box: SecretsBox, secrets: seq<SecretRecord>)
    ensures DecryptSecretsBox(reader, box) == Some(secrets) <==>
            exists sender: KeyPair, nonce: Bytes ::
              && |sender.public| == 32 && |nonce| == AES_NONCE_SIZE
              && EncryptSecretsBox(sender, reader.public, secrets, nonce) ==
                   box.(containedSecretIds := IdsOf(secrets))
  {
    if DecryptSecretsBox(reader, box) == Some(secrets) {
      var sender, nonce := KeyPair(0, box.senderPublicKey), box.payload.nonce;
      assert {sender.public, reader.public} == {reader.public, sender.public};
      assert EncryptSecretsBox(sender, reader.public, secrets, nonce) == box.(containedSecretIds := IdsOf(secrets));
    }
    if sender: KeyPair, nonce: Bytes :|
      && |sender.public| == 32 && |nonce| == AES_NONCE_SIZE
      && EncryptSecretsBox(sender, reader.public, secrets, nonce) == box.(containedSecretIds := IdsOf(secrets))
    {
      assert {sender.public, reader.public} == {reader.public, sender.public};
    }
  }
}
