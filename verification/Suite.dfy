/**
 The cryptography the sealing code calls, as a record of arbitrary functions. Theorems are
 stated for every suite; the few facts they need of it are the predicate `Generated`, which is
 what generating an RSA-2048 key pair promises about that one pair, and, where something must not
 verify, the predicates `Binding`, `SeparatesReferences` and `Ideal`.
 */
module Suite {
  import opened Wrappers
  import opened Hex

  type PrivateKey = nat
  type PublicKey = nat

  datatype Suite = Suite(
    sha256: seq<byte> -> seq<byte>,
    // PEM text to public key, and a public key's DER SubjectPublicKeyInfo
    parsePem: string -> Option<PublicKey>,
    spki: PublicKey -> seq<byte>,
    // the TPM public area of a verification key; None for key sizes the code refuses
    publicArea: PublicKey -> Option<seq<byte>>,
    // the public PEM written beside a private key, and its signatures
    pemOf: PrivateKey -> string,
    sign: (PrivateKey, seq<byte>) -> seq<byte>,
    verify: (PublicKey, seq<byte>, seq<byte>) -> bool)
  {
    /** Lower-case hex SHA-256 of the key's SPKI. */
    function Fingerprint(pem: string): Result<string> {
      match parsePem(pem)
      case None => Err(Policy)
      case Some(k) => Ok(Encode(sha256(spki(k))))
    }

    /** TPM Name of a loaded verification key: nameAlg, then the hash of the public area. */
    function KeyName(area: seq<byte>): seq<byte> {
      [0x00, 0x0b] + sha256(area)
    }

    /** What key generation promises about `sk`: its PEM reads back as a key the TPM can load
        and which accepts every signature `sk` makes, and it is not the pinned systemd key. */
    ghost predicate Generated(sk: PrivateKey) {
      && parsePem(pemOf(sk)).Some?
      && publicArea(parsePem(pemOf(sk)).value).Some?
      && Fingerprint(pemOf(sk)) != Ok(TRUSTED_PUBKEY_SPKI_SHA256)
      && forall m :: verify(parsePem(pemOf(sk)).value, m, sign(sk, m))
    }

    /** An ideal signature: made over one message, it verifies over no other. */
    ghost predicate Binding(sk: PrivateKey) {
      parsePem(pemOf(sk)).Some? ==>
        forall m, m' :: verify(parsePem(pemOf(sk)).value, m, sign(sk, m')) ==> m == m'
    }

    /** An ideal hash, as far as references go: a digest with a reference appended never hashes as
        the digest alone does. */
    ghost predicate SeparatesReferences() {
      forall digest, policyRef :: sha256(digest + policyRef) == sha256(digest + []) ==> policyRef == []
    }

    /** An ideal hash altogether: no two inputs share a digest, and where a digest ends can be told from what
        follows it, as it can for digests of one length. */
    ghost predicate Ideal() {
      forall a, b, x, y :: sha256(a) + x == sha256(b) + y ==> a == b && x == y
    }
  }

  const TRUSTED_PUBKEY_SPKI_SHA256: string :=
    "86812b40a327339e" + ("23d3c1a5621f3104" + ("1e7581e1cc334746" + "f3af62e861525ede"))
}
