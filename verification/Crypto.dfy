/**
 Template encryption and the recovery envelope over an ideal AEAD and an ideal KDF: a sealed blob
 is the term (nonce, key, plaintext), opened by that key alone, and a derived key is the term of
 everything it was derived from. Lengths follow the file format.
 */
module Crypto {
  import opened Wrappers
  import opened Hex

  const KEY_LEN: nat := 32
  const NONCE_LEN: nat := 12
  const TAG_LEN: nat := 16
  const SALT_LEN: nat := 16

  const M_COST: nat := 19_456
  const T_COST: nat := 2
  const P_COST: nat := 1
  const ARGON2ID: string := "argon2id"

  type Key = k: seq<byte> | |k| == KEY_LEN witness seq(KEY_LEN, _ => 0)
  type Nonce = n: seq<byte> | |n| == NONCE_LEN witness seq(NONCE_LEN, _ => 0)
  type Salt = s: seq<byte> | |s| == SALT_LEN witness seq(SALT_LEN, _ => 0)

  datatype CipherKey =
    | Template(bytes: seq<byte>)
    | Derived(passphrase: seq<byte>, salt: seq<byte>, m: nat, t: nat, p: nat)
  {
    function Length(): nat {
      if Template? then |bytes| else KEY_LEN
    }
  }

  /** A file's bytes: what `Encrypt` wrote, or anything else. */
  datatype Blob = Sealed(nonce: Nonce, key: CipherKey, plain: seq<byte>) | Foreign(bytes: seq<byte>) {
    function Length(): nat {
      if Sealed? then NONCE_LEN + |plain| + TAG_LEN else |bytes|
    }
  }

  function Encrypt(key: CipherKey, nonce: Nonce, plain: seq<byte>): Result<Blob> {
    if key.Length() != KEY_LEN then Err(Policy) else Ok(Sealed(nonce, key, plain))
  }

  function Decrypt(key: CipherKey, blob: Blob): Result<seq<byte>> {
    if key.Length() != KEY_LEN then Err(Policy)
    else if blob.Length() < NONCE_LEN + TAG_LEN then Err(Policy)
    else if blob.Sealed? && blob.key == key then Ok(blob.plain)
    else Err(Policy)
  }

  datatype RecoveryEnvelope = RecoveryEnvelope(
    version: nat, kdf: string, salt: seq<byte>, m: nat, t: nat, p: nat, wrapped: Blob)

  function Wrap(passphrase: seq<byte>, salt: Salt, nonce: Nonce, templateKey: seq<byte>): Result<RecoveryEnvelope> {
    if passphrase == [] then Err(Policy)
    else
      var wrapped :- Encrypt(Derived(passphrase, salt, M_COST, T_COST, P_COST), nonce, templateKey);
      Ok(RecoveryEnvelope(1, ARGON2ID, salt, M_COST, T_COST, P_COST, wrapped))
  }

  function Unwrap(passphrase: seq<byte>, env: RecoveryEnvelope): Result<seq<byte>> {
    if env.kdf != ARGON2ID then Err(Policy)
    else Decrypt(Derived(passphrase, env.salt, env.m, env.t, env.p), env.wrapped)
  }

  /** A wrapped key comes back under its own passphrase and under no other. */
  lemma UnwrapExactly(passphrase: seq<byte>, guess: seq<byte>, salt: Salt, nonce: Nonce, templateKey: seq<byte>)
    requires passphrase != []
    ensures var env := Wrap(passphrase, salt, nonce, templateKey);
            env.Ok? && Unwrap(guess, env.value) == if guess == passphrase then Ok(templateKey) else Err(Policy)
  {
  }

  /** A template is opened by the key it was encrypted under and by no other, and its file is 28 bytes longer. */
  lemma DecryptExactly(key: Key, other: Key, nonce: Nonce, plain: seq<byte>)
    ensures var blob := Encrypt(Template(key), nonce, plain);
            && blob.Ok? && blob.value.Length() == |plain| + 28
            && Decrypt(Template(other), blob.value) == if other == key then Ok(plain) else Err(Policy)
  {
  }

  /** A recovery file that names another derivation is refused, whatever the passphrase. */
  lemma OtherKdfRefused(passphrase: seq<byte>, env: RecoveryEnvelope)
    requires env.kdf != "argon2id"
    ensures Unwrap(passphrase, env) == Err(Policy)
  {
  }
}
