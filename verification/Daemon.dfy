/** The daemon: an in-memory key cache over per-user files, serving requests one at a time. */
module Daemon {
  import opened Wrappers
  import opened Hex
  import opened Crypto
  import opened Embeddings
  import opened Accounts
  import opened Suite
  import PcrSig
  import Sealing
  import SealRuns

  /** A template-key envelope; it opens only on the TPM whose seed it was sealed under. */
  datatype SealedKey = SealedKey(seed: nat, key: Key)

  /** The files under one user's directory. */
  datatype Profile = Profile(
    envelope: Option<SealedKey>,
    recovery: Option<RecoveryEnvelope>,
    embedding: Option<Blob>,
    legacy: Option<seq<byte>>)

  const NO_FILES: Profile := Profile(None, None, None, None)

  /** `r` wraps `key` under some passphrase. */
  predicate Wraps(r: RecoveryEnvelope, key: Key) {
    && r.kdf == ARGON2ID
    && r.wrapped.Sealed? && r.wrapped.plain == key
    && r.wrapped.key.Derived? && r.wrapped.key.passphrase != []
    && r.wrapped.key == Derived(r.wrapped.key.passphrase, r.salt, r.m, r.t, r.p)
  }

  /** The copies of the key in one user's files agree, and none exists without the envelope. */
  predicate Coherent(p: Profile) {
    match p.envelope
    case None => p.recovery.None? && p.embedding.None?
    case Some(env) =>
      && (p.recovery.Some? ==> Wraps(p.recovery.value, env.key))
      && (p.embedding.Some? ==> p.embedding.value.Sealed? && p.embedding.value.key == Template(env.key))
  }

  function AccountOf(p: Profile, cached: bool): (a: Account)
    requires Coherent(p)
    ensures (cached ==> p.envelope.Some?) ==> Sound(a)
  {
    Account(
      if p.envelope.Some? then Some(p.envelope.value.key) else None,
      if p.envelope.Some? then p.envelope.value.seed else 0,
      cached,
      if p.recovery.Some? then Some(p.recovery.value.wrapped.key.passphrase) else None,
      if p.embedding.Some? then Some(p.embedding.value.plain) else None,
      p.legacy)
  }

  // ---------- where the chances come from ----------

  /** A machine whose host key and signatures came about in a run of its own, with ideal cryptography. */
  ghost predicate Grown(c: Suite, m0: SealRuns.Machine, steps: seq<SealRuns.Step>) {
    && SealRuns.GoodKeys(c, m0.files) && PcrSig.HostSignatures(m0.files.sigs, PcrSig.DEFAULT_BANK) == Ok([])
    && SealRuns.GeneratedKeys(c, steps)
    && c.SeparatesReferences() && forall sk :: c.Binding(sk)
  }

  /** x seals `key` on that machine, and y then opens the envelope x made. */
  ghost predicate SealsThenOpens(c: Suite, m0: SealRuns.Machine, steps: seq<SealRuns.Step>, key: seq<byte>,
                                 inputs: Sealing.SealInputs, systemd: Result<seq<PcrSig.PcrSignature>>, x: Chance,
                                 y: Chance) {
    var m := SealRuns.Run(c, m0, steps);
    var (f, env) := Sealing.SealSecret(c, m.tpm, m.secureBoot, m.files, key, inputs);
    && x.sealOk == env.Ok?
    && (env.Ok? ==>
          && y.unsealOk == Sealing.Unseal(c, m.tpm, m.secureBoot, f, systemd, env.value, true).1.Ok?
          && SealRuns.ReopensWhen(c, m0, steps, env.value, systemd))
  }

  lemma SealedKeyOpens(c: Suite, m0: SealRuns.Machine, steps: seq<SealRuns.Step>, key: seq<byte>,
                       inputs: Sealing.SealInputs, systemd: Result<seq<PcrSig.PcrSignature>>, x: Chance, y: Chance)
    requires Grown(c, m0, steps) && c.Generated(inputs.newKey)
    requires SealsThenOpens(c, m0, steps, key, inputs, systemd, x, y)
    ensures x.sealOk ==> y.unsealOk
  {
    hide Sealing.SealSecret, Sealing.Unseal, SealRuns.ReopensWhen, SealRuns.Run;
    if x.sealOk {
      SealRuns.FreshSealReopens(c, m0, steps, key, inputs, systemd);
    }
  }

  class Daemon {
    var cache: map<string, Key>
    var disk: map<string, Profile>
    var seed: nat

    constructor (seed: nat)
      ensures Valid() && this.seed == seed && forall u :: AccountFor(u) == NOBODY
    {
      cache, disk, this.seed := map[], map[], seed;
    }

    /** The four copies of each user's key are equal wherever they exist. */
    ghost predicate Valid()
      reads this
    {
      && (forall u <- disk :: Coherent(disk[u]))
      && (forall u <- cache :: u in disk && disk[u].envelope.Some? && disk[u].envelope.value.key == cache[u])
    }

    function Files(user: string): (p: Profile)
      reads this
    {
      if user in disk then disk[user] else NO_FILES
    }

    function AccountFor(user: string): Account
      requires Valid()
      reads this
    {
      AccountOf(Files(user), user in cache)
    }

    twostate predicate OnlyTouches(user: string)
      requires old(Valid()) && Valid()
      reads this
    {
      seed == old(seed) && forall v :: v != user ==> AccountFor(v) == old(AccountFor(v))
    }

    // ---------- keys ----------

    method UnsealTemplateKey(user: string, x: Chance) returns (r: Result<Key>)
      requires Valid()
      ensures r.Ok? <==> Opens(AccountFor(user), seed, x)
      ensures r.Ok? ==> AccountFor(user).key == Some(r.value)
    {
      var env := Files(user).envelope;
      if env.None? {
        return Err(Io);
      }
      if env.value.seed != seed || !x.unsealOk {
        return Err(Tpm);
      }
      return Ok(env.value.key);
    }

    method EnsureTemplateKey(user: string, x: Chance) returns (r: Result<Key>)
      requires Valid() && user !in cache
      modifies this`disk
      ensures Valid() && OnlyTouches(user)
      ensures var (a, key) := Obtain(old(AccountFor(user)), seed, x);
              AccountFor(user) == a.(cached := false) && (if r.Ok? then key == Some(r.value) else key.None?)
    {
      var p := Files(user);
      if p.envelope.Some? {
        r := UnsealTemplateKey(user, x);
        return;
      }
      if !x.sealOk {
        return Err(Tpm);
      }
      if !x.keyWrite {
        return Err(Io);
      }
      disk := disk[user := p.(envelope := Some(SealedKey(seed, x.newKey)))];
      return Ok(x.newKey);
    }

    method CachedTemplateKey(user: string, x: Chance) returns (r: Result<Key>)
      requires Valid()
      modifies this`disk, this`cache
      ensures Valid() && OnlyTouches(user)
      ensures var (a, key) := Obtain(old(AccountFor(user)), seed, x);
              AccountFor(user) == a && (if r.Ok? then key == Some(r.value) else key.None?)
      ensures r.Ok? ==> AccountFor(user).key == Some(r.value)
    {
      if user in cache {
        return Ok(cache[user]);
      }
      r := EnsureTemplateKey(user, x);
      if r.Ok? {
        cache := cache[user := r.value];
      }
    }

    method EvictTemplateKey(user: string)
      requires Valid()
      modifies this`cache
      ensures Valid() && OnlyTouches(user)
      ensures cache == old(cache) - {user}
    {
      cache := cache - {user};
    }

    method SealTemplateKey(user: string, key: seq<byte>, x: Chance) returns (r: Result<()>)
      requires Valid()
      requires AccountFor(user).key.Some? && key == AccountFor(user).key.value
      modifies this`disk
      ensures Valid() && OnlyTouches(user)
      ensures r.Ok? <==> x.sealOk && x.keyWrite
      ensures AccountFor(user) == if r.Ok? then old(AccountFor(user)).(sealedOn := seed) else old(AccountFor(user))
    {
      if |key| != KEY_LEN {
        return Err(Policy);
      }
      if !x.sealOk {
        return Err(Tpm);
      }
      if !x.keyWrite {
        return Err(Io);
      }
      disk := disk[user := Files(user).(envelope := Some(SealedKey(seed, key)))];
      return Ok(());
    }

    // ---------- embeddings ----------

    method SaveEncryptedEmbedding(user: string, raw: seq<byte>, key: Key, x: Chance) returns (r: Result<()>)
      requires Valid() && AccountFor(user).key == Some(key)
      modifies this`disk
      ensures Valid() && OnlyTouches(user)
      ensures r.Ok? <==> x.dataWrite
      ensures r.Err? ==> AccountFor(user) == old(AccountFor(user))
      ensures r.Ok? ==> AccountFor(user) == old(AccountFor(user)).(raw := Some(raw), legacy := None)
    {
      var blob := Encrypt(Template(key), x.nonce, raw);
      if !x.dataWrite {
        return Err(Io);
      }
      disk := disk[user := Files(user).(embedding := Some(blob.value), legacy := None)];
      return Ok(());
    }

    method LoadEncryptedEmbedding(user: string, key: Key, x: Chance) returns (r: Result<seq<byte>>)
      requires Valid() && AccountFor(user).key == Some(key)
      modifies this`disk
      ensures Valid() && OnlyTouches(user)
      ensures var (a, raw) := ReadRaw(old(AccountFor(user)), x);
              AccountFor(user) == a && (if r.Ok? then raw == Some(r.value) else raw.None?)
    {
      var p := Files(user);
      if p.embedding.Some? {
        if !x.dataRead {
          return Err(Io);
        }
        return Decrypt(Template(key), p.embedding.value);
      }
      if p.legacy.Some? {
        if !x.migrate {
          return Err(Biometrics);
        }
        if !x.dataRead {
          return Err(Io);
        }
        var saved := SaveEncryptedEmbedding(user, p.legacy.value, key, x);
        return if saved.Ok? then Ok(p.legacy.value) else Err(saved.error);
      }
      return Err(Biometrics);
    }

    method EnrolledProfile(user: string) returns (found: bool)
      requires Valid()
      ensures found <==> IsEnrolled(AccountFor(user))
    {
      found := Files(user).embedding.Some? || Files(user).legacy.Some?;
    }

    /** The count shown in listings, read off the file length without decrypting. */
    method ProfileSampleCount(user: string) returns (n: nat)
      requires Valid()
      ensures n == StoredSamples(AccountFor(user))
    {
      var p := Files(user);
      if p.embedding.Some? {
        return SampleCount(p.embedding.value.Length());
      }
      n := if p.legacy.Some? then |p.legacy.value| / STRIDE_BYTES else 0;
    }

    // ---------- requests ----------

    method DoEnroll(user: string, capture: Option<Sample>, reset: bool, x: Chance) returns (resp: Response)
      requires Valid()
      modifies this
      ensures Valid() && OnlyTouches(user)
      ensures (AccountFor(user), resp) == EnrollStep(old(AccountFor(user)), seed, x, capture, reset)
    {
      if capture.None? {
        return Failed;
      }
      var bytes := EmbeddingBytes(capture.value);
      var key := CachedTemplateKey(user, x);
      if key.Err? {
        return Failed;
      }
      var all: seq<byte> := [];
      if !reset {
        var existing := LoadEncryptedEmbedding(user, key.value, x);
        if existing.Ok? {
          all := existing.value;
        }
      }
      all := all + bytes;
      var saved := SaveEncryptedEmbedding(user, all, key.value, x);
      if saved.Err? {
        return Failed;
      }
      return Enrolled(|all| / (EMBEDDING_DIM * 4));
    }

    method LoadUserSamples(user: string, bindingOk: bool, x: Chance) returns (r: Result<seq<Sample>>)
      requires Valid()
      modifies this
      ensures Valid() && OnlyTouches(user)
      ensures var resp := if r.Ok? then Verified(r.value) else Failed;
              (AccountFor(user), resp) == VerifyStep(old(AccountFor(user)), seed, x, bindingOk)
    {
      if !bindingOk {
        return Err(Biometrics);
      }
      var key := CachedTemplateKey(user, x);
      if key.Err? {
        return Err(key.error);
      }
      var raw := LoadEncryptedEmbedding(user, key.value, x);
      if raw.Err? {
        return Err(raw.error);
      }
      return Parse(raw.value);
    }

    method DoResealUserEnvelopes(user: string, x: Chance) returns (resp: Response)
      requires Valid()
      modifies this
      ensures Valid() && OnlyTouches(user)
      ensures (AccountFor(user), resp) == Step(old(AccountFor(user)), seed, x, Reseal)
    {
      var key := UnsealTemplateKey(user, x);
      if key.Err? {
        return Failed;
      }
      var sealed := SealTemplateKey(user, key.value, x);
      if sealed.Err? {
        return Failed;
      }
      EvictTemplateKey(user);
      return Resealed;
    }

    method DoSaveRecovery(user: string, passphrase: seq<byte>, x: Chance) returns (resp: Response)
      requires Valid()
      modifies this
      ensures Valid() && OnlyTouches(user)
      ensures (AccountFor(user), resp) == Step(old(AccountFor(user)), seed, x, SaveRecovery(passphrase))
    {
      var key := UnsealTemplateKey(user, x);
      if key.Err? {
        return Failed;
      }
      var env := Wrap(passphrase, x.salt, x.nonce, key.value);
      if env.Err? || !x.keyWrite {
        return Failed;
      }
      disk := disk[user := Files(user).(recovery := Some(env.value))];
      return RecoverySaved;
    }

    method DoRestoreFromRecovery(user: string, passphrase: seq<byte>, x: Chance) returns (resp: Response)
      requires Valid()
      modifies this
      ensures Valid() && OnlyTouches(user)
      ensures (AccountFor(user), resp) == Step(old(AccountFor(user)), seed, x, RestoreFromRecovery(passphrase))
    {
      var recovery := Files(user).recovery;
      if recovery.None? || !x.dataRead {
        return Failed;
      }
      var key := Unwrap(passphrase, recovery.value);
      if key.Err? {
        return Failed;
      }
      var sealed := SealTemplateKey(user, key.value, x);
      if sealed.Err? {
        return Failed;
      }
      EvictTemplateKey(user);
      return RecoveryRestored;
    }

    method DoDeleteProfile(user: string, removable: bool) returns (resp: Response)
      requires Valid()
      modifies this
      ensures Valid() && OnlyTouches(user)
      ensures forall x :: (AccountFor(user), resp) == Step(old(AccountFor(user)), seed, x, DeleteProfile(removable))
      ensures resp.ProfileDeleted? ==> Files(user) == NO_FILES && user !in cache
    {
      var found := EnrolledProfile(user);
      if !found {
        return Failed;
      }
      var samples := ProfileSampleCount(user);
      if !removable {
        return Failed;
      }
      // the directory, then the cached key: one atomic step here
      disk, cache := disk - {user}, cache - {user};
      return ProfileDeleted(samples);
    }

    method Handle(user: string, req: Request, x: Chance) returns (resp: Response)
      requires Valid()
      modifies this
      ensures Valid() && OnlyTouches(user)
      ensures (AccountFor(user), resp) == Step(old(AccountFor(user)), seed, x, req)
    {
      match req {
        case Enroll(capture, reset) => resp := DoEnroll(user, capture, reset, x);
        case Verify(bindingOk) =>
          var samples := LoadUserSamples(user, bindingOk, x);
          resp := if samples.Ok? then Verified(samples.value) else Failed;
        case Reseal => resp := DoResealUserEnvelopes(user, x);
        case SaveRecovery(passphrase) => resp := DoSaveRecovery(user, passphrase, x);
        case RestoreFromRecovery(passphrase) => resp := DoRestoreFromRecovery(user, passphrase, x);
        case DeleteProfile(removable) => resp := DoDeleteProfile(user, removable);
      }
    }

    /** One event: a request, a restart of the daemon, or the TPM being cleared. */
    method Live(e: Event) returns (resp: Response)
      requires Valid()
      modifies this
      ensures Valid()
      ensures forall u :: (View(AccountFor(u), seed), if e.Serve? && e.user == u then resp else Failed) ==
                          Advance(View(old(AccountFor(u)), old(seed)), e, u)
    {
      resp := Failed;
      match e {
        case Serve(user, req, x) => resp := Handle(user, req, x);
        case Restart => cache := map[];
        case TpmClear(newSeed) => seed := newSeed;
      }
    }

    /**
     Key coherence over every run: whatever requests, restarts and TPM clears are served, the four
     copies of each key still agree, and every user's account is the one the specification reaches.
     */
    method ServeAll(events: seq<Event>)
      requires Valid()
      modifies this
      ensures Valid()
      ensures forall u :: View(AccountFor(u), seed) == RunView(View(old(AccountFor(u)), old(seed)), events, u)
    {
      for i := 0 to |events|
        invariant Valid()
        invariant forall u :: View(AccountFor(u), seed) == RunView(View(old(AccountFor(u)), old(seed)), events[..i], u)
      {
        var _ := Live(events[i]);
        assert events[..i + 1][..i] == events[..i];
      }
      assert events[..|events|] == events;
    }

    // ---------- the two promises, on disk ----------

    /** The plaintext in a user's embedding file, under the key in the user's envelope. */
    ghost function OnDisk(user: string): Option<Result<seq<byte>>>
      requires Valid()
      reads this
    {
      if Files(user).embedding.None? then None
      else Some(Decrypt(Template(Files(user).envelope.value.key), Files(user).embedding.value))
    }

    /** What an account says is stored is what the file decrypts to. */
    lemma StoredIsOnDisk(user: string)
      requires Valid()
      ensures AccountFor(user).raw.Some? <==> OnDisk(user).Some?
      ensures AccountFor(user).raw.Some? ==> OnDisk(user) == Some(Ok(AccountFor(user).raw.value))
    {
    }

    /**
     Recovery: with a passphrase saved, serve anything that keeps the profile, however often the TPM is
     cleared; then restore with the passphrase on file and verify. The daemon holds the key it held
     before, the embedding file decrypts under it to what the run left there, and that is what the verify
     matches against.
     */
    method Recover(events: seq<Event>, user: string, passphrase: seq<byte>, x: Chance, y: Chance)
      returns (resp: Response)
      requires Valid() && Files(user).recovery.Some?
      requires var v := View(AccountFor(user), seed);
               KeepsProfile(v, events, user) && RunView(v, events, user).account.passphrase == Some(passphrase)
      requires x.dataRead && x.sealOk && x.keyWrite && y.unsealOk && y.dataRead
      modifies this
      ensures Valid() && user in cache && Files(user).envelope == Some(SealedKey(seed, cache[user]))
      ensures cache[user] == old(Files(user).envelope.value.key)
      ensures var raw := RunView(View(old(AccountFor(user)), old(seed)), events, user).account.raw;
              raw.Some? ==>
                && OnDisk(user) == Some(Ok(raw.value))
                && resp == (if Parse(raw.value).Ok? then Verified(Parse(raw.value).value) else Failed)
    {
      hide Parse, RunView, KeepsProfile;
      ghost var v := View(AccountFor(user), seed);
      RecoveryRestoresTemplates(v, events, user, x, y);
      ServeAll(events);
      var restored := Handle(user, RestoreFromRecovery(passphrase), x);
      resp := Handle(user, Verify(true), y);
      StoredIsOnDisk(user);
    }

    /**
     The passphrase on disk is the one given: save p, then serve anything that keeps the profile and saves no
     other. The save goes through exactly when the key opens, p is not empty and its file can be written; then the
     recovery file unwraps to the key under p and under no other passphrase, and only p restores.
     */
    method SaveAndRestore(user: string, p: seq<byte>, x: Chance, events: seq<Event>, q: seq<byte>, y: Chance)
      returns (saved: Response, restored: Response)
      requires Valid() && y.dataRead && y.sealOk && y.keyWrite
      requires var v1 := View(Step(AccountFor(user), seed, x, SaveRecovery(p)).0, seed);
               KeepsProfile(v1, events, user) && SavesNoOther(v1, events, user)
      modifies this
      ensures Valid()
      ensures saved == RecoverySaved <==>
                && old(Files(user).envelope.Some? && Files(user).envelope.value.seed == seed)
                && x.unsealOk && p != [] && x.keyWrite
      ensures saved == RecoverySaved ==>
                && Files(user).envelope.Some? && Files(user).recovery.Some?
                && Files(user).envelope.value.key == old(Files(user).envelope.value.key)
                && Unwrap(p, Files(user).recovery.value) == Ok(Files(user).envelope.value.key)
                && (q != p ==> Unwrap(q, Files(user).recovery.value).Err?)
                && (restored == RecoveryRestored <==> q == p)
    {
      hide RunView, KeepsProfile, SavesNoOther;
      ghost var v := View(AccountFor(user), seed);
      SaveAnswers(v.account, seed, x, p);
      saved := Handle(user, SaveRecovery(p), x);
      ghost var v1 := View(AccountFor(user), seed);
      ServeAll(events);
      if saved == RecoverySaved {
        PassphraseKept(v1, events, user);
        KeyNeverReplaced(v1, events, user);
        SavedPassphraseRestores(v, p, x, events, user, q, y);
      }
      restored := Handle(user, RestoreFromRecovery(q), y);
    }

    /** The same, with the sealing and the opening done by a machine of module SealRuns: that the new envelope
        opens is then no assumption but follows from how it was sealed. */
    method RecoverOnMachine(events: seq<Event>, user: string, passphrase: seq<byte>, x: Chance, y: Chance,
                            ghost c: Suite, ghost m0: SealRuns.Machine, ghost steps: seq<SealRuns.Step>,
                            ghost inputs: Sealing.SealInputs, ghost systemd: Result<seq<PcrSig.PcrSignature>>)
      returns (resp: Response)
      requires Valid() && Files(user).recovery.Some?
      requires var v := View(AccountFor(user), seed);
               KeepsProfile(v, events, user) && RunView(v, events, user).account.passphrase == Some(passphrase)
      requires Grown(c, m0, steps) && c.Generated(inputs.newKey)
      requires SealsThenOpens(c, m0, steps, Files(user).envelope.value.key, inputs, systemd, x, y)
      requires x.dataRead && x.sealOk && x.keyWrite && y.dataRead
      modifies this
      ensures Valid() && user in cache && Files(user).envelope == Some(SealedKey(seed, cache[user]))
      ensures cache[user] == old(Files(user).envelope.value.key)
      ensures var raw := RunView(View(old(AccountFor(user)), old(seed)), events, user).account.raw;
              raw.Some? ==>
                && OnDisk(user) == Some(Ok(raw.value))
                && resp == (if Parse(raw.value).Ok? then Verified(Parse(raw.value).value) else Failed)
    {
      hide Parse, RunView, KeepsProfile, Grown, SealsThenOpens;
      SealedKeyOpens(c, m0, steps, Files(user).envelope.value.key, inputs, systemd, x, y);
      resp := Recover(events, user, passphrase, x, y);
    }

    /** Events of others, restarts and TPM clears leave a user's contents alone, so Recover brings back
        what the file held when the passphrase was saved. */
    lemma {:induction false} QuietRunKeepsContents(v: View, events: seq<Event>, user: string)
      requires forall e <- events :: !(e.Serve? && e.user == user)
      ensures KeepsProfile(v, events, user)
      ensures var a := RunView(v, events, user).account; a.(cached := v.account.cached) == v.account
    {
      if events != [] {
        QuietRunKeepsContents(v, events[..|events| - 1], user);
      }
    }

    /**
     Enrollment history, for a user without files: after any run the embedding file decrypts and parses
     to what was kept of the captures, which is all of them exactly when no append ran with an unreadable
     file, and the count read off the ciphertext's length is their number.
     */
    method EnrollmentHistoryOnDisk(events: seq<Event>, user: string) returns (n: nat)
      requires Valid() && AccountFor(user) == NOBODY
      modifies this
      ensures Valid()
      ensures var v := View(NOBODY, old(seed));
              var kept := Kept(v, events, user);
              && n == |kept|
              && (kept == [] ==> OnDisk(user) == None)
              && (kept != [] ==>
                    && Files(user).embedding.Some?
                    && Files(user).embedding.value.Length() == NONCE_LEN + STRIDE_BYTES * n + TAG_LEN
                    && OnDisk(user) == Some(Ok(SampleBytes(kept))) && Parse(SampleBytes(kept)) == Ok(kept))
              && (kept == Captures(v, events, user) <==> AppendsCouldRead(v, events, user))
    {
      hide Kept, Captures, AppendsCouldRead, RunView, Parse, SampleBytes;
      ghost var v := View(NOBODY, seed);
      HistoryIsStored(v, events, user);
      KeptIsSuffix(v, events, user);
      ParseRoundTrip(Kept(v, events, user));
      ServeAll(events);
      StoredIsOnDisk(user);
      n := ProfileSampleCount(user);
    }
  }
}
