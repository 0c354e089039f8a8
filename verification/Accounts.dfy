/**
 The template-key lifecycle as a user sees it: one key, one recovery passphrase, one stored
 embedding. The daemon keeps up to four copies of that key; module Daemon proves they agree by
 proving that it behaves like this.
 */
module Accounts {
  import opened Wrappers
  import opened Hex
  import opened Crypto
  import opened Embeddings

  datatype Account = Account(
    key: Option<Key>,              // the template key, once one was minted
    sealedOn: nat,                 // the TPM seed its envelope was sealed under
    cached: bool,                  // whether the running daemon holds it in memory
    passphrase: Option<seq<byte>>, // the recovery passphrase last saved
    raw: Option<seq<byte>>,        // contents of the encrypted embedding file
    legacy: Option<seq<byte>>)     // a plaintext embedding file from an older version

  const NOBODY: Account := Account(None, 0, false, None, None, None)

  /** What a request depends on besides its arguments: whether the TPM unseals and seals right now,
      whether key and data files can be written and data files read, the opt-in for migrating a
      plaintext template, and the random values it would draw. */
  datatype Chance = Chance(unsealOk: bool, sealOk: bool, keyWrite: bool, dataWrite: bool, dataRead: bool, migrate: bool,
                           newKey: Key, nonce: Nonce, salt: Salt)

  datatype Request =
    | Enroll(capture: Option<Sample>, reset: bool)
    | Verify(bindingOk: bool)
    | Reseal
    | SaveRecovery(passphrase: seq<byte>)
    | RestoreFromRecovery(passphrase: seq<byte>)
    | DeleteProfile(removable: bool)

  datatype Response =
    | Failed
    | Enrolled(samples: nat)
    | Verified(templates: seq<Sample>)
    | Resealed
    | RecoverySaved
    | RecoveryRestored
    | ProfileDeleted(samples: nat)

  /** Whether the TPM gives the key back from its envelope. */
  predicate Opens(a: Account, seed: nat, x: Chance) {
    a.key.Some? && a.sealedOn == seed && x.unsealOk
  }

  /** The account after asking for the key, and the key if there is one to be had: from the cache,
      else from the envelope, else newly minted; an envelope that does not open mints nothing. */
  function Obtain(a: Account, seed: nat, x: Chance): (r: (Account, Option<Key>))
    ensures a.key.Some? ==> r.0.key == a.key && r.1 in {None, a.key}
  {
    if a.key.Some? && a.cached then (a, a.key)
    else if a.key.Some? then
      if Opens(a, seed, x) then (a.(cached := true), a.key) else (a, None)
    else if x.sealOk && x.keyWrite then
      (a.(key := Some(x.newKey), sealedOn := seed, cached := true), Some(x.newKey))
    else (a, None)
  }

  /** The account after reading the embedding, and its contents. */
  function ReadRaw(a: Account, x: Chance): (Account, Option<seq<byte>>) {
    if a.raw.Some? then (a, if x.dataRead then a.raw else None)
    else if a.legacy.Some? && x.migrate && x.dataRead && x.dataWrite then
      (a.(raw := a.legacy, legacy := None), a.legacy)
    else (a, None)
  }

  predicate IsEnrolled(a: Account) {
    a.raw.Some? || a.legacy.Some?
  }

  function StoredSamples(a: Account): nat {
    match a.raw
    case Some(raw) => |raw| / STRIDE_BYTES
    case None => if a.legacy.Some? then |a.legacy.value| / STRIDE_BYTES else 0
  }

  function EnrollStep(a: Account, seed: nat, x: Chance, capture: Option<Sample>, reset: bool): (Account, Response) {
    if capture.None? then (a, Failed)
    else
      var (a1, key) := Obtain(a, seed, x);
      if key.None? then (a1, Failed)
      else
        var (a2, raw) := if reset then (a1, None) else ReadRaw(a1, x);
        var all := (if raw.Some? then raw.value else []) + WordBytes(capture.value);
        if !x.dataWrite then (a2, Failed)
        else (a2.(raw := Some(all), legacy := None), Enrolled(|all| / STRIDE_BYTES))
  }

  function VerifyStep(a: Account, seed: nat, x: Chance, bindingOk: bool): (Account, Response) {
    if !bindingOk then (a, Failed)
    else
      var (a1, key) := Obtain(a, seed, x);
      if key.None? then (a1, Failed)
      else
        var (a2, raw) := ReadRaw(a1, x);
        if raw.None? then (a2, Failed)
        else
          var samples := Parse(raw.value);
          (a2, if samples.Ok? then Verified(samples.value) else Failed)
  }

  function Step(a: Account, seed: nat, x: Chance, req: Request): (Account, Response) {
    match req
    case Enroll(capture, reset) => EnrollStep(a, seed, x, capture, reset)
    case Verify(bindingOk) => VerifyStep(a, seed, x, bindingOk)
    case Reseal =>
      if Opens(a, seed, x) && x.sealOk && x.keyWrite then (a.(sealedOn := seed, cached := false), Resealed)
      else (a, Failed)
    case SaveRecovery(passphrase) =>
      if Opens(a, seed, x) && passphrase != [] && x.keyWrite then (a.(passphrase := Some(passphrase)), RecoverySaved)
      else (a, Failed)
    case RestoreFromRecovery(passphrase) =>
      if a.passphrase == Some(passphrase) && x.dataRead && x.sealOk && x.keyWrite then
        (a.(sealedOn := seed, cached := false), RecoveryRestored)
      else (a, Failed)
    case DeleteProfile(removable) =>
      if IsEnrolled(a) && removable then (NOBODY, ProfileDeleted(StoredSamples(a))) else (a, Failed)
  }

  /** An account that can exist: everything else hangs on the key. */
  predicate Sound(a: Account) {
    && (a.key.None? ==> !a.cached && a.passphrase.None? && a.raw.None? && a.sealedOn == 0)
    && (a.passphrase.Some? ==> a.passphrase.value != [])
  }

  // ---------- runs ----------

  datatype Event = Serve(user: string, request: Request, chance: Chance) | Restart | TpmClear(seed: nat)

  /** One user's account together with the TPM's present seed. */
  datatype View = View(account: Account, seed: nat)

  /** What an event does to one user, and that user's answer if it was theirs. */
  function Advance(v: View, e: Event, user: string): (View, Response) {
    match e
    case Serve(u, req, x) =>
      if u != user then (v, Failed)
      else
        var (a, resp) := Step(v.account, v.seed, x, req);
        (v.(account := a), resp)
    case Restart => (v.(account := v.account.(cached := false)), Failed)
    case TpmClear(seed) => (v.(seed := seed), Failed)
  }

  function RunView(v: View, events: seq<Event>, user: string): View {
    if events == [] then v
    else Advance(RunView(v, events[..|events| - 1], user), events[|events| - 1], user).0
  }

  /** No event of the run deletes this user's profile. */
  predicate KeepsProfile(v: View, events: seq<Event>, user: string) {
    events == [] ||
    (var front, last := events[..|events| - 1], events[|events| - 1];
     KeepsProfile(v, front, user) && !Advance(RunView(v, front, user), last, user).1.ProfileDeleted?)
  }

  lemma AdvanceKeepsKey(v: View, e: Event, user: string)
    requires Sound(v.account)
    ensures var (v', resp) := Advance(v, e, user);
            && Sound(v'.account)
            && (v.account.key.Some? && !resp.ProfileDeleted? ==> v'.account.key == v.account.key)
            && (v.account.passphrase.Some? && !resp.ProfileDeleted? ==> v'.account.passphrase.Some?)
            && (resp.ProfileDeleted? ==> v'.account == NOBODY)
  {
    hide Parse, WordBytes;
  }

  /** Until a profile is deleted its key is never replaced: a run full of TPM clears, restarts and
      requests that fail to unseal mints no second key, and a saved recovery stays available. */
  lemma {:induction false} KeyNeverReplaced(v: View, events: seq<Event>, user: string)
    requires Sound(v.account) && KeepsProfile(v, events, user)
    ensures var v' := RunView(v, events, user);
            && Sound(v'.account)
            && (v.account.key.Some? ==> v'.account.key == v.account.key)
            && (v.account.passphrase.Some? ==> v'.account.passphrase.Some?)
  {
    if events != [] {
      var front := events[..|events| - 1];
      KeyNeverReplaced(v, front, user);
      AdvanceKeepsKey(RunView(v, front, user), events[|events| - 1], user);
    }
  }

  // ---------- what is answered, and when ----------

  /** The key is to be had: from the running daemon, or from an envelope that opens. */
  predicate KeyAtHand(a: Account, seed: nat, x: Chance) {
    a.key.Some? && (a.cached || Opens(a, seed, x))
  }

  /** A passphrase is saved exactly when the key opens, it is not empty and its file can be written. */
  lemma SaveAnswers(a: Account, seed: nat, x: Chance, p: seq<byte>)
    ensures var (a', resp) := Step(a, seed, x, SaveRecovery(p));
            && (resp == RecoverySaved <==> Opens(a, seed, x) && p != [] && x.keyWrite)
            && (resp == RecoverySaved ==> a' == a.(passphrase := Some(p)))
            && (resp != RecoverySaved ==> resp == Failed && a' == a)
  {
  }

  /** A verify matches against what is stored, or nothing: never without the camera binding, the key, and a file
      that can be read. */
  lemma VerifyAnswers(a: Account, seed: nat, x: Chance, bindingOk: bool)
    requires Sound(a) && a.raw.Some?
    ensures var resp := Step(a, seed, x, Verify(bindingOk)).1;
            && (resp.Verified? <==>
                  bindingOk && KeyAtHand(a, seed, x) && x.dataRead && Parse(a.raw.value).Ok?)
            && (resp.Verified? ==> resp == Verified(Parse(a.raw.value).value))
            && (!resp.Verified? ==> resp == Failed)
  {
    hide Parse;
  }

  /** A plaintext template from an older version is not trusted: without the opt-in no verify matches against it
      and it stays as it is; with it, it is taken over once, encrypted, and the plaintext is gone. */
  lemma LegacyNeedsOptIn(a: Account, seed: nat, x: Chance)
    requires Sound(a) && a.raw.None? && a.legacy.Some?
    ensures var (a', resp) := Step(a, seed, x, Verify(true));
            && (!x.migrate ==> resp == Failed && a'.raw.None? && a'.legacy == a.legacy)
            && (resp.Verified? ==> x.migrate && a'.raw == a.legacy && a'.legacy.None?)
            && (x.migrate && x.dataRead && x.dataWrite && KeyAtHand(a, seed, x) && Parse(a.legacy.value).Ok? ==>
                  resp == Verified(Parse(a.legacy.value).value))
  {
    hide Parse;
  }

  /** A reseal needs the envelope to open, and leaves it opening on the present TPM with nothing in memory. */
  lemma ResealAnswers(a: Account, seed: nat, x: Chance)
    ensures var (a', resp) := Step(a, seed, x, Reseal);
            && (resp == Resealed <==> Opens(a, seed, x) && x.sealOk && x.keyWrite)
            && (resp == Resealed ==> a'.key == a.key && a'.sealedOn == seed && !a'.cached)
            && (resp != Resealed ==> resp == Failed && a' == a)
  {
  }

  /** An enrolled profile that can be removed is deleted, and then nothing answers for it: no passphrase
      restores, no verify matches and no captures are left. */
  lemma DeleteForgets(a: Account, seed: nat, x: Chance, removable: bool, q: seq<byte>, y: Chance)
    ensures var (a', resp) := Step(a, seed, x, DeleteProfile(removable));
            && (resp.ProfileDeleted? <==> removable && (a.raw.Some? || a.legacy.Some?))
            && (!resp.ProfileDeleted? ==> resp == Failed && a' == a)
            && (resp.ProfileDeleted? ==>
                  && Step(a', seed, y, RestoreFromRecovery(q)).1 == Failed
                  && !Step(a', seed, y, Verify(true)).1.Verified?
                  && a'.key.None? && StoredSamples(a') == 0)
  {
    hide Parse;
  }

  /** A key that is neither in memory nor sealed on the present TPM is out of reach, whatever else works: only a
      restore brings it back. */
  lemma LockedOut(a: Account, seed: nat, x: Chance, capture: Option<Sample>, reset: bool, p: seq<byte>)
    requires a.key.Some? && !a.cached && a.sealedOn != seed
    ensures Step(a, seed, x, Verify(true)).1 == Failed
    ensures Step(a, seed, x, Enroll(capture, reset)).1 == Failed
    ensures Step(a, seed, x, Reseal).1 == Failed && Step(a, seed, x, SaveRecovery(p)).1 == Failed
  {
    hide Parse, WordBytes;
  }

  /** A restart on a TPM cleared to another seed locks a user out. */
  lemma ClearedAndRestarted(v: View, user: string, seed: nat)
    requires v.account.key.Some? && v.account.sealedOn != seed
    ensures var a := RunView(v, [TpmClear(seed), Restart], user).account;
            a.key == v.account.key && !a.cached && a.sealedOn != RunView(v, [TpmClear(seed), Restart], user).seed
  {
    var events := [TpmClear(seed), Restart];
    assert events[..1] == [TpmClear(seed)] && [TpmClear(seed)][..0] == [];
    assert RunView(v, [TpmClear(seed)], user) == v.(seed := seed);
  }

  // ---------- recovery ----------

  /** No event of the run saves another passphrase for this user. */
  predicate SavesNoOther(v: View, events: seq<Event>, user: string) {
    events == [] ||
    (var front, last := events[..|events| - 1], events[|events| - 1];
     SavesNoOther(v, front, user) && Advance(RunView(v, front, user), last, user).1 != RecoverySaved)
  }

  lemma {:induction false} PassphraseKept(v: View, events: seq<Event>, user: string)
    requires Sound(v.account) && KeepsProfile(v, events, user) && SavesNoOther(v, events, user)
    ensures RunView(v, events, user).account.passphrase == v.account.passphrase
  {
    if events != [] {
      var front, last := events[..|events| - 1], events[|events| - 1];
      PassphraseKept(v, front, user);
      AdvanceKeepsPassphrase(RunView(v, front, user), last, user);
    }
  }

  lemma AdvanceKeepsPassphrase(v: View, e: Event, user: string)
    ensures var (v', resp) := Advance(v, e, user);
            !resp.ProfileDeleted? && resp != RecoverySaved ==> v'.account.passphrase == v.account.passphrase
  {
    hide Parse, WordBytes;
  }

  /**
   The passphrase that restores is the one the user saved: after a successful save of p, and any run that
   keeps the profile and saves no other, restoring with q answers `RecoveryRestored`, files and TPM permitting,
   if and only if q is p.
   */
  lemma SavedPassphraseRestores(v: View, p: seq<byte>, x: Chance, events: seq<Event>, user: string, q: seq<byte>,
                                y: Chance)
    requires Sound(v.account) && Step(v.account, v.seed, x, SaveRecovery(p)).1 == RecoverySaved
    requires var v1 := v.(account := Step(v.account, v.seed, x, SaveRecovery(p)).0);
             KeepsProfile(v1, events, user) && SavesNoOther(v1, events, user)
    requires y.dataRead && y.sealOk && y.keyWrite
    ensures var v1 := v.(account := Step(v.account, v.seed, x, SaveRecovery(p)).0);
            var v2 := RunView(v1, events, user);
            Step(v2.account, v2.seed, y, RestoreFromRecovery(q)).1 == RecoveryRestored <==> q == p
  {
    hide RunView, KeepsProfile, SavesNoOther;
    SaveAnswers(v.account, v.seed, x, p);
    var v1 := v.(account := Step(v.account, v.seed, x, SaveRecovery(p)).0);
    PassphraseKept(v1, events, user);
  }

  /**
   Recovery: once a passphrase was saved, then after any run that keeps the profile, with any
   number of TPM clears, restoring with the passphrase on file and verifying reads back exactly
   the embedding contents the file held, under the key it was encrypted with.
   */
  lemma RecoveryRestoresTemplates(v: View, events: seq<Event>, user: string, x: Chance, y: Chance)
    requires Sound(v.account) && v.account.passphrase.Some? && KeepsProfile(v, events, user)
    requires x.dataRead && x.sealOk && x.keyWrite && y.unsealOk && y.dataRead
    ensures var v' := RunView(v, events, user);
            && v'.account.key == v.account.key && v'.account.passphrase.Some?
            && var (a, restored) := Step(v'.account, v'.seed, x, RestoreFromRecovery(v'.account.passphrase.value));
               && restored == RecoveryRestored
               && var (a', verified) := Step(a, v'.seed, y, Verify(true));
                  && a'.key == v.account.key && a'.cached
                  && (v'.account.raw.Some? ==> a'.raw == v'.account.raw)
                  && (v'.account.raw.Some? && Parse(v'.account.raw.value).Ok? ==>
                        verified == Verified(Parse(v'.account.raw.value).value))
  {
    KeyNeverReplaced(v, events, user);
  }

  // ---------- enrollment history ----------

  /** The captures a user's answered requests should have left enrolled, in order. */
  function Captures(v: View, events: seq<Event>, user: string): seq<Sample> {
    if events == [] then []
    else
      var front, last := events[..|events| - 1], events[|events| - 1];
      var resp := Advance(RunView(v, front, user), last, user).1;
      if resp.ProfileDeleted? then []
      else if IsEnrolment(last, resp) then
        (if last.request.reset then [] else Captures(v, front, user)) + [last.request.capture.value]
      else Captures(v, front, user)
  }

  /** An event that its user was told had enrolled a capture. */
  predicate IsEnrolment(e: Event, resp: Response) {
    resp.Enrolled? && e.Serve? && e.request.Enroll? && e.request.capture.Some?
  }

  /** The captures they do leave enrolled: an append that cannot read the file starts over. */
  function Kept(v: View, events: seq<Event>, user: string): seq<Sample> {
    if events == [] then []
    else
      var front, last := events[..|events| - 1], events[|events| - 1];
      var resp := Advance(RunView(v, front, user), last, user).1;
      if resp.ProfileDeleted? then []
      else if IsEnrolment(last, resp) then
        (if last.request.reset || !last.chance.dataRead then [] else Kept(v, front, user))
        + [last.request.capture.value]
      else Kept(v, front, user)
  }

  /** Since the last reset or deletion, no successful append ran while captures were enrolled and the
      file could not be read. */
  predicate AppendsCouldRead(v: View, events: seq<Event>, user: string) {
    events == [] ||
    (var front, last := events[..|events| - 1], events[|events| - 1];
     var resp := Advance(RunView(v, front, user), last, user).1;
     if resp.ProfileDeleted? then true
     else if IsEnrolment(last, resp) then
       last.request.reset ||
       (AppendsCouldRead(v, front, user) && (last.chance.dataRead || Captures(v, front, user) == []))
     else AppendsCouldRead(v, front, user))
  }

  /** What is kept is the end of the history, and all of it exactly when the appends could read. */
  lemma {:induction false} KeptIsSuffix(v: View, events: seq<Event>, user: string)
    ensures var all, kept := Captures(v, events, user), Kept(v, events, user);
            && |kept| <= |all| && kept == all[|all| - |kept|..]
            && (|kept| == |all| <==> AppendsCouldRead(v, events, user))
            && (kept == [] <==> all == [])
  {
    if events != [] {
      var front, last := events[..|events| - 1], events[|events| - 1];
      KeptIsSuffix(v, front, user);
      var resp := Advance(RunView(v, front, user), last, user).1;
      if IsEnrolment(last, resp) {
        hide Advance, RunView;
        var all, kept, capture := Captures(v, front, user), Kept(v, front, user), last.request.capture.value;
        assert (all + [capture])[|all| - |kept|..] == kept + [capture];
        assert (all + [capture])[|all|..] == [capture];
      }
    }
  }

  /** The embedding file holds exactly `samples`; no samples means no file. */
  predicate Holds(a: Account, samples: seq<Sample>) {
    && a.legacy.None?
    && a.raw == if samples == [] then None else Some(SampleBytes(samples))
  }

  /** A successful enrolment adds its capture at the end, or starts over after a reset or when the stored
      captures cannot be read; a failed one leaves them alone. */
  lemma EnrollAppends(a: Account, seed: nat, x: Chance, capture: Option<Sample>, reset: bool, samples: seq<Sample>)
    requires Sound(a) && Holds(a, samples)
    ensures var (a', resp) := EnrollStep(a, seed, x, capture, reset);
            && (resp.Enrolled? ==>
                  && capture.Some?
                  && var now := (if reset || !x.dataRead then [] else samples) + [capture.value];
                     Holds(a', now) && resp == Enrolled(|now|))
            && (!resp.Enrolled? ==> resp.Failed? && Holds(a', samples))
  {
    if capture.Some? {
      SampleBytesAppend(samples, capture.value);
      SampleBytesAppend([], capture.value);
      assert [] + [capture.value] == [capture.value];
      assert SampleBytes([]) + WordBytes(capture.value) == WordBytes(capture.value);
    }
  }

  /** From a user without files, what is stored after any run is what was kept of the captures. */
  lemma {:induction false} HistoryIsStored(v: View, events: seq<Event>, user: string)
    requires v.account == NOBODY
    ensures Sound(RunView(v, events, user).account)
    ensures Holds(RunView(v, events, user).account, Kept(v, events, user))
  {
    hide Parse, WordBytes, SampleBytes, EnrollStep;
    if events != [] {
      var front, last := events[..|events| - 1], events[|events| - 1];
      HistoryIsStored(v, front, user);
      var v1 := RunView(v, front, user);
      AdvanceKeepsKey(v1, last, user);
      if last.Serve? && last.user == user && last.request.Enroll? {
        EnrollAppends(v1.account, v1.seed, last.chance, last.request.capture, last.request.reset, Kept(v, front, user));
      }
    }
  }

  lemma SampleBytesInjective(a: seq<Sample>, b: seq<Sample>)
    ensures SampleBytes(a) == SampleBytes(b) ==> a == b
  {
    ChunksRoundTrip(a);
    ChunksRoundTrip(b);
  }

  /**
   Enrollment history: after any run from a user without files, the file holds the history of captures
   since the last reset or delete if and only if no append since then ran with an unreadable file. A
   verify that gets the key and can read returns what is held, one 512-vector per capture, in order.
   */
  lemma EnrollmentHistory(v: View, events: seq<Event>, user: string, x: Chance)
    requires v.account == NOBODY
    ensures var a, seed, kept := RunView(v, events, user).account, RunView(v, events, user).seed, Kept(v, events, user);
            && (Holds(a, Captures(v, events, user)) <==> AppendsCouldRead(v, events, user))
            && StoredSamples(a) == |kept|
            && (a.raw.Some? <==> kept != [])
            && (a.key.Some? && (a.cached || Opens(a, seed, x)) && x.dataRead && kept != [] ==>
                  Step(a, seed, x, Verify(true)).1 == Verified(kept))
  {
    hide Captures, Kept, AppendsCouldRead, RunView;
    HistoryIsStored(v, events, user);
    KeptIsSuffix(v, events, user);
    ParseRoundTrip(Kept(v, events, user));
    SampleBytesInjective(Kept(v, events, user), Captures(v, events, user));
  }

  /** Captures are lost: enrolled twice, the second time with an unreadable file, the user is told of a
      success and has one capture left. */
  lemma UnreadableFileLosesCaptures(seed: nat, user: string, first: Sample, second: Sample, x: Chance)
    requires x.sealOk && x.keyWrite && x.dataWrite
    ensures var v := View(NOBODY, seed);
            var events := [Serve(user, Enroll(Some(first), false), x),
                           Serve(user, Enroll(Some(second), false), x.(dataRead := false))];
            && Advance(RunView(v, events[..1], user), events[1], user).1 == Enrolled(1)
            && Captures(v, events, user) == [first, second]
            && Holds(RunView(v, events, user).account, [second])
  {
    hide WordBytes;
    var v := View(NOBODY, seed);
    var e1 := Serve(user, Enroll(Some(first), false), x);
    var e2 := Serve(user, Enroll(Some(second), false), x.(dataRead := false));
    var events := [e1, e2];
    assert events[..1] == [e1] && [e1][..0] == [];
    var a1 := Advance(v, e1, user).0.account;
    assert RunView(v, [e1], user) == View(a1, seed);
    assert Captures(v, [e1], user) == [first];
    SampleBytesAppend([], second);
    assert [] + [second] == [second];
    assert SampleBytes([]) + WordBytes(second) == WordBytes(second);
    assert |WordBytes(first)| == |WordBytes(second)| == STRIDE_BYTES;
  }
}
