/**
 Whole runs of a machine that seals, unseals, reboots into arbitrary PCR states, has its TPM
 cleared and its envelope files rewritten at will.
 */
module SealRuns {
  import opened Wrappers
  import opened Hex
  import opened Suite
  import opened PcrSig
  import opened Sealing
  import P = Policy

  datatype Machine = Machine(tpm: TpmState, secureBoot: bool, files: HostFiles, envs: map<string, SealedEnvelope>)

  datatype Step =
    | Boot(secureBoot: bool, bank: map<nat, seq<byte>>)
    | SealStep(id: string, secret: seq<byte>, inputs: SealInputs, stored: bool)
    | UnsealStep(id: string, systemd: Result<seq<PcrSignature>>, heals: bool)
    | TpmClear(seed: nat)
    | Edit(id: string, env: SealedEnvelope)

  function Next(c: Suite, m: Machine, step: Step): Machine {
    match step
    case Boot(sb, bank) => m.(secureBoot := sb, tpm := m.tpm.(bank := bank))
    case SealStep(id, secret, x, stored) =>
      var (f, env) := SealSecret(c, m.tpm, m.secureBoot, m.files, secret, x);
      m.(files := f, envs := if env.Ok? && stored then m.envs[id := env.value] else m.envs)
    case UnsealStep(id, systemd, heals) =>
      if id !in m.envs then m
      else m.(files := Unseal(c, m.tpm, m.secureBoot, m.files, systemd, m.envs[id], heals).0)
    case TpmClear(seed) => m.(tpm := m.tpm.(seed := seed, slot := Empty))
    case Edit(id, env) => m.(envs := m.envs[id := env])
  }

  function Run(c: Suite, m: Machine, steps: seq<Step>): Machine {
    if steps == [] then m
    else Next(c, Run(c, m, steps[..|steps| - 1]), steps[|steps| - 1])
  }

  /** The host's signatures on file; none when the file cannot be read. */
  function Signed(f: HostFiles): seq<PcrSignature> {
    var sigs := HostSignatures(f.sigs, DEFAULT_BANK);
    if sigs.Ok? then sigs.value else []
  }

  function Pcr7Policy(c: Suite, m: Machine): seq<byte> {
    CurrentPolicy(c, m.tpm, P.LINHELLO_SIGNED_PCRS)
  }

  // ---------- one step ----------

  /** The files a step may leave: unchanged; with a new key pair, only where there was no public
      key; or with one signature, over the present PCR-7 policy, and only under Secure Boot. */
  ghost predicate FilesStep(c: Suite, m: Machine, f: HostFiles, policyRef: seq<byte>) {
    var approved := Pcr7Policy(c, m);
    || f == m.files
    || EnsureSigned(c, m.files, P.LINHELLO_SIGNED_PCRS, approved, AHash(c, approved, policyRef)) == Ok(f)
  }

  /** The key half of a step. */
  function AfterKey(c: Suite, m: Machine, step: Step): HostFiles {
    if step.SealStep? then PlanFor(c, m.secureBoot, m.files, step.inputs).0 else m.files
  }

  /** The reference a step's signature would be made under. */
  function StepRef(m: Machine, step: Step): seq<byte> {
    if step.UnsealStep? && step.id in m.envs && m.envs[step.id].policy.AuthorizedBy? then
      m.envs[step.id].policy.policyRef
    else []
  }

  /** A signature over PCR 7 is one over the present PCR-7 policy. */
  lemma SignaturePolicy(c: Suite, t: TpmState, f: HostFiles, policyRef: seq<byte>)
    ensures var approved := CurrentPolicy(c, t, P.LINHELLO_SIGNED_PCRS);
            EnsureSignature(c, t, f, P.LINHELLO_SIGNED_PCRS, policyRef) ==
            EnsureSigned(c, f, P.LINHELLO_SIGNED_PCRS, approved, AHash(c, approved, policyRef))
  {
  }

  lemma SealFiles(c: Suite, m: Machine, secret: seq<byte>, x: SealInputs)
    ensures var f := PlanFor(c, m.secureBoot, m.files, x).0;
            var f' := SealSecret(c, m.tpm, m.secureBoot, m.files, secret, x).0;
            && FilesStep(c, m.(files := f), f', [])
            && (f' != f ==> m.secureBoot)
  {
    hide FindForPolicy, HostSignatures, PolicyPcr, PolicyAuthorized, AHash, NameOf, EnsureSigned;
    var (f, plan) := PlanFor(c, m.secureBoot, m.files, x);
    if plan.Authorized? && plan.pcrs == P.LINHELLO_SIGNED_PCRS {
      SignaturePolicy(c, m.tpm, f, []);
    } else if plan.Authorized? {
      assert ClassifySigner(c, f.pub, plan.pubkeyPem) == Ok(Systemd);
    }
  }

  lemma UnsealFiles(c: Suite, m: Machine, systemd: Result<seq<PcrSignature>>, env: SealedEnvelope, heals: bool)
    ensures var f' := Unseal(c, m.tpm, m.secureBoot, m.files, systemd, env, heals).0;
            && FilesStep(c, m, f', if env.policy.AuthorizedBy? then env.policy.policyRef else [])
            && (f' != m.files ==> m.secureBoot)
  {
    if env.policy.AuthorizedBy? {
      SignaturePolicy(c, m.tpm, m.files, env.policy.policyRef);
    }
  }

  /** Every step changes the files by its key half, then by at most one signature, and signs only
      with Secure Boot on. */
  lemma StepFiles(c: Suite, m: Machine, step: Step)
    ensures var f := AfterKey(c, m, step);
            && FilesStep(c, m.(files := f), Next(c, m, step).files, StepRef(m, step))
            && (Next(c, m, step).files != f ==> m.secureBoot && (step.SealStep? || step.UnsealStep?))
            && (f == m.files || (m.files.pub.None? && f.sigs == m.files.sigs))
  {
    match step
    case SealStep(_, secret, x, _) => SealFiles(c, m, secret, x);
    case UnsealStep(id, systemd, heals) =>
      if id in m.envs {
        UnsealFiles(c, m, systemd, m.envs[id], heals);
      }
    case _ =>
  }

  // ---------- what every run keeps ----------

  /** The signature file stays readable and only ever grows. */
  lemma StepExtends(c: Suite, m: Machine, step: Step)
    requires HostSignatures(m.files.sigs, DEFAULT_BANK).Ok?
    ensures HostSignatures(Next(c, m, step).files.sigs, DEFAULT_BANK).Ok?
    ensures Extends(Signed(Next(c, m, step).files), Signed(m.files))
  {
    StepFiles(c, m, step);
    var f := AfterKey(c, m, step);
    var f' := Next(c, m, step).files;
    if f' != f {
      var approved := Pcr7Policy(c, m);
      SigningOnlyAdds(c, f, P.LINHELLO_SIGNED_PCRS, approved, AHash(c, approved, StepRef(m, step)));
    }
  }

  /**
   Signature store: over any run the file stays readable, every lookup that ever succeeded keeps
   its answer, and there is one entry per (PCR list, digest).
   */
  lemma {:induction false} StoreOnlyGrows(c: Suite, m: Machine, steps: seq<Step>)
    requires HostSignatures(m.files.sigs, DEFAULT_BANK).Ok?
    ensures HostSignatures(Run(c, m, steps).files.sigs, DEFAULT_BANK).Ok?
    ensures Extends(Signed(Run(c, m, steps).files), Signed(m.files))
  {
    if steps != [] {
      StoreOnlyGrows(c, m, steps[..|steps| - 1]);
      StepExtends(c, Run(c, m, steps[..|steps| - 1]), steps[|steps| - 1]);
    }
  }

  /** The host key is generated once: with a public key on file, no run changes either half. */
  lemma {:induction false} HostKeyNeverReplaced(c: Suite, m: Machine, steps: seq<Step>)
    requires m.files.pub.Some?
    ensures Run(c, m, steps).files.pub == m.files.pub && Run(c, m, steps).files.key == m.files.key
  {
    if steps != [] {
      var m' := Run(c, m, steps[..|steps| - 1]);
      HostKeyNeverReplaced(c, m, steps[..|steps| - 1]);
      StepFiles(c, m', steps[|steps| - 1]);
      StepKeepsKeys(c, m', steps[|steps| - 1]);
    }
  }

  lemma StepKeepsKeys(c: Suite, m: Machine, step: Step)
    ensures Next(c, m, step).files.key == AfterKey(c, m, step).key
    ensures Next(c, m, step).files.pub == AfterKey(c, m, step).pub
  {
    StepFiles(c, m, step);
    var f := AfterKey(c, m, step);
    var approved := Pcr7Policy(c, m);
    if Next(c, m, step).files != f {
      SigningOnlyAdds(c, f, P.LINHELLO_SIGNED_PCRS, approved, AHash(c, approved, StepRef(m, step)));
    }
  }

  // ---------- no blessing with Secure Boot off ----------

  predicate OnFile(f: HostFiles, digest: seq<byte>) {
    FindForPolicy(Signed(f), P.LINHELLO_SIGNED_PCRS, digest).Some?
  }

  /** This step put a signature over `digest` on file, while Secure Boot was on and `digest` was the
      PCR-7 policy of that moment. */
  ghost predicate Blesses(c: Suite, m: Machine, step: Step, digest: seq<byte>) {
    m.secureBoot && Pcr7Policy(c, m) == digest && !OnFile(m.files, digest) && OnFile(Next(c, m, step).files, digest)
  }

  /** Some step of the run did. */
  ghost predicate BlessedInRun(c: Suite, m: Machine, steps: seq<Step>, digest: seq<byte>) {
    steps != [] &&
    var front, last := steps[..|steps| - 1], steps[|steps| - 1];
    BlessedInRun(c, m, front, digest) || Blesses(c, Run(c, m, front), last, digest)
  }

  /** A signature that a step adds is a blessing by that step. */
  lemma NewSignatureBlesses(c: Suite, m: Machine, step: Step, s: PcrSignature)
    requires HostSignatures(m.files.sigs, DEFAULT_BANK).Ok?
    requires s in Signed(Next(c, m, step).files) && s !in Signed(m.files)
    ensures s.pcrs == P.LINHELLO_SIGNED_PCRS && Blesses(c, m, step, s.pol)
  {
    StepFiles(c, m, step);
    var approved := Pcr7Policy(c, m);
    SigningOnlyAdds(c, AfterKey(c, m, step), P.LINHELLO_SIGNED_PCRS, approved, AHash(c, approved, StepRef(m, step)));
  }

  /** Every signature on file was made under Secure Boot, over the PCR-7 policy of that moment. */
  lemma {:induction false} SignaturesAreBlessings(c: Suite, m: Machine, steps: seq<Step>, s: PcrSignature)
    requires HostSignatures(m.files.sigs, DEFAULT_BANK) == Ok([])
    requires s in Signed(Run(c, m, steps).files)
    ensures s.pcrs == P.LINHELLO_SIGNED_PCRS && BlessedInRun(c, m, steps, s.pol)
  {
    var front, last := steps[..|steps| - 1], steps[|steps| - 1];
    if s in Signed(Run(c, m, front).files) {
      SignaturesAreBlessings(c, m, front, s);
    } else {
      StoreOnlyGrows(c, m, front);
      NewSignatureBlesses(c, Run(c, m, front), last, s);
    }
  }

  /**
   No blessing with Secure Boot off: from a machine with no signatures, after any run at all
   (envelope rewrites included), a host-signed envelope unseals with Secure Boot off only if the
   present PCR-7 policy digest was signed by an earlier step that ran with Secure Boot on.
   */
  lemma NoBlessingWithSecureBootOff(c: Suite, m: Machine, steps: seq<Step>, env: SealedEnvelope,
                                    systemd: Result<seq<PcrSignature>>, heals: bool)
    requires HostSignatures(m.files.sigs, DEFAULT_BANK) == Ok([])
    requires var m' := Run(c, m, steps);
             && !m'.secureBoot
             && env.policy.AuthorizedBy?
             && ClassifySigner(c, m'.files.pub, env.policy.pubkeyPem) == Ok(LinhelloHost)
             && Unseal(c, m'.tpm, m'.secureBoot, m'.files, systemd, env, heals).1.Ok?
    ensures BlessedInRun(c, m, steps, Pcr7Policy(c, Run(c, m, steps)))
  {
    var m' := Run(c, m, steps);
    var s := FindForPolicy(Signed(m'.files), env.pcrs, Pcr7Policy(c, m'));
    SignaturesAreBlessings(c, m, steps, s.value);
  }

  // ---------- self-heal ----------

  /** A key pair on file is a generated one. */
  ghost predicate GoodKeys(c: Suite, f: HostFiles) {
    f.pub.Some? ==> f.key.Some? && f.pub == Some(c.pemOf(f.key.value)) && c.Generated(f.key.value)
  }

  ghost predicate GeneratedKeys(c: Suite, steps: seq<Step>) {
    forall step <- steps :: step.SealStep? ==> c.Generated(step.inputs.newKey)
  }

  lemma {:induction false} RunKeepsKeys(c: Suite, m: Machine, steps: seq<Step>)
    requires GoodKeys(c, m.files) && GeneratedKeys(c, steps)
    ensures GoodKeys(c, Run(c, m, steps).files)
  {
    if steps != [] {
      RunKeepsKeys(c, m, steps[..|steps| - 1]);
      StepKeepsKeys(c, Run(c, m, steps[..|steps| - 1]), steps[|steps| - 1]);
    }
  }

  /** The key pair on file after k steps is the one on file at the end. */
  lemma {:induction false} KeyKept(c: Suite, m: Machine, steps: seq<Step>, k: nat)
    requires k <= |steps| && Run(c, m, steps[..k]).files.pub.Some?
    ensures Run(c, m, steps).files.pub == Run(c, m, steps[..k]).files.pub
    ensures Run(c, m, steps).files.key == Run(c, m, steps[..k]).files.key
  {
    if k < |steps| {
      var front := steps[..|steps| - 1];
      assert front[..k] == steps[..k];
      KeyKept(c, m, front, k);
      StepKeepsKeys(c, Run(c, m, front), steps[|steps| - 1]);
      StepFiles(c, Run(c, m, front), steps[|steps| - 1]);
    } else {
      assert steps[..k] == steps;
    }
  }

  /** The reference under which a run signed `digest`: that of the step that blessed it. */
  ghost function SignedUnder(c: Suite, m: Machine, steps: seq<Step>, digest: seq<byte>): Option<seq<byte>> {
    if steps == [] then None
    else
      var front, last := steps[..|steps| - 1], steps[|steps| - 1];
      var before := SignedUnder(c, m, front, digest);
      if before.Some? then before
      else if Blesses(c, Run(c, m, front), last, digest) then Some(StepRef(Run(c, m, front), last))
      else None
  }

  lemma {:induction false} SignedIsOnFile(c: Suite, m: Machine, steps: seq<Step>, digest: seq<byte>)
    requires HostSignatures(m.files.sigs, DEFAULT_BANK).Ok?
    requires SignedUnder(c, m, steps, digest).Some?
    ensures OnFile(Run(c, m, steps).files, digest)
  {
    var front, last := steps[..|steps| - 1], steps[|steps| - 1];
    if SignedUnder(c, m, front, digest).Some? {
      SignedIsOnFile(c, m, front, digest);
      StoreOnlyGrows(c, m, front);
      StepExtends(c, Run(c, m, front), last);
    }
  }

  /** What a signature a step adds is over. */
  lemma NewSignatureCovers(c: Suite, m: Machine, step: Step, s: PcrSignature)
    requires HostSignatures(m.files.sigs, DEFAULT_BANK).Ok?
    requires s in Signed(Next(c, m, step).files) && s !in Signed(m.files)
    ensures var f := Next(c, m, step).files;
            f.key.Some? && f.pub.Some? && s.sig == c.sign(f.key.value, AHash(c, s.pol, StepRef(m, step)))
  {
    hide HostSignatures, FindForPolicy, PolicyPcr, AHash, Next;
    StepFiles(c, m, step);
    StepKeepsKeys(c, m, step);
    var approved := Pcr7Policy(c, m);
    SigningOnlyAdds(c, AfterKey(c, m, step), P.LINHELLO_SIGNED_PCRS, approved, AHash(c, approved, StepRef(m, step)));
  }

  /**
   Every signature on file, after any run from a machine with none, is this host key's signature
   over its digest under the reference of the step that blessed it.
   */
  lemma {:induction false} SignatureExplained(c: Suite, m0: Machine, steps: seq<Step>, s: PcrSignature)
    requires HostSignatures(m0.files.sigs, DEFAULT_BANK) == Ok([])
    requires s in Signed(Run(c, m0, steps).files)
    ensures var f := Run(c, m0, steps).files;
            var under := SignedUnder(c, m0, steps, s.pol);
            f.key.Some? && f.pub.Some? && under.Some? && s.sig == c.sign(f.key.value, AHash(c, s.pol, under.value))
  {
    hide HostSignatures, FindForPolicy, PolicyPcr, AHash, Next;
    var front, last := steps[..|steps| - 1], steps[|steps| - 1];
    var m := Run(c, m0, front);
    if s in Signed(m.files) {
      SignatureExplained(c, m0, front, s);
      StepFiles(c, m, last);
      StepKeepsKeys(c, m, last);
    } else {
      StoreOnlyGrows(c, m0, front);
      NewSignatureBlesses(c, m, last, s);
      NewSignatureCovers(c, m, last, s);
      if SignedUnder(c, m0, front, s.pol).Some? {
        SignedIsOnFile(c, m0, front, s.pol);
        assert false;
      }
    }
  }

  /** An envelope as the host signer seals it, with its key still on file. */
  ghost predicate SealedByHost(c: Suite, f: HostFiles, env: SealedEnvelope) {
    && f.pub.Some? && f.key.Some? && c.Generated(f.key.value) && f.pub == Some(c.pemOf(f.key.value))
    && env.policy == AuthorizedBy(f.pub.value, [])
    && env.pcrs == P.LINHELLO_SIGNED_PCRS
    && env.public == PublicBlob(PolicyAuthorized(c, NameOf(c, f.pub.value).value, []))
    && env.private.PrivateBlob? && env.private.authPolicy == env.public.authPolicy
  }

  /**
   With Secure Boot on and a readable signature file, a host-sealed envelope unseals to its secret
   exactly when the TPM still has its seed and the entry on file for the present policy, if there
   is one, verifies; a missing entry is signed on the spot.
   */
  lemma UnsealsExactly(c: Suite, m: Machine, env: SealedEnvelope, systemd: Result<seq<PcrSignature>>)
    requires m.secureBoot && HostSignatures(m.files.sigs, DEFAULT_BANK).Ok?
    requires SealedByHost(c, m.files, env)
    ensures var approved := Pcr7Policy(c, m);
            var s := FindForPolicy(Signed(m.files), P.LINHELLO_SIGNED_PCRS, approved);
            Unseal(c, m.tpm, true, m.files, systemd, env, true).1 ==
              if && m.tpm.seed == env.private.parent
                 && (s.Some? ==> c.verify(c.parsePem(m.files.pub.value).value, AHash(c, approved, []), s.value.sig))
              then Ok(env.private.secret) else Err(Tpm)
  {
    hide FindForPolicy, HostSignatures, PolicyPcr, PolicyAuthorized, AHash;
    var approved := Pcr7Policy(c, m);
    SignaturePolicy(c, m.tpm, m.files, []);
    assert ClassifySigner(c, m.files.pub, m.files.pub.value) == Ok(LinhelloHost);
    assert EnsureSigned(c, m.files, P.LINHELLO_SIGNED_PCRS, approved, AHash(c, approved, [])).Ok?;
    SigningOnlyAdds(c, m.files, P.LINHELLO_SIGNED_PCRS, approved, AHash(c, approved, []));
  }

  lemma HostSealsEnvelope(c: Suite, m: Machine, secret: seq<byte>, x: SealInputs)
    requires GoodKeys(c, m.files) && c.Generated(x.newKey)
    requires var r := SealSecret(c, m.tpm, m.secureBoot, m.files, secret, x).1;
             r.Ok? && r.value.policy.AuthorizedBy? && r.value.pcrs == P.LINHELLO_SIGNED_PCRS
    ensures var env := SealSecret(c, m.tpm, m.secureBoot, m.files, secret, x).1.value;
            SealedByHost(c, PlanFor(c, m.secureBoot, m.files, x).0, env)
            && env.private.secret == secret && env.private.parent == m.tpm.seed
  {
    hide FindForPolicy, HostSignatures, PolicyPcr, PolicyAuthorized, AHash, EnsureSignature;
  }

  /** What the k-th step of a run sealed, if it sealed under the host signer. */
  ghost function SealedAt(c: Suite, m: Machine, steps: seq<Step>, k: nat): Result<SealedEnvelope>
    requires k < |steps| && steps[k].SealStep?
  {
    var m1 := Run(c, m, steps[..k]);
    SealSecret(c, m1.tpm, m1.secureBoot, m1.files, steps[k].secret, steps[k].inputs).1
  }

  ghost predicate HostSealedAt(c: Suite, m: Machine, steps: seq<Step>, k: nat) {
    && k < |steps| && steps[k].SealStep?
    && var r := SealedAt(c, m, steps, k);
       r.Ok? && r.value.policy.AuthorizedBy? && r.value.pcrs == P.LINHELLO_SIGNED_PCRS
  }

  lemma HostEnvelopeKept(c: Suite, m0: Machine, steps: seq<Step>, k: nat)
    requires GoodKeys(c, m0.files) && GeneratedKeys(c, steps) && HostSealedAt(c, m0, steps, k)
    ensures var env := SealedAt(c, m0, steps, k).value;
            SealedByHost(c, Run(c, m0, steps).files, env)
            && env.private.secret == steps[k].secret && env.private.parent == Run(c, m0, steps[..k]).tpm.seed
  {
    hide SealSecret, PlanFor, PolicyAuthorized, NameOf, Next;
    var m1 := Run(c, m0, steps[..k]);
    RunKeepsKeys(c, m0, steps[..k]);
    HostSealsEnvelope(c, m1, steps[k].secret, steps[k].inputs);
    StepKeepsKeys(c, m1, steps[k]);
    assert steps[..k + 1][..k] == steps[..k] && steps[..k + 1][k] == steps[k];
    KeyKept(c, m0, steps, k + 1);
  }

  /**
   Self-heal over whole runs, exactly: take any run from a machine with no signatures, with boots
   into arbitrary PCR states, seals, unseals, TPM clears and envelope files rewritten at will. An
   envelope that one of its steps sealed under the host signer unseals, with Secure Boot on at the
   end, to exactly its secret if the TPM has the seed it was sealed on and the run did not sign the
   present PCR-7 policy under a non-empty reference, and is refused otherwise.
   */
  lemma SelfHealsExactly(c: Suite, m0: Machine, steps: seq<Step>, k: nat, systemd: Result<seq<PcrSignature>>)
    requires GoodKeys(c, m0.files) && HostSignatures(m0.files.sigs, DEFAULT_BANK) == Ok([])
    requires GeneratedKeys(c, steps) && HostSealedAt(c, m0, steps, k)
    requires Run(c, m0, steps).secureBoot
    requires c.SeparatesReferences() && forall sk :: c.Binding(sk)
    ensures var m := Run(c, m0, steps);
            Unseal(c, m.tpm, true, m.files, systemd, SealedAt(c, m0, steps, k).value, true).1 ==
              if && m.tpm.seed == Run(c, m0, steps[..k]).tpm.seed
                 && SignedUnder(c, m0, steps, Pcr7Policy(c, m)) in {None, Some([])}
              then Ok(steps[k].secret) else Err(Tpm)
  {
    hide HostSignatures, FindForPolicy, SealedAt, PolicyPcr, Run, Unseal;
    var m := Run(c, m0, steps);
    var approved := Pcr7Policy(c, m);
    HostEnvelopeKept(c, m0, steps, k);
    StoreOnlyGrows(c, m0, steps);
    UnsealsExactly(c, m, SealedAt(c, m0, steps, k).value, systemd);
    EntryVerifies(c, m0, steps, approved);
    VerifiesOnlyPlain(c, m0, steps, approved);
  }

  /** An entry signed under the empty reference verifies, and so does not stand in the way. */
  lemma EntryVerifies(c: Suite, m0: Machine, steps: seq<Step>, digest: seq<byte>)
    requires GoodKeys(c, m0.files) && HostSignatures(m0.files.sigs, DEFAULT_BANK) == Ok([])
    requires GeneratedKeys(c, steps)
    ensures var f := Run(c, m0, steps).files;
            var s := FindForPolicy(Signed(f), P.LINHELLO_SIGNED_PCRS, digest);
            SignedUnder(c, m0, steps, digest) in {None, Some([])} && s.Some? ==>
              f.pub.Some? && c.parsePem(f.pub.value).Some?
              && c.verify(c.parsePem(f.pub.value).value, AHash(c, digest, []), s.value.sig)
  {
    hide HostSignatures, PolicyPcr, Run, AHash;
    var s := FindForPolicy(Signed(Run(c, m0, steps).files), P.LINHELLO_SIGNED_PCRS, digest);
    if s.Some? {
      SignatureExplained(c, m0, steps, s.value);
      RunKeepsKeys(c, m0, steps);
    }
  }

  /** And with ideal signatures, no other entry does. */
  lemma VerifiesOnlyPlain(c: Suite, m0: Machine, steps: seq<Step>, digest: seq<byte>)
    requires GoodKeys(c, m0.files) && HostSignatures(m0.files.sigs, DEFAULT_BANK) == Ok([])
    requires GeneratedKeys(c, steps)
    requires c.SeparatesReferences() && forall sk :: c.Binding(sk)
    ensures var f := Run(c, m0, steps).files;
            var s := FindForPolicy(Signed(f), P.LINHELLO_SIGNED_PCRS, digest);
            SignedUnder(c, m0, steps, digest) !in {None, Some([])} ==>
              && s.Some? && f.pub.Some? && c.parsePem(f.pub.value).Some?
              && !c.verify(c.parsePem(f.pub.value).value, AHash(c, digest, []), s.value.sig)
  {
    hide HostSignatures, PolicyPcr, Run;
    if SignedUnder(c, m0, steps, digest).Some? {
      var f := Run(c, m0, steps).files;
      var s := FindForPolicy(Signed(f), P.LINHELLO_SIGNED_PCRS, digest);
      SignedIsOnFile(c, m0, steps, digest);
      SignatureExplained(c, m0, steps, s.value);
      RunKeepsKeys(c, m0, steps);
      assert c.Binding(f.key.value);
    }
  }

  /** No step of the run unseals an envelope that carries a reference. */
  ghost predicate PlainRun(c: Suite, m: Machine, steps: seq<Step>) {
    steps == [] ||
    var front, last := steps[..|steps| - 1], steps[|steps| - 1];
    PlainRun(c, m, front) && StepRef(Run(c, m, front), last) == []
  }

  lemma {:induction false} PlainRunSignsPlainly(c: Suite, m: Machine, steps: seq<Step>, digest: seq<byte>)
    requires PlainRun(c, m, steps)
    ensures SignedUnder(c, m, steps, digest) in {None, Some([])}
  {
    if steps != [] {
      PlainRunSignsPlainly(c, m, steps[..|steps| - 1], digest);
    }
  }

  /**
   Self-heal: in runs that leave the references of envelope files empty, as sealing writes them,
   only the seed matters, whatever the signature scheme and the hash are otherwise.
   */
  lemma SelfHeals(c: Suite, m0: Machine, steps: seq<Step>, k: nat, systemd: Result<seq<PcrSignature>>)
    requires GoodKeys(c, m0.files) && HostSignatures(m0.files.sigs, DEFAULT_BANK) == Ok([])
    requires GeneratedKeys(c, steps) && HostSealedAt(c, m0, steps, k)
    requires Run(c, m0, steps).secureBoot && PlainRun(c, m0, steps)
    ensures var m := Run(c, m0, steps);
            Unseal(c, m.tpm, true, m.files, systemd, SealedAt(c, m0, steps, k).value, true).1 ==
              if m.tpm.seed == Run(c, m0, steps[..k]).tpm.seed then Ok(steps[k].secret) else Err(Tpm)
  {
    hide HostSignatures, FindForPolicy, SealedAt, PolicyPcr, Run, Unseal, AHash;
    var m := Run(c, m0, steps);
    HostEnvelopeKept(c, m0, steps, k);
    StoreOnlyGrows(c, m0, steps);
    UnsealsExactly(c, m, SealedAt(c, m0, steps, k).value, systemd);
    PlainRunSignsPlainly(c, m0, steps, Pcr7Policy(c, m));
    EntryVerifies(c, m0, steps, Pcr7Policy(c, m));
  }

  /** With Secure Boot on and no viable systemd key, sealing does take the host-signed path, creating
      the key pair if there is none, and leaves the present PCR-7 policy signed. */
  lemma HostSealSucceeds(c: Suite, m: Machine, secret: seq<byte>, x: SealInputs)
    requires GoodKeys(c, m.files) && HostSignatures(m.files.sigs, DEFAULT_BANK).Ok? && c.Generated(x.newKey)
    requires P.WantsHostKey(m.secureBoot, x.boot, x.signedAvailable, TrustedPem(c, x.systemdPem))
    requires x.keyWrite && x.pubWrite && x.signs
    ensures var (f, env) := SealSecret(c, m.tpm, m.secureBoot, m.files, secret, x);
            && env.Ok? && SealedByHost(c, f, env.value) && env.value.private.secret == secret
            && OnFile(f, Pcr7Policy(c, m))
  {
    hide FindForPolicy, HostSignatures, PolicyPcr, PolicyAuthorized, AHash, EnsureSignature;
    var f := PlanFor(c, m.secureBoot, m.files, x).0;
    SignaturePolicy(c, m.tpm, f, []);
    assert ClassifySigner(c, f.pub, f.pub.value) == Ok(LinhelloHost);
    var approved := Pcr7Policy(c, m);
    assert EnsureSigned(c, f, P.LINHELLO_SIGNED_PCRS, approved, AHash(c, approved, [])).Ok?;
    SigningOnlyAdds(c, f, P.LINHELLO_SIGNED_PCRS, approved, AHash(c, approved, []));
    HostSealsEnvelope(c, m, secret, x);
  }

  /** A suite in which hashing is the identity and a signature is the message it covers. */
  function PlainSuite(): (c: Suite)
    ensures c.Generated(0) && c.SeparatesReferences() && forall sk :: c.Binding(sk)
  {
    var c := Suite(x => x, _ => Some(0), _ => [], _ => Some([]), _ => "pem", (_, message) => message,
                   (_, message, sig) => message == sig);
    assert forall digest: seq<byte>, policyRef: seq<byte> :: digest + policyRef == digest + [] ==> |policyRef| == 0;
    c
  }

  /**
   The reference in an envelope file matters: where the present PCR-7 policy is not signed yet,
   unsealing an edited copy of an envelope with any non-empty reference signs that policy under the
   edited reference, and from then on the untouched envelope, which unsealed before, finds that
   entry and is refused.
   */
  lemma EditedReferenceBlocksHealing(c: Suite, m: Machine, env: SealedEnvelope, policyRef: seq<byte>,
                                     systemd: Result<seq<PcrSignature>>)
    requires m.secureBoot && HostSignatures(m.files.sigs, DEFAULT_BANK).Ok? && !OnFile(m.files, Pcr7Policy(c, m))
    requires SealedByHost(c, m.files, env) && env.private.parent == m.tpm.seed
    requires policyRef != [] && c.SeparatesReferences() && forall sk :: c.Binding(sk)
    ensures Unseal(c, m.tpm, true, m.files, systemd, env, true).1 == Ok(env.private.secret)
    ensures var edited := env.(policy := AuthorizedBy(m.files.pub.value, policyRef));
            var f := Unseal(c, m.tpm, true, m.files, systemd, edited, true).0;
            Unseal(c, m.tpm, true, f, systemd, env, true).1 == Err(Tpm)
  {
    hide FindForPolicy, HostSignatures, PolicyPcr, PolicyAuthorized;
    UnsealsExactly(c, m, env, systemd);
    var approved := Pcr7Policy(c, m);
    var edited := env.(policy := AuthorizedBy(m.files.pub.value, policyRef));
    SignaturePolicy(c, m.tpm, m.files, policyRef);
    assert ClassifySigner(c, m.files.pub, m.files.pub.value) == Ok(LinhelloHost);
    var f := EnsureSigned(c, m.files, P.LINHELLO_SIGNED_PCRS, approved, AHash(c, approved, policyRef)).value;
    assert Unseal(c, m.tpm, true, m.files, systemd, edited, true).0 == f;
    SigningOnlyAdds(c, m.files, P.LINHELLO_SIGNED_PCRS, approved, AHash(c, approved, policyRef));
    UnsealsExactly(c, m.(files := f), env, systemd);
    assert c.Binding(f.key.value);
  }

  /** One such machine, so the condition of SelfHealsExactly is not an idle one. */
  lemma SelfHealCanFail() returns (c: Suite, m: Machine, env: SealedEnvelope)
    ensures m.secureBoot && GoodKeys(c, m.files) && HostSignatures(m.files.sigs, DEFAULT_BANK) == Ok([])
    ensures SealedByHost(c, m.files, env) && env.private.parent == m.tpm.seed
    ensures Unseal(c, m.tpm, true, m.files, Err(Io), env, true).1 == Ok([42])
    ensures var f := Unseal(c, m.tpm, true, m.files, Err(Io), env.(policy := AuthorizedBy("pem", [1])), true).0;
            Unseal(c, m.tpm, true, f, Err(Io), env, true).1 == Err(Tpm)
  {
    hide SelectByte, SelectedValues, PolicyPcr, Unseal;
    c := PlainSuite();
    var files := HostFiles(Some(0), Some("pem"), Missing);
    var policy := PolicyAuthorized(c, NameOf(c, "pem").value, []);
    m := Machine(TpmState(0, Empty, map[]), true, files, map[]);
    env := Envelope(m.tpm, P.Medium, P.LINHELLO_SIGNED_PCRS, AuthorizedBy("pem", []), policy, [42]);
    EditedReferenceBlocksHealing(c, m, env, [1], Err(Io));
  }

  // ---------- one unseal ----------

  /**
   For any envelope file whatever, an authorized unseal returns data if and only if its key is one
   of the two anchors, its PCR list is that signer's constant, a signature on file covers the
   present policy digest and verifies under that key, and its blobs were made by this TPM under
   the policy that TPM2_PolicyAuthorize reaches; and the data is then what was sealed.
   */
  lemma AuthorizedUnsealAnchored(c: Suite, m: Machine, systemd: Result<seq<PcrSignature>>, env: SealedEnvelope,
                                 heals: bool)
    requires env.policy.AuthorizedBy?
    ensures var (f, r) := Unseal(c, m.tpm, m.secureBoot, m.files, systemd, env, heals);
            var pem, policyRef := env.policy.pubkeyPem, env.policy.policyRef;
            var signer := ClassifySigner(c, m.files.pub, pem);
            && (r.Ok? <==>
                 && (|| (signer == Ok(Systemd) && env.pcrs == [11])
                     || (signer == Ok(LinhelloHost) && env.pcrs == [7]))
                 && env.public.PublicBlob? && env.private.PrivateBlob?
                 && env.private.parent == m.tpm.seed
                 && NameOf(c, pem).Ok?
                 && env.private.authPolicy == env.public.authPolicy
                 && env.public.authPolicy == PolicyAuthorized(c, NameOf(c, pem).value, policyRef)
                 && var approved := CurrentPolicy(c, m.tpm, env.pcrs);
                    var sigs := SignaturesOf(signer.value, f, systemd);
                    && sigs.Ok?
                    && var s := FindForPolicy(sigs.value, env.pcrs, approved);
                       s.Some? && c.verify(c.parsePem(pem).value, AHash(c, approved, policyRef), s.value.sig))
            && (r.Ok? ==> r.value == env.private.secret)
  {
    hide ClassifySigner, FindForPolicy, HostSignatures, PolicyPcr, PolicyAuthorized, AHash, NameOf, EnsureSignature;
  }

  lemma SealedCarriesSecret(c: Suite, m: Machine, secret: seq<byte>, x: SealInputs)
    ensures var r := SealSecret(c, m.tpm, m.secureBoot, m.files, secret, x).1;
            r.Ok? ==>
              && r.value.private.PrivateBlob?
              && r.value.private.secret == secret && r.value.private.parent == m.tpm.seed
  {
    hide ClassifySigner, PolicyPcr, PolicyAuthorized, AHash, NameOf, EnsureSignature, PlanFor;
  }

  lemma UnsealOpensPrivate(c: Suite, m: Machine, systemd: Result<seq<PcrSignature>>, env: SealedEnvelope, heals: bool)
    ensures var r := Unseal(c, m.tpm, m.secureBoot, m.files, systemd, env, heals).1;
            r.Ok? ==> env.private.PrivateBlob? && r.value == env.private.secret && env.private.parent == m.tpm.seed
  {
    hide ClassifySigner, FindForPolicy, HostSignatures, PolicyPcr, PolicyAuthorized, AHash, NameOf, Heal;
  }

  /** An untouched envelope gives back its own secret or nothing, and nothing on another seed. */
  lemma UntouchedGivesSecretOrNothing(c: Suite, m1: Machine, secret: seq<byte>, x: SealInputs, m: Machine,
                                      systemd: Result<seq<PcrSignature>>, heals: bool)
    requires SealSecret(c, m1.tpm, m1.secureBoot, m1.files, secret, x).1.Ok?
    ensures var env := SealSecret(c, m1.tpm, m1.secureBoot, m1.files, secret, x).1.value;
            var r := Unseal(c, m.tpm, m.secureBoot, m.files, systemd, env, heals).1;
            r.Ok? ==> r == Ok(secret) && m.tpm.seed == m1.tpm.seed
  {
    SealedCarriesSecret(c, m1, secret, x);
    UnsealOpensPrivate(c, m, systemd, SealSecret(c, m1.tpm, m1.secureBoot, m1.files, secret, x).1.value, heals);
  }

  /**
   The systemd path: on a signed UKI boot under Secure Boot, with the pinned key, sealing binds PCR 11
   at the full level and touches none of the host signer's files; what it sealed comes back exactly
   while the TPM keeps its seed and systemd supplies a signature that covers the present PCR-11 policy
   and verifies. Secure Boot and the host's signatures have no say in that.
   */
  lemma SystemdUnsealsExactly(c: Suite, m1: Machine, secret: seq<byte>, x: SealInputs, m: Machine,
                              systemd: Result<seq<PcrSignature>>, heals: bool)
    requires m1.secureBoot && x.boot.Uki? && x.signedAvailable && TrustedPem(c, x.systemdPem).Some?
    requires NameOf(c, x.systemdPem.value).Ok?
    ensures var (f, env) := SealSecret(c, m1.tpm, m1.secureBoot, m1.files, secret, x);
            && f == m1.files && env.Ok? && env.value.mode == P.Full && env.value.pcrs == [11]
            && var (f', r) := Unseal(c, m.tpm, m.secureBoot, m.files, systemd, env.value, heals);
               var approved := CurrentPolicy(c, m.tpm, [11]);
               var s := if systemd.Ok? then FindForPolicy(systemd.value, [11], approved) else None;
               && f' == m.files
               && (r == Ok(secret) <==>
                     && m.tpm.seed == m1.tpm.seed && s.Some?
                     && c.verify(c.parsePem(x.systemdPem.value).value, AHash(c, approved, []), s.value.sig))
               && (r.Ok? ==> r == Ok(secret))
  {
    hide FindForPolicy, PolicyPcr, PolicyAuthorized, AHash, NameOf, EnsureSignature;
    var env := SealSecret(c, m1.tpm, m1.secureBoot, m1.files, secret, x).1;
    assert ClassifySigner(c, m1.files.pub, x.systemdPem.value) == Ok(Systemd);
    assert ClassifySigner(c, m.files.pub, x.systemdPem.value) == Ok(Systemd);
    AuthorizedUnsealAnchored(c, m, systemd, env.value, heals);
  }

  /** An envelope records its plan's level if and only if it was sealed under Secure Boot. */
  lemma RecordedLevel(c: Suite, m: Machine, secret: seq<byte>, x: SealInputs)
    requires SealSecret(c, m.tpm, m.secureBoot, m.files, secret, x).1.Ok?
    ensures var env := SealSecret(c, m.tpm, m.secureBoot, m.files, secret, x).1.value;
            env.mode == PlanFor(c, m.secureBoot, m.files, x).1.SecurityLevel() <==> m.secureBoot
  {
    hide FindForPolicy, HostSignatures, PolicyPcr, PolicyAuthorized, AHash, EnsureSignature;
  }

  /** Without Secure Boot the plan binds nothing, at the basic level, and the seal goes through but records
      the medium one. */
  lemma UnboundIsRecordedMedium(c: Suite, m: Machine, secret: seq<byte>, x: SealInputs)
    requires !m.secureBoot
    ensures PlanFor(c, m.secureBoot, m.files, x).1.SecurityLevel() == P.Basic
    ensures var r := SealSecret(c, m.tpm, m.secureBoot, m.files, secret, x).1;
            r.Ok? && r.value.mode == P.Medium && r.value.pcrs == []
  {
    hide FindForPolicy, HostSignatures, PolicyPcr, PolicyAuthorized, AHash, EnsureSignature;
  }

  /** A literal envelope unseals exactly while the TPM keeps its seed and the policy over its PCRs. */
  lemma LiteralUnsealsExactly(c: Suite, sealedOn: TpmState, now: TpmState, secret: seq<byte>, pcrs: seq<nat>)
    requires SealLiteral(c, sealedOn, secret, pcrs).Ok?
    ensures var env := SealLiteral(c, sealedOn, secret, pcrs).value;
            UnsealLiteral(c, now, env) ==
              if now.seed == sealedOn.seed && CurrentPolicy(c, now, pcrs) == CurrentPolicy(c, sealedOn, pcrs)
              then Ok(secret) else Err(Tpm)
  {
  }

  /**
   Rolling back: a host envelope that unsealed once does so again, with no new signature, after any
   run that comes back to the same PCR-7 policy, whatever Secure Boot is by then.
   */
  lemma RollbackNeedsNoSignature(c: Suite, m: Machine, steps: seq<Step>, env: SealedEnvelope,
                                 systemd: Result<seq<PcrSignature>>, heals: bool, heals': bool)
    requires env.policy.AuthorizedBy?
    requires ClassifySigner(c, m.files.pub, env.policy.pubkeyPem) == Ok(LinhelloHost)
    requires Unseal(c, m.tpm, m.secureBoot, m.files, systemd, env, heals).1.Ok?
    requires var m1 := m.(files := Unseal(c, m.tpm, m.secureBoot, m.files, systemd, env, heals).0);
             var m' := Run(c, m1, steps);
             m'.tpm.seed == m.tpm.seed && Pcr7Policy(c, m') == Pcr7Policy(c, m)
    ensures var m1 := m.(files := Unseal(c, m.tpm, m.secureBoot, m.files, systemd, env, heals).0);
            var m' := Run(c, m1, steps);
            Unseal(c, m'.tpm, m'.secureBoot, m'.files, systemd, env, heals') ==
              (m'.files, Unseal(c, m.tpm, m.secureBoot, m.files, systemd, env, heals).1)
  {
    hide HostSignatures, PolicyPcr, PolicyAuthorized, AHash, NameOf;
    var (f, r) := Unseal(c, m.tpm, m.secureBoot, m.files, systemd, env, heals);
    var m1 := m.(files := f);
    var m' := Run(c, m1, steps);
    UnsealFiles(c, m, systemd, env, heals);
    if f != m.files {
      var approved := Pcr7Policy(c, m);
      SigningOnlyAdds(c, m.files, P.LINHELLO_SIGNED_PCRS, approved, AHash(c, approved, env.policy.policyRef));
    }
    StoreOnlyGrows(c, m1, steps);
    HostKeyNeverReplaced(c, m1, steps);
    AuthorizedUnsealAnchored(c, m, systemd, env, heals);
    AuthorizedUnsealAnchored(c, m', systemd, env, heals');
    SignaturePolicy(c, m'.tpm, m'.files, env.policy.policyRef);
  }

  // ---------- opening what was just sealed ----------

  /** Sealing signs under the empty reference, if at all. */
  lemma SealSignsPlainly(c: Suite, m: Machine, steps: seq<Step>, sealing: Step, digest: seq<byte>)
    requires sealing.SealStep?
    ensures SignedUnder(c, m, steps + [sealing], digest) in {None, Some([])} <==>
            SignedUnder(c, m, steps, digest) in {None, Some([])}
  {
    hide Run, Blesses;
    assert (steps + [sealing])[..|steps|] == steps;
  }

  lemma HostReopensExactly(c: Suite, m0: Machine, steps: seq<Step>, secret: seq<byte>, x: SealInputs,
                           systemd: Result<seq<PcrSignature>>)
    requires GoodKeys(c, m0.files) && HostSignatures(m0.files.sigs, DEFAULT_BANK) == Ok([])
    requires GeneratedKeys(c, steps) && c.Generated(x.newKey)
    requires c.SeparatesReferences() && forall sk :: c.Binding(sk)
    requires var m := Run(c, m0, steps);
             var r := SealSecret(c, m.tpm, m.secureBoot, m.files, secret, x).1;
             m.secureBoot && r.Ok? && r.value.policy.AuthorizedBy? && r.value.pcrs == P.LINHELLO_SIGNED_PCRS
    ensures var m := Run(c, m0, steps);
            var (f, env) := SealSecret(c, m.tpm, m.secureBoot, m.files, secret, x);
            Unseal(c, m.tpm, m.secureBoot, f, systemd, env.value, true).1 ==
              if SignedUnder(c, m0, steps, Pcr7Policy(c, m)) in {None, Some([])} then Ok(secret) else Err(Tpm)
  {
    hide SealSecret, Unseal, SignedUnder, HostSignatures, CurrentPolicy;
    var m := Run(c, m0, steps);
    var sealing := SealStep("", secret, x, false);
    var all := steps + [sealing];
    assert all[..|steps|] == steps && all[..|all| - 1] == steps && all[|steps|] == sealing;
    assert Run(c, m0, all) == Next(c, m, sealing);
    SelfHealsExactly(c, m0, all, |steps|, systemd);
    SealSignsPlainly(c, m0, steps, sealing, Pcr7Policy(c, m));
  }

  /**
   What was just sealed opens at once, on the same TPM, Secure Boot state and files, as follows: a literal
   envelope always; one under the host signer if and only if the run before did not sign the present policy
   under a non-empty reference; one under systemd's if and only if systemd supplies a verifying signature.
   */
  lemma FreshSealReopens(c: Suite, m0: Machine, steps: seq<Step>, secret: seq<byte>, x: SealInputs,
                         systemd: Result<seq<PcrSignature>>)
    requires GoodKeys(c, m0.files) && HostSignatures(m0.files.sigs, DEFAULT_BANK) == Ok([])
    requires GeneratedKeys(c, steps) && c.Generated(x.newKey)
    requires c.SeparatesReferences() && forall sk :: c.Binding(sk)
    requires var m := Run(c, m0, steps); SealSecret(c, m.tpm, m.secureBoot, m.files, secret, x).1.Ok?
    ensures var m := Run(c, m0, steps);
            var (f, env) := SealSecret(c, m.tpm, m.secureBoot, m.files, secret, x);
            var r := Unseal(c, m.tpm, m.secureBoot, f, systemd, env.value, true).1;
            && (r.Ok? ==> r == Ok(secret))
            && (r.Ok? <==> ReopensWhen(c, m0, steps, env.value, systemd))
  {
    hide HostSignatures, FindForPolicy, PolicyPcr, PolicyAuthorized, AHash, Run, SignedUnder;
    var m := Run(c, m0, steps);
    var (f, env) := SealSecret(c, m.tpm, m.secureBoot, m.files, secret, x);
    PlanKinds(c, m, secret, x);
    if env.value.policy.PcrLiteral? {
      hide SealSecret;
      LiteralUnsealsExactly(c, m.tpm, m.tpm, secret, env.value.pcrs);
    } else if env.value.pcrs == P.LINHELLO_SIGNED_PCRS {
      HostReopensExactly(c, m0, steps, secret, x, systemd);
    } else {
      hide SealSecret, Unseal, SealAuthorized;
      var m' := m.(files := f);
      SystemdUnsealsExactly(c, m, secret, x, m', systemd, true);
    }
  }

  /** The condition of FreshSealReopens. */
  ghost predicate ReopensWhen(c: Suite, m0: Machine, steps: seq<Step>, env: SealedEnvelope,
                              systemd: Result<seq<PcrSignature>>) {
    var m := Run(c, m0, steps);
    if env.policy.PcrLiteral? then true
    else if env.pcrs == P.LINHELLO_SIGNED_PCRS then SignedUnder(c, m0, steps, Pcr7Policy(c, m)) in {None, Some([])}
    else
      && systemd.Ok?
      && var approved := CurrentPolicy(c, m.tpm, env.pcrs);
         var s := FindForPolicy(systemd.value, env.pcrs, approved);
         && s.Some? && c.parsePem(env.policy.pubkeyPem).Some?
         && c.verify(c.parsePem(env.policy.pubkeyPem).value, AHash(c, approved, []), s.value.sig)
  }

  /** What the three kinds of envelope say about the machine that sealed them. */
  lemma PlanKinds(c: Suite, m: Machine, secret: seq<byte>, x: SealInputs)
    requires SealSecret(c, m.tpm, m.secureBoot, m.files, secret, x).1.Ok?
    ensures var env := SealSecret(c, m.tpm, m.secureBoot, m.files, secret, x).1.value;
            && (env.policy.PcrLiteral? ==> SealLiteral(c, m.tpm, secret, env.pcrs) == Ok(env))
            && (env.policy.AuthorizedBy? ==> m.secureBoot && env.policy.policyRef == [])
            && (env.policy.AuthorizedBy? && env.pcrs != P.LINHELLO_SIGNED_PCRS ==>
                  && env.pcrs == [11] && x.boot.Uki? && x.signedAvailable
                  && TrustedPem(c, x.systemdPem) == Some(env.policy.pubkeyPem) == x.systemdPem
                  && NameOf(c, env.policy.pubkeyPem).Ok?)
  {
    hide HostSignatures, FindForPolicy, PolicyPcr, PolicyAuthorized, AHash, EnsureSignature, CurrentPolicy;
  }
}
