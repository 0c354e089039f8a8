/**
 Whole runs in terms of what PCRs hold and which key sealed, rather than of digests: with an ideal hash the
 digests of module SealRuns stand for exactly that.
 */
module PcrRuns {
  import opened Wrappers
  import opened Hex
  import opened Suite
  import opened PcrSig
  import opened Sealing
  import opened SealRuns
  import opened Digests
  import P = Policy

  /** Every bank of a run is a full one: the first, and those of its boots. */
  predicate FullRun(m: Machine, steps: seq<Step>) {
    FullBank(m.tpm.bank) && forall step <- steps :: step.Boot? ==> FullBank(step.bank)
  }

  lemma {:induction false} RunKeepsFull(c: Suite, m: Machine, steps: seq<Step>)
    requires FullRun(m, steps)
    ensures FullBank(Run(c, m, steps).tpm.bank)
  {
    hide FullBank;
    if steps != [] {
      RunKeepsFull(c, m, steps[..|steps| - 1]);
    }
  }

  // ---------- literal envelopes ----------

  /** A literal envelope opens exactly while the TPM has its seed and every PCR it names has its value. */
  lemma LiteralUnsealsOnValues(c: Suite, sealedOn: TpmState, now: TpmState, secret: seq<byte>, pcrs: seq<nat>)
    requires c.Ideal() && FullBank(sealedOn.bank) && FullBank(now.bank)
    requires SealLiteral(c, sealedOn, secret, pcrs).Ok?
    ensures UnsealLiteral(c, now, SealLiteral(c, sealedOn, secret, pcrs).value) ==
            if now.seed == sealedOn.seed && SameValues(now.bank, sealedOn.bank, pcrs) then Ok(secret) else Err(Tpm)
  {
    hide CurrentPolicy, SameValues, SealLiteral, UnsealLiteral;
    LiteralUnsealsExactly(c, sealedOn, now, secret, pcrs);
    CurrentPolicyTells(c, now, sealedOn, pcrs);
  }

  /** With Secure Boot on but neither a systemd key nor a host key to be had, sealing falls back to PCR 7 as it
      is: the envelope opens exactly while the TPM keeps its seed and PCR 7 its value. */
  lemma FallbackBindsPcr7(c: Suite, m: Machine, secret: seq<byte>, x: SealInputs, now: TpmState)
    requires c.Ideal() && FullBank(m.tpm.bank) && FullBank(now.bank)
    requires m.secureBoot && P.SystemdPem(x.boot, x.signedAvailable, TrustedPem(c, x.systemdPem)).None?
    requires EnsureKey(c, m.files, x.newKey, x.keyWrite, x.pubWrite).1.Err?
    ensures var env := SealSecret(c, m.tpm, m.secureBoot, m.files, secret, x).1;
            && env.Ok? && env.value.policy.PcrLiteral?
            && UnsealLiteral(c, now, env.value) ==
               if now.seed == m.tpm.seed && now.bank[7] == m.tpm.bank[7] then Ok(secret) else Err(Tpm)
  {
    hide CurrentPolicy, UnsealLiteral, FullBank, EnsureKey, TrustedPem;
    LiteralUnsealsOnValues(c, m.tpm, now, secret, [7]);
    FullAt7(m.tpm.bank);
    FullAt7(now.bank);
  }

  lemma FullAt7(bank: map<nat, seq<byte>>)
    requires FullBank(bank)
    ensures 7 in bank
  {
  }

  /** A boot that measures something else into a PCR an envelope names makes it unusable, until the value is
      back. */
  lemma BootDecidesLiteral(c: Suite, m: Machine, secret: seq<byte>, pcrs: seq<nat>, secureBoot: bool,
                           bank: map<nat, seq<byte>>)
    requires c.Ideal() && FullBank(m.tpm.bank) && FullBank(bank) && SealLiteral(c, m.tpm, secret, pcrs).Ok?
    ensures UnsealLiteral(c, Next(c, m, Boot(secureBoot, bank)).tpm, SealLiteral(c, m.tpm, secret, pcrs).value) ==
            if SameValues(bank, m.tpm.bank, pcrs) then Ok(secret) else Err(Tpm)
  {
    hide SealLiteral, UnsealLiteral, SameValues, FullBank;
    LiteralUnsealsOnValues(c, m.tpm, Next(c, m, Boot(secureBoot, bank)).tpm, secret, pcrs);
  }

  /** After a TPM clear nothing opens that was sealed before on another seed. */
  lemma ClearRefuses(c: Suite, m1: Machine, secret: seq<byte>, x: SealInputs, m: Machine, seed: nat,
                     systemd: Result<seq<PcrSignature>>, heals: bool)
    requires SealSecret(c, m1.tpm, m1.secureBoot, m1.files, secret, x).1.Ok? && seed != m1.tpm.seed
    ensures var m' := Next(c, m, TpmClear(seed));
            var env := SealSecret(c, m1.tpm, m1.secureBoot, m1.files, secret, x).1.value;
            Unseal(c, m'.tpm, m'.secureBoot, m'.files, systemd, env, heals).1.Err?
  {
    hide SealSecret, Unseal;
    UntouchedGivesSecretOrNothing(c, m1, secret, x, Next(c, m, TpmClear(seed)), systemd, heals);
  }

  // ---------- host-signed envelopes ----------

  /** Some step of the run signed, with Secure Boot on, while PCR 7 held `value`. */
  ghost predicate SignedAtValue(c: Suite, m: Machine, steps: seq<Step>, value: seq<byte>) {
    steps != [] &&
    var front, last := steps[..|steps| - 1], steps[|steps| - 1];
    || SignedAtValue(c, m, front, value)
    || (var m' := Run(c, m, front);
        m'.secureBoot && PcrValue(m'.tpm.bank, 7) == value && Blesses(c, m', last, Pcr7Policy(c, m')))
  }

  lemma {:induction false} BlessedMeansSigned(c: Suite, m: Machine, steps: seq<Step>, t: TpmState)
    requires c.Ideal() && FullRun(m, steps) && FullBank(t.bank)
    requires BlessedInRun(c, m, steps, CurrentPolicy(c, t, P.LINHELLO_SIGNED_PCRS))
    ensures SignedAtValue(c, m, steps, t.bank[7])
  {
    hide FullBank, CurrentPolicy, Run;
    var digest := CurrentPolicy(c, t, P.LINHELLO_SIGNED_PCRS);
    var front, last := steps[..|steps| - 1], steps[|steps| - 1];
    FullAt7(t.bank);
    if BlessedInRun(c, m, front, digest) {
      BlessedMeansSigned(c, m, front, t);
    } else {
      var m' := Run(c, m, front);
      RunKeepsFull(c, m, front);
      CurrentPolicyTells(c, m'.tpm, t, P.LINHELLO_SIGNED_PCRS);
      FullAt7(m'.tpm.bank);
    }
  }

  /**
   No blessing with Secure Boot off, on values: after any run from a machine with no signatures, a host-signed
   envelope of whatever origin unseals with Secure Boot off only if an earlier step signed, with Secure Boot on,
   while PCR 7 held the value it holds now.
   */
  lemma NoBlessingOnValues(c: Suite, m: Machine, steps: seq<Step>, env: SealedEnvelope,
                           systemd: Result<seq<PcrSignature>>, heals: bool)
    requires c.Ideal() && FullRun(m, steps) && HostSignatures(m.files.sigs, DEFAULT_BANK) == Ok([])
    requires var m' := Run(c, m, steps);
             && !m'.secureBoot
             && env.policy.AuthorizedBy?
             && ClassifySigner(c, m'.files.pub, env.policy.pubkeyPem) == Ok(LinhelloHost)
             && Unseal(c, m'.tpm, m'.secureBoot, m'.files, systemd, env, heals).1.Ok?
    ensures SignedAtValue(c, m, steps, PcrValue(Run(c, m, steps).tpm.bank, 7))
  {
    hide FullBank, Unseal, CurrentPolicy, ClassifySigner, Run, BlessedInRun, HostSignatures;
    NoBlessingWithSecureBootOff(c, m, steps, env, systemd, heals);
    RunKeepsFull(c, m, steps);
    FullAt7(Run(c, m, steps).tpm.bank);
    BlessedMeansSigned(c, m, steps, Run(c, m, steps).tpm);
  }

  /**
   The exact condition with Secure Boot off, over every run: an envelope that a step sealed under the host
   signer opens, to its secret, if and only if the TPM has its seed and the run signed the present PCR-7 policy
   under the empty reference; and then it did so with Secure Boot on, at the present value of PCR 7.
   */
  lemma SecureBootOffExactly(c: Suite, m0: Machine, steps: seq<Step>, k: nat, systemd: Result<seq<PcrSignature>>,
                             heals: bool)
    requires GoodKeys(c, m0.files) && HostSignatures(m0.files.sigs, DEFAULT_BANK) == Ok([])
    requires GeneratedKeys(c, steps) && HostSealedAt(c, m0, steps, k) && FullRun(m0, steps)
    requires !Run(c, m0, steps).secureBoot
    requires c.Ideal() && c.SeparatesReferences() && forall sk :: c.Binding(sk)
    ensures var m := Run(c, m0, steps);
            var r := Unseal(c, m.tpm, false, m.files, systemd, SealedAt(c, m0, steps, k).value, heals).1;
            && (r.Ok? <==>
                 && m.tpm.seed == Run(c, m0, steps[..k]).tpm.seed
                 && SignedUnder(c, m0, steps, Pcr7Policy(c, m)) == Some([]))
            && (r.Ok? ==> r == Ok(steps[k].secret) && SignedAtValue(c, m0, steps, PcrValue(m.tpm.bank, 7)))
  {
    hide HostSignatures, FindForPolicy, SealedAt, PolicyPcr, Run, SignedAtValue, SignedUnder, FullRun;
    var m := Run(c, m0, steps);
    var env := SealedAt(c, m0, steps, k).value;
    HostEnvelopeKept(c, m0, steps, k);
    StoreOnlyGrows(c, m0, steps);
    OffDecidedBySignature(c, m, env, systemd, heals);
    var approved := Pcr7Policy(c, m);
    EntryVerifies(c, m0, steps, approved);
    VerifiesOnlyPlain(c, m0, steps, approved);
    var s := FindForPolicy(Signed(m.files), P.LINHELLO_SIGNED_PCRS, approved);
    if s.Some? {
      SignatureExplained(c, m0, steps, s.value);
    } else if SignedUnder(c, m0, steps, approved).Some? {
      SignedIsOnFile(c, m0, steps, approved);
    }
    if Unseal(c, m.tpm, false, m.files, systemd, env, heals).1.Ok? {
      NoBlessingOnValues(c, m0, steps, env, systemd, heals);
    }
  }

  /** With Secure Boot off nothing is signed: the entry on file decides. */
  lemma OffDecidedBySignature(c: Suite, m: Machine, env: SealedEnvelope, systemd: Result<seq<PcrSignature>>,
                              heals: bool)
    requires !m.secureBoot && HostSignatures(m.files.sigs, DEFAULT_BANK).Ok? && SealedByHost(c, m.files, env)
    ensures ClassifySigner(c, m.files.pub, env.policy.pubkeyPem) == Ok(LinhelloHost)
    ensures var approved := Pcr7Policy(c, m);
            var s := FindForPolicy(Signed(m.files), P.LINHELLO_SIGNED_PCRS, approved);
            var r := Unseal(c, m.tpm, false, m.files, systemd, env, heals).1;
            && (r.Ok? <==>
                 && m.tpm.seed == env.private.parent && s.Some?
                 && c.verify(c.parsePem(m.files.pub.value).value, AHash(c, approved, []), s.value.sig))
            && (r.Ok? ==> r == Ok(env.private.secret))
  {
    hide FindForPolicy, HostSignatures, PolicyPcr, PolicyAuthorized, AHash;
    assert ClassifySigner(c, m.files.pub, m.files.pub.value) == Ok(LinhelloHost);
    AuthorizedUnsealAnchored(c, m, systemd, env, heals);
  }

  // ---------- which key ----------

  /**
   Whatever is edited in an envelope file, blobs that were sealed under a key open only under a key with the
   same public area and under the same reference.
   */
  lemma OpensOnlyUnderItsKey(c: Suite, t: TpmState, secret: seq<byte>, pcrs: seq<nat>, pem: string,
                             policyRef: seq<byte>, m: Machine, systemd: Result<seq<PcrSignature>>, env: SealedEnvelope,
                             heals: bool)
    requires c.Ideal() && SealUnderKey(c, t, secret, pcrs, pem, policyRef).Ok?
    requires var sealed := SealUnderKey(c, t, secret, pcrs, pem, policyRef).value;
             env.public == sealed.public && env.private == sealed.private
    requires env.policy.AuthorizedBy? && Unseal(c, m.tpm, m.secureBoot, m.files, systemd, env, heals).1.Ok?
    ensures env.policy.policyRef == policyRef
    ensures c.parsePem(pem).Some? && c.parsePem(env.policy.pubkeyPem).Some?
    ensures c.publicArea(c.parsePem(env.policy.pubkeyPem).value) == c.publicArea(c.parsePem(pem).value)
  {
    hide Unseal, PolicyAuthorized, FindForPolicy, ClassifySigner, AHash, CurrentPolicy;
    AuthorizedUnsealAnchored(c, m, systemd, env, heals);
    AuthorizedPolicyTells(c, NameOf(c, pem).value, policyRef,
                          NameOf(c, env.policy.pubkeyPem).value, env.policy.policyRef);
    NameTells(c, pem, env.policy.pubkeyPem);
  }

  /** A step makes a host key only by sealing, under Secure Boot, with no viable systemd key. */
  lemma KeyMadeOnlyWhenNeeded(c: Suite, m: Machine, step: Step)
    ensures Next(c, m, step).files.key != m.files.key || Next(c, m, step).files.pub != m.files.pub ==>
              && step.SealStep? && m.secureBoot && m.files.pub.None?
              && !(step.inputs.boot.Uki? && step.inputs.signedAvailable && TrustedPem(c, step.inputs.systemdPem).Some?)
  {
    hide Next, TrustedPem;
    StepKeepsKeys(c, m, step);
  }
}
