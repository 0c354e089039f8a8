/**
 What sealing and unsealing compute, as functions of the TPM, the signer's files and the
 envelope. Policy digests follow Part 3 of the TCG TPM 2.0 Library Specification: section
 23.2.3 (PolicyUpdate), section 23.7 (TPM2_PolicyPCR) and section 23.16 (TPM2_PolicyAuthorize).
 */
module Sealing {
  import opened Wrappers
  import opened Hex
  import opened Suite
  import opened PcrSig
  import P = Policy

  // ---------- TPM and envelope ----------

  /** What sits at linhello's persistent handle. */
  datatype Slot = Empty | LinhelloSrk | ForeignKey

  /** `seed` is the owner seed; the storage root key is a deterministic function of it. */
  datatype TpmState = TpmState(seed: nat, slot: Slot, bank: map<nat, seq<byte>>)

  datatype PublicBlob = PublicBlob(authPolicy: seq<byte>) | BadPublic

  /** A wrapped sensitive area: its integrity value binds the parent key and the public area. */
  datatype PrivateBlob = PrivateBlob(parent: nat, authPolicy: seq<byte>, secret: seq<byte>) | BadPrivate

  datatype PolicyKind = PcrLiteral | AuthorizedBy(pubkeyPem: string, policyRef: seq<byte>)

  const CURRENT_VERSION: nat := 2

  datatype SealedEnvelope = SealedEnvelope(
    version: nat,
    mode: P.SecurityLevel,
    pcrs: seq<nat>,
    policy: PolicyKind,
    public: PublicBlob,
    private: PrivateBlob,
    pcrValues: seq<(nat, seq<byte>)>)

  // ---------- policy digests ----------

  const CC_POLICY_PCR: seq<byte> := [0x00, 0x00, 0x01, 0x7F]
  const CC_POLICY_AUTHORIZE: seq<byte> := [0x00, 0x00, 0x01, 0x6A]

  /** The all-zero SHA-256 digest a session starts from. */
  function ZeroDigest(): seq<byte> {
    seq(32, _ => 0)
  }

  /** PCR indices the code has a slot for. */
  predicate Selectable(pcrs: seq<nat>) {
    forall p <- pcrs :: p <= 16 || p == 23
  }

  function PcrValue(bank: map<nat, seq<byte>>, p: nat): seq<byte> {
    if p in bank then bank[p] else []
  }

  /** Bits base..base+8 of the selection bitmap. */
  function SelectByte(pcrs: seq<nat>, base: nat, bit: nat): (b: nat)
    requires bit <= 8
    ensures b < (match bit case 0 => 1 case 1 => 2 case 2 => 4 case 3 => 8 case 4 => 16
                 case 5 => 32 case 6 => 64 case 7 => 128 case _ => 256)
  {
    if bit == 0 then 0
    else
      var weight := match bit - 1 case 0 => 1 case 1 => 2 case 2 => 4 case 3 => 8 case 4 => 16
                    case 5 => 32 case 6 => 64 case _ => 128;
      SelectByte(pcrs, base, bit - 1) + if base + bit - 1 in pcrs then weight else 0
  }

  /** TPML_PCR_SELECTION with one SHA-256 bank and a three-byte bitmap. */
  function Selection(pcrs: seq<nat>): seq<byte> {
    [0x00, 0x00, 0x00, 0x01, 0x00, 0x0b, 0x03,
     SelectByte(pcrs, 0, 8), SelectByte(pcrs, 8, 8), SelectByte(pcrs, 16, 8)]
  }

  lemma {:induction false} SelectByteIsSet(p: seq<nat>, q: seq<nat>, base: nat, bit: nat)
    requires bit <= 8
    ensures SelectByte(p, base, bit) == SelectByte(q, base, bit) <==>
            forall k :: base <= k < base + bit ==> (k in p <==> k in q)
  {
    if bit > 0 {
      SelectByteIsSet(p, q, base, bit - 1);
    }
  }

  /** Two PCR lists have the same selection exactly when they name the same PCRs, in whatever order. */
  lemma SelectionIsSet(p: seq<nat>, q: seq<nat>)
    ensures Selection(p) == Selection(q) <==> forall k :: 0 <= k < 24 ==> (k in p <==> k in q)
  {
    hide SelectByte;
    SelectByteIsSet(p, q, 0, 8);
    SelectByteIsSet(p, q, 8, 8);
    SelectByteIsSet(p, q, 16, 8);
    var a, b := Selection(p), Selection(q);
    assert a == b <==> a[7] == b[7] && a[8] == b[8] && a[9] == b[9];
  }

  /** The selected PCR values in ascending PCR order, from `i` on. */
  function SelectedValues(bank: map<nat, seq<byte>>, pcrs: seq<nat>, i: nat): seq<byte>
    decreases 24 - i
  {
    if i >= 24 then []
    else (if i in pcrs then PcrValue(bank, i) else []) + SelectedValues(bank, pcrs, i + 1)
  }

  function PolicyPcr(c: Suite, digest: seq<byte>, bank: map<nat, seq<byte>>, pcrs: seq<nat>): seq<byte> {
    c.sha256(digest + CC_POLICY_PCR + Selection(pcrs) + c.sha256(SelectedValues(bank, pcrs, 0)))
  }

  function PolicyUpdate(c: Suite, digest: seq<byte>, command: seq<byte>, arg2: seq<byte>, arg3: seq<byte>): seq<byte> {
    c.sha256(c.sha256(digest + command + arg2) + arg3)
  }

  /** TPM2_PolicyAuthorize resets the digest before folding in the key Name and the reference. */
  function PolicyAuthorized(c: Suite, keyName: seq<byte>, policyRef: seq<byte>): seq<byte> {
    PolicyUpdate(c, ZeroDigest(), CC_POLICY_AUTHORIZE, keyName, policyRef)
  }

  function AHash(c: Suite, approved: seq<byte>, policyRef: seq<byte>): seq<byte> {
    c.sha256(approved + policyRef)
  }

  /** The policy digest a fresh session reaches over the present PCRs. */
  function CurrentPolicy(c: Suite, t: TpmState, pcrs: seq<nat>): seq<byte> {
    if pcrs == [] then ZeroDigest() else PolicyPcr(c, ZeroDigest(), t.bank, pcrs)
  }

  /** The software digest, fed to a running hash as the program does. */
  method AuthorizePolicyDigest(c: Suite, keyName: seq<byte>, policyRef: seq<byte>) returns (d: seq<byte>)
    ensures d == PolicyAuthorized(c, keyName, policyRef)
  {
    var h: seq<byte> := [];
    h := h + ZeroDigest();
    h := h + CC_POLICY_AUTHORIZE;
    h := h + keyName;
    var d1 := c.sha256(h);
    assert h == ZeroDigest() + CC_POLICY_AUTHORIZE + keyName;
    var h2: seq<byte> := [];
    h2 := h2 + d1;
    h2 := h2 + policyRef;
    assert h2 == d1 + policyRef;
    d := c.sha256(h2);
  }

  // ---------- sealing ----------

  function ReadPcrs(t: TpmState, pcrs: seq<nat>): seq<(nat, seq<byte>)> {
    seq(|pcrs|, i requires 0 <= i < |pcrs| => (pcrs[i], PcrValue(t.bank, pcrs[i])))
  }

  function Envelope(t: TpmState, mode: P.SecurityLevel, pcrs: seq<nat>, policy: PolicyKind,
                    authPolicy: seq<byte>, secret: seq<byte>): SealedEnvelope {
    SealedEnvelope(CURRENT_VERSION, mode, pcrs, policy,
                   PublicBlob(authPolicy), PrivateBlob(t.seed, authPolicy, secret), ReadPcrs(t, pcrs))
  }

  function SealLiteral(c: Suite, t: TpmState, secret: seq<byte>, pcrs: seq<nat>): Result<SealedEnvelope> {
    if !Selectable(pcrs) then Err(Tpm)
    else Ok(Envelope(t, P.Medium, pcrs, PcrLiteral, CurrentPolicy(c, t, pcrs), secret))
  }

  /** The TPM Name of a key given as PEM, when the code can load it. */
  function NameOf(c: Suite, pem: string): Result<seq<byte>> {
    match c.parsePem(pem)
    case None => Err(Policy)
    case Some(k) => if c.publicArea(k).None? then Err(Policy) else Ok(c.KeyName(c.publicArea(k).value))
  }

  /** Make sure the present PCR state over `pcrs` carries a host signature. */
  function EnsureSignature(c: Suite, t: TpmState, f: HostFiles, pcrs: seq<nat>,
                           policyRef: seq<byte>): Result<HostFiles> {
    if !Selectable(pcrs) then Err(Tpm)
    else
      var approved := PolicyPcr(c, ZeroDigest(), t.bank, pcrs);
      EnsureSigned(c, f, pcrs, approved, AHash(c, approved, policyRef))
  }

  /** The part of an authorized seal that runs before the host signature is written. */
  function SealUnderKey(c: Suite, t: TpmState, secret: seq<byte>, pcrs: seq<nat>, pem: string,
                        policyRef: seq<byte>): Result<SealedEnvelope> {
    if !Selectable(pcrs) then Err(Tpm)
    else
      var name :- NameOf(c, pem);
      Ok(Envelope(t, P.Authorized(pcrs, pem, policyRef).SecurityLevel(), pcrs, AuthorizedBy(pem, policyRef),
                  PolicyAuthorized(c, name, policyRef), secret))
  }

  /** `signs` is false when the signing half failed, which leaves the files unchanged. */
  function SealAuthorized(c: Suite, t: TpmState, f: HostFiles, secret: seq<byte>, pcrs: seq<nat>, pem: string,
                          policyRef: seq<byte>, signs: bool): (HostFiles, Result<SealedEnvelope>) {
    var signer := ClassifySigner(c, f.pub, pem);
    if signer.Err? then (f, Err(signer.error))
    else
      var env := SealUnderKey(c, t, secret, pcrs, pem, policyRef);
      if env.Err? || signer.value.Systemd? then (f, env)
      else
        var f' := EnsureSignature(c, t, f, pcrs, policyRef);
        if f'.Err? then (f, Err(f'.error))
        else if !signs then (f, Err(Tpm))
        else (f'.value, env)
  }

  /** What a seal reads from the machine besides Secure Boot and the PCRs, the key it would
      generate, and whether each of its file writes goes through. */
  datatype SealInputs = SealInputs(
    boot: P.BootMode,
    signedAvailable: bool,
    systemdPem: Option<string>,
    newKey: PrivateKey,
    keyWrite: bool,
    pubWrite: bool,
    signs: bool)

  /** The discovered systemd key, dropped unless it is the pinned one. */
  function TrustedPem(c: Suite, pem: Option<string>): Option<string> {
    if pem.Some? && c.Fingerprint(pem.value) == Ok(TRUSTED_PUBKEY_SPKI_SHA256) then pem else None
  }

  function PlanFor(c: Suite, secureBoot: bool, f: HostFiles, x: SealInputs): (r: (HostFiles, P.PolicyPlan))
    ensures r.1.Authorized? ==> r.1.pcrs != []
  {
    var systemdPem := TrustedPem(c, x.systemdPem);
    if P.WantsHostKey(secureBoot, x.boot, x.signedAvailable, systemdPem) then
      var (f', made) := EnsureKey(c, f, x.newKey, x.keyWrite, x.pubWrite);
      (f', P.Decide(secureBoot, x.boot, x.signedAvailable, systemdPem, if made.Ok? then Some(made.value) else None))
    else
      (f, P.Decide(secureBoot, x.boot, x.signedAvailable, systemdPem, None))
  }

  function SealWithPlan(c: Suite, t: TpmState, f: HostFiles, secret: seq<byte>, plan: P.PolicyPlan,
                        signs: bool): (HostFiles, Result<SealedEnvelope>) {
    match plan
    case Authorized(pcrs, pem, policyRef) => SealAuthorized(c, t, f, secret, pcrs, pem, policyRef, signs)
    case Literal(pcrs) => (f, SealLiteral(c, t, secret, pcrs))
    case NoBinding => (f, SealLiteral(c, t, secret, []))
  }

  function SealSecret(c: Suite, t: TpmState, secureBoot: bool, f: HostFiles, secret: seq<byte>,
                      x: SealInputs): (HostFiles, Result<SealedEnvelope>) {
    var (f', plan) := PlanFor(c, secureBoot, f, x);
    SealWithPlan(c, t, f', secret, plan, x.signs)
  }

  // ---------- unsealing ----------

  function LoadSealed(t: TpmState, env: SealedEnvelope): Result<seq<byte>> {
    if env.public.BadPublic? || env.private.BadPrivate? then Err(Tpm)
    else if env.private.parent != t.seed || env.private.authPolicy != env.public.authPolicy then Err(Tpm)
    else Ok(env.private.secret)
  }

  function UnsealLiteral(c: Suite, t: TpmState, env: SealedEnvelope): Result<seq<byte>> {
    var secret :- LoadSealed(t, env);
    if !Selectable(env.pcrs) || CurrentPolicy(c, t, env.pcrs) != env.public.authPolicy then Err(Tpm)
    else Ok(secret)
  }

  function ExpectedPcrs(signer: SignerKind): seq<nat> {
    match signer
    case Systemd => P.AUTHORIZED_PCRS
    case LinhelloHost => P.LINHELLO_SIGNED_PCRS
  }

  /** The signatures the unseal consults: systemd's own artifacts, or this host's file. */
  function SignaturesOf(signer: SignerKind, f: HostFiles,
                        systemd: Result<seq<PcrSignature>>): Result<seq<PcrSignature>> {
    match signer
    case Systemd => systemd
    case LinhelloHost => HostSignatures(f.sigs, DEFAULT_BANK)
  }

  /** PolicyAuthorize under the first signature on file for the present policy digest. */
  function Authorize(c: Suite, t: TpmState, sigs: Result<seq<PcrSignature>>, pcrs: seq<nat>, pem: string,
                     policyRef: seq<byte>, authPolicy: seq<byte>): Result<()> {
    if !Selectable(pcrs) then Err(Tpm)
    else
      var approved := PolicyPcr(c, ZeroDigest(), t.bank, pcrs);
      var onFile :- sigs;
      var s := FindForPolicy(onFile, pcrs, approved);
      if s.None? then Err(Policy)
      else
        var name :- NameOf(c, pem);
        if !c.verify(c.parsePem(pem).value, AHash(c, approved, policyRef), s.value.sig) then Err(Tpm)
        else if PolicyAuthorized(c, name, policyRef) != authPolicy then Err(Tpm)
        else Ok(())
  }

  function ReadAuthorized(c: Suite, t: TpmState, sigs: Result<seq<PcrSignature>>, env: SealedEnvelope,
                          pem: string, policyRef: seq<byte>): Result<seq<byte>> {
    var secret :- LoadSealed(t, env);
    var done :- Authorize(c, t, sigs, env.pcrs, pem, policyRef, env.public.authPolicy);
    Ok(secret)
  }

  /** The files after the self-heal attempt; a failed attempt (`heals` false) changes nothing. */
  function Heal(c: Suite, t: TpmState, secureBoot: bool, f: HostFiles, signer: SignerKind, env: SealedEnvelope,
                policyRef: seq<byte>, heals: bool): HostFiles {
    if signer.LinhelloHost? && secureBoot && heals then
      var f' := EnsureSignature(c, t, f, env.pcrs, policyRef);
      if f'.Ok? then f'.value else f
    else f
  }

  function UnsealAuthorized(c: Suite, t: TpmState, secureBoot: bool, f: HostFiles, systemd: Result<seq<PcrSignature>>,
                            env: SealedEnvelope, pem: string, policyRef: seq<byte>, heals: bool): (HostFiles,
                            Result<seq<byte>>) {
    var signer := ClassifySigner(c, f.pub, pem);
    if signer.Err? then (f, Err(signer.error))
    else if env.pcrs != ExpectedPcrs(signer.value) then (f, Err(Policy))
    else
      var f' := Heal(c, t, secureBoot, f, signer.value, env, policyRef, heals);
      (f', ReadAuthorized(c, t, SignaturesOf(signer.value, f', systemd), env, pem, policyRef))
  }

  function Unseal(c: Suite, t: TpmState, secureBoot: bool, f: HostFiles, systemd: Result<seq<PcrSignature>>,
                  env: SealedEnvelope, heals: bool): (HostFiles, Result<seq<byte>>) {
    match env.policy
    case PcrLiteral => (f, UnsealLiteral(c, t, env))
    case AuthorizedBy(pem, policyRef) => UnsealAuthorized(c, t, secureBoot, f, systemd, env, pem, policyRef, heals)
  }
}
