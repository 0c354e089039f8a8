/** Which policy a secret is bound to, decided from the machine's boot state. */
module Policy {
  import opened Wrappers
  import opened Hex

  const AUTHORIZED_PCRS: seq<nat> := [11]
  const LINHELLO_SIGNED_PCRS: seq<nat> := [7]
  const LITERAL_PCRS: seq<nat> := [7]

  datatype BootMode = Uki | Grub | Unknown

  datatype SecurityLevel = Full | Medium | Basic

  datatype PolicyPlan =
    | Authorized(pcrs: seq<nat>, pubkeyPem: string, policyRef: seq<byte>)
    | Literal(pcrs: seq<nat>)
    | NoBinding
  {
    function SecurityLevel(): SecurityLevel {
      match this
      case Authorized(pcrs, _, _) => if pcrs == AUTHORIZED_PCRS then Full else Medium
      case Literal(_) => Medium
      case NoBinding => Basic
    }

    /** The PCRs replayed at unseal time. */
    function Pcrs(): seq<nat> {
      if NoBinding? then [] else pcrs
    }
  }

  /** The systemd loader is consulted only for a UKI boot with signed artifacts. */
  function SystemdPem(boot: BootMode, signedAvailable: bool, systemdPem: Option<string>): Option<string> {
    if boot.Uki? && signedAvailable then systemdPem else None
  }

  /** The host key is created only when Secure Boot is on and the systemd path is not viable. */
  predicate WantsHostKey(secureBoot: bool, boot: BootMode, signedAvailable: bool, systemdPem: Option<string>) {
    secureBoot && SystemdPem(boot, signedAvailable, systemdPem).None?
  }

  function Decide(secureBoot: bool, boot: BootMode, signedAvailable: bool,
                  systemdPem: Option<string>, hostPem: Option<string>): (plan: PolicyPlan)
    ensures plan.Authorized? ==> secureBoot && plan.policyRef == []
  {
    if !secureBoot then NoBinding
    else
      match SystemdPem(boot, signedAvailable, systemdPem)
      case Some(pem) => Authorized(AUTHORIZED_PCRS, pem, [])
      case None =>
        match hostPem
        case Some(pem) => Authorized(LINHELLO_SIGNED_PCRS, pem, [])
        case None => Literal(LITERAL_PCRS)
  }

  /** What the level of a plan tells its user: nothing is bound exactly without Secure Boot, and the
      full level is reached exactly by a signed UKI boot whose systemd key could be read. */
  lemma LevelMeans(secureBoot: bool, boot: BootMode, signedAvailable: bool, systemdPem: Option<string>,
                   hostPem: Option<string>)
    ensures var plan := Decide(secureBoot, boot, signedAvailable, systemdPem, hostPem);
            && (plan.SecurityLevel() == Basic <==> plan.Pcrs() == [])
            && (plan.SecurityLevel() == Basic <==> !secureBoot)
            && (plan.SecurityLevel() == Full <==> secureBoot && boot.Uki? && signedAvailable && systemdPem.Some?)
            && (plan.Authorized? ==>
                  Some(plan.pubkeyPem) == if plan.SecurityLevel() == Full then systemdPem else hostPem)
  {
    assert LINHELLO_SIGNED_PCRS[0] != AUTHORIZED_PCRS[0];
  }
}
