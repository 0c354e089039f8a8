/**
 The TPM connection the sealing code drives: live transient objects and sessions, any call of
 which may fail. Each operation is proved to compute what module Sealing says, and to leave the
 live tables as it found them.
 */
module TpmContext {
  import opened Wrappers
  import opened Hex
  import opened Suite
  import opened PcrSig
  import opened Sealing
  import P = Policy

  /** A live entry of the TPM: a transient object, or a session with its policy digest. */
  datatype Loaded =
    | Srk(seed: nat)
    | SealedObject(public: PublicBlob, secret: seq<byte>)
    | VerifyKey(key: PublicKey)
    | Session(digest: seq<byte>)

  /** The parent key: the persistent object at linhello's handle, or a transient one. */
  datatype SrkHandle = PersistentSrk | TransientSrk(h: nat) {
    /** How many live entries it takes. */
    function Entries(): int {
      if TransientSrk? then 1 else 0
    }
  }

  /** TPM2_VerifySignature's proof that a named key signed a message. */
  datatype Ticket = Ticket(keyName: seq<byte>, message: seq<byte>)

  /** The commands that matter to the live table, and the rest. */
  datatype Command = Lookup | Creating(h: nat) | FlushContext(h: nat) | EvictControl(occupied: bool) | OtherCommand

  /** The live handles after one more command. */
  function Left(handles: set<nat>, k: Command, fault: bool): set<nat> {
    if fault then handles
    else if k.Creating? then handles + {k.h}
    else if k.FlushContext? then handles - {k.h}
    else handles
  }

  /** The handles live after a trace: created, and not flushed since. */
  ghost function Replay(trace: seq<Command>, faults: nat -> bool): set<nat> {
    if trace == [] then {}
    else
      var n := |trace| - 1;
      Left(Replay(trace[..n], faults), trace[n], faults(n))
  }

  /** Refusals so far: of each kind that matters, and of any command. */
  datatype Refusals = Refusals(lookups: nat, flushes: nat, evicts: nat, all: nat)

  /** The refusals after one more command; an evict is also refused, by the TPM itself, when the persistent
      handle is occupied. */
  function Counted(r: Refusals, k: Command, fault: bool): Refusals {
    var n := if fault then 1 else 0;
    Refusals(r.lookups + (if k.Lookup? then n else 0),
             r.flushes + (if k.FlushContext? then n else 0),
             r.evicts + (if k.EvictControl? then (if k.occupied then 1 else n) else 0),
             r.all + n)
  }

  /** The refusals in a trace when the n-th command is refused according to `faults`. */
  ghost function Tally(trace: seq<Command>, faults: nat -> bool): Refusals {
    if trace == [] then Refusals(0, 0, 0, 0)
    else
      var n := |trace| - 1;
      Counted(Tally(trace[..n], faults), trace[n], faults(n))
  }

  lemma CountedPlainly(r: Refusals, k: Command)
    ensures !k.EvictControl? ==> Counted(r, k, false) == r
    ensures k.Creating? || k.OtherCommand? ==> Counted(r, k, true) == Counted(r, OtherCommand, true)
    ensures Counted(r, OtherCommand, true).all == r.all + 1
  {
  }

  lemma OneMore(trace: seq<Command>, faults: nat -> bool, k: Command)
    ensures Tally(trace + [k], faults) == Counted(Tally(trace, faults), k, faults(|trace|))
    ensures Replay(trace + [k], faults) == Left(Replay(trace, faults), k, faults(|trace|))
  {
    hide Counted, Left;
    assert (trace + [k])[..|trace|] == trace;
  }

  lemma DropOne(m: map<nat, Loaded>, h: nat)
    requires h in m
    ensures |m - {h}| == |m| - 1
  {
    assert m == (m - {h})[h := m[h]];
  }

  lemma {:induction false} SameKeys(a: map<nat, Loaded>, b: map<nat, Loaded>)
    requires |a| == |b| && forall h <- a :: h in b && b[h] == a[h]
    ensures a == b
    decreases |a|
  {
    if h :| h in a {
      DropOne(a, h);
      DropOne(b, h);
      SameKeys(a - {h}, b - {h});
      assert a == (a - {h})[h := a[h]] && b == (b - {h})[h := b[h]];
    }
  }

  /** The TPM, its live table, the next handle and the refusals, at one moment. */
  datatype Moment = Moment(tpm: TpmState, live: map<nat, Loaded>, next: nat, refused: Refusals)

  /**
   What holds between two moments of any operation. The seed, the PCRs and an occupied persistent
   handle stay as they were. The live table has gained so many entries, and one more for each refused
   flush and evict. A refused evict comes with a refused command, on an occupied handle with a
   refused lookup.
   */
  predicate Steps(a: Moment, b: Moment, entries: int) {
    && a.next <= b.next
    && b.tpm == a.tpm.(slot := b.tpm.slot)
    && (!a.tpm.slot.Empty? ==> b.tpm == a.tpm)
    && |b.live| + a.refused.flushes + a.refused.evicts == |a.live| + entries + b.refused.flushes + b.refused.evicts
    && a.refused.lookups <= b.refused.lookups && a.refused.flushes <= b.refused.flushes
    && a.refused.evicts <= b.refused.evicts && a.refused.all <= b.refused.all
    && b.refused.flushes - a.refused.flushes <= b.refused.all - a.refused.all
    && b.refused.evicts - a.refused.evicts <= b.refused.all - a.refused.all
    && (!a.tpm.slot.Empty? ==> b.refused.evicts - a.refused.evicts <= b.refused.lookups - a.refused.lookups)
  }

  lemma Then(a: Moment, b: Moment, c: Moment, k: int, l: int)
    requires Steps(a, b, k) && Steps(b, c, l)
    ensures Steps(a, c, k + l)
    ensures a.refused.all <= b.refused.all <= c.refused.all
  {
  }

  /** A scope: take a handle (or none, k being 0), use it, give it back. */
  lemma Scope(a: Moment, b: Moment, c: Moment, d: Moment, k: int)
    requires Steps(a, b, k) && Steps(b, c, 0) && Steps(c, d, -k)
    ensures Steps(a, d, 0)
    ensures a.refused.all <= b.refused.all <= c.refused.all <= d.refused.all
  {
  }

  /** A first run, from after the lookup: as Steps, but on an occupied handle one evict is refused without
      any other refusal. */
  predicate FirstRun(a: Moment, b: Moment) {
    && a.next <= b.next
    && (forall h <- a.live :: h in b.live && b.live[h] == a.live[h])
    && b.tpm == a.tpm.(slot := b.tpm.slot)
    && (!a.tpm.slot.Empty? ==> b.tpm == a.tpm)
    && |b.live| + a.refused.flushes + a.refused.evicts == |a.live| + b.refused.flushes + b.refused.evicts
    && a.refused.lookups == b.refused.lookups && a.refused.flushes <= b.refused.flushes
    && a.refused.evicts <= b.refused.evicts && a.refused.all <= b.refused.all
    && b.refused.flushes - a.refused.flushes <= b.refused.all - a.refused.all
    && b.refused.evicts - a.refused.evicts <= (if a.tpm.slot.Empty? then b.refused.all - a.refused.all else 1)
  }

  /** The moment after a refused command of no particular kind. */
  function Declined(a: Moment): Moment {
    a.(refused := Counted(a.refused, OtherCommand, true))
  }

  /** The moment after a command that created an entry. */
  function Created(a: Moment, entry: Loaded): Moment {
    a.(live := a.live[a.next := entry], next := a.next + 1)
  }

  /** The moment after a flush. */
  function Flushed(a: Moment, h: nat, fault: bool): Moment {
    a.(live := if fault then a.live else a.live - {h}, refused := Counted(a.refused, FlushContext(h), fault))
  }

  /** The moment after an evict. */
  function Evicted(a: Moment, fault: bool): Moment {
    var ok := !fault && a.tpm.slot.Empty?;
    a.(tpm := if ok then a.tpm.(slot := LinhelloSrk) else a.tpm,
       refused := Counted(a.refused, EvictControl(!a.tpm.slot.Empty?), fault))
  }

  lemma DeclinedSteps(a: Moment)
    ensures Steps(a, Declined(a), 0)
  {
  }

  lemma CreatedSteps(a: Moment, entry: Loaded)
    requires a.next !in a.live
    ensures Steps(a, Created(a, entry), 1)
  {
  }

  lemma FlushedSteps(a: Moment, h: nat, fault: bool)
    requires h in a.live
    ensures Steps(a, Flushed(a, h, fault), -1)
  {
    DropOne(a.live, h);
  }

  /** Create, evict, flush and set the authorization, in all the ways that can end. */
  lemma FirstRunEnds(a: Moment, entry: Loaded, evictFault: bool, flushFault: bool)
    requires a.next !in a.live
    ensures FirstRun(a, Declined(a)) && Declined(a).refused.all > a.refused.all
    ensures var b := Evicted(Created(a, entry), evictFault);
            && b.live == Created(a, entry).live
            && (evictFault || !a.tpm.slot.Empty? ==>
                  FirstRun(a, b) && b.tpm == a.tpm && (evictFault ==> b.refused.all > a.refused.all))
            && (!(evictFault || !a.tpm.slot.Empty?) ==>
                  var d := Flushed(b, a.next, flushFault);
                  && b.tpm.slot.LinhelloSrk?
                  && FirstRun(a, d) && FirstRun(a, Declined(d)) && Declined(d).refused.all > a.refused.all)
  {
    assert a.live[a.next := entry] - {a.next} == a.live;
  }

  lemma LookupThen(a: Moment, b: Moment, c: Moment, fault: bool)
    requires b == a.(refused := Counted(a.refused, Lookup, fault))
    requires FirstRun(b, c) && (fault || b.tpm.slot.Empty?)
    ensures Steps(a, c, 0) && a.refused.all + (if fault then 1 else 0) == b.refused.all <= c.refused.all
    ensures forall h <- a.live :: h in c.live && c.live[h] == a.live[h]
  {
  }

  /** Entries of a are in b, unchanged. */
  predicate Retains(a: map<nat, Loaded>, b: map<nat, Loaded>) {
    forall h <- a :: h in b && b[h] == a[h]
  }

  /** The same, except for x. */
  predicate RetainsOther(a: map<nat, Loaded>, b: map<nat, Loaded>, x: nat) {
    forall h <- a :: h != x ==> h in b && b[h] == a[h]
  }

  /** What was there when a parent key was taken is there when it has been released. */
  lemma ParentScope(a: Moment, b: Moment, c: Moment, d: Moment, srk: SrkHandle)
    requires Retains(a.live, b.live) && Retains(b.live, c.live)
    requires srk.TransientSrk? ==> srk.h !in a.live && RetainsOther(c.live, d.live, srk.h)
    requires srk.PersistentSrk? ==> d.live == c.live
    requires Steps(a, b, srk.Entries()) && Steps(b, c, 0) && Steps(c, d, -srk.Entries())
    ensures Retains(a.live, d.live) && Steps(a, d, 0)
    ensures a.refused.all <= b.refused.all <= c.refused.all <= d.refused.all
  {
    hide Steps;
    Scope(a, b, c, d, srk.Entries());
  }

  lemma Stays(a: Moment)
    ensures Steps(a, a, 0)
  {
  }

  /** No result depends on what sits at the persistent handle. */
  lemma SlotDoesNotMatter(c: Suite, t: TpmState, slot: Slot, env: SealedEnvelope, sigs: Result<seq<PcrSignature>>,
                          pem: string,
                          policyRef: seq<byte>)
    ensures var t' := t.(slot := slot);
            && UnsealLiteral(c, t', env) == UnsealLiteral(c, t, env)
            && ReadAuthorized(c, t', sigs, env, pem, policyRef) == ReadAuthorized(c, t, sigs, env, pem, policyRef)
  {
    hide PolicyPcr, FindForPolicy, NameOf, AHash, PolicyAuthorized, Selectable;
  }

  class Context {
    const c: Suite
    // whether the n-th command is refused
    const faults: nat -> bool

    var tpm: TpmState
    // the TPM's live transient objects and sessions
    var live: map<nat, Loaded>
    var next: nat
    var calls: nat
    ghost var trace: seq<Command>

    constructor (c: Suite, faults: nat -> bool, tpm: TpmState)
      ensures Valid() && live == map[] && calls == 0 && next == 0
      ensures this.tpm == tpm && this.c == c && this.faults == faults
    {
      this.c, this.faults, this.tpm := c, faults, tpm;
      live, next, calls, trace := map[], 0, 0, [];
    }

    /** The live table holds exactly the handles that the commands so far have left live. */
    ghost predicate Valid()
      reads this
    {
      calls == |trace| && live.Keys == Replay(trace, faults) && forall h <- live :: h < next
    }

    ghost function Refused(): Refusals
      reads this
    {
      Tally(trace, faults)
    }

    /** No command was refused. */
    twostate predicate Clean()
      reads this
    {
      Refused().all == old(Refused()).all
    }

    ghost function Now(): Moment
      reads this
    {
      Moment(tpm, live, next, Refused())
    }

    twostate predicate Gains(entries: int)
      reads this
    {
      Valid() && Steps(old(Now()), Now(), entries)
    }

    twostate predicate Tidy()
      reads this
    {
      Gains(0)
    }

    /** Entries that were live before still are, unchanged. */
    twostate predicate KeepsAll()
      reads this
    {
      Retains(old(live), live)
    }

    /** The same, but `s` may have changed. */
    twostate predicate KeepsBut(s: nat)
      reads this
    {
      forall h <- old(live) :: h in live && (h != s ==> live[h] == old(live)[h])
    }

    /** Entries other than `h` are still live, unchanged. */
    twostate predicate KeepsOther(h: nat)
      reads this
    {
      RetainsOther(old(live), live, h)
    }

    /** The live table as an operation leaves it: what was there is there, unchanged, and what is new is
        one entry per refused flush or evict. */
    twostate predicate Returns()
      reads this
    {
      Tidy() && KeepsAll()
    }

    /** So an operation whose flushes and evicts go through leaves the table as it found it. */
    twostate lemma NothingLeft()
      requires Returns() && Refused().flushes == old(Refused()).flushes && Refused().evicts == old(Refused()).evicts
      ensures live == old(live)
    {
      SameKeys(old(live), live);
    }

    /** What the scopes are for: an operation leaves the table as it found it when no command is refused,
        and, on an occupied handle, whenever its flushes and lookups go through, however many other
        commands are refused. */
    twostate predicate LeavesNothing()
      reads this
    {
      && (Clean() ==> live == old(live))
      && (&& !old(tpm).slot.Empty?
          && Refused().flushes == old(Refused()).flushes && Refused().lookups == old(Refused()).lookups ==>
            live == old(live))
    }

    twostate lemma CleanLeavesNothing()
      requires Returns()
      ensures LeavesNothing()
    {
      hide Tally, Replay;
      if Refused().flushes == old(Refused()).flushes && Refused().evicts == old(Refused()).evicts {
        NothingLeft();
      }
    }

    // ---------- commands ----------

    method Answer(k: Command) returns (ok: bool)
      requires Valid() && !k.EvictControl?
      modifies this`calls, this`trace
      ensures ok == !faults(old(calls)) && calls == |trace| == old(calls) + 1
      ensures Replay(trace, faults) == Left(live.Keys, k, !ok)
      ensures Refused() == Counted(old(Refused()), k, !ok)
    {
      ok := !faults(calls);
      OneMore(trace, faults, k);
      trace := trace + [k];
      calls := calls + 1;
    }

    /** A command that allocates a handle for `entry`. */
    method Allocate(entry: Loaded) returns (r: Result<nat>)
      requires Valid()
      modifies this`live, this`next, this`calls, this`trace
      ensures calls == old(calls) + 1 && (r.Ok? <==> Clean())
      ensures r == if faults(old(calls)) then Err(Tpm) else Ok(old(next))
      ensures r.Ok? ==> Gains(1) && Now() == Created(old(Now()), entry)
      ensures r.Err? ==> Gains(0) && Now() == Declined(old(Now()))
    {
      hide Tally, Replay, Steps, Counted;
      ghost var a := Now();
      CountedPlainly(a.refused, Creating(next));
      var ok := Answer(Creating(next));
      if !ok {
        DeclinedSteps(a);
        assert Now() == Declined(a);
        return Err(Tpm);
      }
      CreatedSteps(a, entry);
      r := Ok(next);
      live := live[next := entry];
      next := next + 1;
      assert live.Keys == a.live.Keys + {a.next};
      assert Now() == Created(a, entry);
    }

    /** FlushContext; the callers ignore a refusal, which leaves the entry live. */
    method Flush(h: nat)
      requires Valid() && h in live
      modifies this`live, this`calls, this`trace
      ensures calls == old(calls) + 1
      ensures Now() == Flushed(old(Now()), h, faults(old(calls)))
      ensures Gains(-1) && KeepsOther(h)
    {
      hide Tally, Replay, Steps;
      FlushedSteps(Now(), h, faults(calls));
      var ok := Answer(FlushContext(h));
      if ok {
        live := live - {h};
      }
    }

    /** EvictControl into linhello's handle: refused, too, when that is occupied. */
    method Evict() returns (ok: bool)
      requires Valid()
      modifies this`tpm, this`calls, this`trace
      ensures Valid() && calls == old(calls) + 1
      ensures ok <==> !faults(old(calls)) && old(tpm).slot.Empty?
      ensures Now() == Evicted(old(Now()), faults(old(calls)))
    {
      hide Tally, Replay;
      ok := !faults(calls) && tpm.slot.Empty?;
      var command := EvictControl(!tpm.slot.Empty?);
      OneMore(trace, faults, command);
      trace := trace + [command];
      calls := calls + 1;
      if ok {
        tpm := tpm.(slot := LinhelloSrk);
      }
    }

    predicate IsSession(s: nat)
      reads this
    {
      s in live && live[s].Session?
    }

    method PolicyPcrCommand(s: nat, pcrs: seq<nat>) returns (r: Result<()>)
      requires Valid() && s in live && IsSession(s)
      modifies this`live, this`calls, this`trace
      ensures Tidy() && KeepsBut(s) && s in live && IsSession(s)
      ensures r.Ok? || Clean() ==>
                r == Ok(()) && live[s].digest == PolicyPcr(c, old(live[s].digest), tpm.bank, pcrs)
      ensures r.Err? ==> r == Err(Tpm)
    {
      hide Tally, Replay;
      var ok := Answer(OtherCommand);
      if !ok {
        return Err(Tpm);
      }
      live := live[s := Session(PolicyPcr(c, live[s].digest, tpm.bank, pcrs))];
      return Ok(());
    }

    method PolicyGetDigest(s: nat) returns (r: Result<seq<byte>>)
      requires Valid() && IsSession(s)
      modifies this`calls, this`trace
      ensures Tidy()
      ensures r.Ok? || Clean() ==> r == Ok(live[s].digest)
      ensures r.Err? ==> r == Err(Tpm)
    {
      hide Tally, Replay;
      var ok := Answer(OtherCommand);
      return if ok then Ok(live[s].digest) else Err(Tpm);
    }

    /** TPM2_PolicyAuthorize: the ticket must vouch for aHash under the named key, and the session
        must have reached the approved policy; then the digest is reset and rebuilt. */
    method PolicyAuthorizeCommand(s: nat, approved: seq<byte>, policyRef: seq<byte>, keyName: seq<byte>, ticket: Ticket)
      returns (r: Result<()>)
      requires Valid() && s in live && IsSession(s)
      modifies this`live, this`calls, this`trace
      ensures Tidy() && KeepsBut(s) && s in live && IsSession(s)
      ensures r.Ok? ==> live[s].digest == PolicyAuthorized(c, keyName, policyRef)
      ensures Clean() ==>
                (r.Ok? <==> ticket == Ticket(keyName, AHash(c, approved, policyRef)) && old(live[s].digest) == approved)
      ensures r.Err? ==> r == Err(Tpm)
    {
      hide Tally, Replay;
      var ok := Answer(OtherCommand);
      if !ok || ticket != Ticket(keyName, c.sha256(approved + policyRef)) || live[s].digest != approved {
        return Err(Tpm);
      }
      live := live[s := Session(PolicyUpdate(c, ZeroDigest(), CC_POLICY_AUTHORIZE, keyName, policyRef))];
      return Ok(());
    }

    method UnsealCommand(s: nat, h: nat) returns (r: Result<seq<byte>>)
      requires Valid() && IsSession(s) && h in live && live[h].SealedObject? && live[h].public.PublicBlob?
      modifies this`calls, this`trace
      ensures Tidy()
      ensures r.Ok? || Clean() ==>
                r == if live[s].digest == live[h].public.authPolicy then Ok(live[h].secret) else Err(Tpm)
      ensures r.Err? ==> r == Err(Tpm)
    {
      hide Tally, Replay;
      var ok := Answer(OtherCommand);
      if !ok || live[s].digest != live[h].public.authPolicy {
        return Err(Tpm);
      }
      return Ok(live[h].secret);
    }

    // ---------- scopes ----------

    /** Start a session and set its attributes; a session whose attributes cannot be set is flushed. */
    method StartSession() returns (r: Result<nat>)
      requires Valid()
      modifies this`live, this`next, this`calls, this`trace
      ensures Clean() ==> r.Ok?
      ensures r.Err? ==> r == Err(Tpm) && Returns()
      ensures r.Ok? ==> Gains(1) && r.value == old(next) && live == old(live)[r.value := Session(ZeroDigest())]
    {
      hide Tally, Replay, Steps, Counted, Flushed, ZeroDigest;
      ghost var a := Now();
      r := Allocate(Session(ZeroDigest()));
      if r.Err? {
        return;
      }
      ghost var b := Now();
      CountedPlainly(b.refused, OtherCommand);
      DeclinedSteps(b);
      var ok := Answer(OtherCommand);
      if !ok {
        ghost var m := Now();
        Flush(r.value);
        Scope(a, b, m, Now(), 1);
        return Err(Tpm);
      }
    }

    /** When the SRK's first-run persisting is refused: by a fault, or because the handle turns out to be
        occupied although looking it up failed. */
    ghost predicate EvictFails(n: nat)
      reads this
    {
      !faults(n + 1) && if tpm.slot.Empty? then faults(n + 2) else faults(n)
    }

    /** Derive the SRK and persist it. A refused evict returns at once, and the new primary stays live. */
    method FirstRunSrk() returns (r: Result<SrkHandle>)
      requires Valid()
      modifies this
      ensures Clean() && old(tpm).slot.Empty? ==> r.Ok?
      ensures r.Err? ==> r == Err(Tpm)
      ensures r.Ok? ==> r == Ok(PersistentSrk) && tpm.slot.LinhelloSrk?
      ensures Valid() && KeepsAll() && FirstRun(old(Now()), Now()) && tpm == old(tpm).(slot := tpm.slot)
      ensures !faults(old(calls)) && (faults(old(calls) + 1) || !old(tpm).slot.Empty?) ==>
                r.Err? && live == old(live)[old(next) := Srk(tpm.seed)]
    {
      hide Tally, Replay, Steps, Counted, Evicted, Flushed;
      ghost var a := Now();
      FirstRunEnds(a, Srk(tpm.seed), faults(calls + 1), faults(calls + 2));
      var primary := Allocate(Srk(tpm.seed));
      if primary.Err? {
        return Err(Tpm);
      }
      r := PersistSrk(primary.value);
    }

    method PersistSrk(h: nat) returns (r: Result<SrkHandle>)
      requires Valid() && h in live
      modifies this
      ensures Valid() && (r == Ok(PersistentSrk) || r == Err(Tpm))
      ensures var b := Evicted(old(Now()), faults(old(calls)));
              && tpm == b.tpm
              && if faults(old(calls)) || !old(tpm).slot.Empty? then r.Err? && Now() == b
                 else var d := Flushed(b, h, faults(old(calls) + 1)); Now() == if r.Ok? then d else Declined(d)
    {
      hide Tally, Replay, Steps, Counted;
      var evicted := Evict();
      if !evicted {
        return Err(Tpm);
      }
      Flush(h);
      ghost var d := Now();
      CountedPlainly(d.refused, OtherCommand);
      var authSet := Answer(OtherCommand);
      assert Now() == if authSet then d else Declined(d);
      return if authSet then Ok(PersistentSrk) else Err(Tpm);
    }

    /** The SRK, persisted on first use. A refused evict returns at once, and the new primary stays
        live. */
    method LoadOrCreateSrk() returns (r: Result<SrkHandle>)
      requires Valid()
      modifies this
      ensures Clean() ==> r.Ok?
      ensures r.Err? ==> r == Err(Tpm)
      ensures tpm == old(tpm).(slot := tpm.slot)
      ensures r.Err? ==> Returns()
      ensures r.Ok? ==> Gains(r.value.Entries()) && KeepsAll() && IsSrk(r.value)
      ensures r.Ok? && r.value.TransientSrk? ==> r.value.h !in old(live)
      ensures Clean() ==> (r.value.PersistentSrk? <==> !old(tpm).slot.ForeignKey?)
      ensures old(EvictFails(calls)) ==> r.Err? && live == old(live)[old(next) := Srk(tpm.seed)]
    {
      hide Tally, Replay, Steps, FirstRun, Counted;
      ghost var a := Now();
      CountedPlainly(a.refused, Lookup);
      var visible := Answer(Lookup);
      ghost var b := Now();
      if visible && !tpm.slot.Empty? {
        assert b == a;
        r := OccupiedSrk();
        return;
      }
      r := FirstRunSrk();
      LookupThen(a, b, Now(), !visible);
    }

    /** What is at the handle, if it is ours, and otherwise a transient SRK. */
    method OccupiedSrk() returns (r: Result<SrkHandle>)
      requires Valid() && !tpm.slot.Empty?
      modifies this`live, this`next, this`calls, this`trace
      ensures Clean() ==> r.Ok?
      ensures r.Err? ==> r == Err(Tpm) && Returns()
      ensures r.Ok? ==> Gains(r.value.Entries()) && KeepsAll() && IsSrk(r.value)
      ensures r.Ok? && r.value.TransientSrk? ==> r.value.h !in old(live)
      ensures Clean() ==> (r.value.PersistentSrk? <==> tpm.slot.LinhelloSrk?)
    {
      hide Tally, Replay;
      var readable := Answer(OtherCommand);
      if readable && tpm.slot.LinhelloSrk? {
        var authSet := Answer(OtherCommand);
        return if authSet then Ok(PersistentSrk) else Err(Tpm);
      }
      var transient := Allocate(Srk(tpm.seed));
      return if transient.Ok? then Ok(TransientSrk(transient.value)) else Err(Tpm);
    }

    /** The end of an SRK scope: a transient SRK is flushed, the persistent one never is. */
    method ReleaseSrk(srk: SrkHandle)
      requires Valid() && (srk.TransientSrk? ==> srk.h in live)
      modifies this`live, this`calls, this`trace
      ensures Gains(-srk.Entries())
      ensures if srk.TransientSrk? then KeepsOther(srk.h) else live == old(live) && calls == old(calls)
    {
      hide Tally, Replay;
      if srk.TransientSrk? {
        Flush(srk.h);
      }
    }

    // ---------- operations ----------

    /** The result agrees with its specification whenever it is a success or no command failed. */
    static predicate Agrees<T(==)>(r: Result<T>, spec: Result<T>, clean: bool) {
      clean || r.Ok? ==> r == spec
    }

    method DigestInSession(s: nat, pcrs: seq<nat>) returns (r: Result<seq<byte>>)
      requires Valid() && s in live && live[s] == Session(ZeroDigest())
      modifies this`live, this`calls, this`trace
      ensures Tidy() && KeepsBut(s) && s in live
      ensures Agrees(r, Ok(CurrentPolicy(c, tpm, pcrs)), Clean())
    {
      hide Tally, Replay, Steps, PolicyPcr, ZeroDigest;
      ghost var a := Now();
      if pcrs != [] {
        var step := PolicyPcrCommand(s, pcrs);
        if step.Err? {
          return Err(Tpm);
        }
      }
      ghost var b := Now();
      r := PolicyGetDigest(s);
      if pcrs != [] {
        Then(a, b, Now(), 0, 0);
      }
    }

    /** The PolicyPCR digest of the present PCR state, from a trial session. */
    method ComputePolicyDigest(pcrs: seq<nat>) returns (r: Result<seq<byte>>)
      requires Valid()
      modifies this
      ensures tpm == old(tpm)
      ensures Returns()
      ensures Agrees(r, Ok(CurrentPolicy(c, tpm, pcrs)), Clean())
    {
      hide Tally, Replay, Steps, Flushed, PolicyPcr, ZeroDigest;
      ghost var a := Now();
      var session := StartSession();
      if session.Err? {
        return Err(Tpm);
      }
      var s := session.value;
      ghost var b := Now();
      r := DigestInSession(s, pcrs);
      ghost var m := Now();
      Flush(s);
      Scope(a, b, m, Now(), 1);
    }

    /** Read the PCRs one by one, for diagnostics. */
    method ReadPcrValues(pcrs: seq<nat>) returns (r: Result<seq<(nat, seq<byte>)>>)
      requires Valid()
      modifies this`calls, this`trace
      ensures Tidy()
      ensures Agrees(r, if Selectable(pcrs) then Ok(ReadPcrs(tpm, pcrs)) else Err(Tpm), Clean())
    {
      hide Tally, Replay;
      var out: seq<(nat, seq<byte>)> := [];
      for i := 0 to |pcrs|
        invariant Tidy()
        invariant Selectable(pcrs[..i]) && out == ReadPcrs(tpm, pcrs)[..i]
        invariant Valid()
      {
        assert pcrs[..i + 1] == pcrs[..i] + [pcrs[i]];
        if !(pcrs[i] <= 16 || pcrs[i] == 23) {
          assert pcrs[i] in pcrs;
          return Err(Tpm);
        }
        var ok := Answer(OtherCommand);
        if !ok {
          return Err(Tpm);
        }
        out := out + [(pcrs[i], PcrValue(tpm.bank, pcrs[i]))];
      }
      assert pcrs[..|pcrs|] == pcrs;
      assert ReadPcrs(tpm, pcrs)[..|pcrs|] == ReadPcrs(tpm, pcrs);
      return Ok(out);
    }

    /** TPM2_Create under the SRK. */
    method Create(srk: SrkHandle, authPolicy: seq<byte>, secret: seq<byte>)
      returns (r: Result<(PublicBlob, PrivateBlob)>)
      requires Valid() && IsSrk(srk)
      modifies this`calls, this`trace
      ensures Returns()
      ensures Agrees(r, Ok((PublicBlob(authPolicy), PrivateBlob(tpm.seed, authPolicy, secret))), Clean())
    {
      hide Tally, Replay;
      var ok := Answer(OtherCommand);
      return if ok then Ok((PublicBlob(authPolicy), PrivateBlob(tpm.seed, authPolicy, secret))) else Err(Tpm);
    }

    predicate IsSrk(srk: SrkHandle)
      reads this
    {
      match srk
      case PersistentSrk => tpm.slot.LinhelloSrk?
      case TransientSrk(h) => h in live && live[h] == Srk(tpm.seed)
    }

    /** The body of a literal seal's SRK scope. */
    method SealLiteralUnder(srk: SrkHandle, secret: seq<byte>, pcrs: seq<nat>)
      returns (r: Result<(PublicBlob, PrivateBlob)>)
      requires Valid() && IsSrk(srk) && (srk.TransientSrk? ==> srk.h in live)
      modifies this
      ensures tpm == old(tpm) && IsSrk(srk)
      ensures Returns()
      ensures var authPolicy := CurrentPolicy(c, tpm, pcrs);
              Agrees(r, Ok((PublicBlob(authPolicy), PrivateBlob(tpm.seed, authPolicy, secret))), Clean())
    {
      hide Tally, Replay, Steps;
      ghost var a := Now();
      var digest := ComputePolicyDigest(pcrs);
      if digest.Err? {
        return Err(Tpm);
      }
      ghost var b := Now();
      r := Create(srk, digest.value, secret);
      Then(a, b, Now(), 0, 0);
    }

    method CreateLiteral(secret: seq<byte>, pcrs: seq<nat>) returns (r: Result<(PublicBlob, PrivateBlob)>)
      requires Valid()
      modifies this
      ensures tpm == old(tpm).(slot := tpm.slot)
      ensures Returns()
      ensures var authPolicy := CurrentPolicy(c, old(tpm), pcrs);
              Agrees(r, Ok((PublicBlob(authPolicy), PrivateBlob(old(tpm).seed, authPolicy, secret))), Clean())
    {
      hide Tally, Replay, Steps, Retains, RetainsOther, PolicyPcr;
      ghost var a := Now();
      var srk := LoadOrCreateSrk();
      if srk.Err? {
        return Err(Tpm);
      }
      ghost var b := Now();
      r := SealLiteralUnder(srk.value, secret, pcrs);
      ghost var m := Now();
      ReleaseSrk(srk.value);
      ParentScope(a, b, m, Now(), srk.value);
    }

    method SealLiteralOp(secret: seq<byte>, pcrs: seq<nat>) returns (r: Result<SealedEnvelope>)
      requires Valid()
      modifies this
      ensures Returns()
      ensures Agrees(r, SealLiteral(c, old(tpm), secret, pcrs), Clean())
    {
      hide Tally, Replay, Steps, CurrentPolicy, PcrValue;
      ghost var a := Now();
      var values := ReadPcrValues(pcrs);
      if values.Err? {
        return Err(Tpm);
      }
      ghost var b := Now();
      var created := CreateLiteral(secret, pcrs);
      Then(a, b, Now(), 0, 0);
      if created.Err? {
        return Err(Tpm);
      }
      return Ok(SealedEnvelope(CURRENT_VERSION, P.Literal(pcrs).SecurityLevel(), pcrs, PcrLiteral,
                               created.value.0, created.value.1, values.value));
    }

    /** Load an external verification key given as PEM. */
    method LoadExternal(pem: string) returns (r: Result<nat>)
      requires Valid()
      modifies this
      ensures tpm == old(tpm)
      ensures Clean() ==> (r.Ok? <==> NameOf(c, pem).Ok?) && (r.Err? ==> r.error == NameOf(c, pem).error)
      ensures r.Err? ==> Returns()
      ensures r.Ok? ==>
                && c.parsePem(pem).Some? && c.publicArea(c.parsePem(pem).value).Some?
                && NameOf(c, pem) == Ok(c.KeyName(c.publicArea(c.parsePem(pem).value).value))
      ensures r.Ok? ==> Gains(1) && r.value == old(next)
                        && live == old(live)[r.value := VerifyKey(c.parsePem(pem).value)]
    {
      hide Tally, Replay;
      var key := c.parsePem(pem);
      if key.None? || c.publicArea(key.value).None? {
        return Err(Policy);
      }
      r := Allocate(VerifyKey(key.value));
    }

    /** TPM Name of a loaded key. */
    method GetName(h: nat) returns (r: Result<seq<byte>>)
      requires Valid() && h in live && live[h].VerifyKey? && c.publicArea(live[h].key).Some?
      modifies this`calls, this`trace
      ensures Tidy()
      ensures Agrees(r, Ok(c.KeyName(c.publicArea(live[h].key).value)), Clean())
      ensures r.Err? ==> r == Err(Tpm)
    {
      hide Tally, Replay;
      var ok := Answer(OtherCommand);
      return if ok then Ok(c.KeyName(c.publicArea(live[h].key).value)) else Err(Tpm);
    }

    /** Sign the present PCR state over `pcrs` with the host key unless it is signed already. The
        files change only as Sealing.EnsureSignature says, or not at all. */
    method EnsureHostSignature(dir: ConfigDir, pcrs: seq<nat>, policyRef: seq<byte>, write: bool)
      returns (r: Result<()>)
      requires Valid() && pcrs != []
      modifies this, dir
      ensures tpm == old(tpm)
      ensures Returns()
      ensures var spec := EnsureSignature(c, tpm, old(dir.Files()), pcrs, policyRef);
              && (r.Ok? ==> spec == Ok(dir.Files()))
              && (r.Err? ==> dir.Files() == old(dir.Files()))
              && (Clean() && write && spec.Ok? ==> r.Ok?)
    {
      hide Tally, Replay, Steps;
      Stays(Now());
      if !Selectable(pcrs) {
        return Err(Tpm);
      }
      var approved := ComputePolicyDigest(pcrs);
      if approved.Err? {
        return Err(Tpm);
      }
      var existing := HostSignatures(dir.sigs, DEFAULT_BANK);
      if existing.Err? {
        return Err(existing.error);
      }
      if FindForPolicy(existing.value, pcrs, approved.value).Some? {
        return Ok(());
      }
      if dir.key.None? {
        return Err(Io);
      }
      var sig := c.sign(dir.key.value, AHash(c, approved.value, policyRef));
      r := dir.PersistHostSignature(c, DEFAULT_BANK, pcrs, approved.value, sig, write);
    }

    /** The key-handle scope of an authorized seal: load, take the Name, flush. */
    method KeyNameOf(pem: string) returns (r: Result<seq<byte>>)
      requires Valid()
      modifies this
      ensures tpm == old(tpm)
      ensures Returns()
      ensures Agrees(r, NameOf(c, pem), Clean())
    {
      hide Tally, Replay, Steps, Flushed, NameOf;
      ghost var a := Now();
      var key := LoadExternal(pem);
      if key.Err? {
        return Err(key.error);
      }
      ghost var b := Now();
      r := GetName(key.value);
      ghost var m := Now();
      Flush(key.value);
      Scope(a, b, m, Now(), 1);
    }

    /** The SRK scope of an authorized seal. */
    method CreateUnderSrk(authPolicy: seq<byte>, secret: seq<byte>) returns (r: Result<(PublicBlob, PrivateBlob)>)
      requires Valid()
      modifies this
      ensures tpm == old(tpm).(slot := tpm.slot)
      ensures Returns()
      ensures Agrees(r, Ok((PublicBlob(authPolicy), PrivateBlob(tpm.seed, authPolicy, secret))), Clean())
    {
      hide Tally, Replay, Steps, Retains, RetainsOther;
      ghost var a := Now();
      var srk := LoadOrCreateSrk();
      if srk.Err? {
        return Err(Tpm);
      }
      ghost var b := Now();
      r := Create(srk.value, authPolicy, secret);
      ghost var m := Now();
      ReleaseSrk(srk.value);
      ParentScope(a, b, m, Now(), srk.value);
    }

    /** The two scopes of an authorized seal: the key's, for its name, and then the SRK's. */
    method CreateUnderKey(secret: seq<byte>, pem: string, policyRef: seq<byte>)
      returns (r: Result<(PublicBlob, PrivateBlob)>)
      requires Valid()
      modifies this
      ensures tpm == old(tpm).(slot := tpm.slot)
      ensures Returns()
      ensures var name := NameOf(c, pem);
              Agrees(r, if name.Err? then Err(name.error)
                        else var authPolicy := PolicyAuthorized(c, name.value, policyRef);
                             Ok((PublicBlob(authPolicy), PrivateBlob(tpm.seed, authPolicy, secret))), Clean())
    {
      hide Tally, Replay, Steps, PolicyAuthorized, NameOf;
      ghost var a := Now();
      var name := KeyNameOf(pem);
      if name.Err? {
        return Err(name.error);
      }
      ghost var b := Now();
      var authPolicy := AuthorizePolicyDigest(c, name.value, policyRef);
      r := CreateUnderSrk(authPolicy, secret);
      Then(a, b, Now(), 0, 0);
    }

    method SealUnderKeyOp(secret: seq<byte>, pcrs: seq<nat>, pem: string, policyRef: seq<byte>)
      returns (r: Result<SealedEnvelope>)
      requires Valid()
      modifies this
      ensures tpm == old(tpm).(slot := tpm.slot)
      ensures Returns()
      ensures Agrees(r, SealUnderKey(c, old(tpm), secret, pcrs, pem, policyRef), Clean())
    {
      hide Tally, Replay, Steps, PolicyAuthorized, NameOf, ReadPcrs, Selectable;
      ghost var a := Now();
      var values := ReadPcrValues(pcrs);
      if values.Err? {
        return Err(Tpm);
      }
      ghost var b := Now();
      var created := CreateUnderKey(secret, pem, policyRef);
      Then(a, b, Now(), 0, 0);
      if created.Err? {
        return Err(created.error);
      }
      return Ok(SealedEnvelope(CURRENT_VERSION, P.Authorized(pcrs, pem, policyRef).SecurityLevel(), pcrs,
                               AuthorizedBy(pem, policyRef), created.value.0, created.value.1, values.value));
    }

    /** An authorized seal; for the host signer it also signs the present PCR state. */
    method SealAuthorizedOp(dir: ConfigDir, secret: seq<byte>, pcrs: seq<nat>, pem: string, policyRef: seq<byte>,
                            write: bool)
      returns (r: Result<SealedEnvelope>)
      requires Valid() && pcrs != []
      modifies this, dir
      ensures Returns()
      ensures var spec := SealAuthorized(c, old(tpm), old(dir.Files()), secret, pcrs, pem, policyRef, true);
              && (r.Ok? ==> (dir.Files(), r) == spec)
              && (r.Err? ==> dir.Files() == old(dir.Files()))
              && (Clean() && write ==> (r.Ok? <==> spec.1.Ok?))
    {
      hide Tally, Replay, Steps, SealUnderKey, EnsureSigned;
      Stays(Now());
      var signer := ClassifySigner(c, dir.pub, pem);
      if signer.Err? {
        return Err(signer.error);
      }
      ghost var a := Now();
      r := SealUnderKeyOp(secret, pcrs, pem, policyRef);
      if r.Ok? && signer.value.LinhelloHost? {
        ghost var b := Now();
        var signed := EnsureHostSignature(dir, pcrs, policyRef, write);
        Then(a, b, Now(), 0, 0);
        if signed.Err? {
          return Err(signed.error);
        }
      }
    }

    // ---------- unsealing ----------

    /** TPM2_Load of an envelope's blobs under the SRK. */
    method Load(srk: SrkHandle, env: SealedEnvelope) returns (r: Result<nat>)
      requires Valid() && IsSrk(srk)
      modifies this
      ensures tpm == old(tpm)
      ensures r.Err? ==> r == Err(Tpm) && Returns()
      ensures Clean() && r.Err? ==> LoadSealed(tpm, env) == Err(Tpm)
      ensures r.Ok? ==> env.public.PublicBlob?
      ensures r.Ok? ==> LoadSealed(tpm, env).Ok? && Gains(1) && r.value == old(next)
                        && live == old(live)[r.value := SealedObject(env.public, LoadSealed(tpm, env).value)]
    {
      hide Tally, Replay;
      if env.public.BadPublic? || env.private.BadPrivate? {
        return Err(Tpm);
      }
      if env.private.parent != tpm.seed || env.private.authPolicy != env.public.authPolicy {
        return Err(Tpm);
      }
      r := Allocate(SealedObject(env.public, env.private.secret));
    }

    method UnsealLiteralInSession(s: nat, h: nat, pcrs: seq<nat>) returns (r: Result<seq<byte>>)
      requires Valid() && s in live && live[s] == Session(ZeroDigest())
      requires h in live && h != s && live[h].SealedObject? && live[h].public.PublicBlob?
      modifies this
      ensures tpm == old(tpm)
      ensures Tidy() && KeepsBut(s) && s in live
      ensures Agrees(r, if Selectable(pcrs) && CurrentPolicy(c, tpm, pcrs) == live[h].public.authPolicy
                        then Ok(live[h].secret) else Err(Tpm), Clean())
    {
      hide Tally, Replay, Steps;
      ghost var a := Now();
      Stays(a);
      if pcrs != [] {
        if !Selectable(pcrs) {
          return Err(Tpm);
        }
        var folded := PolicyPcrCommand(s, pcrs);
        if folded.Err? {
          return Err(Tpm);
        }
      }
      ghost var b := Now();
      r := UnsealCommand(s, h);
      if pcrs != [] {
        Then(a, b, Now(), 0, 0);
      }
    }

    method UnsealLiteralLoaded(h: nat, pcrs: seq<nat>) returns (r: Result<seq<byte>>)
      requires Valid() && h in live && live[h].SealedObject? && live[h].public.PublicBlob?
      modifies this
      ensures tpm == old(tpm)
      ensures Returns()
      ensures Agrees(r, if Selectable(pcrs) && CurrentPolicy(c, tpm, pcrs) == live[h].public.authPolicy
                        then Ok(live[h].secret) else Err(Tpm), Clean())
    {
      hide Tally, Replay, Steps, Flushed, CurrentPolicy, Selectable, ZeroDigest;
      ghost var a := Now();
      var session := StartSession();
      if session.Err? {
        return Err(Tpm);
      }
      ghost var b := Now();
      r := UnsealLiteralInSession(session.value, h, pcrs);
      ghost var m := Now();
      Flush(session.value);
      Scope(a, b, m, Now(), 1);
    }

    method UnsealLiteralUnder(srk: SrkHandle, env: SealedEnvelope) returns (r: Result<seq<byte>>)
      requires Valid() && IsSrk(srk)
      modifies this
      ensures tpm == old(tpm) && IsSrk(srk)
      ensures Returns()
      ensures Agrees(r, UnsealLiteral(c, tpm, env), Clean())
    {
      hide Tally, Replay, Steps, Flushed, CurrentPolicy, Selectable, LoadSealed;
      ghost var a := Now();
      var loaded := Load(srk, env);
      if loaded.Err? {
        return Err(Tpm);
      }
      ghost var b := Now();
      r := UnsealLiteralLoaded(loaded.value, env.pcrs);
      ghost var m := Now();
      Flush(loaded.value);
      Scope(a, b, m, Now(), 1);
    }

    method UnsealLiteralOp(env: SealedEnvelope) returns (r: Result<seq<byte>>)
      requires Valid()
      modifies this
      ensures Returns()
      ensures Agrees(r, UnsealLiteral(c, old(tpm), env), Clean())
      ensures old(EvictFails(calls)) ==> r.Err? && live == old(live)[old(next) := Srk(tpm.seed)]
    {
      hide Tally, Replay, Steps, Retains, RetainsOther, UnsealLiteral;
      ghost var a := Now();
      var srk := LoadOrCreateSrk();
      if srk.Err? {
        return Err(Tpm);
      }
      assert tpm == old(tpm).(slot := tpm.slot);
      SlotDoesNotMatter(c, old(tpm), tpm.slot, env, Err(Io), "", []);
      ghost var b := Now();
      r := UnsealLiteralUnder(srk.value, env);
      ghost var m := Now();
      ReleaseSrk(srk.value);
      ParentScope(a, b, m, Now(), srk.value);
    }

    /** TPM2_VerifySignature. */
    method VerifySignature(key: nat, message: seq<byte>, sig: seq<byte>) returns (r: Result<Ticket>)
      requires Valid() && key in live && live[key].VerifyKey? && c.publicArea(live[key].key).Some?
      modifies this`calls, this`trace
      ensures Tidy()
      ensures Agrees(r, if c.verify(live[key].key, message, sig)
                        then Ok(Ticket(c.KeyName(c.publicArea(live[key].key).value), message)) else Err(Tpm),
                     Clean())
      ensures r.Err? ==> r == Err(Tpm)
    {
      hide Tally, Replay;
      var ok := Answer(OtherCommand);
      if !ok || !c.verify(live[key].key, message, sig) {
        return Err(Tpm);
      }
      return Ok(Ticket(c.KeyName(c.publicArea(live[key].key).value), message));
    }

    /** Verify the signature and authorize the session while the verification key is loaded. */
    method AuthorizeSession(s: nat, key: nat, approved: seq<byte>, sig: seq<byte>, policyRef: seq<byte>)
      returns (r: Result<()>)
      requires Valid() && s in live && live[s] == Session(approved)
      requires key in live && live[key].VerifyKey? && c.publicArea(live[key].key).Some?
      modifies this`live, this`calls, this`trace
      ensures Tidy() && KeepsBut(s) && s in live && IsSession(s)
      ensures r.Ok? || Clean() ==> (r.Ok? <==> c.verify(old(live[key].key), AHash(c, approved, policyRef), sig))
      ensures r.Ok? ==>
                live[s].digest == PolicyAuthorized(c, c.KeyName(c.publicArea(old(live[key].key)).value), policyRef)
    {
      hide Tally, Replay, Steps, PolicyAuthorized, AHash;
      ghost var a := Now();
      var name := GetName(key);
      if name.Err? {
        return Err(Tpm);
      }
      ghost var b := Now();
      var ticket := VerifySignature(key, AHash(c, approved, policyRef), sig);
      Then(a, b, Now(), 0, 0);
      b := Now();
      if ticket.Err? {
        return Err(Tpm);
      }
      r := PolicyAuthorizeCommand(s, approved, policyRef, name.value, ticket.value);
      Then(a, b, Now(), 0, 0);
    }

    /** And then unseal. */
    method AuthorizeAndUnseal(s: nat, h: nat, key: nat, approved: seq<byte>, sig: seq<byte>, policyRef: seq<byte>)
      returns (r: Result<seq<byte>>)
      requires Valid() && s in live && live[s] == Session(approved)
      requires h in live && live[h].SealedObject? && live[h].public.PublicBlob?
      requires key in live && live[key].VerifyKey? && c.publicArea(live[key].key).Some?
      modifies this`live, this`calls, this`trace
      ensures Tidy() && KeepsBut(s) && s in live
      ensures Agrees(r, if && c.verify(live[key].key, AHash(c, approved, policyRef), sig)
                           && PolicyAuthorized(c, c.KeyName(c.publicArea(live[key].key).value), policyRef) ==
                              live[h].public.authPolicy
                        then Ok(live[h].secret) else Err(Tpm), Clean())
    {
      hide Tally, Replay, Steps, PolicyAuthorized, AHash;
      ghost var a := Now();
      var authorized := AuthorizeSession(s, key, approved, sig, policyRef);
      if authorized.Err? {
        return Err(Tpm);
      }
      ghost var b := Now();
      r := UnsealCommand(s, h);
      Then(a, b, Now(), 0, 0);
    }

    /** The verification-key scope. */
    method UnsealWithKey(s: nat, h: nat, approved: seq<byte>, sig: seq<byte>, pem: string, policyRef: seq<byte>)
      returns (r: Result<seq<byte>>)
      requires Valid() && s in live && live[s] == Session(approved)
      requires h in live && live[h].SealedObject? && live[h].public.PublicBlob?
      modifies this
      ensures tpm == old(tpm)
      ensures Tidy() && KeepsBut(s) && s in live
      ensures var name := NameOf(c, pem);
              Agrees(r, if name.Err? then Err(name.error)
                        else if && c.verify(c.parsePem(pem).value, AHash(c, approved, policyRef), sig)
                                && PolicyAuthorized(c, name.value, policyRef) == live[h].public.authPolicy
                        then Ok(live[h].secret) else Err(Tpm), Clean())
    {
      hide Tally, Replay, Steps, Flushed, PolicyAuthorized, AHash, NameOf;
      ghost var a := Now();
      var key := LoadExternal(pem);
      if key.Err? {
        return Err(key.error);
      }
      ghost var b := Now();
      r := AuthorizeAndUnseal(s, h, key.value, approved, sig, policyRef);
      ghost var m := Now();
      Flush(key.value);
      Scope(a, b, m, Now(), 1);
    }

    /** The policy-session scope of an authorized unseal, from a fresh session. */
    method UnsealAuthorizedInSession(s: nat, h: nat, sigs: Result<seq<PcrSignature>>, pcrs: seq<nat>, pem: string,
                                     policyRef: seq<byte>)
      returns (r: Result<seq<byte>>)
      requires Valid() && s in live && live[s] == Session(ZeroDigest())
      requires h in live && live[h].SealedObject? && live[h].public.PublicBlob?
      modifies this
      ensures tpm == old(tpm)
      ensures Tidy() && KeepsBut(s) && s in live
      ensures var spec := Authorize(c, tpm, sigs, pcrs, pem, policyRef, live[h].public.authPolicy);
              Agrees(r, if spec.Ok? then Ok(live[h].secret) else Err(spec.error), Clean())
    {
      hide Tally, Replay, Steps, PolicyPcr, ZeroDigest, PolicyAuthorized, AHash, NameOf;
      Stays(Now());
      if !Selectable(pcrs) {
        return Err(Tpm);
      }
      ghost var a := Now();
      var folded := PolicyPcrCommand(s, pcrs);
      ghost var b := Now();
      if folded.Err? {
        return Err(Tpm);
      }
      var approved := PolicyGetDigest(s);
      Then(a, b, Now(), 0, 0);
      b := Now();
      if approved.Err? {
        return Err(Tpm);
      }
      if sigs.Err? {
        return Err(sigs.error);
      }
      var found := FindForPolicy(sigs.value, pcrs, approved.value);
      if found.None? {
        return Err(Policy);
      }
      r := UnsealWithKey(s, h, approved.value, found.value.sig, pem, policyRef);
      Then(a, b, Now(), 0, 0);
    }

    method UnsealAuthorizedLoaded(h: nat, sigs: Result<seq<PcrSignature>>, pcrs: seq<nat>, pem: string,
                                  policyRef: seq<byte>)
      returns (r: Result<seq<byte>>)
      requires Valid() && h in live && live[h].SealedObject? && live[h].public.PublicBlob?
      modifies this
      ensures tpm == old(tpm)
      ensures Returns()
      ensures var spec := Authorize(c, tpm, sigs, pcrs, pem, policyRef, live[h].public.authPolicy);
              Agrees(r, if spec.Ok? then Ok(live[h].secret) else Err(spec.error), Clean())
    {
      hide Tally, Replay, Steps, Flushed, Authorize, ZeroDigest;
      ghost var a := Now();
      var session := StartSession();
      if session.Err? {
        return Err(Tpm);
      }
      ghost var b := Now();
      r := UnsealAuthorizedInSession(session.value, h, sigs, pcrs, pem, policyRef);
      ghost var m := Now();
      Flush(session.value);
      Scope(a, b, m, Now(), 1);
    }

    method UnsealAuthorizedUnder(srk: SrkHandle, env: SealedEnvelope, sigs: Result<seq<PcrSignature>>, pem: string,
                                 policyRef: seq<byte>)
      returns (r: Result<seq<byte>>)
      requires Valid() && IsSrk(srk)
      modifies this
      ensures tpm == old(tpm) && IsSrk(srk)
      ensures Returns()
      ensures Agrees(r, ReadAuthorized(c, tpm, sigs, env, pem, policyRef), Clean())
    {
      hide Tally, Replay, Steps, Flushed, Authorize, LoadSealed;
      ghost var a := Now();
      var loaded := Load(srk, env);
      if loaded.Err? {
        return Err(Tpm);
      }
      ghost var b := Now();
      r := UnsealAuthorizedLoaded(loaded.value, sigs, env.pcrs, pem, policyRef);
      ghost var m := Now();
      Flush(loaded.value);
      Scope(a, b, m, Now(), 1);
    }

    method ReadAuthorizedOp(env: SealedEnvelope, sigs: Result<seq<PcrSignature>>, pem: string, policyRef: seq<byte>)
      returns (r: Result<seq<byte>>)
      requires Valid()
      modifies this
      ensures Returns()
      ensures Agrees(r, ReadAuthorized(c, old(tpm), sigs, env, pem, policyRef), Clean())
    {
      hide Tally, Replay, Steps, Retains, RetainsOther, ReadAuthorized;
      ghost var a := Now();
      var srk := LoadOrCreateSrk();
      if srk.Err? {
        return Err(Tpm);
      }
      assert tpm == old(tpm).(slot := tpm.slot);
      SlotDoesNotMatter(c, old(tpm), tpm.slot, env, sigs, pem, policyRef);
      ghost var b := Now();
      r := UnsealAuthorizedUnder(srk.value, env, sigs, pem, policyRef);
      ghost var m := Now();
      ReleaseSrk(srk.value);
      ParentScope(a, b, m, Now(), srk.value);
    }

    /** Unseal under an authorized policy: pin the signer and its PCR list, self-heal while Secure
        Boot is on, then read. `heals` reports whether the self-heal attempt went through. */
    method UnsealAuthorizedOp(dir: ConfigDir, secureBoot: bool, systemd: Result<seq<PcrSignature>>, env: SealedEnvelope,
                              pem: string, policyRef: seq<byte>, write: bool)
      returns (r: Result<seq<byte>>, heals: bool)
      requires Valid()
      modifies this, dir
      ensures Returns()
      ensures var spec := UnsealAuthorized(c, old(tpm), secureBoot, old(dir.Files()), systemd, env, pem, policyRef,
                                           heals);
              && dir.Files() == spec.0
              && Agrees(r, spec.1, Clean())
      ensures Clean() && write ==>
                UnsealAuthorized(c, old(tpm), secureBoot, old(dir.Files()), systemd, env, pem, policyRef, true) ==
                (dir.Files(), r)
    {
      hide Tally, Replay, Steps, ReadAuthorized, EnsureSigned, ClassifySigner, SignaturesOf;
      ghost var a := Now();
      Stays(a);
      heals := false;
      var signer := ClassifySigner(c, dir.pub, pem);
      if signer.Err? {
        return Err(signer.error), heals;
      }
      if env.pcrs != ExpectedPcrs(signer.value) {
        return Err(Policy), heals;
      }
      if signer.value.LinhelloHost? && secureBoot {
        var healed := EnsureHostSignature(dir, env.pcrs, policyRef, write);
        heals := healed.Ok?;
      }
      ghost var b := Now();
      r := ReadAuthorizedOp(env, SignaturesOf(signer.value, dir.Files(), systemd), pem, policyRef);
      Then(a, b, Now(), 0, 0);
    }

    method UnsealOp(dir: ConfigDir, secureBoot: bool, systemd: Result<seq<PcrSignature>>, env: SealedEnvelope,
                    write: bool)
      returns (r: Result<seq<byte>>, heals: bool)
      requires Valid()
      modifies this, dir
      ensures Returns() && LeavesNothing()
      ensures var spec := Unseal(c, old(tpm), secureBoot, old(dir.Files()), systemd, env, heals);
              && dir.Files() == spec.0
              && Agrees(r, spec.1, Clean())
      ensures Clean() && write ==>
                Unseal(c, old(tpm), secureBoot, old(dir.Files()), systemd, env, true) == (dir.Files(), r)
    {
      hide Tally, Replay, Steps;
      heals := false;
      match env.policy {
        case PcrLiteral =>
          r := UnsealLiteralOp(env);
        case AuthorizedBy(pem, policyRef) =>
          r, heals := UnsealAuthorizedOp(dir, secureBoot, systemd, env, pem, policyRef, write);
      }
      CleanLeavesNothing();
    }

    /** Seal under the plan chosen for the machine's present state, creating the host key if that
        plan wants one. */
    method SealSecretOp(dir: ConfigDir, secureBoot: bool, secret: seq<byte>, x: SealInputs)
      returns (r: Result<SealedEnvelope>)
      requires Valid()
      modifies this, dir
      ensures Returns() && LeavesNothing()
      ensures r.Ok? ==>
                SealSecret(c, old(tpm), secureBoot, old(dir.Files()), secret, x.(signs := true)) == (dir.Files(), r)
      ensures r.Err? ==> dir.Files() == PlanFor(c, secureBoot, old(dir.Files()), x).0
      ensures Clean() && x.signs ==>
                (r.Ok? <==> SealSecret(c, old(tpm), secureBoot, old(dir.Files()), secret, x).1.Ok?)
    {
      hide Tally, Replay, Steps, SealAuthorized, SealLiteral, TrustedPem;
      var systemdPem := TrustedPem(c, x.systemdPem);
      var hostPem := None;
      if P.WantsHostKey(secureBoot, x.boot, x.signedAvailable, systemdPem) {
        var made := dir.EnsureHostSigningKey(c, x.newKey, x.keyWrite, x.pubWrite);
        hostPem := if made.Ok? then Some(made.value) else None;
      }
      match P.Decide(secureBoot, x.boot, x.signedAvailable, systemdPem, hostPem) {
        case Authorized(pcrs, pem, policyRef) =>
          r := SealAuthorizedOp(dir, secret, pcrs, pem, policyRef, x.signs);
        case Literal(pcrs) =>
          r := SealLiteralOp(secret, pcrs);
        case NoBinding =>
          r := SealLiteralOp(secret, []);
      }
      CleanLeavesNothing();
    }
  }

  /** The leak: on a first run whose evict is refused, nothing else being refused, the primary stays live. */
  method EvictLeaks(c: Suite, seed: nat, env: SealedEnvelope) returns (ctx: Context, r: Result<seq<byte>>)
    ensures fresh(ctx) && ctx.Valid() && r.Err?
    ensures ctx.live == map[0 := Srk(seed)]
    ensures forall n :: ctx.faults(n) <==> n == 2
  {
    ctx := new Context(c, n => n == 2, TpmState(seed, Empty, map[]));
    r := ctx.UnsealLiteralOp(env);
  }

  /** The same with the SRK persisted long ago, when only the lookup of its handle is refused. */
  method LookupLeaks(c: Suite, seed: nat, env: SealedEnvelope) returns (ctx: Context, r: Result<seq<byte>>)
    ensures fresh(ctx) && ctx.Valid() && r.Err?
    ensures ctx.live == map[0 := Srk(seed)]
    ensures forall n :: ctx.faults(n) <==> n == 0
  {
    ctx := new Context(c, n => n == 0, TpmState(seed, LinhelloSrk, map[]));
    r := ctx.UnsealLiteralOp(env);
  }
}
