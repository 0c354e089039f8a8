/** Enabling and disabling face login on Arch-style systems, over whole histories of both. */
module PamWire {
  import opened Wrappers
  import opened Text
  import opened LineEdit
  import opened PamText
  import opened PamRule
  import PamStack

  datatype Service = GdmPassword | Sddm | Lightdm | Sudo | Plasmalogin | KdeFingerprint | Kde {
    function Name(): string {
      match this
      case GdmPassword => "gdm-password"
      case Sddm => "sddm"
      case Lightdm => "lightdm"
      case Sudo => "sudo"
      case Plasmalogin => "plasmalogin"
      case KdeFingerprint => "kde-fingerprint"
      case Kde => "kde"
    }

    /** The line this service gets. */
    function Wiring(): Wiring {
      match this
      case GdmPassword | Sddm | Lightdm => GreeterJump
      case KdeFingerprint => WaitSufficient
      case Sudo | Plasmalogin | Kde => PlainSufficient
    }
  }

  /** What libpam makes of the line each service gets: greeters jump over one module on success, sudo and the
      two single-stack services take success at once, and the lockscreen's parallel stack also waits. */
  lemma ServiceRules(s: Service)
    ensures var rule := ReadRule(s.Wiring().Line());
            && rule.Some? && rule.value.mod == "pam_linhello.so"
            && (s in [GdmPassword, Sddm, Lightdm] ==>
                  rule.value.control == PamStack.JumpOnSuccess(1) && rule.value.args == "")
            && (s in [Sudo, Plasmalogin, Kde] ==>
                  rule.value.control == PamStack.SUFFICIENT && rule.value.args == "")
            && (s == KdeFingerprint ==> rule.value.control == PamStack.SUFFICIENT && rule.value.args == "wait")
  {
    hide ReadRule, Wiring.Line;
    OurRule(s.Wiring());
  }

  const GREETERS: seq<Service> := [GdmPassword, Sddm, Lightdm]

  /** A service's file under /etc/pam.d, its vendor copy, and the backup beside the former. */
  datatype Slot = Slot(etc: Option<string>, vendor: Option<string>, backup: Option<string>)

  /** The files of all seven services. */
  type Tree = map<Service, Slot>

  datatype Change = WouldEdit | Edited | Created | AlreadyWired | WouldRemove | Removed | NotWired

  const CREATED_PREFIX: string := "# linhello: created from "

  const VENDOR_DIR: string := "/usr/lib/pam.d/"
  const REVERT_NOTE: string := " \U{2014} delete this file" + " to revert to the vendor copy"

  function Marker(s: Service): string {
    CREATED_PREFIX + (VENDOR_DIR + (s.Name() + REVERT_NOTE))
  }

  /** The /etc file materialized from a vendor copy. */
  function Override(s: Service, vendor: string): string {
    Marker(s) + "\n" + Insert(vendor, s.Wiring())
  }

  predicate IsCreated(content: string) {
    CREATED_PREFIX <= content
  }

  // ---------- texts that can occur ----------

  /** A distribution's or administrator's own file. */
  predicate Pristine(content: string) {
    content != "" && '\r' !in content && !HasModule(content) && !IsCreated(content)
  }

  lemma FirstLineStarts(content: string)
    requires content != "" && '\r' !in content
    ensures Lines(content) != [] && Lines(content)[0] <= content
  {
    var i := IndexOf(content, '\n');
    if i < |content| {
      assert StripCr(content[..i]) == content[..i];
    }
  }

  /** A one-line prefix of a text is a prefix of its first line. */
  lemma PrefixOfFirstLine(p: string, line: string, rest: string)
    requires '\n' !in p && p <= line + "\n" + rest
    ensures p <= line
  {
    var s := line + "\n" + rest;
    assert s[|line|] == '\n';
    assert forall i :: 0 <= i < |p| ==> p[i] == s[i];
    assert s[..|p|] == line[..|p|];
  }

  lemma PrefixIsOneLine()
    ensures '\n' !in CREATED_PREFIX && CREATED_PREFIX[0] == '#'
  {
  }

  /** Where the edited text begins. */
  lemma InsertedHead(content: string, w: Wiring)
    requires Pristine(content)
    ensures var out := InsertLines(Lines(content), w);
            && Insert(content, w) == out[0] + "\n" + Unlines(out[1..])
            && (out[0] == w.Line() || (out[0] <= content))
  {
    FirstLineStarts(content);
    var lines := Lines(content);
    if FirstIndex(lines, IsAuthDirective) == 0 {
      assert InsertLines(lines, w)[0] == w.Line();
    } else {
      assert InsertLines(lines, w)[0] == lines[0];
    }
  }

  lemma InsertNotCreated(content: string, w: Wiring)
    requires Pristine(content)
    ensures !IsCreated(Insert(content, w))
  {
    InsertedHead(content, w);
    PrefixIsOneLine();
    LineFacts(w);
    var out := InsertLines(Lines(content), w);
    if IsCreated(Insert(content, w)) {
      PrefixOfFirstLine(CREATED_PREFIX, out[0], Unlines(out[1..]));
      assert false;
    }
  }

  lemma EndedSame(content: string, w: Wiring)
    requires Pristine(content)
    ensures Lines(Ended(content)) == Lines(content)
    ensures !HasModule(Ended(content)) && !IsCreated(Ended(content))
    ensures Insert(Ended(content), w) == Insert(content, w)
  {
    UnlinesLines(content);
    LinesAreClean(content);
    LinesUnlines(Lines(content));
    PrefixIsOneLine();
    if IsCreated(content + "\n" + "") {
      PrefixOfFirstLine(CREATED_PREFIX, content, "");
      assert false;
    }
    assert content + "\n" + "" == content + "\n";
  }

  /** A comment in front leaves the count of lines that run our module alone. */
  lemma CommentInFront(comment: string, content: string)
    requires Clean(comment) && IsComment(comment)
    ensures ActiveCount(comment + "\n" + content) == ActiveCount(content)
    ensures HasModule(content) ==> HasModule(comment + "\n" + content)
  {
    var lines := Lines(content);
    LinesCons(comment, content);
    KeepAppend([comment], lines, ActiveModule);
    KeepOne(comment, ActiveModule);
    if HasModule(content) {
      var l :| l in lines && !NotOurs(l);
      assert l in [comment] + lines;
    }
  }

  /** An override is recognized, and runs our module on exactly one line. */
  lemma OverrideFacts(s: Service, vendor: string)
    requires Pristine(vendor)
    ensures IsCreated(Override(s, vendor)) && HasModule(Override(s, vendor)) && ActiveCount(Override(s, vendor)) == 1
  {
    WiredOnceAndFirst(vendor, s.Wiring());
    MarkerFacts(s);
    CommentInFront(Marker(s), Insert(vendor, s.Wiring()));
  }

  lemma MarkerFacts(s: Service)
    ensures Clean(Marker(s)) && IsComment(Marker(s)) && CREATED_PREFIX <= Marker(s)
  {
    PrefixIsOneLine();
    NameIsOneLine(s);
    NoteIsClean();
    CleanEnd(s.Name(), REVERT_NOTE);
    CleanEnd(VENDOR_DIR, s.Name() + REVERT_NOTE);
    CleanEnd(CREATED_PREFIX, VENDOR_DIR + (s.Name() + REVERT_NOTE));
    assert Marker(s)[0] == '#';
  }

  lemma NoteIsClean()
    ensures Clean(REVERT_NOTE) && '\n' !in VENDOR_DIR
  {
    CleanEnd(" \U{2014} delete this file", " to revert to the vendor copy");
  }

  lemma NameIsOneLine(s: Service)
    ensures '\n' !in s.Name()
  {
  }

  // ---------- one service over time ----------

  /** A service before linhello touched it: own files only, no backup. */
  predicate Untouched(o: Slot) {
    o.backup.None? && (o.etc.Some? ==> Pristine(o.etc.value)) && (o.vendor.Some? ==> Pristine(o.vendor.value))
  }

  /** How a service's files may differ from the untouched ones: the backup, once made, is the original
      text, and there is no change without it; an /etc file that was not there is our override. */
  predicate Managed(s: Service, o: Slot, x: Slot) {
    && x.vendor == o.vendor
    && match o.etc
       case Some(own) =>
         && x.etc.Some? && x.etc.value in {own, Insert(own, s.Wiring()), Ended(own)}
         && x.backup == (if x.backup.None? then None else Some(own))
         && (x.backup.None? ==> x.etc == o.etc)
       case None =>
         && x.backup.None?
         && (x.etc.Some? ==> o.vendor.Some? && x.etc.value == Override(s, o.vendor.value))
  }

  /** The service's file runs our module on exactly one line. */
  predicate WiredOnce(x: Slot) {
    x.etc.Some? && HasModule(x.etc.value) && ActiveCount(x.etc.value) == 1
  }

  /** The service is as it was: no override left, and the original lines, none of them ours. */
  predicate Restored(o: Slot, x: Slot) {
    && (x.etc.Some? <==> o.etc.Some?)
    && (x.etc.Some? ==> !HasModule(x.etc.value) && Lines(x.etc.value) == Lines(o.etc.value))
  }

  /** The slot after the one-time backup. */
  function BackedUp(x: Slot): Slot {
    if x.backup.None? then x.(backup := x.etc) else x
  }

  lemma EditedSlot(s: Service, o: Slot, x: Slot)
    requires Untouched(o) && Managed(s, o, x) && x.etc.Some?
    ensures if HasModule(x.etc.value) then WiredOnce(x)
            else var x' := BackedUp(x).(etc := Some(Insert(x.etc.value, s.Wiring())));
                 Managed(s, o, x') && WiredOnce(x')
  {
    if o.etc.Some? {
      WiredOnceAndFirst(o.etc.value, s.Wiring());
      EndedSame(o.etc.value, s.Wiring());
    } else {
      OverrideFacts(s, o.vendor.value);
    }
  }

  lemma RemovedSlot(s: Service, o: Slot, x: Slot)
    requires Untouched(o) && Managed(s, o, x) && x.etc.Some?
    ensures if IsCreated(x.etc.value) then Managed(s, o, x.(etc := None)) && Restored(o, x.(etc := None))
            else if HasModule(x.etc.value) then
              var x' := BackedUp(x).(etc := Some(Remove(x.etc.value)));
              Managed(s, o, x') && Restored(o, x')
            else Restored(o, x)
  {
    if o.etc.Some? {
      RemoveUndoesInsert(o.etc.value, s.Wiring());
      InsertNotCreated(o.etc.value, s.Wiring());
      EndedSame(o.etc.value, s.Wiring());
    } else {
      OverrideFacts(s, o.vendor.value);
    }
  }

  lemma CreatedSlot(s: Service, o: Slot, x: Slot)
    requires Untouched(o) && Managed(s, o, x) && x.etc.None? && x.vendor.Some?
    ensures var x' := x.(etc := Some(Override(s, x.vendor.value))); Managed(s, o, x') && WiredOnce(x')
  {
    OverrideFacts(s, o.vendor.value);
  }

  // ---------- what a wired service decides ----------

  /** The text a service's wired file was made from. */
  function Original(o: Slot): string
    requires Exists(o)
  {
    if o.etc.Some? then o.etc.value else o.vendor.value
  }

  /** The service's stack decides as promised, for every reading of its lines and all results. */
  ghost predicate DecidesAsPromised(s: Service, o: Slot, x: Slot)
    requires Exists(o)
  {
    x.etc.Some? && forall read, r, results :: KeepsAs(Original(o), x.etc.value, s.Wiring(), read, r, results)
  }

  lemma {:induction false} LowerHead(t: string)
    requires t != "" && t[0] == '#'
    ensures Lower(t) != "" && Lower(t)[0] == '#'
  {
  }

  lemma CommentIsNoRule(comment: string)
    requires comment != "" && comment[0] == '#'
    ensures !LibpamAuth(comment)
  {
    var token := BlankToken(comment);
    assert token[0] == '#' && SkipBlanks(comment) == comment;
    LowerHead(token);
  }

  /** The marker in front of an override changes nothing in its auth stack. */
  lemma OverrideStack(s: Service, vendor: string)
    ensures Keep(Lines(Override(s, vendor)), LibpamAuth) == Keep(Lines(Insert(vendor, s.Wiring())), LibpamAuth)
  {
    hide LibpamAuth, Lines, Insert, Marker;
    MarkerFacts(s);
    MarkerStarts(s);
    CommentIsNoRule(Marker(s));
    var lines := Lines(Insert(vendor, s.Wiring()));
    LinesCons(Marker(s), Insert(vendor, s.Wiring()));
    KeepCons(Marker(s), lines, LibpamAuth);
    assert [] + Keep(lines, LibpamAuth) == Keep(lines, LibpamAuth);
  }

  lemma MarkerStarts(s: Service)
    ensures Marker(s) != "" && Marker(s)[0] == '#'
  {
    PrefixIsOneLine();
  }

  /** A service wired on one line has the edited text of its original, or its override. */
  lemma WiredText(s: Service, o: Slot, x: Slot)
    requires Untouched(o) && Managed(s, o, x) && WiredOnce(x)
    ensures Exists(o) && Pristine(Original(o)) && x.etc.Some?
    ensures x.etc.value == if o.etc.Some? then Insert(Original(o), s.Wiring()) else Override(s, Original(o))
  {
    hide Pristine, Insert, Override;
    if o.etc.Some? {
      PristineHasNone(o.etc.value);
      EndedSame(o.etc.value, s.Wiring());
    }
  }

  lemma PristineHasNone(content: string)
    requires Pristine(content)
    ensures !HasModule(content)
  {
  }

  /** And so it decides as promised if and only if libpam and the code agree on the original's auth rules. */
  lemma WiredDecides(s: Service, o: Slot, x: Slot)
    requires Untouched(o) && Managed(s, o, x) && WiredOnce(x)
    ensures Exists(o) && (DecidesAsPromised(s, o, x) <==> Recognized(Original(o)))
  {
    hide Insert, Override, Lines, LibpamAuth, Recognized, Promised, PamStack.Decide, Modules, Before;
    hide Managed, Untouched, WiredOnce;
    WiredText(s, o, x);
    var own, w := Original(o), s.Wiring();
    MeaningPreserved(own, w);
    if o.etc.None? {
      OverrideStack(s, own);
    }
    forall read, r, results ensures KeepsAs(own, x.etc.value, w, read, r, results) == Keeps(own, w, read, r, results) {
      assert AuthStack(read, Lines(x.etc.value)) == AuthStack(read, Lines(Insert(own, w)));
    }
  }

  // ---------- the program ----------

  datatype Op = Enable(includeSudo: bool, dryRun: bool) | Disable(dryRun: bool)

  /** Everything disable visits. */
  const ALL_SERVICES: seq<Service> := GREETERS + [Sudo, Plasmalogin, KdeFingerprint, Kde]

  predicate Exists(x: Slot) {
    x.etc.Some? || x.vendor.Some?
  }

  function Index(s: Service): (i: nat)
    ensures i < |ALL_SERVICES| && ALL_SERVICES[i] == s
  {
    match s
    case GdmPassword => 0
    case Sddm => 1
    case Lightdm => 2
    case Sudo => 3
    case Plasmalogin => 4
    case KdeFingerprint => 5
    case Kde => 6
  }

  /** Every service is untouched or managed; in particular every backup holds the original text. */
  ghost predicate AllManaged(orig: Tree, files: Tree) {
    forall s: Service :: s in orig && s in files && Untouched(orig[s]) && Managed(s, orig[s], files[s])
  }

  lemma TreeUpdate(orig: Tree, files: Tree, s: Service, x: Slot)
    requires AllManaged(orig, files) && Managed(s, orig[s], x)
    ensures AllManaged(orig, files[s := x])
  {
  }

  /** Backups are for good: one that exists is still there, unchanged. */
  ghost predicate KeepsBackups(before: Tree, after: Tree) {
    forall s: Service :: s in before && s in after ==>
      (before[s].backup.Some? ==> after[s].backup == before[s].backup)
  }

  lemma BackupsStillKept(a: Tree, b: Tree, c: Tree)
    requires forall s: Service :: s in b
    requires KeepsBackups(a, b) && KeepsBackups(b, c)
    ensures KeepsBackups(a, c)
  {
  }

  /** Outside `edited`, nothing changed. */
  ghost predicate OnlyEdits(before: Tree, after: Tree, edited: seq<Service>) {
    forall s: Service :: s in before && s in after && s !in edited ==> after[s] == before[s]
  }

  class PamFiles {
    ghost const orig: Tree
    var files: Tree

    constructor (t: Tree)
      requires forall s: Service :: s in t && Untouched(t[s])
      ensures Valid() && files == t && orig == t
    {
      orig, files := t, t;
    }

    ghost predicate Valid()
      reads this
    {
      AllManaged(orig, files)
    }

    method EditIn(s: Service, dryRun: bool) returns (change: Change)
      requires Valid() && files[s].etc.Some?
      modifies this
      ensures Valid() && files == old(files)[s := files[s]]
      ensures if dryRun then files == old(files) else files[s].etc.Some? && WiredOnce(files[s])
      ensures KeepsBackups(old(files), files)
    {
      EditedSlot(s, orig[s], files[s]);
      var x := files[s];
      var edited, changed := InsertFirstAuth(x.etc.value, s.Wiring());
      if !changed {
        return AlreadyWired;
      }
      if dryRun {
        return WouldEdit;
      }
      TreeUpdate(orig, files, s, BackedUp(x).(etc := Some(edited)));
      files := files[s := BackedUp(x).(etc := Some(edited))];
      return Edited;
    }

    method RemoveIn(s: Service, dryRun: bool) returns (change: Change)
      requires Valid()
      modifies this
      ensures Valid() && files == old(files)[s := files[s]]
      ensures if dryRun then files == old(files) else Restored(orig[s], files[s])
      ensures KeepsBackups(old(files), files)
    {
      var x := files[s];
      if x.etc.None? {
        return NotWired;
      }
      RemovedSlot(s, orig[s], x);
      if IsCreated(x.etc.value) {
        if dryRun {
          return WouldRemove;
        }
        TreeUpdate(orig, files, s, x.(etc := None));
        files := files[s := x.(etc := None)];
        return Removed;
      }
      var edited, changed := RemoveModule(x.etc.value);
      if !changed {
        return NotWired;
      }
      if dryRun {
        return WouldRemove;
      }
      TreeUpdate(orig, files, s, BackedUp(x).(etc := Some(edited)));
      files := files[s := BackedUp(x).(etc := Some(edited))];
      return Removed;
    }

    /** Edit the /etc file if there is one, else materialize it from the vendor copy. */
    method ApplyOverride(s: Service, dryRun: bool) returns (change: Change)
      requires Valid() && Exists(files[s])
      modifies this
      ensures Valid() && files == old(files)[s := files[s]]
      ensures if dryRun then files == old(files) else files[s].etc.Some? && WiredOnce(files[s])
      ensures KeepsBackups(old(files), files)
    {
      if files[s].etc.Some? {
        change := EditIn(s, dryRun);
        return;
      }
      if dryRun {
        return WouldEdit;
      }
      CreatedSlot(s, orig[s], files[s]);
      var wired, _ := InsertFirstAuth(files[s].vendor.value, s.Wiring());
      TreeUpdate(orig, files, s, files[s].(etc := Some(Marker(s) + "\n" + wired)));
      files := files[s := files[s].(etc := Some(Marker(s) + "\n" + wired))];
      return Created;
    }

    /** The lockscreen service to wire: the fingerprint stack where the desktop has one. */
    function LockscreenPlan(): Option<Service>
      requires Valid()
      reads this
    {
      if Exists(files[KdeFingerprint]) then Some(KdeFingerprint)
      else if Exists(files[Kde]) then Some(Kde)
      else None
    }

    /** What an enable leaves wired: every greeter that has a file, the plasmalogin greeter and one
        lockscreen service where the machine has them, and sudo if asked for. */
    ghost predicate EnabledState(includeSudo: bool)
      requires Valid()
      reads this
    {
      && (forall s <- GREETERS :: files[s].etc.Some? ==> WiredOnce(files[s]))
      && (Exists(files[Plasmalogin]) ==> WiredOnce(files[Plasmalogin]))
      && (includeSudo && files[Sudo].etc.Some? ==> WiredOnce(files[Sudo]))
      && (Exists(files[KdeFingerprint]) ==> WiredOnce(files[KdeFingerprint]))
      && (!Exists(files[KdeFingerprint]) && Exists(files[Kde]) ==> WiredOnce(files[Kde]))
    }

    /** Wire every target that has an /etc file. */
    method EditAll(targets: seq<Service>, dryRun: bool)
      requires Valid()
      modifies this
      ensures Valid() && KeepsBackups(old(files), files) && OnlyEdits(old(files), files, targets)
      ensures dryRun ==> files == old(files)
      ensures !dryRun ==> forall s <- targets :: files[s].etc.Some? ==> WiredOnce(files[s])
    {
      hide WiredOnce, Managed, Untouched;
      for i := 0 to |targets|
        invariant Valid() && KeepsBackups(old(files), files) && OnlyEdits(old(files), files, targets)
        invariant dryRun ==> files == old(files)
        invariant !dryRun ==> forall j :: 0 <= j < i && files[targets[j]].etc.Some? ==> WiredOnce(files[targets[j]])
      {
        if files[targets[i]].etc.Some? {
          var _ := EditIn(targets[i], dryRun);
        }
      }
    }

    /** Sudo if asked for, then the lockscreen. */
    method EnableSudoAndLockscreen(includeSudo: bool, dryRun: bool)
      requires Valid()
      modifies this
      ensures Valid() && KeepsBackups(old(files), files) && OnlyEdits(old(files), files, [Sudo, KdeFingerprint, Kde])
      ensures dryRun ==> files == old(files)
      ensures !dryRun && includeSudo && files[Sudo].etc.Some? ==> WiredOnce(files[Sudo])
      ensures !dryRun && Exists(files[KdeFingerprint]) ==> WiredOnce(files[KdeFingerprint])
      ensures Exists(old(files[KdeFingerprint])) ==> files[Kde] == old(files[Kde])
      ensures !dryRun && !Exists(files[KdeFingerprint]) && Exists(files[Kde]) ==> WiredOnce(files[Kde])
    {
      hide WiredOnce, Managed, Untouched;
      if includeSudo && files[Sudo].etc.Some? {
        var _ := EditIn(Sudo, dryRun);
      }
      var plan := LockscreenPlan();
      if plan.Some? {
        var _ := ApplyOverride(plan.value, dryRun);
      }
    }

    /** Every greeter that has a file, then the plasmalogin greeter. */
    method EnableGreeters(dryRun: bool)
      requires Valid()
      modifies this
      ensures Valid() && KeepsBackups(old(files), files)
      ensures OnlyEdits(old(files), files, [GdmPassword, Sddm, Lightdm, Plasmalogin])
      ensures dryRun ==> files == old(files)
      ensures !dryRun ==> forall s <- GREETERS :: files[s].etc.Some? ==> WiredOnce(files[s])
      ensures !dryRun && Exists(files[Plasmalogin]) ==> WiredOnce(files[Plasmalogin])
    {
      hide WiredOnce, Managed, Untouched, KeepsBackups;
      ghost var before := files;
      EditAll(GREETERS, dryRun);
      ghost var between := files;
      if Exists(files[Plasmalogin]) {
        var _ := ApplyOverride(Plasmalogin, dryRun);
        BackupsStillKept(before, between, files);
      }
      assert forall s: Service :: s != Plasmalogin ==> files[s] == between[s];
    }

    /** Enable face login on an Arch-style system. */
    method EnableAll(includeSudo: bool, dryRun: bool)
      requires Valid()
      modifies this
      ensures Valid() && KeepsBackups(old(files), files)
      ensures if dryRun then files == old(files) else EnabledState(includeSudo)
      ensures Exists(old(files[KdeFingerprint])) ==> files[Kde] == old(files[Kde])
    {
      hide WiredOnce, Managed, Untouched, KeepsBackups;
      ghost var before := files;
      EnableGreeters(dryRun);
      ghost var between := files;
      EnableSudoAndLockscreen(includeSudo, dryRun);
      BackupsStillKept(before, between, files);
      assert forall s <- GREETERS :: files[s] == between[s];
      assert files[Plasmalogin] == between[Plasmalogin];
    }

    /** Disable it: visit every file it may have wired. */
    method DisableAll(dryRun: bool)
      requires Valid()
      modifies this
      ensures Valid() && KeepsBackups(old(files), files)
      ensures if dryRun then files == old(files) else forall s: Service :: Restored(orig[s], files[s])
    {
      hide Restored, Managed, Untouched;
      for i := 0 to |ALL_SERVICES|
        invariant Valid() && KeepsBackups(old(files), files)
        invariant dryRun ==> files == old(files)
        invariant !dryRun ==> forall j :: 0 <= j < i ==> Restored(orig[ALL_SERVICES[j]], files[ALL_SERVICES[j]])
      {
        var _ := RemoveIn(ALL_SERVICES[i], dryRun);
      }
      if !dryRun {
        forall s: Service ensures Restored(orig[s], files[s]) {
          assert ALL_SERVICES[Index(s)] == s;
        }
      }
    }

    /**
     Whole runs: from untouched files, after any sequence of enables and disables, dry or not, every
     backup that was ever made holds the original text; after an enable each service in scope runs
     our module on exactly one line; after a disable every service has its original lines and every
     override materialized from a vendor copy is gone. And whenever a service is wired, its stack decides as
     promised if and only if libpam and the code agree on the auth rules of its original.
     */
    method RunAll(ops: seq<Op>)
      requires Valid()
      modifies this
      ensures Valid() && KeepsBackups(old(files), files)
      ensures ops != [] ==>
                match ops[|ops| - 1]
                case Enable(sudo, dry) => !dry ==> EnabledState(sudo)
                case Disable(dry) => !dry ==> forall s: Service :: Restored(orig[s], files[s])
      ensures forall s: Service :: WiredOnce(files[s]) ==>
                Exists(orig[s]) && (DecidesAsPromised(s, orig[s], files[s]) <==> Recognized(Original(orig[s])))
    {
      hide Restored, WiredOnce, Managed, Untouched;
      for i := 0 to |ops|
        invariant Valid() && KeepsBackups(old(files), files)
        invariant 0 < i ==>
                    match ops[i - 1]
                    case Enable(sudo, dry) => !dry ==> EnabledState(sudo)
                    case Disable(dry) => !dry ==> forall s: Service :: Restored(orig[s], files[s])
      {
        match ops[i] {
          case Enable(sudo, dry) => EnableAll(sudo, dry);
          case Disable(dry) => DisableAll(dry);
        }
      }
      hide DecidesAsPromised, Recognized, Original;
      forall s: Service | WiredOnce(files[s])
        ensures Exists(orig[s]) && (DecidesAsPromised(s, orig[s], files[s]) <==> Recognized(Original(orig[s])))
      {
        WiredDecides(s, orig[s], files[s]);
      }
    }
  }
}
