/** Wiring the face module into a PAM service file, and taking it out again, as text. */
module PamText {
  import opened Text
  import opened LineEdit
  import opened PamStack
  import opened PamRule
  import opened Wrappers

  const MODULE: string := "pam_linhello.so"
  /** An auth line for our module. */
  function Stanza(control: string, args: string): string {
    "auth" + (Column(control) + (MODULE + args))
  }

  /** The control column, padded. */
  function Column(control: string): string {
    "       " + control + "   "
  }

  function Bracket(items: string): string {
    "[" + items + "]"
  }

  const GREETER_ITEMS: string := "success" + ("=" + "1") + (" " + ("default" + ("=" + "ignore") + ""))

  /** The three lines the program writes: for greeters, for sudo and the like, and for the
      lockscreen's parallel stack. */
  datatype Wiring = GreeterJump | PlainSufficient | WaitSufficient {
    function ControlText(): string {
      if GreeterJump? then Bracket(GREETER_ITEMS) else "sufficient"
    }

    function Args(): string {
      if WaitSufficient? then " wait" else ""
    }

    function Line(): string {
      Stanza(ControlText(), Args())
    }

    /** How Linux-PAM reads the control. */
    function Meaning(): Control {
      if GreeterJump? then JumpOnSuccess(1) else SUFFICIENT
    }
  }

  predicate IsComment(line: string) {
    "#" <= TrimStart(line)
  }

  /** A non-comment line that names our module. */
  predicate ActiveModule(line: string) {
    !IsComment(line) && Contains(TrimStart(line), MODULE)
  }

  predicate NotOurs(line: string) {
    !ActiveModule(line)
  }

  function TakeToken(s: string): string {
    if s == "" || IsSpace(s[0]) then "" else [s[0]] + TakeToken(s[1..])
  }

  /** A line whose first token, after one optional dash, is `auth`. */
  predicate IsAuthDirective(line: string) {
    !IsComment(line) &&
    var t := TrimStart(line);
    TakeToken(TrimStart(if "-" <= t then t[1..] else t)) == "auth"
  }

  predicate Wired(lines: seq<string>) {
    exists l <- lines :: !NotOurs(l)
  }

  predicate HasModule(content: string) {
    Wired(Lines(content))
  }

  /** Lines joined by newlines, with one more at the end. */
  function Joined(lines: seq<string>): string {
    if lines == [] then "\n" else Unlines(lines)
  }

  function InsertLines(lines: seq<string>, w: Wiring): seq<string> {
    InsertBefore(lines, IsAuthDirective, w.Line())
  }

  function Insert(content: string, w: Wiring): string {
    if HasModule(content) then content else Joined(InsertLines(Lines(content), w))
  }

  function Remove(content: string): string {
    if HasModule(content) then Joined(Keep(Lines(content), NotOurs)) else content
  }

  /** How many lines of the file run our module. */
  function ActiveCount(content: string): nat {
    |Keep(Lines(content), ActiveModule)|
  }

  method InsertFirstAuth(content: string, w: Wiring) returns (edited: string, changed: bool)
    ensures changed <==> !HasModule(content)
    ensures edited == Insert(content, w)
  {
    if HasModule(content) {
      return content, false;
    }
    var out := InsertScan(Lines(content), IsAuthDirective, w.Line());
    return Joined(out), true;
  }

  method RemoveModule(content: string) returns (edited: string, changed: bool)
    ensures changed <==> HasModule(content)
    ensures edited == Remove(content)
  {
    var kept;
    kept, changed := KeepScan(Lines(content), NotOurs);
    return if changed then Joined(kept) else content, changed;
  }

  // ---------- our lines ----------

  lemma TokenStep(c: char, rest: string)
    requires !IsSpace(c)
    ensures TakeToken([c] + rest) == [c] + TakeToken(rest)
  {
    assert ([c] + rest)[1..] == rest;
  }

  lemma AuthToken(rest: string)
    requires rest != "" && IsSpace(rest[0])
    ensures TakeToken("auth" + rest) == "auth"
  {
    TokenStep('h', rest);
    TokenStep('t', ['h'] + rest);
    TokenStep('u', ['t'] + (['h'] + rest));
    TokenStep('a', ['u'] + (['t'] + (['h'] + rest)));
    assert "auth" + rest == ['a'] + (['u'] + (['t'] + (['h'] + rest)));
  }

  lemma AuthLine(s: string, rest: string)
    requires s == "auth" + rest && rest != "" && IsSpace(rest[0])
    ensures TrimStart(s) == s && !IsComment(s) && IsAuthDirective(s)
  {
    AuthToken(rest);
    assert s[0] == 'a';
  }

  lemma ContainsMiddle(before: string, sub: string, after: string)
    ensures Contains(before + sub + after, sub)
  {
    var s := before + sub + after;
    assert s[|before|..|before| + |sub|] == sub;
    assert OccursAt(s, sub, |before|);
  }

  lemma CleanEnd(before: string, after: string)
    requires '\n' !in before && Clean(after) && after != ""
    ensures Clean(before + after)
  {
    var s := before + after;
    assert s[|s| - 1] == after[|after| - 1];
  }

  lemma StanzaActive(control: string, args: string)
    ensures var s := Stanza(control, args); ActiveModule(s) && IsAuthDirective(s) && s != "" && s[0] == 'a'
  {
    var s := Stanza(control, args);
    AuthLine(s, Column(control) + (MODULE + args));
    ContainsMiddle("auth" + Column(control), MODULE, args);
    assert s == ("auth" + Column(control)) + MODULE + args;
  }

  lemma StanzaClean(control: string, args: string)
    requires '\n' !in control && Clean(args)
    ensures Clean(Stanza(control, args))
  {
    if args == "" {
      assert MODULE + args == MODULE && MODULE[|MODULE| - 1] == 'o';
    } else {
      CleanEnd(MODULE, args);
    }
    CleanEnd(Column(control), MODULE + args);
    CleanEnd("auth", Column(control) + (MODULE + args));
  }

  lemma ControlIsOneLine(w: Wiring)
    ensures '\n' !in w.ControlText() && Clean(w.Args())
  {
    if w.GreeterJump? {
      ItemsArePlain();
      hide GREETER_ITEMS;
    }
  }

  lemma LineFacts(w: Wiring)
    ensures ActiveModule(w.Line()) && IsAuthDirective(w.Line()) && Clean(w.Line())
    ensures w.Line() != "" && w.Line()[0] == 'a'
  {
    ControlIsOneLine(w);
    StanzaActive(w.ControlText(), w.Args());
    StanzaClean(w.ControlText(), w.Args());
  }

  /** A line runs our module exactly when it names it anywhere and its first visible character is no hash. */
  lemma ActiveExactly(line: string)
    ensures ActiveModule(line) <==>
            Contains(line, "pam_linhello.so") && (TrimStart(line) == "" || TrimStart(line)[0] != '#')
  {
    ModuleStarts();
    hide MODULE;
    ContainsTrimmed(line, MODULE);
  }

  lemma ModuleStarts()
    ensures MODULE == "pam_linhello.so" && !IsSpace(MODULE[0])
  {
  }

  lemma {:induction false} ContainsTrimmed(s: string, sub: string)
    requires sub != "" && !IsSpace(sub[0])
    ensures Contains(TrimStart(s), sub) <==> Contains(s, sub)
  {
    if s != "" && IsSpace(s[0]) {
      ContainsTrimmed(s[1..], sub);
      var t := s[1..];
      if Contains(s, sub) {
        var i :| 0 <= i <= |s| && OccursAt(s, sub, i);
        assert i > 0 by {
          assert s[i..i + |sub|][0] == s[i];
        }
        assert t[i - 1..i - 1 + |sub|] == s[i..i + |sub|];
        assert OccursAt(t, sub, i - 1);
      }
      if Contains(t, sub) {
        var i :| 0 <= i <= |t| && OccursAt(t, sub, i);
        assert s[i + 1..i + 1 + |sub|] == t[i..i + |sub|];
        assert OccursAt(s, sub, i + 1);
      }
    }
  }

  // ---------- what the edits do ----------

  lemma BlankLine()
    ensures Lines("\n") == [""]
  {
    LinesCons("", "");
    assert "" + "\n" + "" == "\n" && [""] + [] == [""];
  }

  lemma InsertedLines(content: string, w: Wiring)
    requires '\r' !in content && !HasModule(content)
    ensures Lines(Insert(content, w)) == InsertLines(Lines(content), w)
  {
    LinesAreClean(content);
    LineFacts(w);
    LinesUnlines(InsertLines(Lines(content), w));
  }

  lemma UnwiredKeeps(lines: seq<string>)
    requires !Wired(lines)
    ensures Keep(lines, NotOurs) == lines && Keep(lines, ActiveModule) == []
  {
    KeepAll(lines, NotOurs);
    forall l | l in lines ensures !ActiveModule(l) {
      assert NotOurs(l);
    }
    KeepNone(lines, ActiveModule);
  }

  /** Our line is taken out again and is the only one that is ours. */
  lemma InsertThenKeep(lines: seq<string>, w: Wiring)
    requires !Wired(lines)
    ensures Keep(InsertLines(lines, w), NotOurs) == lines
    ensures Keep(InsertLines(lines, w), ActiveModule) == [w.Line()]
    ensures Wired(InsertLines(lines, w))
  {
    LineFacts(w);
    UnwiredKeeps(lines);
    KeepDropsInserted(lines, IsAuthDirective, w.Line(), NotOurs);
    assert forall l <- lines :: !ActiveModule(l) by {
      assert forall l <- lines :: NotOurs(l);
    }
    KeepFindsInserted(lines, IsAuthDirective, w.Line(), ActiveModule);
    InsertedIsThere(lines, IsAuthDirective, w.Line());
    assert !NotOurs(w.Line());
  }

  // ---------- carriage returns ----------

  lemma {:induction false} TrimStartCr(r: string)
    ensures TrimStart(r + "\r") == if TrimStart(r) == "" then "" else TrimStart(r) + "\r"
  {
    if r == "" {
      assert r + "\r" == "\r" && "\r"[1..] == "";
    } else {
      TrimStartCr(r[1..]);
      assert (r + "\r")[1..] == r[1..] + "\r";
    }
  }

  lemma {:induction false} TakeTokenCr(r: string)
    ensures TakeToken(r + "\r") == TakeToken(r)
  {
    if r != "" {
      TakeTokenCr(r[1..]);
      assert (r + "\r")[1..] == r[1..] + "\r";
    }
  }

  lemma ContainsCr(t: string, sub: string)
    requires sub != "" && '\r' !in sub
    ensures Contains(t + "\r", sub) <==> Contains(t, sub)
  {
    var u := t + "\r";
    if Contains(u, sub) {
      var i :| 0 <= i <= |u| && OccursAt(u, sub, i);
      assert u[i..i + |sub|][|sub| - 1] == sub[|sub| - 1];
      assert i + |sub| <= |t|;
      assert t[i..i + |sub|] == u[i..i + |sub|];
      assert OccursAt(t, sub, i);
    }
    if Contains(t, sub) {
      var i :| 0 <= i <= |t| && OccursAt(t, sub, i);
      assert u[i..i + |sub|] == t[i..i + |sub|];
      assert OccursAt(u, sub, i);
    }
  }

  /** The first word after an optional dash. */
  function Word(t: string): string {
    TakeToken(TrimStart(if "-" <= t then t[1..] else t))
  }

  lemma WordCr(t: string)
    ensures Word(t + "\r") == Word(t)
  {
    var u := if "-" <= t then t[1..] else t;
    if t != "" {
      assert (t + "\r")[1..] == t[1..] + "\r" && (t + "\r")[0] == t[0];
    } else {
      assert t + "\r" == "\r";
    }
    assert Word(t + "\r") == TakeToken(TrimStart(u + "\r"));
    TrimStartCr(u);
    TakeTokenCr(TrimStart(u));
  }

  /** A carriage return at the end of a line changes nothing that the code asks of it. */
  lemma StripCrInvisible(line: string)
    ensures IsComment(StripCr(line)) <==> IsComment(line)
    ensures ActiveModule(StripCr(line)) <==> ActiveModule(line)
    ensures IsAuthDirective(StripCr(line)) <==> IsAuthDirective(line)
  {
    hide Contains, TakeToken, MODULE;
    if StripCr(line) != line {
      var r := line[..|line| - 1];
      assert line == r + "\r" && StripCr(line) == r;
      var t := TrimStart(r);
      TrimStartCr(r);
      ModuleHasNoCr();
      ContainsCr(t, MODULE);
      WordCr(t);
      if t != "" {
        assert (t + "\r")[0] == t[0];
      }
    }
  }

  lemma ModuleHasNoCr()
    ensures MODULE != "" && '\r' !in MODULE
  {
  }

  ghost predicate CrBlind(p: string -> bool) {
    forall l :: p(StripCr(l)) == p(l)
  }

  lemma CrBlindness()
    ensures CrBlind(ActiveModule) && CrBlind(NotOurs) && CrBlind(IsAuthDirective) && CrBlind(IsComment)
  {
    forall l ensures IsComment(StripCr(l)) == IsComment(l) && ActiveModule(StripCr(l)) == ActiveModule(l)
                     && IsAuthDirective(StripCr(l)) == IsAuthDirective(l) {
      StripCrInvisible(l);
    }
  }

  lemma {:induction false} KeepStrip(lines: seq<string>, p: string -> bool)
    requires CrBlind(p)
    ensures Keep(StripAll(lines), p) == StripAll(Keep(lines, p))
  {
    hide StripCr;
    if lines != [] {
      KeepStrip(lines[1..], p);
      var l := lines[0];
      assert StripAll(lines)[1..] == StripAll(lines[1..]);
      assert p(StripCr(l)) == p(l);
      var rest := Keep(lines[1..], p);
      assert ([l] + rest)[1..] == rest;
    }
  }

  lemma {:induction false} StripAt(lines: seq<string>, i: nat)
    requires i < |lines|
    ensures StripAll(lines)[i] == StripCr(lines[i])
  {
    if i > 0 {
      StripAt(lines[1..], i - 1);
    }
  }

  lemma WiredStrip(lines: seq<string>)
    ensures Wired(StripAll(lines)) <==> Wired(lines)
  {
    hide ActiveModule, StripCr;
    CrBlindness();
    if Wired(StripAll(lines)) {
      var l :| l in StripAll(lines) && !NotOurs(l);
      var i :| 0 <= i < |lines| && StripAll(lines)[i] == l;
      StripAt(lines, i);
      assert lines[i] in lines;
    }
    if Wired(lines) {
      var l :| l in lines && !NotOurs(l);
      var i :| 0 <= i < |lines| && lines[i] == l;
      StripAt(lines, i);
      assert StripAll(lines)[i] in StripAll(lines);
    }
  }

  /** Whatever the text, the lines of an edited file are the edited lines, less a carriage return each. */
  lemma EditedLines(edited: seq<string>)
    requires edited != [] && forall l <- edited :: '\n' !in l
    ensures Lines(Joined(edited)) == StripAll(edited)
  {
    LinesUnlinesStrip(edited);
  }

  lemma InsertHasNoNewlines(content: string, w: Wiring)
    ensures var out := InsertLines(Lines(content), w); out != [] && forall l <- out :: '\n' !in l
  {
    LinesHaveNoNewlines(content);
    LineFacts(w);
  }

  lemma InsertedLinesStrip(content: string, w: Wiring)
    requires !HasModule(content)
    ensures Lines(Insert(content, w)) == StripAll(InsertLines(Lines(content), w))
  {
    hide Lines;
    InsertHasNoNewlines(content, w);
    EditedLines(InsertLines(Lines(content), w));
  }

  lemma WiredOnceInLines(lines: seq<string>, w: Wiring)
    requires !Wired(lines)
    ensures var out := StripAll(InsertLines(lines, w));
            Wired(out) && |Keep(out, ActiveModule)| == 1
  {
    hide ActiveModule, StripCr, Keep, IsAuthDirective;
    var out := InsertLines(lines, w);
    InsertThenKeep(lines, w);
    WiredStrip(out);
    CrBlindness();
    KeepStrip(out, ActiveModule);
  }

  lemma FirstInLines(lines: seq<string>, w: Wiring)
    ensures var out, k := StripAll(InsertLines(lines, w)), FirstIndex(lines, IsAuthDirective);
            && k < |out| && out[k] == w.Line()
            && forall j :: 0 <= j < |out| && IsAuthDirective(out[j]) ==> k <= j
  {
    hide IsAuthDirective;
    var out, k := InsertLines(lines, w), FirstIndex(lines, IsAuthDirective);
    LineFacts(w);
    CrBlindness();
    StripAt(out, k);
    hide StripCr;
    assert forall j :: 0 <= j < k ==> out[j] == lines[j] && !IsAuthDirective(lines[j]);
    forall j | 0 <= j < |out| && IsAuthDirective(StripAll(out)[j]) ensures k <= j {
      StripAt(out, j);
    }
  }

  /** After wiring, exactly one line runs our module, and it comes before every auth directive. */
  lemma WiredOnceAndFirst(content: string, w: Wiring)
    requires !HasModule(content)
    ensures HasModule(Insert(content, w)) && ActiveCount(Insert(content, w)) == 1
    ensures var lines := Lines(Insert(content, w));
            var k := FirstIndex(Lines(content), IsAuthDirective);
            && k < |lines| && lines[k] == w.Line()
            && forall j :: 0 <= j < |lines| && IsAuthDirective(lines[j]) ==> k <= j
  {
    hide Lines, Insert, InsertLines, StripAll, IsAuthDirective, Keep;
    InsertedLinesStrip(content, w);
    WiredOnceInLines(Lines(content), w);
    FirstInLines(Lines(content), w);
  }

  /**
   Text round trip: on a file without our line or carriage returns, removing after inserting gives
   back the same text with its last line ended, hence the same lines, if and only if the file had
   a line at all; an empty file comes back as one blank line.
   */
  lemma RemoveUndoesInsert(content: string, w: Wiring)
    requires '\r' !in content && !HasModule(content)
    ensures Remove(Insert(content, w)) == if content == "" then "\n" else Ended(content)
    ensures Lines(Remove(Insert(content, w))) == Lines(content) <==> content != ""
    ensures !HasModule(Remove(Insert(content, w)))
  {
    InsertedLines(content, w);
    InsertThenKeep(Lines(content), w);
    UnlinesLines(content);
    LinesAreClean(content);
    LinesUnlines(Lines(content));
    if content == "" {
      BlankLine();
      assert NotOurs("");
    } else {
      assert Lines(content) != [];
    }
  }

  /** Wiring twice is wiring once, whichever line the second attempt would have used. */
  lemma InsertIdempotent(content: string, w: Wiring, again: Wiring)
    ensures Insert(Insert(content, w), again) == Insert(content, w)
  {
    if !HasModule(content) {
      WiredOnceAndFirst(content, w);
    }
  }

  /** After removal no line runs our module, and removing again changes nothing. */
  lemma RemoveLeavesNone(content: string)
    ensures !HasModule(Remove(content)) && ActiveCount(Remove(content)) == 0
    ensures Remove(Remove(content)) == Remove(content)
  {
    hide ActiveModule, StripCr, Lines;
    if HasModule(content) {
      var kept := Keep(Lines(content), NotOurs);
      KeepMembers(Lines(content), NotOurs);
      LinesHaveNoNewlines(content);
      if kept == [] {
        BlankLine();
        BlankIsNotOurs();
      } else {
        EditedLines(kept);
        WiredStrip(kept);
      }
    }
    UnwiredKeeps(Lines(Remove(content)));
  }

  lemma BlankIsNotOurs()
    ensures NotOurs("")
  {
  }

  /** Neither edit touches a comment, even one that names our module. */
  lemma InsertKeepsComments(content: string, w: Wiring)
    requires '\r' !in content
    ensures Keep(Lines(Insert(content, w)), IsComment) == Keep(Lines(content), IsComment)
  {
    if !HasModule(content) {
      InsertedLines(content, w);
      LineFacts(w);
      KeepDropsInserted(Lines(content), IsAuthDirective, w.Line(), IsComment);
    }
  }

  lemma RemoveKeepsComments(content: string)
    requires '\r' !in content
    ensures Keep(Lines(Remove(content)), IsComment) == Keep(Lines(content), IsComment)
  {
    if HasModule(content) {
      var lines := Lines(content);
      var kept := Keep(lines, NotOurs);
      KeepKeep(lines, NotOurs, IsComment);
      LinesAreClean(content);
      KeepMembers(lines, NotOurs);
      if kept == [] {
        BlankLine();
        KeepOne("", IsComment);
      } else {
        LinesUnlines(kept);
      }
    }
  }

  // ---------- what the rewritten stack decides ----------

  /** The modules that a sequence of auth lines stands for; `read` may expand one line (an include)
      to several modules. */
  function Modules(read: string -> seq<Control>, auth: seq<string>): seq<Control> {
    if auth == [] then [] else read(auth[0]) + Modules(read, auth[1..])
  }

  /** The auth stack that libpam sees. */
  function AuthStack(read: string -> seq<Control>, lines: seq<string>): seq<Control> {
    Modules(read, Keep(lines, LibpamAuth))
  }

  /** Nothing that libpam takes as an auth rule comes before the first one that the code recognizes. */
  predicate Recognized(content: string) {
    var lines := Lines(content);
    forall i :: 0 <= i < FirstIndex(lines, IsAuthDirective) ==> !LibpamAuth(lines[i])
  }

  /** A rule whose type is written in lower case, with or without the dash, is recognized. */
  lemma LowerCaseIsRecognized(line: string)
    requires BlankToken(SkipBlanks(line)) in ["auth", "-auth"]
    ensures LibpamAuth(line) && IsAuthDirective(line)
  {
    var t := SkipBlanks(line);
    LowerAuth();
    SkipsAlike(line);
    assert t[0] == 'a' || t[0] == '-';
    if BlankToken(t) == "auth" {
      TokensAlike(t);
    } else {
      assert t[1..][0] == 'a' && BlankToken(t[1..]) == "auth";
      TokensAlike(t[1..]);
      assert "-auth"[1..] == "auth";
    }
  }

  lemma {:induction false} SkipsAlike(line: string)
    requires SkipBlanks(line) != "" && !IsSpace(SkipBlanks(line)[0])
    ensures TrimStart(line) == SkipBlanks(line)
  {
    if IsBlank(line[0]) {
      SkipsAlike(line[1..]);
    }
  }

  lemma {:induction false} SameToken(t: string, word: string)
    requires BlankToken(t) == word && forall i :: 0 <= i < |word| ==> !IsSpace(word[i])
    ensures TakeToken(t) == word + TakeToken(t[|word|..])
    ensures |word| <= |t| && (t[|word|..] == "" || IsBlank(t[|word|]))
  {
    if word == "" {
      assert t[0..] == t;
    } else {
      assert word[1..] == BlankToken(t[1..]) && t[0] == word[0];
      SameToken(t[1..], word[1..]);
      assert t[1..][|word| - 1..] == t[|word|..];
      assert word == [word[0]] + word[1..];
    }
  }

  lemma TokensAlike(t: string)
    requires BlankToken(t) == "auth"
    ensures TakeToken(t) == "auth" && TrimStart(t) == t
  {
    SameToken(t, "auth");
    assert TakeToken(t[4..]) == "";
    assert "auth" + "" == "auth";
    assert t[0] == 'a';
  }

  /** So a file whose auth rules all have their type in lower case is wired as promised. */
  lemma LowerCaseFile(content: string)
    requires forall l <- Lines(content) :: LibpamAuth(l) ==> BlankToken(SkipBlanks(l)) in ["auth", "-auth"]
    ensures Recognized(content)
  {
    hide LibpamAuth, IsAuthDirective;
    var lines := Lines(content);
    forall i | 0 <= i < FirstIndex(lines, IsAuthDirective) ensures !LibpamAuth(lines[i]) {
      if LibpamAuth(lines[i]) {
        LowerCaseIsRecognized(lines[i]);
        assert false;
      }
    }
  }

  // ---------- our lines, as libpam reads them ----------

  lemma ItemsAreRead()
    ensures ReadItems(GREETER_ITEMS, Actions(None, None, None, None)) ==
            Some(Actions(Some(Jump(1)), Some(Skip), Some(Skip), Some(Skip)))
  {
    hide ReadItems;
    var start := Actions(None, None, None, None);
    var next := start.(success := Some(Jump(1)));
    OneIsJump();
    var last := "default" + ("=" + "ignore") + "";
    ItemIsRead("success", "1", " " + last, start);
    GapIsSkipped(" ", last, next);
    ItemIsRead("default", "ignore", "", next);
    NoItems(Actions(Some(Jump(1)), Some(Skip), Some(Skip), Some(Skip)));
  }

  lemma OneIsJump()
    ensures ReadAction("1") == Some(Jump(1)) && ReadAction("ignore") == Some(Skip)
  {
    assert "1"[..0] == "" && Number("1") == 1;
  }

  lemma NoItems(a: Actions)
    ensures ReadItems("", a) == Some(a)
  {
  }

  lemma JumpIsRead()
    ensures IsField(Bracket(GREETER_ITEMS)) && ReadControl(Bracket(GREETER_ITEMS)) == Some(JumpOnSuccess(1))
  {
    ItemsAreRead();
    ItemsArePlain();
    hide ReadItems, GREETER_ITEMS;
    BracketIsRead(GREETER_ITEMS);
  }

  lemma ItemsArePlain()
    ensures ']' !in GREETER_ITEMS && '\n' !in GREETER_ITEMS
  {
  }

  lemma BracketIsRead(items: string)
    requires ']' !in items && ReadItems(items, Actions(None, None, None, None)).Some?
    ensures IsField(Bracket(items))
    ensures ReadControl(Bracket(items)) == Some(Filled(ReadItems(items, Actions(None, None, None, None)).value))
  {
    BracketIsField(items);
    var s := Bracket(items);
    hide ReadItems;
    assert s[1..|s| - 1] == items;
  }

  lemma BracketIsField(items: string)
    requires ']' !in items
    ensures IsField(Bracket(items)) && "[" <= Bracket(items)
  {
    var s := Bracket(items);
    var n := |s| - 1;
    assert s[n] == ']' && forall i :: 0 <= i < n ==> s[i] != ']';
    assert IndexOf(s, ']') == n;
  }

  /** libpam reads each of the three lines as a rule for our module, with the control that is meant. */
  lemma OurRule(w: Wiring)
    ensures ReadRule(w.Line()) == Some(Rule(w.Meaning(), "pam_linhello.so", if w.WaitSufficient? then "wait" else ""))
    ensures LibpamAuth(w.Line())
  {
    hide ReadRule, ReadControl, IsField;
    KeywordsAreRead();
    JumpIsRead();
    var gap, gap', control := "       ", "   ", w.ControlText();
    RuleIsRead("auth", gap, control, gap', MODULE, w.Args());
    ArgsAreRead(w);
    assert gap + control + gap' + (MODULE + w.Args()) == gap + (control + (gap' + (MODULE + w.Args())));
    RuleIsAuth(w.Line());
  }

  lemma ArgsAreRead(w: Wiring)
    ensures SkipBlanks(w.Args()) == if w.WaitSufficient? then "wait" else ""
  {
    BlanksAreSkipped(" ", "wait");
    assert " wait" == " " + "wait";
  }

  lemma RuleIsAuth(line: string)
    requires ReadRule(line).Some?
    ensures LibpamAuth(line)
  {
  }

  /** A reading of lines that takes a line as libpam's reader does, where that reads it. */
  predicate AgreesOn(read: string -> seq<Control>, line: string) {
    ReadRule(line).Some? ==> read(line) == [ReadRule(line).value.control]
  }

  // ---------- the rewritten stack ----------

  function Before(content: string): seq<string> {
    var lines := Lines(content);
    Keep(lines[..FirstIndex(lines, IsAuthDirective)], LibpamAuth)
  }

  function After(content: string): seq<string> {
    var lines := Lines(content);
    Keep(lines[FirstIndex(lines, IsAuthDirective)..], LibpamAuth)
  }

  lemma WiredSplit(content: string, w: Wiring)
    requires '\r' !in content && !HasModule(content)
    ensures Keep(Lines(content), LibpamAuth) == Before(content) + After(content)
    ensures Keep(Lines(Insert(content, w)), LibpamAuth) == Before(content) + [w.Line()] + After(content)
    ensures w.Line() !in Before(content) && w.Line() !in After(content)
    ensures Before(content) == [] <==> Recognized(content)
  {
    hide LibpamAuth, ActiveModule, IsAuthDirective, Lines, Insert;
    InsertedLines(content, w);
    OurRule(w);
    LineFacts(w);
    var lines := Lines(content);
    var k := FirstIndex(lines, IsAuthDirective);
    KeepInsert(lines, IsAuthDirective, w.Line(), LibpamAuth);
    KeepMembers(lines[..k], LibpamAuth);
    KeepMembers(lines[k..], LibpamAuth);
    assert forall l <- lines :: NotOurs(l);
    assert w.Line() !in lines;
    if Recognized(content) {
      KeepNone(lines[..k], LibpamAuth);
    } else {
      var i :| 0 <= i < k && LibpamAuth(lines[i]);
      assert lines[..k][i] == lines[i];
      KeepSome(lines[..k], LibpamAuth, i);
    }
  }

  /** The face line is the first entry of the auth stack, with the rest as it was, if and only if the code
      recognizes what libpam does. */
  lemma WiredStack(content: string, w: Wiring)
    requires '\r' !in content && !HasModule(content)
    ensures var rules, wired := Keep(Lines(content), LibpamAuth), Keep(Lines(Insert(content, w)), LibpamAuth);
            wired == [w.Line()] + rules <==> Recognized(content)
  {
    hide LibpamAuth, Lines, Insert, Recognized, Before, After;
    WiredSplit(content, w);
    var before, after := Before(content), After(content);
    hide Keep, Wiring.Line;
    if before == [] {
      AppendAssoc(before, [w.Line()], after);
      assert before + ([w.Line()] + after) == [w.Line()] + after && before + after == after;
    } else {
      assert (before + [w.Line()] + after)[0] == before[0];
      assert before[0] in before;
      assert ([w.Line()] + (before + after))[0] == w.Line();
    }
  }

  lemma ModulesCons(read: string -> seq<Control>, l: string, auth: seq<string>)
    ensures Modules(read, [l] + auth) == read(l) + Modules(read, auth)
  {
    assert ([l] + auth)[1..] == auth;
  }

  lemma {:induction false} ModulesAppend(read: string -> seq<Control>, a: seq<string>, b: seq<string>)
    ensures Modules(read, a + b) == Modules(read, a) + Modules(read, b)
  {
    if a == [] {
      assert a + b == b && Modules(read, a) == [];
    } else {
      hide Modules;
      var l, rest := a[0], a[1..];
      ModulesAppend(read, rest, b);
      ModulesCons(read, l, rest);
      ModulesCons(read, l, rest + b);
      assert a == [l] + rest;
      AppendAssoc([l], rest, b);
      AppendAssoc(read(l), Modules(read, rest), Modules(read, b));
    }
  }

  lemma ModulesOne(read: string -> seq<Control>, l: string)
    ensures Modules(read, [l]) == read(l)
  {
    assert [l][1..] == [];
  }

  lemma WiredModules(read: string -> seq<Control>, content: string, w: Wiring)
    requires '\r' !in content && !HasModule(content)
    ensures AuthStack(read, Lines(content)) == Modules(read, Before(content)) + Modules(read, After(content))
    ensures AuthStack(read, Lines(Insert(content, w))) ==
            Modules(read, Before(content)) + read(w.Line()) + Modules(read, After(content))
  {
    hide LibpamAuth, Lines, Insert, Recognized, Before, After, Modules;
    WiredSplit(content, w);
    ModulesAppend(read, Before(content), After(content));
    ModulesAppend(read, Before(content) + [w.Line()], After(content));
    ModulesAppend(read, Before(content), [w.Line()]);
    ModulesOne(read, w.Line());
  }

  /** What wiring promises: without success the decision is the original one; with success (or, for
      `sufficient`, new_authtok_reqd) the `sufficient` forms end with it at once, and the greeter form decides
      as the stack without its first module, or refuses if there is none. */
  function Promised(stack: seq<Control>, results: seq<RetVal>, w: Wiring, r: RetVal): RetVal
    requires |stack| == |results|
  {
    if r == Success && w.GreeterJump? then
      if stack == [] then MUST_FAIL else Decide(stack[1..], results[1..])
    else if r == Success || (r == NewAuthtokReqd && !w.GreeterJump?) then r
    else Decide(stack, results)
  }

  /** The promise that `text` keeps towards `content`, which it was made from, for one reading of the lines, our
      own as libpam reads it, and one vector of results, the face module returning r. */
  ghost predicate KeepsAs(content: string, text: string, w: Wiring, read: string -> seq<Control>, r: RetVal,
                          results: seq<RetVal>) {
    var stack, wired := AuthStack(read, Lines(content)), AuthStack(read, Lines(text));
    var at := |Modules(read, Before(content))|;
    AgreesOn(read, w.Line()) && |results| == |stack| && at <= |results| ==>
      && |wired| == |results| + 1
      && Decide(wired, results[..at] + [r] + results[at..]) == Promised(stack, results, w, r)
  }

  ghost predicate Keeps(content: string, w: Wiring, read: string -> seq<Control>, r: RetVal, results: seq<RetVal>) {
    KeepsAs(content, Insert(content, w), w, read, r, results)
  }

  lemma FrontKeepsPromise(stack: seq<Control>, results: seq<RetVal>, w: Wiring, r: RetVal)
    requires |stack| == |results|
    ensures Decide([w.Meaning()] + stack, [r] + results) == Promised(stack, results, w, r)
  {
    FrontModule(w.Meaning(), r, stack, results);
  }

  lemma KeepsIfRecognized(content: string, w: Wiring, read: string -> seq<Control>, r: RetVal, results: seq<RetVal>)
    requires '\r' !in content && !HasModule(content) && Recognized(content)
    ensures Keeps(content, w, read, r, results)
  {
    hide LibpamAuth, Lines, Insert, Recognized, Before, After, Decide, Promised, Wiring.Meaning, Wiring.Line, ReadRule;
    OurRule(w);
    WiredModules(read, content, w);
    WiredSplit(content, w);
    var stack, wired := AuthStack(read, Lines(content)), AuthStack(read, Lines(Insert(content, w)));
    assert Modules(read, []) == [];
    if AgreesOn(read, w.Line()) && |results| == |stack| {
      hide AuthStack, Modules;
      FrontKeepsPromise(stack, results, w, r);
      assert wired == [w.Meaning()] + stack;
      assert results[..0] + [r] + results[0..] == [r] + results;
    }
  }

  /** A reading that makes one line requisite and ignores every other but ours. */
  function OneRequisite(line: string, w: Wiring): string -> seq<Control> {
    l => if l == w.Line() then [w.Meaning()] else if l == line then [REQUISITE] else []
  }

  predicate AllRequisite(stack: seq<Control>) {
    forall i :: 0 <= i < |stack| ==> stack[i] == REQUISITE
  }

  lemma {:induction false} OnlyRequisites(line: string, w: Wiring, auth: seq<string>)
    requires w.Line() !in auth
    ensures AllRequisite(Modules(OneRequisite(line, w), auth))
  {
    if auth != [] {
      OnlyRequisites(line, w, auth[1..]);
    }
  }

  lemma {:induction false} IgnoredRequisites(stack: seq<Control>, results: seq<RetVal>)
    requires |stack| == |results| && AllRequisite(stack) && forall i :: 0 <= i < |results| ==> results[i] == Ignore
    ensures Decide(stack, results) == MUST_FAIL
  {
    if stack != [] {
      IgnoredRequisites(stack[1..], results[1..]);
    }
  }

  /** A requisite module that fails first decides. */
  lemma FailedRequisite(stack: seq<Control>, results: seq<RetVal>, code: nat)
    requires |stack| == |results| > 0 && stack[0] == REQUISITE && results[0] == Failure(code)
    ensures Decide(stack, results) == Failure(code)
  {
  }

  lemma BreaksIfNot(content: string, w: Wiring) returns (read: string -> seq<Control>, results: seq<RetVal>)
    requires '\r' !in content && !HasModule(content) && !Recognized(content)
    ensures !Keeps(content, w, read, Success, results)
  {
    hide LibpamAuth, Lines, Insert, Recognized, Before, After, Decide, ReadRule;
    OurRule(w);
    WiredSplit(content, w);
    var before, after := Before(content), After(content);
    read := OneRequisite(before[0], w);
    WiredModules(read, content, w);
    var stack, wired := AuthStack(read, Lines(content)), AuthStack(read, Lines(Insert(content, w)));
    OnlyRequisites(before[0], w, before);
    OnlyRequisites(before[0], w, after);
    assert before[0] in before;
    assert Modules(read, before) == read(before[0]) + Modules(read, before[1..]);
    results := [Failure(7)] + seq(|stack| - 1, _ => Ignore);
    var at := |Modules(read, before)|;
    assert stack[0] == REQUISITE && wired[0] == REQUISITE;
    FailedRequisite(wired, results[..at] + [Success] + results[at..], 7);
    assert AllRequisite(stack[1..]);
    IgnoredRequisites(stack[1..], results[1..]);
  }

  /**
   Meaning preserved, exactly: for every reading of a file's lines as a flat stack and every vector of
   module results, the rewritten stack decides as promised, if and only if the code recognizes every auth
   rule that libpam does before the first it recognizes.
   */
  lemma MeaningPreserved(content: string, w: Wiring)
    requires '\r' !in content && !HasModule(content)
    ensures (forall read, r, results :: Keeps(content, w, read, r, results)) <==> Recognized(content)
  {
    hide Keeps, Recognized;
    if Recognized(content) {
      forall read, r, results ensures Keeps(content, w, read, r, results) {
        KeepsIfRecognized(content, w, read, r, results);
      }
    } else {
      var read, results := BreaksIfNot(content, w);
    }
  }

  /** The reading that is libpam's where that is defined here, and `open` elsewhere: for includes and such. */
  function AsRead(open: string -> seq<Control>): string -> seq<Control> {
    l => if ReadRule(l).Some? then [ReadRule(l).value.control] else open(l)
  }

  function OpenAs(line: string): string -> seq<Control> {
    l => if l == line then [REQUISITE] else []
  }

  lemma AsReadAgrees(open: string -> seq<Control>, line: string)
    ensures AgreesOn(AsRead(open), line)
  {
  }

  /** The condition is needed, too, with every line read as libpam reads it, where the rule that the code passes
      over is an include or the like, or requisite. */
  lemma BreaksAsRead(content: string, w: Wiring) returns (open: string -> seq<Control>, results: seq<RetVal>)
    requires '\r' !in content && !HasModule(content) && !Recognized(content)
    requires Before(content) != [] &&
             var rule := ReadRule(Before(content)[0]); rule.None? || rule.value.control == REQUISITE
    ensures !Keeps(content, w, AsRead(open), Success, results)
  {
    hide LibpamAuth, Lines, Insert, Recognized, Before, After, Decide, ReadRule;
    OurRule(w);
    WiredSplit(content, w);
    var before, after := Before(content), After(content);
    open := OpenAs(before[0]);
    var read := AsRead(open);
    AsReadAgrees(open, w.Line());
    WiredModules(read, content, w);
    var stack, wired := AuthStack(read, Lines(content)), AuthStack(read, Lines(Insert(content, w)));
    assert read(before[0]) == [REQUISITE];
    assert Modules(read, before) == read(before[0]) + Modules(read, before[1..]);
    results := [Failure(7)] + seq(|stack| - 1, _ => Ignore);
    var at := |Modules(read, before)|;
    assert stack[0] == REQUISITE && wired[0] == REQUISITE;
    FailedRequisite(wired, results[..at] + [Success] + results[at..], 7);
    NoSuchFailure(stack[1..], results[1..], 7);
  }

  lemma NoSuchFailure(stack: seq<Control>, results: seq<RetVal>, code: nat)
    requires |stack| == |results| && code != 6 && forall i :: 0 <= i < |results| ==> results[i] != Failure(code)
    ensures Decide(stack, results) != Failure(code)
  {
    FailureHasSource(stack, results, Undef, MUST_FAIL, code);
  }

  /** The greeter's jump skips the first auth line exactly when that line stands for one module; over
      an include that expands to several, it skips only the first of them. */
  lemma JumpSkipsLine(read: string -> seq<Control>, lines: seq<string>)
    requires Keep(lines, LibpamAuth) != [] && AuthStack(read, lines) != []
    ensures var auth := Keep(lines, LibpamAuth);
            AuthStack(read, lines)[1..] == Modules(read, auth[1..]) <==> |read(auth[0])| == 1
  {
    hide LibpamAuth;
    var auth := Keep(lines, LibpamAuth);
    assert AuthStack(read, lines) == read(auth[0]) + Modules(read, auth[1..]);
  }

  /** libpam takes upper case too; the code does not. */
  lemma UpperCaseRule(rest: string)
    requires rest != "" && IsBlank(rest[0])
    ensures LibpamAuth("AUTH" + rest) && !IsAuthDirective("AUTH" + rest)
  {
    AuthIsAuth("AUTH", rest);
    var line := "AUTH" + rest;
    assert line[0] == 'A' && TrimStart(line) == line && TakeToken(line)[0] == 'A';
  }

  /** What comes of it: in a greeter file whose only auth rule is in upper case the face line goes last, and
      even with the right password a recognized face is refused, for the jump runs off the end. */
  lemma UpperCaseRefusesFace(rest: string, read: string -> seq<Control>)
    requires rest != "" && IsBlank(rest[0]) && '\n' !in rest && '\r' !in rest && NotOurs("AUTH" + rest)
    requires ReadRule("AUTH" + rest).Some? && ReadRule("AUTH" + rest).value.control == REQUIRED
    requires AgreesOn(read, "AUTH" + rest) && AgreesOn(read, GreeterJump.Line())
    ensures var content := "AUTH" + rest;
            && !HasModule(content) && !Recognized(content)
            && AuthStack(read, Lines(content)) == [REQUIRED]
            && AuthStack(read, Lines(Insert(content, GreeterJump))) == [REQUIRED, GreeterJump.Meaning()]
    ensures Decide([REQUIRED, GreeterJump.Meaning()], [Success, Success]) == MUST_FAIL
    ensures Decide([REQUIRED], [Success]) == Success
  {
    hide LibpamAuth, IsAuthDirective, ActiveModule, Insert, Wiring.Line, ReadRule;
    var content := "AUTH" + rest;
    OurRule(GreeterJump);
    UpperCaseRule(rest);
    assert '\n' !in content;
    assert Lines(content) == [content];
    assert !HasModule(content);
    assert FirstIndex([content], IsAuthDirective) == 1 by {
      assert [content][1..] == [];
    }
    assert [content][..1] == [content] && [content][1..] == [];
    KeepOne(content, LibpamAuth);
    assert Before(content) == [content] && After(content) == [];
    ModulesOne(read, content);
    WiredModules(read, content, GreeterJump);
    assert Modules(read, []) == [];
    JumpOffTheEnd();
  }

  /** Such a file: its one rule is `AUTH required` with a module other than ours. */
  lemma UpperCaseFile(mod: string)
    requires mod != "" && forall i :: 0 <= i < |mod| ==> !IsSpace(mod[i]) && mod[i] != 'h'
    ensures var rest := " " + ("required" + (" " + (mod + "")));
            && rest != "" && IsBlank(rest[0]) && '\n' !in rest && '\r' !in rest && NotOurs("AUTH" + rest)
            && ReadRule("AUTH" + rest) == Some(Rule(REQUIRED, mod, ""))
  {
    hide ReadRule, ReadControl, IsField;
    KeywordsAreRead();
    RuleIsRead("AUTH", " ", "required", " ", mod, "");
    var rest := " " + ("required" + (" " + (mod + "")));
    assert forall c <- mod :: !IsSpace(c) && c != 'h';
    NoModuleWithoutH("AUTH" + rest);
  }

  /** A line without an h does not name our module. */
  lemma NoModuleWithoutH(line: string)
    requires 'h' !in line
    ensures NotOurs(line)
  {
    TrimStartIsPart(line);
    var t := TrimStart(line);
    forall i | 0 <= i <= |t| ensures !OccursAt(t, MODULE, i) {
      assert MODULE[7] == 'h';
      assert i + |MODULE| <= |t| ==> t[i..i + |MODULE|][7] == t[i + 7];
    }
  }

  lemma JumpOffTheEnd()
    ensures Decide([REQUIRED, JumpOnSuccess(1)], [Success, Success]) == MUST_FAIL
    ensures Decide([REQUIRED], [Success]) == Success
  {
    var stack, results := [REQUIRED, JumpOnSuccess(1)], [Success, Success];
    assert stack[1..] == [JumpOnSuccess(1)] && results[1..] == [Success];
    assert Dispatch([JumpOnSuccess(1)], [Success], Positive, Success) == MUST_FAIL;
    var one, r := [REQUIRED], [Success];
    assert one[1..] == [] && r[1..] == [];
    assert Dispatch(one[1..], r[1..], Positive, Success) == Success;
  }
}
