/**
 One line of a PAM service file as libpam reads it, after its configuration parser and the pam.conf(5) manual
 page: a type, a control and a module with arguments, separated by blanks and tabs.
 */
module PamRule {
  import opened Wrappers
  import opened Text
  import opened PamStack

  predicate IsBlank(c: char) {
    c == ' ' || c == '\t'
  }

  function SkipBlanks(s: string): (t: string)
    ensures |t| <= |s|
  {
    if s != "" && IsBlank(s[0]) then SkipBlanks(s[1..]) else s
  }

  function BlankToken(s: string): (t: string)
    ensures t <= s
  {
    if s == "" || IsBlank(s[0]) then "" else [s[0]] + BlankToken(s[1..])
  }

  function Lower(s: string): string {
    if s == "" then "" else [if 'A' <= s[0] <= 'Z' then s[0] - 'A' + 'a' else s[0]] + Lower(s[1..])
  }

  /** A line that libpam takes as an auth rule: its first word, less one leading dash, is `auth` in upper or
      lower case. */
  predicate LibpamAuth(line: string) {
    var token := BlankToken(SkipBlanks(line));
    Lower(if "-" <= token then token[1..] else token) == "auth"
  }

  // ---------- controls ----------

  function IsNumber(s: string): bool {
    s != "" && forall i :: 0 <= i < |s| ==> '0' <= s[i] <= '9'
  }

  function Number(s: string): nat
    requires forall i :: 0 <= i < |s| ==> '0' <= s[i] <= '9'
  {
    if s == "" then 0 else 10 * Number(s[..|s| - 1]) + (s[|s| - 1] - '0') as nat
  }

  /** The right-hand side of a bracket item. */
  function ReadAction(s: string): Option<Action> {
    if s == "ignore" then Some(Skip)
    else if s == "ok" then Some(Action.Ok)
    else if s == "done" then Some(Done)
    else if s == "bad" then Some(Bad)
    else if s == "die" then Some(Die)
    else if s == "reset" then Some(Reset)
    else if IsNumber(s) && Number(s) > 0 then Some(Jump(Number(s)))
    else None
  }

  /** The actions set so far; `rest` is for all results without an action of their own. */
  datatype Actions = Actions(success: Option<Action>, newAuthtokReqd: Option<Action>, ignore: Option<Action>,
                             rest: Option<Action>)

  function Or(a: Option<Action>, b: Action): Option<Action> {
    if a.Some? then a else Some(b)
  }

  /** `default` sets what has no action yet. Results that PamStack does not name are not read. */
  function SetAction(a: Actions, name: string, act: Action): Option<Actions> {
    if name == "success" then Some(a.(success := Some(act)))
    else if name == "new_authtok_reqd" then Some(a.(newAuthtokReqd := Some(act)))
    else if name == "ignore" then Some(a.(ignore := Some(act)))
    else if name == "default" then
      Some(Actions(Or(a.success, act), Or(a.newAuthtokReqd, act), Or(a.ignore, act), Or(a.rest, act)))
    else None
  }

  /** The items of a bracket control, one after the other. */
  function ReadItems(body: string, a: Actions): Option<Actions>
    decreases |body|
  {
    var s := SkipBlanks(body);
    if s == "" then Some(a)
    else
      var item := BlankToken(s);
      var i := IndexOf(item, '=');
      if i == |item| then None
      else
        var act := ReadAction(item[i + 1..]);
        if act.None? then None
        else
          var next := SetAction(a, item[..i], act.value);
          if next.None? then None else ReadItems(s[|item|..], next.value)
  }

  /** What is left unset is treated as a failure. */
  function Filled(a: Actions): Control {
    Control(Or(a.success, Bad).value, Or(a.newAuthtokReqd, Bad).value, Or(a.ignore, Bad).value, Or(a.rest, Bad).value)
  }

  /** A control field, in the four words or in brackets; includes and the like are not controls. */
  function ReadControl(s: string): Option<Control> {
    if "[" <= s then
      if |s| < 2 || s[|s| - 1] != ']' then None
      else
        var a := ReadItems(s[1..|s| - 1], Actions(None, None, None, None));
        if a.None? then None else Some(Filled(a.value))
    else
      var word := Lower(s);
      if word == "required" then Some(REQUIRED)
      else if word == "requisite" then Some(REQUISITE)
      else if word == "sufficient" then Some(SUFFICIENT)
      else if word == "optional" then Some(OPTIONAL)
      else None
  }

  // ---------- rules ----------

  datatype Rule = Rule(control: Control, mod: string, args: string)

  /** The second field: a word, or everything up to the closing bracket. */
  function ControlField(s: string): (t: string)
    ensures t <= s
  {
    if "[" <= s then
      var i := IndexOf(s, ']');
      if i < |s| then s[..i + 1] else s
    else BlankToken(s)
  }

  /** An auth rule with a control that is read here. */
  function ReadRule(line: string): Option<Rule> {
    if !LibpamAuth(line) then None
    else
      var s := SkipBlanks(line);
      var afterType := SkipBlanks(s[|BlankToken(s)|..]);
      var field := ControlField(afterType);
      var control := ReadControl(field);
      var afterControl := SkipBlanks(afterType[|field|..]);
      var mod := BlankToken(afterControl);
      if control.None? || mod == "" then None
      else Some(Rule(control.value, mod, SkipBlanks(afterControl[|mod|..])))
  }

  // ---------- reading what was written ----------

  /** A word without blanks is the first token of a line it starts. */
  lemma {:induction false} WordIsToken(word: string, rest: string)
    requires forall i :: 0 <= i < |word| ==> !IsBlank(word[i])
    requires rest == "" || IsBlank(rest[0])
    ensures BlankToken(word + rest) == word
    ensures word != "" ==> SkipBlanks(word + rest) == word + rest
  {
    if word == "" {
      assert word + rest == rest;
    } else {
      var c, tail := word[0], word[1..];
      WordIsToken(tail, rest);
      BlankStep(c, tail + rest);
      assert word == [c] + tail && word + rest == [c] + (tail + rest);
    }
  }

  lemma BlankStep(c: char, rest: string)
    requires !IsBlank(c)
    ensures BlankToken([c] + rest) == [c] + BlankToken(rest) && SkipBlanks([c] + rest) == [c] + rest
  {
    assert ([c] + rest)[1..] == rest;
  }

  /** Leading blanks are skipped, and nothing else. */
  lemma {:induction false} BlanksAreSkipped(blanks: string, rest: string)
    requires forall i :: 0 <= i < |blanks| ==> IsBlank(blanks[i])
    requires rest == "" || !IsBlank(rest[0])
    ensures SkipBlanks(blanks + rest) == rest
  {
    if blanks == "" {
      assert blanks + rest == rest;
    } else {
      BlanksAreSkipped(blanks[1..], rest);
      assert (blanks + rest)[1..] == blanks[1..] + rest;
    }
  }

  lemma LowerAuth()
    ensures Lower("AUTH") == "auth" && Lower("auth") == "auth"
  {
    assert "AUTH"[1..] == "UTH" && "UTH"[1..] == "TH" && "TH"[1..] == "H" && "H"[1..] == "";
    assert Lower("H") == "h" && Lower("TH") == "th" && Lower("UTH") == "uth";
    assert "auth"[1..] == "uth" && "uth"[1..] == "th" && "th"[1..] == "h" && "h"[1..] == "";
    assert Lower("h") == "h" && Lower("th") == "th" && Lower("uth") == "uth";
  }

  lemma {:induction false} LowerIsSame(s: string)
    requires forall i :: 0 <= i < |s| ==> !('A' <= s[i] <= 'Z')
    ensures Lower(s) == s
  {
    if s != "" {
      LowerIsSame(s[1..]);
      assert s == [s[0]] + s[1..];
    }
  }

  /** The control field of a line: a keyword, or a bracket with no bracket inside. */
  predicate IsField(control: string) {
    if "[" <= control then |control| >= 2 && IndexOf(control, ']') == |control| - 1
    else control != "" && forall i :: 0 <= i < |control| ==> !IsBlank(control[i])
  }

  lemma FieldIsRead(control: string, rest: string)
    requires IsField(control) && rest != "" && IsBlank(rest[0])
    ensures ControlField(control + rest) == control
  {
    var s := control + rest;
    assert s[0] == control[0];
    if "[" <= control {
      var n := |control| - 1;
      assert s[n] == ']';
      assert forall i :: 0 <= i < n ==> s[i] == control[i] && s[i] != ']';
      assert IndexOf(s, ']') == n;
      assert s[..n + 1] == control;
    } else {
      WordIsToken(control, rest);
    }
  }

  /** The word `auth`, in either case. */
  predicate IsAuthWord(word: string) {
    word in ["auth", "AUTH"]
  }

  /** An auth line is read as the control, module and arguments it is made of. */
  lemma RuleIsRead(word: string, gap: string, control: string, gap': string, mod: string, tail: string)
    requires IsAuthWord(word)
    requires IsField(control) && ReadControl(control).Some?
    requires gap != "" && gap' != "" && (forall i :: 0 <= i < |gap| ==> IsBlank(gap[i]))
    requires forall i :: 0 <= i < |gap'| ==> IsBlank(gap'[i])
    requires mod != "" && (forall i :: 0 <= i < |mod| ==> !IsBlank(mod[i])) && (tail == "" || IsBlank(tail[0]))
    ensures ReadRule(word + (gap + (control + (gap' + (mod + tail))))) ==
            Some(Rule(ReadControl(control).value, mod, SkipBlanks(tail)))
  {
    hide ReadControl, ControlField, BlankToken, SkipBlanks, Lower, LibpamAuth;
    var u := mod + tail;
    var t := gap' + u;
    var s := control + t;
    var r := gap + s;
    var line := word + r;
    AuthIsAuth(word, r);
    assert line[|word|..] == r;
    FieldStarts(control);
    assert s[0] == control[0];
    BlanksAreSkipped(gap, s);
    FieldIsRead(control, t);
    assert s[|control|..] == t;
    assert u[0] == mod[0];
    BlanksAreSkipped(gap', u);
    WordIsToken(mod, tail);
    assert u[|mod|..] == tail;
  }

  predicate IsWord(s: string) {
    s != "" && forall i :: 0 <= i < |s| ==> 'a' <= s[i] <= 'z'
  }

  lemma KeywordIsField(word: string)
    requires IsWord(word)
    ensures IsField(word) && Lower(word) == word && !("[" <= word)
  {
    LowerIsSame(word);
    assert word[0] != '[';
  }

  lemma KeywordsAreRead()
    ensures IsField("required") && ReadControl("required") == Some(REQUIRED)
    ensures IsField("requisite") && ReadControl("requisite") == Some(REQUISITE)
    ensures IsField("sufficient") && ReadControl("sufficient") == Some(SUFFICIENT)
    ensures IsField("optional") && ReadControl("optional") == Some(OPTIONAL)
  {
    hide Lower, IsField, ReadItems;
    KeywordIsField("required");
    KeywordIsField("requisite");
    KeywordIsField("sufficient");
    KeywordIsField("optional");
  }

  lemma ItemSplits(name: string, val: string)
    requires IsWord(name) && forall i :: 0 <= i < |val| ==> !IsBlank(val[i])
    ensures var item := name + ("=" + val);
            && IndexOf(item, '=') == |name| && item[..|name|] == name && item[|name| + 1..] == val
            && item != "" && forall i :: 0 <= i < |item| ==> !IsBlank(item[i])
  {
    var item, n := name + ("=" + val), |name|;
    assert item[n] == '=' && forall i :: 0 <= i < n ==> item[i] == name[i] && item[i] != '=';
    assert forall i :: n < i < |item| ==> item[i] == val[i - n - 1];
  }

  /** One item of a bracket is read, and then the rest. */
  lemma ItemIsRead(name: string, val: string, rest: string, a: Actions)
    requires IsWord(name) && (forall i :: 0 <= i < |val| ==> !IsBlank(val[i]))
    requires ReadAction(val).Some? && SetAction(a, name, ReadAction(val).value).Some?
    requires rest == "" || IsBlank(rest[0])
    ensures ReadItems(name + ("=" + val) + rest, a) == ReadItems(rest, SetAction(a, name, ReadAction(val).value).value)
  {
    hide ReadAction, SetAction, IndexOf, BlankToken, SkipBlanks, IsWord;
    var item := name + ("=" + val);
    ItemSplits(name, val);
    WordIsToken(item, rest);
    assert (item + rest)[|item|..] == rest;
  }

  lemma GapIsSkipped(gap: string, rest: string, a: Actions)
    requires (forall i :: 0 <= i < |gap| ==> IsBlank(gap[i])) && (rest == "" || !IsBlank(rest[0]))
    ensures ReadItems(gap + rest, a) == ReadItems(rest, a)
  {
    BlanksAreSkipped(gap, rest);
    BlanksAreSkipped("", rest);
    assert "" + rest == rest;
  }

  lemma AuthIsAuth(word: string, rest: string)
    requires IsAuthWord(word) && rest != "" && IsBlank(rest[0])
    ensures LibpamAuth(word + rest) && SkipBlanks(word + rest) == word + rest && BlankToken(word + rest) == word
  {
    LowerAuth();
    if word == "auth" {
      WordIsToken("auth", rest);
    } else {
      WordIsToken("AUTH", rest);
    }
  }

  lemma FieldStarts(control: string)
    requires IsField(control)
    ensures control != "" && !IsBlank(control[0])
  {
  }
}
