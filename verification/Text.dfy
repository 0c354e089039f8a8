/** Line-oriented text as Rust's `str` sees it: lines, trimming, prefixes and substrings. */
module Text {

  /** Unicode White_Space. */
  predicate IsSpace(c: char) {
    || '\t' <= c <= '\r' || c == ' ' || c == '\U{85}' || c == '\U{A0}' || c == '\U{1680}'
    || '\U{2000}' <= c <= '\U{200A}' || c == '\U{2028}' || c == '\U{2029}'
    || c == '\U{202F}' || c == '\U{205F}' || c == '\U{3000}'
  }

  function TrimStart(s: string): (t: string)
    ensures |t| <= |s|
  {
    if s != "" && IsSpace(s[0]) then TrimStart(s[1..]) else s
  }

  function TrimEnd(s: string): (t: string)
    ensures |t| <= |s|
  {
    if s != "" && IsSpace(s[|s| - 1]) then TrimEnd(s[..|s| - 1]) else s
  }

  function Trim(s: string): string {
    TrimEnd(TrimStart(s))
  }

  predicate OccursAt(s: string, sub: string, i: nat) {
    i + |sub| <= |s| && s[i..i + |sub|] == sub
  }

  predicate Contains(s: string, sub: string) {
    exists i :: 0 <= i <= |s| && OccursAt(s, sub, i)
  }

  /** Index of the first `c`, or the length. */
  function IndexOf(s: string, c: char): (i: nat)
    ensures i <= |s| && (i < |s| ==> s[i] == c)
    ensures forall j :: 0 <= j < i ==> s[j] != c
  {
    if s == "" || s[0] == c then 0 else 1 + IndexOf(s[1..], c)
  }

  function StripCr(s: string): string {
    if s != "" && s[|s| - 1] == '\r' then s[..|s| - 1] else s
  }

  /** `str::lines`: a final newline ends the last line, and CR LF ends a line as LF does. */
  function Lines(s: string): seq<string> {
    if s == "" then []
    else
      var i := IndexOf(s, '\n');
      if i == |s| then [s] else [StripCr(s[..i])] + Lines(s[i + 1..])
  }

  /** Every line followed by a newline. */
  function Unlines(lines: seq<string>): string {
    if lines == [] then "" else lines[0] + "\n" + Unlines(lines[1..])
  }

  /** A line that survives being written and read back. */
  predicate Clean(line: string) {
    '\n' !in line && StripCr(line) == line
  }

  predicate AllClean(lines: seq<string>) {
    forall l <- lines :: Clean(l)
  }

  lemma LinesCons(line: string, rest: string)
    requires Clean(line)
    ensures Lines(line + "\n" + rest) == [line] + Lines(rest)
  {
    var s := line + "\n" + rest;
    var i := IndexOf(s, '\n');
    assert s[|line|] == '\n';
    assert forall j :: 0 <= j < |line| ==> s[j] == line[j];
    assert s[..i] == line && s[i + 1..] == rest;
  }

  /** CR LF ends a line as LF does, and neither is part of it. */
  lemma LinesCrLf(line: string, rest: string)
    requires '\n' !in line
    ensures Lines(line + "\r" + "\n" + rest) == [line] + Lines(rest)
  {
    var s := line + "\r" + "\n" + rest;
    var n := |line| + 1;
    assert s[n] == '\n' && forall j :: 0 <= j < n ==> s[j] != '\n';
    assert IndexOf(s, '\n') == n;
    assert s[..n] == line + "\r" && s[n + 1..] == rest;
    assert (line + "\r")[..|line|] == line;
  }

  /** Reading what was written gives the same lines. */
  lemma {:induction false} LinesUnlines(lines: seq<string>)
    requires AllClean(lines)
    ensures Lines(Unlines(lines)) == lines
  {
    if lines != [] {
      LinesUnlines(lines[1..]);
      LinesCons(lines[0], Unlines(lines[1..]));
      assert [lines[0]] + lines[1..] == lines;
    }
  }

  lemma CleanPart(s: string, i: nat)
    requires '\r' !in s && i <= |s| && '\n' !in s[..i]
    ensures Clean(s[..i]) && '\r' !in s[i..]
  {
  }

  lemma AllCleanCons(line: string, lines: seq<string>)
    requires Clean(line) && AllClean(lines)
    ensures AllClean([line] + lines)
  {
    hide Clean;
  }

  /** Text without carriage returns has clean lines. */
  lemma {:induction false} LinesAreClean(s: string)
    requires '\r' !in s
    ensures AllClean(Lines(s))
  {
    if s != "" {
      var i := IndexOf(s, '\n');
      CleanPart(s, i);
      if i < |s| {
        LinesAreClean(s[i + 1..]);
        AllCleanCons(s[..i], Lines(s[i + 1..]));
        assert Lines(s) == [s[..i]] + Lines(s[i + 1..]);
      } else {
        assert s[..i] == s && Lines(s) == [s];
      }
    }
  }

  /** `s` with its last line ended. */
  function Ended(s: string): string {
    if s == "" || s[|s| - 1] == '\n' then s else s + "\n"
  }

  lemma UnlinesCons(line: string, lines: seq<string>)
    ensures Unlines([line] + lines) == line + "\n" + Unlines(lines)
  {
    assert ([line] + lines)[1..] == lines;
  }

  lemma EndedSplit(s: string, i: nat)
    requires i < |s| && s[i] == '\n'
    ensures Ended(s) == s[..i] + "\n" + Ended(s[i + 1..])
  {
    var head, rest := s[..i] + "\n", s[i + 1..];
    assert s == head + rest;
    if rest != "" {
      assert rest[|rest| - 1] == s[|s| - 1];
      assert (head + rest) + "\n" == head + (rest + "\n");
    }
  }

  /** Writing what was read gives the same text, up to a missing final newline. */
  lemma {:induction false} UnlinesLines(s: string)
    requires '\r' !in s
    ensures Unlines(Lines(s)) == Ended(s)
  {
    if s != "" {
      var i := IndexOf(s, '\n');
      CleanPart(s, i);
      if i < |s| {
        var rest := s[i + 1..];
        assert Lines(s) == [s[..i]] + Lines(rest);
        hide Lines, Ended, Unlines;
        UnlinesLines(rest);
        UnlinesCons(s[..i], Lines(rest));
        EndedSplit(s, i);
      } else {
        assert Lines(s) == [s] + [];
        UnlinesCons(s, []);
      }
    }
  }

  // ---------- trimming ----------

  /** What ends in a non-space is not trimmed away. */
  lemma {:induction false} TrimEndAppend(a: string, b: string)
    requires a != "" && !IsSpace(a[|a| - 1])
    ensures TrimEnd(a + b) == a + TrimEnd(b)
  {
    hide IsSpace;
    var s := a + b;
    if b == "" {
      assert s == a;
    } else {
      assert s[|s| - 1] == b[|b| - 1];
      assert s[..|s| - 1] == a + b[..|b| - 1];
      TrimEndAppend(a, b[..|b| - 1]);
    }
  }

  lemma {:induction false} TrimEndCons(c: char, w: string)
    ensures TrimEnd([c] + w) == if TrimEnd(w) == "" then TrimEnd([c]) else [c] + TrimEnd(w)
  {
    hide IsSpace;
    var s := [c] + w;
    if w == "" {
      assert s == [c];
    } else {
      assert s[|s| - 1] == w[|w| - 1];
      assert s[..|s| - 1] == [c] + w[..|w| - 1];
      TrimEndCons(c, w[..|w| - 1]);
    }
  }

  lemma TrimStartCons(c: char, w: string)
    ensures TrimStart([c] + w) == if IsSpace(c) then TrimStart(w) else [c] + w
  {
    assert ([c] + w)[1..] == w;
  }

  lemma TrimmedStart(s: string)
    requires Trim(s) == s && s != ""
    ensures !IsSpace(s[0])
  {
    hide IsSpace;
    assert s == [s[0]] + s[1..];
    TrimStartCons(s[0], s[1..]);
  }

  lemma {:induction false} TrimEndTwice(s: string)
    ensures TrimEnd(TrimEnd(s)) == TrimEnd(s)
  {
    hide IsSpace;
    if s != "" && IsSpace(s[|s| - 1]) {
      TrimEndTwice(s[..|s| - 1]);
    }
  }

  /** Trimming the end first makes no difference. */
  lemma {:induction false} TrimTrimEnd(s: string)
    ensures Trim(TrimEnd(s)) == Trim(s)
  {
    hide IsSpace;
    if s != "" {
      var c, w := s[0], s[1..];
      assert s == [c] + w;
      TrimEndCons(c, w);
      TrimTrimEnd(w);
      TrimStartCons(c, w);
      TrimStartCons(c, TrimEnd(w));
      TrimEndTwice(s);
      if TrimEnd(w) == "" && IsSpace(c) {
        assert [c][..0] == "" && TrimEnd([c]) == "";
      }
    }
  }

  lemma {:induction false} TrimStartTwice(s: string)
    ensures TrimStart(TrimStart(s)) == TrimStart(s)
  {
    hide IsSpace;
    if s != "" && IsSpace(s[0]) {
      TrimStartTwice(s[1..]);
    }
  }

  lemma {:induction false} TrimEndIsPrefix(s: string)
    ensures TrimEnd(s) <= s
  {
    hide IsSpace;
    if s != "" && IsSpace(s[|s| - 1]) {
      TrimEndIsPrefix(s[..|s| - 1]);
    }
  }

  lemma {:induction false} TrimStartIsPart(s: string)
    ensures forall c <- TrimStart(s) :: c in s
  {
    hide IsSpace;
    if s != "" && IsSpace(s[0]) {
      TrimStartIsPart(s[1..]);
    }
  }

  /** Trimming leaves no character that was not there. */
  lemma TrimIsPart(s: string)
    ensures forall c <- Trim(s) :: c in s
  {
    TrimStartIsPart(s);
    TrimEndIsPrefix(TrimStart(s));
  }

  /** A non-empty start-trimmed text keeps its first character when its end is trimmed too. */
  lemma TrimEndHead(s: string)
    requires s != "" && !IsSpace(s[0])
    ensures TrimEnd(s) != "" && TrimEnd(s)[0] == s[0]
  {
    hide IsSpace;
    TrimEndAppend([s[0]], s[1..]);
    assert [s[0]] + s[1..] == s;
  }

  lemma TrimTwice(s: string)
    ensures Trim(Trim(s)) == Trim(s)
  {
    hide IsSpace;
    var u := TrimStart(s);
    TrimStartTwice(s);
    TrimTrimEnd(u);
    assert Trim(u) == TrimEnd(TrimStart(u));
  }

  /** The head of a trimmed text, cut anywhere, trims to something with the same first character. */
  lemma TrimKeepsHead(t: string, i: nat)
    requires Trim(t) == t && i <= |t| && Trim(t[..i]) != ""
    ensures t != "" && Trim(t[..i])[0] == t[0]
  {
    hide IsSpace;
    if i > 0 {
      TrimmedStart(t);
      assert t[..i][0] == t[0];
      TrimEndHead(t[..i]);
    }
  }

  /** A carriage return at the end of a line is invisible to trimming. */
  lemma TrimStripCr(line: string)
    ensures Trim(StripCr(line)) == Trim(line)
  {
    TrimTrimEnd(line);
    TrimTrimEnd(StripCr(line));
    hide Trim;
    assert TrimEnd(StripCr(line)) == TrimEnd(line);
  }

  // ---------- lines that may end in carriage returns ----------

  predicate NoNewlines(lines: seq<string>) {
    forall l <- lines :: '\n' !in l
  }

  lemma {:induction false} LinesHaveNoNewlines(s: string)
    ensures NoNewlines(Lines(s))
  {
    if s != "" {
      var i := IndexOf(s, '\n');
      if i < |s| {
        LinesHaveNoNewlines(s[i + 1..]);
      }
    }
  }

  function StripAll(lines: seq<string>): (r: seq<string>)
    ensures |r| == |lines|
  {
    if lines == [] then [] else [StripCr(lines[0])] + StripAll(lines[1..])
  }

  lemma LinesConsStrip(line: string, rest: string)
    requires '\n' !in line
    ensures Lines(line + "\n" + rest) == [StripCr(line)] + Lines(rest)
  {
    var s := line + "\n" + rest;
    var i := IndexOf(s, '\n');
    assert s[|line|] == '\n';
    assert forall j :: 0 <= j < |line| ==> s[j] == line[j];
    assert s[..i] == line && s[i + 1..] == rest;
  }

  /** Writing and reading back strips at most a carriage return per line. */
  lemma {:induction false} LinesUnlinesStrip(lines: seq<string>)
    requires NoNewlines(lines)
    ensures Lines(Unlines(lines)) == StripAll(lines)
  {
    if lines != [] {
      LinesUnlinesStrip(lines[1..]);
      LinesConsStrip(lines[0], Unlines(lines[1..]));
    }
  }
}
