/** Editing a sequence of lines by a predicate: insert before the first match, drop every match. */
module LineEdit {

  /** Index of the first line satisfying `p`, or the number of lines. */
  function FirstIndex<T>(lines: seq<T>, p: T -> bool): (k: nat)
    ensures k <= |lines| && (k < |lines| ==> p(lines[k]))
    ensures forall j :: 0 <= j < k ==> !p(lines[j])
  {
    if lines == [] || p(lines[0]) then 0 else 1 + FirstIndex(lines[1..], p)
  }

  function InsertBefore<T>(lines: seq<T>, p: T -> bool, line: T): seq<T> {
    var k := FirstIndex(lines, p);
    lines[..k] + [line] + lines[k..]
  }

  function Keep<T>(lines: seq<T>, p: T -> bool): (r: seq<T>)
    ensures |r| <= |lines|
  {
    if lines == [] then []
    else if p(lines[0]) then [lines[0]] + Keep(lines[1..], p)
    else Keep(lines[1..], p)
  }

  lemma AppendAssoc<T>(a: seq<T>, b: seq<T>, c: seq<T>)
    ensures a + b + c == a + (b + c)
  {
  }

  lemma KeepCons<T>(x: T, lines: seq<T>, p: T -> bool)
    ensures Keep([x] + lines, p) == (if p(x) then [x] else []) + Keep(lines, p)
  {
    assert ([x] + lines)[1..] == lines;
  }

  lemma {:induction false} KeepAppend<T>(a: seq<T>, b: seq<T>, p: T -> bool)
    ensures Keep(a + b, p) == Keep(a, p) + Keep(b, p)
  {
    if a == [] {
      assert a + b == b;
      assert Keep(a, p) == [];
    } else {
      var x, rest := a[0], a[1..];
      hide Keep;
      KeepAppend(rest, b, p);
      KeepCons(x, rest, p);
      KeepCons(x, rest + b, p);
      assert a == [x] + rest;
      AppendAssoc([x], rest, b);
      AppendAssoc(if p(x) then [x] else [], Keep(rest, p), Keep(b, p));
    }
  }

  lemma {:induction false} KeepAll<T>(lines: seq<T>, p: T -> bool)
    ensures Keep(lines, p) == lines <==> forall l <- lines :: p(l)
  {
    if lines != [] {
      KeepAll(lines[1..], p);
      assert lines == [lines[0]] + lines[1..];
      assert |Keep(lines[1..], p)| <= |lines| - 1;
    }
  }

  lemma {:induction false} KeepNone<T>(lines: seq<T>, p: T -> bool)
    requires forall l <- lines :: !p(l)
    ensures Keep(lines, p) == []
  {
    if lines != [] {
      KeepNone(lines[1..], p);
    }
  }

  lemma {:induction false} KeepSome<T>(lines: seq<T>, p: T -> bool, i: nat)
    requires i < |lines| && p(lines[i])
    ensures Keep(lines, p) != []
  {
    if i > 0 {
      KeepSome(lines[1..], p, i - 1);
    }
  }

  lemma KeepOne<T>(line: T, p: T -> bool)
    ensures Keep([line], p) == if p(line) then [line] else []
  {
    assert [line][1..] == [];
  }

  /** What a filter keeps of an edited sequence: the inserted line where it went, and the rest as before. */
  lemma KeepInsert<T>(lines: seq<T>, p: T -> bool, line: T, q: T -> bool)
    ensures var k := FirstIndex(lines, p);
            Keep(InsertBefore(lines, p, line), q) ==
            Keep(lines[..k], q) + (if q(line) then [line] else []) + Keep(lines[k..], q)
    ensures var k := FirstIndex(lines, p);
            Keep(lines, q) == Keep(lines[..k], q) + Keep(lines[k..], q)
  {
    var k := FirstIndex(lines, p);
    KeepAppend(lines[..k] + [line], lines[k..], q);
    KeepAppend(lines[..k], [line], q);
    KeepOne(line, q);
    KeepAppend(lines[..k], lines[k..], q);
    assert lines[..k] + lines[k..] == lines;
  }

  /** A line that a filter drops, inserted among lines it keeps, is the only one to go. */
  lemma KeepDropsInserted<T>(lines: seq<T>, p: T -> bool, line: T, q: T -> bool)
    requires !q(line)
    ensures Keep(InsertBefore(lines, p, line), q) == Keep(lines, q)
  {
    KeepInsert(lines, p, line, q);
  }

  /** A line that a filter keeps, inserted among lines it drops, is the only one to stay. */
  lemma KeepFindsInserted<T>(lines: seq<T>, p: T -> bool, line: T, q: T -> bool)
    requires q(line) && forall l <- lines :: !q(l)
    ensures Keep(InsertBefore(lines, p, line), q) == [line]
  {
    KeepInsert(lines, p, line, q);
    var k := FirstIndex(lines, p);
    KeepNone(lines[..k], q);
    KeepNone(lines[k..], q);
  }

  lemma InsertedIsThere<T>(lines: seq<T>, p: T -> bool, line: T)
    ensures line in InsertBefore(lines, p, line)
  {
    assert InsertBefore(lines, p, line)[FirstIndex(lines, p)] == line;
  }

  /** Dropping lines that `q` would drop anyway makes no difference to `q`. */
  lemma {:induction false} KeepKeep<T>(lines: seq<T>, p: T -> bool, q: T -> bool)
    requires forall l <- lines :: q(l) ==> p(l)
    ensures Keep(Keep(lines, p), q) == Keep(lines, q)
  {
    if lines != [] {
      KeepKeep(lines[1..], p, q);
      if p(lines[0]) {
        assert Keep(lines, p)[1..] == Keep(lines[1..], p);
      }
    }
  }

  lemma {:induction false} KeepMembers<T>(lines: seq<T>, p: T -> bool)
    ensures forall l <- Keep(lines, p) :: l in lines && p(l)
  {
    if lines != [] {
      KeepMembers(lines[1..], p);
    }
  }

  /** The scan that pushes `line` just before the first match, or at the end. */
  method InsertScan<T>(lines: seq<T>, p: T -> bool, line: T) returns (out: seq<T>)
    ensures out == InsertBefore(lines, p, line)
  {
    ghost var k := FirstIndex(lines, p);
    out := [];
    var inserted := false;
    for i := 0 to |lines|
      invariant inserted <==> k < i
      invariant out == if inserted then lines[..k] + [line] + lines[k..i] else lines[..i]
    {
      if !inserted && p(lines[i]) {
        out := out + [line];
        inserted := true;
        assert lines[k..i] == [];
      }
      assert inserted ==> lines[k..i + 1] == lines[k..i] + [lines[i]];
      out := out + [lines[i]];
    }
    if !inserted {
      assert k == |lines| && lines[k..] == [];
      out := out + [line];
    } else {
      assert lines[k..|lines|] == lines[k..];
    }
  }

  lemma KeepSnoc<T>(lines: seq<T>, i: nat, p: T -> bool)
    requires i < |lines|
    ensures Keep(lines[..i + 1], p) == Keep(lines[..i], p) + if p(lines[i]) then [lines[i]] else []
  {
    hide Keep;
    assert lines[..i + 1] == lines[..i] + [lines[i]];
    KeepAppend(lines[..i], [lines[i]], p);
    KeepOne(lines[i], p);
  }

  /** The scan that keeps matches and notes whether anything was dropped. */
  method KeepScan<T>(lines: seq<T>, p: T -> bool) returns (kept: seq<T>, changed: bool)
    ensures kept == Keep(lines, p)
    ensures changed <==> exists l <- lines :: !p(l)
  {
    assert Keep(lines[..0], p) == [];
    hide Keep;
    changed := false;
    kept := [];
    for i := 0 to |lines|
      invariant kept == Keep(lines[..i], p)
      invariant changed <==> exists j :: 0 <= j < i && !p(lines[j])
    {
      KeepSnoc(lines, i, p);
      if p(lines[i]) {
        kept := kept + [lines[i]];
      } else {
        changed := true;
      }
    }
    assert lines[..|lines|] == lines;
  }
}
