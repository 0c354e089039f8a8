/** The line-edited key=value files. */
module ConfigFile {
  import opened Wrappers
  import opened Text
  import opened LineEdit

  /** `line` as a trimmed key and value; None for comments and lines without `=`. */
  function Setting(line: string): Option<(string, string)> {
    var t := Trim(line);
    var i := IndexOf(t, '=');
    if "#" <= t || i == |t| then None else Some((Trim(t[..i]), Trim(t[i + 1..])))
  }

  predicate Sets(line: string, key: string) {
    Setting(line).Some? && Setting(line).value.0 == key
  }

  /** The first non-empty value given for `key`. */
  function Lookup(lines: seq<string>, key: string): Option<string> {
    if lines == [] then None
    else if Sets(lines[0], key) && Setting(lines[0]).value.1 != "" then Some(Setting(lines[0]).value.1)
    else Lookup(lines[1..], key)
  }

  function Entry(key: string, val: string): string {
    key + "=" + val
  }

  /** The rest of the file, given whether the entry is already written: the first line for `key` is
      replaced, later ones dropped, and with none the entry goes last. */
  function Rewrite(lines: seq<string>, key: string, val: string, replaced: bool): seq<string> {
    var entry := if replaced then [] else [Entry(key, val)];
    if lines == [] then entry
    else if Sets(lines[0], key) then entry + Rewrite(lines[1..], key, val, true)
    else [lines[0]] + Rewrite(lines[1..], key, val, replaced)
  }

  function Read(text: string, key: string): Option<string> {
    Lookup(Lines(text), key)
  }

  function Write(text: string, key: string, val: string): string {
    Unlines(Rewrite(Lines(text), key, val, false))
  }

  // ---------- the loops ----------

  method ReadKv(text: string, key: string) returns (r: Option<string>)
    ensures r == Read(text, key)
  {
    hide Setting;
    var lines := Lines(text);
    for i := 0 to |lines|
      invariant Lookup(lines[i..], key) == Lookup(lines, key)
    {
      if Sets(lines[i], key) && Setting(lines[i]).value.1 != "" {
        return Some(Setting(lines[i]).value.1);
      }
      assert lines[i..][1..] == lines[i + 1..];
    }
    assert lines[|lines|..] == [];
    return None;
  }

  method WriteKv(text: string, key: string, val: string) returns (out: string)
    ensures out == Write(text, key, val)
  {
    hide Setting, Entry, Lines;
    var lines := Lines(text);
    out := "";
    var replaced := false;
    for i := 0 to |lines|
      invariant out + Unlines(Rewrite(lines[i..], key, val, replaced)) == Write(text, key, val)
    {
      ghost var rest := lines[i..];
      assert rest[0] == lines[i] && rest[1..] == lines[i + 1..];
      if Sets(lines[i], key) {
        if !replaced {
          UnlinesCons(Entry(key, val), Rewrite(rest[1..], key, val, true));
          out := out + (Entry(key, val) + "\n");
          replaced := true;
        } else {
          assert [] + Rewrite(rest[1..], key, val, true) == Rewrite(rest[1..], key, val, true);
        }
      } else {
        UnlinesCons(lines[i], Rewrite(rest[1..], key, val, replaced));
        out := out + (lines[i] + "\n");
      }
    }
    assert lines[|lines|..] == [];
    UnlinesCons(Entry(key, val), []);
    assert [Entry(key, val)] + [] == [Entry(key, val)];
    if !replaced {
      out := out + (Entry(key, val) + "\n");
    }
  }

  // ---------- lookups after a write ----------

  /** On lines, with an entry that reads back as `key`: that key then has the entry's value, every
      other key reads as before, and one line sets the key. */
  lemma {:induction false} LookupRewritten(lines: seq<string>, key: string, val: string, replaced: bool, other: string)
    requires Sets(Entry(key, val), key)
    ensures var v := Setting(Entry(key, val)).value.1;
            Lookup(Rewrite(lines, key, val, replaced), key) == if replaced || v == "" then None else Some(v)
    ensures other != key ==> Lookup(Rewrite(lines, key, val, replaced), other) == Lookup(lines, other)
  {
    hide Setting, Entry;
    var e := Entry(key, val);
    if lines == [] {
      assert [e][1..] == [];
    } else if Sets(lines[0], key) {
      var rest := Rewrite(lines[1..], key, val, true);
      LookupRewritten(lines[1..], key, val, true, other);
      assert ([e] + rest)[1..] == rest && [] + rest == rest;
    } else {
      var rest := Rewrite(lines[1..], key, val, replaced);
      LookupRewritten(lines[1..], key, val, replaced, other);
      assert ([lines[0]] + rest)[1..] == rest;
    }
  }

  function SetsKey(key: string): string -> bool {
    l => Sets(l, key)
  }

  function Other(key: string): string -> bool {
    l => !Sets(l, key)
  }

  /** Duplicates collapse to the one entry, and every other line keeps its place in the order. */
  lemma {:induction false} OthersKeepOrder(lines: seq<string>, key: string, val: string, replaced: bool)
    requires Sets(Entry(key, val), key)
    ensures Keep(Rewrite(lines, key, val, replaced), Other(key)) == Keep(lines, Other(key))
    ensures Keep(Rewrite(lines, key, val, replaced), SetsKey(key)) == if replaced then [] else [Entry(key, val)]
  {
    hide Setting, Entry;
    var e := Entry(key, val);
    if lines == [] {
      KeepOne(e, Other(key));
      KeepOne(e, SetsKey(key));
    } else if Sets(lines[0], key) {
      var rest := Rewrite(lines[1..], key, val, true);
      OthersKeepOrder(lines[1..], key, val, true);
      assert ([e] + rest)[1..] == rest && [] + rest == rest;
    } else {
      var rest := Rewrite(lines[1..], key, val, replaced);
      OthersKeepOrder(lines[1..], key, val, replaced);
      assert ([lines[0]] + rest)[1..] == rest;
    }
  }

  /** The entry takes the place of the first line that set the key, the later ones go, and with none it goes
      last. */
  lemma {:induction false} EntryTakesPlace(lines: seq<string>, key: string, val: string)
    ensures var k := FirstIndex(lines, SetsKey(key));
            Rewrite(lines, key, val, false) == lines[..k] + [Entry(key, val)] + Keep(lines[k..], Other(key))
  {
    if lines == [] {
      assert FirstIndex(lines, SetsKey(key)) == 0 && Keep(lines[0..], Other(key)) == [];
      assert lines[..0] + [Entry(key, val)] + [] == [Entry(key, val)];
    } else if Sets(lines[0], key) {
      PlaceIsFirst(lines, key, val);
    } else {
      hide Setting, Entry, Keep;
      var rest := lines[1..];
      EntryTakesPlace(rest, key, val);
      var k := FirstIndex(lines, SetsKey(key));
      assert k == 1 + FirstIndex(rest, SetsKey(key));
      var tail := Keep(lines[k..], Other(key));
      assert lines[k..] == rest[k - 1..] && lines[..k] == [lines[0]] + rest[..k - 1];
      AppendAssoc([lines[0]], rest[..k - 1], [Entry(key, val)]);
      AppendAssoc([lines[0]], rest[..k - 1] + [Entry(key, val)], tail);
    }
  }

  lemma PlaceIsFirst(lines: seq<string>, key: string, val: string)
    requires lines != [] && Sets(lines[0], key)
    ensures FirstIndex(lines, SetsKey(key)) == 0
    ensures Rewrite(lines, key, val, false) == lines[..0] + [Entry(key, val)] + Keep(lines[0..], Other(key))
  {
    hide Setting, Entry;
    LaterOnesGo(lines[1..], key, val);
    assert lines[0..] == lines && lines[..0] == [];
    assert Keep(lines, Other(key)) == Keep(lines[1..], Other(key));
    hide Keep, Rewrite;
    assert [] + [Entry(key, val)] == [Entry(key, val)];
  }

  lemma {:induction false} LaterOnesGo(lines: seq<string>, key: string, val: string)
    ensures Rewrite(lines, key, val, true) == Keep(lines, Other(key))
  {
    hide Setting, Entry;
    if lines != [] {
      LaterOnesGo(lines[1..], key, val);
      assert [] + Rewrite(lines[1..], key, val, true) == Rewrite(lines[1..], key, val, true);
    }
  }

  function Gives(key: string): string -> bool {
    l => Sets(l, key) && Setting(l).value.1 != ""
  }

  /** A read gives the value of the first line that sets the key to something. */
  lemma {:induction false} FirstCounts(lines: seq<string>, key: string)
    ensures var k := FirstIndex(lines, Gives(key));
            Lookup(lines, key) == if k < |lines| then Some(Setting(lines[k]).value.1) else None
  {
    hide Setting;
    if lines != [] && !Gives(key)(lines[0]) {
      FirstCounts(lines[1..], key);
    }
  }

  /** So of two settings in a text the first one counts. */
  lemma FirstOfTwo(key: string, val: string, val': string)
    requires Setting(Entry(key, val)) == Some((key, val)) && val != ""
    requires Clean(Entry(key, val)) && Clean(Entry(key, val'))
    ensures Read(Entry(key, val) + "\n" + (Entry(key, val') + "\n" + ""), key) == Some(val)
  {
    hide Setting, Entry;
    LinesCons(Entry(key, val), Entry(key, val') + "\n" + "");
    LinesCons(Entry(key, val'), "");
  }

  // ---------- keys that can be stored ----------

  /** A trimmed key without `=` or newline that does not start a comment. */
  predicate GoodKey(key: string) {
    Trim(key) == key && '=' !in key && '\n' !in key && !("#" <= key)
  }

  lemma EntryStart(key: string, val: string)
    requires Trim(key) == key
    ensures TrimStart(Entry(key, val)) == Entry(key, val)
  {
    assert !IsSpace('=');
    hide IsSpace;
    if key == "" {
      assert Entry(key, val) == ['='] + val;
      TrimStartCons('=', val);
    } else {
      TrimmedStart(key);
      assert Entry(key, val) == [key[0]] + (key[1..] + "=" + val);
      TrimStartCons(key[0], key[1..] + "=" + val);
    }
  }

  lemma TrimmedEntry(key: string, val: string)
    requires Trim(key) == key
    ensures Trim(Entry(key, val)) == key + "=" + TrimEnd(val)
  {
    assert !IsSpace('=');
    hide IsSpace, TrimEnd, TrimStart;
    EntryStart(key, val);
    assert (key + "=")[|key|] == '=';
    TrimEndAppend(key + "=", val);
  }

  /** A written entry reads as its key and its trimmed value. */
  lemma EntrySetting(key: string, val: string)
    requires GoodKey(key)
    ensures Setting(Entry(key, val)) == Some((key, Trim(val)))
  {
    TrimmedEntry(key, val);
    var t := key + "=" + TrimEnd(val);
    var i := IndexOf(t, '=');
    assert t[|key|] == '=' && forall j :: 0 <= j < |key| ==> t[j] == key[j];
    assert i == |key| && t[..i] == key && t[i + 1..] == TrimEnd(val);
    TrimTrimEnd(val);
    assert t[0] == if key == "" then '=' else key[0];
  }

  /** Only keys of that shape ever come out of a line. */
  lemma KeyShape(line: string)
    requires '\n' !in line && Setting(line).Some?
    ensures GoodKey(Setting(line).value.0)
  {
    var t := Trim(line);
    var i := IndexOf(t, '=');
    TrimIsPart(line);
    TrimIsPart(t[..i]);
    TrimTwice(t[..i]);
    TrimTwice(line);
    hide Trim;
    if Trim(t[..i]) != "" {
      TrimKeepsHead(t, i);
    }
  }

  lemma SettingStripCr(line: string)
    ensures Setting(StripCr(line)) == Setting(line)
  {
    TrimStripCr(line);
    hide Trim;
  }

  lemma {:induction false} LookupStrip(lines: seq<string>, key: string)
    ensures Lookup(StripAll(lines), key) == Lookup(lines, key)
  {
    if lines != [] {
      SettingStripCr(lines[0]);
      hide Setting, StripCr;
      LookupStrip(lines[1..], key);
      assert StripAll(lines)[1..] == StripAll(lines[1..]);
    }
  }

  lemma {:induction false} RewriteNoNewlines(lines: seq<string>, key: string, val: string, replaced: bool)
    requires NoNewlines(lines) && '\n' !in key && '\n' !in val
    ensures NoNewlines(Rewrite(lines, key, val, replaced))
  {
    hide Setting;
    assert '\n' !in Entry(key, val);
    if lines != [] {
      assert NoNewlines(lines[1..]);
      RewriteNoNewlines(lines[1..], key, val, if Sets(lines[0], key) then true else replaced);
    }
  }

  /**
   The file refines a map: for every text, a storable key and a newline-free value, reading the key
   after writing it gives the trimmed value (nothing, if that is blank), and every other key reads
   as it did.
   */
  lemma ReadAfterWrite(text: string, key: string, val: string, other: string)
    requires GoodKey(key) && '\n' !in val
    ensures Read(Write(text, key, val), key) == if Trim(val) == "" then None else Some(Trim(val))
    ensures other != key ==> Read(Write(text, key, val), other) == Read(text, other)
  {
    EntrySetting(key, val);
    hide Setting, Entry, Lines, Unlines, Trim;
    LinesHaveNoNewlines(text);
    var out := Rewrite(Lines(text), key, val, false);
    RewriteNoNewlines(Lines(text), key, val, false);
    LinesUnlinesStrip(out);
    LookupStrip(out, key);
    LookupStrip(out, other);
    LookupRewritten(Lines(text), key, val, false, other);
  }

  lemma {:induction false} LookupBadKey(lines: seq<string>, key: string)
    requires NoNewlines(lines) && !GoodKey(key)
    ensures Lookup(lines, key) == None
  {
    if lines != [] {
      if Setting(lines[0]).Some? {
        KeyShape(lines[0]);
      }
      hide Setting, GoodKey;
      LookupBadKey(lines[1..], key);
    }
  }

  /** The condition on keys is exact: any other key reads as absent from every text. */
  lemma OtherKeysNeverRead(text: string, key: string)
    requires !GoodKey(key)
    ensures Read(text, key) == None
  {
    LinesHaveNoNewlines(text);
    LookupBadKey(Lines(text), key);
  }

  /** After a write exactly one line sets the key, and all other lines are as before, in order. */
  lemma WriteKeepsOtherLines(text: string, key: string, val: string)
    requires GoodKey(key) && '\r' !in text && Clean(Entry(key, val))
    ensures Keep(Lines(Write(text, key, val)), SetsKey(key)) == [Entry(key, val)]
    ensures Keep(Lines(Write(text, key, val)), Other(key)) == Keep(Lines(text), Other(key))
  {
    EntrySetting(key, val);
    hide Setting, Entry, Lines, Unlines, Trim;
    LinesAreClean(text);
    RewriteClean(Lines(text), key, val, false);
    LinesUnlines(Rewrite(Lines(text), key, val, false));
    OthersKeepOrder(Lines(text), key, val, false);
  }

  lemma {:induction false} RewriteClean(lines: seq<string>, key: string, val: string, replaced: bool)
    requires AllClean(lines) && Clean(Entry(key, val))
    ensures AllClean(Rewrite(lines, key, val, replaced))
  {
    hide Setting, Entry, Clean;
    if lines != [] {
      assert AllClean(lines[1..]);
      RewriteClean(lines[1..], key, val, if Sets(lines[0], key) then true else replaced);
    }
  }
}
