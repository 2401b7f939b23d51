/** The bytes iniparser_dump_ini writes, slot by slot, and what a listing without sections is loaded as. */
module IniLayout {
  import opened Bytes
  import opened Dictionaries
  import opened IniText
  import opened IniDump
  import opened IniLaws
  import IniRoundTrip

  // ----- slot by slot -----

  lemma {:induction false} SectionsSplit(a: Slots, b: Slots)
    ensures Sections(a + b) == Sections(a) + Sections(b)
  {
    hide Sections;
    if a == [] {
      assert a + b == b;
      NoSections();
    } else {
      var rest := a[1..];
      SectionsSplit(rest, b);
      SectionsCons(a[0], rest);
      SectionsCons(a[0], rest + b);
      SlotsAssoc(a, b);
      LinesAssoc(OwnSection(a[0]), Sections(rest), Sections(b));
    }
  }

  function OwnSection(k: Option<Str>): seq<Str> {
    if k.Some? && 58 !in k.value then [k.value] else []
  }

  lemma NoSections()
    ensures Sections([]) == []
  {}

  lemma SectionsCons(k: Option<Str>, rest: Slots)
    ensures Sections([k] + rest) == OwnSection(k) + Sections(rest)
  {
    assert ([k] + rest)[1..] == rest;
  }

  lemma SlotsAssoc(a: Slots, b: Slots)
    requires a != []
    ensures a == [a[0]] + a[1..] && a + b == [a[0]] + (a[1..] + b)
  {}

  lemma LinesAssoc(a: seq<Str>, b: seq<Str>, c: seq<Str>)
    ensures a + (b + c) == a + b + c
  {}

  /** A slot in use is a section exactly when its name has no colon. */
  lemma SectionSlot(k: Option<Str>)
    ensures Sections([k]) == if k.Some? && 58 !in k.value then [k.value] else []
  {
    assert [k][1..] == [] && Sections([]) == [];
  }

  lemma {:induction false} FlatSplit(
    a: Slots, b: Slots, va: seq<Option<Str>>, vb: seq<Option<Str>>, missing: Str)
    requires |a| == |va| && |b| == |vb|
    ensures FlatLines(a + b, va + vb, missing) == FlatLines(a, va, missing) + FlatLines(b, vb, missing)
  {
    if a == [] {
      assert a + b == b && va + vb == vb;
    } else {
      FlatSplit(a[1..], b, va[1..], vb, missing);
      assert (a + b)[1..] == a[1..] + b && (va + vb)[1..] == va[1..] + vb;
    }
  }

  lemma {:induction false} KeysSplit(a: Slots, b: Slots, va: seq<Option<Str>>, vb: seq<Option<Str>>, sec: Str)
    requires |a| == |va| && |b| == |vb|
    ensures KeyLines(a + b, va + vb, sec) == KeyLines(a, va, sec) + KeyLines(b, vb, sec)
  {
    hide KeyLine, InSection;
    if a == [] {
      assert a + b == b && va + vb == vb;
    } else {
      KeysSplit(a[1..], b, va[1..], vb, sec);
      assert (a + b)[1..] == a[1..] + b && (va + vb)[1..] == va[1..] + vb;
    }
  }

  /** Without section entries, the slots are listed one after the other. */
  lemma FlatInOrder(a: Slots, b: Slots, va: seq<Option<Str>>, vb: seq<Option<Str>>, missing: Str)
    requires |a| == |va| && |b| == |vb| && Sections(a + b) == []
    ensures DumpText(a + b, va + vb, missing) == DumpText(a, va, missing) + DumpText(b, vb, missing)
  {
    hide Sections, FlatLines, TextOf, DumpLines;
    SectionsSplit(a, b);
    FlatSplit(a, b, va, vb, missing);
    TextOfConcat(FlatLines(a, va, missing), FlatLines(b, vb, missing));
  }

  /** "key = value" and a newline for a slot in use, with printf's word for NULL, and nothing for another. */
  lemma FlatSlot(k: Option<Str>, v: Option<Str>, missing: Str)
    requires k.Some? ==> 58 in k.value
    ensures DumpText([k], [v], missing)
         == if k.Some? then k.value + [32, 61, 32] + (if v.Some? then v.value else missing) + [10] else []
  {
    assert [k][1..] == [] && [v][1..] == [];
    assert Sections([k]) == [];
    var lines := FlatLines([k], [v], missing);
    assert FlatLines([], [], missing) == [];
    if k.Some? {
      var line := k.value + [32, 61, 32] + if v.Some? then v.value else missing;
      assert lines == [line] + [] == [line];
    }
    hide FlatLines;
    OneLine(lines);
  }

  lemma OneLine(lines: seq<Str>)
    requires |lines| <= 1
    ensures TextOf(lines) == if lines == [] then [] else lines[0] + [10]
  {
    if lines != [] {
      assert lines[1..] == [];
      assert lines[0] + [10] + [] == lines[0] + [10];
    }
  }

  // ----- a section and its key -----

  function Spaces(n: nat): Str {
    if n == 0 then [] else [32] + Spaces(n - 1)
  }

  lemma {:induction false} SpacesAre(n: nat)
    ensures Spaces(n) == seq(n, _ => 32)
  {
    if n > 0 {
      SpacesAre(n - 1);
      var s: Str := seq(n, _ => 32);
      assert s == [32] + seq(n - 1, _ => 32);
    }
  }

  /** "key", blanks up to column 30, " = " and the value, which is empty for NULL. */
  lemma KeyLineBytes(name: Str, v: Option<Str>)
    ensures KeyLine(name, v)
         == name + Spaces(if |name| < 30 then 30 - |name| else 0) + [32, 61, 32] + (if v.Some? then v.value else [])
  {
    SpacesAre(if |name| < 30 then 30 - |name| else 0);
    assert |name| >= 30 ==> name + [] == name;
  }

  /** A key is listed under a section exactly when the section and a colon start its name. */
  lemma KeySlot(k: Option<Str>, v: Option<Str>, sec: Str)
    ensures KeyLines([k], [v], sec)
         == if k.Some? && sec + [58] <= k.value then [KeyLine(k.value[|sec| + 1..], v)] else []
  {
    hide KeyLine;
    assert KeyLines([], [], sec) == [];
  }

  /** A lower-case section: a blank line, its name in brackets, its keys, a blank line. */
  lemma SectionBytes(keys: Slots, vals: seq<Option<Str>>, sec: Str)
    requires |keys| == |vals| && Some(sec) in keys && Lower(sec) == sec && |sec| <= 1024
    ensures TextOf(SectionLines(keys, vals, sec))
         == [10, 91] + sec + [93, 10] + TextOf(KeyLines(keys, vals, sec)) + [10]
  {
    hide KeyLines, Lower, TextOf;
    assert Strlwc(sec, 1025) == sec by { LowerTable(sec); }
    hide Strlwc;
    var keyLines := KeyLines(keys, vals, sec);
    var empty: Str := [];
    HeadBytes(sec);
    var head := [empty, [91] + sec + [93]];
    TextOfConcat(head + keyLines, [empty]);
    TextOfConcat(head, keyLines);
    OneLine([empty]);
  }

  lemma HeadBytes(sec: Str)
    ensures var empty: Str := []; TextOf([empty, [91] + sec + [93]]) == [10, 91] + sec + [93, 10]
  {
    var empty: Str := [];
    var line := [91] + sec + [93];
    assert [empty, line][1..] == [line];
    OneLine([line]);
    assert TextOf([empty, line]) == empty + [10] + (line + [10]);
  }

  /** Sections are written one after the other, and a newline ends the file. */
  lemma DumpInOrder(keys: Slots, vals: seq<Option<Str>>, missing: Str, secs: seq<Str>)
    requires |keys| == |vals| && Sections(keys) == secs && secs != []
    ensures DumpText(keys, vals, missing) == TextOf(AllSections(keys, vals, secs)) + [10]
    ensures AllSections(keys, vals, secs) == SectionLines(keys, vals, secs[0]) + AllSections(keys, vals, secs[1..])
  {
    hide SectionLines, Sections;
    var empty: Str := [];
    TextOfConcat(AllSections(keys, vals, secs), [empty]);
    OneLine([empty]);
  }

  // ----- a listing without sections -----

  /**
   * What a listing without section entries is loaded as: a line belongs to the section with the empty name, so the
   * entry comes back with a colon more in front, and never as it was.
   */
  lemma FlatLoad(k: Str, v: Str, missing: Str)
    requires 58 in k && ValidKey(k, [32], [32]) && ValidForm(Plain(v, [], []))
    requires LineOf([], Assignment(k, [32], [32], Plain(v, [], [])), [])
    requires !Bracketed(Assignment(k, [32], [32], Plain(v, [], [])))
    ensures LoadText(DumpText([Some(k)], [Some(v)], missing))
         == Some(map[[58] + Lower(k) := Some(FormValue(Plain(v, [], [])))])
    ensures LoadText(DumpText([Some(k)], [Some(v)], missing)) != Some(map[k := Some(v)])
  {
    hide DumpText, LoadFrom, Lower, ValidKey, ValidForm, LineOf, Bracketed, FormValue;
    var f := Plain(v, [], []);
    var s := Assignment(k, [32], [32], f);
    FlatSlot(Some(k), Some(v), missing);
    assert s == k + [32, 61, 32] + v;
    hide Assignment;
    var start := Loader([], [], map[], false);
    KeyLaw(start, [], k, [32], [32], f, [], []);
    assert [] + s + [] + [10] + [] == s + [10];
    var name := [58] + Lower(k);
    assert [] + [58] + Lower(k) == name;
    var value := Some(FormValue(f));
    LoadEnd(start.(dict := start.dict[name := value]));
    assert map[][name := value] == map[name := value];
    assert |name| > |k|;
    assert name in map[name := value] && name !in map[k := Some(v)];
  }
}
