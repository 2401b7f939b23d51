/** Which keys and values survive a dump and a load: exactly those that IniRoundTrip asks for. */
module IniKeys {
  import opened Bytes
  import opened Dictionaries
  import opened IniText
  import opened IniDump
  import opened IniRoundTrip
  import opened IniSections

  // ----- stripping -----

  lemma {:induction false} RStripConcat(a: Str, x: Str)
    requires a != [] && !IsSpace(a[|a| - 1])
    ensures RStrip(a + x) == a + RStrip(x)
    decreases |x|
  {
    if x == [] {
      assert a + x == a && RStrip(a) == a;
    } else if IsSpace(x[|x| - 1]) {
      var y := x[..|x| - 1];
      assert (a + x)[..|a + x| - 1] == a + y;
      RStripConcat(a, y);
    }
  }

  /** Blanks can be taken from the end first. */
  lemma {:induction false} StripEnds(x: Str)
    ensures LStrip(RStrip(x)) == Strip(x)
    decreases |x|
  {
    if x != [] && IsSpace(x[|x| - 1]) {
      var y := x[..|x| - 1];
      StripEnds(y);
      LStripShort(x);
    } else if x != [] {
      assert RStrip(x) == x;
      LStripKeepsEnd(x);
    }
  }

  /** A blank at the end is taken from what is left of it in front. */
  lemma {:induction false} LStripShort(x: Str)
    requires x != [] && IsSpace(x[|x| - 1])
    ensures RStrip(LStrip(x)) == RStrip(LStrip(x[..|x| - 1]))
    decreases |x|
  {
    hide LStrip, RStrip;
    var y := x[..|x| - 1];
    LStripStep(x);
    LStripStep(y);
    if !IsSpace(x[0]) {
      RStripStep(x);
    } else if |x| == 1 {
      assert x[1..] == y;
    } else {
      assert x[1..][..|x| - 2] == y[1..];
      LStripShort(x[1..]);
    }
  }

  lemma {:induction false} LStripKeepsEnd(x: Str)
    requires x != [] && !IsSpace(x[|x| - 1])
    ensures RStrip(LStrip(x)) == LStrip(x)
    decreases |x|
  {
    if IsSpace(x[0]) {
      LStripKeepsEnd(x[1..]);
    }
  }

  lemma LStripSpace(v: Str)
    ensures LStrip([SPACE] + v) == LStrip(v)
  {
    assert ([SPACE] + v)[1..] == v;
  }

  // ----- the line of a key -----

  function Head(name: Str): Str { Pad30(name) + [SPACE] + [EQUALS] }

  /** What iniparser_load makes of a dumped key line before iniparser_line sees it. */
  function Rest(v: Str): Str { RStrip([SPACE] + v) }

  lemma LineBody(name: Str, v: Str)
    ensures KeyLine(name, Some(v)) == Head(name) + ([SPACE] + v)
    ensures RStrip(KeyLine(name, Some(v))) == Head(name) + Rest(v) && LStrip(Rest(v)) == Strip(v)
  {
    var head := Head(name);
    assert KeyLine(name, Some(v)) == head + ([SPACE] + v);
    hide RStrip, LStrip, Pad30;
    RStripConcat(head, [SPACE] + v);
    StripEnds([SPACE] + v);
    LStripSpace(v);
  }

  /** What a value is read as, from what stands behind the equals sign and blanks. */
  function ValueOf(x: Str): Str {
    if Quoted(x, QUOTE) then Until(x[1..], {QUOTE})
    else if Quoted(x, APOSTROPHE) then Until(x[1..], {APOSTROPHE})
    else PlainValue(Strip(Until(x, {SEMICOLON, HASH})))
  }

  predicate Quoted(x: Str, quote: byte) {
    x != [] && x[0] == quote && Until(x[1..], {quote}) != []
  }

  /** What a line that sets a key looks like, and what it sets. */
  lemma ValueParts(line: Str, section: Str)
    requires IniLine(line, section).Value?
    ensures var l := Strip(line); var r := IniLine(line, section);
      && l != [] && l[0] != HASH && l[0] != SEMICOLON && !(l[0] == LBRACKET && l[|l| - 1] == RBRACKET)
      && KeyEquals(l).Some? && r.key == Strlwc(Strip(KeyEquals(l).value.key), |l|)
      && r.value == ValueOf(KeyEquals(l).value.value)
  {
    hide Until, Strip, Strlwc, KeyEquals, PlainValue;
    StripNothing();
  }

  lemma StripNothing()
    ensures Strip([]) == [] && PlainValue([]) == []
  {}

  lemma ValueShort(x: Str)
    ensures |ValueOf(x)| <= |x|
  {
    hide Until, Strip;
    StripPart(Until(x, {SEMICOLON, HASH}));
  }

  /** A value that is read as itself. */
  lemma ValueExact(v: Str)
    requires ValueOf(Strip(v)) == v
    ensures Trimmed(v) && SEMICOLON !in v && HASH !in v && Unquoted(v)
  {
    hide Strip, Until, PlainValue;
    var x := Strip(v);
    StripPart(v);
    var u := Until(x, {SEMICOLON, HASH});
    StripPart(u);
    QuotedDiffers(v, QUOTE);
    QuotedDiffers(v, APOSTROPHE);
    PlainCases(Strip(u));
    assert |x| == |v| == |u| || v == [];
    SameLength(v);
    assert v != [] ==> u == x == v;
    StartsQuoted(v);
  }

  /** What stands between quotes is not the whole of it. */
  lemma QuotedDiffers(v: Str, quote: byte)
    ensures Quoted(Strip(v), quote) ==> Until(Strip(v)[1..], {quote}) != v
  {
    hide Strip, Until;
    StripPart(v);
    assert Quoted(Strip(v), quote) ==> quote in v && quote !in Until(Strip(v)[1..], {quote});
  }

  lemma PlainCases(u: Str)
    ensures PlainValue(u) == [] || PlainValue(u) == u
    ensures PlainValue(u) == u ==> u != [QUOTE, QUOTE] && u != [APOSTROPHE, APOSTROPHE]
  {}

  lemma SameLength(v: Str)
    ensures |Strip(v)| == |v| ==> Strip(v) == v
  {}

  lemma StartsQuoted(v: Str)
    requires !Quoted(v, QUOTE) && !Quoted(v, APOSTROPHE) && v != [QUOTE, QUOTE] && v != [APOSTROPHE, APOSTROPHE]
    ensures Unquoted(v)
  {
    if |v| == 2 && v[1] == v[0] {
      assert v == [v[0], v[0]];
    }
  }

  /** A name that a line sets is never empty, in lower case, trimmed and without an equals sign. */
  lemma NameSet(key: Str, len: nat)
    requires key != [] && !IsSpace(key[0]) && EQUALS !in key && |key| < len
    ensures var n := Strlwc(Strip(key), len); n != [] && Lowercase(n) && Trimmed(n) && EQUALS !in n
  {
    StripPart(key);
    var x := Strip(key);
    assert x != [] by { RStripKeeps(key); }
    assert Trimmed(x);
    hide Strip;
    var n := Strlwc(x, len);
    assert forall i :: 0 <= i < |n| ==> n[i] == ToLower(x[i]) && x[i] != EQUALS;
  }

  lemma {:induction false} RStripKeeps(s: Str)
    requires s != [] && !IsSpace(s[0])
    ensures RStrip(s) != [] && LStrip(s) == s
    decreases |s|
  {
    if IsSpace(s[|s| - 1]) {
      RStripKeeps(s[..|s| - 1]);
    }
  }

  /** The equals sign of a key line, when the name has none. */
  lemma EqualsOf(name: Str, tail: Str)
    requires EQUALS !in name
    ensures KeyEquals(Head(name) + tail) == Some(Pair(Pad30(name) + [SPACE], LStrip(tail)))
  {
    hide LStrip, KeyEquals, Pad30;
    PaddedPlain(name);
    Assoc(Pad30(name) + [SPACE], [EQUALS], tail);
    EqualsAt(Pad30(name) + [SPACE], tail);
  }

  /** What a line starts with that sets the key `name`. */
  lemma KeyLineName(line: Str, section: Str, name: Str, v: Str)
    requires IniLine(line, section) == Value(name, v)
    ensures name != [] && Lowercase(name) && Trimmed(name) && EQUALS !in name
  {
    hide IniLine, Strip, Strlwc;
    ValueParts(line, section);
    var l := Strip(line);
    StripHead(line);
    KeyHead(l);
    NameSet(KeyEquals(l).value.key, |l|);
  }

  lemma StripHead(line: Str)
    ensures Strip(line) != [] ==> !IsSpace(Strip(line)[0])
  {
    var x := LStrip(line);
    if x != [] {
      RStripKeeps(x);
    }
  }

  lemma KeyHead(l: Str)
    requires KeyEquals(l).Some?
    ensures var key := KeyEquals(l).value.key; key != [] && l != [] && key[0] == l[0] && EQUALS !in key && |key| < |l|
  {
    hide LStrip;
  }

  /** A key line whose last byte is no backslash sets its key exactly when key and value are good. */
  lemma KeyLineExact(name: Str, v: Str, section: Str)
    requires NulFree(name) && NEWLINE !in name && NulFree(v) && NEWLINE !in v
    requires var b := RStrip(KeyLine(name, Some(v))); b != [] && b[|b| - 1] != BACKSLASH
    ensures IniLine(RStrip(KeyLine(name, Some(v))), section) == Value(name, v) <==> GoodKey(name, v)
  {
    hide IniLine, RStrip, LStrip, KeyLine, PlainText, Body, Head;
    var b := RStrip(KeyLine(name, Some(v)));
    if GoodKey(name, v) {
      KeyLineBody(name, Some(v));
      BodyLine(name, v, section);
    }
    if IniLine(b, section) == Value(name, v) {
      KeyLineName(b, section, name, v);
      SetMeansGood(name, v, section);
    }
  }

  lemma LineHead(name: Str, v: Str)
    requires name != []
    ensures Head(name) + Rest(v) != [] && (Head(name) + Rest(v))[0] == name[0]
  {}

  lemma LineEnd(name: Str, v: Str)
    requires Trimmed(v)
    ensures var b := Head(name) + Rest(v); b[|b| - 1] == if v == [] then EQUALS else v[|v| - 1]
  {
    if v == [] {
      assert Rest(v) == [] by { RStripStep([SPACE]); RStripStep([]); }
    } else {
      assert ([SPACE] + v)[|v|] == v[|v| - 1];
      assert Rest(v) == [SPACE] + v by { RStripStep([SPACE] + v); }
    }
  }

  lemma SetMeansGood(name: Str, v: Str, section: Str)
    requires NulFree(name) && NEWLINE !in name && NulFree(v) && NEWLINE !in v
    requires name != [] && Lowercase(name) && Trimmed(name) && EQUALS !in name
    requires var b := RStrip(KeyLine(name, Some(v))); b != [] && b[|b| - 1] != BACKSLASH
    requires IniLine(RStrip(KeyLine(name, Some(v))), section) == Value(name, v)
    ensures GoodKey(name, v)
  {
    hide IniLine, RStrip, LStrip, KeyLine, KeyEquals, Strlwc, ValueOf, Head, Rest;
    var b := RStrip(KeyLine(name, Some(v)));
    LineBody(name, v);
    LineHead(name, v);
    ValueParts(b, section);
    TrimmedLine(b);
    EqualsOf(name, Rest(v));
    ValueExact(v);
    LineEnd(name, v);
  }

  lemma TrimmedLine(b: Str)
    requires b != [] && !IsSpace(b[0]) && exists x :: b == RStrip(x)
    ensures Strip(b) == b
  {
    RStripKeeps(b);
    var x :| b == RStrip(x);
    RStripStep(b);
  }

  // ----- a line that a backslash continues -----

  predicate Newlines(text: Str) {
    forall i :: 0 <= i < |text| ==> text[i] == NEWLINE
  }

  lemma NewlineRound(text: Str, st: Loader)
    requires text != [] && Newlines(text) && Roomy(st) && NulFree(st.pending)
    ensures var body := RStrip(st.pending);
      LoadRound(text, st) == Next(text[1..],
        if st.pending == [] then st
        else if body != [] && body[|body| - 1] == BACKSLASH then st.(pending := body[..|body| - 1])
        else Process(st, body))
  {
    hide Process, RStrip, UpToNul;
    assert Fgets(text, ASCIILINESZ - 1 - |st.pending|) == [NEWLINE] by {
      assert text[..1] == [NEWLINE];
    }
    hide Fgets;
    var line := st.pending + [NEWLINE];
    NulFreeConcat(st.pending, [NEWLINE]);
    UpToNulIdentity(line);
    RStripNewline(st.pending);
  }

  lemma {:induction false} NewlinesOnly(text: Str, st: Loader)
    requires Newlines(text) && st.pending == []
    ensures LoadFrom(text, st) == if st.failed then None else Some(st.dict)
    decreases |text|
  {
    if text != [] {
      NewlineRound(text, st);
      hide LoadRound;
      NewlinesOnly(text[1..], st);
    }
  }

  /** With only newlines to come, what is pending is dropped, or a beginning of it is the last line. */
  lemma {:induction false} Pending(text: Str, st: Loader, pending: Str) returns (line: Str)
    requires Newlines(text) && Roomy(st) && NulFree(st.pending) && st.pending <= pending
    ensures line <= pending
    ensures LoadFrom(text, st).Some? ==>
      LoadFrom(text, st).value == st.dict || LoadFrom(text, st).value == Process(st, line).dict
    decreases |text|
  {
    hide LoadRound, LoadFrom, Process, RStrip;
    line := [];
    if st.pending == [] || text == [] {
      LoadNothingMore(text, st);
      NewlinesOnly(text, st.(pending := []));
    } else {
      NewlineRound(text, st);
      LoadFromStep(text, st);
      var next := LoadRound(text, st).loader;
      var body := RStrip(st.pending);
      if body != [] && body[|body| - 1] == BACKSLASH {
        line := Pending(text[1..], next, pending);
        ProcessPending(st, next, line);
      } else {
        line := body;
        NewlinesOnly(text[1..], next);
      }
    }
  }

  lemma LoadNothingMore(text: Str, st: Loader)
    requires Roomy(st)
    ensures text == [] ==> LoadFrom(text, st) == if st.failed then None else Some(st.dict)
    ensures st.pending == [] ==> st.(pending := []) == st
  {}

  lemma ProcessPending(st: Loader, next: Loader, line: Str)
    requires next == st.(pending := next.pending)
    ensures Process(next, line) == Process(st, line)
  {}

  /** A proper beginning of a key line does not set the key to its value. */
  lemma PartSetsLess(name: Str, v: Str, line: Str, section: Str)
    requires line <= Head(name) + Rest(v) && |line| < |Head(name) + Rest(v)| && Strip(v) != []
    ensures IniLine(line, section) != Value(name, v)
  {
    var r := IniLine(line, section);
    if r.Value? && r.key == name {
      hide IniLine, RStrip, LStrip, KeyEquals, Strlwc, ValueOf, Rest;
      KeyLineName(line, section, name, r.value);
      PartValue(name, v, line, section);
    }
  }

  lemma RestStarts(v: Str)
    requires Strip(v) != []
    ensures Rest(v) != [] && Rest(v)[0] == SPACE && |Rest(v)| <= |v| + 1
  {
    hide RStrip, LStrip;
    StripEnds([SPACE] + v);
    LStripSpace(v);
    NoneLeft();
  }

  lemma NoneLeft()
    ensures LStrip([]) == []
  {}

  lemma PartValue(name: Str, v: Str, line: Str, section: Str)
    requires line <= Head(name) + Rest(v) && |line| < |Head(name) + Rest(v)| && Strip(v) != []
    requires name != [] && Trimmed(name) && EQUALS !in name
    requires IniLine(line, section).Value? && IniLine(line, section).key == name
    ensures |IniLine(line, section).value| < |v|
  {
    hide IniLine, RStrip, LStrip, KeyEquals, Strlwc, ValueOf, Rest, Pad30;
    ValueParts(line, section);
    var l := Strip(line);
    RestStarts(v);
    StripFront(line, name, v);
    var n := |Head(name)|;
    EqualsIn(l);
    HeadEquals(name, l, Rest(v));
    var tail := l[n..];
    assert l == Head(name) + tail;
    EqualsOf(name, tail);
    ValueShort(LStrip(tail));
    TailShort(tail, Rest(v));
    StripPart(v);
  }

  /** A line that begins with the name is only stripped at its end. */
  lemma StripFront(line: Str, name: Str, v: Str)
    requires name != [] && Trimmed(name) && line <= Head(name) + Rest(v) && Strip(line) != []
    ensures Strip(line) <= line
  {
    assert line != [] by { if line == [] { NoneLeft(); RStripStep([]); } }
    assert line[0] == name[0];
    RStripKeeps(line);
  }

  lemma EqualsIn(l: Str)
    requires KeyEquals(l).Some?
    ensures EQUALS in l
  {
    hide LStrip;
    assert l[|Until(l, {EQUALS})|] == EQUALS;
  }

  /** A beginning of the line with an equals sign in it has the whole head. */
  lemma HeadEquals(name: Str, l: Str, rest: Str)
    requires EQUALS !in name && EQUALS in l && l <= Head(name) + rest
    ensures |Head(name)| <= |l| && l[..|Head(name)|] == Head(name)
  {
    PaddedPlain(name);
    hide Pad30;
    var p := Pad30(name) + [SPACE];
    var i :| 0 <= i < |l| && l[i] == EQUALS;
    assert l[i] == (Head(name) + rest)[i];
    assert forall j :: 0 <= j < |p| ==> (Head(name) + rest)[j] == p[j] && p[j] != EQUALS;
  }

  lemma TailShort(tail: Str, rest: Str)
    requires tail <= rest && |tail| < |rest| && rest[0] == SPACE
    ensures |LStrip(tail)| + 2 <= |rest| || LStrip(tail) == []
  {
    LStripStep(tail);
  }

  // ----- the dump of one key -----

  function KeyTable(sec: Str, name: Str): Slots { [Some(sec), Some(sec + [COLON] + name)] }

  function ValueTable(v: Str): seq<Option<Str>> { [None, Some(v)] }

  /** The entries: the section, and the key with its value. */
  function KeyEntries(sec: Str, name: Str, v: Str): Entries {
    map[sec := None, sec + [COLON] + name := Some(v)]
  }

  lemma KeyDumped(sec: Str, name: Str, v: Str, missing: Str)
    requires SectionName(sec)
    ensures DumpText(KeyTable(sec, name), ValueTable(v), missing)
         == TextOf([[], SectionLine(sec), KeyLine(name, Some(v)), [], []])
  {
    hide KeyLine, TextOf;
    var k := sec + [COLON] + name;
    var keys, vals := KeyTable(sec, name), ValueTable(v);
    assert keys[1..] == [Some(k)] && vals[1..] == [Some(v)];
    assert COLON in k by { assert k[|sec|] == COLON; }
    assert Sections([Some(k)]) == [];
    assert Sections(keys) == [sec];
    assert k[|sec| + 1..] == name && sec + [COLON] <= k;
    assert KeyLines([Some(k)], [Some(v)], sec) == [KeyLine(name, Some(v))];
    assert KeyLines(keys, vals, sec) == [KeyLine(name, Some(v))];
    LowerSame(sec, ASCIILINESZ + 1);
    hide Strlwc, KeyLines, Sections;
    var line := SectionLine(sec);
    assert [[], line] + [KeyLine(name, Some(v))] + [[]] == [[], line, KeyLine(name, Some(v)), []];
    assert AllSections(keys, vals, [sec]) == SectionLines(keys, vals, sec) + AllSections(keys, vals, []);
    assert [[], line, KeyLine(name, Some(v)), []] + [] + [[]] == [[], line, KeyLine(name, Some(v)), [], []];
  }

  /** The loader behind the section line. */
  function InSectionOf(sec: Str): Loader { Loader([], sec, map[sec := None], false) }

  lemma KeyText(line: Str, l: Str)
    ensures TextOf([[], line, l, [], []]) == [] + [NEWLINE] + (line + [NEWLINE] + (l + [NEWLINE] + [NEWLINE, NEWLINE]))
  {
    assert [[], line, l, [], []][1..] == [line, l, [], []];
    assert [line, l, [], []][1..] == [l, [], []];
    assert [l, [], []][1..] == [[], []];
    var two: seq<Str> := [[], []];
    var one: seq<Str> := [[]];
    assert two[1..] == one && one[1..] == [];
    assert TextOf(one) == [NEWLINE];
    assert TextOf(two) == [NEWLINE, NEWLINE];
    assert TextOf([l, [], []]) == l + [NEWLINE] + [NEWLINE, NEWLINE];
    assert TextOf([line, l, [], []]) == line + [NEWLINE] + TextOf([l, [], []]);
  }

  /** The section line is read first; then the key line and two newlines are left. */
  lemma KeyLoaded(sec: Str, l: Str)
    requires SectionName(sec)
    ensures LoadText(TextOf([[], SectionLine(sec), l, [], []]))
         == LoadFrom(l + [NEWLINE] + [NEWLINE, NEWLINE], InSectionOf(sec))
  {
    hide LoadFrom, LoadRound, LineStep, TextOf, SectionLine;
    var line := SectionLine(sec);
    var rest := l + [NEWLINE] + [NEWLINE, NEWLINE];
    var text := line + [NEWLINE] + rest;
    KeyText(line, l);
    EmptyWhole();
    SkipEmpty(START);
    LoadLine([], text, START);
    LoadFromStep([] + [NEWLINE] + text, START);
    SectionLineStep(sec, START);
    LoadLine(line, rest, START);
    LoadFromStep(text, START);
  }

  /** A key line that is whole sets what iniparser_line says. */
  lemma WholeKey(sec: Str, name: Str, v: Str)
    requires SectionName(sec) && WholeLine(KeyLine(name, Some(v)))
    ensures LoadFrom(KeyLine(name, Some(v)) + [NEWLINE] + [NEWLINE, NEWLINE], InSectionOf(sec))
         == Some(KeyEntries(sec, name, v))
      <==> IniLine(RStrip(KeyLine(name, Some(v))), sec) == Value(name, v)
  {
    var st := InSectionOf(sec);
    var l := KeyLine(name, Some(v));
    assert l != [];
    hide LoadFrom, LoadRound, RStrip, KeyLine, IniLine, WholeLine;
    LoadLine(l, [NEWLINE, NEWLINE], st);
    LoadFromStep(l + [NEWLINE] + [NEWLINE, NEWLINE], st);
    var next := LineStep(st, l);
    NewlinesOnly([NEWLINE, NEWLINE], next);
    ProcessSets(sec, RStrip(l), name, v);
  }

  /** A line leads from the section alone to the section and the key exactly when it sets the key to the value. */
  lemma ProcessSets(sec: Str, line: Str, name: Str, v: Str)
    requires COLON !in sec
    ensures var t := Process(InSectionOf(sec), line);
      !t.failed && t.dict == KeyEntries(sec, name, v) <==> IniLine(line, sec) == Value(name, v)
    ensures InSectionOf(sec).dict != KeyEntries(sec, name, v)
  {
    hide IniLine;
    var m := KeyEntries(sec, name, v);
    var k := sec + [COLON] + name;
    assert k[|sec|] == COLON && k != sec;
    assert m[k] == Some(v) && k in m;
    var r := IniLine(line, sec);
    var t := Process(InSectionOf(sec), line);
    if r.Section? {
      assert forall x :: x in t.dict ==> t.dict[x] == None;
    } else if r.Value? {
      var j := sec + [COLON] + r.key;
      assert j[|sec|] == COLON && j != sec;
      assert j[|sec| + 1..] == r.key && k[|sec| + 1..] == name;
      assert t.dict == KeyEntries(sec, r.key, r.value);
      assert t.dict[j] == Some(r.value) && (k in t.dict ==> k == j);
    }
  }

  /** A key line that a backslash ends is joined with the empty lines behind it, and loses at least the backslash. */
  lemma ContinuedKey(sec: Str, name: Str, v: Str)
    requires SectionName(sec) && NulFree(name) && NulFree(v) && NEWLINE !in KeyLine(name, Some(v))
    requires |KeyLine(name, Some(v))| < ASCIILINESZ - 1 && NulFree(KeyLine(name, Some(v)))
    requires var b := RStrip(KeyLine(name, Some(v))); b != [] && b[|b| - 1] == BACKSLASH
    ensures LoadFrom(KeyLine(name, Some(v)) + [NEWLINE] + [NEWLINE, NEWLINE], InSectionOf(sec))
         != Some(KeyEntries(sec, name, v))
  {
    hide LoadFrom, LoadRound, RStrip, KeyLine, IniLine, LStrip, Head, Rest, Process;
    var st, l := InSectionOf(sec), KeyLine(name, Some(v));
    var b := RStrip(l);
    var text := l + [NEWLINE] + [NEWLINE, NEWLINE];
    ContinuedRound(l, [NEWLINE, NEWLINE], st);
    LoadFromStep(text, st);
    var next := st.(pending := b[..|b| - 1]);
    var line := Pending([NEWLINE, NEWLINE], next, next.pending);
    ProcessPending(st, next, line);
    LineBody(name, v);
    ContinuedValue(name, v);
    assert line <= b;
    PartSetsLess(name, v, line, sec);
    ProcessSets(sec, line, name, v);
    FailedLoses(line, sec);
  }

  /** A line that fails sets nothing. */
  lemma FailedLoses(line: Str, sec: Str)
    ensures Process(InSectionOf(sec), line).failed ==> Process(InSectionOf(sec), line).dict == InSectionOf(sec).dict
  {
    hide IniLine;
  }

  lemma ContinuedValue(name: Str, v: Str)
    requires var b := Head(name) + Rest(v); b[|b| - 1] == BACKSLASH
    ensures Strip(v) != []
  {
    hide RStrip, LStrip;
    StripEnds([SPACE] + v);
    LStripSpace(v);
    HeadEnd(name, Rest(v));
    RestLeft(v);
  }

  lemma HeadEnd(name: Str, x: Str)
    ensures var b := Head(name) + x; x == [] ==> b[|b| - 1] == EQUALS
  {}

  lemma RestLeft(v: Str)
    ensures Rest(v) != [] ==> LStrip(Rest(v)) != []
  {
    var x := Rest(v);
    if x != [] {
      LeftOver(x);
    }
  }

  lemma {:induction false} LeftOver(x: Str)
    requires x != [] && !IsSpace(x[|x| - 1])
    ensures LStrip(x) != []
    decreases |x|
  {
    if IsSpace(x[0]) {
      LeftOver(x[1..]);
    }
  }

  lemma ContinuedRound(l: Str, rest: Str, st: Loader)
    requires NulFree(l) && NEWLINE !in l && |l| < ASCIILINESZ - 1 && st.pending == [] && Continued(l) && l != []
    ensures LoadRound(l + [NEWLINE] + rest, st) == Next(rest, st.(pending := RStrip(l)[..|RStrip(l)| - 1]))
  {
    hide Process, RStrip, Fgets, LoadRound;
    FgetsLine(l, rest);
    RoundAt(l + [NEWLINE] + rest, l, rest, st);
  }

  /**
   * Dumping a section with one key and loading the text gives the section and the key with its value back if and only
   * if key and value are good, as IniRoundTrip asks of them, and the line fits in the buffer.
   */
  lemma KeyExact(sec: Str, name: Str, v: Str, missing: Str)
    requires SectionName(sec)
    ensures LoadText(DumpText(KeyTable(sec, name), ValueTable(v), missing)) == Some(KeyEntries(sec, name, v))
      <==> GoodKey(name, v) && |KeyLine(name, Some(v))| < ASCIILINESZ - 1
  {
    hide LoadText, LoadFrom, DumpText, TextOf, KeyLine, RStrip, IniLine, Head, Rest, GoodKey;
    var l := KeyLine(name, Some(v));
    var text := TextOf([[], SectionLine(sec), l, [], []]);
    KeyDumped(sec, name, v, missing);
    GoodIsClean(name, v);
    if NEWLINE in name || NEWLINE in v {
      LoadNames(text, NEWLINE);
      EntriesHold(sec, name, v, NEWLINE);
    } else if 0 in name || 0 in v {
      LoadNames(text, 0);
      EntriesHold(sec, name, v, 0);
    } else {
      LineClean(name, v);
      KeyLoaded(sec, l);
      var b := RStrip(l);
      if |l| >= ASCIILINESZ - 1 {
        LongRound(l, [NEWLINE, NEWLINE], InSectionOf(sec));
        LoadFromStep(l + [NEWLINE] + [NEWLINE, NEWLINE], InSectionOf(sec));
      } else if b[|b| - 1] == BACKSLASH {
        ContinuedKey(sec, name, v);
        GoodEnds(name, v);
      } else {
        WholeKey(sec, name, v);
        KeyLineExact(name, v, sec);
      }
    }
  }

  lemma GoodIsClean(name: Str, v: Str)
    ensures GoodKey(name, v) ==> NulFree(name) && NulFree(v) && NEWLINE !in name && NEWLINE !in v
  {}

  lemma EntriesHold(sec: Str, name: Str, v: Str, b: byte)
    requires b in name || b in v
    ensures !AbsentFrom(KeyEntries(sec, name, v), b)
  {
    var k := sec + [COLON] + name;
    assert k[|sec|] == COLON && k != sec;
    assert k in KeyEntries(sec, name, v) && KeyEntries(sec, name, v)[k] == Some(v);
    assert b in name ==> b in k;
  }

  lemma LineClean(name: Str, v: Str)
    requires NEWLINE !in name && NEWLINE !in v && 0 !in name && 0 !in v
    ensures NulFree(name) && NulFree(v)
    ensures var l := KeyLine(name, Some(v)); NEWLINE !in l && NulFree(l) && RStrip(l) != []
  {
    LineBody(name, v);
    hide RStrip, LStrip;
    assert NulFree(name) && NulFree(v);
    NulFreeConcat(Pad30(name), [SPACE, EQUALS, SPACE]);
    NulFreeConcat(Pad30(name) + [SPACE, EQUALS, SPACE], v);
  }

  lemma GoodEnds(name: Str, v: Str)
    ensures GoodKey(name, v) ==> var b := RStrip(KeyLine(name, Some(v))); b != [] && b[|b| - 1] != BACKSLASH
  {
    hide RStrip, KeyLine;
    if GoodKey(name, v) {
      KeyLineBody(name, Some(v));
    }
  }

  /** A value that does not come back: what follows a semicolon is taken for a comment. */
  lemma KeyLost(sec: Str, missing: Str)
    requires SectionName(sec)
    ensures var name: Str, v: Str := [107], [97, SEMICOLON, 98];
      LoadText(DumpText(KeyTable(sec, name), ValueTable(v), missing)) != Some(KeyEntries(sec, name, v))
  {
    var name: Str, v: Str := [107], [97, SEMICOLON, 98];
    assert v[1] == SEMICOLON;
    hide LoadText, DumpText, KeyLine;
    KeyExact(sec, name, v, missing);
  }
}
