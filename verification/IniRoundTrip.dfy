/** Dumping a dictionary and loading the text gives the dictionary back. */
module IniRoundTrip {
  import opened Bytes
  import opened Dictionaries
  import opened IniText
  import opened IniDump

  // ----- which dictionaries -----

  /** A piece of text with no outer blanks. */
  predicate Trimmed(s: Str) {
    s != [] ==> !IsSpace(s[0]) && !IsSpace(s[|s| - 1])
  }

  predicate Lowercase(s: Str) {
    forall i :: 0 <= i < |s| ==> ToLower(s[i]) == s[i]
  }

  /** A section name: not empty, lower case, trimmed, on one line, without ']' or ':', and its line fits. */
  predicate SectionName(s: Str) {
    s != [] && NulFree(s) && Lowercase(s) && Trimmed(s) && NEWLINE !in s && RBRACKET !in s && COLON !in s
    && |s| + 2 < ASCIILINESZ - 1
  }

  /** A key inside a section. */
  predicate KeyName(s: Str) {
    s != [] && NulFree(s) && Lowercase(s) && Trimmed(s) && NEWLINE !in s && EQUALS !in s
    && s[0] != HASH && s[0] != SEMICOLON
  }

  /** A leading quote is harmless alone, or when the next byte closes it and more follows. */
  predicate Unquoted(v: Str) {
    v != [] && (v[0] == QUOTE || v[0] == APOSTROPHE) ==> |v| == 1 || (|v| > 2 && v[1] == v[0])
  }

  predicate PlainText(v: Str) {
    NulFree(v) && Trimmed(v) && NEWLINE !in v && SEMICOLON !in v && HASH !in v && Unquoted(v)
    && (v != [] ==> v[|v| - 1] != BACKSLASH)
  }

  /** The key and its value do not look like a section in brackets. */
  predicate GoodKey(name: Str, v: Str) {
    KeyName(name) && PlainText(v) && (name[0] == LBRACKET && v != [] ==> v[|v| - 1] != RBRACKET)
  }

  /** The entry `k` -> `v` of a dictionary that can be dumped and reloaded. */
  predicate GoodEntry(m: map<Str, Option<Str>>, k: Str)
    requires k in m
  {
    if COLON in k then
      var sec := Until(k, {COLON});
      var name := k[|sec| + 1..];
      sec in m && GoodKey(name, OrEmpty(m[k])) && |KeyLine(name, m[k])| < ASCIILINESZ - 1
    else SectionName(k)
  }

  /** What a reload makes of the entries: sections have no value, a key without a value gets the empty one. */
  function Normal(k: Str, v: Option<Str>): Option<Str> {
    if COLON in k then Some(OrEmpty(v)) else None
  }

  // ----- lines -----

  /** A line that fgets returns whole and that is not continued. */
  predicate WholeLine(l: Str) {
    NulFree(l) && NEWLINE !in l && |l| < ASCIILINESZ - 1 && !Continued(l)
  }

  /** A backslash at the end joins the line with the next one. */
  predicate Continued(l: Str) {
    RStrip(l) != [] && RStrip(l)[|RStrip(l)| - 1] == BACKSLASH
  }

  /** What a whole line does. An empty line is skipped before it is looked at. */
  function LineStep(st: Loader, l: Str): Loader {
    if l == [] then st else Process(st, RStrip(l))
  }

  function Steps(st: Loader, lines: seq<Str>): Loader
    decreases |lines|
  {
    if lines == [] then st else Steps(LineStep(st, lines[0]), lines[1..])
  }

  lemma {:induction false} UntilStop(a: Str, stop: set<byte>, b: Str)
    requires forall i :: 0 <= i < |a| ==> a[i] !in stop
    requires b != [] ==> b[0] in stop
    ensures Until(a + b, stop) == a
  {
    if a == [] {
      assert a + b == b;
    } else {
      assert (a + b)[1..] == a[1..] + b;
      UntilStop(a[1..], stop, b);
    }
  }

  lemma RStripNewline(l: Str)
    ensures RStrip(l + [NEWLINE]) == RStrip(l)
  {
    assert (l + [NEWLINE])[..|l|] == l;
  }

  lemma FgetsLine(l: Str, rest: Str)
    requires NEWLINE !in l && |l| < ASCIILINESZ - 1
    ensures var text := l + [NEWLINE] + rest;
      Fgets(text, ASCIILINESZ - 1) == l + [NEWLINE] && text[|l| + 1..] == rest
  {
    var text := l + [NEWLINE] + rest;
    Assoc(l, [NEWLINE], rest);
    UntilStop(l, {NEWLINE}, [NEWLINE] + rest);
    assert text[..|l| + 1] == l + [NEWLINE];
  }

  /** A round that reads one line, from what fgets gives. */
  lemma RoundAt(text: Str, l: Str, rest: Str, st: Loader)
    requires text != [] && st.pending == [] && NulFree(l)
    requires Fgets(text, ASCIILINESZ - 1) == l + [NEWLINE] && text[|l| + 1..] == rest
    ensures LoadRound(text, st) == Next(rest,
      if l == [] then st
      else if Continued(l) then st.(pending := RStrip(l)[..|RStrip(l)| - 1])
      else Process(st, RStrip(l)))
  {
    hide Process, RStrip, Fgets, UpToNul;
    var chunk := l + [NEWLINE];
    NulFreeConcat(l, [NEWLINE]);
    UpToNulIdentity(chunk);
    RStripNewline(l);
    assert [] + chunk == chunk && chunk[|chunk| - 1] == NEWLINE && |chunk| == |l| + 1;
  }

  lemma LoadLine(l: Str, rest: Str, st: Loader)
    requires WholeLine(l) && st.pending == []
    ensures LineStep(st, l).pending == []
    ensures LoadRound(l + [NEWLINE] + rest, st) == Next(rest, LineStep(st, l))
  {
    hide Process, RStrip, Fgets, LoadRound;
    FgetsLine(l, rest);
    RoundAt(l + [NEWLINE] + rest, l, rest, st);
  }

  lemma {:induction false} LoadLines(lines: seq<Str>, st: Loader)
    requires st.pending == [] && forall i :: 0 <= i < |lines| ==> WholeLine(lines[i])
    ensures LoadFrom(TextOf(lines), st) == (var t := Steps(st, lines); if t.failed then None else Some(t.dict))
    decreases |lines|
  {
    if lines != [] {
      hide WholeLine, LineStep, LoadRound;
      LoadLine(lines[0], TextOf(lines[1..]), st);
      LoadLines(lines[1..], LineStep(st, lines[0]));
    }
  }

  // ----- what the dumped lines do -----

  lemma {:induction false} RStripBlanks(a: Str, blanks: Str)
    requires a != [] ==> !IsSpace(a[|a| - 1])
    requires forall i :: 0 <= i < |blanks| ==> IsSpace(blanks[i])
    ensures RStrip(a + blanks) == a
    decreases |blanks|
  {
    if blanks == [] {
      assert a + blanks == a;
    } else {
      var n := |blanks| - 1;
      assert (a + blanks)[..|a| + n] == a + blanks[..n];
      RStripBlanks(a, blanks[..n]);
    }
  }

  lemma StripTrimmed(s: Str)
    requires Trimmed(s)
    ensures Strip(s) == s && LStrip(s) == s && RStrip(s) == s
  {}

  lemma LowerSame(s: Str, len: nat)
    requires Lowercase(s) && |s| < len
    ensures Strlwc(s, len) == s
  {}

  lemma SectionLineStep(sec: Str, st: Loader)
    requires SectionName(sec) && st.pending == []
    ensures WholeLine(SectionLine(sec))
    ensures LineStep(st, SectionLine(sec)) == st.(section := sec, dict := st.dict[sec := None])
  {
    var line := SectionLine(sec);
    assert Trimmed(line);
    hide RStrip, LStrip, Until, LowerAll;
    StripTrimmed(line);
    assert line[1..] == sec + [RBRACKET];
    UntilStop(sec, {RBRACKET}, [RBRACKET]);
    StripTrimmed(sec);
    LowerSame(sec, |line|);
  }

  /** A key line as iniparser_line sees it, trailing blanks removed. */
  function Body(name: Str, v: Str): Str {
    Pad30(name) + [SPACE] + ([EQUALS] + if v == [] then [] else [SPACE] + v)
  }

  lemma KeyLineBody(name: Str, v: Option<Str>)
    requires KeyName(name) && PlainText(OrEmpty(v))
    ensures RStrip(KeyLine(name, v)) == Body(name, OrEmpty(v)) && Trimmed(Body(name, OrEmpty(v)))
    ensures NEWLINE !in KeyLine(name, v) && Body(name, OrEmpty(v))[0] == name[0]
    ensures Body(name, OrEmpty(v))[|Body(name, OrEmpty(v))| - 1] != BACKSLASH
  {
    var x := OrEmpty(v);
    var b := Body(name, x);
    hide RStrip;
    if x == [] {
      assert KeyLine(name, v) == b + [SPACE];
      RStripBlanks(b, [SPACE]);
    } else {
      assert KeyLine(name, v) == b + [];
      RStripBlanks(b, []);
    }
  }

  lemma KeyLineNulFree(name: Str, v: Option<Str>)
    requires KeyName(name) && PlainText(OrEmpty(v))
    ensures NulFree(KeyLine(name, v))
  {
    NulFreeConcat(Pad30(name), [SPACE, EQUALS, SPACE]);
    NulFreeConcat(Pad30(name) + [SPACE, EQUALS, SPACE], OrEmpty(v));
  }

  lemma BodyEquals(name: Str, v: Str)
    requires KeyName(name) && PlainText(v)
    ensures KeyEquals(Body(name, v)) == Some(Pair(Pad30(name) + [SPACE], v))
  {
    hide LStrip, KeyEquals, Pad30;
    PaddedPlain(name);
    EqualsAt(Pad30(name) + [SPACE], if v == [] then [] else [SPACE] + v);
    BlankThen(v);
  }

  lemma EqualsAt(key: Str, tail: Str)
    requires key != [] && EQUALS !in key
    ensures KeyEquals(key + ([EQUALS] + tail)) == Some(Pair(key, LStrip(tail)))
  {
    hide LStrip, Until;
    var line := key + ([EQUALS] + tail);
    UntilStop(key, {EQUALS}, [EQUALS] + tail);
    assert line[|key| + 1..] == tail && |line| > |key|;
  }

  lemma PaddedPlain(name: Str)
    requires EQUALS !in name
    ensures EQUALS !in Pad30(name) + [SPACE]
  {}

  lemma BlankThen(v: Str)
    requires Trimmed(v)
    ensures LStrip(if v == [] then [] else [SPACE] + v) == v
  {
    if v != [] {
      assert ([SPACE] + v)[1..] == v;
    }
  }

  lemma PaddedName(name: Str)
    requires name != [] && Trimmed(name)
    ensures Strip(Pad30(name) + [SPACE]) == name
  {
    var padded := Pad30(name) + [SPACE];
    var blanks := padded[|name|..];
    assert padded == name + blanks;
    assert LStrip(padded) == padded;
    RStripBlanks(name, blanks);
  }

  lemma BodyLine(name: Str, v: Str, section: Str)
    requires GoodKey(name, v) && Trimmed(Body(name, v)) && Body(name, v)[0] == name[0]
    ensures IniLine(Body(name, v), section) == Value(name, v)
  {
    hide Body, Until, Strip, Strlwc, KeyEquals, LStrip, RStrip;
    var b := Body(name, v);
    BodyEquals(name, v);
    StripTrimmed(b);
    StripTrimmed(v);
    PaddedName(name);
    BodyLonger(name, v);
    LowerSame(name, |b|);
    PlainUntil(v);
    NotQuoted(v);
    BodyEnd(name, v);
    assert ScanQuoted(b, QUOTE) == None && ScanQuoted(b, APOSTROPHE) == None;
    hide ScanQuoted;
  }

  lemma BodyLonger(name: Str, v: Str)
    ensures |Body(name, v)| > |name| + 1
  {}

  lemma NotQuoted(v: Str)
    requires Unquoted(v)
    ensures v != [] && v[0] == QUOTE ==> Until(v[1..], {QUOTE}) == []
    ensures v != [] && v[0] == APOSTROPHE ==> Until(v[1..], {APOSTROPHE}) == []
    ensures PlainValue(v) == v
  {}

  lemma BodyEnd(name: Str, v: Str)
    ensures var b := Body(name, v); b[|b| - 1] == if v == [] then EQUALS else v[|v| - 1]
  {}

  lemma PlainUntil(v: Str)
    requires PlainText(v)
    ensures Until(v, {SEMICOLON, HASH}) == v
  {
    UntilStop(v, {SEMICOLON, HASH}, []);
    assert v + [] == v;
  }

  lemma KeyLineStep(name: Str, v: Option<Str>, st: Loader)
    requires GoodKey(name, OrEmpty(v)) && |KeyLine(name, v)| < ASCIILINESZ - 1 && st.pending == []
    ensures WholeLine(KeyLine(name, v))
    ensures LineStep(st, KeyLine(name, v)) == st.(dict := st.dict[st.section + [COLON] + name := Some(OrEmpty(v))])
  {
    hide RStrip, Body, IniLine, PlainText;
    KeyLineBody(name, v);
    KeyLineNulFree(name, v);
    BodyLine(name, OrEmpty(v), st.section);
  }

  // ----- a whole dump -----

  type Entries = map<Str, Option<Str>>

  /** Every entry can be dumped and reloaded. */
  ghost predicate Dumpable(m: Entries) {
    forall k :: k in m ==> GoodEntry(m, k)
  }

  /** The slots hold the entries of `m`. */
  ghost predicate Holds(keys: Slots, vals: seq<Option<Str>>, m: Entries) {
    && |keys| == |vals|
    && forall i :: 0 <= i < |keys| && keys[i].Some? ==> keys[i].value in m && m[keys[i].value] == vals[i]
  }

  /** Everything loaded so far is right, and the loader is between two lines without an error. */
  ghost predicate Sound(st: Loader, m: Entries) {
    st.pending == [] && !st.failed && forall k :: k in st.dict ==> k in m && st.dict[k] == Normal(k, m[k])
  }

  predicate AllWhole(lines: seq<Str>) {
    forall i :: 0 <= i < |lines| ==> WholeLine(lines[i])
  }

  lemma StepsCons(st: Loader, line: Str, rest: seq<Str>)
    ensures Steps(st, [line] + rest) == Steps(LineStep(st, line), rest)
    ensures WholeLine(line) && AllWhole(rest) ==> AllWhole([line] + rest)
  {
    hide LineStep, WholeLine;
    assert ([line] + rest)[1..] == rest;
  }

  lemma {:induction false} StepsConcat(st: Loader, a: seq<Str>, b: seq<Str>)
    ensures Steps(st, a + b) == Steps(Steps(st, a), b)
    decreases |a|
  {
    if a == [] {
      assert a + b == b;
    } else {
      hide LineStep;
      StepsConcat(LineStep(st, a[0]), a[1..], b);
      assert (a + b)[0] == a[0] && (a + b)[1..] == a[1..] + b;
    }
  }

  /** A key's section is what stands in front of its first colon. */
  lemma KeyParts(k: Str, sec: Str)
    requires COLON !in sec && sec + [COLON] <= k
    ensures Until(k, {COLON}) == sec && COLON in k && k == sec + [COLON] + k[|sec| + 1..]
  {
    var name := k[|sec| + 1..];
    assert k == sec + ([COLON] + name);
    UntilStop(sec, {COLON}, [COLON] + name);
  }

  /** Every entry of the section `sec` is loaded. */
  ghost predicate Covered(keys: Slots, sec: Str, dict: Entries) {
    forall k :: Some(k) in keys && InSection(Some(k), sec) ==> k in dict
  }

  lemma CoveredCons(keys: Slots, sec: Str, dict: Entries)
    requires keys != [] && Covered(keys[1..], sec, dict)
    requires InSection(keys[0], sec) ==> keys[0].value in dict
    ensures Covered(keys, sec, dict)
  {
    assert forall x :: x in keys ==> x == keys[0] || x in keys[1..];
  }

  lemma {:induction false} KeyLinesLoad(keys: Slots, vals: seq<Option<Str>>, m: Entries, sec: Str, st: Loader)
    requires Dumpable(m) && Holds(keys, vals, m) && COLON !in sec && Sound(st, m) && st.section == sec
    ensures AllWhole(KeyLines(keys, vals, sec))
    ensures var t := Steps(st, KeyLines(keys, vals, sec));
      Sound(t, m) && t.section == sec && st.dict.Keys <= t.dict.Keys
      && Covered(keys, sec, t.dict)
    decreases |keys|
  {
    if keys == [] {
      return;
    }
    hide LineStep, KeyLine, WholeLine, Dumpable, Sound, Covered, Holds, InSection, KeyLines;
    var rest := KeyLines(keys[1..], vals[1..], sec);
    KeyLinesStep(keys, vals, m, sec);
    if InSection(keys[0], sec) {
      var k := keys[0].value;
      var st' := KeySlotLoad(k, m, sec, st);
      KeyLinesLoad(keys[1..], vals[1..], m, sec, st');
      StepsCons(st, KeyLine(k[|sec| + 1..], vals[0]), rest);
      CoveredCons(keys, sec, Steps(st', rest).dict);
    } else {
      KeyLinesLoad(keys[1..], vals[1..], m, sec, st);
      CoveredCons(keys, sec, Steps(st, rest).dict);
    }
  }

  /** The first slot and the others. */
  lemma KeyLinesStep(keys: Slots, vals: seq<Option<Str>>, m: Entries, sec: Str)
    requires keys != [] && Holds(keys, vals, m)
    ensures Holds(keys[1..], vals[1..], m)
    ensures InSection(keys[0], sec) ==> sec + [COLON] <= keys[0].value
    ensures InSection(keys[0], sec) ==> keys[0].value in m && m[keys[0].value] == vals[0]
    ensures var rest := KeyLines(keys[1..], vals[1..], sec);
      KeyLines(keys, vals, sec) ==
      if InSection(keys[0], sec) then [KeyLine(keys[0].value[|sec| + 1..], vals[0])] + rest else rest
  {
    hide KeyLine;
  }

  lemma KeySlotLoad(k: Str, m: Entries, sec: Str, st: Loader) returns (t: Loader)
    requires Dumpable(m) && k in m && COLON !in sec && sec + [COLON] <= k && Sound(st, m) && st.section == sec
    ensures WholeLine(KeyLine(k[|sec| + 1..], m[k]))
    ensures t == LineStep(st, KeyLine(k[|sec| + 1..], m[k]))
    ensures Sound(t, m) && t.section == sec && t.dict.Keys == st.dict.Keys + {k}
  {
    hide KeyLine, WholeLine, LineStep, GoodKey, Until, SectionName;
    var name := k[|sec| + 1..];
    KeyParts(k, sec);
    assert GoodEntry(m, k);
    hide GoodEntry, Dumpable;
    KeyLineStep(name, m[k], st);
    t := LineStep(st, KeyLine(name, m[k]));
  }

  lemma SectionLoad(keys: Slots, vals: seq<Option<Str>>, m: Entries, sec: Str, st: Loader)
    requires Dumpable(m) && Holds(keys, vals, m) && Some(sec) in keys && COLON !in sec && Sound(st, m)
    ensures AllWhole(SectionLines(keys, vals, sec))
    ensures var t := Steps(st, SectionLines(keys, vals, sec));
      Sound(t, m) && st.dict.Keys <= t.dict.Keys && sec in t.dict
      && Covered(keys, sec, t.dict)
  {
    hide WholeLine, KeyLines, Sound, Covered, LineStep;
    var st1 := SectionHead(m, sec, st) by {
      hide Sound;
      assert sec in m;
    }
    KeyLinesLoad(keys, vals, m, sec, st1);
    hide Dumpable, Holds, SectionLine, Strlwc;
    var lines := KeyLines(keys, vals, sec);
    var line := SectionLine(sec);
    SectionSteps(st, line, lines);
    EmptyWhole();
    assert SectionLines(keys, vals, sec) == [[], line] + lines + [[]];
  }

  lemma SectionHead(m: Entries, sec: Str, st: Loader) returns (t: Loader)
    requires Dumpable(m) && sec in m && COLON !in sec && Sound(st, m)
    ensures t == LineStep(st, SectionLine(sec)) && WholeLine(SectionLine(sec)) && Strlwc(sec, ASCIILINESZ + 1) == sec
    ensures Sound(t, m) && t.section == sec && t.dict.Keys == st.dict.Keys + {sec}
  {
    assert GoodEntry(m, sec);
    hide WholeLine, LineStep, Strlwc;
    LowerSame(sec, ASCIILINESZ + 1);
    SectionLineStep(sec, st);
    t := LineStep(st, SectionLine(sec));
  }

  lemma EmptyWhole()
    ensures WholeLine([])
  {}

  /** Empty lines change nothing. */
  lemma SectionSteps(st: Loader, line: Str, lines: seq<Str>)
    ensures Steps(st, [[], line] + lines + [[]]) == Steps(LineStep(st, line), lines)
  {
    hide Process;
    var head := [[], line];
    StepsConcat(st, head + lines, [[]]);
    StepsConcat(st, head, lines);
    assert head[1..] == [line];
    assert Steps(st, head) == Steps(st, [line]) == LineStep(st, line);
    var t := Steps(LineStep(st, line), lines);
    assert Steps(t, [[]]) == t;
  }

  /** Every one of the sections is entered and all its keys are loaded. */
  ghost predicate AllCovered(keys: Slots, secs: seq<Str>, dict: Entries) {
    forall i :: 0 <= i < |secs| ==> secs[i] in dict && Covered(keys, secs[i], dict)
  }

  lemma AllCoveredCons(keys: Slots, secs: seq<Str>, dict: Entries)
    requires secs != [] && secs[0] in dict && Covered(keys, secs[0], dict) && AllCovered(keys, secs[1..], dict)
    ensures AllCovered(keys, secs, dict)
  {
    hide Covered;
    assert forall i :: 1 <= i < |secs| ==> secs[i] == secs[1..][i - 1];
  }

  lemma AllWholeConcat(a: seq<Str>, b: seq<Str>)
    requires AllWhole(a) && AllWhole(b)
    ensures AllWhole(a + b)
  {
    hide WholeLine;
  }

  lemma {:induction false} AllSectionsLoad(keys: Slots, vals: seq<Option<Str>>, m: Entries, secs: seq<Str>, st: Loader)
    requires Dumpable(m) && Holds(keys, vals, m) && Sound(st, m)
    requires forall i :: 0 <= i < |secs| ==> Some(secs[i]) in keys && COLON !in secs[i]
    ensures AllWhole(AllSections(keys, vals, secs))
    ensures var t := Steps(st, AllSections(keys, vals, secs));
      Sound(t, m) && st.dict.Keys <= t.dict.Keys && AllCovered(keys, secs, t.dict)
    decreases |secs|
  {
    hide WholeLine, AllWhole, Dumpable, Sound, SectionLines, LineStep, Covered, AllCovered, Steps;
    var lines := AllSections(keys, vals, secs);
    if secs == [] {
      StepsNothing(keys, secs, st);
    } else {
      SectionLoad(keys, vals, m, secs[0], st);
      var head := SectionLines(keys, vals, secs[0]);
      var t := Steps(st, head);
      var rest := AllSections(keys, vals, secs[1..]);
      AllSectionsLoad(keys, vals, m, secs[1..], t);
      var dict := Steps(t, rest).dict;
      CoveredMore(keys, secs[0], t.dict, dict);
      AllCoveredCons(keys, secs, dict);
      AllWholeConcat(head, rest);
      StepsConcat(st, head, rest);
    }
  }

  lemma StepsNothing(keys: Slots, secs: seq<Str>, st: Loader)
    requires secs == []
    ensures Steps(st, []) == st && AllWhole([]) && AllCovered(keys, secs, st.dict)
  {}

  lemma CoveredMore(keys: Slots, sec: Str, dict: Entries, more: Entries)
    requires Covered(keys, sec, dict) && dict.Keys <= more.Keys
    ensures Covered(keys, sec, more)
  {}

  lemma {:induction false} SectionsComplete(keys: Slots, sec: Str)
    requires Some(sec) in keys && COLON !in sec
    ensures sec in Sections(keys)
  {
    if keys[0] != Some(sec) {
      assert Some(sec) in keys[1..];
      SectionsComplete(keys[1..], sec);
    }
  }

  /** Dump, then load: the same entries, sections without a value and keys with one. */
  lemma DumpLoad(keys: Slots, vals: seq<Option<Str>>, m: Entries)
    requires Dumpable(m) && Holds(keys, vals, m) && forall k :: k in m ==> Some(k) in keys
    ensures LoadText(TextOf(DumpLines(keys, vals))) == Some(map k | k in m :: Normal(k, m[k]))
  {
    hide WholeLine, LineStep, AllSections, LoadFrom, Dumpable, Covered, InSection, Until;
    var secs := Sections(keys);
    var st := Loader([], [], map[], false);
    var lines := AllSections(keys, vals, secs);
    AllSectionsLoad(keys, vals, m, secs, st);
    EmptyWhole();
    LoadLines(lines + [[]], st);
    StepsConcat(st, lines, [[]]);
    var t := Steps(st, lines);
    EmptyStep(t);
    forall k | k in m ensures k in t.dict {
      EntryCovered(keys, m, k, t.dict);
    }
    assert t.dict == map k | k in m :: Normal(k, m[k]);
  }

  lemma EntryCovered(keys: Slots, m: Entries, k: Str, dict: Entries)
    requires Dumpable(m) && k in m && forall x :: x in m ==> Some(x) in keys
    requires AllCovered(keys, Sections(keys), dict)
    ensures k in dict
  {
    hide Dumpable, InSection, Until;
    EntryLoaded(keys, m, k);
    var secs := Sections(keys);
    if COLON in k {
      var i :| 0 <= i < |secs| && secs[i] == Until(k, {COLON});
      assert Covered(keys, secs[i], dict);
    }
  }

  lemma EmptyStep(t: Loader)
    ensures Steps(t, [[]]) == t
  {}

  lemma ColonSplit(k: Str)
    requires COLON in k
    ensures var sec := Until(k, {COLON}); COLON !in sec && sec + [COLON] <= k
  {
    var sec := Until(k, {COLON});
    assert COLON !in sec;
    hide Until;
    assert sec != k && |sec| < |k|;
    assert k[..|sec| + 1] == sec + [COLON];
  }

  lemma EntryLoaded(keys: Slots, m: Entries, k: Str)
    requires Dumpable(m) && k in m && forall x :: x in m ==> Some(x) in keys
    ensures COLON !in k ==> k in Sections(keys)
    ensures COLON in k ==> Until(k, {COLON}) in Sections(keys) && InSection(Some(k), Until(k, {COLON}))
  {
    hide Until, GoodKey, SectionName, KeyLine, Sections;
    assert GoodEntry(m, k);
    hide GoodEntry, Dumpable;
    if COLON in k {
      var sec := Until(k, {COLON});
      ColonSplit(k);
      SectionsComplete(keys, sec);
    } else {
      SectionsComplete(keys, k);
    }
  }

  lemma {:induction false} FlatNone(keys: Slots, vals: seq<Option<Str>>, missing: Str)
    requires |keys| == |vals| && forall i :: 0 <= i < |keys| ==> keys[i].None?
    ensures FlatLines(keys, vals, missing) == []
  {
    if keys != [] {
      FlatNone(keys[1..], vals[1..], missing);
    }
  }

  /**
   * iniparser_load of what iniparser_dump_ini wrote, for slots that hold the dumpable entries `m`: the same entries,
   * with sections set to NULL and keys without a value set to the empty string.
   */
  lemma IniRoundTrip(keys: Slots, vals: seq<Option<Str>>, m: Entries, missing: Str)
    requires Dumpable(m) && Holds(keys, vals, m) && forall k :: k in m ==> Some(k) in keys
    ensures LoadText(DumpText(keys, vals, missing)) == Some(map k | k in m :: Normal(k, m[k]))
  {
    hide LoadText, Dumpable;
    if Sections(keys) == [] {
      assert m == map[] by {
        if k :| k in m {
          EntryLoaded(keys, m, k);
        }
      }
      FlatNone(keys, vals, missing) by { assert forall i :: 0 <= i < |keys| && keys[i].Some? ==> keys[i].value in m; }
      LoadNothing();
    } else {
      DumpLoad(keys, vals, m);
    }
  }

  lemma LoadNothing()
    ensures LoadText([]) == Some(map[])
  {}
}
