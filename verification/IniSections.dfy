/** Which section names survive a dump and a load: exactly those that IniRoundTrip asks for. */
module IniSections {
  import opened Bytes
  import opened Dictionaries
  import opened IniText
  import opened IniDump
  import opened IniRoundTrip

  // ----- what the loader never puts in a name -----

  lemma StripPart(s: Str)
    ensures |Strip(s)| <= |s| && forall b :: b in Strip(s) ==> b in s
    ensures Strip(s) == s ==> Trimmed(s)
  {
    var l := LStrip(s);
    assert forall b :: b in l ==> b in s;
  }

  lemma LowerKeeps(s: Str, len: nat, b: byte)
    requires len > 0 && b !in s && !(97 <= b <= 122)
    ensures b !in Strlwc(s, len)
  {
    var r := Strlwc(s, len);
    assert forall i :: 0 <= i < |r| ==> r[i] == ToLower(s[i]) && s[i] != b;
  }

  lemma NameKeeps(s: Str, len: nat, b: byte)
    requires len > 0 && b !in s && !(97 <= b <= 122)
    ensures b !in Strlwc(Strip(s), len)
  {
    hide Strip, Strlwc;
    StripPart(s);
    LowerKeeps(Strip(s), len, b);
  }

  /** The byte `b` is in nothing that the loader holds. */
  ghost predicate Without(st: Loader, b: byte) {
    b !in st.pending && b !in st.section && AbsentFrom(st.dict, b)
  }

  ghost predicate AbsentFrom(dict: Entries, b: byte) {
    forall k :: k in dict ==> b !in k && b !in OrEmpty(dict[k])
  }

  lemma KeyEqualsPart(line: Str, b: byte)
    requires b !in line
    ensures KeyEquals(line).Some? ==> b !in KeyEquals(line).value.key && b !in KeyEquals(line).value.value
  {
    if KeyEquals(line).Some? {
      var tail := line[|Until(line, {EQUALS})| + 1..];
      assert forall x :: x in LStrip(tail) ==> x in tail;
    }
  }

  lemma ValuePart(x: Str, b: byte)
    requires b !in x
    ensures b !in PlainValue(Strip(Until(x, {SEMICOLON, HASH})))
    ensures x != [] ==> b !in Until(x[1..], {QUOTE}) && b !in Until(x[1..], {APOSTROPHE})
  {
    StripPart(Until(x, {SEMICOLON, HASH}));
    hide Strip, Until;
    assert forall y :: y in Until(x, {SEMICOLON, HASH}) ==> y in x;
    assert x != [] ==> forall y :: y in x[1..] ==> y in x;
  }

  /** A name on a line is made of bytes of the line or of the section before. */
  lemma LineKeeps(line: Str, section: Str, b: byte)
    requires b !in line && b !in section && !(97 <= b <= 122)
    ensures var r := IniLine(line, section);
      (r.Section? ==> b !in r.name) && (r.Value? ==> b !in r.key && b !in r.value)
  {
    hide Strip, Strlwc, KeyEquals, PlainValue, Until;
    StripPart(line);
    var l := Strip(line);
    KeyEqualsPart(l, b);
    if l != [] {
      var name := Until(l[1..], {RBRACKET});
      assert forall x :: x in name ==> x in l;
      NameKeeps(if name == [] then section else name, |l|, b);
      if KeyEquals(l).Some? {
        ValuePart(KeyEquals(l).value.value, b);
        NameKeeps(KeyEquals(l).value.key, |l|, b);
      }
    }
  }

  lemma ProcessKeeps(st: Loader, line: Str, b: byte)
    requires Without(st, b) && b !in line && !(97 <= b <= 122) && b != COLON
    ensures Without(Process(st, line), b)
  {
    hide IniLine;
    LineKeeps(line, st.section, b);
  }

  /** No newline and no NUL reaches a name or a value. */
  lemma RoundKeeps(text: Str, st: Loader, b: byte)
    requires text != [] && Roomy(st) && Without(st, b) && (b == NEWLINE || b == 0)
    ensures LoadRound(text, st).Next? ==> Without(LoadRound(text, st).loader, b)
  {
    hide Process, RStrip, Fgets, UpToNul, Without;
    var chunk := Fgets(text, ASCIILINESZ - 1 - |st.pending|);
    var line := UpToNul(st.pending + chunk);
    var body := RStrip(line);
    PendingClean(st, b);
    LineBytes(st.pending, text, ASCIILINESZ - 1 - |st.pending|, b);
    ProcessKeeps(st, body, b);
    if body != [] {
      PendingKeeps(st, body[..|body| - 1], b);
    }
  }

  lemma PendingClean(st: Loader, b: byte)
    requires Without(st, b)
    ensures b !in st.pending
  {}

  lemma PendingKeeps(st: Loader, pending: Str, b: byte)
    requires Without(st, b) && b !in pending
    ensures Without(st.(pending := pending), b)
  {}

  /** Of a chunk, only the last byte can be a newline. */
  lemma ChunkBytes(text: Str, room: nat)
    requires text != [] && room > 0
    ensures var chunk := Fgets(text, room); forall i :: 0 <= i < |chunk| - 1 ==> chunk[i] != NEWLINE
  {}

  /** Stripping takes a newline at the end away. */
  lemma StripNewline(line: Str)
    requires forall i :: 0 <= i < |line| - 1 ==> line[i] != NEWLINE
    ensures NEWLINE !in RStrip(line)
  {
    var body := RStrip(line);
    hide RStrip;
    assert forall i :: 0 <= i < |body| ==> body[i] == line[i];
  }

  lemma LineBytes(pending: Str, text: Str, room: nat, b: byte)
    requires text != [] && room > 0 && b !in pending && (b == NEWLINE || b == 0)
    ensures b !in RStrip(UpToNul(pending + Fgets(text, room)))
  {
    hide Fgets, UpToNul, RStrip;
    var chunk := Fgets(text, room);
    var all := pending + chunk;
    var line := UpToNul(all);
    ChunkBytes(text, room);
    if b == NEWLINE {
      forall i | 0 <= i < |line| - 1 ensures line[i] != NEWLINE {
        assert line[i] == all[i];
        assert all[i] == if i < |pending| then pending[i] else chunk[i - |pending|];
      }
      StripNewline(line);
    } else {
      assert forall i :: 0 <= i < |RStrip(line)| ==> RStrip(line)[i] == line[i];
    }
  }

  lemma {:induction false} LoadKeeps(text: Str, st: Loader, b: byte)
    requires Roomy(st) && Without(st, b) && (b == NEWLINE || b == 0)
    ensures LoadFrom(text, st).Some? ==> AbsentFrom(LoadFrom(text, st).value, b)
    decreases |text|
  {
    if text != [] {
      RoundKeeps(text, st, b);
      hide LoadRound, Without;
      if LoadRound(text, st).Next? {
        LoadKeeps(LoadRound(text, st).rest, LoadRound(text, st).loader, b);
      }
    }
  }

  // ----- one section line -----

  lemma {:induction false} UntilShort(s: Str, stop: byte, more: Str)
    requires stop in s
    ensures |Until(s + more, {stop})| < |s| && stop !in Until(s + more, {stop})
  {
    if s[0] != stop {
      assert (s + more)[1..] == s[1..] + more;
      UntilShort(s[1..], stop, more);
    }
  }

  /** The name that a dumped section line gives when no section came before. */
  function ReadName(sec: Str): Str {
    Strlwc(Strip(Until(sec + [RBRACKET], {RBRACKET})), |sec| + 2)
  }

  lemma ReadLine(sec: Str)
    ensures IniLine(SectionLine(sec), []) == Section(ReadName(sec))
  {
    var line := SectionLine(sec);
    StripTrimmed(line);
    assert line[1..] == sec + [RBRACKET];
  }

  /** A name comes back from its line exactly when it is trimmed and has no closing bracket. */
  lemma NameExact(sec: Str)
    requires sec != [] && Lowercase(sec)
    ensures ReadName(sec) == sec <==> Trimmed(sec) && RBRACKET !in sec
  {
    var name := Until(sec + [RBRACKET], {RBRACKET});
    if RBRACKET in sec {
      UntilShort(sec, RBRACKET, [RBRACKET]);
      hide Until;
      NameKeeps(name, |sec| + 2, RBRACKET);
    } else {
      UntilStop(sec, {RBRACKET}, [RBRACKET]);
      StripPart(sec);
      StripLower(sec);
      if Trimmed(sec) {
        StripTrimmed(sec);
      }
      hide Until, Strip;
      LowerSame(Strip(sec), |sec| + 2);
    }
  }

  lemma StripLower(s: Str)
    requires Lowercase(s)
    ensures Lowercase(Strip(s))
  {
    var l := LStrip(s);
    assert Lowercase(l);
  }

  // ----- the dump of one section -----

  /** The slots hold one entry, the section. */
  predicate OnlySection(keys: Slots, vals: seq<Option<Str>>, sec: Str, at: nat) {
    |keys| == |vals| && at < |keys| && keys[at] == Some(sec) && COLON !in sec
    && forall i :: 0 <= i < |keys| && i != at ==> keys[i].None?
  }

  lemma {:induction false} NoneStored(keys: Slots, vals: seq<Option<Str>>, sec: Str)
    requires |keys| == |vals| && forall i :: 0 <= i < |keys| ==> keys[i].None?
    ensures Sections(keys) == [] && KeyLines(keys, vals, sec) == []
  {
    if keys != [] {
      NoneStored(keys[1..], vals[1..], sec);
    }
  }

  lemma {:induction false} OneStored(keys: Slots, vals: seq<Option<Str>>, sec: Str, at: nat)
    requires OnlySection(keys, vals, sec, at)
    ensures Sections(keys) == [sec] && KeyLines(keys, vals, sec) == []
    decreases |keys|
  {
    if at == 0 {
      NoneStored(keys[1..], vals[1..], sec);
    } else {
      OneStored(keys[1..], vals[1..], sec, at - 1);
    }
  }

  lemma OneDumped(keys: Slots, vals: seq<Option<Str>>, sec: Str, at: nat, missing: Str)
    requires OnlySection(keys, vals, sec, at)
    ensures var lines := if Strlwc(sec, ASCIILINESZ + 1) == sec then [[], SectionLine(sec), [], []] else [[]];
      DumpText(keys, vals, missing) == TextOf(lines)
  {
    hide KeyLines, Sections, Strlwc, TextOf;
    OneStored(keys, vals, sec, at);
    assert Some(Strlwc(sec, ASCIILINESZ + 1)) in keys <==> Strlwc(sec, ASCIILINESZ + 1) == sec;
    assert [[], SectionLine(sec)] + [] + [[]] == [[], SectionLine(sec), []];
    assert AllSections(keys, vals, [sec]) == SectionLines(keys, vals, sec) + AllSections(keys, vals, []);
    assert [[], SectionLine(sec), []] + [] + [[]] == [[], SectionLine(sec), [], []];
    var none: seq<Str> := [];
    assert none + none + [[]] == [[]];
  }

  const START := Loader([], [], map[], false)

  lemma LoadEmptyLine()
    ensures LoadText(TextOf([[]])) == Some(map[])
  {
    EmptyWhole();
    LoadLines([[]], START);
    EmptyStep(START);
  }

  lemma SectionWhole(sec: Str)
    requires NulFree(sec) && NEWLINE !in sec && |sec| + 2 < ASCIILINESZ - 1
    ensures WholeLine(SectionLine(sec)) && RStrip(SectionLine(sec)) == SectionLine(sec)
  {
    var line := SectionLine(sec);
    assert Trimmed(line);
    StripTrimmed(line);
    NulFreeConcat([LBRACKET], sec);
    NulFreeConcat([LBRACKET] + sec, [RBRACKET]);
  }

  /** A section line that is whole. */
  lemma LoadWholeLine(sec: Str)
    requires NulFree(sec) && NEWLINE !in sec && |sec| + 2 < ASCIILINESZ - 1
    ensures LoadText(TextOf([[], SectionLine(sec), [], []])) == Some(map[ReadName(sec) := None])
  {
    hide RStrip, ReadName, IniLine, WholeLine, LoadFrom, TextOf, Steps;
    var line := SectionLine(sec);
    SectionWhole(sec);
    EmptyWhole();
    ReadLine(sec);
    LoadLines([[], line, [], []], START);
    var t := START.(section := ReadName(sec), dict := map[ReadName(sec) := None]);
    assert LineStep(START, line) == t;
    StepsFour(line, t);
  }

  lemma StepsFour(line: Str, t: Loader)
    requires LineStep(START, line) == t
    ensures Steps(START, [[], line, [], []]) == t
  {
    hide Steps, LineStep;
    var none: seq<Str> := [];
    SkipEmpty(START);
    SkipEmpty(t);
    StepsCons(START, [], [line, [], []]);
    StepsCons(START, line, [[], []]);
    StepsCons(t, [], [[]]);
    StepsCons(t, [], none);
    StepsNone(t);
    assert [[]] + [line, [], []] == [[], line, [], []];
    assert [line] + [[], []] == [line, [], []];
    var two: seq<Str> := [[], []];
    assert [[]] + [[]] == two;
    assert [[]] + none == [[]];
  }

  lemma StepsNone(t: Loader)
    ensures Steps(t, []) == t
  {}

  lemma SkipEmpty(t: Loader)
    ensures LineStep(t, []) == t
  {}

  /** The text of a section line between empty ones. */
  lemma TextFour(line: Str)
    ensures TextOf([[], line, [], []]) == [] + [NEWLINE] + (line + [NEWLINE] + TextOf([[], []]))
  {
    assert [[], line, [], []][1..] == [line, [], []];
    assert [line, [], []][1..] == [[], []];
  }

  lemma LoadFromStep(text: Str, st: Loader)
    requires text != [] && Roomy(st)
    ensures var r := LoadRound(text, st);
      LoadFrom(text, st) == if r.TooLong? then None else LoadFrom(r.rest, r.loader)
  {}

  /** A section line that does not fit ends the load. */
  lemma LoadLongLine(sec: Str)
    requires NulFree(sec) && NEWLINE !in sec && |sec| + 2 >= ASCIILINESZ - 1
    ensures LoadText(TextOf([[], SectionLine(sec), [], []])) == None
  {
    hide LoadFrom, LoadRound, LineStep, TextOf;
    var line := SectionLine(sec);
    NulFreeConcat([LBRACKET], sec);
    NulFreeConcat([LBRACKET] + sec, [RBRACKET]);
    var rest := TextOf([[], []]);
    var text := line + [NEWLINE] + rest;
    TextFour(line);
    EmptyWhole();
    LoadLine([], text, START);
    SkipEmpty(START);
    LongRound(line, rest, START);
    LoadFromStep([] + [NEWLINE] + text, START);
    LoadFromStep(text, START);
  }

  lemma FgetsLong(line: Str, rest: Str, room: nat)
    requires NEWLINE !in line && |line| >= room > 0
    ensures Fgets(line + [NEWLINE] + rest, room) == line[..room]
  {
    UntilStop(line, {NEWLINE}, [NEWLINE] + rest);
    Assoc(line, [NEWLINE], rest);
    hide Until;
    assert (line + [NEWLINE] + rest)[..room] == line[..room];
  }

  lemma LongRound(line: Str, rest: Str, st: Loader)
    requires NulFree(line) && NEWLINE !in line && |line| >= ASCIILINESZ - 1 && st.pending == []
    ensures LoadRound(line + [NEWLINE] + rest, st) == TooLong
  {
    hide Fgets, UpToNul, RStrip, Process;
    var room := ASCIILINESZ - 1;
    var chunk := line[..room];
    FgetsLong(line, rest, room);
    assert [] + chunk == chunk;
    UpToNulIdentity(chunk);
  }

  /**
   * Dumping a dictionary of one section and loading the text gives that section back if and only if its name is
   * one that IniRoundTrip asks for: lower case, trimmed, without a closing bracket, a newline or a NUL, and short
   * enough for the line buffer.
   */
  lemma SectionExact(keys: Slots, vals: seq<Option<Str>>, sec: Str, at: nat, missing: Str)
    requires OnlySection(keys, vals, sec, at) && sec != []
    ensures LoadText(DumpText(keys, vals, missing)) == Some(map[sec := None]) <==> SectionName(sec)
  {
    hide LoadText, TextOf, DumpText, ReadName, LoadFrom;
    OneDumped(keys, vals, sec, at, missing);
    LowerExact(sec);
    hide Strlwc;
    if Strlwc(sec, ASCIILINESZ + 1) != sec {
      LoadEmptyLine();
      SingleEntry(sec, sec);
    } else {
      if NEWLINE in sec || 0 in sec {
        LoadNames(TextOf([[], SectionLine(sec), [], []]), if NEWLINE in sec then NEWLINE else 0);
        SingleEntry(sec, sec);
      } else if |sec| + 2 >= ASCIILINESZ - 1 {
        LoadLongLine(sec);
      } else {
        LoadWholeLine(sec);
        NameExact(sec);
        SingleEntry(ReadName(sec), sec);
      }
    }
  }

  lemma SingleEntry(a: Str, b: Str)
    ensures var x: Entries := map[a := None]; var y: Entries := map[b := None]; var z: Entries := map[];
      (x == y <==> a == b) && a in x && x != z
  {
    var x: Entries := map[a := None];
    var y: Entries := map[b := None];
    assert a in x && b in y;
  }

  lemma LowerExact(s: Str)
    ensures Strlwc(s, ASCIILINESZ + 1) == s <==> Lowercase(s) && |s| < ASCIILINESZ + 1
  {
    if Lowercase(s) && |s| < ASCIILINESZ + 1 {
      LowerSame(s, ASCIILINESZ + 1);
    }
  }

  lemma LoadNames(text: Str, b: byte)
    requires b == NEWLINE || b == 0
    ensures LoadText(text).Some? ==> AbsentFrom(LoadText(text).value, b)
  {
    hide LoadFrom;
    LoadKeeps(text, START, b);
  }

  lemma ReadShort()
    ensures ReadName([97, RBRACKET]) == [97]
  {
    hide Until, Strip, Strlwc;
    UntilStop([97], {RBRACKET}, [RBRACKET, RBRACKET]);
    assert [97] + [RBRACKET, RBRACKET] == [97, RBRACKET] + [RBRACKET];
    StripTrimmed([97]);
    LowerSame([97], 4);
  }

  /** A name that comes back shorter: of "a]" only "a" is read. */
  lemma SectionLost()
    ensures LoadText(DumpText([Some([97, RBRACKET])], [None], [])) == Some(map[[97] := None])
  {
    hide LoadText, TextOf, DumpText, ReadName, Strlwc;
    var sec: Str := [97, RBRACKET];
    OneDumped([Some(sec)], [None], sec, 0, []);
    LowerExact(sec);
    LoadWholeLine(sec);
    ReadShort();
  }

  /** A name that makes the loader give up: "a", a newline and "b". */
  lemma SectionRefused()
    ensures var sec: Str := [97, NEWLINE, 98];
      LoadText(DumpText([Some(sec)], [None], [])) == None
  {
    hide LoadText, TextOf, DumpText, Strlwc;
    var sec: Str := [97, NEWLINE, 98];
    OneDumped([Some(sec)], [None], sec, 0, []);
    LowerExact(sec);
    SplitText();
    BrokenLines();
  }

  lemma SplitText()
    ensures TextOf([[], SectionLine([97, NEWLINE, 98]), [], []])
         == TextOf([[], [LBRACKET, 97], [98, RBRACKET], [], []])
  {
    var end := TextOf([[], []]);
    TextFour(SectionLine([97, NEWLINE, 98]));
    assert [[], [LBRACKET, 97], [98, RBRACKET], [], []][1..] == [[LBRACKET, 97], [98, RBRACKET], [], []];
    assert [[LBRACKET, 97], [98, RBRACKET], [], []][1..] == [[98, RBRACKET], [], []];
    assert [[98, RBRACKET], [], []][1..] == [[], []];
    var text := [LBRACKET, 97] + [NEWLINE] + ([98, RBRACKET] + [NEWLINE] + end);
    assert TextOf([[98, RBRACKET], [], []]) == [98, RBRACKET] + [NEWLINE] + end;
    assert TextOf([[LBRACKET, 97], [98, RBRACKET], [], []]) == text;
    assert TextOf([[], [LBRACKET, 97], [98, RBRACKET], [], []]) == [] + [NEWLINE] + text;
    assert text == SectionLine([97, NEWLINE, 98]) + [NEWLINE] + end;
  }

  lemma {:induction false} FailedStays(st: Loader, lines: seq<Str>)
    requires st.failed
    ensures Steps(st, lines).failed
    decreases |lines|
  {
    if lines != [] {
      hide IniLine, RStrip;
      FailedStays(LineStep(st, lines[0]), lines[1..]);
    }
  }

  /** A bracket that is not closed on its line, and no equals sign. */
  lemma OpenBracket(st: Loader)
    ensures WholeLine([LBRACKET, 97]) && LineStep(st, [LBRACKET, 97]).failed
  {
    var l: Str := [LBRACKET, 97];
    StripTrimmed(l);
    UntilStop(l, {EQUALS}, []);
    assert l + [] == l;
    hide Until, Strip, RStrip;
    assert KeyEquals(l) == None;
  }

  lemma BrokenLines()
    ensures LoadText(TextOf([[], [LBRACKET, 97], [98, RBRACKET], [], []])) == None
  {
    hide LoadFrom, TextOf, Steps, LineStep, WholeLine;
    var lines: seq<Str> := [[], [LBRACKET, 97], [98, RBRACKET], [], []];
    OpenBracket(START);
    LastLine();
    EmptyWhole();
    LoadLines(lines, START);
    SkipEmpty(START);
    StepsCons(START, [], lines[1..]);
    StepsCons(START, [LBRACKET, 97], lines[2..]);
    assert [[]] + lines[1..] == lines && [[LBRACKET, 97]] + lines[2..] == lines[1..];
    FailedStays(LineStep(START, [LBRACKET, 97]), lines[2..]);
  }

  lemma LastLine()
    ensures WholeLine([98, RBRACKET])
  {
    StripTrimmed([98, RBRACKET]);
  }
}
