/** iniparser as it runs: loops over the dictionary's slots, and a loop over the lines of a file. */
module Ini {
  import opened Bytes
  import opened Dictionaries
  import opened IniText
  import opened IniDump
  import IniRoundTrip

  /** The first scan of strstrip: over the blanks in front. */
  method SkipBlanks(s: array<byte>) returns (first: nat)
    requires CString(s[..])
    ensures first < s.Length && s[first..s.Length - 1] == LStrip(s[..s.Length - 1])
  {
    hide LStrip;
    first := 0;
    ghost var end := s.Length - 1;
    assert s[..][end] == s[end] == 0;
    assert s[0..end] == s[..end];
    while s[first] != 0 && IsSpace(s[first])
      invariant first <= end && LStrip(s[first..end]) == LStrip(s[..end])
      decreases end - first
    {
      LStripStep(s[first..end]);
      assert s[first..end][1..] == s[first + 1..end];
      first := first + 1;
    }
    LStripStep(s[first..end]);
  }

  /** The second scan: back over the blanks behind. */
  method DropBlanks(s: array<byte>, first: nat, end: nat) returns (last: nat)
    requires first <= end < s.Length
    ensures first <= last <= end && s[first..last] == RStrip(s[first..end])
  {
    hide RStrip;
    last := end;
    while last > first && IsSpace(s[last - 1])
      invariant first <= last <= end && RStrip(s[first..last]) == RStrip(s[first..end])
    {
      RStripStep(s[first..last]);
      assert s[first..last][..last - first - 1] == s[first..last - 1];
      last := last - 1;
    }
    RStripStep(s[first..last]);
  }

  /** strstrip on a C string that fills `s` up to its NUL: blanks at both ends go, and the rest moves to the front. */
  method Strstrip(s: array<byte>) returns (len: nat)
    requires CString(s[..])
    modifies s
    ensures len < s.Length && s[..len] == Strip(old(s[..s.Length - 1])) && s[len] == 0
  {
    hide LStrip, RStrip;
    var first := SkipBlanks(s);
    var last := DropBlanks(s, first, s.Length - 1);
    ghost var text := s[first..last];
    len := last - first;
    s[last] := 0;
    ShiftDown(s, first, len, text);
  }

  /** The copy of a string and its NUL to the start of the buffer it is part of. */
  method ShiftDown(s: array<byte>, first: nat, len: nat, ghost text: seq<byte>)
    requires first + len < s.Length && s[first..first + len] == text && s[first + len] == 0
    modifies s
    ensures s[..len] == text && s[len] == 0
  {
    ghost var last := first + len;
    var i := 0;
    while i <= len
      invariant 0 <= i <= len + 1
      invariant forall j :: 0 <= j < i ==> s[j] == if j < len then text[j] else 0
      invariant forall p :: first + i <= p <= last ==> s[p] == if p < last then text[p - first] else 0
    {
      s[i] := s[first + i];
      i := i + 1;
    }
  }

  /** strlwc in place (input and output are the same buffer): at most len - 1 characters, then a NUL. */
  method Strlwc(s: array<byte>, len: nat)
    requires CString(s[..]) && 0 < len <= s.Length
    modifies s
    ensures var r := IniText.Strlwc(old(s[..s.Length - 1]), len); |r| < s.Length && s[..|r|] == r && s[|r|] == 0
  {
    var i := 0;
    assert s[..][s.Length - 1] == s[s.Length - 1] == 0;
    while s[i] != 0 && i < len - 1
      decreases len - i
      invariant 0 <= i <= len - 1 && i <= s.Length - 1
      invariant forall j :: 0 <= j < i ==> s[j] == ToLower(old(s[j]))
      invariant forall j :: i <= j < s.Length ==> s[j] == old(s[j])
    {
      s[i] := ToLower(s[i]);
      i := i + 1;
    }
    s[i] := 0;
  }

  /** iniparser_getnsec */
  method GetNSec(d: Dictionary) returns (nsec: nat)
    requires d.Valid()
    ensures nsec == |Sections(d.key[..])|
  {
    hide Represents, Count;
    var i := 0;
    nsec := 0;
    assert d.key[0..] == d.key[..];
    while i < d.size
      invariant 0 <= i <= d.size
      invariant nsec + |Sections(d.key[i..])| == |Sections(d.key[..])|
    {
      assert d.key[i..][1..] == d.key[i + 1..];
      if d.key[i].Some? && !HasColon(d.key[i].value) {
        nsec := nsec + 1;
      }
      i := i + 1;
    }
  }

  /** iniparser_getsecname */
  method GetSecName(d: Dictionary, n: int) returns (name: Option<Str>)
    requires d.Valid()
    ensures var secs := Sections(d.key[..]); name == if 0 <= n < |secs| then Some(secs[n]) else None
  {
    hide Represents, Count, Sections;
    if n < 0 {
      return None;
    }
    var i, found := 0, 0;
    ghost var keys, secs := d.key[..], Sections(d.key[..]);
    assert keys[0..] == keys;
    while i < d.size
      invariant 0 <= i <= d.size == |keys| && 0 <= found <= n && found <= |secs| && d.key[..] == keys
      invariant Sections(keys[i..]) == secs[found..]
    {
      NextSection(keys, i);
      if d.key[i].Some? && !HasColon(d.key[i].value) {
        found := found + 1;
        if found > n {
          return d.key[i];
        }
      }
      i := i + 1;
    }
    NoSections(keys[i..]);
    return None;
  }

  lemma NextSection(keys: Slots, i: nat)
    requires i < |keys|
    ensures var rest := Sections(keys[i + 1..]);
      Sections(keys[i..]) == if keys[i].Some? && !HasColon(keys[i].value) then [keys[i].value] + rest else rest
  {
    assert keys[i..][1..] == keys[i + 1..];
  }

  lemma NoSections(keys: Slots)
    requires keys == []
    ensures Sections(keys) == []
  {}

  /** iniparser_find_entry: the name is looked up in lower case. */
  method FindEntry(d: Dictionary, entry: Str) returns (found: bool)
    requires d.Valid()
    ensures found <==> IniText.Strlwc(entry, ASCIILINESZ + 1) in d.contents
  {
    var i := d.FindSlot(IniText.Strlwc(entry, ASCIILINESZ + 1));
    found := i < d.size;
  }

  /** iniparser_dumpsection_ini */
  method DumpSection(d: Dictionary, sec: Str) returns (text: Str)
    requires d.Valid()
    ensures text == TextOf(SectionLines(d.key[..], d.val[..], sec))
  {
    hide Count, KeyLine, IniText.Strlwc, Represents, KeyLines, TextOf, SectionLine;
    ghost var keys, vals := d.key[..], d.val[..];
    var found := FindEntry(d, sec);
    EntryInSlots(d, IniText.Strlwc(sec, ASCIILINESZ + 1));
    if !found {
      TextOfNone();
      return [];
    }
    ghost var all := KeyLines(keys, vals, sec);
    SectionText(SectionLine(sec), all);
    text := [NEWLINE] + SectionLine(sec) + [NEWLINE];
    ghost var head := text;
    var j := 0;
    assert keys[0..] == keys && vals[0..] == vals;
    while j < d.size
      invariant 0 <= j <= d.size && d.key[..] == keys && d.val[..] == vals
      invariant text + TextOf(KeyLines(keys[j..], vals[j..], sec)) == head + TextOf(all)
    {
      KeyLinesAt(keys, vals, sec, j);
      if InSection(d.key[j], sec) {
        var line := KeyLine(d.key[j].value[|sec| + 1..], d.val[j]);
        LineText(text, line, KeyLines(keys[j + 1..], vals[j + 1..], sec));
        text := text + (line + [NEWLINE]);
      }
      j := j + 1;
    }
    KeyLinesEnd(keys, vals, sec);
    assert text + [] == text;
    text := text + [NEWLINE];
  }

  lemma TextOfNone()
    ensures TextOf([]) == []
  {}

  lemma LineText(text: Str, line: Str, rest: seq<Str>)
    ensures text + TextOf([line] + rest) == text + (line + [NEWLINE]) + TextOf(rest)
  {
    assert ([line] + rest)[1..] == rest;
    Assoc(text, line + [NEWLINE], TextOf(rest));
  }

  lemma KeyLinesEnd(keys: Slots, vals: seq<Option<Str>>, sec: Str)
    requires |keys| == |vals|
    ensures TextOf(KeyLines(keys[|keys|..], vals[|keys|..], sec)) == []
  {}

  lemma EntryInSlots(d: Dictionary, k: Str)
    requires d.Valid()
    ensures k in d.contents <==> Some(k) in d.key[..]
  {
    hide Count;
  }

  lemma KeyLinesAt(keys: Slots, vals: seq<Option<Str>>, sec: Str, j: nat)
    requires j < |keys| == |vals|
    ensures var rest := KeyLines(keys[j + 1..], vals[j + 1..], sec);
      KeyLines(keys[j..], vals[j..], sec) ==
      if InSection(keys[j], sec) then [KeyLine(keys[j].value[|sec| + 1..], vals[j])] + rest else rest
  {
    hide KeyLine;
    assert keys[j..][1..] == keys[j + 1..] && vals[j..][1..] == vals[j + 1..];
  }

  lemma SectionText(line: Str, lines: seq<Str>)
    ensures TextOf([[], line] + lines + [[]]) == [NEWLINE] + line + [NEWLINE] + TextOf(lines) + [NEWLINE]
  {
    TextOfConcat([[], line] + lines, [[]]);
    TextOfConcat([[], line], lines);
    var empty: Str := [];
    assert [empty, line][1..] == [line];
    assert TextOf([line]) == line + [NEWLINE];
    assert TextOf([empty, line]) == [NEWLINE] + line + [NEWLINE];
    assert TextOf([empty]) == [NEWLINE];
  }

  /** iniparser_dump_ini; `missing` is what printf writes for a NULL string. */
  method Dump(d: Dictionary, missing: Str) returns (text: Str)
    requires d.Valid()
    ensures text == DumpText(d.key[..], d.val[..], missing)
  {
    hide Represents, Count, AllSections, FlatLines, Sections, TextOf, SectionLines;
    ghost var keys, vals := d.key[..], d.val[..];
    var nsec := GetNSec(d);
    if nsec < 1 {
      text := DumpFlat(d, missing);
      return;
    }
    ghost var secs := Sections(keys);
    text := [];
    var i := 0;
    assert secs[0..] == secs;
    while i < nsec
      invariant 0 <= i <= nsec == |secs| && d.key[..] == keys && d.val[..] == vals
      invariant text + TextOf(AllSections(keys, vals, secs[i..])) == TextOf(AllSections(keys, vals, secs))
    {
      var name := GetSecName(d, i);
      var part := DumpSection(d, name.value);
      SectionsAt(keys, vals, secs, i);
      Assoc(text, part, TextOf(AllSections(keys, vals, secs[i + 1..])));
      text := text + part;
      i := i + 1;
    }
    DumpEnd(keys, vals, secs);
    TextOfNone();
    assert text + [] == text;
    text := text + [NEWLINE];
  }

  lemma SectionsAt(keys: Slots, vals: seq<Option<Str>>, secs: seq<Str>, i: nat)
    requires |keys| == |vals| && i < |secs|
    ensures TextOf(AllSections(keys, vals, secs[i..]))
         == TextOf(SectionLines(keys, vals, secs[i])) + TextOf(AllSections(keys, vals, secs[i + 1..]))
  {
    assert secs[i..][1..] == secs[i + 1..];
    TextOfConcat(SectionLines(keys, vals, secs[i]), AllSections(keys, vals, secs[i + 1..]));
  }

  lemma DumpEnd(keys: Slots, vals: seq<Option<Str>>, secs: seq<Str>)
    requires |keys| == |vals|
    ensures AllSections(keys, vals, secs[|secs|..]) == []
    ensures TextOf(AllSections(keys, vals, secs) + [[]]) == TextOf(AllSections(keys, vals, secs)) + [NEWLINE]
  {
    hide SectionLines;
    TextOfConcat(AllSections(keys, vals, secs), [[]]);
    var empty: Str := [];
    assert TextOf([empty]) == [NEWLINE];
  }

  method DumpFlat(d: Dictionary, missing: Str) returns (text: Str)
    requires d.Valid()
    ensures text == TextOf(FlatLines(d.key[..], d.val[..], missing))
  {
    hide Represents, Count;
    ghost var keys, vals := d.key[..], d.val[..];
    ghost var goal := TextOf(FlatLines(keys, vals, missing));
    text := [];
    var i := 0;
    assert keys[0..] == keys && vals[0..] == vals;
    assert [] + goal == goal;
    while i < d.size
      invariant 0 <= i <= d.size && d.key[..] == keys && d.val[..] == vals
      invariant text + TextOf(FlatLines(keys[i..], vals[i..], missing)) == goal
    {
      assert keys[i..][1..] == keys[i + 1..] && vals[i..][1..] == vals[i + 1..];
      ghost var rest := FlatLines(keys[i + 1..], vals[i + 1..], missing);
      if d.key[i].Some? {
        var line := d.key[i].value + [SPACE, EQUALS, SPACE] + (if d.val[i].Some? then d.val[i].value else missing);
        assert ([line] + rest)[1..] == rest;
        Assoc(text, line + [NEWLINE], TextOf(rest));
        text := text + (line + [NEWLINE]);
      }
      i := i + 1;
    }
  }

  /** iniparser_load: the lines of `text` into a new dictionary; null when a line is too long or malformed. */
  method Load(text: Str, hashOf: Str -> nat) returns (dict: Dictionary?)
    ensures dict != null ==> fresh(dict) && dict.Valid()
    ensures LoadText(text) == if dict != null then Some(dict.contents) else None
  {
    hide Represents, Count, LoadRound, Process;
    var d := new Dictionary(0, hashOf);
    var rest, pending, section, failed := text, [], [], false;
    while rest != []
      invariant d.Valid() && fresh(d) && fresh(d.key) && fresh(d.val) && fresh(d.hash)
      invariant Roomy(Loader(pending, section, d.contents, failed))
      invariant LoadFrom(rest, Loader(pending, section, d.contents, failed)) == LoadText(text)
      decreases |rest|
    {
      ghost var before := Loader(pending, section, d.contents, failed);
      ghost var round := LoadRound(rest, before);
      assert LoadFrom(rest, before) == if round.TooLong? then None else LoadFrom(round.rest, round.loader);
      hide LoadFrom;
      var tooLong;
      rest, pending, section, failed, tooLong := OneLine(d, rest, pending, section, failed);
      if tooLong {
        return null;
      }
    }
    return if failed then null else d;
  }

  /** One round of that loop. */
  method OneLine(d: Dictionary, text: Str, pending: Str, section: Str, failed: bool)
    returns (rest: Str, pending': Str, section': Str, failed': bool, tooLong: bool)
    requires d.Valid() && text != [] && Roomy(Loader(pending, section, d.contents, failed))
    modifies d, d.key, d.val, d.hash
    ensures d.Valid() && (d.key == old(d.key) || fresh(d.key))
    ensures (d.val == old(d.val) || fresh(d.val)) && (d.hash == old(d.hash) || fresh(d.hash))
    ensures LoadRound(text, Loader(pending, section, old(d.contents), failed))
         == if tooLong then TooLong else Next(rest, Loader(pending', section', d.contents, failed'))
  {
    hide Represents, Count, Fgets, RStrip, IniLine, UpToNul;
    var room := ASCIILINESZ - 1 - |pending|;
    var chunk := Fgets(text, room);
    var line := UpToNul(pending + chunk);
    rest, pending', section', failed', tooLong := text[|chunk|..], pending, section, failed, false;
    if |line| <= 1 {
      return;
    }
    if line[|line| - 1] != NEWLINE && !AtEof(chunk, rest, room) {
      tooLong := true;
      return;
    }
    var body := RStrip(line);
    if body != [] && body[|body| - 1] == BACKSLASH {
      pending' := body[..|body| - 1];
      return;
    }
    pending' := [];
    match IniLine(body, section) {
      case Empty =>
      case Comment =>
      case Section(name) =>
        section' := name;
        d.Set(name, None);
      case Value(k, v) => d.Set(section + [COLON] + k, Some(v));
      case Error => failed' := true;
    }
  }

  /** The slots of a dictionary hold its entries, and all of them. */
  lemma SlotsHold(d: Dictionary)
    requires d.Valid()
    ensures IniRoundTrip.Holds(d.key[..], d.val[..], d.contents)
    ensures forall k :: k in d.contents ==> Some(k) in d.key[..]
  {}

  /** iniparser_dump_ini into a file and iniparser_load of that file, with any two hash functions. */
  method DumpThenLoad(d: Dictionary, missing: Str, hashOf: Str -> nat) returns (copy: Dictionary)
    requires d.Valid() && IniRoundTrip.Dumpable(d.contents)
    ensures fresh(copy) && copy.Valid()
    ensures copy.contents == map k | k in d.contents :: IniRoundTrip.Normal(k, d.contents[k])
  {
    hide LoadText, DumpText, IniRoundTrip.Dumpable, Represents, Count;
    SlotsHold(d);
    IniRoundTrip.IniRoundTrip(d.key[..], d.val[..], d.contents, missing);
    var text := Dump(d, missing);
    var loaded := Load(text, hashOf);
    copy := loaded;
  }
}
