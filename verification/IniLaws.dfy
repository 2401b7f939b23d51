/**
 * What iniparser_load does with a line, said of the bytes of the line alone: which lines change nothing, which enter a
 * section, which set a key and to what, and which make the load fail.
 */
module IniLaws {
  import opened Bytes
  import opened Dictionaries
  import opened IniText
  import opened IniDump
  import opened IniRoundTrip
  import opened IniSections

  // ----- lines -----

  predicate White(b: byte) { b == 32 || b == 9 || b == 10 || b == 11 || b == 12 || b == 13 }

  predicate Blanks(s: Str) { forall i :: 0 <= i < |s| ==> White(s[i]) }

  /** No blank at either end. */
  predicate Core(s: Str) { s != [] && !White(s[0]) && !White(s[|s| - 1]) }

  /** A line that fits the buffer of the loader. */
  predicate Fits(l: Str) { NulFree(l) && 10 !in l && |l| <= 1022 }

  /** A line with the blanks around it. A backslash at its end would join it with the next one. */
  predicate LineOf(pre: Str, s: Str, post: Str) {
    Blanks(pre) && Core(s) && Blanks(post) && Fits(pre + s + post) && s[|s| - 1] != 92
  }

  predicate Between(st: Loader) { st.pending == [] }

  function Lower(s: Str): (r: Str)
    ensures |r| == |s|
  {
    seq(|s|, i requires 0 <= i < |s| => if 65 <= s[i] <= 90 then s[i] + 32 else s[i])
  }

  /** 'A' to 'Z' become 'a' to 'z' and every other byte stays. */
  lemma LowerTable(s: Str)
    ensures LowerAll(s) == Lower(s)
  {}

  lemma WhiteIsSpace(b: byte)
    ensures White(b) <==> IsSpace(b)
  {}

  lemma {:induction false} LStripBlanks(pre: Str, s: Str)
    requires Blanks(pre) && (s != [] ==> !White(s[0]))
    ensures LStrip(pre + s) == s
  {
    if pre == [] {
      assert pre + s == s;
    } else {
      assert (pre + s)[1..] == pre[1..] + s;
      LStripBlanks(pre[1..], s);
    }
  }

  lemma CoreStrip(pre: Str, s: Str, post: Str)
    requires Blanks(pre) && Core(s) && Blanks(post)
    ensures RStrip(pre + s + post) == pre + s && Strip(pre + s) == s && Strip(pre + s + post) == s
  {
    hide RStrip, LStrip;
    RStripBlanks(pre + s, post);
    LStripBlanks(pre, s);
    RStripBlanks(s, []);
    RStripBlanks(s, post);
    assert s + [] == s;
    Assoc(pre, s, post);
    LStripBlanks(pre, s + post);
  }

  lemma BlanksStrip(l: Str)
    requires Blanks(l)
    ensures RStrip(l) == []
  {
    RStripBlanks([], l);
    assert [] + l == l;
  }

  lemma NoBlanks()
    ensures Blanks([])
  {}

  /** A whole line is one step of the loader. */
  lemma LineRead(st: Loader, pre: Str, s: Str, post: Str, rest: Str)
    requires Between(st) && LineOf(pre, s, post)
    ensures Process(st, pre + s).pending == []
    ensures LoadFrom(pre + s + post + [10] + rest, st) == LoadFrom(rest, Process(st, pre + s))
  {
    hide RStrip, Process, LoadRound, LoadFrom, Strip;
    var l := pre + s + post;
    CoreStrip(pre, s, post);
    assert RStrip(l)[|RStrip(l)| - 1] == s[|s| - 1];
    LoadLine(l, rest, st);
    LoadFromStep(l + [10] + rest, st);
  }

  // ----- lines that change nothing -----

  lemma BlankLine(st: Loader, l: Str, rest: Str)
    requires Between(st) && Blanks(l) && Fits(l)
    ensures LoadFrom(l + [10] + rest, st) == LoadFrom(rest, st)
  {
    hide RStrip, LoadRound, LoadFrom, Until;
    BlanksStrip(l);
    LoadLine(l, rest, st);
    LoadFromStep(l + [10] + rest, st);
    StripNone();
  }

  lemma StripNone()
    ensures Strip([]) == [] && RStrip([]) == []
  {}

  lemma CommentLine(st: Loader, pre: Str, s: Str, post: Str, rest: Str)
    requires Between(st) && LineOf(pre, s, post) && (s[0] == 35 || s[0] == 59)
    ensures LoadFrom(pre + s + post + [10] + rest, st) == LoadFrom(rest, st)
  {
    hide RStrip, LStrip, LoadFrom, Until, Strip;
    LineRead(st, pre, s, post, rest);
    CoreStrip(pre, s, post);
    assert Process(st, pre + s) == st;
  }

  // ----- sections -----

  /** "[name]" with blanks inside the brackets, and perhaps more behind them that ends in a bracket too. */
  lemma SectionLaw(st: Loader, pre: Str, lead: Str, name: Str, trail: Str, tail: Str, post: Str, rest: Str)
    requires Between(st) && Blanks(lead) && Blanks(trail) && (name == [] || Core(name))
    requires lead + name + trail != [] && 93 !in lead + name + trail && (tail != [] ==> tail[|tail| - 1] == 93)
    requires LineOf(pre, [91] + (lead + name + trail + ([93] + tail)), post)
    ensures LoadFrom(pre + ([91] + (lead + name + trail + ([93] + tail))) + post + [10] + rest, st)
         == LoadFrom(rest, st.(section := Lower(name), dict := st.dict[Lower(name) := None]))
  {
    hide RStrip, LStrip, LoadFrom, Until, Strip, Lower;
    var inner := lead + name + trail;
    var s := [91] + (inner + ([93] + tail));
    LineRead(st, pre, s, post, rest);
    CoreStrip(pre, s, post);
    assert s[1..] == inner + ([93] + tail);
    UntilStop(inner, {RBRACKET}, [93] + tail);
    InnerName(lead, name, trail);
    LowerTable(name);
    assert s[|s| - 1] == 93;
    assert |name| < |s|;
  }

  lemma InnerName(lead: Str, name: Str, trail: Str)
    requires Blanks(lead) && Blanks(trail) && (name == [] || Core(name))
    ensures Strip(lead + name + trail) == name
  {
    if name == [] {
      hide RStrip, LStrip;
      assert Blanks(lead + trail);
      assert lead + name + trail == (lead + trail) + [];
      LStripBlanks(lead + trail, []);
      StripNone();
    } else {
      CoreStrip(lead, name, trail);
    }
  }

  /** "[]" leaves the section name, but cuts it to a byte less than the line has. */
  lemma EmptyBrackets(st: Loader, pre: Str, tail: Str, post: Str, rest: Str)
    requires Between(st) && (st.section == [] || Core(st.section)) && (tail != [] ==> tail[|tail| - 1] == 93)
    requires LineOf(pre, [91, 93] + tail, post)
    ensures var n := 1 + |tail|; var name := Lower(if |st.section| <= n then st.section else st.section[..n]);
      LoadFrom(pre + ([91, 93] + tail) + post + [10] + rest, st)
      == LoadFrom(rest, st.(section := name, dict := st.dict[name := None]))
  {
    hide RStrip, LStrip, LoadFrom, Until, Strip, Lower, IniLine;
    var s := [91, 93] + tail;
    LineRead(st, pre, s, post, rest);
    CoreStrip(pre, s, post);
    InnerName([], st.section, []);
    assert [] + st.section + [] == st.section;
    BracketsRead(pre + s, tail, st.section);
  }

  lemma BracketsRead(line: Str, tail: Str, section: Str)
    requires Strip(line) == [91, 93] + tail && (tail != [] ==> tail[|tail| - 1] == 93) && Strip(section) == section
    ensures var n := 1 + |tail|;
      IniLine(line, section) == Section(Lower(if |section| <= n then section else section[..n]))
  {
    hide LStrip, RStrip, Until, Strip, Lower;
    var s := [91, 93] + tail;
    assert s[1..] == [] + ([93] + tail);
    UntilStop([], {RBRACKET}, [93] + tail);
    assert s[|s| - 1] == 93;
    LowerTable(if |section| <= 1 + |tail| then section else section[..1 + |tail|]);
  }

  // ----- keys -----

  /** What stands behind the equals sign: a value in quotes, a value as it is, or nothing, and then a comment. */
  datatype Form =
    | Quoted(quote: byte, text: Str, tail: Str)
    | Plain(text: Str, gap: Str, tail: Str)
    | Nothing(tail: Str)

  function FormText(f: Form): Str {
    match f
    case Quoted(q, text, tail) => [q] + (text + tail)
    case Plain(text, gap, tail) => text + (gap + tail)
    case Nothing(tail) => tail
  }

  predicate Remark(tail: Str) { tail == [] || tail[0] == 35 || tail[0] == 59 }

  /**
   * A quoted value goes to the next quote of its kind, or to the end of the line when there is none. A plain value
   * goes to the comment; it may start with a quote only where a quoted one would be empty.
   */
  predicate ValidForm(f: Form) {
    match f
    case Quoted(q, text, tail) =>
      (q == 34 || q == 39) && text != [] && q !in text && (tail == [] || tail[0] == q)
    case Plain(text, gap, tail) =>
      && Core(text) && 35 !in text && 59 !in text && Blanks(gap) && Remark(tail) && (tail == [] ==> gap == [])
      && (text[0] == 34 || text[0] == 39 ==> if |text| > 1 then text[1] == text[0] else gap + tail == [])
    case Nothing(tail) => Remark(tail)
  }

  /** The value that is set: a quoted one with its blanks, and '' and "" stand for the empty one. */
  function FormValue(f: Form): Str {
    match f
    case Quoted(_, text, _) => text
    case Plain(text, _, _) => if text == [34, 34] || text == [39, 39] then [] else text
    case Nothing(_) => []
  }

  /** "key = value" */
  function Assignment(key: Str, mid: Str, gap: Str, f: Form): Str {
    key + mid + ([61] + (gap + FormText(f)))
  }

  predicate ValidKey(key: Str, mid: Str, gap: Str) {
    Core(key) && 61 !in key && key[0] != 35 && key[0] != 59 && Blanks(mid) && Blanks(gap)
  }

  predicate Bracketed(s: Str) { s != [] && s[0] == 91 && s[|s| - 1] == 93 }

  /** A line that sets a key, in the section it stands in. */
  lemma KeyLaw(st: Loader, pre: Str, key: Str, mid: Str, gap: Str, f: Form, post: Str, rest: Str)
    requires Between(st) && ValidKey(key, mid, gap) && ValidForm(f)
    requires LineOf(pre, Assignment(key, mid, gap, f), post) && !Bracketed(Assignment(key, mid, gap, f))
    ensures LoadFrom(pre + Assignment(key, mid, gap, f) + post + [10] + rest, st)
         == LoadFrom(rest, st.(dict := st.dict[st.section + [58] + Lower(key) := Some(FormValue(f))]))
  {
    hide RStrip, LStrip, LoadFrom, Until, Strip, Lower, Assignment, ValidForm, FormValue, Blanks, IniLine;
    var s := Assignment(key, mid, gap, f);
    LineRead(st, pre, s, post, rest);
    CoreStrip(pre, s, post);
    KeyRead(pre + s, key, mid, gap, f, st.section);
  }

  lemma KeyRead(line: Str, key: Str, mid: Str, gap: Str, f: Form, section: Str)
    requires ValidKey(key, mid, gap) && ValidForm(f)
    requires var s := Assignment(key, mid, gap, f); Strip(line) == s && !Bracketed(s)
    ensures IniLine(line, section) == Value(Lower(key), FormValue(f))
  {
    hide RStrip, LStrip, Until, Strip, Lower, FormText, ValidForm, FormValue, Blanks, Strlwc, KeyEquals, ScanQuoted;
    var s := Assignment(key, mid, gap, f);
    assert s[0] == key[0];
    EqualsRead(key, mid, gap, f);
    KeyName(key, mid, |s|);
    match f
    case Quoted(q, text, tail) => QuotedRead(s, key + mid, q, text, tail);
    case Plain(_, _, _) => PlainRead(s, key + mid, f);
    case Nothing(_) => NothingRead(s, key + mid, f);
  }

  lemma QuotedRead(s: Str, k: Str, q: byte, text: Str, tail: Str)
    requires KeyEquals(s) == Some(Pair(k, FormText(Quoted(q, text, tail)))) && ValidForm(Quoted(q, text, tail))
    ensures QuotedValue(s) == Some(Pair(k, text)) && text == FormValue(Quoted(q, text, tail))
  {
    hide KeyEquals, Until;
    var y := [q] + (text + tail);
    assert y[1..] == text + tail;
    UntilStop(text, {q}, tail);
  }

  lemma PlainRead(s: Str, k: Str, f: Form)
    requires f.Plain? && ValidForm(f) && KeyEquals(s) == Some(Pair(k, FormText(f)))
    ensures QuotedValue(s) == None && ScanPlain(s).Some? && ScanPlain(s).value.key == k
    ensures PlainValue(Strip(ScanPlain(s).value.value)) == FormValue(f)
  {
    hide KeyEquals, Until, Strip, Blanks;
    var y := FormText(f);
    assert y == f.text + f.gap + f.tail;
    PlainUntilRemark(f);
    QuoteCloses(f, 34);
    QuoteCloses(f, 39);
    assert [] + f.text + f.gap == f.text + f.gap;
    CoreStrip([], f.text, f.gap) by { NoBlanks(); }
  }

  lemma PlainUntilRemark(f: Form)
    requires f.Plain? && ValidForm(f)
    ensures Until(f.text + f.gap + f.tail, {59, 35}) == f.text + f.gap
  {
    hide Until;
    UntilStop(f.text + f.gap, {59, 35}, f.tail);
  }

  lemma QuoteCloses(f: Form, q: byte)
    requires f.Plain? && ValidForm(f) && (q == 34 || q == 39)
    ensures var y := FormText(f); y != [] && (y[0] == q ==> Until(y[1..], {q}) == [])
  {
    var y := FormText(f);
    assert |f.text| > 1 ==> y[1..][0] == f.text[1];
  }

  lemma NothingRead(s: Str, k: Str, f: Form)
    requires f.Nothing? && ValidForm(f) && KeyEquals(s) == Some(Pair(k, FormText(f)))
    ensures QuotedValue(s) == None && ScanPlain(s) == None && ScanEmpty(s) == Some(k) && FormValue(f) == []
  {
    hide KeyEquals;
  }

  lemma FormHead(f: Form)
    requires ValidForm(f)
    ensures FormText(f) != [] ==> !White(FormText(f)[0])
  {}

  lemma EqualsRead(key: Str, mid: Str, gap: Str, f: Form)
    requires ValidKey(key, mid, gap) && ValidForm(f)
    ensures KeyEquals(Assignment(key, mid, gap, f)) == Some(Pair(key + mid, FormText(f)))
  {
    hide KeyEquals, LStrip, FormText, ValidForm;
    assert forall b :: b in mid ==> White(b);
    assert 61 !in key + mid;
    EqualsAt(key + mid, gap + FormText(f));
    FormHead(f);
    LStripBlanks(gap, FormText(f));
  }

  lemma KeyName(key: Str, mid: Str, n: nat)
    requires Core(key) && Blanks(mid) && |key| < n
    ensures Strlwc(Strip(key + mid), n) == Lower(key)
  {
    hide Strip, Lower, Blanks;
    assert [] + key + mid == key + mid;
    CoreStrip([], key, mid) by { NoBlanks(); }
    LowerTable(key);
  }

  // ----- lines that make the load fail -----

  /** Not a comment, not a section, and without a key in front of an equals sign. */
  predicate Malformed(s: Str) {
    s != [] && s[0] != 35 && s[0] != 59 && !Bracketed(s) && (s[0] == 61 || 61 !in s)
  }

  lemma MalformedRead(line: Str, s: Str, section: Str)
    requires Strip(line) == s && s != []
    ensures IniLine(line, section).Error? <==> Malformed(s)
  {
    hide Strip, Until, Strlwc, LStrip, ScanPlain, ScanQuoted;
    EqualsExact(s);
    ScansNeedKey(s);
  }

  lemma EqualsExact(s: Str)
    requires s != []
    ensures KeyEquals(s).Some? <==> s[0] != 61 && 61 in s
  {
    hide LStrip;
    var key := Until(s, {EQUALS});
    assert |key| == |s| ==> key == s;
  }

  lemma ScansNeedKey(s: Str)
    ensures KeyEquals(s).None? ==> QuotedValue(s) == None && ScanPlain(s) == None && ScanEmpty(s) == None
    ensures KeyEquals(s).Some? ==> ScanEmpty(s).Some?
  {
    hide KeyEquals;
  }

  lemma FailedRound(text: Str, st: Loader)
    requires text != [] && Roomy(st) && st.failed
    ensures LoadRound(text, st).Next? ==> LoadRound(text, st).loader.failed
  {
    hide Fgets, RStrip, IniLine, UpToNul;
  }

  /** Once a line has failed, whatever follows, the load gives nothing. */
  lemma {:induction false} FailedLoad(text: Str, st: Loader)
    requires Roomy(st) && st.failed
    ensures LoadFrom(text, st) == None
    decreases |text|
  {
    if text != [] {
      hide LoadRound;
      FailedRound(text, st);
      var r := LoadRound(text, st);
      if r.Next? {
        FailedLoad(r.rest, r.loader);
      }
    }
  }

  /** A malformed line makes the load fail whatever follows, and no other line does. */
  lemma FailsExactly(st: Loader, pre: Str, s: Str, post: Str, rest: Str)
    requires Between(st) && LineOf(pre, s, post)
    ensures Malformed(s) ==> LoadFrom(pre + s + post + [10] + rest, st) == None
    ensures LoadFrom(pre + s + post + [10], st) == None <==> st.failed || Malformed(s)
  {
    hide RStrip, LStrip, LoadFrom, Strip, IniLine;
    CoreStrip(pre, s, post);
    MalformedRead(pre + s, s, st.section);
    LineRead(st, pre, s, post, rest);
    LineRead(st, pre, s, post, []);
    var l := pre + s + post + [10];
    assert l + [] == l;
    var next := Process(st, pre + s);
    LoadEnd(next);
    if Malformed(s) {
      FailedLoad(rest, next);
    }
  }

  lemma LoadEnd(st: Loader)
    requires Roomy(st)
    ensures LoadFrom([], st) == if st.failed then None else Some(st.dict)
  {}

  // ----- texts of several lines -----

  /** A blank line, or a line with the blanks around it. */
  ghost predicate Read(l: Str) {
    (Blanks(l) && Fits(l)) || exists pre, s, post :: l == pre + s + post && LineOf(pre, s, post)
  }

  ghost predicate Bad(l: Str) {
    exists pre, s, post :: l == pre + s + post && LineOf(pre, s, post) && Malformed(s)
  }

  lemma ReadIsWhole(l: Str)
    requires Read(l)
    ensures WholeLine(l)
  {
    hide RStrip, LStrip, Strip;
    if Blanks(l) {
      BlanksStrip(l);
    } else {
      var pre, s, post :| l == pre + s + post && LineOf(pre, s, post);
      CoreStrip(pre, s, post);
      assert (pre + s)[|pre + s| - 1] == s[|s| - 1];
    }
  }

  /** Whole lines in front of any text. */
  lemma {:induction false} LinesRead(lines: seq<Str>, rest: Str, st: Loader)
    requires Between(st) && forall i :: 0 <= i < |lines| ==> Read(lines[i])
    ensures Between(Steps(st, lines))
    ensures LoadFrom(TextOf(lines) + rest, st) == LoadFrom(rest, Steps(st, lines))
    decreases |lines|
  {
    hide Read, LineStep, LoadRound, LoadFrom, WholeLine;
    if lines == [] {
      assert TextOf(lines) + rest == rest;
    } else {
      var l, tail := lines[0], TextOf(lines[1..]);
      ReadIsWhole(l);
      LoadLine(l, tail + rest, st);
      LoadFromStep(l + [10] + (tail + rest), st);
      Assoc(l + [10], tail, rest);
      LinesRead(lines[1..], rest, LineStep(st, l));
    }
  }

  /** A blank line or a comment. */
  ghost predicate Ignored(l: Str) {
    (Blanks(l) && Fits(l))
    || exists pre, s, post :: l == pre + s + post && LineOf(pre, s, post) && (s[0] == 35 || s[0] == 59)
  }

  /** A blank line or a comment between two lines changes nothing. */
  lemma RemarkLaw(before: seq<Str>, l: Str, rest: Str)
    requires forall i :: 0 <= i < |before| ==> Read(before[i])
    requires Ignored(l)
    ensures LoadText(TextOf(before) + (l + [10] + rest)) == LoadText(TextOf(before) + rest)
  {
    hide Read, LoadFrom, Steps, TextOf, Blanks;
    var start := Loader([], [], map[], false);
    LinesRead(before, l + [10] + rest, start);
    LinesRead(before, rest, start);
    var st := Steps(start, before);
    if Blanks(l) && Fits(l) {
      BlankLine(st, l, rest);
    } else {
      var pre, s, post :| l == pre + s + post && LineOf(pre, s, post) && (s[0] == 35 || s[0] == 59);
      CommentLine(st, pre, s, post, rest);
    }
  }

  lemma StepFails(st: Loader, l: Str)
    requires Between(st) && Read(l)
    ensures LineStep(st, l).failed <==> st.failed || Bad(l)
  {
    hide RStrip, LStrip, Strip, IniLine;
    if Blanks(l) {
      BlankStep(st, l);
      BlankNotBad(l);
    } else {
      var pre, s, post :| l == pre + s + post && LineOf(pre, s, post);
      CoreStrip(pre, s, post);
      MalformedRead(pre + s, s, st.section);
      OneCore(l, s);
    }
  }

  lemma BlankStep(st: Loader, l: Str)
    requires Between(st) && Blanks(l)
    ensures LineStep(st, l) == st
  {
    hide RStrip, LStrip;
    BlanksStrip(l);
    StripNone();
  }

  lemma BlankNotBad(l: Str)
    requires Blanks(l)
    ensures !Bad(l)
  {
    forall pre, s, post | l == pre + s + post && s != []
      ensures White(s[0])
    {
      assert l[|pre|] == s[0];
    }
  }

  /** The blanks around a line can be told in one way only. */
  lemma OneCore(l: Str, s: Str)
    requires s != [] && Strip(l) == s
    ensures Bad(l) ==> Malformed(s)
    ensures Malformed(s) && (exists pre, post :: l == pre + s + post && LineOf(pre, s, post)) ==> Bad(l)
  {
    hide Strip, Malformed, LineOf;
    if Bad(l) {
      var pre, x, post :| l == pre + x + post && LineOf(pre, x, post) && Malformed(x);
      CoreOf(pre, x, post);
    }
  }

  lemma CoreOf(pre: Str, s: Str, post: Str)
    requires LineOf(pre, s, post)
    ensures Strip(pre + s + post) == s
  {
    hide Strip;
    CoreStrip(pre, s, post);
  }

  lemma {:induction false} StepsFail(st: Loader, lines: seq<Str>)
    requires Between(st) && forall i :: 0 <= i < |lines| ==> Read(lines[i])
    ensures Steps(st, lines).failed <==> st.failed || exists i :: 0 <= i < |lines| && Bad(lines[i])
    decreases |lines|
  {
    if lines != [] {
      hide LineStep, Read, Bad;
      StepFails(st, lines[0]);
      StepBetween(st, lines[0]);
      StepsFail(LineStep(st, lines[0]), lines[1..]);
      assert forall i :: 0 < i < |lines| ==> lines[i] == lines[1..][i - 1];
    }
  }

  lemma StepBetween(st: Loader, l: Str)
    requires Between(st)
    ensures Between(LineStep(st, l))
  {
    hide IniLine, RStrip;
  }

  /** A text of whole lines is refused exactly when one of them is malformed. */
  lemma RefusedExactly(lines: seq<Str>)
    requires forall i :: 0 <= i < |lines| ==> Read(lines[i])
    ensures LoadText(TextOf(lines)) == None <==> exists i :: 0 <= i < |lines| && Bad(lines[i])
  {
    hide Read, Bad, LoadFrom, Steps, TextOf;
    var start := Loader([], [], map[], false);
    LinesRead(lines, [], start);
    assert TextOf(lines) + [] == TextOf(lines);
    StepsFail(start, lines);
    LoadEnd(Steps(start, lines));
  }
}
