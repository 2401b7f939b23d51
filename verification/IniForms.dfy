/** Every line has one of the forms of IniLaws, so no line is left out; and how lines are cut, joined and ended. */
module IniForms {
  import opened Bytes
  import opened Dictionaries
  import opened IniText
  import opened IniDump
  import opened IniRoundTrip
  import opened IniSections
  import opened IniLaws

  // ----- every line -----

  lemma {:induction false} FrontBlanks(s: Str)
    ensures Blanks(s[..|s| - |LStrip(s)|])
  {
    hide LStrip;
    LStripStep(s);
    if s != [] && IsSpace(s[0]) {
      FrontBlanks(s[1..]);
      var n := |s[1..]| - |LStrip(s[1..])|;
      BlanksCons(s, n);
    }
  }

  lemma BlanksCons(s: Str, n: nat)
    requires n < |s| && White(s[0]) && Blanks(s[1..][..n])
    ensures Blanks(s[..n + 1])
  {
    assert forall i :: 0 < i < n + 1 ==> s[i] == s[1..][..n][i - 1];
  }

  lemma {:induction false} BackBlanks(s: Str)
    ensures Blanks(s[|RStrip(s)|..])
    decreases |s|
  {
    if s != [] && IsSpace(s[|s| - 1]) {
      var y := s[..|s| - 1];
      BackBlanks(y);
      assert s[|RStrip(y)|..] == y[|RStrip(y)|..] + [s[|s| - 1]];
    }
  }

  /** A text is blank, or a core with blanks around it. */
  lemma Parts(l: Str) returns (pre: Str, s: Str, post: Str)
    ensures l == pre + s + post && Blanks(pre) && Blanks(post) && (s == [] || Core(s))
    ensures s == [] ==> Blanks(l)
  {
    hide LStrip, RStrip;
    FrontBlanks(l);
    var x := LStrip(l);
    BackBlanks(x);
    pre, s := l[..|l| - |x|], RStrip(x);
    post := x[|s|..];
    assert x == s + post;
    Assoc(pre, s, post);
    CoreEnds(x);
  }

  lemma CoreEnds(x: Str)
    requires x != [] ==> !White(x[0])
    ensures RStrip(x) == [] || Core(RStrip(x))
  {
    hide RStrip;
    assert RStrip(x) != [] ==> RStrip(x)[0] == x[0];
  }

  /** Behind the equals sign and blanks stands one of the forms. */
  lemma FormOf(y: Str) returns (f: Form)
    requires y == [] || Core(y)
    ensures ValidForm(f) && FormText(f) == y
  {
    hide Until, RStrip, Blanks;
    if Remark(y) {
      f := Nothing(y);
    } else if (y[0] == 34 || y[0] == 39) && |y| > 1 && y[1] != y[0] {
      f := QuotedOf(y);
    } else {
      f := PlainOf(y);
    }
  }

  lemma QuotedOf(y: Str) returns (f: Form)
    requires |y| > 1 && (y[0] == 34 || y[0] == 39) && y[1] != y[0]
    ensures ValidForm(f) && FormText(f) == y
  {
    var u := y[1..];
    var text := Until(u, {y[0]});
    hide Until;
    f := Quoted(y[0], text, u[|text|..]);
    assert u == text + u[|text|..];
  }

  lemma PlainOf(y: Str) returns (f: Form)
    requires Core(y) && !Remark(y) && (y[0] == 34 || y[0] == 39 ==> |y| == 1 || y[1] == y[0])
    ensures ValidForm(f) && FormText(f) == y
  {
    hide RStrip, Blanks, Until;
    var u := Until(y, {59, 35});
    var text := RStrip(u);
    BackBlanks(u);
    BeforeRemark(y);
    TextLeft(u);
    f := Plain(text, u[|text|..], y[|u|..]);
    assert u == text + u[|text|..] && y == u + y[|u|..];
    Assoc(text, u[|text|..], y[|u|..]);
    if |u| == |y| {
      assert u == y;
      WholeText(y);
    }
    hide Core;
    assert |text| > 1 ==> text[1] == y[1];
  }

  lemma BeforeRemark(y: Str)
    requires y != [] && !Remark(y)
    ensures var u := Until(y, {59, 35});
      u != [] && u[0] == y[0] && 59 !in RStrip(u) && 35 !in RStrip(u) && Remark(y[|u|..])
  {
    hide RStrip;
    var u := Until(y, {59, 35});
    assert forall i :: 0 <= i < |RStrip(u)| ==> RStrip(u)[i] == u[i];
  }

  lemma WholeText(y: Str)
    requires Core(y)
    ensures RStrip(y) == y
  {}

  lemma {:induction false} TextLeft(u: Str)
    requires u != [] && !White(u[0])
    ensures Core(RStrip(u)) && RStrip(u)[0] == u[0]
    decreases |u|
  {
    if IsSpace(u[|u| - 1]) {
      TextLeft(u[..|u| - 1]);
    }
  }

  /** Every line that is not malformed, no comment and not in brackets sets a key. */
  lemma EveryKey(s: Str) returns (key: Str, mid: Str, gap: Str, f: Form)
    requires Core(s) && !Malformed(s) && s[0] != 35 && s[0] != 59 && !Bracketed(s)
    ensures ValidKey(key, mid, gap) && ValidForm(f) && s == Assignment(key, mid, gap, f)
  {
    hide RStrip, LStrip, Blanks, ValidForm, FormText;
    var k := Until(s, {61});
    assert |k| == |s| ==> k == s;
    hide Until;
    var x := s[|k| + 1..];
    TextLeft(k);
    BackBlanks(k);
    key := RStrip(k);
    mid := k[|key|..];
    FrontBlanks(x);
    var y := LStrip(x);
    gap := x[..|x| - |y|];
    assert y != [] ==> y[|y| - 1] == s[|s| - 1];
    f := FormOf(y);
    assert k == key + mid && x == gap + y && s == k + ([61] + x);
  }

  /** Every line in brackets enters the section it names, or names none. */
  lemma EverySection(s: Str) returns (lead: Str, name: Str, trail: Str, tail: Str)
    requires Bracketed(s) && |s| > 1
    ensures Blanks(lead) && Blanks(trail) && (name == [] || Core(name)) && (tail != [] ==> tail[|tail| - 1] == 93)
    ensures 93 !in lead + name + trail && s == [91] + (lead + name + trail + ([93] + tail))
  {
    hide Blanks;
    var inner := Until(s[1..], {93});
    assert s[1..][|s| - 2] == 93;
    hide Until;
    lead, name, trail := Parts(inner);
    tail := s[|inner| + 2..];
    assert s == [91] + (inner + ([93] + tail));
  }

  // ----- the ends of lines -----

  /** A line that does not fit the buffer ends the load. */
  lemma LongLine(l: Str, rest: Str, st: Loader)
    requires Between(st) && NulFree(l) && 10 !in l && |l| >= 1023
    ensures LoadFrom(l + rest, st) == None
  {
    hide LoadRound, LoadFrom;
    TooLongRound(l, rest, st);
    LoadFromStep(l + rest, st);
  }

  lemma TooLongRound(l: Str, rest: Str, st: Loader)
    requires Between(st) && NulFree(l) && 10 !in l && |l| >= 1023
    ensures LoadRound(l + rest, st) == TooLong
  {
    hide Fgets, UpToNul, RStrip, Process;
    LongChunk(l, rest);
    var chunk := l[..1023];
    assert [] + chunk == chunk;
    UpToNulIdentity(chunk);
  }

  lemma LongChunk(l: Str, rest: Str)
    requires 10 !in l && |l| >= 1023
    ensures Fgets(l + rest, 1023) == l[..1023] && l[1022] != 10
  {
    var text := l + rest;
    var line := Until(text, {10});
    hide Until;
    assert forall i :: 0 <= i < 1023 ==> text[i] == l[i];
    assert text[..1023] == l[..1023];
  }

  /** A round that reads one line behind a pending one, from what fgets gives. */
  lemma PendingRound(text: Str, l: Str, rest: Str, st: Loader)
    requires text != [] && Roomy(st) && NulFree(st.pending + l)
    requires Fgets(text, 1023 - |st.pending|) == l + [10] && text[|l| + 1..] == rest
    ensures var all := st.pending + l;
      LoadRound(text, st) == Next(rest,
        if all == [] then st
        else if Continued(all) then st.(pending := RStrip(all)[..|RStrip(all)| - 1])
        else Process(st, RStrip(all)))
  {
    hide Process, RStrip, Fgets, UpToNul;
    var all := st.pending + l;
    var line := all + [10];
    Assoc(st.pending, l, [10]);
    NulFreeConcat(all, [10]);
    UpToNulIdentity(line);
    RStripNewline(all);
    assert line[|line| - 1] == 10;
  }

  lemma NextChunk(l: Str, rest: Str, room: nat)
    requires 10 !in l && |l| < room
    ensures var text := l + [10] + rest; Fgets(text, room) == l + [10] && text[|l| + 1..] == rest
  {
    var text := l + [10] + rest;
    Assoc(l, [10], rest);
    UntilStop(l, {10}, [10] + rest);
    hide Until;
    assert text[..|l| + 1] == l + [10];
  }

  lemma CoreBlanks(a: Str, ws: Str)
    requires a != [] && !White(a[|a| - 1]) && Blanks(ws)
    ensures RStrip(a + ws) == a
  {
    hide RStrip;
    RStripBlanks(a, ws);
  }

  /** A backslash at the end of a line, perhaps with blanks behind it, joins the line with the next one. */
  lemma JoinLaw(a: Str, ws: Str, b: Str, rest: Str, st: Loader)
    requires Between(st) && Blanks(ws) && Fits(a + [92] + ws) && Fits(a + b)
    ensures LoadFrom(a + [92] + ws + [10] + (b + [10] + rest), st) == LoadFrom(a + b + [10] + rest, st)
  {
    hide Process, RStrip, LoadRound, LoadFrom, Blanks, NulFree;
    var next, next' := b + [10] + rest, a + b + [10] + rest;
    BackslashRound(a, ws, next, st);
    LoadFromStep(a + [92] + ws + [10] + next, st);
    JoinRound(a, b, rest, st);
    LoadFromStep(next, st.(pending := a));
    LoadFromStep(next', st);
  }

  /** The beginning of a joined line is kept. */
  lemma BackslashRound(a: Str, ws: Str, rest: Str, st: Loader)
    requires Between(st) && Blanks(ws) && Fits(a + [92] + ws)
    ensures LoadRound(a + [92] + ws + [10] + rest, st) == Next(rest, st.(pending := a))
  {
    hide Process, RStrip, Fgets, LoadRound, Blanks, NulFree;
    var l := a + [92] + ws;
    CoreBlanks(a + [92], ws);
    NextChunk(l, rest, 1023);
    assert [] + l == l && (a + [92])[..|a|] == a;
    PendingRound(l + [10] + rest, l, rest, st);
  }

  /** Its end is read like the end of a line that was not broken. */
  lemma JoinRound(a: Str, b: Str, rest: Str, st: Loader)
    requires Between(st) && Fits(a + b)
    ensures LoadRound(b + [10] + rest, st.(pending := a)) == LoadRound(a + b + [10] + rest, st)
  {
    hide Process, RStrip, Fgets, LoadRound, NulFree;
    var st' := st.(pending := a);
    NextChunk(b, rest, 1023 - |a|);
    PendingRound(b + [10] + rest, b, rest, st');
    NextChunk(a + b, rest, 1023);
    assert [] + (a + b) == a + b;
    PendingRound(a + b + [10] + rest, a + b, rest, st);
    SameProcess(st, st', RStrip(a + b));
    assert a + b == [] ==> a == [];
  }

  lemma SameProcess(st: Loader, st': Loader, line: Str)
    requires st' == st.(pending := st'.pending)
    ensures Process(st, line) == Process(st', line)
  {
    hide IniLine;
  }

  lemma LastChunk(l: Str)
    requires l != [] && 10 !in l && |l| < 1023
    ensures Fgets(l, 1023) == l && AtEof(l, [], 1023)
  {
    assert l + [] == l;
    UntilStop(l, {10}, []);
  }

  /**
   * The last line needs no newline, unless it has only one byte: that one is not looked at, so that the file "x" is
   * empty while "x" and a newline are refused.
   */
  lemma LastLine(l: Str, st: Loader)
    requires Between(st) && Fits(l) && l != []
    ensures LoadFrom(l, st) == if |l| > 1 then LoadFrom(l + [10], st) else LoadFrom([], st)
  {
    hide Process, RStrip, Fgets, LoadRound, LoadFrom;
    LastRound(l, st);
    LoadFromStep(l, st);
    NextChunk(l, [], 1023);
    assert l + [10] + [] == l + [10] && [] + l == l;
    PendingRound(l + [10], l, [], st);
    LoadFromStep(l + [10], st);
  }

  lemma LastRound(l: Str, st: Loader)
    requires Between(st) && Fits(l) && l != []
    ensures |l| == 1 ==> LoadRound(l, st) == Next([], st)
    ensures |l| > 1 && Continued(l) ==> LoadRound(l, st) == Next([], st.(pending := RStrip(l)[..|RStrip(l)| - 1]))
    ensures |l| > 1 && !Continued(l) ==> LoadRound(l, st) == Next([], Process(st, RStrip(l)))
  {
    hide Process, RStrip, Fgets, UpToNul, NulFree, AtEof;
    LastChunk(l);
    var chunk := Fgets(l, 1023);
    assert l[|chunk|..] == [];
    assert st.pending + chunk == l;
    UpToNulIdentity(l);
  }

  /** A NUL hides the rest of its line: the line is skipped if at most one byte is left of it, and else too long. */
  lemma NulLine(l: Str, more: Str, rest: Str, st: Loader)
    requires Between(st) && NulFree(l) && 10 !in l && 10 !in more && |l| + |more| < 1022
    ensures LoadFrom(l + [0] + more + [10] + rest, st) == if |l| > 1 then None else LoadFrom(rest, st)
  {
    hide LoadFrom, LoadRound, Fgets, NulFree;
    var cut := l + [0] + more;
    NextChunk(cut, rest, 1023);
    NulRound(cut + [10] + rest, l, more, rest, st);
    LoadFromStep(cut + [10] + rest, st);
  }

  lemma NulCut(l: Str, more: Str, rest: Str)
    requires NulFree(l)
    ensures var chunk := l + [0] + more + [10]; UpToNul(chunk) == l && !AtEof(chunk, rest, 1023)
  {
    hide UpToNul;
    var chunk := l + [0] + more + [10];
    assert forall i :: 0 <= i < |l| ==> chunk[i] == l[i];
    assert chunk[|l|] == 0 && chunk[|chunk| - 1] == 10;
  }

  lemma NulRound(text: Str, l: Str, more: Str, rest: Str, st: Loader)
    requires text != [] && Between(st) && NulFree(l) && 10 !in l
    requires Fgets(text, 1023) == l + [0] + more + [10] && text[|l| + |more| + 2..] == rest
    ensures LoadRound(text, st) == if |l| > 1 then TooLong else Next(rest, st)
  {
    hide Process, RStrip, Fgets, UpToNul, AtEof;
    var chunk := l + [0] + more + [10];
    assert [] + chunk == chunk;
    NulCut(l, more, rest);
  }
}
