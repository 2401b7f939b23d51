/** Minifying an accepted text keeps the tree that it is parsed to. */
module JsonMinifyMeaning {
  import opened Bytes
  import opened Json
  import opened JsonText
  import opened JsonMinify
  import opened JsonProgress
  import opened JsonNumber
  import opened JsonRender
  import JsonString
  import JsonRoundTrip

  /** `m` is the minified form of the C string `s`. */
  predicate Mins(s: seq<byte>, m: seq<byte>) {
    CString(s) && MinifyText(s) == Some(m)
  }

  // ----- the pieces of a text -----

  lemma CStringCons(b: byte, s: seq<byte>)
    requires b != 0 && CString(s)
    ensures CString([b] + s)
  {}

  lemma MinPlain(b: byte, s: seq<byte>, m: seq<byte>)
    requires IsPlain(b) && Mins(s, m)
    ensures Mins([b] + s, [b] + m)
  {
    CStringCons(b, s);
    assert ([b] + s)[1..] == s;
  }

  lemma {:induction false} CopyPlain(u: seq<byte>, s: seq<byte>, m: seq<byte>)
    requires (forall i :: 0 <= i < |u| ==> IsPlain(u[i])) && Mins(s, m)
    ensures Mins(u + s, u + m)
  {
    if u == [] {
      assert u + s == s && u + m == m;
    } else {
      CopyPlain(u[1..], s, m);
      hide Mins, IsPlain;
      MinPlain(u[0], u[1..] + s, u[1..] + m);
      assert [u[0]] + (u[1..] + s) == u + s;
      assert [u[0]] + (u[1..] + m) == u + m;
    }
  }

  /** From a byte onwards: the plain byte at the head of `s` is kept. */
  lemma PlainAt(s: seq<byte>, m: seq<byte>)
    requires CString(s) && |s| > 1 && IsPlain(s[0]) && Mins(s[1..], m)
    ensures Mins(s, [s[0]] + m)
  {
    hide MinifyText;
    MinPlain(s[0], s[1..], m);
    assert [s[0]] + s[1..] == s;
  }

  lemma HeadKept(s: seq<byte>, m: seq<byte>)
    requires Mins(s, m) && (s[0] > 32 || |s| == 1) && s[0] != SLASH
    ensures Terminated(m) && m[0] == s[0] && (|s| == 1 ==> m == [0])
  {}

  /** White space in front of a visible byte: gone or still white space. */
  lemma {:induction false} MinSkip(s: seq<byte>, m: seq<byte>) returns (w: seq<byte>)
    requires CString(s) && SkipSpace(s)[0] != SLASH && Mins(SkipSpace(s), m)
    ensures Mins(s, w) && Terminated(w) && SkipSpace(w) == m
    ensures m[0] == SkipSpace(s)[0] && (w[0] <= 32 || w[0] == m[0])
  {
    if |s| > 1 && s[0] <= 32 {
      CStringSuffix(s[1..], s);
      var x := MinSkip(s[1..], m);
      if IsBlank(s[0]) {
        w := x;
      } else {
        PlainAt(s, x);
        w := [s[0]] + x;
        assert w[1..] == x;
      }
    } else {
      w := m;
      HeadKept(s, m);
    }
  }

  /** A byte that is kept, white space, and text that starts with a visible byte and minifies to `x`. */
  lemma MinOpen(s: seq<byte>, x: seq<byte>) returns (w: seq<byte>)
    requires CString(s) && |s| > 1 && IsPlain(s[0])
    requires SkipSpace(s[1..])[0] != SLASH && Mins(SkipSpace(s[1..]), x)
    ensures Mins(s, w) && Terminated(w) && |w| > 1 && w[0] == s[0] && SkipSpace(w[1..]) == x
    ensures x[0] == SkipSpace(s[1..])[0]
  {
    hide Mins, SkipSpace;
    CStringSuffix(s[1..], s);
    var y := MinSkip(s[1..], x);
    PlainAt(s, y);
    w := [s[0]] + y;
    assert w[1..] == y;
  }

  /** A closing bracket or brace and what is behind it. */
  lemma MinClose(s: seq<byte>, m: seq<byte>) returns (x: seq<byte>)
    requires CString(s) && |s| > 1 && IsPlain(s[0]) && Mins(s[1..], m) && Terminated(m)
    ensures Mins(s, x) && |x| > 1 && x[0] == s[0] && x[1..] == m
  {
    hide Mins;
    PlainAt(s, m);
    x := [s[0]] + m;
  }

  // ----- string literals -----

  lemma CloseQuoteLocal(s: seq<byte>, k: nat, m: seq<byte>)
    requires JsonString.CloseQuote(s) == Some(k)
    ensures JsonString.CloseQuote(s[..k + 1] + m) == Some(k)
  {
    hide JsonString.CloseQuote;
    JsonString.ClosedScan(s);
    JsonString.ScannedMore(s[..k + 1], m);
  }

  lemma MinLiteral(s: seq<byte>, k: nat, m: seq<byte>)
    requires CString(s) && s[0] == QUOTE && JsonString.CloseQuote(s[1..]) == Some(k) && Mins(s[k + 2..], m)
    ensures Mins(s, s[..k + 2] + m)
  {
    hide JsonString.CloseQuote;
  }

  lemma ReadLiteral(s: seq<byte>, k: nat, m: seq<byte>)
    requires Terminated(s) && s[0] == QUOTE && JsonString.CloseQuote(s[1..]) == Some(k) && Terminated(m)
    requires JsonString.Decode(s[1..k + 2]).Some?
    ensures JsonString.ParseString(s[..k + 2] + m) == Ok(UpToNul(JsonString.Decode(s[1..k + 2]).value), m)
  {
    var w := s[..k + 2] + m;
    hide JsonString.CloseQuote, JsonString.Decode, UpToNul;
    CloseQuoteLocal(s[1..], k, m);
    assert w[1..] == s[1..][..k + 1] + m;
    assert w[1..k + 2] == s[1..k + 2];
    assert w[k + 2..] == m;
  }

  /** A literal is copied as it is, and reading it depends on nothing behind it. */
  lemma MinString(s: seq<byte>, m: seq<byte>) returns (w: seq<byte>)
    requires CString(s) && JsonString.ParseString(s).Ok? && Mins(JsonString.ParseString(s).rest, m)
    requires Terminated(m)
    ensures Mins(s, w) && Terminated(w) && w[0] == QUOTE
    ensures JsonString.ParseString(w) == Ok(JsonString.ParseString(s).value, m)
  {
    hide JsonString.CloseQuote, JsonString.Decode, UpToNul, MinifyText;
    var k := JsonString.CloseQuote(s[1..]).value;
    w := s[..k + 2] + m;
    MinLiteral(s, k, m);
    ReadLiteral(s, k, m);
  }

  // ----- values -----

  /** What is behind a value in accepted text. */
  predicate Ends(s: seq<byte>)
    requires Terminated(s)
  {
    var b := SkipSpace(s)[0];
    b != SLASH && !IsNumberChar(b)
  }

  lemma NumberConsumed(s: seq<byte>)
    requires Terminated(s) && ParseNumber(s).Ok? && Ends(ParseNumber(s).rest)
    ensures var n := |s| - |ParseNumber(s).rest|;
      RunLength(s, NUMBER_LIMIT) == n && ParseNumber(s).rest == s[n..]
      && Strtod(s[..n]) == Some(Scan(ParseNumber(s).value, n))
  {
    hide Strtod;
    var rest := ParseNumber(s).rest;
    assert rest[0] > 32 ==> SkipSpace(rest) == rest;
  }

  lemma MinNumber(s: seq<byte>, m: seq<byte>) returns (w: seq<byte>)
    requires CString(s) && ParseNumber(s).Ok? && Ends(ParseNumber(s).rest) && Mins(ParseNumber(s).rest, m)
    requires Terminated(m) && !IsNumberChar(m[0])
    ensures Mins(s, w) && Terminated(w) && w[0] == s[0]
    ensures ParseNumber(w) == Ok(ParseNumber(s).value, m)
  {
    hide Strtod, MinifyText;
    var n := |s| - |ParseNumber(s).rest|;
    NumberConsumed(s);
    var u := s[..n];
    w := u + m;
    CopyPlain(u, s[n..], m);
    assert u + s[n..] == s;
    RunLengthAll(u, m, NUMBER_LIMIT);
    assert w[..n] == u;
    assert w[n..] == m;
  }

  lemma MinConstant(t: Value, s: seq<byte>, depth: nat, m: seq<byte>) returns (w: seq<byte>)
    requires (t.Null? || t.Bool?) && depth <= NESTING_LIMIT && Mins(s, m) && Terminated(m)
    ensures Mins(Render(t, false, 0) + s, w) && Terminated(w)
    ensures w[0] == Render(t, false, 0)[0] && ParseValue(w, depth) == Ok(t, m)
  {
    w := Render(t, false, 0) + m;
    CopyPlain(Render(t, false, 0), s, m);
    JsonRoundTrip.ConstantBack(t, false, 0, depth, m);
  }

  /** A value starts with a byte that is neither white space nor the start of a comment. */
  lemma ValueHead(s: seq<byte>, depth: nat)
    requires Terminated(s) && ParseValue(s, depth).Ok?
    ensures s[0] > 32 && s[0] != SLASH && s[0] != RBRACKET && s[0] != RBRACE && s[0] != COMMA
  {
    hide JsonString.ParseString, ParseNumber, ParseArray, ParseObject;
  }

  /** The statement about one value: minified text in front of minified rest gives the same value. */
  lemma {:induction false} MinValue(s: seq<byte>, depth: nat, m: seq<byte>) returns (w: seq<byte>)
    requires CString(s) && depth <= NESTING_LIMIT && ParseValue(s, depth).Ok?
    requires Terminated(m) && Mins(ParseValue(s, depth).rest, m)
    requires Ends(ParseValue(s, depth).rest) && !IsNumberChar(m[0])
    ensures Mins(s, w) && Terminated(w) && w[0] == s[0]
    ensures ParseValue(w, depth) == Ok(ParseValue(s, depth).value, m)
    decreases |s|, 1
  {
    ValueAt(s, depth);
    if s[0] == QUOTE {
      w := MinString(s, m);
      ValueAt(w, depth);
    } else if s[0] == MINUS || IsDigit(s[0]) {
      w := MinNumber(s, m);
      ValueAt(w, depth);
    } else if s[0] == LBRACKET {
      w := MinArray(s, depth, m);
      ValueAt(w, depth);
    } else if s[0] == LBRACE {
      w := MinObject(s, depth, m);
      ValueAt(w, depth);
    } else {
      var t := ParseValue(s, depth).value;
      var rest := ParseValue(s, depth).rest;
      assert s == Render(t, false, 0) + rest;
      w := MinConstant(t, rest, depth, m);
    }
  }

  lemma {:induction false} MinArray(s: seq<byte>, depth: nat, m: seq<byte>) returns (w: seq<byte>)
    requires CString(s) && s[0] == LBRACKET && depth <= NESTING_LIMIT && ParseArray(s, depth).Ok?
    requires Terminated(m) && Mins(ParseArray(s, depth).rest, m)
    ensures Mins(s, w) && Terminated(w) && w[0] == LBRACKET
    ensures ParseArray(w, depth) == Ok(ParseArray(s, depth).value, m)
    decreases |s|, 0
  {
    hide Mins, ParseElems, SkipSpace;
    var first := SkipSpace(s[1..]);
    StepSuffix(s);
    CStringSuffix(first, s);
    var x: seq<byte>;
    if first[0] == RBRACKET {
      x := MinClose(first, m);
    } else {
      x := MinElems(first, depth + 1, m);
    }
    w := MinOpen(s, x);
  }

  lemma {:induction false} MinElems(s: seq<byte>, depth: nat, m: seq<byte>) returns (w: seq<byte>)
    requires CString(s) && depth <= NESTING_LIMIT && ParseElems(s, depth).Ok?
    requires Terminated(m) && Mins(ParseElems(s, depth).rest, m)
    ensures Mins(s, w) && Terminated(w) && w[0] == s[0] && s[0] > 32 && s[0] != SLASH && s[0] != RBRACKET
    ensures ParseElems(w, depth) == Ok(ParseElems(s, depth).value, m)
    decreases |s|, 2
  {
    var v := ParseValue(s, depth);
    ElemsStep(s, depth);
    hide ParseValue, ParseElems, ElemsAfter, Mins, Ends;
    ValueHead(s, depth);
    ValueSuffix(s, depth);
    CStringSuffix(v.rest, s);
    var x := MinElemsAfter(v.value, v.rest, depth, m);
    w := MinValue(s, depth, x);
    ElemsStep(w, depth);
  }

  lemma {:induction false} MinElemsAfter(t: Value, s: seq<byte>, depth: nat, m: seq<byte>) returns (w: seq<byte>)
    requires CString(s) && depth <= NESTING_LIMIT && ElemsAfter(t, s, depth).Ok?
    requires Terminated(m) && Mins(ElemsAfter(t, s, depth).rest, m)
    ensures Mins(s, w) && Terminated(w) && Ends(s) && !IsNumberChar(w[0])
    ensures ElemsAfter(t, w, depth) == Ok(ElemsAfter(t, s, depth).value, m)
    decreases |s|, 3
  {
    hide Mins, ParseElems, SkipSpace;
    var next := SkipSpace(s);
    SkipSuffix(s);
    CStringSuffix(next, s);
    var x: seq<byte>;
    if next[0] == COMMA {
      x := MinNextElems(next, depth, m);
    } else {
      x := MinClose(next, m);
    }
    w := MinSkip(s, x);
  }

  /** Behind a comma: white space and more elements. */
  lemma {:induction false} MinNextElems(s: seq<byte>, depth: nat, m: seq<byte>) returns (w: seq<byte>)
    requires CString(s) && s[0] == COMMA && depth <= NESTING_LIMIT && ParseElems(SkipSpace(s[1..]), depth).Ok?
    requires Terminated(m) && Mins(ParseElems(SkipSpace(s[1..]), depth).rest, m)
    ensures Mins(s, w) && Terminated(w) && w[0] == COMMA
    ensures ParseElems(SkipSpace(w[1..]), depth) == Ok(ParseElems(SkipSpace(s[1..]), depth).value, m)
    decreases |s|, 2
  {
    hide ParseElems, Mins, SkipSpace;
    var first := SkipSpace(s[1..]);
    StepSuffix(s);
    CStringSuffix(first, s);
    var x := MinElems(first, depth, m);
    w := MinOpen(s, x);
  }

  lemma {:induction false} MinObject(s: seq<byte>, depth: nat, m: seq<byte>) returns (w: seq<byte>)
    requires CString(s) && s[0] == LBRACE && depth <= NESTING_LIMIT && ParseObject(s, depth).Ok?
    requires Terminated(m) && Mins(ParseObject(s, depth).rest, m)
    ensures Mins(s, w) && Terminated(w) && w[0] == LBRACE
    ensures ParseObject(w, depth) == Ok(ParseObject(s, depth).value, m)
    decreases |s|, 0
  {
    hide Mins, ParseMembers, SkipSpace;
    var first := SkipSpace(s[1..]);
    StepSuffix(s);
    CStringSuffix(first, s);
    var x: seq<byte>;
    if first[0] == RBRACE {
      x := MinClose(first, m);
    } else {
      x := MinMembers(first, depth + 1, m);
    }
    w := MinOpen(s, x);
  }

  /** A key, its colon, and a minified value text `m`. */
  lemma MinKey(s: seq<byte>, m: seq<byte>) returns (w: seq<byte>)
    requires CString(s) && ParseKey(s).Ok? && Mins(ParseKey(s).rest, m)
    requires Terminated(m) && ParseKey(s).rest[0] != SLASH
    ensures Mins(s, w) && Terminated(w) && w[0] == s[0] == QUOTE
    ensures ParseKey(w) == Ok(ParseKey(s).value, m)
  {
    hide JsonString.ParseString, Mins, SkipSpace;
    var rest := JsonString.ParseString(s).rest;
    var colon := SkipSpace(rest);
    StringSuffix(s);
    CStringSuffix(rest, s);
    SkipSuffix(rest);
    CStringSuffix(colon, rest);
    CStringSuffix(colon[1..], colon);
    var x := MinSkip(colon[1..], m);
    PlainAt(colon, x);
    assert ([COLON] + x)[1..] == x;
    var y := MinSkip(rest, [COLON] + x);
    w := MinString(s, y);
  }

  lemma StringSuffix(s: seq<byte>)
    requires Terminated(s) && JsonString.ParseString(s).Ok?
    ensures s[0] == QUOTE && Suffix(JsonString.ParseString(s).rest, s)
  {}

  lemma {:induction false} MinMembers(s: seq<byte>, depth: nat, m: seq<byte>) returns (w: seq<byte>)
    requires CString(s) && depth <= NESTING_LIMIT && ParseMembers(s, depth).Ok?
    requires Terminated(m) && Mins(ParseMembers(s, depth).rest, m)
    ensures Mins(s, w) && Terminated(w) && w[0] == s[0] == QUOTE
    ensures ParseMembers(w, depth) == Ok(ParseMembers(s, depth).value, m)
    decreases |s|, 2
  {
    var k := ParseKey(s);
    var v := ParseValue(k.rest, depth);
    MembersStep(s, depth);
    hide ParseValue, ParseMembers, MembersAfter, ParseKey, Mins, Ends;
    KeySuffix(s);
    CStringSuffix(k.rest, s);
    ValueHead(k.rest, depth);
    ValueSuffix(k.rest, depth);
    CStringSuffix(v.rest, k.rest);
    var x := MinMembersAfter(k.value, v.value, v.rest, depth, m);
    var y := MinValue(k.rest, depth, x);
    w := MinKey(s, y);
    MembersStep(w, depth);
  }

  lemma {:induction false} MinMembersAfter(k: seq<byte>, t: Value, s: seq<byte>, depth: nat, m: seq<byte>)
    returns (w: seq<byte>)
    requires CString(s) && depth <= NESTING_LIMIT && MembersAfter(k, t, s, depth).Ok?
    requires Terminated(m) && Mins(MembersAfter(k, t, s, depth).rest, m)
    ensures Mins(s, w) && Terminated(w) && Ends(s) && !IsNumberChar(w[0])
    ensures MembersAfter(k, t, w, depth) == Ok(MembersAfter(k, t, s, depth).value, m)
    decreases |s|, 3
  {
    hide Mins, ParseMembers, SkipSpace;
    var next := SkipSpace(s);
    SkipSuffix(s);
    CStringSuffix(next, s);
    var x: seq<byte>;
    if next[0] == COMMA {
      x := MinNextMembers(next, depth, m);
    } else {
      x := MinClose(next, m);
    }
    w := MinSkip(s, x);
  }

  lemma {:induction false} MinNextMembers(s: seq<byte>, depth: nat, m: seq<byte>) returns (w: seq<byte>)
    requires CString(s) && s[0] == COMMA && depth <= NESTING_LIMIT && ParseMembers(SkipSpace(s[1..]), depth).Ok?
    requires Terminated(m) && Mins(ParseMembers(SkipSpace(s[1..]), depth).rest, m)
    ensures Mins(s, w) && Terminated(w) && w[0] == COMMA
    ensures ParseMembers(SkipSpace(w[1..]), depth) == Ok(ParseMembers(SkipSpace(s[1..]), depth).value, m)
    decreases |s|, 2
  {
    hide ParseMembers, Mins, SkipSpace;
    var first := SkipSpace(s[1..]);
    StepSuffix(s);
    CStringSuffix(first, s);
    var x := MinMembers(first, depth, m);
    w := MinOpen(s, x);
  }

  /** Any text accepted with the end check has a minified form, and that form is accepted as the same tree. */
  lemma MinifyKeepsMeaning(s: seq<byte>)
    requires CString(s) && ParseText(s, true).Ok?
    ensures MinifyText(s).Some?
    ensures ParseText(MinifyText(s).value, true) == Ok(ParseText(s, true).value, [0])
  {
    hide ParseValue, SkipSpace, MinifyText;
    var start := SkipSpace(s);
    var v := ParseValue(start, 0);
    SkipSuffix(s);
    CStringSuffix(start, s);
    ValueHead(start, 0);
    ValueSuffix(start, 0);
    CStringSuffix(v.rest, start);
    EndOfText(v.rest);
    var x := MinSkip(v.rest, [0]);
    var y := MinValue(start, 0, x);
    var w := MinSkip(s, y);
  }

  /** Only white space is left in front of the NUL. */
  lemma EndOfText(s: seq<byte>)
    requires CString(s) && SkipSpace(s)[0] == 0
    ensures SkipSpace(s) == [0] && Mins([0], [0]) && Ends(s) && SkipSpace([0]) == [0]
  {
    SkipSuffix(s);
    CStringSuffix(SkipSpace(s), s);
  }
}
