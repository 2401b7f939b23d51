/** What every successful parse keeps: it only moves forward, and it never nests deeper than the limit. */
module JsonProgress {
  import opened Bytes
  import opened Json
  import opened JsonText
  import JsonString
  import JsonNumber

  lemma {:induction false} SkipSuffix(s: seq<byte>)
    requires Terminated(s)
    ensures Suffix(SkipSpace(s), s)
  {
    if |s| > 1 && s[0] <= 32 {
      SkipSuffix(s[1..]);
    } else {
      assert s == s[0..];
    }
  }

  /** Skipping from one byte further on is still a suffix. */
  lemma StepSuffix(s: seq<byte>)
    requires Terminated(s) && |s| > 1
    ensures Suffix(SkipSpace(s[1..]), s) && SkipSpace(s[1..]) != s
  {
    SkipSuffix(s[1..]);
    SuffixTrans(SkipSpace(s[1..]), s[1..], s);
  }

  lemma {:induction false} ValueSuffix(s: seq<byte>, depth: nat)
    requires Terminated(s) && ParseValue(s, depth).Ok?
    ensures Suffix(ParseValue(s, depth).rest, s)
    decreases |s|, 1
  {
    hide ParseArray, ParseObject;
    ValueAt(s, depth);
    if s[0] == LBRACKET {
      hide ParseValue;
      ArraySuffix(s, depth);
    } else if s[0] == LBRACE {
      hide ParseValue;
      ObjectSuffix(s, depth);
    } else {
      LeafSuffix(s, depth);
    }
  }

  lemma LeafSuffix(s: seq<byte>, depth: nat)
    requires Terminated(s) && ParseValue(s, depth).Ok? && s[0] != LBRACKET && s[0] != LBRACE
    ensures Suffix(ParseValue(s, depth).rest, s)
  {
    hide ParseArray, ParseObject, JsonString.CloseQuote, JsonString.Decode, JsonNumber.Strtod, JsonNumber.RunLength;
  }

  lemma {:induction false} ArraySuffix(s: seq<byte>, depth: nat)
    requires Terminated(s) && s[0] == LBRACKET && ParseArray(s, depth).Ok?
    ensures Suffix(ParseArray(s, depth).rest, s)
    decreases |s|, 0
  {
    var first := SkipSpace(s[1..]);
    StepSuffix(s);
    if first[0] == RBRACKET {
      SuffixTrans(first[1..], first, s);
    } else {
      ElemsSuffix(first, depth + 1);
      SuffixTrans(ParseElems(first, depth + 1).rest, first, s);
    }
  }

  lemma {:induction false} ElemsSuffix(s: seq<byte>, depth: nat)
    requires Terminated(s) && ParseElems(s, depth).Ok?
    ensures Suffix(ParseElems(s, depth).rest, s)
    decreases |s|, 2
  {
    var v := ParseValue(s, depth);
    ValueSuffix(s, depth);
    ElemsAfterSuffix(v.value, v.rest, depth);
    SuffixTrans(ParseElems(s, depth).rest, v.rest, s);
  }

  lemma {:induction false} ElemsAfterSuffix(t: Value, s: seq<byte>, depth: nat)
    requires Terminated(s) && ElemsAfter(t, s, depth).Ok?
    ensures Suffix(ElemsAfter(t, s, depth).rest, s)
    decreases |s|, 3
  {
    var r := ElemsAfter(t, s, depth).rest;
    var next := SkipSpace(s);
    SkipSuffix(s);
    if next[0] == COMMA {
      StepSuffix(next);
      ElemsSuffix(SkipSpace(next[1..]), depth);
      SuffixTrans(r, SkipSpace(next[1..]), next);
    }
    SuffixTrans(r, next, s);
  }

  lemma {:induction false} ObjectSuffix(s: seq<byte>, depth: nat)
    requires Terminated(s) && s[0] == LBRACE && ParseObject(s, depth).Ok?
    ensures Suffix(ParseObject(s, depth).rest, s)
    decreases |s|, 0
  {
    var first := SkipSpace(s[1..]);
    StepSuffix(s);
    if first[0] == RBRACE {
      SuffixTrans(first[1..], first, s);
    } else {
      MembersSuffix(first, depth + 1);
      SuffixTrans(ParseMembers(first, depth + 1).rest, first, s);
    }
  }

  lemma KeySuffix(s: seq<byte>)
    requires Terminated(s) && ParseKey(s).Ok?
    ensures Suffix(ParseKey(s).rest, s)
  {
    hide SkipSpace, JsonString.CloseQuote, JsonString.Decode;
    var rest := JsonString.ParseString(s).rest;
    var colon := SkipSpace(rest);
    SkipSuffix(rest);
    StepSuffix(colon);
    SuffixTrans(ParseKey(s).rest, colon, rest);
    SuffixTrans(ParseKey(s).rest, rest, s);
  }

  lemma {:induction false} MembersSuffix(s: seq<byte>, depth: nat)
    requires Terminated(s) && ParseMembers(s, depth).Ok?
    ensures Suffix(ParseMembers(s, depth).rest, s)
    decreases |s|, 2
  {
    var k := ParseKey(s);
    KeySuffix(s);
    var v := ParseValue(k.rest, depth);
    ValueSuffix(k.rest, depth);
    MembersAfterSuffix(k.value, v.value, v.rest, depth);
    SuffixTrans(v.rest, k.rest, s);
    SuffixTrans(ParseMembers(s, depth).rest, v.rest, s);
  }

  lemma {:induction false} MembersAfterSuffix(k: seq<byte>, t: Value, s: seq<byte>, depth: nat)
    requires Terminated(s) && MembersAfter(k, t, s, depth).Ok?
    ensures Suffix(MembersAfter(k, t, s, depth).rest, s)
    decreases |s|, 3
  {
    var r := MembersAfter(k, t, s, depth).rest;
    var next := SkipSpace(s);
    SkipSuffix(s);
    if next[0] == COMMA {
      StepSuffix(next);
      MembersSuffix(SkipSpace(next[1..]), depth);
      SuffixTrans(r, SkipSpace(next[1..]), next);
    }
    SuffixTrans(r, next, s);
  }

  // ----- nesting -----

  lemma {:induction false} ValueNesting(s: seq<byte>, depth: nat)
    requires Terminated(s) && depth <= NESTING_LIMIT && ParseValue(s, depth).Ok?
    ensures depth + Depth(ParseValue(s, depth).value) <= NESTING_LIMIT
    decreases |s|, 1
  {
    ValueAt(s, depth);
    if s[0] == LBRACKET {
      hide ParseValue;
      ArrayNesting(s, depth);
    } else if s[0] == LBRACE {
      hide ParseValue;
      ObjectNesting(s, depth);
    }
  }

  lemma {:induction false} ArrayNesting(s: seq<byte>, depth: nat)
    requires Terminated(s) && ParseArray(s, depth).Ok?
    ensures depth + 1 + ElemsDepth(ParseArray(s, depth).value) <= NESTING_LIMIT
    decreases |s|, 0
  {
    hide SkipSpace, ParseElems;
    var first := SkipSpace(s[1..]);
    if first[0] != RBRACKET {
      ElemsNesting(first, depth + 1);
    }
  }

  lemma {:induction false} ObjectNesting(s: seq<byte>, depth: nat)
    requires Terminated(s) && ParseObject(s, depth).Ok?
    ensures depth + 1 + MembersDepth(ParseObject(s, depth).value) <= NESTING_LIMIT
    decreases |s|, 0
  {
    hide SkipSpace, ParseMembers;
    var first := SkipSpace(s[1..]);
    if first[0] != RBRACE {
      MembersNesting(first, depth + 1);
    }
  }

  lemma {:induction false} ElemsNesting(s: seq<byte>, depth: nat)
    requires Terminated(s) && depth <= NESTING_LIMIT && ParseElems(s, depth).Ok?
    ensures depth + ElemsDepth(ParseElems(s, depth).value) <= NESTING_LIMIT
    decreases |s|, 2
  {
    var v := ParseValue(s, depth);
    ValueNesting(s, depth);
    var next := SkipSpace(v.rest);
    if next[0] == COMMA {
      ElemsNesting(SkipSpace(next[1..]), depth);
    }
  }

  lemma {:induction false} MembersNesting(s: seq<byte>, depth: nat)
    requires Terminated(s) && depth <= NESTING_LIMIT && ParseMembers(s, depth).Ok?
    ensures depth + MembersDepth(ParseMembers(s, depth).value) <= NESTING_LIMIT
    decreases |s|, 2
  {
    hide SkipSpace, ParseKey, ParseValue;
    var k := ParseKey(s);
    var v := ParseValue(k.rest, depth);
    ValueNesting(k.rest, depth);
    var next := SkipSpace(v.rest);
    if next[0] == COMMA {
      MembersNesting(SkipSpace(next[1..]), depth);
    }
  }

  /** Every accepted text, with or without the end check: the rest is part of the text and the nesting is bounded. */
  lemma TextProgress(s: seq<byte>, requireEnd: bool)
    requires Terminated(s) && ParseText(s, requireEnd).Ok?
    ensures Suffix(ParseText(s, requireEnd).rest, s)
    ensures Depth(ParseText(s, requireEnd).value) <= NESTING_LIMIT
  {
    hide ParseValue, SkipSpace;
    var start := SkipSpace(s);
    var v := ParseValue(start, 0);
    SkipSuffix(s);
    ValueSuffix(start, 0);
    ValueNesting(start, 0);
    SkipSuffix(v.rest);
    SuffixTrans(v.rest, start, s);
    SuffixTrans(SkipSpace(v.rest), v.rest, s);
  }
}
