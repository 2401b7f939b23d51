/** The parser as cJSON runs it: one buffer, an offset and a depth that every routine updates. */
module ParseBuffers {
  import opened Bytes
  import opened Json
  import opened JsonText
  import opened JsonString
  import JsonNumber
  import JsonProgress

  // ----- writing UTF-8 -----

  /** The encoding loop of utf16_literal_to_utf8: continuation bytes from the last to the second, then the first. */
  method EncodeUtf8(codepoint: nat, output: array<byte>, at: nat) returns (length: nat)
    requires codepoint <= 0x10FFFF && at + |Utf8(codepoint)| <= output.Length
    modifies output
    ensures length == |Utf8(codepoint)|
    ensures output[..at] == old(output[..at]) && output[at..at + length] == Utf8(codepoint)
  {
    hide Utf8, Pow64;
    length := if codepoint < 0x80 then 1 else if codepoint < 0x800 then 2 else if codepoint < 0x10000 then 3 else 4;
    var mark := if length == 2 then 0xC0 else if length == 3 then 0xE0 else if length == 4 then 0xF0 else 0;
    Utf8Bytes(codepoint, length, mark);
    var cp, position := codepoint, length - 1;
    while position > 0
      invariant 0 <= position < length && output[..at] == old(output[..at])
      invariant cp == codepoint / Pow64(length - 1 - position)
      invariant forall i :: position < i < length ==> output[at + i] == Utf8(codepoint)[i]
    {
      NextSix(codepoint, length - 1 - position);
      output[at + position] := 0x80 + cp % 64;
      cp := cp / 64;
      position := position - 1;
    }
    output[at] := mark + cp;
    assert forall i :: 0 <= i < length ==> output[at..at + length][i] == Utf8(codepoint)[i];
  }

  /** The bytes of an encoding: a mark and the top bits, then six bits at a time. */
  lemma Utf8Bytes(cp: nat, length: nat, mark: nat)
    requires cp <= 0x10FFFF
    requires length == if cp < 0x80 then 1 else if cp < 0x800 then 2 else if cp < 0x10000 then 3 else 4
    requires mark == if length == 2 then 0xC0 else if length == 3 then 0xE0 else if length == 4 then 0xF0 else 0
    ensures |Utf8(cp)| == length && mark + cp / Pow64(length - 1) == Utf8(cp)[0]
    ensures forall i :: 0 < i < length ==> Utf8(cp)[i] == 0x80 + cp / Pow64(length - 1 - i) % 64
    ensures cp / Pow64(0) == cp
  {
    PowersOf64();
    hide Pow64;
  }

  lemma PowersOf64()
    ensures Pow64(0) == 1 && Pow64(1) == 64 && Pow64(2) == 4096 && Pow64(3) == 262144
  {}

  lemma NextSix(cp: nat, k: nat)
    requires k < 3
    ensures cp / Pow64(k) / 64 == cp / Pow64(k + 1)
  {
    PowersOf64();
    hide Pow64;
  }

  function Pow64(n: nat): (r: nat)
    requires n <= 3
    ensures r > 0
  {
    if n == 0 then 1 else if n == 1 then 64 else if n == 2 then 4096 else 262144
  }

  // ----- string literals -----

  method ParseHex4(content: seq<byte>, at: nat) returns (h: nat)
    requires at + 4 <= |content|
    ensures h == Hex4(content[at..at + 4])
    ensures HexNumber(content[at..at + 4], h)
  {
    Hex4Means(content[at..at + 4]);
    ghost var digits := content[at..at + 4];
    h := 0;
    var i := 0;
    while i < 4
      invariant 0 <= i <= 4
      invariant forall j :: 0 <= j < i ==> IsHex(digits[j])
      invariant h == HexPrefix(digits, i)
    {
      assert digits[i] == content[at + i];
      if !IsHex(content[at + i]) {
        return 0;
      }
      h := h + HexDigit(content[at + i]);
      if i < 3 {
        h := 16 * h;
      }
      i := i + 1;
    }
  }

  /** The number after `n` digits, shifted for the next digit except behind the last. */
  function HexPrefix(h: seq<byte>, n: nat): nat
    requires |h| == 4 && n <= 4 && forall j :: 0 <= j < n ==> IsHex(h[j])
  {
    if n == 0 then 0
    else if n == 1 then 16 * HexDigit(h[0])
    else if n == 2 then 256 * HexDigit(h[0]) + 16 * HexDigit(h[1])
    else if n == 3 then 4096 * HexDigit(h[0]) + 256 * HexDigit(h[1]) + 16 * HexDigit(h[2])
    else Hex4(h)
  }

  /** utf16_literal_to_utf8: returns the length of the escape, 0 on failure, and how much was written. */
  method DecodeUtf16(content: seq<byte>, pointer: nat, end: nat, output: array<byte>, at: nat)
    returns (sequence: nat, written: nat)
    requires pointer <= end < |content| && at <= output.Length
    requires var e := Utf16Literal(content[pointer..end + 1]); e.Some? ==> at + |e.value.bytes| <= output.Length
    modifies output
    ensures output[..at] == old(output[..at])
    ensures match Utf16Literal(content[pointer..end + 1])
      case None => sequence == 0
      case Some(e) =>
        sequence == e.length && written == |e.bytes|
        && at + written <= output.Length && output[at..at + written] == e.bytes
  {
    hide Utf8, Hex4, PairCode;
    sequence, written := 0, 0;
    if end - pointer < 6 {
      return;
    }
    var first := ParseHex4(content, pointer + 2);
    SliceSlice(content, pointer, end + 1, 2, 6);
    if IsLow(first) {
      return;
    }
    var codepoint, length := first, 6;
    if IsHigh(first) {
      if end - (pointer + 6) < 6 || content[pointer + 6] != BACKSLASH || content[pointer + 7] != LETTER_U {
        return;
      }
      var second := ParseHex4(content, pointer + 8);
      SliceSlice(content, pointer, end + 1, 8, 12);
      if !IsLow(second) {
        return;
      }
      codepoint, length := PairCode(first, second), 12;
    }
    written := EncodeUtf8(codepoint, output, at);
    sequence := length;
  }

  /** What is left of the literal from `pointer` on, its closing quote at `end` included. */
  function Left(content: seq<byte>, pointer: nat, end: nat): seq<byte>
    requires pointer <= end + 1 <= |content|
  {
    content[pointer..end + 1]
  }

  lemma LeftStep(content: seq<byte>, pointer: nat, end: nat, n: nat)
    requires pointer + n <= end + 1 <= |content|
    ensures Left(content, pointer, end)[n..] == Left(content, pointer + n, end)
  {}

  /** One round of pass two: the bytes at `pointer` are decoded to `output` from `at` on. */
  method DecodeRound(content: seq<byte>, pointer: nat, end: nat, output: array<byte>, at: nat)
    returns (ok: bool, length: nat, written: nat)
    requires pointer < end < |content| && at < output.Length
    requires var e := StepAt(Left(content, pointer, end)); e.Some? ==> at + |e.value.bytes| <= output.Length
    modifies output
    ensures output[..at] == old(output[..at])
    ensures ok == StepAt(Left(content, pointer, end)).Some?
    ensures ok ==>
      var e := StepAt(Left(content, pointer, end)).value;
      length == e.length && written == |e.bytes| && at + written <= output.Length && output[at..at + written] == e.bytes
  {
    ghost var p := Left(content, pointer, end);
    assert p[0] == content[pointer] && p[1] == content[pointer + 1];
    ok, length, written := true, 1, 1;
    if content[pointer] != BACKSLASH {
      output[at] := content[pointer];
    } else if content[pointer + 1] == LETTER_U {
      hide Utf16Literal;
      length, written := DecodeUtf16(content, pointer, end, output, at);
      ok := length != 0;
    } else {
      var b := ShortEscape(content[pointer + 1]);
      if b.Some? {
        output[at] := b.value;
        length := 2;
      } else {
        ok := false;
      }
    }
  }

  /**
   * Pass two of parse_string over the literal from `start` to its closing quote at `end`. The output has room
   * for what pass one counted and a NUL. Every read is inside the literal or its closing quote, every write is
   * inside the output, whether or not the literal turns out to be well formed.
   */
  method DecodeLiteral(content: seq<byte>, start: nat, end: nat, output: array<byte>)
    returns (ok: bool, pointer: nat, length: nat)
    requires start <= end < |content| && Scanned(Left(content, start, end))
    requires output.Length == Tokens(Left(content, start, end)) + 2
    modifies output
    ensures start <= pointer <= end + 1
    ensures ok <==> Decode(Left(content, start, end)).Some?
    ensures ok ==> length <= output.Length - 2 && output[..length] == Decode(Left(content, start, end)).value
  {
    hide Decode, StepAt, Room;
    ghost var goal := Decode(Left(content, start, end));
    ghost var off: nat := 0;
    RoomAtStart(Left(content, start, end));
    assert goal.Some? ==> [] + goal.value == goal.value;
    ok, pointer, length := true, start, 0;
    while pointer < end
      invariant start <= pointer <= end + 1 && length <= output.Length - 2
      invariant goal == Prepend(output[..length], Decode(Left(content, pointer, end)))
      invariant Room(Left(content, pointer, end), off, output.Length - 2 - length)
      decreases end + 1 - pointer
    {
      ghost var p := Left(content, pointer, end);
      ghost var done, next: nat := output[..length], 0;
      if StepAt(p).Some? {
        next := StepRoom(p, off, output.Length - 2 - length);
      }
      DecodeUnfold(p, done);
      var n, k;
      ok, n, k := DecodeRound(content, pointer, end, output, length);
      if !ok {
        return;
      }
      LeftStep(content, pointer, end, n);
      assert output[..length + k] == done + output[length..length + k];
      pointer, length, off := pointer + n, length + k, next;
    }
    DecodeEnd(Left(content, pointer, end));
  }

  /** Pass two at `p`, `off` bytes away from being in step with pass one, can finish within `budget` bytes. */
  ghost predicate Room(p: seq<byte>, off: nat, budget: int) {
    budget >= 0
    && (p != [] ==> off <= 1 && off < |p| && Scanned(p[off..]) && off + Tokens(p[off..]) <= budget)
  }

  lemma RoomAtStart(p: seq<byte>)
    requires Scanned(p)
    ensures Room(p, 0, Tokens(p))
  {
    hide Scanned, Tokens;
    assert p[0..] == p;
  }

  lemma StepRoom(p: seq<byte>, off: nat, budget: nat) returns (next: nat)
    requires |p| >= 2 && Room(p, off, budget) && StepAt(p).Some?
    ensures var e := StepAt(p).value; |e.bytes| <= budget && Room(p[e.length..], next, budget - |e.bytes|)
  {
    hide Scanned, Tokens, StepAt;
    next := StepFits(p, off);
  }

  lemma DecodeUnfold(p: seq<byte>, done: seq<byte>)
    requires |p| >= 2
    ensures Prepend(done, Decode(p)) ==
      if StepAt(p).Some? then Prepend(done + StepAt(p).value.bytes, Decode(p[StepAt(p).value.length..])) else None
  {
    hide StepAt;
    if Decode(p).Some? {
      Assoc(done, StepAt(p).value.bytes, Decode(p[StepAt(p).value.length..]).value);
    }
  }

  lemma DecodeEnd(p: seq<byte>)
    requires |p| <= 1
    ensures Decode(p) == Some([])
  {}

  // ----- chains built at their tail -----

  function AppendElem(es: Elems, t: Value): Elems {
    match es
    case Done => Elem(t, Done)
    case Elem(h, tail) => Elem(h, AppendElem(tail, t))
  }

  /** The elements read so far in front of what is still to be read. */
  function GlueElems(es: Elems, r: Parsed<Elems>): Parsed<Elems> {
    match es
    case Done => r
    case Elem(h, tail) => ConsElem(h, GlueElems(tail, r))
  }

  lemma GlueAppendElem(es: Elems, t: Value, r: Parsed<Elems>)
    ensures GlueElems(AppendElem(es, t), r) == GlueElems(es, ConsElem(t, r))
  {}

  lemma GlueElemsEnd(es: Elems, rest: seq<byte>)
    ensures GlueElems(es, Ok(Done, rest)) == Ok(es, rest) && GlueElems(es, Fail) == Fail
  {}

  function AppendMember(ms: Members, k: seq<byte>, t: Value): Members {
    match ms
    case End => Member(k, t, End)
    case Member(j, h, tail) => Member(j, h, AppendMember(tail, k, t))
  }

  function GlueMembers(ms: Members, r: Parsed<Members>): Parsed<Members> {
    match ms
    case End => r
    case Member(j, h, tail) => ConsMember(j, h, GlueMembers(tail, r))
  }

  lemma GlueAppendMember(ms: Members, k: seq<byte>, t: Value, r: Parsed<Members>)
    ensures GlueMembers(AppendMember(ms, k, t), r) == GlueMembers(ms, ConsMember(k, t, r))
  {}

  lemma GlueMembersEnd(ms: Members, rest: seq<byte>)
    ensures GlueMembers(ms, Ok(End, rest)) == Ok(ms, rest) && GlueMembers(ms, Fail) == Fail
  {}

  // ----- where the loops of parse_array and parse_object stand -----

  /** On a bracket or comma in front of more elements: what was read and what is still to read give `goal`. */
  ghost predicate PendingElems(rest: seq<byte>, depth: nat, elems: Elems, goal: Parsed<Elems>)
    requires Terminated(rest)
  {
    |rest| > 1 && GlueElems(elems, ParseElems(SkipSpace(rest[1..]), depth)) == goal
  }

  /** Behind the last element: only a closing bracket makes it a success. */
  ghost predicate ClosedElems(rest: seq<byte>, elems: Elems, goal: Parsed<Elems>)
    requires Terminated(rest)
  {
    goal == if rest[0] == RBRACKET then Ok(elems, rest[1..]) else Fail
  }

  lemma StartElems(rest: seq<byte>, depth: nat)
    requires Terminated(rest) && |rest| > 1
    ensures PendingElems(rest, depth, Done, ParseElems(SkipSpace(rest[1..]), depth))
  {
    hide ParseElems;
  }

  lemma CloseElems(rest: seq<byte>, elems: Elems, goal: Parsed<Elems>)
    requires Terminated(rest) && ClosedElems(rest, elems, goal)
    ensures if rest[0] == RBRACKET then |rest| > 1 && goal == Ok(elems, rest[1..]) else goal == Fail
  {}

  lemma PendingReadsElems(rest: seq<byte>, depth: nat, elems: Elems, goal: Parsed<Elems>)
    requires Terminated(rest) && PendingElems(rest, depth, elems, goal)
    ensures |rest| > 1
    ensures var v := ParseValue(SkipSpace(rest[1..]), depth);
      goal == if v.Ok? then GlueElems(elems, ElemsAfter(v.value, v.rest, depth)) else Fail
  {
    hide ParseElems, SkipSpace, ParseValue, ElemsAfter;
    ElemsStep(SkipSpace(rest[1..]), depth);
    GlueElemsEnd(elems, []);
  }

  lemma AfterElem(elems: Elems, t: Value, rest: seq<byte>, depth: nat, goal: Parsed<Elems>)
    requires Terminated(rest) && goal == GlueElems(elems, ElemsAfter(t, rest, depth))
    ensures var next := SkipSpace(rest);
      if next[0] == COMMA then PendingElems(next, depth, AppendElem(elems, t), goal)
      else ClosedElems(next, AppendElem(elems, t), goal)
  {
    hide ParseElems, SkipSpace, GlueElems;
    var next := SkipSpace(rest);
    GlueElemsEnd(elems, []);
    if next[0] == COMMA {
      GlueAppendElem(elems, t, ParseElems(SkipSpace(next[1..]), depth));
    } else if next[0] == RBRACKET {
      GlueAppendElem(elems, t, Ok(Done, next[1..]));
      GlueElemsEnd(AppendElem(elems, t), next[1..]);
    }
  }

  /** On a brace or comma in front of more members: what was read and what is still to read give `goal`. */
  ghost predicate PendingMembers(rest: seq<byte>, depth: nat, members: Members, goal: Parsed<Members>)
    requires Terminated(rest)
  {
    |rest| > 1 && GlueMembers(members, ParseMembers(SkipSpace(rest[1..]), depth)) == goal
  }

  /** Behind the last member: only a closing brace makes it a success. */
  ghost predicate ClosedMembers(rest: seq<byte>, members: Members, goal: Parsed<Members>)
    requires Terminated(rest)
  {
    goal == if rest[0] == RBRACE then Ok(members, rest[1..]) else Fail
  }

  lemma StartMembers(rest: seq<byte>, depth: nat)
    requires Terminated(rest) && |rest| > 1
    ensures PendingMembers(rest, depth, End, ParseMembers(SkipSpace(rest[1..]), depth))
  {
    hide ParseMembers;
  }

  lemma CloseMembers(rest: seq<byte>, members: Members, goal: Parsed<Members>)
    requires Terminated(rest) && ClosedMembers(rest, members, goal)
    ensures if rest[0] == RBRACE then |rest| > 1 && goal == Ok(members, rest[1..]) else goal == Fail
  {}

  lemma PendingReadsMembers(rest: seq<byte>, depth: nat, members: Members, goal: Parsed<Members>)
    requires Terminated(rest) && PendingMembers(rest, depth, members, goal)
    ensures |rest| > 1
    ensures ParseKey(SkipSpace(rest[1..])).Fail? ==> goal == Fail
    ensures ParseKey(SkipSpace(rest[1..])).Ok? ==>
      var k := ParseKey(SkipSpace(rest[1..]));
      var v := ParseValue(k.rest, depth);
      goal == if v.Ok? then GlueMembers(members, MembersAfter(k.value, v.value, v.rest, depth)) else Fail
  {
    GlueMembersEnd(members, []);
    hide SkipSpace, ParseValue, MembersAfter, ParseKey, GlueMembers;
    var s := SkipSpace(rest[1..]);
    if ParseKey(s).Ok? {
      MembersStep(s, depth);
      hide ParseMembers;
    }
  }

  lemma AfterMember(members: Members, k: seq<byte>, t: Value, rest: seq<byte>, depth: nat, goal: Parsed<Members>)
    requires Terminated(rest) && goal == GlueMembers(members, MembersAfter(k, t, rest, depth))
    ensures var next := SkipSpace(rest);
      if next[0] == COMMA then PendingMembers(next, depth, AppendMember(members, k, t), goal)
      else ClosedMembers(next, AppendMember(members, k, t), goal)
  {
    hide ParseMembers, SkipSpace, GlueMembers;
    var next := SkipSpace(rest);
    GlueMembersEnd(members, []);
    if next[0] == COMMA {
      GlueAppendMember(members, k, t, ParseMembers(SkipSpace(next[1..]), depth));
    } else if next[0] == RBRACE {
      GlueAppendMember(members, k, t, Ok(End, next[1..]));
      GlueMembersEnd(AppendMember(members, k, t), next[1..]);
    }
  }

  // ----- the buffer -----

  class ParseBuffer {
    const content: seq<byte>
    var offset: nat
    var depth: nat

    constructor (text: seq<byte>)
      requires Terminated(text)
      ensures Valid() && content == text && offset == 0 && depth == 0
    {
      content := text;
      offset, depth := 0, 0;
    }

    ghost predicate Valid()
      reads this`offset
    {
      offset < |content| && Terminated(content)
    }

    /** The bytes from the offset to the terminating NUL. */
    ghost function Rest(): (r: seq<byte>)
      requires Valid()
      reads this`offset
      ensures Terminated(r) && |r| == |content| - offset
    {
      content[offset..]
    }

    /** One byte further on. */
    lemma RestStep(n: nat)
      requires Valid() && offset + n < |content|
      ensures Rest()[n..] == content[offset + n..] && Rest()[n] == content[offset + n]
    {}

    /** The byte at the offset (buffer_at_offset). */
    function Here(): (b: byte)
      requires Valid()
      reads this`offset
      ensures b == Rest()[0]
    {
      content[offset]
    }

    method Advance(n: nat)
      requires Valid() && n < |Rest()|
      modifies this`offset
      ensures Valid() && offset == old(offset) + n && Rest() == old(Rest())[n..]
    {
      offset := offset + n;
    }

    /** Back to the byte in front. */
    method Retreat()
      requires Valid() && offset > 0
      modifies this`offset
      ensures Valid() && offset == old(offset) - 1 && |Rest()| > 1 && Rest()[1..] == old(Rest())
    {
      offset := offset - 1;
    }

    /** buffer_skip_whitespace */
    method SkipWhitespace()
      requires Valid()
      modifies this`offset
      ensures Valid() && Rest() == SkipSpace(old(Rest())) && offset >= old(offset)
    {
      ghost var goal := SkipSpace(Rest());
      while offset < |content| && content[offset] <= 32
        invariant old(offset) <= offset <= |content|
        invariant offset < |content| ==> SkipSpace(content[offset..]) == goal
        invariant offset == |content| ==> goal == content[offset - 1..]
        decreases |content| - offset
      {
        assert content[offset..][1..] == content[offset + 1..];
        offset := offset + 1;
      }
      if offset == |content| {
        offset := offset - 1;
      }
    }

    /** The copying loop of parse_number: at most 63 bytes and a NUL. */
    method CopyNumber(number: array<byte>) returns (i: nat)
      requires Valid() && number.Length == 64
      modifies number
      ensures i == JsonNumber.RunLength(Rest(), JsonNumber.NUMBER_LIMIT) < |Rest()|
      ensures number[..i] == Rest()[..i]
    {
      hide JsonNumber.RunLength, JsonNumber.IsNumberChar, Terminated;
      ghost var s := Rest();
      LastPlain(s);
      i := 0;
      assert s[0..] == s;
      while i < 63 && offset + i < |content| && JsonNumber.IsNumberChar(content[offset + i])
        invariant i <= 63 && i < |s| && offset == old(offset)
        invariant forall j :: 0 <= j < i ==> number[j] == s[j]
        invariant JsonNumber.RunLength(s, 63) == i + JsonNumber.RunLength(s[i..], 63 - i)
      {
        JsonNumber.RunLengthAt(s, i, 63 - i);
        number[i] := content[offset + i];
        i := i + 1;
      }
      JsonNumber.RunLengthAt(s, i, 63 - i);
      number[i] := 0;
    }

    /** parse_number: strtod on a temporary copy. */
    method ParseNumber() returns (ok: bool, value: real)
      requires Valid()
      modifies this`offset
      ensures Valid() && offset >= old(offset)
      ensures var r := JsonNumber.ParseNumber(old(Rest()));
        ok == r.Ok? && (ok ==> value == r.value && Rest() == r.rest)
    {
      hide JsonNumber.Strtod, JsonNumber.RunLength;
      var number := new byte[64];
      var i := CopyNumber(number);
      match JsonNumber.Strtod(number[..i]) {
        case None => ok, value := false, 0.0;
        case Some(x) =>
          RestStep(x.length);
          ok, value := true, x.value;
          offset := offset + x.length;
      }
    }

    /** Pass one of parse_string: the closing quote, and how many bytes of backslash pairs to leave out. */
    method FindClose() returns (found: bool, end: nat, skipped: nat)
      requires Valid() && content[offset] == QUOTE
      ensures found == CloseQuote(Rest()[1..]).Some?
      ensures found ==>
        var k := CloseQuote(Rest()[1..]).value;
        end == offset + 1 + k && k - skipped == TokenCount(Rest()[1..])
    {
      hide CloseQuote, TokenCount;
      ghost var s := Rest()[1..];
      assert content[offset + 1..] == s;
      end, skipped, found := offset + 1, 0, false;
      while end < |content| && content[end] != QUOTE
        invariant offset + 1 <= end <= |content|
        invariant CloseQuote(s) == Shift(CloseQuote(content[end..]), end - offset - 1)
        invariant CloseQuote(s).Some? ==>
          TokenCount(s) == end - offset - 1 - skipped + TokenCount(content[end..])
      {
        ScanStep(content[end..]);
        if content[end] == BACKSLASH {
          if end + 1 >= |content| {
            return;
          }
          assert content[end..][2..] == content[end + 2..];
          skipped := skipped + 1;
          end := end + 1;
        } else {
          assert content[end..][1..] == content[end + 1..];
        }
        end := end + 1;
      }
      ScanStep(content[end..]);
      found := end < |content|;
    }

    /** parse_string */
    method ParseString() returns (ok: bool, value: seq<byte>)
      requires Valid()
      modifies this`offset
      ensures offset <= |content|
      ensures var r := JsonString.ParseString(old(Rest()));
        ok == r.Ok? && (ok ==> Valid() && offset > old(offset) && value == r.value && Rest() == r.rest)
    {
      hide CloseQuote, Decode, TokenCount, UpToNul, JsonString.ParseString;
      ghost var s := Rest();
      StringCases(s);
      ok, value := false, [];
      var start := offset + 1;
      if content[offset] != QUOTE {
        offset := start;
        return;
      }
      var found, end, skipped := FindClose();
      if !found {
        offset := start;
        return;
      }
      ok, value := TakeString(end, skipped);
    }

    /** The rest of parse_string, once the closing quote is found at `end`: the output is allocated and filled. */
    method TakeString(end: nat, skipped: nat) returns (ok: bool, value: seq<byte>)
      requires Valid() && CloseQuote(Rest()[1..]).Some?
      requires var k := CloseQuote(Rest()[1..]).value;
        end == offset + 1 + k && k - skipped == TokenCount(Rest()[1..])
      modifies this`offset
      ensures offset <= |content|
      ensures var k := CloseQuote(old(Rest())[1..]).value; var bs := Decode(old(Rest())[1..k + 2]);
        && ok == bs.Some?
        && (ok ==> Valid() && offset > old(offset) && value == UpToNul(bs.value) && Rest() == old(Rest())[k + 2..])
    {
      hide CloseQuote, Decode, TokenCount, UpToNul;
      ghost var s := Rest();
      LiteralScanned(s[1..]);
      SliceTail(content, offset, end + 1);
      var output := new byte[end - offset - skipped + 1];
      var pointer, length;
      ok, pointer, length := DecodeLiteral(content, offset + 1, end, output);
      value := [];
      if !ok {
        offset := pointer;
        return;
      }
      output[length] := 0;
      value := UpToNul(output[..length]);
      RestStep(end + 1 - offset);
      offset := end + 1;
    }

    /** Does the text at the offset start with `word`? (can_read and strncmp) */
    predicate At(word: seq<byte>)
      requires offset <= |content|
      reads this`offset
    {
      offset + |word| <= |content| && content[offset..offset + |word|] == word
    }

    lemma AtIsPrefix(word: seq<byte>)
      requires Valid()
      ensures At(word) <==> word <= Rest()
      ensures At(word) && NulFree(word) && word != [] ==> offset + |word| < |content|
      ensures At(word) && NulFree(word) && word != [] ==> Rest()[|word|..] == content[offset + |word|..]
    {
      if offset + |word| <= |content| {
        assert Rest()[..|word|] == content[offset..offset + |word|];
      }
      if At(word) && NulFree(word) && word != [] {
        assert content[offset + |word| - 1] == word[|word| - 1];
      }
    }

    /** parse_value */
    method ParseValue() returns (ok: bool, item: Value)
      requires Valid()
      modifies this
      ensures offset <= |content|
      ensures var r := JsonText.ParseValue(old(Rest()), old(depth));
        && ok == r.Ok?
        && (ok ==> Valid() && offset > old(offset) && depth == old(depth) && item == r.value && Rest() == r.rest)
      decreases |content| - offset, 1
    {
      AtIsPrefix(NULL_TEXT);
      AtIsPrefix(FALSE_TEXT);
      AtIsPrefix(TRUE_TEXT);
      ok, item := true, Null;
      if At(NULL_TEXT) {
        offset := offset + 4;
      } else if At(FALSE_TEXT) {
        offset, item := offset + 5, Bool(false);
      } else if At(TRUE_TEXT) {
        offset, item := offset + 4, Bool(true);
      } else {
        ValueAt(Rest(), depth);
        hide JsonText.ParseArray, JsonText.ParseObject, JsonString.ParseString, JsonNumber.ParseNumber, CString;
        var b := content[offset];
        if b == QUOTE {
          var v;
          ok, v := ParseString();
          item := String(v);
        } else if b == MINUS || JsonNumber.IsDigit(b) {
          var v;
          ok, v := ParseNumber();
          item := Number(v);
        } else if b == LBRACKET {
          var v;
          ok, v := ParseArray();
          item := Array(v);
        } else if b == LBRACE {
          var v;
          ok, v := ParseObject();
          item := Object(v);
        } else {
          ok := false;
        }
      }
    }

    /** parse_array */
    method ParseArray() returns (ok: bool, elems: Elems)
      requires Valid()
      modifies this
      ensures offset <= |content|
      ensures var r := JsonText.ParseArray(old(Rest()), old(depth));
        && ok == r.Ok?
        && (ok ==> Valid() && offset > old(offset) && depth == old(depth) && elems == r.value && Rest() == r.rest)
      decreases |content| - offset, 0
    {
      hide ParseElems, SkipSpace, ParseBuffer.Rest;
      ok, elems := false, Done;
      if depth >= NESTING_LIMIT {
        return;
      }
      depth := depth + 1;
      if Here() != LBRACKET {
        return;
      }
      ghost var inner := Rest()[1..];
      Advance(1);
      SkipWhitespace();
      SkipAgain(inner);
      if Here() == RBRACKET {
        ok := true;
      } else {
        Retreat();
        ok, elems := ElemLoop();
      }
      if ok {
        depth := depth - 1;
        Advance(1);
      }
    }

    /** The loop of parse_array, entered on the byte in front of the first element and left on the closing byte. */
    method ElemLoop() returns (ok: bool, elems: Elems)
      requires Valid() && offset + 1 < |content|
      modifies this
      ensures offset <= |content|
      ensures var r := ParseElems(SkipSpace(old(Rest()[1..])), old(depth));
        ok == r.Ok? && (ok ==> Valid() && offset > old(offset) && depth == old(depth)
                               && elems == r.value && |Rest()| > 1 && Rest()[1..] == r.rest)
      decreases |content| - offset - 1, 4
    {
      hide PendingElems, ClosedElems, ParseElems, SkipSpace, ParseBuffer.Rest;
      ok, elems := true, Done;
      ghost var goal := ParseElems(SkipSpace(Rest()[1..]), depth);
      StartElems(Rest(), depth);
      var more := true;
      while more
        invariant Valid() && offset >= old(offset) && depth == old(depth)
        invariant more ==> PendingElems(Rest(), depth, elems, goal)
        invariant !more ==> offset > old(offset) && ClosedElems(Rest(), elems, goal)
        decreases |content| - offset, more
      {
        more, ok, elems := NextElem(elems, goal);
        if !ok {
          return;
        }
      }
      ok := Here() == RBRACKET;
      CloseElems(Rest(), elems, goal);
    }

    /** One round of that loop: over the bracket or comma and the next element. */
    method NextElem(elems: Elems, ghost goal: Parsed<Elems>) returns (more: bool, ok: bool, next: Elems)
      requires Valid() && PendingElems(Rest(), depth, elems, goal)
      modifies this
      ensures offset <= |content|
      ensures !ok ==> goal == Fail
      ensures ok ==> Valid() && offset > old(offset) && depth == old(depth)
      ensures ok && more ==> PendingElems(Rest(), depth, next, goal)
      ensures ok && !more ==> ClosedElems(Rest(), next, goal)
      decreases |content| - offset - 1, 3
    {
      hide PendingElems, ClosedElems, ParseElems, SkipSpace, JsonText.ParseValue;
      hide ParseBuffer.Rest, ElemsAfter, GlueElems, AppendElem;
      PendingReadsElems(Rest(), depth, elems, goal);
      Advance(1);
      SkipWhitespace();
      more, next := false, elems;
      var item;
      ok, item := ParseValue();
      if !ok {
        return;
      }
      ghost var after := Rest();
      AfterElem(elems, item, after, depth, goal);
      SkipWhitespace();
      next := AppendElem(elems, item);
      more := Here() == COMMA;
    }

    /** parse_object */
    method ParseObject() returns (ok: bool, members: Members)
      requires Valid()
      modifies this
      ensures offset <= |content|
      ensures var r := JsonText.ParseObject(old(Rest()), old(depth));
        && ok == r.Ok?
        && (ok ==> Valid() && offset > old(offset) && depth == old(depth) && members == r.value && Rest() == r.rest)
      decreases |content| - offset, 0
    {
      hide ParseMembers, SkipSpace, ParseBuffer.Rest;
      ok, members := false, End;
      if depth >= NESTING_LIMIT {
        return;
      }
      depth := depth + 1;
      if Here() != LBRACE {
        return;
      }
      ghost var inner := Rest()[1..];
      Advance(1);
      SkipWhitespace();
      SkipAgain(inner);
      if Here() == RBRACE {
        ok := true;
      } else {
        Retreat();
        ok, members := MemberLoop();
      }
      if ok {
        depth := depth - 1;
        Advance(1);
      }
    }

    /** The loop of parse_object, entered on the byte in front of the first member and left on the closing byte. */
    method MemberLoop() returns (ok: bool, members: Members)
      requires Valid() && offset + 1 < |content|
      modifies this
      ensures offset <= |content|
      ensures var r := ParseMembers(SkipSpace(old(Rest()[1..])), old(depth));
        ok == r.Ok? && (ok ==> Valid() && offset > old(offset) && depth == old(depth)
                               && members == r.value && |Rest()| > 1 && Rest()[1..] == r.rest)
      decreases |content| - offset - 1, 4
    {
      hide PendingMembers, ClosedMembers, ParseMembers, SkipSpace, ParseBuffer.Rest;
      ok, members := true, End;
      ghost var goal := ParseMembers(SkipSpace(Rest()[1..]), depth);
      StartMembers(Rest(), depth);
      var more := true;
      while more
        invariant Valid() && offset >= old(offset) && depth == old(depth)
        invariant more ==> PendingMembers(Rest(), depth, members, goal)
        invariant !more ==> offset > old(offset) && ClosedMembers(Rest(), members, goal)
        decreases |content| - offset, more
      {
        more, ok, members := NextMember(members, goal);
        if !ok {
          return;
        }
      }
      ok := Here() == RBRACE;
      CloseMembers(Rest(), members, goal);
    }

    /** One round of that loop: over the bracket or comma and the next member. */
    method NextMember(members: Members, ghost goal: Parsed<Members>) returns (more: bool, ok: bool, next: Members)
      requires Valid() && PendingMembers(Rest(), depth, members, goal)
      modifies this
      ensures offset <= |content|
      ensures !ok ==> goal == Fail
      ensures ok ==> Valid() && offset > old(offset) && depth == old(depth)
      ensures ok && more ==> PendingMembers(Rest(), depth, next, goal)
      ensures ok && !more ==> ClosedMembers(Rest(), next, goal)
      decreases |content| - offset - 1, 3
    {
      hide PendingMembers, ClosedMembers, ParseMembers, SkipSpace, JsonText.ParseValue, JsonText.ParseKey;
      hide ParseBuffer.Rest, MembersAfter, GlueMembers, AppendMember;
      PendingReadsMembers(Rest(), depth, members, goal);
      Advance(1);
      SkipWhitespace();
      more, next := false, members;
      var key;
      ok, key := ParseKey();
      if ok {
        more, ok, next := NextValue(members, key, goal);
      }
    }

    /** The value of the member named `key`. */
    method NextValue(members: Members, key: seq<byte>, ghost goal: Parsed<Members>)
      returns (more: bool, ok: bool, next: Members)
      requires Valid()
      requires var v := JsonText.ParseValue(Rest(), depth);
        goal == if v.Ok? then GlueMembers(members, MembersAfter(key, v.value, v.rest, depth)) else Fail
      modifies this
      ensures offset <= |content|
      ensures !ok ==> goal == Fail
      ensures ok ==> Valid() && offset > old(offset) && depth == old(depth)
      ensures ok && more ==> PendingMembers(Rest(), depth, next, goal)
      ensures ok && !more ==> ClosedMembers(Rest(), next, goal)
      decreases |content| - offset, 2
    {
      hide PendingMembers, ClosedMembers, SkipSpace, JsonText.ParseValue;
      hide ParseBuffer.Rest, MembersAfter, GlueMembers, AppendMember;
      more, next := false, members;
      var item;
      ok, item := ParseValue();
      if !ok {
        return;
      }
      AfterMember(members, key, item, Rest(), depth, goal);
      SkipWhitespace();
      next := AppendMember(members, key, item);
      more := Here() == COMMA;
    }

    /** A member's name and colon, up to the first byte of its value. */
    method ParseKey() returns (ok: bool, key: seq<byte>)
      requires Valid()
      modifies this`offset
      ensures offset <= |content|
      ensures var r := JsonText.ParseKey(old(Rest()));
        ok == r.Ok? && (ok ==> Valid() && offset > old(offset) && key == r.value && Rest() == r.rest)
    {
      hide SkipSpace, JsonString.ParseString, ParseBuffer.Rest;
      ok, key := ParseString();
      if !ok {
        return;
      }
      SkipWhitespace();
      if Here() != COLON {
        ok := false;
        return;
      }
      Advance(1);
      SkipWhitespace();
    }
  }

  /** cJSON_ParseWithOpts: the tree, and where parsing ended or, on failure, the position of the error. */
  method ParseWithOpts(text: seq<byte>, requireEnd: bool) returns (item: Option<Value>, position: nat)
    requires CString(text)
    ensures position < |text|
    ensures match ParseText(text, requireEnd)
      case Ok(t, rest) => item == Some(t) && text[position..] == rest
      case Fail => item == None
    ensures item.None? && ParseText(text, false).Ok? ==> text[position..] == SkipSpace(ParseText(text, false).rest)
    ensures item.Some? ==> Depth(item.value) <= 1000
  {
    hide ParseValue, SkipSpace;
    if ParseText(text, requireEnd).Ok? {
      JsonProgress.TextProgress(text, requireEnd);
    }
    var buffer := new ParseBuffer(text);
    assert text[0..] == text;
    buffer.SkipWhitespace();
    var ok, t := buffer.ParseValue();
    if ok && requireEnd {
      buffer.SkipWhitespace();
      ok := buffer.content[buffer.offset] == 0;
    }
    item := if ok then Some(t) else None;
    position := if buffer.offset < |text| then buffer.offset else |text| - 1;
  }

  /** One token of pass one. */
  lemma ScanStep(s: seq<byte>)
    ensures s == [] ==> CloseQuote(s) == None
    ensures s != [] && s[0] == QUOTE ==> CloseQuote(s) == Some(0) && TokenCount(s) == 0
    ensures s != [] && s[0] != QUOTE && |s| < TokenLength(s) ==> CloseQuote(s) == None
    ensures s != [] && s[0] != QUOTE && |s| >= TokenLength(s) ==>
      CloseQuote(s) == Shift(CloseQuote(s[TokenLength(s)..]), TokenLength(s))
    ensures s != [] && s[0] != QUOTE && CloseQuote(s).Some? ==> TokenCount(s) == 1 + TokenCount(s[TokenLength(s)..])
  {}

  /** The terminator is not part of a number. */
  lemma LastPlain(s: seq<byte>)
    requires Terminated(s)
    ensures !JsonNumber.IsNumberChar(s[|s| - 1])
  {}

  lemma SliceTail(content: seq<byte>, a: nat, b: nat)
    requires a + 1 <= b <= |content|
    ensures content[a..][1..][..b - a - 1] == content[a + 1..b] == content[a..][1..b - a]
    ensures content[a..][b - a..] == content[b..]
  {}
}
