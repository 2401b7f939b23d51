/** cJSON_Minify: the text it computes, and the in-place code that computes it. */
module JsonMinify {
  import opened Bytes
  import JsonString

  predicate IsBlank(b: byte) {
    b == SPACE || b == TAB || b == RETURN || b == NEWLINE
  }

  /** Bytes that are copied one at a time. */
  predicate IsPlain(b: byte) {
    b != 0 && !IsBlank(b) && b != SLASH && b != QUOTE
  }

  /** The end of a double-slash comment: its newline, or the end of the text. */
  function LineEnd(s: seq<byte>): (r: seq<byte>)
    requires Terminated(s)
    ensures Terminated(r) && Suffix(r, s)
    ensures r[0] == 0 || r[0] == NEWLINE
  {
    if s[0] == 0 || s[0] == NEWLINE then (assert s == s[0..]; s) else LineEnd(s[1..])
  }

  /** What stands behind a block comment; None when it is not closed and the C code would leave the text. */
  function BlockEnd(s: seq<byte>): (r: Option<seq<byte>>)
    requires Terminated(s)
    ensures r.Some? ==> Terminated(r.value) && Suffix(r.value, s) && |r.value| < |s|
  {
    if s[0] == 0 then None
    else if s[0] == STAR && s[1] == SLASH then Some(s[2..])
    else BlockEnd(s[1..])
  }

  /** The minified text with its NUL; None when a string or block comment is not closed. */
  function MinifyText(s: seq<byte>): (r: Option<seq<byte>>)
    requires Terminated(s)
    ensures r.Some? ==> Terminated(r.value) && |r.value| <= |s|
    decreases |s|
  {
    if s[0] == 0 then Some([0])
    else if IsBlank(s[0]) then MinifyText(s[1..])
    else if s[0] == SLASH && s[1] == SLASH then MinifyText(LineEnd(s[1..]))
    else if s[0] == SLASH && s[1] == STAR then
      match BlockEnd(s)
      case Some(rest) => MinifyText(rest)
      case None => None
    else if s[0] == QUOTE then
      match JsonString.CloseQuote(s[1..])
      case Some(k) => JsonString.Prepend(s[..k + 2], MinifyText(s[k + 2..]))
      case None => None
    else JsonString.Prepend([s[0]], MinifyText(s[1..]))
  }

  // ----- the in-place code -----

  lemma LineEndStep(s: seq<byte>)
    requires Terminated(s)
    ensures LineEnd(s) == if s[0] == 0 || s[0] == NEWLINE then s else LineEnd(s[1..])
  {}

  lemma LineEndAt(json: array<byte>, read: nat)
    requires read < json.Length && Terminated(json[read..])
    ensures json[read] == 0 || json[read] == NEWLINE ==> LineEnd(json[read..]) == json[read..]
    ensures json[read] != 0 && json[read] != NEWLINE ==> read + 1 < json.Length && Terminated(json[read + 1..])
    ensures json[read] != 0 && json[read] != NEWLINE ==> LineEnd(json[read..]) == LineEnd(json[read + 1..])
  {
    hide LineEnd;
    LineEndStep(json[read..]);
    assert json[read] != 0 ==> json[read..][1..] == json[read + 1..];
  }

  lemma BlockEndStep(s: seq<byte>)
    requires Terminated(s) && BlockEnd(s).Some?
    ensures s[0] != 0 && |s| > 1
    ensures if s[0] == STAR && s[1] == SLASH then |s| > 2 && BlockEnd(s).value == s[2..]
            else Terminated(s[1..]) && BlockEnd(s[1..]) == BlockEnd(s)
  {}

  lemma BlockEndAt(json: array<byte>, read: nat)
    requires read < json.Length && Terminated(json[read..]) && BlockEnd(json[read..]).Some?
    ensures json[read] != 0 && read + 1 < json.Length && Terminated(json[read + 1..])
    ensures if json[read] == STAR && json[read + 1] == SLASH
            then read + 2 < json.Length && BlockEnd(json[read..]).value == json[read + 2..]
            else BlockEnd(json[read + 1..]) == BlockEnd(json[read..])
  {
    hide BlockEnd;
    var s := json[read..];
    BlockEndStep(s);
    assert s[1..] == json[read + 1..] && s[2..] == json[read + 2..];
  }

  /** Skip a double-slash comment up to its newline or the end of the text. */
  method SkipLine(json: array<byte>, start: nat) returns (read: nat)
    requires start < json.Length && Terminated(json[start..])
    ensures start <= read < json.Length && json[read..] == LineEnd(json[start..])
  {
    hide LineEnd, Terminated;
    read := start;
    while json[read] != 0 && json[read] != NEWLINE
      invariant start <= read < json.Length && Terminated(json[read..])
      invariant LineEnd(json[read..]) == LineEnd(json[start..])
      decreases json.Length - read
    {
      LineEndAt(json, read);
      read := read + 1;
    }
    LineEndAt(json, read);
  }

  /** Skip a block comment that is closed. */
  method SkipBlock(json: array<byte>, start: nat) returns (read: nat)
    requires start < json.Length && Terminated(json[start..]) && BlockEnd(json[start..]).Some?
    ensures start < read < json.Length && json[read..] == BlockEnd(json[start..]).value
  {
    hide BlockEnd, Terminated;
    read := start;
    BlockEndAt(json, read);
    while json[read] != 0 && !(json[read] == STAR && json[read + 1] == SLASH)
      invariant start <= read < json.Length - 1 && Terminated(json[read..])
      invariant BlockEnd(json[read..]) == BlockEnd(json[start..])
      decreases json.Length - read
    {
      BlockEndAt(json, read);
      read := read + 1;
      BlockEndAt(json, read);
    }
    BlockEndAt(json, read);
    read := read + 2;
  }

  /** `text` after its `n` bytes at `start` were moved down to `to`. */
  ghost function Moved(text: seq<byte>, start: nat, to: nat, n: nat): (r: seq<byte>)
    requires to <= start && start + n <= |text|
    ensures |r| == |text|
  {
    text[..to] + text[start..start + n] + text[to + n..]
  }

  lemma MovedStep(text: seq<byte>, start: nat, to: nat, n: nat)
    requires to <= start && start + n < |text|
    ensures Moved(text, start, to, n)[start + n] == text[start + n]
    ensures Moved(text, start, to, n)[to + n := text[start + n]] == Moved(text, start, to, n + 1)
  {}

  /** Move one more byte down. */
  method CopyByte(json: array<byte>, ghost text: seq<byte>, ghost start: nat, ghost to: nat, read: nat, into: nat)
    requires to <= start <= read < json.Length && into - to == read - start && |text| == json.Length
    requires json[..] == Moved(text, start, to, read - start)
    modifies json
    ensures json[..] == Moved(text, start, to, read + 1 - start)
  {
    hide Moved;
    MovedStep(text, start, to, read - start);
    ghost var before := json[..];
    json[into] := json[read];
    assert json[..] == before[into := text[read]];
  }

  /** Copy a string literal from `start` down to `to`, backslash pairs as they are. */
  method CopyString(json: array<byte>, start: nat, to: nat, ghost k: nat) returns (read: nat, into: nat)
    requires to <= start < json.Length && CString(json[start..]) && json[start] == QUOTE
    requires JsonString.CloseQuote(json[start + 1..]) == Some(k) && start + k + 2 < json.Length
    modifies json
    ensures read == start + k + 2 && into == to + k + 2
    ensures json[..] == Moved(old(json[..]), start, to, k + 2)
  {
    hide Moved, JsonString.CloseQuote;
    ghost var text := json[..];
    ghost var last := start + 1 + k;
    assert json[start + 1..] == text[start + 1..];
    LiteralNulFree(text, start, last) by { assert text[start..] == json[start..]; }
    MovedNone(text, start, to);
    CopyByte(json, text, start, to, start, to);
    read, into := start + 1, to + 1;
    MovedStep(text, start, to, 1);
    while json[read] != 0 && json[read] != QUOTE
      invariant start < read <= last && into - to == read - start
      invariant json[..] == Moved(text, start, to, read - start) && json[read] == text[read]
      invariant JsonString.CloseQuote(text[read..]) == Some(last - read)
      decreases json.Length - read
    {
      CloseQuoteAt(text, read, last);
      read, into := CopyToken(json, text, start, to, read, into);
    }
    JsonString.CloseQuoteStep(text[read..]);
    CopyByte(json, text, start, to, read, into);
    read, into := read + 1, into + 1;
  }

  /** One round of that loop: a byte, or a backslash and the byte it escapes. */
  method CopyToken(json: array<byte>, ghost text: seq<byte>, ghost start: nat, ghost to: nat, read: nat, into: nat)
    returns (read': nat, into': nat)
    requires to <= start <= read < |text| == json.Length && into - to == read - start
    requires read + JsonString.TokenLength(text[read..]) < json.Length
    requires json[..] == Moved(text, start, to, read - start) && json[read] == text[read]
    modifies json
    ensures read' == read + JsonString.TokenLength(text[read..]) && into' - to == read' - start
    ensures json[..] == Moved(text, start, to, read' - start) && json[read'] == text[read']
  {
    hide Moved;
    read', into' := read, into;
    if json[read] == BACKSLASH {
      CopyByte(json, text, start, to, read, into);
      read', into' := read + 1, into + 1;
    }
    CopyByte(json, text, start, to, read', into');
    read', into' := read' + 1, into' + 1;
    MovedStep(text, start, to, read' - start);
  }

  lemma CloseQuoteAt(text: seq<byte>, read: nat, last: nat)
    requires read <= last < |text| && JsonString.CloseQuote(text[read..]) == Some(last - read) && text[read] != QUOTE
    ensures var n := JsonString.TokenLength(text[read..]);
      read + n <= last && JsonString.CloseQuote(text[read + n..]) == Some(last - (read + n))
  {
    hide JsonString.CloseQuote;
    var n := JsonString.TokenLength(text[read..]);
    JsonString.CloseQuoteStep(text[read..]);
    assert text[read..][n..] == text[read + n..];
  }

  lemma MovedNone(text: seq<byte>, start: nat, to: nat)
    requires to <= start <= |text|
    ensures Moved(text, start, to, 0) == text
  {}

  lemma LiteralNulFree(text: seq<byte>, start: nat, last: nat)
    requires start <= last < |text| - 1 && CString(text[start..])
    ensures forall i :: start <= i <= last ==> text[i] != 0
  {
    assert forall i :: start <= i <= last ==> text[i] == text[start..][i - start];
  }

  /** In the middle of the work: `now` holds the result so far, and everything from the write cursor on is untouched. */
  ghost predicate Progress(now: seq<byte>, text: seq<byte>, read: nat, into: nat) {
    && into <= read < |text| == |now|
    && CString(text) && MinifyText(text).Some?
    && now[into..] == text[into..]
    && Terminated(text[read..]) && MinifyText(text[read..]).Some?
    && now[..into] + MinifyText(text[read..]).value == MinifyText(text).value
  }

  /** Nothing is written and the text from `next` on minifies to the same. */
  lemma SkipProgress(now: seq<byte>, text: seq<byte>, read: nat, into: nat, next: nat)
    requires Progress(now, text, read, into) && read <= next < |text| && Terminated(text[next..])
    requires MinifyText(text[next..]) == MinifyText(text[read..])
    ensures Progress(now, text, next, into)
  {
    hide MinifyText;
  }

  /** The bytes from `read` to `next` are moved down, and the rest minifies separately. */
  lemma CopyProgress(now: seq<byte>, text: seq<byte>, read: nat, into: nat, n: nat)
    requires Progress(now, text, read, into) && read + n < |text| && Terminated(text[read + n..])
    requires MinifyText(text[read..]) == JsonString.Prepend(text[read..read + n], MinifyText(text[read + n..]))
    ensures Progress(Moved(now, read, into, n), text, read + n, into + n)
  {
    hide MinifyText;
    var m := MinifyText(text[read + n..]).value;
    var next := Moved(now, read, into, n);
    assert now[read..read + n] == text[read..read + n] by {
      assert forall i :: read <= i < |text| ==> now[i] == now[into..][i - into] == text[into..][i - into] == text[i];
    }
    assert next[..into + n] == now[..into] + text[read..read + n];
    assert now[..into] + text[read..read + n] + m == now[..into] + (text[read..read + n] + m);
    assert next[into + n..] == now[into + n..] == now[into..][n..] == text[into..][n..] == text[into + n..];
  }

  lemma ProgressReads(now: seq<byte>, text: seq<byte>, read: nat, into: nat)
    requires Progress(now, text, read, into)
    ensures into <= read < |text| == |now| && MinifyText(text[read..]).Some?
    ensures now[read..] == text[read..] && CString(text[read..])
    ensures now[read] == text[read] == text[read..][0]
    ensures text[read] != 0 ==> read + 1 < |text| && Terminated(text[read + 1..]) && now[read + 1] == text[read + 1]
  {
    hide MinifyText;
    var k := read - into;
    assert now[read..] == now[into..][k..];
    assert text[read..] == text[into..][k..];
    CStringSuffix(text[read..], text);
    assert now[read..][0] == now[read] && text[read..][0] == text[read];
    if text[read] != 0 {
      assert now[read..][1] == now[read + 1] && text[read..][1] == text[read + 1];
    }
  }

  /** What the main loop does at the head of `rest`. */
  lemma RoundText(rest: seq<byte>)
    requires Terminated(rest) && rest[0] != 0 && MinifyText(rest).Some?
    ensures IsBlank(rest[0]) ==> MinifyText(rest[1..]) == MinifyText(rest)
    ensures rest[0] == SLASH && rest[1] == SLASH ==> MinifyText(LineEnd(rest[1..])) == MinifyText(rest)
    ensures rest[0] == SLASH && rest[1] == STAR ==>
      BlockEnd(rest).Some? && MinifyText(BlockEnd(rest).value) == MinifyText(rest)
    ensures rest[0] == QUOTE ==> JsonString.CloseQuote(rest[1..]).Some?
    ensures rest[0] == QUOTE ==>
      var k := JsonString.CloseQuote(rest[1..]).value;
      k + 2 < |rest| && MinifyText(rest) == JsonString.Prepend(rest[..k + 2], MinifyText(rest[k + 2..]))
    ensures !IsBlank(rest[0]) && rest[0] != QUOTE && (rest[0] == SLASH ==> rest[1] != SLASH && rest[1] != STAR)
      ==> MinifyText(rest) == JsonString.Prepend(rest[..1], MinifyText(rest[1..]))
  {
    hide LineEnd, BlockEnd, JsonString.CloseQuote;
    assert rest[..1] == [rest[0]];
  }

  /** White space or a comment at `read` is skipped. */
  method SkipRound(json: array<byte>, read: nat) returns (r: nat)
    requires read < json.Length && Terminated(json[read..]) && json[read] != 0 && MinifyText(json[read..]).Some?
    requires Skipped(json[read], json[read + 1])
    ensures read < r < json.Length && Terminated(json[r..]) && MinifyText(json[r..]) == MinifyText(json[read..])
  {
    ghost var rest := json[read..];
    RoundText(rest);
    assert rest[0] == json[read] && rest[1] == json[read + 1] && rest[1..] == json[read + 1..];
    hide MinifyText, LineEnd, BlockEnd;
    if IsBlank(json[read]) {
      r := read + 1;
    } else if json[read + 1] == SLASH {
      r := SkipLine(json, read + 1);
    } else {
      r := SkipBlock(json, read);
    }
  }

  predicate Skipped(b: byte, next: byte) {
    IsBlank(b) || (b == SLASH && next in {SLASH, STAR})
  }

  /** How many bytes the next round copies. */
  lemma CopyLength(now: seq<byte>, text: seq<byte>, read: nat, into: nat) returns (n: nat)
    requires Progress(now, text, read, into) && now[read] != 0 && read + 1 < |now| && !Skipped(now[read], now[read + 1])
    ensures n > 0 && read + n < |now| && into <= read && Progress(Moved(now, read, into, n), text, read + n, into + n)
    ensures CString(now[read..])
    ensures if now[read] == QUOTE then n >= 2 && JsonString.CloseQuote(now[read + 1..]) == Some(n - 2) else n == 1
  {
    hide Progress, MinifyText, JsonString.CloseQuote, Moved;
    ProgressReads(now, text, read, into);
    var rest := text[read..];
    RoundText(rest);
    assert rest[1..] == now[read..][1..] == now[read + 1..];
    assert rest[1] == now[read..][1] == now[read + 1];
    n := if now[read] == QUOTE then JsonString.CloseQuote(rest[1..]).value + 2 else 1;
    assert rest[..n] == text[read..read + n];
    assert rest[n..] == text[read + n..];
    CopyProgress(now, text, read, into, n);
  }

  /** A string literal, or one byte outside literals, is copied. */
  method CopyRound(json: array<byte>, ghost text: seq<byte>, read: nat, into: nat) returns (r: nat, w: nat)
    requires Progress(json[..], text, read, into) && json[read] != 0 && read + 1 < json.Length
    requires !Skipped(json[read], json[read + 1])
    modifies json
    ensures Progress(json[..], text, r, w) && r > read
  {
    hide Progress, JsonString.CloseQuote, Moved, MinifyText, CString;
    ghost var now := json[..];
    ghost var n := CopyLength(now, text, read, into);
    assert json[read..] == now[read..] && json[read + 1..] == now[read + 1..];
    if json[read] == QUOTE {
      r, w := CopyString(json, read, into, n - 2);
    } else {
      MovedNone(now, read, into);
      CopyByte(json, now, read, into, read, into);
      r, w := read + 1, into + 1;
    }
  }

  /** cJSON_Minify. The write cursor never passes the read cursor, so nothing unread is overwritten. */
  method Minify(json: array<byte>)
    requires CString(json[..]) && MinifyText(json[..]).Some?
    modifies json
    ensures var m := MinifyText(old(json[..])).value;
      json[..|m|] == m && json[|m|..] == old(json[|m|..])
  {
    ghost var text := json[..];
    var read: nat, into: nat := 0, 0;
    assert Progress(text, text, 0, 0) by {
      assert text[0..] == text;
      assert [] + MinifyText(text).value == MinifyText(text).value;
    }
    while json[read] != 0
      invariant read < json.Length && Progress(json[..], text, read, into)
      decreases json.Length - read
    {
      ghost var now := json[..];
      ProgressReads(now, text, read, into);
      hide Progress, MinifyText;
      if Skipped(json[read], json[read + 1]) {
        assert json[read..] == text[read..];
        var next := SkipRound(json, read);
        assert json[next..] == text[next..] by { assert now[read..][next - read..] == text[read..][next - read..]; }
        SkipProgress(now, text, read, into, next);
        read := next;
      } else {
        read, into := CopyRound(json, text, read, into);
      }
      ProgressReads(json[..], text, read, into);
    }
    ghost var before := json[..];
    ProgressReads(before, text, read, into);
    assert MinifyText(text[read..]).value == [0];
    hide MinifyText;
    json[into] := 0;
    assert json[..into + 1] == before[..into] + [0];
    assert json[into + 1..] == before[into..][1..];
    assert text[into + 1..] == text[into..][1..];
  }
}
