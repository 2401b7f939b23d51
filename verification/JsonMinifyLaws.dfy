/** What cJSON_Minify does with the bytes of any text, JSON or not: what is dropped, what is kept. */
module JsonMinifyLaws {
  import opened Bytes
  import opened JsonMinify
  import JsonString
  import JsonGrammar

  /** Spaces, tabs, carriage returns and newlines are dropped. */
  lemma BlankDropped(b: byte, rest: seq<byte>)
    requires Terminated(rest) && (b == 32 || b == 9 || b == 13 || b == 10)
    ensures MinifyText([b] + rest) == MinifyText(rest)
  {
    assert ([b] + rest)[1..] == rest;
  }

  lemma {:induction false} LineEndFound(c: seq<byte>, rest: seq<byte>)
    requires Terminated(rest) && NulFree(c) && 10 !in c && (rest[0] == 0 || rest[0] == 10)
    ensures LineEnd(c + rest) == rest
  {
    if c == [] {
      assert c + rest == rest;
    } else {
      assert (c + rest)[1..] == c[1..] + rest;
      LineEndFound(c[1..], rest);
    }
  }

  /** Two slashes hide everything up to the newline or the end of the text. */
  lemma LineComment(c: seq<byte>, rest: seq<byte>)
    requires Terminated(rest) && NulFree(c) && 10 !in c && (rest[0] == 0 || rest[0] == 10)
    ensures MinifyText([47, 47] + c + rest) == MinifyText(rest)
  {
    var s := [47, 47] + c + rest;
    assert s[1..] == [47] + c + rest;
    NulFreeConcat([47], c);
    LineEndFound([47] + c, rest);
  }

  /** The first star and slash of `c + [42, 47]` are its last two bytes. */
  predicate Unclosed(c: seq<byte>) {
    NulFree(c) && forall i :: 0 <= i < |c| ==> !(c[i] == 42 && (c + [42])[i + 1] == 47)
  }

  lemma {:induction false} BlockEndFound(c: seq<byte>, rest: seq<byte>)
    requires Terminated(rest) && Unclosed(c)
    ensures BlockEnd(c + [42, 47] + rest) == Some(rest)
  {
    var s := c + [42, 47] + rest;
    if c == [] {
      assert s[2..] == rest;
    } else {
      assert s[1..] == c[1..] + [42, 47] + rest;
      assert s[1] == (c + [42])[1];
      assert forall i :: 0 <= i < |c[1..]| ==> c[1..][i] == c[i + 1] && (c[1..] + [42])[i + 1] == (c + [42])[i + 2];
      BlockEndFound(c[1..], rest);
    }
  }

  /**
   * A slash and a star hide everything up to the first star and slash. The search starts at the star, so that a slash,
   * a star and a slash are a whole comment.
   */
  lemma BlockComment(c: seq<byte>, rest: seq<byte>)
    requires Terminated(rest) && Unclosed(c) && (c != [] ==> c[0] == 42)
    ensures MinifyText([47] + c + [42, 47] + rest) == MinifyText(rest)
  {
    var s := [47] + c + [42, 47] + rest;
    assert Unclosed([47] + c) by { CommentStart(c); }
    hide BlockEnd, Unclosed;
    BlockEndFound([47] + c, rest);
    assert s[1] == 42;
  }

  lemma CommentStart(c: seq<byte>)
    requires Unclosed(c)
    ensures Unclosed([47] + c)
  {
    var d := [47] + c;
    forall i | 0 <= i < |d|
      ensures d[i] != 0 && !(d[i] == 42 && (d + [42])[i + 1] == 47)
    {
      assert i > 0 ==> d[i] == c[i - 1] && (d + [42])[i + 1] == (c + [42])[i];
    }
  }

  /** A string is kept as it is, comments and blanks in it too. */
  lemma StringKept(b: seq<byte>, rest: seq<byte>)
    requires Terminated(rest) && JsonGrammar.Closes(b)
    ensures MinifyText([34] + b + [34] + rest) == JsonString.Prepend([34] + b + [34], MinifyText(rest))
  {
    hide JsonString.CloseQuote, JsonGrammar.Closes;
    var s := [34] + b + [34] + rest;
    JsonGrammar.ClosesScanned(b);
    JsonString.ScannedMore(b + [34], rest);
    assert s[1..] == b + [34] + rest;
    assert s[..|b| + 2] == [34] + b + [34] && s[|b| + 2..] == rest;
  }

  /** Every other byte is kept, a slash too unless it starts a comment. */
  lemma ByteKept(b: byte, rest: seq<byte>)
    requires Terminated(rest) && b !in [0, 32, 9, 13, 10, 34] && (b == 47 ==> rest[0] != 47 && rest[0] != 42)
    ensures MinifyText([b] + rest) == JsonString.Prepend([b], MinifyText(rest))
  {
    assert ([b] + rest)[1..] == rest;
  }

  /** The text ends at its NUL. */
  lemma EndKept(rest: seq<byte>)
    requires Terminated([0] + rest)
    ensures MinifyText([0] + rest) == Some([0])
  {}
}
