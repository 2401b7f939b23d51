/** Bytes, the character codes the C code compares against, and C strings. */
module Bytes {

  type byte = b: int | 0 <= b < 256

  const BACKSPACE: byte := 8
  const TAB: byte := 9
  const NEWLINE: byte := 10
  const FORM_FEED: byte := 12
  const RETURN: byte := 13
  const SPACE: byte := 32
  const QUOTE: byte := 34
  const STAR: byte := 42
  const PLUS: byte := 43
  const COMMA: byte := 44
  const MINUS: byte := 45
  const DOT: byte := 46
  const SLASH: byte := 47
  const ZERO: byte := 48
  const NINE: byte := 57
  const COLON: byte := 58
  const LBRACKET: byte := 91
  const BACKSLASH: byte := 92
  const RBRACKET: byte := 93
  const LETTER_B: byte := 98
  const LETTER_F: byte := 102
  const LETTER_N: byte := 110
  const LETTER_R: byte := 114
  const LETTER_T: byte := 116
  const LETTER_U: byte := 117
  const LBRACE: byte := 123
  const RBRACE: byte := 125

  datatype Option<T> = None | Some(value: T)

  /** A parser's outcome: the value and the unread bytes, or failure. */
  datatype Parsed<T> = Ok(value: T, rest: seq<byte>) | Fail

  /** A buffer whose last byte is NUL, as `strlen(value) + 1` bytes of a C string are. */
  predicate Terminated(s: seq<byte>) {
    |s| > 0 && s[|s| - 1] == 0
  }

  predicate NulFree(s: seq<byte>) {
    forall i :: 0 <= i < |s| ==> s[i] != 0
  }

  /** A C string with its terminator: NUL is the last byte and occurs nowhere else. */
  predicate CString(s: seq<byte>) {
    Terminated(s) && forall i :: 0 <= i < |s| - 1 ==> s[i] != 0
  }

  predicate Suffix(r: seq<byte>, s: seq<byte>) {
    |r| <= |s| && r == s[|s| - |r|..]
  }

  lemma SuffixTrans(a: seq<byte>, b: seq<byte>, c: seq<byte>)
    requires Suffix(a, b) && Suffix(b, c)
    ensures Suffix(a, c)
  {}

  lemma CStringSuffix(r: seq<byte>, s: seq<byte>)
    requires CString(s) && Suffix(r, s) && r != []
    ensures CString(r)
  {
    var n := |s| - |r|;
    assert forall i :: 0 <= i < |r| - 1 ==> r[i] == s[n + i];
  }

  /** The bytes a C reader of a char pointer sees: those in front of the first NUL. */
  function UpToNul(s: seq<byte>): (r: seq<byte>)
    ensures NulFree(r)
    ensures r <= s
    ensures |r| < |s| ==> s[|r|] == 0
  {
    if s == [] || s[0] == 0 then [] else [s[0]] + UpToNul(s[1..])
  }

  lemma {:induction false} UpToNulIdentity(s: seq<byte>)
    requires NulFree(s)
    ensures UpToNul(s) == s
  {
    if s != [] {
      UpToNulIdentity(s[1..]);
    }
  }

  lemma {:induction false} NulFreeConcat(a: seq<byte>, b: seq<byte>)
    requires NulFree(a) && NulFree(b)
    ensures NulFree(a + b)
  {
    forall i | 0 <= i < |a + b| ensures (a + b)[i] != 0 {
      assert (a + b)[i] == if i < |a| then a[i] else b[i - |a|];
    }
  }

  lemma Assoc(a: seq<byte>, b: seq<byte>, c: seq<byte>)
    ensures a + b + c == a + (b + c)
  {}

  lemma Assoc4(a: seq<byte>, b: seq<byte>, c: seq<byte>, d: seq<byte>)
    ensures a + b + c + d == a + (b + (c + d))
  {}

  lemma Assoc6(a: seq<byte>, b: seq<byte>, c: seq<byte>, d: seq<byte>, e: seq<byte>, f: seq<byte>)
    ensures a + b + c + d + e + f == a + (b + (c + (d + (e + f))))
  {
    Assoc4(a, b, c, d + e + f);
    Assoc4(a + b + c, d, e, f);
    Assoc(d, e, f);
  }

  lemma SliceFrom(s: seq<byte>, a: nat, b: nat)
    requires a + b <= |s|
    ensures s[a..][b..] == s[a + b..]
  {}

  lemma SliceSlice(s: seq<byte>, a: nat, b: nat, c: nat, d: nat)
    requires a <= b <= |s| && c <= d <= b - a
    ensures s[a..b][c..d] == s[a + c..a + d]
  {
    var t := s[a..b];
    assert forall i :: 0 <= i < d - c ==> t[c..d][i] == t[c + i] == s[a + c..a + d][i];
  }

  /** `all` with `bytes` written over it at `pos`. */
  function Overwrite(all: seq<byte>, pos: nat, bytes: seq<byte>): (r: seq<byte>)
    requires pos + |bytes| <= |all|
    ensures |r| == |all|
  {
    all[..pos] + bytes + all[pos + |bytes|..]
  }

  function ToLower(b: byte): byte {
    if 65 <= b <= 90 then b + 32 else b
  }

  function LowerAll(s: seq<byte>): (r: seq<byte>)
    ensures |r| == |s|
    ensures forall i :: 0 <= i < |s| ==> r[i] == ToLower(s[i])
  {
    if s == [] then [] else [ToLower(s[0])] + LowerAll(s[1..])
  }
}
