/** The printer as cJSON runs it: a buffer that is grown or fixed, and an offset that sometimes lags behind. */
module PrintBuffers {
  import opened Bytes
  import opened Json
  import opened JsonRender
  import opened JsonText
  import opened JsonNumber

  const INT_MAX: nat := 0x7FFF_FFFF

  lemma OverwriteNone(all: seq<byte>, pos: nat)
    requires pos <= |all|
    ensures Overwrite(all, pos, []) == all
  {}

  lemma OverwriteNext(all: seq<byte>, pos: nat, a: seq<byte>, b: seq<byte>)
    requires pos + |a| + |b| <= |all|
    ensures Overwrite(Overwrite(all, pos, a), pos + |a|, b) == Overwrite(all, pos, a + b)
  {}

  lemma OverwriteParts(all: seq<byte>, pos: nat, bytes: seq<byte>, n: nat)
    requires pos + |bytes| <= n <= |all|
    ensures Overwrite(all, pos, bytes)[..pos + |bytes|] == all[..pos] + bytes
    ensures Overwrite(all, pos, bytes)[..pos] == all[..pos]
    ensures Overwrite(all, pos, bytes)[n..] == all[n..]
  {}

  lemma {:induction false} EscapesOnly(s: seq<byte>)
    ensures |EscapeAll(s)| >= |s|
    ensures |EscapeAll(s)| == |s| ==> EscapeAll(s) == s
  {
    if s != [] {
      EscapesOnly(s[1..]);
    }
  }

  class PrintBuffer {
    var buffer: array<byte>
    var length: nat
    var offset: nat
    var depth: nat
    const noalloc: bool
    const format: bool

    constructor (buffer: array<byte>, length: nat, noalloc: bool, format: bool)
      requires length <= buffer.Length && length <= INT_MAX
      ensures Valid() && this.buffer == buffer && this.length == length && offset == 0 && depth == 0
      ensures this.noalloc == noalloc && this.format == format
    {
      this.buffer, this.length, this.noalloc, this.format := buffer, length, noalloc, format;
      offset, depth := 0, 0;
    }

    /** The buffer holds `length` bytes, and the offset is inside it once it has a length. */
    ghost predicate Valid()
      reads this`buffer, this`length, this`offset
    {
      length <= buffer.Length && length <= INT_MAX && (if length > 0 then offset < length else offset == 0)
    }

    /** What was printed up to the offset. */
    ghost function Prefix(): (s: seq<byte>)
      requires Valid()
      reads this`buffer, this`length, this`offset, buffer
      ensures |s| == offset
    {
      buffer[..offset]
    }

    /** How long the text can become. */
    ghost function Limit(): nat
      reads this`length
    {
      if noalloc then length else INT_MAX
    }

    /** The bytes of a fixed buffer that are not the printer's to write. */
    ghost function Tail(): seq<byte>
      requires length <= buffer.Length
      reads this`buffer, this`length, buffer
    {
      if noalloc then buffer[length..] else []
    }

    /** `s` stands in the buffer with its NUL, and the offset is at most at its end: strlen finds the rest. */
    ghost predicate Shows(s: seq<byte>)
      reads this`buffer, this`length, this`offset, buffer
    {
      Valid() && offset <= |s| < length && buffer[..|s|] == s && buffer[|s|] == 0 && NulFree(s[offset..])
    }

    /** ensure: room for `needed` more bytes and a NUL, by reallocation if that is allowed. */
    method Ensure(needed: nat) returns (ok: bool)
      requires Valid()
      modifies this`buffer, this`length
      ensures Valid() && Prefix() == old(Prefix())
      ensures ok <==> offset + needed + 1 <= old(Limit())
      ensures ok ==> offset + needed + 1 <= length
      ensures buffer == old(buffer) || fresh(buffer)
      ensures noalloc || !ok ==> buffer == old(buffer) && length == old(length)
    {
      if length > 0 && offset >= length {
        return false;
      }
      if needed > INT_MAX {
        return false;
      }
      var total := needed + offset + 1;
      if total <= length {
        return true;
      }
      if noalloc {
        return false;
      }
      var size;
      if total > INT_MAX / 2 {
        if total > INT_MAX {
          return false;
        }
        size := INT_MAX;
      } else {
        size := total * 2;
      }
      var larger := new byte[size];
      var i := 0;
      while i < size && i < buffer.Length
        invariant 0 <= i <= size && i <= buffer.Length
        invariant buffer == old(buffer) && length == old(length)
        invariant forall j :: 0 <= j < i ==> larger[j] == buffer[j]
      {
        larger[i] := buffer[i];
        i := i + 1;
      }
      assert larger[..offset] == buffer[..offset];
      length, buffer := size, larger;
      ok := true;
    }

    /** Write `bytes` at `pos`, as strcpy, memcpy and the byte stores do. */
    method Store(pos: nat, bytes: seq<byte>)
      requires Valid() && pos + |bytes| <= length
      modifies buffer
      ensures buffer[..] == Overwrite(old(buffer[..]), pos, bytes)
    {
      var i := 0;
      while i < |bytes|
        invariant 0 <= i <= |bytes|
        invariant forall j :: 0 <= j < i ==> buffer[pos + j] == bytes[j]
        invariant forall j :: 0 <= j < pos || pos + i <= j < buffer.Length ==> buffer[j] == old(buffer[j])
      {
        buffer[pos + i] := bytes[i];
        i := i + 1;
      }
    }

    /** update_offset: move to the NUL. */
    method UpdateOffset(ghost s: seq<byte>)
      requires Shows(s)
      modifies this`offset
      ensures Valid() && offset == |s| < length && Prefix() == s
    {
      assert forall i :: offset <= i < |s| ==> s[offset..][i - offset] == s[i] == buffer[i];
      while buffer[offset] != 0
        invariant old(offset) <= offset <= |s| && Valid()
        decreases |s| - offset
      {
        offset := offset + 1;
      }
    }

    /** Reserve `needed` bytes, write `bytes` at the offset and move on by `advance`. */
    method Emit(needed: nat, bytes: seq<byte>, advance: nat) returns (ok: bool)
      requires Valid() && advance <= |bytes| <= needed + 1 && advance <= needed
      modifies this`buffer, this`length, this`offset, buffer
      ensures Valid() && (buffer == old(buffer) || fresh(buffer))
      ensures ok <==> old(offset) + needed + 1 <= old(Limit())
      ensures ok ==> offset == old(offset) + advance && old(offset) + |bytes| <= length
      ensures ok ==> buffer[..old(offset) + |bytes|] == old(Prefix()) + bytes
      ensures ok ==> Prefix() == old(Prefix()) + bytes[..advance]
      ensures Tail() == old(Tail()) && (noalloc ==> buffer == old(buffer) && length == old(length))
    {
      hide Overwrite;
      ok := Ensure(needed);
      if ok {
        OverwriteParts(buffer[..], offset, bytes, length);
        ghost var all := buffer[..];
        Store(offset, bytes);
        assert buffer[..offset + |bytes|] == buffer[..][..offset + |bytes|];
        assert buffer[length..] == buffer[..][length..] == all[length..];
        assert buffer[..offset + advance] == buffer[..][..offset + |bytes|][..offset + advance];
        offset := offset + advance;
      }
    }

    /** The bytes behind the offset that Emit left, as a text with its NUL. */
    lemma ShowsText(s: seq<byte>)
      requires Valid() && offset <= |s| < length && buffer[..|s| + 1] == s + [0] && NulFree(s[offset..])
      ensures Shows(s)
    {
      assert buffer[..|s|] == buffer[..|s| + 1][..|s|];
      assert buffer[|s|] == buffer[..|s| + 1][|s|];
    }

    /** print_number: sprintf and copy; the only routine that moves the offset to the end of what it wrote. */
    method PrintNumber(n: real) returns (ok: bool)
      requires Valid() && PrintableNumber(n)
      modifies this`buffer, this`length, this`offset, buffer
      ensures Valid() && (buffer == old(buffer) || fresh(buffer))
      ensures ok <==> old(offset) + |Decimal(n.Floor)| + 1 <= old(Limit())
      ensures ok ==> Shows(old(Prefix()) + Decimal(n.Floor))
      ensures Tail() == old(Tail()) && (noalloc ==> buffer == old(buffer) && length == old(length))
    {
      var number := Decimal(n.Floor);
      ghost var before := Prefix();
      PrintedLength(n.Floor);
      if |number| > 25 {
        return false;
      }
      hide Decimal;
      ok := Emit(|number|, number + [0], |number|);
      if ok {
        Assoc(before, number, [0]);
        assert (before + number)[offset..] == [];
        ShowsText(before + number);
      }
    }

    /** The counting loop of print_string_ptr: how many bytes escaping adds. */
    method CountEscapes(input: seq<byte>) returns (escapes: nat)
      ensures |input| + escapes == |EscapeAll(input)|
    {
      escapes := 0;
      var i := 0;
      assert input[0..] == input;
      while i < |input|
        invariant 0 <= i <= |input|
        invariant |input| + escapes == i + escapes + |input[i..]|
        invariant i + escapes + |EscapeAll(input[i..])| == |EscapeAll(input)|
      {
        var b := input[i];
        assert input[i..][0] == b && input[i..][1..] == input[i + 1..];
        if b == QUOTE || b == BACKSLASH || b == BACKSPACE || b == FORM_FEED || b == NEWLINE || b == RETURN || b == TAB {
          escapes := escapes + 1;
        } else if b < 32 {
          escapes := escapes + 5;
        }
        i := i + 1;
      }
    }

    /** The copying loop of print_string_ptr, from `pos` on. */
    method StoreEscaped(pos: nat, input: seq<byte>)
      requires Valid() && pos + |EscapeAll(input)| <= length
      modifies buffer
      ensures buffer[..] == Overwrite(old(buffer[..]), pos, EscapeAll(input))
    {
      hide EscapeByte, Overwrite;
      ghost var all, done := buffer[..], [];
      var i, at := 0, pos;
      assert input[0..] == input;
      OverwriteNone(all, pos);
      while i < |input|
        invariant 0 <= i <= |input| && at == pos + |done| && Valid()
        invariant done + EscapeAll(input[i..]) == EscapeAll(input)
        invariant buffer[..] == Overwrite(all, pos, done)
      {
        var e := EscapeByte(input[i]);
        assert EscapeAll(input[i..]) == e + EscapeAll(input[i + 1..]) by { assert input[i..][1..] == input[i + 1..]; }
        hide EscapeAll;
        OverwriteNext(all, pos, done, e);
        Assoc(done, e, EscapeAll(input[i + 1..]));
        Store(at, e);
        i, at, done := i + 1, at + |e|, done + e;
      }
      assert done + [] == done;
    }

    /** print_string_ptr: the text is written with its NUL, and the offset stays in front of it. */
    method PrintString(input: seq<byte>) returns (ok: bool)
      requires Valid() && NulFree(input)
      modifies this`buffer, this`length, buffer
      ensures Valid() && (buffer == old(buffer) || fresh(buffer))
      ensures ok <==> offset + |RenderString(input)| + 2 <= old(Limit())
      ensures ok ==> Shows(old(Prefix()) + RenderString(input))
      ensures Tail() == old(Tail()) && (noalloc ==> buffer == old(buffer) && length == old(length))
    {
      hide EscapeAll, Overwrite;
      ghost var before := Prefix();
      var escapes := CountEscapes(input);
      ok := Ensure(|input| + escapes + 3);
      if ok {
        ghost var text := RenderString(input);
        StoreString(input, escapes);
        EscapedShown(input, before);
        Assoc(before, text, [0]);
        ShowsText(before + text);
      }
    }

    /** Quote, body with or without escapes, quote and NUL. */
    method StoreString(input: seq<byte>, escapes: nat)
      requires Valid() && |input| + escapes == |EscapeAll(input)| && offset + |RenderString(input)| + 1 <= length
      modifies buffer
      ensures Valid() && buffer[..offset + |RenderString(input)| + 1] == old(Prefix()) + (RenderString(input) + [0])
      ensures buffer[length..] == old(buffer[length..])
    {
      hide EscapeAll, Overwrite;
      ghost var all, e := buffer[..], EscapeAll(input);
      var end := offset + |input| + escapes + 1;
      EscapesOnly(input);
      OverwriteNext(all, offset, [QUOTE], e);
      OverwriteNext(all, offset, [QUOTE] + e, [QUOTE, 0]);
      Assoc([QUOTE] + e, [QUOTE], [0]);
      OverwriteParts(all, offset, RenderString(input) + [0], length);
      Store(offset, [QUOTE]);
      if escapes == 0 {
        Store(offset + 1, input);
      } else {
        StoreEscaped(offset + 1, input);
      }
      Store(end, [QUOTE, 0]);
      assert [QUOTE, 0] == [QUOTE] + [0];
      assert buffer[..end + 2] == buffer[..][..end + 2];
      assert buffer[length..] == buffer[..][length..];
    }

    /** The room a value needs behind the offset: its text, a NUL, and one byte more unless it is a number. */
    ghost function Needed(t: Value): nat
      reads this`depth
    {
      |Render(t, format, depth)| + if t.Number? then 1 else 2
    }

    /** print_value: succeeds exactly when the text and its slack fit; the offset may be left in front of the text. */
    method PrintValue(t: Value) returns (ok: bool)
      requires Valid() && Printable(t)
      modifies this`buffer, this`length, this`offset, this`depth, buffer
      ensures Valid() && (buffer == old(buffer) || fresh(buffer))
      ensures Tail() == old(Tail()) && (noalloc ==> buffer == old(buffer) && length == old(length))
      ensures ok <==> old(offset) + old(Needed(t)) <= old(Limit())
      ensures ok ==> depth == old(depth) && Shows(old(Prefix()) + Render(t, format, depth))
      decreases t, 1
    {
      match t
      case Null => ok := PutWord(NULL_TEXT);
      case Bool(b) => ok := PutWord(if b then TRUE_TEXT else FALSE_TEXT);
      case Number(n) => ok := PrintNumber(n);
      case String(s) => ok := PrintString(s);
      case Array(es) => ok := PrintArray(es);
      case Object(ms) => ok := PrintObject(ms);
    }

    /** A word and its NUL behind the offset, which stays: the constants and the closing bytes. */
    method PutWord(word: seq<byte>) returns (ok: bool)
      requires Valid() && NulFree(word)
      modifies this`buffer, this`length, this`offset, buffer
      ensures Valid() && (buffer == old(buffer) || fresh(buffer))
      ensures Tail() == old(Tail()) && (noalloc ==> buffer == old(buffer) && length == old(length))
      ensures ok <==> old(offset) + |word| + 2 <= old(Limit())
      ensures ok ==> Shows(old(Prefix()) + word)
    {
      ghost var before := Prefix();
      ok := Emit(|word| + 1, word + [0], 0);
      if ok {
        Assoc(before, word, [0]);
        assert (before + word)[offset..] == word;
        ShowsText(before + word);
      }
    }

    /** print_array */
    method PrintArray(es: Elems) returns (ok: bool)
      requires Valid() && PrintableElems(es)
      modifies this`buffer, this`length, this`offset, this`depth, buffer
      ensures Valid() && (buffer == old(buffer) || fresh(buffer))
      ensures Tail() == old(Tail()) && (noalloc ==> buffer == old(buffer) && length == old(length))
      ensures ok <==> old(offset) + |Render(Array(es), format, old(depth))| + 2 <= old(Limit())
      ensures ok ==> depth == old(depth) && Shows(old(Prefix()) + Render(Array(es), format, depth))
      decreases es, 1
    {
      hide RenderElems, PrintBuffer.Tail, PrintBuffer.Prefix, PrintBuffer.Shows;
      ghost var before := Prefix();
      ghost var text := RenderElems(es, format, depth + 1);
      assert Render(Array(es), format, depth) == [LBRACKET] + text + [RBRACKET];
      hide Render;
      ok := Emit(1, [LBRACKET], 1);
      if !ok {
        return;
      }
      assert [LBRACKET][..1] == [LBRACKET];
      depth := depth + 1;
      ok := PrintElems(es);
      if !ok {
        return;
      }
      Closed(before, [LBRACKET], text, [RBRACKET]);
      ok := PutWord([RBRACKET]);
      if ok {
        depth := depth - 1;
      }
    }

    /** The loop of print_array. */
    method PrintElems(es: Elems) returns (ok: bool)
      requires Valid() && PrintableElems(es)
      modifies this`buffer, this`length, this`offset, this`depth, buffer
      ensures Valid() && (buffer == old(buffer) || fresh(buffer))
      ensures Tail() == old(Tail()) && (noalloc ==> buffer == old(buffer) && length == old(length))
      ensures !ok ==> old(offset) + |RenderElems(es, format, old(depth))| + 2 > old(Limit())
      ensures ok ==> depth == old(depth) && Prefix() == old(Prefix()) + RenderElems(es, format, depth)
      decreases es, 0
    {
      hide Render, PrintBuffer.Tail, PrintBuffer.Prefix, PrintBuffer.Shows;
      ghost var before, done, all := Prefix(), [], RenderElems(es, format, depth);
      var cur := es;
      ok := true;
      assert before + [] == before && [] + all == all;
      while cur.Elem?
        invariant Valid() && (buffer == old(buffer) || fresh(buffer)) && depth == old(depth)
        invariant PrintableElems(cur) && (cur == es || cur < es)
        invariant Prefix() == before + done && done + RenderElems(cur, format, depth) == all
        invariant Tail() == old(Tail()) && (noalloc ==> buffer == old(buffer) && length == old(length))
        decreases cur
      {
        ghost var text := Render(cur.head, format, depth) + ElemSeparator(format, cur.tail.Elem?);
        ghost var rest := RenderElems(cur.tail, format, depth);
        assert RenderElems(cur, format, depth) == text + rest;
        hide RenderElems, ElemSeparator;
        Assoc(done, text, rest);
        Assoc(before, done, text);
        ok := PrintElem(cur.head, cur.tail.Elem?);
        if !ok {
          return;
        }
        done := done + text;
        cur := cur.tail;
      }
      assert done + [] == done;
    }

    /** One round of that loop: the value, the offset moved behind it, and the separator. */
    method PrintElem(t: Value, more: bool) returns (ok: bool)
      requires Valid() && Printable(t)
      modifies this`buffer, this`length, this`offset, this`depth, buffer
      ensures Valid() && (buffer == old(buffer) || fresh(buffer))
      ensures Tail() == old(Tail()) && (noalloc ==> buffer == old(buffer) && length == old(length))
      ensures !ok ==> old(offset) + |Render(t, format, old(depth)) + ElemSeparator(format, more)| + 2 > old(Limit())
      ensures ok ==> depth == old(depth)
      ensures ok ==> Prefix() == old(Prefix()) + (Render(t, format, depth) + ElemSeparator(format, more))
      decreases t, 2
    {
      hide Render, PrintBuffer.Tail, PrintBuffer.Prefix, PrintBuffer.Shows;
      ghost var before, text := Prefix(), Render(t, format, depth);
      ok := PrintValue(t);
      if !ok {
        return;
      }
      UpdateOffset(before + text);
      var separator := ElemSeparator(format, more);
      assert !more ==> text + separator == text;
      hide ElemSeparator;
      if more {
        ok := Emit(|separator| + 1, separator + [0], |separator|);
        assert (separator + [0])[..|separator|] == separator;
        Assoc(before, text, separator);
      }
    }

    /** print_object */
    method PrintObject(ms: Members) returns (ok: bool)
      requires Valid() && PrintableMembers(ms)
      modifies this`buffer, this`length, this`offset, this`depth, buffer
      ensures Valid() && (buffer == old(buffer) || fresh(buffer))
      ensures Tail() == old(Tail()) && (noalloc ==> buffer == old(buffer) && length == old(length))
      ensures ok <==> old(offset) + |Render(Object(ms), format, old(depth))| + 2 <= old(Limit())
      ensures ok ==> depth == old(depth) && Shows(old(Prefix()) + Render(Object(ms), format, depth))
      decreases ms, 1
    {
      hide RenderMembers, PrintBuffer.Tail, PrintBuffer.Prefix, PrintBuffer.Shows;
      hide ObjectOpen, ObjectClose, When, Tabs, Render;
      ghost var before := Prefix();
      ghost var text := RenderMembers(ms, format, depth + 1);
      var open, close := ObjectOpen(format), ObjectClose(format, depth);
      ObjectText(ms, format, depth);
      ok := Emit(|open| + 1, open, |open|);
      if !ok {
        return;
      }
      assert open[..|open|] == open;
      depth := depth + 1;
      ok := PrintMembers(ms);
      if !ok {
        return;
      }
      Closed(before, open, text, close);
      ok := PutWord(close);
      if ok {
        depth := depth - 1;
      }
    }

    /** The loop of print_object. */
    method PrintMembers(ms: Members) returns (ok: bool)
      requires Valid() && PrintableMembers(ms)
      modifies this`buffer, this`length, this`offset, this`depth, buffer
      ensures Valid() && (buffer == old(buffer) || fresh(buffer))
      ensures Tail() == old(Tail()) && (noalloc ==> buffer == old(buffer) && length == old(length))
      ensures !ok ==> old(offset) + |RenderMembers(ms, format, old(depth))| + 2 > old(Limit())
      ensures ok ==> depth == old(depth) && Prefix() == old(Prefix()) + RenderMembers(ms, format, depth)
      decreases ms, 0
    {
      hide Render, PrintBuffer.Tail, PrintBuffer.Prefix, PrintBuffer.Shows;
      ghost var before, done, all := Prefix(), [], RenderMembers(ms, format, depth);
      var cur := ms;
      ok := true;
      assert before + [] == before && [] + all == all;
      while cur.Member?
        invariant Valid() && (buffer == old(buffer) || fresh(buffer)) && depth == old(depth)
        invariant PrintableMembers(cur) && (cur == ms || cur < ms)
        invariant Prefix() == before + done && done + RenderMembers(cur, format, depth) == all
        invariant Tail() == old(Tail()) && (noalloc ==> buffer == old(buffer) && length == old(length))
        decreases cur
      {
        ghost var text := MemberText(cur.key, cur.value, cur.rest.Member?, format, depth);
        ghost var rest := RenderMembers(cur.rest, format, depth);
        assert RenderMembers(cur, format, depth) == text + rest;
        hide RenderMembers, MemberText;
        Assoc(done, text, rest);
        Assoc(before, done, text);
        ok := PrintMember(cur.key, cur.value, cur.rest.Member?);
        if !ok {
          return;
        }
        done := done + text;
        cur := cur.rest;
      }
      assert done + [] == done;
    }

    /** One round of that loop: indentation, key, colon, value, comma and newline. */
    method PrintMember(k: seq<byte>, t: Value, more: bool) returns (ok: bool)
      requires Valid() && NulFree(k) && Printable(t)
      modifies this`buffer, this`length, this`offset, this`depth, buffer
      ensures Valid() && (buffer == old(buffer) || fresh(buffer))
      ensures Tail() == old(Tail()) && (noalloc ==> buffer == old(buffer) && length == old(length))
      ensures !ok ==> old(offset) + |MemberText(k, t, more, format, old(depth))| + 2 > old(Limit())
      ensures ok ==> depth == old(depth) && Prefix() == old(Prefix()) + MemberText(k, t, more, format, depth)
      decreases t, 2
    {
      hide Render, RenderKey, MemberEnd, PrintBuffer.Tail, PrintBuffer.Prefix, PrintBuffer.Shows;
      ghost var before, key, text := Prefix(), RenderKey(k, format, depth), Render(t, format, depth);
      ok := PrintKey(k);
      if !ok {
        return;
      }
      ok := PrintValue(t);
      if !ok {
        return;
      }
      UpdateOffset(before + key + text);
      var end := MemberEnd(format, more);
      ok := Emit(|end| + 1, end + [0], |end|);
      assert (end + [0])[..|end|] == end;
      Assoc4(before, key, text, end);
      Assoc(key, text, end);
    }

    method PrintKey(k: seq<byte>) returns (ok: bool)
      requires Valid() && NulFree(k)
      modifies this`buffer, this`length, this`offset, this`depth, buffer
      ensures Valid() && (buffer == old(buffer) || fresh(buffer))
      ensures Tail() == old(Tail()) && (noalloc ==> buffer == old(buffer) && length == old(length))
      ensures !ok ==> old(offset) + |RenderKey(k, format, old(depth))| + 1 > old(Limit())
      ensures ok ==> depth == old(depth) && Prefix() == old(Prefix()) + RenderKey(k, format, depth)
    {
      var tabs, colon := When(format, Tabs(depth)), [COLON] + When(format, [TAB]);
      assert format ==> |tabs| == depth;
      hide When, Tabs, PrintBuffer.Tail, PrintBuffer.Prefix, PrintBuffer.Shows;
      ghost var before, key := Prefix(), RenderString(k);
      KeyText(before, k, format, depth);
      hide RenderKey, RenderString;
      ok := true;
      if format {
        ok := Emit(|tabs|, tabs, |tabs|);
        if !ok {
          return;
        }
        assert tabs[..|tabs|] == tabs;
      }
      ok := PrintString(k);
      if !ok {
        return;
      }
      UpdateOffset(before + tabs + key);
      ok := Emit(|colon|, colon, |colon|);
      assert colon[..|colon|] == colon;
    }
  }

  /** One member's text. */
  function MemberText(k: seq<byte>, t: Value, more: bool, format: bool, depth: nat): seq<byte> {
    RenderKey(k, format, depth) + Render(t, format, depth) + MemberEnd(format, more)
  }

  function ObjectOpen(format: bool): seq<byte> {
    [LBRACE] + When(format, [NEWLINE])
  }

  function ObjectClose(format: bool, depth: nat): (r: seq<byte>)
    ensures NulFree(r) && r != []
  {
    When(format, Tabs(depth)) + [RBRACE]
  }

  lemma ObjectText(ms: Members, format: bool, depth: nat)
    ensures Render(Object(ms), format, depth)
         == ObjectOpen(format) + RenderMembers(ms, format, depth + 1) + ObjectClose(format, depth)
  {
    hide RenderMembers;
    var text := RenderMembers(ms, format, depth + 1);
    Assoc([LBRACE] + When(format, [NEWLINE]) + text, When(format, Tabs(depth)), [RBRACE]);
  }

  lemma KeyText(before: seq<byte>, k: seq<byte>, format: bool, depth: nat)
    ensures var tabs, colon := When(format, Tabs(depth)), [COLON] + When(format, [TAB]);
      RenderKey(k, format, depth) == tabs + RenderString(k) + colon
      && before + tabs + RenderString(k) + colon == before + RenderKey(k, format, depth)
      && (!format ==> before + tabs == before)
      && (RenderString(k) != [])
  {
    var tabs := When(format, Tabs(depth));
    var colon := [COLON] + When(format, [TAB]);
    Assoc(tabs + RenderString(k), [COLON], When(format, [TAB]));
    Assoc4(before, tabs, RenderString(k), colon);
    Assoc(tabs, RenderString(k), colon);
  }

  lemma Closed(before: seq<byte>, open: seq<byte>, text: seq<byte>, close: seq<byte>)
    ensures before + open + text + close == before + (open + text + close)
  {
    Assoc4(before, open, text, close);
    Assoc(open, text, close);
  }

  lemma EscapedShown(input: seq<byte>, before: seq<byte>)
    requires NulFree(input)
    ensures NulFree((before + RenderString(input))[|before|..])
  {
    EscapedNulFree(input);
    NulFreeConcat([QUOTE], EscapeAll(input));
    NulFreeConcat([QUOTE] + EscapeAll(input), [QUOTE]);
    assert (before + RenderString(input))[|before|..] == RenderString(input);
  }

  // ----- the entry points -----

  /** The text in `buffer` up to its NUL is the rendered tree. */
  ghost predicate Holds(buffer: array<byte>, t: Value, format: bool)
    reads buffer
  {
    var text := Render(t, format, 0);
    |text| < buffer.Length && buffer[..|text| + 1] == text + [0]
  }

  /** cJSON_Print and cJSON_PrintUnformatted: a 256-byte start buffer whose recorded length is 0. */
  method Print(t: Value, format: bool) returns (printed: Option<array<byte>>)
    requires Printable(t)
    ensures printed.Some? <==> |Render(t, format, 0)| + (if t.Number? then 1 else 2) <= 0x7FFF_FFFF
    ensures printed.Some? ==> Holds(printed.value, t, format)
  {
    hide Render;
    var start := new byte[256];
    var p := new PrintBuffer(start, 0, false, format);
    ghost var text := Render(t, format, 0);
    var ok := p.PrintValue(t);
    if !ok {
      return None;
    }
    assert [] + text == text;
    p.UpdateOffset(text);
    assert p.buffer[..|text| + 1] == text + [0];
    return Some(p.buffer);
  }

  /** cJSON_PrintBuffered: the caller guesses the size. */
  method PrintBuffered(t: Value, prebuffer: int, format: bool) returns (printed: Option<array<byte>>)
    requires Printable(t) && prebuffer <= INT_MAX
    ensures printed.Some? <==> prebuffer >= 0 && |Render(t, format, 0)| + (if t.Number? then 1 else 2) <= 0x7FFF_FFFF
    ensures printed.Some? ==> Holds(printed.value, t, format)
  {
    hide Render;
    if prebuffer < 0 {
      return None;
    }
    var start := new byte[prebuffer];
    var p := new PrintBuffer(start, prebuffer, false, format);
    ghost var text := Render(t, format, 0);
    var ok := p.PrintValue(t);
    if !ok {
      return None;
    }
    assert [] + text == text;
    assert p.buffer[..|text| + 1] == text + [0];
    return Some(p.buffer);
  }

  /**
   * cJSON_PrintPreallocated: nothing at or past `len` is written, and the print succeeds exactly when `len` has
   * room for the text, its NUL and, unless the tree is a number, one byte more.
   */
  method PrintPreallocated(t: Value, buf: array<byte>, len: int, format: bool) returns (ok: bool)
    requires Printable(t) && len <= buf.Length && len <= INT_MAX
    modifies buf
    ensures ok <==> |Render(t, format, 0)| + (if t.Number? then 1 else 2) <= len
    ensures ok ==> Holds(buf, t, format)
    ensures forall i :: 0 <= i < buf.Length && i >= len ==> buf[i] == old(buf[i])
  {
    hide Render;
    if len < 0 {
      return false;
    }
    var p := new PrintBuffer(buf, len, true, format);
    ghost var text := Render(t, format, 0);
    ok := p.PrintValue(t);
    assert [] + text == text;
    if ok {
      assert buf[..|text| + 1] == text + [0];
    }
    assert forall i :: len <= i < buf.Length ==> buf[i] == buf[len..][i - len];
  }
}
