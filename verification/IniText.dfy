/** What iniparser reads from a line and from a whole file. */
module IniText {
  import opened Bytes
  import opened Dictionaries

  const ASCIILINESZ: nat := 1024
  const EQUALS: byte := 61
  const SEMICOLON: byte := 59
  const HASH: byte := 35
  const APOSTROPHE: byte := 39

  // ----- character classes -----

  predicate IsSpace(b: byte) { b == 32 || 9 <= b <= 13 }

  /** strlwc into a buffer of `len` bytes: at most len - 1 characters. */
  function Strlwc(s: Str, len: nat): Str
    requires len > 0
  {
    LowerAll(if |s| < len then s else s[..len - 1])
  }

  // ----- strstrip -----

  function LStrip(s: Str): (r: Str)
    ensures Suffix(r, s)
    ensures r != [] ==> !IsSpace(r[0])
  {
    if s != [] && IsSpace(s[0]) then LStrip(s[1..]) else (assert s == s[0..]; s)
  }

  function RStrip(s: Str): (r: Str)
    ensures r <= s
    ensures r != [] ==> !IsSpace(r[|r| - 1])
  {
    if s != [] && IsSpace(s[|s| - 1]) then RStrip(s[..|s| - 1]) else s
  }

  function Strip(s: Str): Str { RStrip(LStrip(s)) }

  lemma LStripStep(s: Str)
    ensures LStrip(s) == if s != [] && IsSpace(s[0]) then LStrip(s[1..]) else s
  {}

  lemma RStripStep(s: Str)
    ensures RStrip(s) == if s != [] && IsSpace(s[|s| - 1]) then RStrip(s[..|s| - 1]) else s
  {}

  // ----- sscanf -----

  datatype Pair = Pair(key: Str, value: Str)

  /** The longest beginning of `s` without `stop`: %[^stop] */
  function Until(s: Str, stop: set<byte>): (r: Str)
    ensures r <= s
    ensures forall i :: 0 <= i < |r| ==> r[i] !in stop
    ensures |r| < |s| ==> s[|r|] in stop
  {
    if s == [] || s[0] in stop then [] else [s[0]] + Until(s[1..], stop)
  }

  /** What stands behind "%[^=] = ": the key and the text after the equals sign and blanks. */
  function KeyEquals(line: Str): (r: Option<Pair>)
    ensures r.Some? ==> |r.value.value| < |line|
  {
    var key := Until(line, {EQUALS});
    if key == [] || |key| == |line| then None
    else Some(Pair(key, LStrip(line[|key| + 1..])))
  }

  /** "%[^=] = \"%[^\"]\"" and its twin with single quotes: a missing closing quote does not matter. */
  function ScanQuoted(line: Str, quote: byte): Option<Pair> {
    match KeyEquals(line)
    case None => None
    case Some(p) =>
      if p.value == [] || p.value[0] != quote then None
      else
        var v := Until(p.value[1..], {quote});
        if v == [] then None else Some(Pair(p.key, v))
  }

  /** "%[^=] = %[^;#]" */
  function ScanPlain(line: Str): Option<Pair> {
    match KeyEquals(line)
    case None => None
    case Some(p) =>
      var v := Until(p.value, {SEMICOLON, HASH});
      if v == [] then None else Some(Pair(p.key, v))
  }

  /** "%[^=] = %[;#]" or "%[^=] %[=]": a key and nothing that counts as a value. */
  function ScanEmpty(line: Str): Option<Str> {
    match KeyEquals(line)
    case None => None
    case Some(p) => Some(p.key)
  }

  // ----- one line -----

  datatype Line = Empty | Comment | Section(name: Str) | Value(key: Str, value: Str) | Error

  /** iniparser_line; `section` is the section buffer, which "[]" leaves as it was but cut short. */
  function IniLine(input: Str, section: Str): Line {
    var line := Strip(input);
    var len := |line|;
    if len < 1 then Empty
    else if line[0] == HASH || line[0] == SEMICOLON then Comment
    else if line[0] == LBRACKET && line[len - 1] == RBRACKET then
      var name := Until(line[1..], {RBRACKET});
      Section(Strlwc(Strip(if name == [] then section else name), len))
    else match QuotedValue(line)
      case Some(p) => Value(Strlwc(Strip(p.key), len), p.value)
      case None =>
        match ScanPlain(line)
        case Some(p) => Value(Strlwc(Strip(p.key), len), PlainValue(Strip(p.value)))
        case None =>
          match ScanEmpty(line)
          case Some(k) => Value(Strlwc(Strip(k), len), [])
          case None => Error
  }

  function QuotedValue(line: Str): Option<Pair> {
    if ScanQuoted(line, QUOTE).Some? then ScanQuoted(line, QUOTE) else ScanQuoted(line, APOSTROPHE)
  }

  /** '' and "" stand for the empty value. */
  function PlainValue(v: Str): Str {
    if v == [QUOTE, QUOTE] || v == [APOSTROPHE, APOSTROPHE] then [] else v
  }

  // ----- a whole file -----

  /** The loader between two fgets calls: the unfinished line, the section, the entries, and whether a line failed. */
  datatype Loader = Loader(pending: Str, section: Str, dict: map<Str, Option<Str>>, failed: bool)

  /** fgets: up to and including a newline, at most `room` bytes. */
  function Fgets(text: Str, room: nat): (r: Str)
    requires text != [] && room > 0
    ensures r <= text && 0 < |r| <= room
  {
    var line := Until(text, {NEWLINE});
    if |line| >= room then text[..room]
    else if |line| < |text| then text[..|line| + 1]
    else text
  }

  /** feof behind fgets: it asked for a byte behind the last one. */
  predicate AtEof(chunk: Str, rest: Str, room: nat)
    requires chunk != []
  {
    rest == [] && |chunk| < room && chunk[|chunk| - 1] != NEWLINE
  }

  /** What a complete line does to the loader. */
  function Process(st: Loader, line: Str): (r: Loader)
    ensures r.pending == []
  {
    var next := st.(pending := []);
    match IniLine(line, st.section)
    case Section(name) => next.(section := name, dict := st.dict[name := None])
    case Value(k, v) => next.(dict := st.dict[st.section + [COLON] + k := Some(v)])
    case Error => next.(failed := true)
    case _ => next
  }

  /**
   * One round of iniparser_load's loop. The line is what strlen sees of it, so a NUL cuts it. A line too long, or
   * cut, ends the loop; otherwise it goes on behind what fgets read.
   */
  datatype Round = TooLong | Next(rest: Str, loader: Loader)

  predicate Roomy(st: Loader) { |st.pending| < ASCIILINESZ - 1 }

  function LoadRound(text: Str, st: Loader): (r: Round)
    requires text != [] && Roomy(st)
    ensures r.Next? ==> Roomy(r.loader) && |r.rest| < |text|
  {
    hide Process, RStrip, Fgets, UpToNul;
    var room := ASCIILINESZ - 1 - |st.pending|;
    var chunk := Fgets(text, room);
    var rest := text[|chunk|..];
    var line := UpToNul(st.pending + chunk);
    if |line| <= 1 then Next(rest, st)
    else if line[|line| - 1] != NEWLINE && !AtEof(chunk, rest, room) then TooLong
    else
      var body := RStrip(line);
      if body != [] && body[|body| - 1] == BACKSLASH
      then Next(rest, st.(pending := body[..|body| - 1]))
      else Next(rest, Process(st, body))
  }

  /** iniparser_load's loop; None is the NULL returned for a line that is too long or any syntax error. */
  function LoadFrom(text: Str, st: Loader): Option<map<Str, Option<Str>>>
    requires Roomy(st)
    decreases |text|
  {
    if text == [] then (if st.failed then None else Some(st.dict))
    else match LoadRound(text, st)
      case TooLong => None
      case Next(rest, next) => LoadFrom(rest, next)
  }

  function LoadText(text: Str): Option<map<Str, Option<Str>>> {
    LoadFrom(text, Loader([], [], map[], false))
  }
}
