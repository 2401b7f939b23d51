/** What iniparser_dump_ini writes for the slots of a dictionary. */
module IniDump {
  import opened Bytes
  import opened Dictionaries
  import opened IniText

  type Slots = seq<Option<Str>>

  predicate HasColon(k: Str) { COLON in k }

  /** Section entries are the keys without a colon, in slot order. */
  function Sections(keys: Slots): (r: seq<Str>)
    ensures forall i :: 0 <= i < |r| ==> Some(r[i]) in keys && !HasColon(r[i])
  {
    if keys == [] then []
    else
      var rest := Sections(keys[1..]);
      if keys[0].Some? && !HasColon(keys[0].value) then [keys[0].value] + rest else rest
  }

  predicate InSection(k: Option<Str>, sec: Str) {
    k.Some? && sec + [COLON] <= k.value
  }

  /** %-30s */
  function Pad30(s: Str): (r: Str)
    ensures s <= r && |r| >= 30
    ensures forall i :: |s| <= i < |r| ==> r[i] == SPACE
  {
    if |s| >= 30 then s else s + seq(30 - |s|, _ => SPACE)
  }

  function OrEmpty(v: Option<Str>): Str {
    if v.Some? then v.value else []
  }

  /** One key line, without its newline. */
  function KeyLine(name: Str, v: Option<Str>): Str {
    Pad30(name) + [SPACE, EQUALS, SPACE] + OrEmpty(v)
  }

  function KeyLines(keys: Slots, vals: seq<Option<Str>>, sec: Str): seq<Str>
    requires |keys| == |vals|
  {
    if keys == [] then []
    else
      var rest := KeyLines(keys[1..], vals[1..], sec);
      if InSection(keys[0], sec) then [KeyLine(keys[0].value[|sec| + 1..], vals[0])] + rest else rest
  }

  function SectionLine(sec: Str): Str {
    [LBRACKET] + sec + [RBRACKET]
  }

  /** iniparser_dumpsection_ini: nothing unless the lower-case name is an entry. */
  function SectionLines(keys: Slots, vals: seq<Option<Str>>, sec: Str): seq<Str>
    requires |keys| == |vals|
  {
    if Some(Strlwc(sec, ASCIILINESZ + 1)) in keys
    then [[], SectionLine(sec)] + KeyLines(keys, vals, sec) + [[]]
    else []
  }

  function AllSections(keys: Slots, vals: seq<Option<Str>>, secs: seq<Str>): seq<Str>
    requires |keys| == |vals|
  {
    if secs == [] then [] else SectionLines(keys, vals, secs[0]) + AllSections(keys, vals, secs[1..])
  }

  /** The whole dump when there is a section entry. */
  function DumpLines(keys: Slots, vals: seq<Option<Str>>): seq<Str>
    requires |keys| == |vals|
  {
    AllSections(keys, vals, Sections(keys)) + [[]]
  }

  /** Without section entries all keys are written as they are; a NULL value is what printf makes of it. */
  function FlatLines(keys: Slots, vals: seq<Option<Str>>, missing: Str): seq<Str>
    requires |keys| == |vals|
  {
    if keys == [] then []
    else
      var rest := FlatLines(keys[1..], vals[1..], missing);
      if keys[0].None? then rest
      else [keys[0].value + [SPACE, EQUALS, SPACE] + (if vals[0].Some? then vals[0].value else missing)] + rest
  }

  /** iniparser_dump_ini */
  function DumpText(keys: Slots, vals: seq<Option<Str>>, missing: Str): Str
    requires |keys| == |vals|
  {
    if Sections(keys) == [] then TextOf(FlatLines(keys, vals, missing)) else TextOf(DumpLines(keys, vals))
  }

  /** The text of lines, each with its newline. */
  function TextOf(lines: seq<Str>): Str {
    if lines == [] then [] else lines[0] + [NEWLINE] + TextOf(lines[1..])
  }

  lemma {:induction false} TextOfConcat(a: seq<Str>, b: seq<Str>)
    ensures TextOf(a + b) == TextOf(a) + TextOf(b)
  {
    if a == [] {
      assert a + b == b;
    } else {
      TextOfConcat(a[1..], b);
      assert (a + b)[1..] == a[1..] + b;
      Assoc(a[0] + [NEWLINE], TextOf(a[1..]), TextOf(b));
    }
  }
}
