# Verified models of the repository's kernels

The repository is a collection of small C and C++ projects. This project models the parts that carry real logic and
proves what they promise, for every input and every run:

- **cJSON** (`20170801/cjson.c`): the recursive parser over an offset and depth buffer with its two-pass string
  decoder, the printer that writes through a growing or fixed buffer, the in-place minifier, the comparer, the edits of
  a container's sibling list, and the deep copy.
- **Thread pool** (`20180731threadpoll-test/threadpoll.c`): worker, manager, producer and owner as one step system. A
  step is what a thread does under the lock; the worker's read of its task slot after unlocking is a step of its own.
- **iniparser** (`auto_imi_db_bin/src/iniparser.c`, `dictionary.c`): the slot table with cached hashes, the line and
  file loader, and the dumper.
- **Ring buffer** (`20180720ringbuffer`): indexes with a mirror bit on each side.
- **Linked list** (`20180208/list.c`) and **NeoPixel brightness** (`Adafruit_NeoPixel.cpp`).

## How it is organised

Every imperative operation is a method or a class method, proved equal to a function of its input or of the old state.
The theorems are lemmas about those functions, so they hold of the methods. Where a function computes with characters,
digits or levels, a law with the codes and numbers written out says what it computes without naming it.

| file | content |
|---|---|
| `Bytes.dfy` | bytes, C strings, slices |
| `Json.dfy`, `JsonNumber.dfy`, `JsonString.dfy`, `JsonText.dfy` | trees, and the parser as functions on the unread bytes |
| `JsonEscapes.dfy`, `JsonFigures.dfy` | strings piece by piece and numbers part by part, as sections 7 and 6 of RFC 8259 write them, and how they are read |
| `JsonFigureLaws.dfy` | what digits, point and exponent are worth, and how far strtod reads |
| `JsonGrammar.dfy`, `JsonRfc.dfy` | the language that is accepted, exactly, and which texts of RFC 8259 are in it |
| `JsonRender.dfy`, `JsonRoundTrip.dfy` | the printed text, and reading it back |
| `JsonLayout.dfy` | the layout of formatted text, as a pass over the bytes of the unformatted one |
| `JsonProgress.dfy` | what every successful parse keeps |
| `JsonMinify.dfy`, `JsonMinifyMeaning.dfy`, `JsonMinifyPrinted.dfy` | the minifier in place, and that it keeps the meaning |
| `JsonMinifyLaws.dfy` | what the minifier drops and keeps of any text |
| `ParseBuffer.dfy`, `PrintBuffer.dfy` | the parser and the printer over their buffers |
| `JsonNodes.dfy`, `JsonTrees.dfy`, `JsonDuplicate.dfy` | sibling lists of linked items, the tree an item stands for, deep copies |
| `JsonCompare.dfy`, `JsonItemCompare.dfy` | what comparison means, and the comparison of linked items |
| `ThreadPool.dfy` | the step system and its invariants |
| `PoolProgress.dfy` | what each step changes, and that no reachable pool is stuck |
| `Dictionary.dfy`, `IniText.dfy`, `IniDump.dfy`, `Ini.dfy` | dictionary, loader, dumper |
| `IniRoundTrip.dfy`, `IniSections.dfy`, `IniKeys.dfy` | dumping and loading again, and exactly which sections, keys and values survive it |
| `IniLaws.dfy`, `IniForms.dfy`, `IniLayout.dfy` | what the loader does with any line, said of its bytes, and the bytes that the dumper writes |
| `RingBuffer.dfy`, `LinkedList.dfy`, `NeoPixel.dfy` | the three smaller kernels |

`dafny verify dfyconfig.toml` checks the whole project.

## Where a promised property is false

Each of these comes with a concrete input that breaks it and the exact condition under which the code keeps it.

- A worker does not always run the task it took (`ThreadPool.LostTask`). It does exactly when, since it took the task,
  fewer tasks were added than the capacity less what was queued at that moment (`ThreadPool.UnlockedRead`). Each taken
  task is run once or still held in exactly the runs where every read is that timely (`ThreadPool.RunOnce`).
- Tasks can start after the pool is disabled (`ThreadPool.LateStart`). The starts to come are exactly those of the tasks
  that workers hold (`ThreadPool.StartsWhenDisabled`), so none comes exactly when no worker is between taking its task
  and reading it (`ThreadPool.NoStartExactly`).
- The pool can be freed while a worker is alive when the manager's last wait returns without a signal, because that wait
  is not in a loop (`ThreadPool.FreedTooEarly`). A run has no such wake-up if and only if, wherever in it the pool may
  be freed, no worker is left (`ThreadPool.FreedExact`).
- `cJSON_Compare` is not reflexive on separate copies (`JsonCompare.DuplicateKeysNotReflexive`): it is exactly on trees
  where members that share a key mean the same (`JsonCompare.CompareEquivalence`, `JsonItemCompare.CompareCopy`).
- `ring_buffer_put_force` can let the writer pass the reader (`RingBuffers.ForceBreaks`): it keeps a queue exactly when
  the buffer was full or the data fits (`RingBuffers.ForceBlockExact`).
- A dumped INI section can come back under another name or make the load fail (`IniSections.SectionLost`,
  `IniSections.SectionRefused`): it comes back as itself exactly when its name is lower case, has no outer blanks, no
  `]` and no newline, and fits in the line buffer (`IniSections.SectionExact`).
- A dumped INI key can come back with another value (`IniKeys.KeyLost`): the exact condition on key and value is
  `IniRoundTrip.GoodKey` (`IniKeys.KeyExact`).
- The last line of an INI file does not always count without its newline: it does exactly when it has more than one byte
  (`IniForms.LastLine`).
- A dump without section entries is not loaded back: its entries come back with a colon more in front
  (`IniLayout.FlatLoad`).
- Not every text of RFC 8259 is accepted: a lone surrogate escape and a number of 64 characters are refused
  (`JsonRfc.LoneSurrogate`, `JsonRfc.LongNumber`). A text of the RFC is accepted exactly when its surrogate escapes are
  paired, its numbers have at most 63 characters and at most 1000 containers nest (`JsonRfc.RfcExact`).

`cJSON.h` asks for five spare bytes in a preallocated buffer; two are always enough and, for a number, one
(`PrintBuffers.PrintPreallocated`).

## Model

| member | source | states |
|---|---|---|
| JsonRoundTrip.RoundTrip | 20170801/cjson.c:1146-1656 | for every printable tree, formatted or not, parsing its text with the end check gives the same tree, keys, duplicates and order included, exactly when at most 1000 containers are nested; otherwise it fails |
| JsonRoundTrip.ValueBack | 20170801/cjson.c:1146-1277 | the same for one value inside any context that a number does not run into, at any print and parse depth |
| JsonRoundTrip.ArrayBack | 20170801/cjson.c:1280-1433 | a printed array is read back, or refused at the nesting limit |
| JsonRoundTrip.ObjectBack | 20170801/cjson.c:1436-1656 | a printed object is read back, or refused at the nesting limit |
| JsonRoundTrip.StringRoundTrip | 20170801/cjson.c:648-896 | parse_string undoes print_string_ptr on every NUL-free string |
| JsonRoundTrip.RenderInjective | 20170801/cjson.c:1202-1277 | two different trees within the nesting limit never print the same text, in either format |
| JsonNumber.ParsePrinted | 20170801/cjson.c:216-290 | the decimal text of an integer below 10^15 in size, in front of anything but a number character, is read as that integer and no further |
| JsonRender.PutIsRender | 20170801/cjson.c:1202-1277 | the renderer in continuation form, which the proofs follow, writes the same text |
| JsonLayout.FormattedLayout | 20170801/cjson.c:1374-1656 | for every tree the formatted text is a pass over the bytes of the unformatted one that keeps a stack of open containers: a comma gets a space in an array and a new line with a tab per open container in an object, a colon gets a tab, a brace opens such a line and closes on a line with the tabs of the containers around it, strings are copied |
| JsonLayout.Example | 20170801/cjson.c:1545-1656 | that pass lays {"a":1} out on three lines, the middle one behind a tab and with a tab behind the colon |
| JsonLayout.Words | 20170801/cjson.c:1211-1241 | the bytes of null, true and false |
| JsonLayout.ShortestSpelling | 20170801/cjson.c:777-896 | no piece of section 7 of RFC 8259 that means the byte is shorter than the printed one, and a printed \u escape has the digits 00 and two lower-case ones of the written-out table |
| JsonEscapes.LiteralExact | 20170801/cjson.c:648-760 | every string of section 7 of RFC 8259 (raw bytes, short escapes, \u units of any value) is read if and only if its surrogate units are paired: as the bytes it means, cut at the first NUL it spells, with nothing behind it consumed; otherwise it is refused |
| JsonEscapes.CodePointsDecode | 20170801/cjson.c:490-645 | any sequence of non-zero code points written as \uXXXX or as pairs, each digit worth its place in "0123456789ABCDEF" or "0123456789abcdef", is read as the concatenation of their UTF-8 encodings |
| JsonEscapes.UnpairedRejected | 20170801/cjson.c:543-583 | after any paired beginning, a lone low surrogate or a high one without its low half makes the string fail, whatever follows, grammatical or not |
| JsonString.DigitStands | 20170801/cjson.c:490-523 | a byte counts as a hex digit exactly when it stands in one of the two written-out tables, and its value is its place there |
| JsonString.Hex4Exact | 20170801/cjson.c:490-523 | four digits are read as 4096, 256, 16 and 1 times their places in the tables, and as 0 when one of them is in neither |
| JsonString.Utf8Table | 20170801/cjson.c:590-639 | the number of bytes by range, and the code point back from their payload bits, as the table of section 3 of RFC 3629 has it |
| JsonString.ShortTable | 20170801/cjson.c:711-731 | the eight one-letter escapes with the codes they stand for, and no other |
| JsonGrammar.AcceptsExactly | 20170801/cjson.c:934-1542 | a text is accepted with the end check as the tree `t` if and only if a syntax tree of pieces, figures and blanks is written as that text, means `t`, has paired surrogates, numbers of at most 63 characters and at most 1000 nested containers |
| JsonGrammar.FormedExact | 20170801/cjson.c:934-1542 | any text with a syntax tree, however loosely spelled, is accepted as what it means exactly when surrogates are paired, numbers have at most 63 characters and at most 1000 containers nest, and refused otherwise |
| JsonGrammar.AcceptedIsSpelled | 20170801/cjson.c:934-1542 | everything that is accepted has a syntax tree |
| JsonGrammar.PrefixExact | 20170801/cjson.c:934-1013 | without the end check a text is accepted as `t`, leaving a rest that does not go on with a number, if and only if it is blanks, a value that means `t` within the same limits, and that rest as it is |
| JsonRfc.RfcExact | 20170801/cjson.c:934-1542 | a text of RFC 8259, with any white space and spelling, is accepted as what it means if and only if surrogate escapes are paired, numbers have at most 63 characters and at most 1000 containers nest |
| JsonRfc.LoneSurrogate | 20170801/cjson.c:543-583 | the string of section 8.2 of RFC 8259 with the single escape `\uDEAD` is refused |
| JsonRfc.LongNumber | 20170801/cjson.c:216-290 | the number of `n` ones is accepted exactly up to 63 of them |
| JsonFigures.ReadFigure | 20170801/cjson.c:216-290 | a number written with sign, digits, point and exponent is read whole, as its digits moved by its exponent; what that is worth is `JsonFigureLaws.ValueExact` |
| JsonFigures.FindFigure | 20170801/cjson.c:216-290 | whatever is read whole has that form |
| JsonFigureLaws.ValueExact | 20170801/cjson.c:216-290 | the value read, times ten for every digit of the fraction, is the whole digits and the fraction as one number, times ten to a positive exponent; times ten to a negative exponent it is that number; negative behind a minus |
| JsonFigureLaws.DigitsSplit | 20170801/cjson.c:216-290 | digits in front of k others are worth ten to the k times as much |
| JsonFigureLaws.ExponentStep | 20170801/cjson.c:216-290 | one more in the exponent, below zero too, is ten times the value, and equal exponents give equal values |
| JsonFigureLaws.OnePointFive | 20170801/cjson.c:216-290 | "1.5" is read as 1.5 |
| JsonFigureLaws.TwoThousand | 20170801/cjson.c:216-290 | "2e3" is read as 2000 |
| JsonFigureLaws.MinusHalf | 20170801/cjson.c:216-290 | "-5E-1" is read as -0.5 |
| JsonFigureLaws.LongestFigure | 20170801/cjson.c:216-290 | strtod takes the longest number at the start of the text, with its value, and nothing when there is none |
| JsonFigureLaws.DecimalCanonical | 20170801/cjson.c:424-487 | an integer is printed as its digits without a leading zero, behind a minus exactly when negative |
| JsonRfc.RfcStringExact | 20170801/cjson.c:648-760 | a string of section 7 of RFC 8259 is read, with the meaning of its pieces, exactly when its surrogates are paired |
| JsonString.Utf8 | 20170801/cjson.c:590-639 | one to four bytes, none of them NUL for a non-zero code point |
| JsonString.JumpTokens | 20170801/cjson.c:664-686 | `n` bytes further on, pass one stands between two tokens or one byte short of that, at least n / 2 tokens later |
| JsonString.StepFits | 20170801/cjson.c:696-749 | one round of pass two, in step with pass one or one byte out of step, writes no more than the tokens it leaves behind, and stays at most one byte out of step |
| JsonString.DecodeFits | 20170801/cjson.c:664-752 | whatever pass one accepts, the bytes pass two writes fit in the size pass one computed |
| ParseBuffers.EncodeUtf8 | 20170801/cjson.c:590-639 | the byte loop writes the UTF-8 encoding of the code point |
| ParseBuffers.ParseHex4 | 20170801/cjson.c:490-523 | the number that the four digits stand for in the two written-out tables, and 0 when they stand for none |
| ParseBuffers.DecodeUtf16 | 20170801/cjson.c:527-645 | accepts exactly what the escape grammar accepts, with its length and bytes |
| ParseBuffers.DecodeRound | 20170801/cjson.c:698-748 | one round of pass two: the same bytes, length and outcome as the decoding step, writing only its own output |
| ParseBuffers.DecodeLiteral | 20170801/cjson.c:694-752 | on every literal pass one accepts, pass two ends at most one byte past its end, writes inside the output and its terminator, and succeeds exactly when the literal decodes |
| ParseBuffers.ParseBuffer.SkipWhitespace | 20170801/cjson.c:913-931 | moves to the first byte above 32, but never past the terminator |
| ParseBuffers.ParseBuffer.ParseNumber | 20170801/cjson.c:216-290 | reads the longest number prefix of at most 63 number characters, and fails without one |
| ParseBuffers.ParseBuffer.FindClose | 20170801/cjson.c:664-686 | finds the closing quote and counts the bytes that pairs save |
| ParseBuffers.ParseBuffer.ParseString | 20170801/cjson.c:648-774 | the decoded string and the rest, or failure, as the string function says, on every byte input |
| ParseBuffers.ParseBuffer.ParseValue | 20170801/cjson.c:1146-1199 | equals the parsing function on the unread bytes; on success the offset is inside the buffer and has moved, and the depth is restored |
| ParseBuffers.ParseBuffer.ParseArray | 20170801/cjson.c:1280-1371 | the same for arrays, with the nesting limit |
| ParseBuffers.ParseBuffer.ParseObject | 20170801/cjson.c:1436-1542 | the same for objects |
| ParseBuffers.ParseBuffer.ParseKey | 20170801/cjson.c:1493-1509 | the key, the colon and the blanks around it |
| ParseBuffers.ParseWithOpts | 20170801/cjson.c:934-1013 | for every C string it terminates without reading outside; success returns the tree, of at most 1000 nested containers, and where it ended; when only the end check fails, the position is that of the first byte behind the value that is no blank; any other failure returns a position inside the text |
| JsonProgress.TextProgress | 20170801/cjson.c:934-1013 | every accepted text leaves a suffix of itself and a tree of at most 1000 nested containers |
| JsonProgress.ValueSuffix | 20170801/cjson.c:1146-1199 | what a value leaves is a suffix of what it was given |
| JsonProgress.ValueNesting | 20170801/cjson.c:1280-1289 | the depth at which a value is read plus its own nesting stays within the limit |
| PrintBuffers.PrintBuffer.Ensure | 20170801/cjson.c:323-408 | succeeds exactly when the bytes and a NUL fit in the fixed buffer or in INT_MAX; what was printed survives a reallocation |
| PrintBuffers.PrintBuffer.UpdateOffset | 20170801/cjson.c:411-421 | strlen from an offset that was left behind finds the end of the text |
| PrintBuffers.PrintBuffer.PrintNumber | 20170801/cjson.c:424-487 | the decimal text behind what was printed, exactly when it fits |
| PrintBuffers.PrintBuffer.CountEscapes | 20170801/cjson.c:804-830 | the count is what escaping adds to the length |
| PrintBuffers.PrintBuffer.PrintString | 20170801/cjson.c:777-896 | the quoted and escaped text, exactly when it fits |
| PrintBuffers.PrintBuffer.PrintValue | 20170801/cjson.c:1202-1277 | on success the buffer is what it was followed by the rendered tree and a NUL, across any number of reallocations; success is exactly that the text fits; a fixed buffer is not touched at or past its length |
| PrintBuffers.PrintBuffer.PrintArray | 20170801/cjson.c:1374-1433 | the same for arrays, with the depth restored |
| PrintBuffers.PrintBuffer.PrintObject | 20170801/cjson.c:1545-1656 | the same for objects, with tabs and newlines |
| PrintBuffers.PrintBuffer.PrintKey | 20170801/cjson.c:1574-1607 | indentation, key, colon and tab |
| PrintBuffers.Print | 20170801/cjson.c:1023-1094 | the whole rendered text with its NUL, exactly when it fits in INT_MAX bytes |
| PrintBuffers.PrintBuffered | 20170801/cjson.c:1096-1124 | the same from any non-negative first guess of the size |
| PrintBuffers.PrintPreallocated | 20170801/cjson.c:1126-1143 | succeeds exactly when len is at least the text plus two bytes (plus one for a number), and never changes a byte at or past len |
| JsonMinify.SkipLine | 20170801/cjson.c:2423-2430 | the cursor stops at the newline or the terminator |
| JsonMinify.SkipBlock | 20170801/cjson.c:2431-2439 | the cursor stops behind the first end of comment |
| JsonMinify.CopyString | 20170801/cjson.c:2440-2453 | moves a string literal, escaped quotes included, down in the buffer unchanged |
| JsonMinify.Minify | 20170801/cjson.c:2395-2463 | in place, the buffer holds the minified text and behind it what was there: the write cursor never overtakes the read cursor |
| JsonMinifyLaws.BlankDropped | 20170801/cjson.c:2403-2422 | a space, tab, carriage return or newline outside strings is dropped |
| JsonMinifyLaws.LineComment | 20170801/cjson.c:2423-2430 | two slashes hide everything up to the newline or the end |
| JsonMinifyLaws.BlockComment | 20170801/cjson.c:2431-2439 | a slash and a star hide everything up to the first star and slash, which may share the star |
| JsonMinifyLaws.StringKept | 20170801/cjson.c:2440-2453 | a string is kept as it is, with blanks and comments in it |
| JsonMinifyLaws.ByteKept | 20170801/cjson.c:2454-2459 | every other byte is kept, a slash too unless it starts a comment |
| JsonMinifyMeaning.MinifyKeepsMeaning | 20170801/cjson.c:2395-2463 | every text accepted with the end check has a minified form, and that form is accepted as the same tree |
| JsonMinifyPrinted.MinifyPrinted | 20170801/cjson.c:2395-2463 | minifying the formatted print of a tree gives its unformatted print |
| JsonCompare.SameKey | 20170801/cjson.c:71-92 | the same bytes or, without case, as many bytes, each equal or the other case of a letter from A to Z |
| JsonItemCompare.GetObjectItem | 20170801/cjson.c:1711-1737 | on linked items, the first child whose key matches under the case rule, or NULL when none does; it holds the value that the lookup on trees finds |
| JsonItemCompare.Compare | 20170801/cjson.c:2565-2688 | on linked items: true exactly for one and the same item or for equal trees, false for NULL |
| JsonCompare.SameIsMeaning | 20170801/cjson.c:2565-2688 | comparison holds exactly when both trees mean the same, objects taken as maps from keys, and members that share a key agree in both |
| JsonCompare.CompareEquivalence | 20170801/cjson.c:2565-2688 | symmetric and transitive on all trees, reflexive exactly on the consistent ones |
| JsonCompare.DistinctCompare | 20170801/cjson.c:2565-2688 | on trees with distinct keys it is order-insensitive equality, and reflexive |
| JsonCompare.DuplicateKeysNotReflexive | 20170801/cjson.c:2647-2683 | an object with a repeated key that does not equal its own copy |
| JsonNodes.GetArrayItem | 20170801/cjson.c:1682-1699 | the child at the index, or NULL |
| JsonNodes.AddItemToArray | 20170801/cjson.c:1784-1809 | the child sequence grows by the item at its end; links match in both directions and end in NULL |
| JsonNodes.InsertItemInArray | 20170801/cjson.c:1940-1967 | the item is inserted at the index, or appended when there is none; nothing changes below 0 |
| JsonNodes.DetachItemViaPointer | 20170801/cjson.c:1870-1898 | exactly that child leaves the sequence and keeps no link |
| JsonNodes.DetachItemFromArray | 20170801/cjson.c:1900-1908 | the same by index, and nothing when there is no such child |
| JsonNodes.ReplaceItemViaPointer | 20170801/cjson.c:1969-2002 | the replacement takes exactly that place, and the old child keeps no link |
| JsonNodes.ReplaceItemInArray | 20170801/cjson.c:2004-2012 | the same by index |
| JsonNodes.LinkedInserted | 20170801/cjson.c:1956-1966 | once the item and its neighbours point to each other, the longer sequence is a well-formed chain |
| JsonNodes.LinkedWithout | 20170801/cjson.c:1877-1895 | once the neighbours point past an item, the rest is a well-formed chain |
| JsonNodes.EditLaws | 20170801/cjson.c:1870-2002 | detaching undoes inserting and the reverse; replacing is detaching and inserting |
| JsonDuplicate.Duplicate | 20170801/cjson.c:2316-2393 | a recursive copy consists of new items only, stands for the same tree as the original and leaves it alone; a shallow one copies the fields and has no child |
| JsonDuplicate.DuplicateChildren | 20170801/cjson.c:2359-2382 | the copies hang below the new item in the same order with the same names |
| JsonTrees.TreeUnique | 20170801/cjson.c:2316-2393 | an item stands for at most one tree |
| JsonItemCompare.CompareCopy | 20170801/cjson.c:2316-2393 | an item and the item that a recursive copy of it returns compare equal exactly when its tree is consistent, so whenever keys are distinct |
| ThreadPool.EveryRun | 20180731threadpoll-test/threadpoll.c:101-258 | after every interleaving: the slots behind front hold the accepted tasks not yet taken in order, rear is front plus size modulo the capacity, the counters equal the number of unexited and of busy workers, and min <= live <= max while enabled |
| ThreadPool.StepKeepsQueue | 20180731threadpoll-test/threadpoll.c:157-160 | every step of every thread keeps the queue invariant |
| ThreadPool.AddKeepsQueue | 20180731threadpoll-test/threadpoll.c:426-455 | adding puts the task behind the queued ones and overwrites none of them |
| ThreadPool.TakeKeepsQueue | 20180731threadpoll-test/threadpoll.c:157-160 | the slot taken holds the oldest task not yet taken, so tasks are taken in the order they were added |
| ThreadPool.UnlockedRead | 20180731threadpoll-test/threadpoll.c:158-170 | the unlocked read finds the newest task put in the slot; it is the one taken exactly when fewer tasks were added since than the capacity less what was queued then |
| ThreadPool.RunStartsTaken | 20180731threadpoll-test/threadpoll.c:107-177 | that condition, for every worker that starts a task in every run; otherwise the task it runs was added later |
| ThreadPool.LostTask | 20180731threadpoll-test/threadpoll.c:158-170 | a run in which two workers run one task and another is never run |
| ThreadPool.StepKeepsPopulation | 20180731threadpoll-test/threadpoll.c:114-176 | every step keeps the counters right and the population within its bounds |
| ThreadPool.StepKeepsShutdown | 20180731threadpoll-test/threadpoll.c:240-258 | the manager leaves its loop only when disabled and, unless woken without a signal, ends only with no worker left |
| ThreadPool.RunOnce | 20180731threadpoll-test/threadpoll.c:107-177 | over every run, each taken task has been run once or is still held, and not both, if and only if every read was timely |
| ThreadPool.ExactlyOnce | 20180731threadpoll-test/threadpoll.c:107-177 | in every run each taken number is held by one worker or was let go by one start, never both; every start runs an accepted task; and all reads were timely if and only if every start ran the task that was taken |
| ThreadPool.AfterDisable | 20180731threadpoll-test/threadpoll.c:457-478 | once disabled, always disabled: nothing is accepted or taken and live only falls, in every run |
| ThreadPool.StartsWhenDisabled | 20180731threadpoll-test/threadpoll.c:143-177 | in a disabled pool the starts to come are exactly those of the tasks that workers hold |
| ThreadPool.NoStartExactly | 20180731threadpoll-test/threadpoll.c:143-177 | from a reachable disabled pool that is not freed, no run starts a task if and only if no worker holds one |
| ThreadPool.LateStart | 20180731threadpoll-test/threadpoll.c:166-170 | a run in which a task taken before the pool is disabled starts after it |
| ThreadPool.FreedWhenEmpty | 20180731threadpoll-test/threadpoll.c:457-478 | if waits return only when signalled, the pool is freed only with live = busy = 0 and every worker exited |
| ThreadPool.FreedExact | 20180731threadpoll-test/threadpoll.c:248-252 | a run has no wake-up of the last wait without a signal if and only if, wherever in it the pool may be freed, live is 0 |
| ThreadPool.WakeThenFree | 20180731threadpoll-test/threadpoll.c:248-252 | in every reachable state where the manager waits at the end, waking it and freeing the pool leaves live at 0 exactly when it was signalled |
| ThreadPool.FreedUnder | 20180731threadpoll-test/threadpoll.c:248-252 | from every enabled pool with workers, a wake-up without a signal lets it be freed with all of them in it |
| ThreadPool.FreedTooEarly | 20180731threadpoll-test/threadpoll.c:248-252 | a run of a pool of one worker that is freed under it |
| PoolProgress.CanServeAll | 20180731threadpoll-test/threadpoll.c:103-239 | no reachable pool is stuck: from every enabled one with a positive maximum, steps without spurious wake-ups lead to where every accepted task has been taken and started |
| PoolProgress.CanBeFreed | 20180731threadpoll-test/threadpoll.c:103-253 | from every reachable pool that is disabled and not freed, steps without spurious wake-ups free it with no worker left |
| PoolProgress.WorkerTakes | 20180731threadpoll-test/threadpoll.c:110-166 | in every reachable enabled pool with tasks, a worker that enters, or wakes without having to exit, ends up holding task number `taken`, whose slot holds the oldest queued task; taken and busy are one more, size one less, and nothing else changes but a used-up exit request |
| PoolProgress.WorkerWaits | 20180731threadpoll-test/threadpoll.c:114-121 | in an enabled pool without tasks it waits |
| PoolProgress.WorkerExits | 20180731threadpoll-test/threadpoll.c:122-155 | in a disabled pool, and when woken with an exit pending above the minimum, it exits: live is one less, and the last one signals a waiting manager |
| PoolProgress.WorkerRuns | 20180731threadpoll-test/threadpoll.c:168-176 | a start runs what the slot holds, and a finished worker is back at the lock with busy one less |
| PoolProgress.TaskAdded | 20180731threadpoll-test/threadpoll.c:419-455 | a task can be added exactly when the pool is enabled and fewer tasks wait than there are slots; it comes behind all others |
| PoolProgress.PoolDisabled | 20180731threadpoll-test/threadpoll.c:457-470 | the pool can be disabled exactly while it is enabled, and queue and workers stay |
| PoolProgress.ManagerCreates | 20180731threadpoll-test/threadpoll.c:197-218 | a round may create k workers exactly when all are busy, k tasks wait and k more are within the maximum; it then asks none to exit |
| PoolProgress.ManagerRetires | 20180731threadpoll-test/threadpoll.c:221-231 | a round that creates none asks as many workers to exit as are neither busy nor needed for the queued tasks, and none at the minimum |
| Dictionaries.Dictionary.constructor | auto_imi_db_bin/src/dictionary.c:150-166 | an empty map, with at least 128 slots |
| Dictionaries.Dictionary.FindSlot | auto_imi_db_bin/src/dictionary.c:214-226 | the key's only slot, or that the map lacks the key, whatever the hash function |
| Dictionaries.Dictionary.Get | auto_imi_db_bin/src/dictionary.c:209-227 | map lookup with a default |
| Dictionaries.Dictionary.Grow | auto_imi_db_bin/src/dictionary.c:68-101 | twice the slots, the same map |
| Dictionaries.Dictionary.FreeSlot | auto_imi_db_bin/src/dictionary.c:289-294 | the wrapping search ends at an empty slot whenever not all are occupied |
| Dictionaries.Dictionary.Set | auto_imi_db_bin/src/dictionary.c:255-301 | map update; n counts the occupied slots; it grows exactly when a new key meets a full table |
| Dictionaries.Dictionary.Unset | auto_imi_db_bin/src/dictionary.c:314-349 | map removal, and nothing for a missing key |
| Ini.Strstrip | auto_imi_db_bin/src/iniparser.c:91-109 | in place, the text without outer blanks, with its NUL |
| Ini.Strlwc | auto_imi_db_bin/src/iniparser.c:45-57 | lower case, cut to the buffer |
| Ini.GetNSec | auto_imi_db_bin/src/iniparser.c:164-179 | the number of entries without a colon |
| Ini.GetSecName | auto_imi_db_bin/src/iniparser.c:195-215 | the n-th of them in slot order, or NULL |
| Ini.FindEntry | auto_imi_db_bin/src/iniparser.c:579-586 | whether the lower-case name is in the map |
| Ini.DumpSection | auto_imi_db_bin/src/iniparser.c:296-320 | the section line and a line for each of its keys, in slot order |
| Ini.Dump | auto_imi_db_bin/src/iniparser.c:258-282 | the text of all sections, or the flat listing without any |
| Ini.Load | auto_imi_db_bin/src/iniparser.c:714-820 | the dictionary that the loader function gives for the text, or NULL for a line too long or malformed |
| Ini.OneLine | auto_imi_db_bin/src/iniparser.c:749-813 | one fgets round: continuation lines, skipped lines, lines cut by a NUL, the length check and the update of the dictionary |
| Ini.DumpThenLoad | auto_imi_db_bin/src/iniparser.c:258-282 | for every valid dictionary with dumpable entries, dumping and loading gives a new valid dictionary with the same entries, sections set to NULL and keys without a value to the empty string |
| IniLaws.RemarkLaw | auto_imi_db_bin/src/iniparser.c:644-652 | in any file, a blank line or a comment between lines changes nothing |
| IniLaws.KeyLaw | auto_imi_db_bin/src/iniparser.c:659-693 | a line `key = value` with any blanks, the value in quotes of either kind (closed or not), plain, or missing, with or without a comment, sets the lower-case key in the current section to exactly that value |
| IniLaws.SectionLaw | auto_imi_db_bin/src/iniparser.c:653-658 | a line in brackets, with any blanks, makes the lower-case name current and enters it |
| IniLaws.EmptyBrackets | auto_imi_db_bin/src/iniparser.c:653-658 | "[]" keeps the current name, cut to one byte less than the line has |
| IniLaws.FailsExactly | auto_imi_db_bin/src/iniparser.c:694-697 | a line makes the load fail, whatever follows, exactly when, stripped, it is no comment, not in brackets, and has no equals sign or starts with one |
| IniLaws.RefusedExactly | auto_imi_db_bin/src/iniparser.c:749-820 | a file of whole lines is refused exactly when one of them is malformed in that sense |
| IniLaws.LowerTable | auto_imi_db_bin/src/iniparser.c:45-57 | A to Z become a to z and every other byte stays |
| IniForms.EveryKey | auto_imi_db_bin/src/iniparser.c:659-693 | every line that is no comment, not in brackets and not malformed has the form that the law of keys speaks of |
| IniForms.EverySection | auto_imi_db_bin/src/iniparser.c:653-658 | every line in brackets has the form that the laws of sections speak of |
| IniForms.JoinLaw | auto_imi_db_bin/src/iniparser.c:773-781 | a line that ends in a backslash and blanks is read as if the next one stood in place of them |
| IniForms.LongLine | auto_imi_db_bin/src/iniparser.c:754-763 | 1023 bytes without a newline make the load fail |
| IniForms.LastLine | auto_imi_db_bin/src/iniparser.c:749-763 | the last line needs no newline exactly when it has more than one byte; a single byte is not looked at |
| IniForms.NulLine | auto_imi_db_bin/src/iniparser.c:751-763 | a NUL hides the rest of its line, which is skipped if at most one byte is left of it and refused otherwise |
| IniLayout.FlatInOrder | auto_imi_db_bin/src/iniparser.c:266-274 | without section entries the slots are listed one after the other |
| IniLayout.FlatSlot | auto_imi_db_bin/src/iniparser.c:266-274 | a slot in use is listed as its key, " = ", its value and a newline, and an empty one not at all |
| IniLayout.FlatLoad | auto_imi_db_bin/src/iniparser.c:258-282 | a listing without sections is loaded with a colon more in front of the key, so never as it was |
| IniLayout.KeyLineBytes | auto_imi_db_bin/src/iniparser.c:310-315 | the key, blanks up to column 30, " = " and the value, empty for NULL |
| IniLayout.SectionBytes | auto_imi_db_bin/src/iniparser.c:304-318 | a blank line, the name in brackets, the lines of the keys and a blank line |
| IniLayout.KeySlot | auto_imi_db_bin/src/iniparser.c:306-309 | a key is listed under a section exactly when the section and a colon start its name |
| IniLayout.SectionSlot | auto_imi_db_bin/src/iniparser.c:164-215 | an entry is a section exactly when its name has no colon |
| IniLayout.SectionsSplit | auto_imi_db_bin/src/iniparser.c:164-215 | sections are found in slot order |
| IniLayout.KeysSplit | auto_imi_db_bin/src/iniparser.c:306-317 | the keys of a section are listed in slot order |
| IniLayout.DumpInOrder | auto_imi_db_bin/src/iniparser.c:276-280 | sections are written one after the other and a newline ends the file |
| IniRoundTrip.IniRoundTrip | auto_imi_db_bin/src/iniparser.c:258-320 | loading what was dumped gives the same entries for every dumpable dictionary, sections set to NULL and keys without a value to the empty string |
| IniRoundTrip.KeyLineStep | auto_imi_db_bin/src/iniparser.c:633-698 | a dumped key line sets exactly its key in the current section |
| IniRoundTrip.SectionLineStep | auto_imi_db_bin/src/iniparser.c:653-658 | a dumped section line makes its section current and enters it |
| IniSections.SectionExact | auto_imi_db_bin/src/iniparser.c:633-813 | dumping a dictionary of one section and loading the text gives that section back if and only if its name is lower case, trimmed, without closing bracket, newline or NUL, and fits in the line buffer |
| IniSections.SectionLost | auto_imi_db_bin/src/iniparser.c:653-658 | of a section named `a]` only `a` comes back |
| IniSections.SectionRefused | auto_imi_db_bin/src/iniparser.c:749-813 | a section whose name has a newline makes the load fail |
| IniSections.LoadNames | auto_imi_db_bin/src/iniparser.c:749-813 | whatever the file holds, no name and no value that is loaded contains a newline or a NUL |
| IniKeys.KeyExact | auto_imi_db_bin/src/iniparser.c:633-813 | dumping a section with one key and loading the text gives both back if and only if key and value are good and the line fits |
| IniKeys.KeyLineExact | auto_imi_db_bin/src/iniparser.c:633-698 | a dumped key line that no backslash ends sets its key to its value if and only if both are good |
| IniKeys.KeyLost | auto_imi_db_bin/src/iniparser.c:666-677 | the value `a;b` does not come back |
| RingBuffers.DataLen | 20180720ringbuffer/ringbuffer.h:82-112 | the number of bytes held: 0 exactly when empty, all of them exactly when full |
| RingBuffers.PutBlockIsLoop | 20180720ringbuffer/ringbuffer.c:49-97 | bulk put leaves the same fields and bytes as a loop of single puts |
| RingBuffers.PutEachContents | 20180720ringbuffer/ringbuffer.c:206-228 | a loop of single puts appends its bytes |
| RingBuffers.DropBlockIsLoop | 20180720ringbuffer/ringbuffer.c:156-201 | bulk get leaves the same fields as a loop of single gets |
| RingBuffers.PrefixTaken | 20180720ringbuffer/ringbuffer.c:156-201 | what bulk get hands out and what it leaves make up the old contents |
| RingBuffers.ForceByteContents | 20180720ringbuffer/ringbuffer.c:235-264 | appends, and drops the oldest byte exactly when full |
| RingBuffers.ForceEachContents | 20180720ringbuffer/ringbuffer.c:235-264 | forcing bytes in one by one leaves the newest ones, as many as the buffer holds |
| RingBuffers.ForceBlockIsLoop | 20180720ringbuffer/ringbuffer.c:104-150 | on a full buffer, bulk force is a loop of single forces |
| RingBuffers.ForceBlockExact | 20180720ringbuffer/ringbuffer.c:104-150 | the fields stay a queue exactly when the buffer was full or the data fits, and then hold the newest bytes of contents and data |
| RingBuffers.ForceBreaks | 20180720ringbuffer/ringbuffer.c:104-150 | one byte held and four forced into four bytes: the fields are no queue afterwards |
| RingBuffers.CallRefines | 20180720ringbuffer/ringbuffer.c:49-291 | each of the six calls does to the contents, and hands out, what the bounded queue does |
| RingBuffers.RunRefines | 20180720ringbuffer/ringbuffer.c:49-291 | over every run of allowed calls the buffer holds and hands out exactly what a bounded FIFO does |
| RingBuffers.RingBuffer.constructor | 20180720ringbuffer/ringbuffer.c:30-44 | empty, with the size cut to a multiple of four |
| RingBuffers.RingBuffer.Put | 20180720ringbuffer/ringbuffer.c:49-97 | appends the first min(length, free) bytes and returns their number |
| RingBuffers.RingBuffer.PutForce | 20180720ringbuffer/ringbuffer.c:104-150 | the fields of the forced block; a queue exactly when full before or the data fits |
| RingBuffers.RingBuffer.Get | 20180720ringbuffer/ringbuffer.c:156-201 | removes and returns a prefix of min(length, held) bytes |
| RingBuffers.RingBuffer.PutChar | 20180720ringbuffer/ringbuffer.c:206-228 | appends one byte, or returns 0 and changes nothing when full |
| RingBuffers.RingBuffer.PutCharForce | 20180720ringbuffer/ringbuffer.c:235-264 | the newest bytes of contents and the one byte |
| RingBuffers.RingBuffer.GetChar | 20180720ringbuffer/ringbuffer.c:269-291 | removes and returns the oldest byte, or returns 0 and changes nothing when empty |
| LinkedLists.List.Length | 20180208/list.c:16-23 | the number of nodes |
| LinkedLists.List.Append | 20180208/list.c:47-55 | the nodes and behind them a new one with the data |
| LinkedLists.List.PopTail | 20180208/list.c:57-81 | all nodes but the last, and 0 on an empty list |
| LinkedLists.List.Pop | 20180208/list.c:83-109 | removes exactly position pos, or returns 0 and changes nothing when there is none |
| LinkedLists.List.Swap | 20180208/list.c:198-237 | exchanges exactly two distinct valid positions, adjacent in either order or with the head; otherwise returns 0 and changes nothing; always a chain without a cycle |
| LinkedLists.List.Exchange | 20180208/list.c:219-236 | the relinking alone, where one node may be the other's predecessor |
| LinkedLists.List.Reverse | 20180208/list.c:239-244 | in place, the nodes in reverse order |
| LinkedLists.LinkedSwapped | 20180208/list.c:219-236 | nodes that took over each other's links form the exchanged chain |
| LinkedLists.LinkedReversed | 20180208/list.c:239-244 | nodes that all point backwards form the reversed chain |
| LinkedLists.ReversedTwice | 20180208/list.c:239-244 | reversing is an involution |
| LinkedLists.ReversedSwapped | 20180208/list.c:198-244 | a swap before a reversal is the mirrored swap after it |
| LinkedLists.SwappedTwice | 20180208/list.c:198-237 | swapping again undoes a swap, and no node is lost |
| NeoPixels.RunBounded | 20161109/libraries/Adafruit_NeoPixel/Adafruit_NeoPixel.cpp:829-925 | over every run of calls no byte exceeds (brightness - 1) mod 256, so no product of the next rescale exceeds 65535 |
| NeoPixels.RescaledBound | 20161109/libraries/Adafruit_NeoPixel/Adafruit_NeoPixel.cpp:911-922 | the 16-bit product does not wrap and the rescaled byte is within the requested level |
| NeoPixels.RescaledOrder | 20161109/libraries/Adafruit_NeoPixel/Adafruit_NeoPixel.cpp:911-922 | rescaling keeps the order of bytes, keeps 0, and takes the old maximum exactly to the requested level |
| NeoPixels.Scaled | 20161109/libraries/Adafruit_NeoPixel/Adafruit_NeoPixel.cpp:832-836 | a scaled component exceeds neither itself nor the level |
| NeoPixels.ScaledExact | 20161109/libraries/Adafruit_NeoPixel/Adafruit_NeoPixel.cpp:832-836 | a scaled component is the component times the stored brightness in 256ths, rounded down, and the component itself for 0 |
| NeoPixels.WireOrder | 20161109/libraries/Adafruit_NeoPixel/Adafruit_NeoPixel.cpp:829-842 | the bytes of a pixel stand in the order green, red, blue or red, green, blue, each scaled so, and no other byte changes |
| NeoPixels.LevelExact | 20161109/libraries/Adafruit_NeoPixel/Adafruit_NeoPixel.cpp:911-922 | after a change of level every byte is the old one times the largest 16-bit factor whose product with the old level is at most 256 b + 255, in 256ths, rounded down |
| NeoPixels.LevelClose | 20161109/libraries/Adafruit_NeoPixel/Adafruit_NeoPixel.cpp:911-922 | so every byte stays in proportion to the levels, to less than two |
| NeoPixels.LevelKept | 20161109/libraries/Adafruit_NeoPixel/Adafruit_NeoPixel.cpp:902-925 | a strip at level 0 keeps its bytes, and setting the level a strip has changes nothing |
| NeoPixels.ReadBack | 20161109/libraries/Adafruit_NeoPixel/Adafruit_NeoPixel.cpp:829-884 | a pixel reads back as its scaled components, and every other pixel as before |
| NeoPixels.PackedRoundTrip | 20161109/libraries/Adafruit_NeoPixel/Adafruit_NeoPixel.cpp:845-884 | at full brightness a packed colour survives setting and getting, in both colour orders |
| NeoPixels.NeoPixel.SetPixelColor | 20161109/libraries/Adafruit_NeoPixel/Adafruit_NeoPixel.cpp:829-842 | writes the scaled components of that pixel only, and nothing past the strip; keeps the bound |
| NeoPixels.NeoPixel.SetPackedColor | 20161109/libraries/Adafruit_NeoPixel/Adafruit_NeoPixel.cpp:845-861 | the same from a packed colour |
| NeoPixels.NeoPixel.GetPixelColor | 20161109/libraries/Adafruit_NeoPixel/Adafruit_NeoPixel.cpp:870-884 | the packed colour, 0 past the strip |
| NeoPixels.NeoPixel.SetBrightness | 20161109/libraries/Adafruit_NeoPixel/Adafruit_NeoPixel.cpp:902-925 | every byte rescaled, or nothing when the level stays; the new level is the requested one; keeps the bound |

## Left out

- ParseBuffers.ParseBuffer.ParseNumber: numbers are reals. strtod is read exactly, in the C locale and for decimal text, and the rounding of doubles, the saturation of valueint and infinities are not modelled.
- PrintBuffers.PrintBuffer.PrintNumber: only integers below 10^15 in size, which `%1.15g` writes as plain decimals.
- Allocation: it always succeeds. Custom hooks, the shrinking copy at the end of `print`, and freeing are not modelled; a freed node is one that nothing reaches any more.
- cJSON_Raw, cJSON_IsReference and cJSON_StringIsConst: bookkeeping of ownership.
- ParseBuffers.ParseBuffer.ParseValue: builds a tree value; that the parser links new items into chains with `next` and `prev` is not shown (the edits and the copy are, on linked items).
- ParseBuffers.ParseWithOpts: a NULL text is not modelled, and where a value itself is refused the position it reports is shown to be inside the text, not which position it is.
- PrintBuffers.PrintBuffer.PrintValue: walks a tree value, not linked items; what a failed print leaves in the buffer is not stated except that a fixed buffer is untouched at or past its length.
- JsonItemCompare.Compare: two different items must not share a part; the code would call a shared part equal to itself, whatever its keys.
- JsonNodes.ReplaceItemViaPointer: the old child is unlinked, its deletion is not modelled; a replacement that is another child of the same parent is excluded, since the code would leave that child in two places.
- JsonNodes.AddItemToArray: an item that is still in a list is excluded, since the code would join the two lists.
- JsonNodes.InsertItemInArray: an item that is already a child of the same parent is excluded, since the code would make a cycle, and so is a NULL item at an index that exists, which the code dereferences.
- JsonNodes.ReplaceItemInArray: a replacement that is already a child of the same parent is excluded, as it is for JsonNodes.ReplaceItemViaPointer unless it replaces itself.
- Edits of objects by key: the lookup of JsonItemCompare.GetObjectItem followed by the edits shown here.
- JsonMinify.Minify: texts with an unterminated string or comment are excluded; the code reads past the end of such a text.
- Thread pool: waiting for a condition is a step that may happen at any time. Starting threads, the slots for thread ids, the liveness test, the timed wait, the failing paths of creation and the unused change of the maximum are left out. The unlocked read of a slot is one step, so a task half overwritten is not seen.
- Ini.Load: the file is a byte sequence; opening it and the error callback are left out.
- Ini.DumpSection: keym has 1025 bytes, so a section name of 1024 bytes or more does not fit in it with its colon and NUL; the text is the one that a longer keym would give.
- IniRoundTrip.IniRoundTrip: entries are C strings, so without NUL. Its conditions are shown to be necessary one section and one key at a time, not for a whole dictionary at once.
- JsonRfc.RfcExact: bytes from 128 on are taken as they are; that they form UTF-8 is not asked.
- Dictionaries.Dictionary: the hash function is arbitrary; NULL keys, which the code refuses, are not modelled.
- Ring buffer used by two threads at once: every call is atomic.
- RingBuffers.RingBuffer.PutCharForce: a pool of less than four bytes, which leaves a buffer of size 0, is excluded, since the code then writes outside the size it keeps.
- Linked list: list_iter and list_cycle (cursors kept between calls), list_extend (two lists that share nodes), list_from_array and the lookups are left out; positions do not overflow.
- LinkedLists.List.Pop: the zeroing of freed memory is reduced to clearing the link of the removed node.
- NeoPixels.NeoPixel.constructor: strips of more than 21845 pixels are excluded, since the 16-bit byte count wraps there. Sending the data to the strip is left out.
- `20180320queue/src/queue.c`: it pushes through a node that a pop may have freed, so no invariant holds.
- Sockets, message queues, SQLite, timers, NTP, sketches, assembly and lookup tables: input and output, foreign calls and hardware.
