# OctoPrint-GPX core, modelled in Dafny

OctoPrint-GPX lets OctoPrint drive MakerBot-style printers that speak x3g
instead of G-code. This project models its two pieces of logic:

- **The `gpx.ini` store** (`IniParser`). The store reads an INI file into two
  views:
  - a decoded map, section → option → value;
  - an ordered layout index, section → entries.

  In the layout, an option line is keyed by its trimmed name and keeps its
  raw text. Every other line (comments, blanks, junk) is keyed by an
  increasing counter.

  `update` applies a payload of settings:
  - it rewrites a matched line in place, replacing only the value;
  - it deletes a line on a delete sentinel;
  - it appends a new line in front of the section's trailing blank lines.

  `write` turns the layout back into text, or asks for the file to be
  removed. `get` reads the decoded map.
- **The serial-port stand-in** (`GpxPrinter`). OctoPrint calls `write(line)`
  and `readline()` on it:
  - `write` strips the checksum, applies a pending baud-rate change and
    hands the command to the native GPX translator;
  - replies are queued one line per item and handed out first in, first out;
  - a full-buffer report from the translator queues `wait` and retries;
  - a refused baud change raises a sticky error flag.

The layout index is a sequence of `Section(name, entries)`. Each entry is
`Opt(name, line)` or `Raw(key, line)`. A file is a sequence of lines. The
native translator is an oracle: each operation receives what the translator
answers (baud accepted or not, how many full-buffer reports, the reply
text). It returns the new adapter state and the list of translator calls it
made.

Modules, one per file:

| file | module | contents |
|---|---|---|
| text.dfy | `Text` | Python 2 `strip()`, `split('\n')`, `rfind`, file lines, `"%s" % int` |
| patterns.dfy | `Patterns` | the two regular expressions of the parser, as the leftmost-first searches Python's `re.match` performs |
| layout.dfy | `Layout` | the layout index: `OrderedDict` assignment, lookup, deletion, and the keying invariants |
| iniparser.dfy | `IniParser` | `read`, `update`, `_write_section`/`write` and `get` |
| read_write.dfy | `ReadWrite` | what a read builds, the read/write round trip, dropped pre-header lines |
| update_props.dfy | `UpdateProps` | what one `update` pair does to a section, and what a whole payload keeps |
| gpxprinter.dfy | `GpxPrinter` | construction, `_append`, `write`, `readline` |

Where the plugin's documentation and the code disagree, the model follows
the code:

- **`machine_type`.** Only the strings `""`, `"undefined"` and `"None"`
  become `r2`. A null `machine_type` is deleted like any other option
  (iniparser.py:70).
- **Deletion.** A delete removes the layout line only. The decoded map keeps
  the sentinel value, so `get` answers it (iniparser.py:72-83).
- **Lines before the first header.** These are stored under the string
  section name `"None"`. `write` tests for the object `None`, which is never a
  key, and skips `"None"`. Such lines are therefore never written back
  (iniparser.py:117-120).
- **Boolean strings.** A value whose text is `True` or `False` becomes 1 or 0
  by Python truthiness. The strings `"True"` and `"False"` are both non-empty,
  so both become 1 (iniparser.py:68-69).
- **Appended options.** An appended option is keyed by the counter, not by its
  name. A second update of the same option before the next read appends
  another line (iniparser.py:97-98). A delete of such an option finds no line
  under its name and leaves the appended line in the file (iniparser.py:77-83).
- **All-blank sections.** Appending to a section that holds only blank lines
  pops every entry and then raises. The model returns `Raised` with the store
  as it stands at that point: the decoded map is already set and the section
  is empty.
- **`write` on the adapter.** It returns nothing. There is no timeout retry,
  no progress forwarding and no cancellation path in this revision of
  gpxprinter.py.

## Model

| member | source | states |
|---|---|---|
| Text.Strip | octoprint_GPX/iniparser.py:31 | the stripped line is a slice of the line with only whitespace cut off before and after it; it neither starts nor ends with whitespace, and it is empty only if the whole line was whitespace |
| Text.StripIdempotent | octoprint_GPX/iniparser.py:31 | stripping a stripped line changes nothing |
| Text.StripEmptyIffBlank | octoprint_GPX/iniparser.py:94 | a line strips to `''` exactly when it is blank |
| Text.LastIndexOf | octoprint_GPX/gpxprinter.py:48-49 | `rfind` finds the character, with none after it, or reports that it is absent |
| Text.SplitLines | octoprint_GPX/gpxprinter.py:41 | `split('\n')` yields at least one piece, no piece holds a newline, and joining the pieces with newlines gives back the text |
| Text.SplitJoin | octoprint_GPX/gpxprinter.py:41 | splitting undoes joining for pieces without newlines |
| Text.FileLinesOfTerminated | octoprint_GPX/iniparser.py:29-30 | iterating over a file written one line plus newline at a time yields those lines, each with its newline |
| Patterns.HeaderName | octoprint_GPX/iniparser.py:18 | a header match starts the line with `[name]`, where the `]` is the last one before the first newline; no match means the line does not start with `[` or has no `]` after a non-empty name |
| Patterns.HeaderOfBracketed | octoprint_GPX/iniparser.py:34-36 | `[name]` is recognised as the header of section `name` |
| Patterns.MatchNameValue | octoprint_GPX/iniparser.py:19 | a match splits the line into a name without `=` or `;`, blank lead, one-line value, blank trail and optional `;comment`, which together spell the line |
| Patterns.FormatParse | octoprint_GPX/iniparser.py:85-89 | a line rebuilt from its groups with a plain value parses back into exactly those groups |
| Patterns.MatchStrippedLine | octoprint_GPX/iniparser.py:40-41 | a stripped line is an option line exactly when its first `=` has a `;`-free name before it and something after it |
| Layout.SetSectionUnique | octoprint_GPX/iniparser.py:37-38 | assigning a section keeps names unique, gives it the new entries, and leaves every other section's entries and existence as they were |
| Layout.SetRawFresh | octoprint_GPX/iniparser.py:47-48 | a line under a counter key above all earlier keys goes at the end of the section |
| IniParser.Normalize | octoprint_GPX/iniparser.py:68-71 | booleans become 1 or 0 and the strings `True` and `False` both become 1; numbers and null are kept; a `machine_type` of `''`, `undefined` or `None` becomes `r2`, any other string `machine_type` is kept, and a string `machine_type` is never a delete sentinel; other strings than `True`/`False` are kept |
| IniParser.Read | octoprint_GPX/iniparser.py:21-28 | a read always files the pre-header section `None` first, in both views |
| IniParser.FeedKeepsSections | octoprint_GPX/iniparser.py:30-48 | the read loop never removes or reorders a section of either view |
| IniParser.UpdateOption | octoprint_GPX/iniparser.py:66-101 | after one pair `get` answers its normalised value; no other section of the decoded map changes, no section disappears from it and the counter never goes down |
| IniParser.UpdateSection | octoprint_GPX/iniparser.py:63-101 | a section with at least one pair is in the map afterwards; no section disappears and the counter never goes down |
| IniParser.Update | octoprint_GPX/iniparser.py:60-101 | after a payload that completes, every section given at least one pair is in the map; no section disappears and the counter never goes down |
| IniParser.Emit | octoprint_GPX/iniparser.py:116-122 | `write` produces no text exactly when every section is named `None`, and every other section's `[name]` header appears in it |
| IniParser.Get | octoprint_GPX/iniparser.py:134-137 | `get` answers the stored value when the section and option are in the map, and `None` when either is missing |
| IniParser.TrailingBlanksRun | octoprint_GPX/iniparser.py:91-96 | the popping loop removes exactly the blank lines at the end of the section, stops at a non-blank line, and raises exactly when the section is non-empty and all blank |
| IniParser.Prepared | octoprint_GPX/iniparser.py:75-76 | the section being updated exists in the layout afterwards |
| IniParser.EntryCountZero | octoprint_GPX/iniparser.py:116-123 | the lines `write` counts are zero exactly when every section other than `"None"` is empty |
| IniParser.Write | octoprint_GPX/iniparser.py:112-125 | `write` removes the file exactly when every section it writes has no lines |
| ReadWrite.ClassifyStripped | octoprint_GPX/iniparser.py:31-40 | a line is classified by its stripped form, so classifying that again gives the same kind |
| ReadWrite.FeedStructured | octoprint_GPX/iniparser.py:30-48 | every step of the read loop keeps section names unique, option names unique per section, counter keys growing and the current section present |
| ReadWrite.FeedConsistent | octoprint_GPX/iniparser.py:30-48 | every step of the read loop keeps the decoded map and the layout in agreement |
| ReadWrite.ReadWellFormed | octoprint_GPX/iniparser.py:21-48 | after a read the layout is well keyed, and each option line is keyed by its trimmed name and decodes to the value group the map holds for it |
| ReadWrite.RepeatedHeaderEmpties | octoprint_GPX/iniparser.py:36-38 | a repeated header empties its section in both views but keeps its position, and no other section changes in the layout or in the decoded map |
| ReadWrite.GetAfterRead | octoprint_GPX/iniparser.py:134-137 | after a read, `get` answers `None` exactly when the section has no line for the option, and otherwise the value that line holds |
| ReadWrite.NoneKindIgnored | octoprint_GPX/iniparser.py:42-45 | the read loop treats an option line named `None` as if it were not there |
| ReadWrite.NoneOptionIgnored | octoprint_GPX/iniparser.py:42-45 | an option line named `None` leaves the read result exactly as if it were absent |
| ReadWrite.ReadOptionLine | octoprint_GPX/iniparser.py:40-45 | an option line files under the current section, including one reopened by a repeated header: a name already there has its entry replaced in place by the later line, a new name goes at the end, the map takes the later value, and no other section changes in the layout or in the decoded map |
| ReadWrite.ReadOtherLine | octoprint_GPX/iniparser.py:46-48 | any other line goes at the end of the current section under the next counter key, the map is unchanged and no other section changes |
| ReadWrite.ReadBody | octoprint_GPX/iniparser.py:39-48 | for the last section, opened by a header not seen before, lines whose option names are distinct and new to it are appended in file order, option lines under their names and other lines under consecutive counter keys, and no other section changes |
| ReadWrite.ReadDocument | octoprint_GPX/iniparser.py:21-48 | reading canonical sections and then emitting the layout gives back exactly those lines, and the line count grows by their body lines |
| ReadWrite.ReadWriteRoundTrip | octoprint_GPX/iniparser.py:21-125 | a file is written back byte for byte, and removed exactly when no section has a body, when it has nothing before the first header, its section names are non-empty, one line, not `None` and distinct, and its body lines are stripped, one line, not headers, and carry option names that are distinct within their section and not `None` |
| ReadWrite.PreHeaderDropped | octoprint_GPX/iniparser.py:21-125 | lines before the first header make no difference to what `write` produces, whatever follows them |
| UpdateProps.DeletesAfterNormalize | octoprint_GPX/iniparser.py:68-78 | a pair deletes exactly when its value is a sentinel and, for `machine_type`, only when it is null |
| UpdateProps.NormalizedNumberPlain | octoprint_GPX/iniparser.py:68-69 | a boolean or number is stored as text that reads back as itself |
| UpdateProps.EditDeletes | octoprint_GPX/iniparser.py:77-83 | a delete removes the option line keyed by that name if there is one and nothing else, leaves no option line keyed by that name, and keeps the counter |
| UpdateProps.EditRewrites | octoprint_GPX/iniparser.py:84-90 | a matched line is replaced in place by one with the same name, whitespace and comment and only the new value, every other entry unchanged; a value of one line, with no `;` and no blank at either end, parses back to itself |
| UpdateProps.PutBlanksAppends | octoprint_GPX/iniparser.py:99-101 | re-adding `k` blanks appends `k` empty lines under the next `k` counter keys |
| UpdateProps.AppendPutsBlanksBack | octoprint_GPX/iniparser.py:91-101 | appending puts `option=value` under the next counter key after the lines before the trailing blanks, then the same number of blanks, with the counter advanced past them |
| UpdateProps.EditAppends | octoprint_GPX/iniparser.py:77-101 | an option with no rewritable line is appended in front of the trailing blanks, every earlier entry kept in order |
| UpdateProps.EditRaises | octoprint_GPX/iniparser.py:91-96 | an update raises exactly when it appends to a non-empty section made only of blank lines |
| UpdateProps.EditWellKeyed | octoprint_GPX/iniparser.py:77-101 | every edit that completes keeps the section well keyed and never lowers the counter |
| UpdateProps.AppendedOptionStaysUnkeyed | octoprint_GPX/iniparser.py:97-98 | an appended option is not keyed by its name, so the next update of it appends again |
| UpdateProps.UpdateEditsOneSection | octoprint_GPX/iniparser.py:60-101 | one pair edits only its own section, which then exists; section order and the layout's well-formedness are kept, and it raises exactly when the edit does |
| UpdateProps.UpdateThenGet | octoprint_GPX/iniparser.py:72-74 | after an update `get` answers the normalised value, even for a delete, and every other option reads as before |
| UpdateProps.UpdateSectionKeeps | octoprint_GPX/iniparser.py:66-101 | all pairs of one section keep the layout well formed, never lower the counter and leave other sections alone in the layout and in the decoded map |
| UpdateProps.UpdateKeeps | octoprint_GPX/iniparser.py:60-101 | a whole payload keeps the layout well formed, never lowers the counter and leaves every section it does not name untouched in the layout and in the decoded map |
| GpxPrinter.Enqueue | octoprint_GPX/gpxprinter.py:39-42 | an empty answer queues nothing; any other queues, after the old items, pieces that rejoin into the answer, none holding a newline |
| GpxPrinter.EnqueueJoined | octoprint_GPX/gpxprinter.py:39-42 | an answer made of newline-free lines queues exactly those lines, unless it is empty |
| GpxPrinter.EnqueueTerminated | octoprint_GPX/gpxprinter.py:41-42 | an answer ending in a newline queues an empty line after its last line |
| GpxPrinter.CommandOf | octoprint_GPX/gpxprinter.py:45-49 | the command is the stripped line cut just before its last `*`, or all of it when there is no `*` |
| GpxPrinter.CommandOfChecksummed | octoprint_GPX/gpxprinter.py:45-49 | a command followed by `*` and a checksum is passed on without the checksum |
| GpxPrinter.SendLoop | octoprint_GPX/gpxprinter.py:61-67 | the retry loop changes only the queue, which keeps its old items and gains at least one item per full-buffer report; the calls gain one `write` of the command per report plus one |
| GpxPrinter.SendLoopEffect | octoprint_GPX/gpxprinter.py:61-67 | the translator receives the command once per full-buffer report plus once, and one `wait` is queued per report before the answer |
| GpxPrinter.Write | octoprint_GPX/gpxprinter.py:44-67 | `write` applies the requested rate, keeps the queue's old items, makes at least one call, and either stops after the rate change or ends by sending the command |
| GpxPrinter.WriteBaud | octoprint_GPX/gpxprinter.py:50-60 | a pending rate change is recorded as applied and sent to the translator first, whatever it answers; the error flag then says whether it refused |
| GpxPrinter.WriteRefused | octoprint_GPX/gpxprinter.py:56-60 | a refused rate change queues exactly one empty line and sends no command |
| GpxPrinter.WriteSends | octoprint_GPX/gpxprinter.py:50-67 | otherwise the queue gains the waits and the answer, and the calls are the rate change if any and then the sends |
| GpxPrinter.WriteSendsOrRefuses | octoprint_GPX/gpxprinter.py:44-67 | every `write` either refuses a rate change or sends |
| GpxPrinter.Take | octoprint_GPX/gpxprinter.py:74-88 | a read takes the oldest queued line, or answers `''` from an empty queue and changes nothing |
| GpxPrinter.Readline | octoprint_GPX/gpxprinter.py:69-88 | `readline` never changes the requested rate; with the error flag up it answers `''`; without it the flag stays down and it polls the translator at most once |
| GpxPrinter.ReadlineWhileError | octoprint_GPX/gpxprinter.py:70-73 | with the error flag up and no pending change, `readline` answers `''`, calls nothing and changes nothing |
| GpxPrinter.ReadlineRetriesBaud | octoprint_GPX/gpxprinter.py:70-73 | with the error flag up and a pending change, `readline` answers `''` after retrying the change through `write("M105")` |
| GpxPrinter.ReadlineDelivers | octoprint_GPX/gpxprinter.py:74-88 | without the error flag, `readline` answers the oldest queued line without calling the translator, and from an empty queue polls once and answers the first line of the answer or `''` |
| GpxPrinter.FifoDelivery | octoprint_GPX/gpxprinter.py:74-79 | reading as many lines as are queued returns them in the order they were queued |
| GpxPrinter.ErrorSticky | octoprint_GPX/gpxprinter.py:70-73 | once the flag is up with no pending change, every read answers `''` and nothing changes |
| GpxPrinter.StaysClean | octoprint_GPX/gpxprinter.py:39-42 | no queued line and no answered line ever holds a newline |
| GpxPrinter.Create | octoprint_GPX/gpxprinter.py:25-34 | baud rate 0 is refused before connecting; otherwise a failed connect fails, and a successful one starts at that rate with no error and the greeting queued |
| GpxPrinter.SetBaudrate | octoprint_GPX/gpxprinter.py:50 | setting the rate changes nothing but the requested rate, and a change is pending exactly when the new rate differs from the applied one |
| GpxPrinter.RateReachesTranslator | octoprint_GPX/gpxprinter.py:50-54 | a new rate reaches the translator first thing at the next `write` |

## Left out

- `dump` (iniparser.py:127-132) prints to standard output and changes nothing.
- Logging throughout both classes is not modelled.
- File I/O is not modelled. `read` takes the file's text and `write` returns
  the text plus a flag for removing the file.
- The payload checks at iniparser.py:61-65 are left out: `.items` is never
  `None`, so they never fire. A payload is a sequence of (section, sequence of
  (option, value)) pairs. Python 2 dictionaries have no defined order, so the
  model lets the caller choose it.
- The `lines` list built by `read` (iniparser.py:24, 33) is left out; nothing
  reads it.
- Values are strings, booleans, integers or null. Other Python types that
  `update` could receive, and their `"%s"` text, are not modelled.
- Text is Python 2 byte strings. A `unicode` value, as a JSON payload
  delivers, is not modelled. With non-ASCII characters, the `"%s=%s%s%s%s"`
  rebuild (iniparser.py:89) and the file writes (iniparser.py:106, 121) raise
  a Unicode error that the model does not represent.
- The native `gpx` module is an oracle: each call's answer is a parameter.
  `gpx.connect`'s configuration and log paths, and the failure to import the
  module at all (gpxprinter.py:12-24), are not modelled.
- `close` (gpxprinter.py:90-92) only calls the translator and is not modelled.
- Thread safety of the queue and the timed `get` are not modelled; a timed
  `get` on an empty queue answers `''`. Lines queued by another thread during
  the wait are not modelled either.
- `port`, `timeout` and a `None` baud rate are not modelled; the baud rate is
  an integer.
- GpxPrinter.Create: only a raising `connect` is modelled as a failure. Any
  other exception in the constructor is not modelled.
- ReadWrite.ReadWriteRoundTrip: a file that repeats an option within a
  section is not written back as read. The later line replaces the earlier
  entry in place (ReadWrite.ReadOptionLine), so `write` drops a line.
- ReadWrite.ReadBody: covers only a new, last section with distinct new option
  names. Repeated headers and repeated options are stated line by line by
  ReadWrite.RepeatedHeaderEmpties, ReadWrite.ReadOptionLine and
  ReadWrite.ReadOtherLine.
- GpxPrinter.SendLoop: the translator's full-buffer reports are a finite
  count, so the modelled `write` always ends. The source's `while True` loop
  never returns if `BufferOverflow` keeps being raised.
- Exceptions other than `ValueError` from `set_baudrate` and `BufferOverflow`
  from `gpx.write` propagate out of `write` and `readline`. The model does not
  represent them.
- GpxPrinter.Write: the ensures do not list every call. GpxPrinter.WriteSends
  and GpxPrinter.WriteRefused state the calls exactly.
- UpdateProps.EditRewrites: a value holding `;` or a newline, or with a blank
  at either end, does not read back as written. `x=a;b` reads back as the value
  `a` with the comment `;b` (iniparser.py:85-89 and 40-44).
- The plugin glue in `__init__.py`, the browser code in `gpx.js` and
  `setup.py` are not part of this model.
