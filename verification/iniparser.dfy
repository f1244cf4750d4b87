/** The GPX.ini store (octoprint_GPX/iniparser.py). Reading keeps two views of
    the file: `ini`, a map from section to option to value, and `idx`, the
    layout, which remembers every line in file order so that writing puts the
    user's comments and formatting back. Updates from the settings page edit
    both views; writing emits the layout only. */
module IniParser {
  import opened Text
  import opened Patterns
  import opened Layout

  /** A JSON scalar as the settings page sends it. */
  datatype Value = Str(s: string) | Bool(b: bool) | Num(n: int) | Null

  /** Python's `"%s" % value`. */
  function Show(v: Value): string {
    match v
    case Str(s) => s
    case Bool(b) => if b then "True" else "False"
    case Num(n) => DecimalString(n)
    case Null => "None"
  }

  /** Python truthiness. */
  predicate Truthy(v: Value) {
    match v
    case Str(s) => |s| > 0
    case Bool(b) => b
    case Num(n) => n != 0
    case Null => false
  }

  /** The text of Python's `None`: the name of the section that holds lines
      before the first header, the option name that reading skips, and one of
      the values that mean "delete". */
  const NoneText := "None"

  /** The parser's state: the decoded map, the layout and the counter that
      keys every line that is not an option. */
  datatype Store = Store(ini: map<string, map<string, Value>>, idx: seq<Section>, counter: nat)

  /** The options of a section of the decoded map; a missing section reads as
      empty. */
  function Options(ini: map<string, map<string, Value>>, name: string): map<string, Value> {
    if name in ini then ini[name] else map[]
  }

  // ---------------------------------------------------------------------------
  // read()
  // ---------------------------------------------------------------------------

  /** The store being built and the section the next line belongs to. */
  datatype Reader = Reader(store: Store, current: string)

  /** What the two patterns make of a line once it is stripped: a section
      header, an option line (its trimmed name and value group), or any other
      line. */
  datatype LineKind =
    | HeaderLine(name: string, line: string)
    | OptionLine(item: string, value: string, line: string)
    | OtherLine(line: string)

  function Classify(raw: string): LineKind {
    var line := Strip(raw);
    match HeaderName(line)
    case Some(name) => HeaderLine(name, line)
    case None =>
      match MatchNameValue(line)
      case Some(g) => OptionLine(Strip(g.name), g.value, line)
      case None => OtherLine(line)
  }

  /** One iteration of the read loop, given what the line is. */
  function ReadLine(rd: Reader, kind: LineKind): Reader {
    var st := rd.store;
    var sec := rd.current;
    match kind
    case HeaderLine(name, _) =>
      Reader(Store(st.ini[name := map[]], SetSection(st.idx, name, []), st.counter), name)
    case OptionLine(item, value, line) =>
      if item == NoneText then rd
      else
        Reader(Store(st.ini[sec := Options(st.ini, sec)[item := Str(value)]],
                     SetSection(st.idx, sec, SetOpt(Entries(st.idx, sec), item, line)),
                     st.counter), sec)
    case OtherLine(line) =>
      var key := st.counter + 1;
      Reader(Store(st.ini, SetSection(st.idx, sec, SetRaw(Entries(st.idx, sec), key, line)), key), sec)
  }

  /** The read loop over classified lines. */
  function Feed(rd: Reader, kinds: seq<LineKind>): Reader
    decreases |kinds|
  {
    if |kinds| == 0 then rd else Feed(ReadLine(rd, kinds[0]), kinds[1..])
  }

  function ClassifyAll(lines: seq<string>): (r: seq<LineKind>)
    ensures |r| == |lines|
  {
    if |lines| == 0 then [] else [Classify(lines[0])] + ClassifyAll(lines[1..])
  }

  /** The state `read()` starts from: an empty pre-header section. */
  const Start: Reader := Reader(Store(map[NoneText := map[]], [Section(NoneText, [])], 0), NoneText)

  /** The read loop never removes or reorders a section, and never drops a
      section from the decoded map. */
  lemma {:induction false} FeedKeepsSections(rd: Reader, kinds: seq<LineKind>)
    ensures var after := Feed(rd, kinds).store;
      && |after.idx| >= |rd.store.idx|
      && (forall i :: 0 <= i < |rd.store.idx| ==> after.idx[i].name == rd.store.idx[i].name)
      && rd.store.ini.Keys <= after.ini.Keys
    decreases |kinds|
  {
    if |kinds| > 0 {
      var rd1 := ReadLine(rd, kinds[0]);
      var st := rd.store;
      var k := kinds[0];
      if k.HeaderLine? {
        SetSectionFacts(st.idx, k.name, []);
      } else if k.OptionLine? && k.item != NoneText {
        SetSectionFacts(st.idx, rd.current, SetOpt(Entries(st.idx, rd.current), k.item, k.line));
      } else if k.OtherLine? {
        SetSectionFacts(st.idx, rd.current, SetRaw(Entries(st.idx, rd.current), st.counter + 1, k.line));
      }
      FeedKeepsSections(rd1, kinds[1..]);
    }
  }

  /** `read()` of a file whose text is `text`. Lines before the first header
      are always filed first, under the section named `None`. */
  function Read(text: string): (r: Store)
    ensures |r.idx| >= 1 && r.idx[0].name == NoneText && NoneText in r.ini
  {
    FeedKeepsSections(Start, ClassifyAll(FileLines(text)));
    Feed(Start, ClassifyAll(FileLines(text))).store
  }

  // ---------------------------------------------------------------------------
  // update()
  // ---------------------------------------------------------------------------

  /** The result of an update: it ran to the end, or the trailing-blank loop
      ran off the front of a section and raised, leaving the store as it was at
      that moment. */
  datatype Outcome = Done(store: Store) | Raised(store: Store)

  /** Values that mean "remove this option from the file". */
  predicate Deletes(v: Value) {
    v == Str("") || v == Str("undefined") || v == Str(NoneText) || v == Null
  }

  /** The value an update actually stores: anything that prints as `True` or
      `False` becomes 1 or 0 by truthiness, and an empty machine type becomes
      `r2`. */
  function Normalize(option: string, value: Value): (r: Value)
    ensures !r.Bool?
    ensures value.Bool? ==> r == Num(if value.b then 1 else 0)
    ensures value.Num? || value.Null? ==> r == value
    ensures option == "machine_type" && value.Str? ==> !Deletes(r)
    ensures option != "machine_type" && value.Str? && value.s != "True" && value.s != "False" ==> r == value
    ensures value.Str? && (value.s == "True" || value.s == "False") ==> r == Num(1)
    ensures option == "machine_type" && (value == Str("") || value == Str("undefined") || value == Str(NoneText)) ==> r == Str("r2")
    ensures option == "machine_type" && value.Str? && !Deletes(value) && value.s != "True" && value.s != "False" ==> r == value
  {
    var v := if Show(value) == "True" || Show(value) == "False" then Num(if Truthy(value) then 1 else 0) else value;
    if option == "machine_type" && (v == Str("") || v == Str("undefined") || v == Str(NoneText)) then Str("r2")
    else v
  }

  /** How many blank lines the loop at the end of a section pops before it
      meets a non-blank one; `None` when it pops every entry and `next` raises. */
  function TrailingBlanks(entries: seq<Entry>): (r: Option<nat>)
    ensures r.Some? ==> r.value <= |entries|
  {
    if |entries| == 0 then Some(0)
    else if !AllSpace(entries[|entries| - 1].line) then Some(0)
    else if |entries| == 1 then None
    else match TrailingBlanks(entries[..|entries| - 1])
      case None => None
      case Some(k) => Some(k + 1)
  }

  /** The loop pops exactly the run of blank lines at the end of a section
      that has a non-blank line, and raises exactly when every line is blank. */
  lemma {:induction false} TrailingBlanksRun(entries: seq<Entry>)
    ensures TrailingBlanks(entries).Some? ==> forall j :: |entries| - TrailingBlanks(entries).value <= j < |entries| ==> AllSpace(entries[j].line)
    ensures TrailingBlanks(entries).Some? && |entries| > 0 ==>
      TrailingBlanks(entries).value < |entries| && !AllSpace(entries[|entries| - TrailingBlanks(entries).value - 1].line)
    ensures TrailingBlanks(entries).None? <==> |entries| > 0 && forall j :: 0 <= j < |entries| ==> AllSpace(entries[j].line)
  {
    if |entries| > 1 && AllSpace(entries[|entries| - 1].line) {
      var prefix := entries[..|entries| - 1];
      TrailingBlanksRun(prefix);
      assert forall j :: 0 <= j < |prefix| ==> prefix[j] == entries[j];
    }
  }

  /** The popped blank lines put back, each under the next counter key. */
  function PutBlanks(entries: seq<Entry>, counter: nat, k: nat): seq<Entry>
    decreases k
  {
    if k == 0 then entries else PutBlanks(SetRaw(entries, counter + 1, ""), counter + 1, k - 1)
  }

  /** The layout once the section an update names exists: a new section is
      appended, empty. */
  function Prepared(idx: seq<Section>, section: string): (r: seq<Section>)
    ensures HasSection(r, section)
  {
    if HasSection(idx, section) then idx
    else
      SectionIndexFirst(idx + [Section(section, [])], section);
      assert (idx + [Section(section, [])])[|idx|].name == section;
      idx + [Section(section, [])]
  }

  /** What one update does to the entries of its section: the entries and the
      counter afterwards, or `Emptied` when the trailing-blank loop popped
      every entry and raised. */
  datatype Edit = Edited(entries: seq<Entry>, counter: nat) | Emptied

  /** The option line is found and the option pattern matches it, so its
      value can be rewritten. */
  predicate Rewritable(entries: seq<Entry>, option: string) {
    OptIndex(entries, option).Some? && MatchNameValue(entries[OptIndex(entries, option).value].line).Some?
  }

  /** Lines 84-90: the value group of the option's line is replaced. */
  function Rewrite(entries: seq<Entry>, option: string, v: Value): seq<Entry>
    requires Rewritable(entries, option)
  {
    var j := OptIndex(entries, option).value;
    var g := MatchNameValue(entries[j].line).value;
    entries[j := Opt(option, Format(g.(value := Show(v))))]
  }

  /** The line an update appends for an option it found no line for. */
  function AddedLine(option: string, v: Value): string {
    option + "=" + Show(v)
  }

  /** Lines 91-101: the trailing blank lines come off, `option=value` goes on
      under the next counter key, and the blanks go back on under the keys
      after it; `Emptied` when popping ran off the front. */
  function Append(entries: seq<Entry>, option: string, v: Value, counter: nat): Edit {
    match TrailingBlanks(entries)
    case None => Emptied
    case Some(k) =>
      var c := counter + 1;
      Edited(PutBlanks(SetRaw(entries[..|entries| - k], c, AddedLine(option, v)), c, k), c + k)
  }

  /** Lines 77-101 for one option, on the section's entries. */
  function EditEntries(entries: seq<Entry>, option: string, v: Value, counter: nat): Edit {
    var found := OptIndex(entries, option);
    if Deletes(v) then
      Edited(if found.Some? then RemoveAt(entries, found.value) else entries, counter)
    else if Rewritable(entries, option) then
      Edited(Rewrite(entries, option, v), counter)
    else
      Append(entries, option, v, counter)
  }

  /** One `(option, value)` pair of an update to section `section`. The
      section's entries are edited in place; the decoded map takes the value
      before anything else happens, so it keeps it even when the edit raises. */
  function UpdateOption(st: Store, section: string, option: string, value: Value): (r: Outcome)
    ensures Get(r.store, section, option) == Normalize(option, value)
    ensures st.ini.Keys <= r.store.ini.Keys
    ensures r.store.counter >= st.counter
    ensures forall other :: other != section ==> Options(r.store.ini, other) == Options(st.ini, other)
  {
    var v := Normalize(option, value);
    var ini := st.ini[section := Options(st.ini, section)[option := v]];
    var idx := Prepared(st.idx, section);
    match EditEntries(Entries(idx, section), option, v, st.counter)
    case Emptied => Raised(Store(ini, SetSection(idx, section, []), st.counter))
    case Edited(entries, counter) => Done(Store(ini, SetSection(idx, section, entries), counter))
  }

  /** The pairs of one section of an update, in order, stopping at a raise. */
  function UpdateSection(st: Store, section: string, options: seq<(string, Value)>): (r: Outcome)
    ensures st.ini.Keys <= r.store.ini.Keys
    ensures r.store.counter >= st.counter
    ensures |options| > 0 ==> section in r.store.ini
    decreases |options|
  {
    if |options| == 0 then Done(st)
    else match UpdateOption(st, section, options[0].0, options[0].1)
      case Raised(s) => Raised(s)
      case Done(s) => UpdateSection(s, section, options[1..])
  }

  /** `update(ini)`: every section of the payload in turn. */
  function Update(st: Store, changes: seq<(string, seq<(string, Value)>)>): (r: Outcome)
    ensures st.ini.Keys <= r.store.ini.Keys
    ensures r.store.counter >= st.counter
    ensures r.Done? ==> forall i :: 0 <= i < |changes| && |changes[i].1| > 0 ==> changes[i].0 in r.store.ini
    decreases |changes|
  {
    if |changes| == 0 then Done(st)
    else match UpdateSection(st, changes[0].0, changes[0].1)
      case Raised(s) => Raised(s)
      case Done(s) => Update(s, changes[1..])
  }

  // ---------------------------------------------------------------------------
  // write() and get()
  // ---------------------------------------------------------------------------

  /** The lines `write()` emits: each named section's header and then its
      entries; the pre-header section is skipped. */
  function Emit(idx: seq<Section>): (r: seq<string>)
    ensures r == [] <==> forall i :: 0 <= i < |idx| ==> idx[i].name == NoneText
    ensures forall i :: 0 <= i < |idx| && idx[i].name != NoneText ==> Header(idx[i].name) in r
  {
    if |idx| == 0 then []
    else
      var s := idx[|idx| - 1];
      assert forall i :: 0 <= i < |idx| - 1 ==> idx[..|idx| - 1][i] == idx[i];
      Emit(idx[..|idx| - 1]) + (if s.name == NoneText then [] else [Header(s.name)] + Lines(s.entries))
  }

  /** How many entry lines `write()` counts; headers do not count. */
  function EntryCount(idx: seq<Section>): nat {
    if |idx| == 0 then 0
    else
      var s := idx[|idx| - 1];
      EntryCount(idx[..|idx| - 1]) + (if s.name == NoneText then 0 else |s.entries|)
  }

  lemma {:induction false} EntryCountZero(idx: seq<Section>)
    ensures EntryCount(idx) == 0 <==> forall i :: 0 <= i < |idx| && idx[i].name != NoneText ==> idx[i].entries == []
  {
    if |idx| > 0 {
      EntryCountZero(idx[..|idx| - 1]);
    }
  }

  /** What `write()` leaves behind: the file's new text, and whether it then
      removes the file instead. */
  datatype Written = Written(text: string, remove: bool)

  function Write(st: Store): (r: Written)
    ensures r.remove <==> forall i :: 0 <= i < |st.idx| && st.idx[i].name != NoneText ==> st.idx[i].entries == []
  {
    EntryCountZero(st.idx);
    Written(Terminated(Emit(st.idx)), EntryCount(st.idx) == 0)
  }

  /** `get(section, item)`: the decoded value, or `None` when absent. */
  function Get(st: Store, section: string, item: string): (r: Value)
    ensures section in st.ini && item in st.ini[section] ==> r == st.ini[section][item]
    ensures section !in st.ini ==> r == Null
    ensures section in st.ini && item !in st.ini[section] ==> r == Null
  {
    if section in st.ini && item in st.ini[section] then st.ini[section][item] else Null
  }
}
