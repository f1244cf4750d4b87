/** Properties of `read()` and `write()`: what a read builds, and that a file
    already in the plugin's own layout survives a read followed by a write
    byte for byte. */
module ReadWrite {
  import opened Text
  import opened Patterns
  import opened Layout
  import opened IniParser

  // ---------------------------------------------------------------------------
  // Classifying lines
  // ---------------------------------------------------------------------------

  lemma {:induction false} ClassifyAllAt(lines: seq<string>)
    ensures forall i :: 0 <= i < |lines| ==> ClassifyAll(lines)[i] == Classify(lines[i])
    decreases |lines|
  {
    if |lines| > 0 {
      ClassifyAllAt(lines[1..]);
    }
  }

  lemma {:induction false} ClassifyAllConcat(a: seq<string>, b: seq<string>)
    ensures ClassifyAll(a + b) == ClassifyAll(a) + ClassifyAll(b)
    decreases |a|
  {
    if |a| > 0 {
      assert (a + b)[0] == a[0];
      assert (a + b)[1..] == a[1..] + b;
      ClassifyAllConcat(a[1..], b);
      assert ClassifyAll(a + b) == [Classify(a[0])] + ClassifyAll(a[1..] + b);
      assert ClassifyAll(a) == [Classify(a[0])] + ClassifyAll(a[1..]);
    } else {
      assert a + b == b;
    }
  }

  /** Every kind remembers the stripped line it was made from. */
  lemma ClassifyLine(raw: string)
    ensures Classify(raw).line == Strip(raw)
  {
  }

  /** Classifying a stripped line again gives the same kind. */
  lemma ClassifyStripped(raw: string)
    ensures Classify(Classify(raw).line) == Classify(raw)
  {
    StripIdempotent(raw);
  }

  // ---------------------------------------------------------------------------
  // The read loop keeps the layout well formed
  // ---------------------------------------------------------------------------

  /** The layout is well formed and the current section exists. */
  ghost predicate Structured(rd: Reader) {
    WellFormedIndex(rd.store.idx, rd.store.counter) && HasSection(rd.store.idx, rd.current)
  }

  lemma HeaderStructured(rd: Reader, kind: LineKind)
    requires Structured(rd) && kind.HeaderLine?
    ensures Structured(ReadLine(rd, kind))
  {
    var st := rd.store;
    SetSectionWellFormed(st.idx, st.counter, kind.name, []);
    SetSectionUnique(st.idx, kind.name, []);
    assert ReadLine(rd, kind) == Reader(Store(st.ini[kind.name := map[]], SetSection(st.idx, kind.name, []), st.counter), kind.name);
  }

  lemma OptionStructured(rd: Reader, kind: LineKind)
    requires Structured(rd) && kind.OptionLine?
    ensures Structured(ReadLine(rd, kind))
  {
    var st := rd.store;
    var sec := rd.current;
    if kind.item != NoneText {
      SectionIndexOfUnique(st.idx, SectionIndex(st.idx, sec).value);
      var entries := SetOpt(Entries(st.idx, sec), kind.item, kind.line);
      SetOptWellKeyed(Entries(st.idx, sec), kind.item, kind.line, st.counter);
      SetSectionWellFormed(st.idx, st.counter, sec, entries);
      SetSectionUnique(st.idx, sec, entries);
      assert ReadLine(rd, kind).store.idx == SetSection(st.idx, sec, entries);
    } else {
      assert ReadLine(rd, kind) == rd;
    }
  }

  lemma OtherStructured(rd: Reader, kind: LineKind)
    requires Structured(rd) && kind.OtherLine?
    ensures Structured(ReadLine(rd, kind))
  {
    var st := rd.store;
    var sec := rd.current;
    var entries := Entries(st.idx, sec);
    var added := entries + [Raw(st.counter + 1, kind.line)];
    SectionIndexOfUnique(st.idx, SectionIndex(st.idx, sec).value);
    SetRawFresh(entries, st.counter, kind.line);
    WellFormedIndexMonotone(st.idx, st.counter, st.counter + 1);
    SetSectionWellFormed(st.idx, st.counter + 1, sec, added);
    SetSectionUnique(st.idx, sec, added);
    assert ReadLine(rd, kind) == Reader(Store(st.ini, SetSection(st.idx, sec, added), st.counter + 1), sec);
  }

  lemma ReadLineStructured(rd: Reader, kind: LineKind)
    requires Structured(rd)
    ensures Structured(ReadLine(rd, kind))
  {
    if kind.HeaderLine? {
      HeaderStructured(rd, kind);
    } else if kind.OptionLine? {
      OptionStructured(rd, kind);
    } else {
      OtherStructured(rd, kind);
    }
  }

  lemma {:induction false} FeedStructured(rd: Reader, kinds: seq<LineKind>)
    requires Structured(rd)
    ensures Structured(Feed(rd, kinds))
    decreases |kinds|
  {
    if |kinds| > 0 {
      ReadLineStructured(rd, kinds[0]);
      FeedStructured(ReadLine(rd, kinds[0]), kinds[1..]);
    }
  }

  // ---------------------------------------------------------------------------
  // The two views agree after a read
  // ---------------------------------------------------------------------------

  /** `line` is an option line named `name` whose value group is the text
      of `v`. */
  predicate LineDecodes(line: string, name: string, v: Value) {
    v.Str? && Classify(line) == OptionLine(name, v.s, line)
  }

  /** Each option line of a section is keyed by a name of the map and
      `dec`odes to the value the map holds for that name, and every name in the
      map has such a line. The layout lemmas below hold for any `dec`. */
  predicate Decodes(dec: (string, string, Value) -> bool, opts: map<string, Value>, entries: seq<Entry>) {
    && (forall n :: n in opts ==> OptIndex(entries, n).Some?)
    && (forall j :: 0 <= j < |entries| && entries[j].Opt? ==>
          entries[j].name in opts && dec(entries[j].line, entries[j].name, opts[entries[j].name]))
  }

  /** The map has exactly the layout's sections, and each decodes by `dec`. */
  ghost predicate Agree(dec: (string, string, Value) -> bool, st: Store) {
    && (forall s :: s in st.ini <==> HasSection(st.idx, s))
    && (forall i :: 0 <= i < |st.idx| ==> st.idx[i].name in st.ini && Decodes(dec, st.ini[st.idx[i].name], st.idx[i].entries))
  }

  /** The two views agree: every option line reads back as what the map holds. */
  ghost predicate Consistent(st: Store) {
    Agree(LineDecodes, st)
  }

  lemma DecodesSetOpt(dec: (string, string, Value) -> bool, opts: map<string, Value>, entries: seq<Entry>, item: string, line: string, value: Value)
    requires Decodes(dec, opts, entries) && UniqueOpts(entries)
    requires dec(line, item, value)
    ensures Decodes(dec, opts[item := value], SetOpt(entries, item, line))
  {
    var r := SetOpt(entries, item, line);
    var opts' := opts[item := value];
    OptIndexFirst(entries, item);
    var at: nat;
    if OptIndex(entries, item).Some? {
      at := OptIndex(entries, item).value;
      assert r == entries[at := Opt(item, line)];
      forall j | 0 <= j < |r| && j != at
        ensures r[j] == entries[j] && (r[j].Opt? ==> r[j].name != item)
      {
        assert entries[at].Opt? && entries[at].name == item;
      }
    } else {
      at := |entries|;
      assert r == entries + [Opt(item, line)];
      forall j | 0 <= j < |r| && j != at
        ensures r[j] == entries[j] && (r[j].Opt? ==> r[j].name != item)
      {
      }
    }
    assert at < |r| && r[at] == Opt(item, line);
    forall j | 0 <= j < |r| && r[j].Opt?
      ensures r[j].name in opts' && dec(r[j].line, r[j].name, opts'[r[j].name])
    {
      if j != at {
        assert r[j] == entries[j];
        assert opts'[r[j].name] == opts[entries[j].name];
      }
    }
    forall n | n in opts'
      ensures OptIndex(r, n).Some?
    {
      if n == item {
        OptIndexPresent(r, at);
      } else {
        OptIndexPresent(r, OptIndex(entries, n).value);
      }
    }
  }

  lemma DecodesAppendRaw(dec: (string, string, Value) -> bool, opts: map<string, Value>, entries: seq<Entry>, key: nat, line: string)
    requires Decodes(dec, opts, entries)
    ensures Decodes(dec, opts, entries + [Raw(key, line)])
  {
    var r := entries + [Raw(key, line)];
    forall n | n in opts
      ensures OptIndex(r, n).Some?
    {
      var k := OptIndex(entries, n).value;
      assert r[k] == entries[k];
    }
  }

  /** Replacing one section in both views keeps them in agreement. */
  lemma ReplaceSection(dec: (string, string, Value) -> bool, st: Store, name: string, opts: map<string, Value>, entries: seq<Entry>, counter: nat)
    requires UniqueNames(st.idx) && Agree(dec, st)
    requires Decodes(dec, opts, entries)
    ensures Agree(dec, Store(st.ini[name := opts], SetSection(st.idx, name, entries), counter))
  {
    var idx' := SetSection(st.idx, name, entries);
    var ini' := st.ini[name := opts];
    SetSectionUnique(st.idx, name, entries);
    SetSectionFacts(st.idx, name, entries);
    forall i | 0 <= i < |idx'|
      ensures idx'[i].name in ini' && Decodes(dec, ini'[idx'[i].name], idx'[i].entries)
    {
      if idx'[i].name == name {
        SectionIndexOfUnique(idx', i);
      } else {
        assert i < |st.idx| && idx'[i] == st.idx[i];
      }
    }
  }

  /** The section `sec` of a structured, consistent store, in both views. */
  lemma CurrentSection(st: Store, sec: string) returns (opts: map<string, Value>, entries: seq<Entry>)
    requires WellFormedIndex(st.idx, st.counter) && HasSection(st.idx, sec) && Consistent(st)
    ensures opts == Options(st.ini, sec) && entries == Entries(st.idx, sec)
    ensures sec in st.ini && Decodes(LineDecodes, opts, entries) && WellKeyed(entries, st.counter)
  {
    var i := SectionIndex(st.idx, sec).value;
    SectionIndexOfUnique(st.idx, i);
    opts := st.ini[sec];
    entries := st.idx[i].entries;
  }

  /** A header line starts an empty section in both views. */
  lemma HeaderConsistent(rd: Reader, kind: LineKind)
    requires Structured(rd) && Consistent(rd.store) && kind.HeaderLine?
    ensures Consistent(ReadLine(rd, kind).store)
  {
    var st := rd.store;
    ReplaceSection(LineDecodes, st, kind.name, map[], [], st.counter);
    assert ReadLine(rd, kind).store == Store(st.ini[kind.name := map[]], SetSection(st.idx, kind.name, []), st.counter);
  }

  /** An option line sets the option in both views; one named `None` is
      skipped. */
  lemma OptionConsistent(rd: Reader, kind: LineKind)
    requires Structured(rd) && Consistent(rd.store) && kind.OptionLine?
    requires LineDecodes(kind.line, kind.item, Str(kind.value))
    ensures Consistent(ReadLine(rd, kind).store)
  {
    var st := rd.store;
    var sec := rd.current;
    if kind.item != NoneText {
      var opts, entries := CurrentSection(st, sec);
      var item, line, v := kind.item, kind.line, Str(kind.value);
      DecodesSetOpt(LineDecodes, opts, entries, item, line, v);
      ReplaceSection(LineDecodes, st, sec, opts[item := v], SetOpt(entries, item, line), st.counter);
      assert ReadLine(rd, kind).store == Store(st.ini[sec := opts[item := v]], SetSection(st.idx, sec, SetOpt(entries, item, line)), st.counter);
    } else {
      assert ReadLine(rd, kind) == rd;
    }
  }

  /** Any other line adds a counter-keyed line to the layout only. */
  lemma OtherConsistent(rd: Reader, kind: LineKind)
    requires Structured(rd) && Consistent(rd.store) && kind.OtherLine?
    ensures Consistent(ReadLine(rd, kind).store)
  {
    var st := rd.store;
    var sec := rd.current;
    var opts, entries := CurrentSection(st, sec);
    var added := entries + [Raw(st.counter + 1, kind.line)];
    SetRawFresh(entries, st.counter, kind.line);
    DecodesAppendRaw(LineDecodes, opts, entries, st.counter + 1, kind.line);
    assert st.ini[sec := opts] == st.ini;
    ReplaceSection(LineDecodes, st, sec, opts, added, st.counter + 1);
    assert kind == OtherLine(kind.line);
    assert SetRaw(Entries(st.idx, sec), st.counter + 1, kind.line) == added;
    assert ReadLine(rd, kind).store == Store(st.ini, SetSection(st.idx, sec, added), st.counter + 1);
  }

  /** The option lines the read loop is given read back as themselves. */
  predicate Decodable(kind: LineKind) {
    kind.OptionLine? ==> LineDecodes(kind.line, kind.item, Str(kind.value))
  }

  lemma ClassifyDecodable(raw: string)
    ensures Decodable(Classify(raw))
  {
    ClassifyStripped(raw);
  }

  /** One iteration of the read loop keeps the views in agreement. */
  lemma ReadLineConsistent(rd: Reader, kind: LineKind)
    requires Structured(rd) && Consistent(rd.store) && Decodable(kind)
    ensures Consistent(ReadLine(rd, kind).store)
  {
    if kind.HeaderLine? {
      HeaderConsistent(rd, kind);
    } else if kind.OptionLine? {
      OptionConsistent(rd, kind);
    } else {
      OtherConsistent(rd, kind);
    }
  }

  lemma {:induction false} FeedConsistent(rd: Reader, lines: seq<string>)
    requires Structured(rd) && Consistent(rd.store)
    ensures Consistent(Feed(rd, ClassifyAll(lines)).store)
    decreases |lines|
  {
    if |lines| > 0 {
      var kind := Classify(lines[0]);
      ClassifyDecodable(lines[0]);
      ReadLineConsistent(rd, kind);
      ReadLineStructured(rd, kind);
      FeedConsistent(ReadLine(rd, kind), lines[1..]);
    }
  }

  lemma StartOk()
    ensures Structured(Start) && Consistent(Start.store)
  {
    SectionIndexOfUnique(Start.store.idx, 0);
  }

  /** After any read: section names are unique, each option name appears once
      per section, counter keys grow along each section and stay at or below
      the counter, and every option line is keyed by its trimmed name and
      decodes to the value group the map holds for it. */
  lemma ReadWellFormed(text: string)
    ensures WellFormedIndex(Read(text).idx, Read(text).counter)
    ensures Consistent(Read(text))
  {
    StartOk();
    FeedStructured(Start, ClassifyAll(FileLines(text)));
    FeedConsistent(Start, FileLines(text));
  }

  /** A header naming a section already read empties that section in both
      views but leaves it where it was, and touches no other section. */
  lemma RepeatedHeaderEmpties(rd: Reader, kind: LineKind)
    requires UniqueNames(rd.store.idx) && kind.HeaderLine? && HasSection(rd.store.idx, kind.name)
    ensures var after := ReadLine(rd, kind);
      && after.current == kind.name
      && |after.store.idx| == |rd.store.idx|
      && SectionIndex(after.store.idx, kind.name) == SectionIndex(rd.store.idx, kind.name)
      && Entries(after.store.idx, kind.name) == []
      && Options(after.store.ini, kind.name) == map[]
      && (forall other :: other != kind.name ==> Entries(after.store.idx, other) == Entries(rd.store.idx, other))
      && (forall other :: other != kind.name ==> Options(after.store.ini, other) == Options(rd.store.ini, other))
  {
    var st := rd.store;
    var idx' := SetSection(st.idx, kind.name, []);
    assert ReadLine(rd, kind) == Reader(Store(st.ini[kind.name := map[]], idx', st.counter), kind.name);
    var i := SectionIndex(st.idx, kind.name).value;
    SetSectionFacts(st.idx, kind.name, []);
    SetSectionUnique(st.idx, kind.name, []);
    SectionIndexOfUnique(idx', i);
  }

  /** An option line not named `None` files under the current section,
      whichever section that is: a name already there has its entry replaced
      in place by the later line, a new name goes at the end, and the map
      takes the later value. Nothing else changes. */
  lemma ReadOptionLine(rd: Reader, kind: LineKind)
    requires UniqueNames(rd.store.idx) && kind.OptionLine? && kind.item != NoneText
    ensures var after := ReadLine(rd, kind);
      var before := Entries(rd.store.idx, rd.current);
      && after.current == rd.current
      && after.store.counter == rd.store.counter
      && Get(after.store, rd.current, kind.item) == Str(kind.value)
      && (OptIndex(before, kind.item).Some? ==>
            Entries(after.store.idx, rd.current) == before[OptIndex(before, kind.item).value := Opt(kind.item, kind.line)])
      && (OptIndex(before, kind.item).None? ==>
            Entries(after.store.idx, rd.current) == before + [Opt(kind.item, kind.line)])
      && (forall other :: other != rd.current ==> Entries(after.store.idx, other) == Entries(rd.store.idx, other))
      && (forall other :: other != rd.current ==> Options(after.store.ini, other) == Options(rd.store.ini, other))
  {
    var st := rd.store;
    var entries := SetOpt(Entries(st.idx, rd.current), kind.item, kind.line);
    assert ReadLine(rd, kind).store.idx == SetSection(st.idx, rd.current, entries);
    SetSectionUnique(st.idx, rd.current, entries);
  }

  /** Any other line goes at the end of the current section, whichever
      section that is, under the next counter key. Nothing else changes. */
  lemma ReadOtherLine(rd: Reader, kind: LineKind)
    requires UniqueNames(rd.store.idx) && kind.OtherLine?
    requires RawKeysAtMost(Entries(rd.store.idx, rd.current), rd.store.counter)
    ensures var after := ReadLine(rd, kind);
      && after.current == rd.current
      && after.store.counter == rd.store.counter + 1
      && after.store.ini == rd.store.ini
      && Entries(after.store.idx, rd.current) == Entries(rd.store.idx, rd.current) + [Raw(rd.store.counter + 1, kind.line)]
      && (forall other :: other != rd.current ==> Entries(after.store.idx, other) == Entries(rd.store.idx, other))
  {
    var st := rd.store;
    var entries := SetRaw(Entries(st.idx, rd.current), st.counter + 1, kind.line);
    SetRawFresh(Entries(st.idx, rd.current), st.counter, kind.line);
    assert ReadLine(rd, kind).store.idx == SetSection(st.idx, rd.current, entries);
    SetSectionUnique(st.idx, rd.current, entries);
  }

  /** `get` after a read answers the value group of the option's line in that
      section, and `None` exactly when the section has no line for it. */
  lemma GetAfterRead(text: string, section: string, item: string)
    ensures var st := Read(text);
      Get(st, section, item) != Null <==> OptIndex(Entries(st.idx, section), item).Some?
    ensures var st := Read(text);
      Get(st, section, item) != Null ==>
        LineDecodes(Entries(st.idx, section)[OptIndex(Entries(st.idx, section), item).value].line, item, Get(st, section, item))
  {
    var st := Read(text);
    ReadWellFormed(text);
    if HasSection(st.idx, section) {
      var opts, entries := CurrentSection(st, section);
      match OptIndex(entries, item)
      case Some(j) =>
        assert entries[j].Opt? && entries[j].name == item;
      case None =>
        assert item !in opts;
    } else {
      assert section !in st.ini;
      assert Entries(st.idx, section) == [];
    }
  }

  // ---------------------------------------------------------------------------
  // Splitting the read loop
  // ---------------------------------------------------------------------------

  lemma {:induction false} FeedConcat(rd: Reader, a: seq<LineKind>, b: seq<LineKind>)
    ensures Feed(rd, a + b) == Feed(Feed(rd, a), b)
    decreases |a|
  {
    if |a| > 0 {
      assert (a + b)[0] == a[0];
      assert (a + b)[1..] == a[1..] + b;
      FeedConcat(ReadLine(rd, a[0]), a[1..], b);
      assert Feed(rd, a + b) == Feed(ReadLine(rd, a[0]), a[1..] + b);
      assert Feed(rd, a) == Feed(ReadLine(rd, a[0]), a[1..]);
    } else {
      assert a + b == b;
    }
  }

  /** The read loop skips an option line named `None`: removing it from
      anywhere in the run of lines changes nothing that reading produces. */
  lemma NoneKindIgnored(rd: Reader, a: seq<LineKind>, kind: LineKind, b: seq<LineKind>)
    requires kind.OptionLine? && kind.item == NoneText
    ensures Feed(rd, a + [kind] + b) == Feed(rd, a + b)
  {
    FeedConcat(rd, a + [kind], b);
    FeedConcat(rd, a, [kind]);
    FeedConcat(rd, a, b);
  }

  /** The same for the lines of a file: an option line whose trimmed name is
      `None` leaves the read result as if it were not there. */
  lemma NoneOptionIgnored(rd: Reader, before: seq<string>, raw: string, after: seq<string>)
    requires Classify(raw).OptionLine? && Classify(raw).item == NoneText
    ensures Feed(rd, ClassifyAll(before + [raw] + after)) == Feed(rd, ClassifyAll(before + after))
  {
    ClassifyAllConcat(before + [raw], after);
    ClassifyAllConcat(before, [raw]);
    ClassifyAllConcat(before, after);
    assert ClassifyAll([raw]) == [Classify(raw)];
    NoneKindIgnored(rd, ClassifyAll(before), Classify(raw), ClassifyAll(after));
  }

  // ---------------------------------------------------------------------------
  // Reading a section body
  // ---------------------------------------------------------------------------

  /** A line that files under the current section: not a header, and not an
      option named `None`. */
  predicate BodyKind(k: LineKind) {
    !k.HeaderLine? && (k.OptionLine? ==> k.item != NoneText)
  }

  /** No option name is used twice. */
  predicate DistinctItems(kinds: seq<LineKind>) {
    forall i, j :: 0 <= i < j < |kinds| && kinds[i].OptionLine? && kinds[j].OptionLine? ==> kinds[i].item != kinds[j].item
  }

  /** No option of `entries` shares its name with an option line of `kinds`. */
  predicate FreshFor(entries: seq<Entry>, kinds: seq<LineKind>) {
    forall j, k :: 0 <= j < |entries| && entries[j].Opt? && 0 <= k < |kinds| && kinds[k].OptionLine? ==>
      entries[j].name != kinds[k].item
  }

  function KindLines(kinds: seq<LineKind>): (r: seq<string>)
    ensures |r| == |kinds|
  {
    if |kinds| == 0 then [] else [kinds[0].line] + KindLines(kinds[1..])
  }

  function Names(idx: seq<Section>): set<string> {
    set i | 0 <= i < |idx| :: idx[i].name
  }

  /** The section being read is the last one and the current one, it is not
      the pre-header section, and the counter is above every key in it. */
  ghost predicate ReadingLast(rd: Reader) {
    && |rd.store.idx| > 0
    && UniqueNames(rd.store.idx)
    && rd.store.idx[|rd.store.idx| - 1].name == rd.current
    && rd.current != NoneText
    && RawKeysAtMost(rd.store.idx[|rd.store.idx| - 1].entries, rd.store.counter)
  }

  /** The last section with `es` appended to its entries. */
  function GrowLast(idx: seq<Section>, es: seq<Entry>): (r: seq<Section>)
    requires |idx| > 0
    ensures |r| == |idx| && r[|idx| - 1].name == idx[|idx| - 1].name
  {
    var n := |idx|;
    idx[n - 1 := Section(idx[n - 1].name, idx[n - 1].entries + es)]
  }

  lemma GrowLastTwice(idx: seq<Section>, es: seq<Entry>, fs: seq<Entry>)
    requires |idx| > 0
    ensures GrowLast(GrowLast(idx, es), fs) == GrowLast(idx, es + fs)
  {
    var n := |idx|;
    assert idx[n - 1].entries + es + fs == idx[n - 1].entries + (es + fs);
  }

  lemma {:induction false} LinesConcat(a: seq<Entry>, b: seq<Entry>)
    ensures Lines(a + b) == Lines(a) + Lines(b)
    decreases |b|
  {
    if |b| > 0 {
      var b' := b[..|b| - 1];
      assert (a + b)[..|a + b| - 1] == a + b';
      LinesConcat(a, b');
      assert Lines(b) == Lines(b') + [b[|b| - 1].line];
    } else {
      assert a + b == a;
    }
  }

  /** Entries appended to the last section, which is not the pre-header one,
      are appended to what `write()` emits and counts. */
  lemma GrowLastEmit(idx: seq<Section>, es: seq<Entry>)
    requires |idx| > 0 && idx[|idx| - 1].name != NoneText
    ensures Emit(GrowLast(idx, es)) == Emit(idx) + Lines(es)
  {
    var n := |idx|;
    var g := GrowLast(idx, es);
    var head := [Header(idx[n - 1].name)];
    assert g[..n - 1] == idx[..n - 1];
    assert g[n - 1] == Section(idx[n - 1].name, idx[n - 1].entries + es);
    LinesConcat(idx[n - 1].entries, es);
    assert Emit(g) == Emit(idx[..n - 1]) + (head + Lines(idx[n - 1].entries + es));
    assert Emit(idx) == Emit(idx[..n - 1]) + (head + Lines(idx[n - 1].entries));
  }

  /** ... and to what it counts. */
  lemma GrowLastCount(idx: seq<Section>, es: seq<Entry>)
    requires |idx| > 0 && idx[|idx| - 1].name != NoneText
    ensures EntryCount(GrowLast(idx, es)) == EntryCount(idx) + |es|
  {
    var n := |idx|;
    assert GrowLast(idx, es)[..n - 1] == idx[..n - 1];
  }

  /** Appending entries touches no section name. */
  lemma GrowLastNames(idx: seq<Section>, es: seq<Entry>)
    requires |idx| > 0
    ensures Names(GrowLast(idx, es)) == Names(idx)
    ensures UniqueNames(idx) ==> UniqueNames(GrowLast(idx, es))
  {
    var n := |idx|;
    var idx' := GrowLast(idx, es);
    assert forall i :: 0 <= i < n ==> idx'[i].name == idx[i].name;
    forall x
      ensures x in Names(idx') <==> x in Names(idx)
    {
      if x in Names(idx) {
        var i :| 0 <= i < n && idx[i].name == x;
        assert idx'[i].name == x;
      }
      if x in Names(idx') {
        var i :| 0 <= i < n && idx'[i].name == x;
        assert idx[i].name == x;
      }
    }
  }

  /** The entry a body line becomes, given the counter before it. */
  function BodyEntry(k: LineKind, counter: nat): Entry {
    if k.OptionLine? then Opt(k.item, k.line) else Raw(counter + 1, k.line)
  }

  /** The counter after a body line. */
  function NextCounter(k: LineKind, counter: nat): nat {
    if k.OptionLine? then counter else counter + 1
  }

  /** The entries body lines become, in order. */
  function BodyEntries(kinds: seq<LineKind>, counter: nat): (r: seq<Entry>)
    decreases |kinds|
  {
    if |kinds| == 0 then []
    else [BodyEntry(kinds[0], counter)] + BodyEntries(kinds[1..], NextCounter(kinds[0], counter))
  }

  lemma {:induction false} LinesOfBodyEntries(kinds: seq<LineKind>, counter: nat)
    ensures Lines(BodyEntries(kinds, counter)) == KindLines(kinds)
    decreases |kinds|
  {
    if |kinds| > 0 {
      var e := BodyEntry(kinds[0], counter);
      var rest := BodyEntries(kinds[1..], NextCounter(kinds[0], counter));
      LinesOfBodyEntries(kinds[1..], NextCounter(kinds[0], counter));
      LinesConcat([e], rest);
      assert Lines([e]) == [kinds[0].line];
    }
  }

  /** Everything the body loop needs: the last section is being read, every
      line files under it, and no option name repeats or is already there. */
  ghost predicate BodyReady(rd: Reader, kinds: seq<LineKind>) {
    && ReadingLast(rd)
    && (forall i :: 0 <= i < |kinds| ==> BodyKind(kinds[i]))
    && DistinctItems(kinds)
    && FreshFor(rd.store.idx[|rd.store.idx| - 1].entries, kinds)
  }

  /** A body line whose option name is new appends its entry to the last
      section. */
  lemma ReadLineInLast(rd: Reader, k: LineKind) returns (rd1: Reader)
    requires ReadingLast(rd) && BodyKind(k)
    requires k.OptionLine? ==> NoOptNamed(rd.store.idx[|rd.store.idx| - 1].entries, k.item)
    ensures rd1 == ReadLine(rd, k)
    ensures rd1.store.idx == GrowLast(rd.store.idx, [BodyEntry(k, rd.store.counter)])
    ensures rd1.store.counter == NextCounter(k, rd.store.counter)
    ensures rd1.current == rd.current
  {
    rd1 := ReadLine(rd, k);
    var st := rd.store;
    var n := |st.idx|;
    SectionIndexOfUnique(st.idx, n - 1);
    var entries := st.idx[n - 1].entries;
    if k.OptionLine? {
      OptIndexAbsent(entries, k.item);
      SetOptFresh(entries, k.item, k.line);
    } else {
      SetRawFresh(entries, st.counter, k.line);
    }
  }

  /** After the first line's entry joins the section, the rest of the lines
      still bring only new option names. */
  lemma FreshAfter(entries: seq<Entry>, kinds: seq<LineKind>, e: Entry)
    requires |kinds| > 0 && FreshFor(entries, kinds) && DistinctItems(kinds)
    requires e.Opt? ==> kinds[0].OptionLine? && e.name == kinds[0].item
    ensures FreshFor(entries + [e], kinds[1..])
  {
    var rest := kinds[1..];
    forall j, m | 0 <= j < |entries| + 1 && (entries + [e])[j].Opt? && 0 <= m < |rest| && rest[m].OptionLine?
      ensures (entries + [e])[j].name != rest[m].item
    {
      assert kinds[m + 1] == rest[m];
    }
  }

  /** One body line read into the last section appends its entry there. */
  lemma ReadBodyLine(rd: Reader, kinds: seq<LineKind>) returns (rd1: Reader)
    requires |kinds| > 0 && BodyReady(rd, kinds)
    ensures Feed(rd, kinds) == Feed(rd1, kinds[1..])
    ensures BodyReady(rd1, kinds[1..])
    ensures rd1.store.idx == GrowLast(rd.store.idx, [BodyEntry(kinds[0], rd.store.counter)])
    ensures rd1.store.counter == NextCounter(kinds[0], rd.store.counter)
  {
    var k := kinds[0];
    var idx := rd.store.idx;
    var entries := idx[|idx| - 1].entries;
    var e := BodyEntry(k, rd.store.counter);
    assert k.OptionLine? ==> NoOptNamed(entries, k.item);
    rd1 := ReadLineInLast(rd, k);
    FreshAfter(entries, kinds, e);
    GrowLastNames(idx, [e]);
    assert rd1.store.idx[|idx| - 1].entries == entries + [e];
    var rest := kinds[1..];
    assert forall i :: 0 <= i < |rest| ==> rest[i] == kinds[i + 1];
  }

  /** Body lines read into the last section append their entries to it, and
      change no other section. */
  lemma {:induction false} ReadBody(rd: Reader, kinds: seq<LineKind>)
    requires BodyReady(rd, kinds)
    ensures Feed(rd, kinds).store.idx == GrowLast(rd.store.idx, BodyEntries(kinds, rd.store.counter))
    decreases |kinds|
  {
    if |kinds| > 0 {
      var rd1 := ReadBodyLine(rd, kinds);
      ReadBody(rd1, kinds[1..]);
      GrowLastTwice(rd.store.idx, [BodyEntry(kinds[0], rd.store.counter)], BodyEntries(kinds[1..], rd1.store.counter));
    } else {
      var n := |rd.store.idx|;
      assert rd.store.idx[n - 1].entries + [] == rd.store.idx[n - 1].entries;
    }
  }

  // ---------------------------------------------------------------------------
  // Round trip
  // ---------------------------------------------------------------------------

  /** A section of a file in canonical form: a header, then body lines. */
  datatype DocSection = DocSection(name: string, body: seq<string>)

  /** The lines of a canonical file. */
  function Render(doc: seq<DocSection>): seq<string> {
    if |doc| == 0 then [] else [Header(doc[0].name)] + doc[0].body + Render(doc[1..])
  }

  /** A section that reads back as itself: a one-line name other than `None`,
      and body lines that are stripped, on one line, never headers or options
      named `None`, and never repeat an option name. */
  predicate PlainSection(d: DocSection) {
    && |d.name| >= 1
    && '\n' !in d.name
    && d.name != NoneText
    && (forall k :: 0 <= k < |d.body| ==> Strip(d.body[k]) == d.body[k] && '\n' !in d.body[k])
    && (forall k :: 0 <= k < |d.body| ==> BodyKind(ClassifyAll(d.body)[k]))
    && DistinctItems(ClassifyAll(d.body))
  }

  /** A canonical file: plain sections with distinct names. */
  predicate PlainDocument(doc: seq<DocSection>) {
    && (forall k :: 0 <= k < |doc| ==> PlainSection(doc[k]))
    && (forall k, m :: 0 <= k < m < |doc| ==> doc[k].name != doc[m].name)
  }

  lemma HeaderLineFacts(name: string)
    requires |name| >= 1 && '\n' !in name
    ensures Strip(Header(name)) == Header(name)
    ensures Classify(Header(name)) == HeaderLine(name, Header(name))
    ensures '\n' !in Header(name)
  {
    StripFixpoint(Header(name));
    HeaderOfBracketed(name);
  }

  /** Stripped lines are given back by their kinds. */
  lemma {:induction false} KindLinesOfStripped(lines: seq<string>)
    requires forall k :: 0 <= k < |lines| ==> Strip(lines[k]) == lines[k]
    ensures KindLines(ClassifyAll(lines)) == lines
    decreases |lines|
  {
    if |lines| > 0 {
      ClassifyLine(lines[0]);
      KindLinesOfStripped(lines[1..]);
    }
  }

  /** A section named in the layout is one of its names. */
  lemma HasSectionNamed(idx: seq<Section>, name: string)
    ensures HasSection(idx, name) ==> name in Names(idx)
  {
    if HasSection(idx, name) {
      assert idx[SectionIndex(idx, name).value].name == name;
    }
  }

  /** A new section at the end adds its header to what `write()` emits, and
      its name to the names. */
  lemma AppendSection(idx: seq<Section>, name: string)
    requires UniqueNames(idx) && name !in Names(idx) && name != NoneText
    ensures UniqueNames(idx + [Section(name, [])])
    ensures Emit(idx + [Section(name, [])]) == Emit(idx) + [Header(name)]
    ensures EntryCount(idx + [Section(name, [])]) == EntryCount(idx)
    ensures Names(idx + [Section(name, [])]) == Names(idx) + {name}
  {
    var idx1 := idx + [Section(name, [])];
    assert idx1[..|idx|] == idx;
    forall i | 0 <= i < |idx|
      ensures idx1[i].name == idx[i].name && idx[i].name in Names(idx)
    {
    }
    forall x | x in Names(idx)
      ensures x in Names(idx1)
    {
      var i :| 0 <= i < |idx| && idx[i].name == x;
      assert idx1[i].name == x;
    }
    assert idx1[|idx|].name == name;
    EmitLast(idx1);
  }

  /** A header with a new name starts a new, empty, last section. */
  lemma ReadNewHeader(rd: Reader, name: string) returns (rd1: Reader)
    requires |name| >= 1 && '\n' !in name
    requires name !in Names(rd.store.idx)
    ensures rd1 == Feed(rd, ClassifyAll([Header(name)]))
    ensures rd1.store.idx == rd.store.idx + [Section(name, [])]
    ensures rd1.current == name
  {
    HeaderLineFacts(name);
    HasSectionNamed(rd.store.idx, name);
    assert ClassifyAll([Header(name)]) == [Classify(Header(name))];
    rd1 := ReadLine(rd, Classify(Header(name)));
  }

  /** Reading one canonical section with a new name appends it, header and
      body, to what `write()` emits. */
  lemma ReadSection(rd: Reader, d: DocSection)
    requires UniqueNames(rd.store.idx)
    requires PlainSection(d) && d.name !in Names(rd.store.idx)
    ensures var rd' := Feed(rd, ClassifyAll([Header(d.name)] + d.body));
      && UniqueNames(rd'.store.idx)
      && Emit(rd'.store.idx) == Emit(rd.store.idx) + [Header(d.name)] + d.body
      && EntryCount(rd'.store.idx) == EntryCount(rd.store.idx) + |d.body|
      && Names(rd'.store.idx) == Names(rd.store.idx) + {d.name}
  {
    var idx := rd.store.idx;
    var kinds := ClassifyAll(d.body);
    ClassifyAllConcat([Header(d.name)], d.body);
    var rd1 := ReadNewHeader(rd, d.name);
    FeedConcat(rd, ClassifyAll([Header(d.name)]), kinds);
    var idx1 := idx + [Section(d.name, [])];
    AppendSection(idx, d.name);
    assert BodyReady(rd1, kinds);
    ReadBody(rd1, kinds);
    var es := BodyEntries(kinds, rd1.store.counter);
    GrowLastEmit(idx1, es);
    GrowLastCount(idx1, es);
    GrowLastNames(idx1, es);
    LinesOfBodyEntries(kinds, rd1.store.counter);
    KindLinesOfStripped(d.body);
  }

  /** How many body lines a canonical file has. */
  function BodyCount(doc: seq<DocSection>): nat {
    if |doc| == 0 then 0 else |doc[0].body| + BodyCount(doc[1..])
  }

  lemma {:induction false} BodyCountZero(doc: seq<DocSection>)
    ensures BodyCount(doc) == 0 <==> forall k :: 0 <= k < |doc| ==> doc[k].body == []
    decreases |doc|
  {
    if |doc| > 0 {
      BodyCountZero(doc[1..]);
      assert forall k :: 1 <= k < |doc| ==> doc[1..][k - 1] == doc[k];
    }
  }

  /** The sections after the first are canonical too, and their names are
      new after the first section's. */
  lemma DocumentTail(doc: seq<DocSection>, names: set<string>)
    requires |doc| > 0 && PlainDocument(doc)
    requires forall k :: 0 <= k < |doc| ==> doc[k].name !in names
    ensures PlainDocument(doc[1..])
    ensures forall k :: 0 <= k < |doc| - 1 ==> doc[1..][k].name !in names + {doc[0].name}
  {
    assert forall k :: 1 <= k < |doc| ==> doc[1..][k - 1] == doc[k];
  }

  /** Reading canonical sections whose names are new appends them to what
      `write()` emits. */
  lemma {:induction false} ReadDocument(rd: Reader, doc: seq<DocSection>)
    requires UniqueNames(rd.store.idx)
    requires PlainDocument(doc)
    requires forall k :: 0 <= k < |doc| ==> doc[k].name !in Names(rd.store.idx)
    ensures Emit(Feed(rd, ClassifyAll(Render(doc))).store.idx) == Emit(rd.store.idx) + Render(doc)
    ensures EntryCount(Feed(rd, ClassifyAll(Render(doc))).store.idx) == EntryCount(rd.store.idx) + BodyCount(doc)
    decreases |doc|
  {
    if |doc| > 0 {
      var d := doc[0];
      var first := [Header(d.name)] + d.body;
      assert PlainSection(d);
      assert Render(doc) == first + Render(doc[1..]);
      ClassifyAllConcat(first, Render(doc[1..]));
      FeedConcat(rd, ClassifyAll(first), ClassifyAll(Render(doc[1..])));
      ReadSection(rd, d);
      var rd2 := Feed(rd, ClassifyAll(first));
      DocumentTail(doc, Names(rd.store.idx));
      ReadDocument(rd2, doc[1..]);
      assert Feed(rd, ClassifyAll(Render(doc))) == Feed(rd2, ClassifyAll(Render(doc[1..])));
      ConcatAssoc(Emit(rd.store.idx), first, Render(doc[1..]));
      ConcatAssoc(Emit(rd.store.idx), [Header(d.name)], d.body);
    } else {
      assert Render(doc) == [];
      assert Feed(rd, ClassifyAll(Render(doc))) == rd;
      assert Emit(rd.store.idx) + Render(doc) == Emit(rd.store.idx);
    }
  }

  /** The lines of a canonical file are stripped and newline-free. */
  lemma {:induction false} RenderLinesPlain(doc: seq<DocSection>)
    requires PlainDocument(doc)
    ensures forall i :: 0 <= i < |Render(doc)| ==> Strip(Render(doc)[i]) == Render(doc)[i] && '\n' !in Render(doc)[i]
    decreases |doc|
  {
    if |doc| > 0 {
      assert PlainSection(doc[0]);
      HeaderLineFacts(doc[0].name);
      RenderLinesPlain(doc[1..]);
    }
  }

  /** A stripped line and the same line with its newline are read alike. */
  lemma {:induction false} ClassifyNewlines(lines: seq<string>, raw: seq<string>)
    requires |raw| == |lines|
    requires forall i :: 0 <= i < |lines| ==> Strip(lines[i]) == lines[i] && raw[i] == lines[i] + "\n"
    ensures ClassifyAll(raw) == ClassifyAll(lines)
    decreases |lines|
  {
    if |lines| > 0 {
      StripNewline(lines[0]);
      ClassifyNewlines(lines[1..], raw[1..]);
    }
  }

  /** From a layout holding only the pre-header section, reading a canonical
      file makes `write()` emit exactly its lines. */
  lemma ReadFromPreHeader(rd: Reader, doc: seq<DocSection>)
    requires |rd.store.idx| == 1 && rd.store.idx[0].name == NoneText
    requires PlainDocument(doc)
    ensures Emit(Feed(rd, ClassifyAll(Render(doc))).store.idx) == Render(doc)
    ensures EntryCount(Feed(rd, ClassifyAll(Render(doc))).store.idx) == BodyCount(doc)
  {
    var idx := rd.store.idx;
    assert Names(idx) == {NoneText} by {
      assert idx[0].name in Names(idx);
    }
    assert Emit(idx) == [] by {
      assert idx[..0] == [];
    }
    assert EntryCount(idx) == 0 by {
      assert idx[..0] == [];
    }
    assert forall k :: 0 <= k < |doc| ==> doc[k].name !in Names(idx) by {
      forall k | 0 <= k < |doc|
        ensures doc[k].name != NoneText
      {
        assert PlainSection(doc[k]);
      }
    }
    ReadDocument(rd, doc);
  }

  /** A file in canonical form survives `read()` then `write()` byte for
      byte, and `write()` removes it exactly when no section has a body. */
  lemma ReadWriteRoundTrip(doc: seq<DocSection>)
    requires PlainDocument(doc)
    ensures Write(Read(Terminated(Render(doc)))) ==
      Written(Terminated(Render(doc)), forall k :: 0 <= k < |doc| ==> doc[k].body == [])
  {
    var lines := Render(doc);
    var text := Terminated(lines);
    assert ClassifyAll(FileLines(text)) == ClassifyAll(lines) by {
      RenderLinesPlain(doc);
      FileLinesOfTerminated(lines);
      ClassifyNewlines(lines, FileLines(text));
    }
    ReadFromPreHeader(Start, doc);
    BodyCountZero(doc);
  }

  // ---------------------------------------------------------------------------
  // The pre-header section is never written
  // ---------------------------------------------------------------------------

  /** Lines before the first header only ever touch the pre-header section. */
  lemma {:induction false} ReadPreHeader(rd: Reader, kinds: seq<LineKind>)
    requires |rd.store.idx| == 1 && rd.store.idx[0].name == NoneText && rd.current == NoneText
    requires forall k :: 0 <= k < |kinds| ==> !kinds[k].HeaderLine?
    ensures |Feed(rd, kinds).store.idx| == 1 && Feed(rd, kinds).store.idx[0].name == NoneText
    ensures Feed(rd, kinds).current == NoneText
    decreases |kinds|
  {
    if |kinds| > 0 {
      ReadPreHeader(ReadLine(rd, kinds[0]), kinds[1..]);
    }
  }

  /** Two entry lists that read the same line by line, with the same option
      names; counter keys may differ. */
  predicate Alike(a: seq<Entry>, b: seq<Entry>) {
    && |a| == |b|
    && forall i :: 0 <= i < |a| ==> a[i].Opt? == b[i].Opt? && a[i].line == b[i].line && (a[i].Opt? ==> a[i].name == b[i].name)
  }

  /** Two layouts with the same sections in the same order, alike in every
      section other than the pre-header one. */
  predicate WrittenAlike(a: seq<Section>, b: seq<Section>) {
    && |a| == |b|
    && forall i :: 0 <= i < |a| ==> a[i].name == b[i].name && (a[i].name != NoneText ==> Alike(a[i].entries, b[i].entries))
  }

  /** Option lookup sees only option names, so alike entries agree on it. */
  lemma OptIndexAlike(a: seq<Entry>, b: seq<Entry>, name: string)
    requires Alike(a, b)
    ensures OptIndex(a, name) == OptIndex(b, name)
  {
    OptIndexFirst(a, name);
    OptIndexFirst(b, name);
    if OptIndex(a, name).Some? {
      OptIndexPresent(b, OptIndex(a, name).value);
    }
    if OptIndex(b, name).Some? {
      OptIndexPresent(a, OptIndex(b, name).value);
    }
  }

  lemma SetOptAlike(a: seq<Entry>, b: seq<Entry>, name: string, line: string)
    requires Alike(a, b)
    ensures Alike(SetOpt(a, name, line), SetOpt(b, name, line))
  {
    OptIndexAlike(a, b, name);
  }

  lemma {:induction false} LinesAlike(a: seq<Entry>, b: seq<Entry>)
    requires Alike(a, b)
    ensures Lines(a) == Lines(b)
    decreases |a|
  {
    if |a| > 0 {
      LinesAlike(a[..|a| - 1], b[..|b| - 1]);
    }
  }

  /** Section lookup sees only names, so alike layouts agree on it. */
  lemma SectionIndexAlike(a: seq<Section>, b: seq<Section>, name: string)
    requires WrittenAlike(a, b)
    ensures SectionIndex(a, name) == SectionIndex(b, name)
  {
    SectionIndexFirst(a, name);
    SectionIndexFirst(b, name);
  }

  lemma SetSectionAlike(a: seq<Section>, b: seq<Section>, name: string, ea: seq<Entry>, eb: seq<Entry>)
    requires WrittenAlike(a, b) && (name != NoneText ==> Alike(ea, eb))
    ensures WrittenAlike(SetSection(a, name, ea), SetSection(b, name, eb))
  {
    SectionIndexAlike(a, b, name);
  }

  lemma EntriesAlike(a: seq<Section>, b: seq<Section>, name: string)
    requires WrittenAlike(a, b) && name != NoneText
    ensures Alike(Entries(a, name), Entries(b, name))
  {
    SectionIndexAlike(a, b, name);
  }

  lemma PrefixAlike(a: seq<Section>, b: seq<Section>, n: nat)
    requires WrittenAlike(a, b) && n <= |a|
    ensures WrittenAlike(a[..n], b[..n])
  {
    assert forall i :: 0 <= i < n ==> a[..n][i] == a[i] && b[..n][i] == b[i];
  }

  /** What `write()` emits for the last section. */
  lemma EmitLast(idx: seq<Section>)
    requires |idx| > 0
    ensures idx[|idx| - 1].name == NoneText ==> Emit(idx) == Emit(idx[..|idx| - 1])
    ensures idx[|idx| - 1].name != NoneText ==>
      Emit(idx) == Emit(idx[..|idx| - 1]) + ([Header(idx[|idx| - 1].name)] + Lines(idx[|idx| - 1].entries))
  {
  }

  /** `write()` emits the same lines for alike layouts ... */
  lemma {:induction false} EmitAlike(a: seq<Section>, b: seq<Section>)
    requires WrittenAlike(a, b)
    ensures Emit(a) == Emit(b)
    decreases |a|
  {
    if |a| > 0 {
      var n := |a| - 1;
      PrefixAlike(a, b, n);
      EmitAlike(a[..n], b[..n]);
      EmitLast(a);
      EmitLast(b);
      if a[n].name != NoneText {
        LinesAlike(a[n].entries, b[n].entries);
      }
    }
  }

  /** ... and counts the same lines for them. */
  lemma {:induction false} CountAlike(a: seq<Section>, b: seq<Section>)
    requires WrittenAlike(a, b)
    ensures EntryCount(a) == EntryCount(b)
    decreases |a|
  {
    if |a| > 0 {
      var n := |a| - 1;
      PrefixAlike(a, b, n);
      CountAlike(a[..n], b[..n]);
    }
  }

  /** Two well-formed readers in the same section with alike layouts. */
  ghost predicate ReadersAlike(r1: Reader, r2: Reader) {
    && Structured(r1) && Structured(r2)
    && r1.current == r2.current
    && WrittenAlike(r1.store.idx, r2.store.idx)
  }

  /** In a well-formed reader a counter-keyed line goes at the end of the
      current section. */
  lemma OtherAppends(rd: Reader, kind: LineKind)
    requires Structured(rd) && kind.OtherLine?
    ensures ReadLine(rd, kind).store.idx
      == SetSection(rd.store.idx, rd.current, Entries(rd.store.idx, rd.current) + [Raw(rd.store.counter + 1, kind.line)])
  {
    SectionIndexOfUnique(rd.store.idx, SectionIndex(rd.store.idx, rd.current).value);
    SetRawFresh(Entries(rd.store.idx, rd.current), rd.store.counter, kind.line);
  }

  /** A counter-keyed line goes at the end in both readers, whatever their
      counters. */
  lemma OtherAlike(r1: Reader, r2: Reader, kind: LineKind)
    requires ReadersAlike(r1, r2) && kind.OtherLine?
    ensures WrittenAlike(ReadLine(r1, kind).store.idx, ReadLine(r2, kind).store.idx)
  {
    var sec := r1.current;
    var e1 := Entries(r1.store.idx, sec) + [Raw(r1.store.counter + 1, kind.line)];
    var e2 := Entries(r2.store.idx, sec) + [Raw(r2.store.counter + 1, kind.line)];
    OtherAppends(r1, kind);
    OtherAppends(r2, kind);
    if sec != NoneText {
      EntriesAlike(r1.store.idx, r2.store.idx, sec);
    }
    SetSectionAlike(r1.store.idx, r2.store.idx, sec, e1, e2);
  }

  /** One step of the read loop keeps two readers alike. */
  lemma ReadLineAlike(r1: Reader, r2: Reader, kind: LineKind)
    requires ReadersAlike(r1, r2)
    ensures ReadersAlike(ReadLine(r1, kind), ReadLine(r2, kind))
  {
    ReadLineStructured(r1, kind);
    ReadLineStructured(r2, kind);
    var sec := r1.current;
    if kind.HeaderLine? {
      SetSectionAlike(r1.store.idx, r2.store.idx, kind.name, [], []);
    } else if kind.OptionLine? && kind.item != NoneText {
      var e1 := Entries(r1.store.idx, sec);
      var e2 := Entries(r2.store.idx, sec);
      if sec != NoneText {
        EntriesAlike(r1.store.idx, r2.store.idx, sec);
        SetOptAlike(e1, e2, kind.item, kind.line);
      }
      SetSectionAlike(r1.store.idx, r2.store.idx, sec, SetOpt(e1, kind.item, kind.line), SetOpt(e2, kind.item, kind.line));
    } else if kind.OtherLine? {
      OtherAlike(r1, r2, kind);
    }
  }

  lemma {:induction false} FeedAlike(r1: Reader, r2: Reader, kinds: seq<LineKind>)
    requires ReadersAlike(r1, r2)
    ensures ReadersAlike(Feed(r1, kinds), Feed(r2, kinds))
    decreases |kinds|
  {
    if |kinds| > 0 {
      ReadLineAlike(r1, r2, kinds[0]);
      FeedAlike(ReadLine(r1, kinds[0]), ReadLine(r2, kinds[0]), kinds[1..]);
    }
  }

  /** Whatever stands before the first header is read into the section named
      `None`, which `write()` skips: whatever follows, the written file does
      not depend on it. */
  lemma PreHeaderDropped(pre: seq<string>, rest: seq<string>)
    requires forall k :: 0 <= k < |pre| ==> !Classify(pre[k]).HeaderLine?
    ensures Write(Feed(Start, ClassifyAll(pre + rest)).store) == Write(Feed(Start, ClassifyAll(rest)).store)
  {
    ClassifyAllAt(pre);
    ReadPreHeader(Start, ClassifyAll(pre));
    StartOk();
    FeedStructured(Start, ClassifyAll(pre));
    var rd := Feed(Start, ClassifyAll(pre));
    assert ReadersAlike(rd, Start);
    ClassifyAllConcat(pre, rest);
    FeedConcat(Start, ClassifyAll(pre), ClassifyAll(rest));
    FeedAlike(rd, Start, ClassifyAll(rest));
    EmitAlike(Feed(rd, ClassifyAll(rest)).store.idx, Feed(Start, ClassifyAll(rest)).store.idx);
    CountAlike(Feed(rd, ClassifyAll(rest)).store.idx, Feed(Start, ClassifyAll(rest)).store.idx);
  }
}
