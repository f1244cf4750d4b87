/** The layout index of the INI store. The program keeps an `OrderedDict` of
    sections, each an `OrderedDict` of lines; both are modelled as sequences
    in insertion order. Assigning to a key that is present replaces its value
    where it stands; assigning to a new key appends; deleting a key closes
    the gap. */
module Layout {
  import opened Text

  /** One line of a section: an option line keyed by the option's name, or
      any other line (comment, blank, junk) keyed by the store's counter. */
  datatype Entry = Opt(name: string, line: string) | Raw(key: nat, line: string)

  datatype Section = Section(name: string, entries: seq<Entry>)

  // ---------------------------------------------------------------------------
  // Sections
  // ---------------------------------------------------------------------------

  /** Position of the section called `name`. */
  function SectionIndex(idx: seq<Section>, name: string): (r: Option<nat>)
    ensures r.Some? ==> r.value < |idx| && idx[r.value].name == name
  {
    if |idx| == 0 then None
    else
      var r := SectionIndex(idx[..|idx| - 1], name);
      if r.Some? then r
      else if idx[|idx| - 1].name == name then Some(|idx| - 1)
      else None
  }

  /** The position found is the first with that name; none is found only
      when no section has it. */
  lemma {:induction false} SectionIndexFirst(idx: seq<Section>, name: string)
    ensures SectionIndex(idx, name).Some? ==> forall i :: 0 <= i < SectionIndex(idx, name).value ==> idx[i].name != name
    ensures SectionIndex(idx, name).None? ==> forall i :: 0 <= i < |idx| ==> idx[i].name != name
  {
    if |idx| > 0 {
      SectionIndexFirst(idx[..|idx| - 1], name);
    }
  }

  predicate HasSection(idx: seq<Section>, name: string) {
    SectionIndex(idx, name).Some?
  }

  /** The entries of a section; a missing section reads as empty. */
  function Entries(idx: seq<Section>, name: string): seq<Entry> {
    match SectionIndex(idx, name)
    case Some(i) => idx[i].entries
    case None => []
  }

  /** `idx[name] = entries`. */
  function SetSection(idx: seq<Section>, name: string, entries: seq<Entry>): (r: seq<Section>)
    ensures HasSection(idx, name) ==> |r| == |idx|
    ensures !HasSection(idx, name) ==> |r| == |idx| + 1 && r[|idx|] == Section(name, entries)
  {
    match SectionIndex(idx, name)
    case Some(i) => idx[i := Section(name, entries)]
    case None => idx + [Section(name, entries)]
  }

  /** Assigning a section keeps every section where it was and changes no
      other section. */
  lemma SetSectionFacts(idx: seq<Section>, name: string, entries: seq<Entry>)
    ensures forall i :: 0 <= i < |idx| ==> SetSection(idx, name, entries)[i].name == idx[i].name
    ensures forall i :: 0 <= i < |idx| && idx[i].name != name ==> SetSection(idx, name, entries)[i] == idx[i]
  {
  }

  /** No two sections share a name: an `OrderedDict` has one value per key. */
  predicate UniqueNames(idx: seq<Section>) {
    forall i, j :: 0 <= i < j < |idx| ==> idx[i].name != idx[j].name
  }

  lemma SectionIndexOfUnique(idx: seq<Section>, i: nat)
    requires UniqueNames(idx) && i < |idx|
    ensures SectionIndex(idx, idx[i].name) == Some(i)
    ensures Entries(idx, idx[i].name) == idx[i].entries
  {
    SectionIndexFirst(idx, idx[i].name);
  }

  lemma SetSectionUnique(idx: seq<Section>, name: string, entries: seq<Entry>)
    requires UniqueNames(idx)
    ensures UniqueNames(SetSection(idx, name, entries))
    ensures Entries(SetSection(idx, name, entries), name) == entries
    ensures forall other :: other != name ==> Entries(SetSection(idx, name, entries), other) == Entries(idx, other)
    ensures forall other :: HasSection(SetSection(idx, name, entries), other) <==> other == name || HasSection(idx, other)
  {
    var r := SetSection(idx, name, entries);
    SetSectionFacts(idx, name, entries);
    SectionIndexFirst(idx, name);
    forall other
      ensures HasSection(r, other) <==> other == name || HasSection(idx, other)
    {
      SectionIndexFirst(r, other);
      SectionIndexFirst(idx, other);
      if HasSection(idx, other) {
        var i := SectionIndex(idx, other).value;
        assert r[i].name == other;
      }
      if other == name && !HasSection(idx, other) {
        assert r[|idx|].name == other;
      }
    }
    if HasSection(idx, name) {
      SectionIndexOfUnique(r, SectionIndex(idx, name).value);
    } else {
      SectionIndexOfUnique(r, |idx|);
    }
    forall other | other != name
      ensures Entries(r, other) == Entries(idx, other)
    {
      if HasSection(idx, other) {
        var i := SectionIndex(idx, other).value;
        SectionIndexOfUnique(r, i);
      }
    }
  }

  // ---------------------------------------------------------------------------
  // Entries of one section
  // ---------------------------------------------------------------------------

  /** Position of the option line keyed by `name`. */
  function OptIndex(entries: seq<Entry>, name: string): (r: Option<nat>)
    ensures r.Some? ==> r.value < |entries| && entries[r.value] == Opt(name, entries[r.value].line)
  {
    if |entries| == 0 then None
    else
      var r := OptIndex(entries[..|entries| - 1], name);
      if r.Some? then r
      else if entries[|entries| - 1].Opt? && entries[|entries| - 1].name == name then Some(|entries| - 1)
      else None
  }

  /** The position found is the first option line with that name; none is
      found only when there is no such line. */
  lemma {:induction false} OptIndexFirst(entries: seq<Entry>, name: string)
    ensures OptIndex(entries, name).Some? ==> forall j :: 0 <= j < OptIndex(entries, name).value ==> entries[j].Raw? || entries[j].name != name
    ensures OptIndex(entries, name).None? ==> forall j :: 0 <= j < |entries| ==> entries[j].Raw? || entries[j].name != name
  {
    if |entries| > 0 {
      OptIndexFirst(entries[..|entries| - 1], name);
    }
  }

  /** `section[name] = line` for an option key. */
  function SetOpt(entries: seq<Entry>, name: string, line: string): seq<Entry> {
    match OptIndex(entries, name)
    case Some(j) => entries[j := Opt(name, line)]
    case None => entries + [Opt(name, line)]
  }

  /** Position of the counter-keyed line with key `key`. */
  function RawIndex(entries: seq<Entry>, key: nat): (r: Option<nat>)
    ensures r.Some? ==> r.value < |entries| && entries[r.value] == Raw(key, entries[r.value].line)
  {
    if |entries| == 0 then None
    else
      var r := RawIndex(entries[..|entries| - 1], key);
      if r.Some? then r
      else if entries[|entries| - 1].Raw? && entries[|entries| - 1].key == key then Some(|entries| - 1)
      else None
  }

  /** `section[key] = line` for a counter key. */
  function SetRaw(entries: seq<Entry>, key: nat, line: string): seq<Entry> {
    match RawIndex(entries, key)
    case Some(j) => entries[j := Raw(key, line)]
    case None => entries + [Raw(key, line)]
  }

  /** A key above every key handed out so far is new, so setting it appends. */
  lemma SetRawFresh(entries: seq<Entry>, counter: nat, line: string)
    requires RawKeysAtMost(entries, counter)
    ensures SetRaw(entries, counter + 1, line) == entries + [Raw(counter + 1, line)]
  {
  }

  /** `del section[key]` for the entry at position `j`. */
  function RemoveAt(entries: seq<Entry>, j: nat): (r: seq<Entry>)
    requires j < |entries|
    ensures |r| == |entries| - 1
  {
    entries[..j] + entries[j + 1..]
  }

  /** The text of each entry, in order. */
  function Lines(entries: seq<Entry>): (r: seq<string>)
    ensures |r| == |entries|
  {
    if |entries| == 0 then [] else Lines(entries[..|entries| - 1]) + [entries[|entries| - 1].line]
  }

  /** At most one option line per option name. */
  predicate UniqueOpts(entries: seq<Entry>) {
    forall i, j :: 0 <= i < j < |entries| && entries[i].Opt? && entries[j].Opt? ==> entries[i].name != entries[j].name
  }

  /** Counter keys grow along the section. */
  predicate RawKeysIncreasing(entries: seq<Entry>) {
    forall i, j :: 0 <= i < j < |entries| && entries[i].Raw? && entries[j].Raw? ==> entries[i].key < entries[j].key
  }

  /** Every counter key has already been handed out. */
  predicate RawKeysAtMost(entries: seq<Entry>, counter: nat) {
    forall j :: 0 <= j < |entries| && entries[j].Raw? ==> entries[j].key <= counter
  }

  lemma RawKeysAtMostPrefix(entries: seq<Entry>, n: nat, counter: nat)
    requires RawKeysAtMost(entries, counter) && n <= |entries|
    ensures RawKeysAtMost(entries[..n], counter)
  {
    assert forall j :: 0 <= j < n ==> entries[..n][j] == entries[j];
  }

  lemma RawKeysAtMostAppend(entries: seq<Entry>, counter: nat, e: Entry)
    requires RawKeysAtMost(entries, counter) && e.Raw? && e.key == counter + 1
    ensures RawKeysAtMost(entries + [e], counter + 1)
  {
    assert forall j :: 0 <= j < |entries| ==> (entries + [e])[j] == entries[j];
  }

  predicate WellKeyed(entries: seq<Entry>, counter: nat) {
    UniqueOpts(entries) && RawKeysIncreasing(entries) && RawKeysAtMost(entries, counter)
  }

  /** Every section's entries are well keyed, and section names are unique. */
  predicate WellFormedIndex(idx: seq<Section>, counter: nat) {
    UniqueNames(idx) && forall i :: 0 <= i < |idx| ==> WellKeyed(idx[i].entries, counter)
  }

  lemma SetOptFresh(entries: seq<Entry>, name: string, line: string)
    requires OptIndex(entries, name).None?
    ensures SetOpt(entries, name, line) == entries + [Opt(name, line)]
  {
  }

  /** No option line of `entries` is keyed by `name`. */
  predicate NoOptNamed(entries: seq<Entry>, name: string) {
    forall j :: 0 <= j < |entries| && entries[j].Opt? ==> entries[j].name != name
  }

  /** An option name that no option line carries is not found. */
  lemma OptIndexAbsent(entries: seq<Entry>, name: string)
    requires NoOptNamed(entries, name)
    ensures OptIndex(entries, name).None?
  {
  }

  /** An option line that is there is found. */
  lemma OptIndexPresent(entries: seq<Entry>, j: nat)
    requires j < |entries| && entries[j].Opt?
    ensures OptIndex(entries, entries[j].name).Some?
  {
    OptIndexFirst(entries, entries[j].name);
  }

  lemma SetOptWellKeyed(entries: seq<Entry>, name: string, line: string, counter: nat)
    requires WellKeyed(entries, counter)
    ensures WellKeyed(SetOpt(entries, name, line), counter)
  {
    OptIndexFirst(entries, name);
  }

  lemma RemoveAtWellKeyed(entries: seq<Entry>, j: nat, counter: nat)
    requires WellKeyed(entries, counter) && j < |entries|
    ensures WellKeyed(RemoveAt(entries, j), counter)
  {
    var r := RemoveAt(entries, j);
    assert forall i :: 0 <= i < |r| ==> r[i] == (if i < j then entries[i] else entries[i + 1]);
  }

  lemma WellKeyedMonotone(entries: seq<Entry>, counter: nat, counter': nat)
    requires WellKeyed(entries, counter) && counter <= counter'
    ensures WellKeyed(entries, counter')
  {
  }

  /** Writing one section's entries keeps the index well formed. */
  lemma SetSectionWellFormed(idx: seq<Section>, counter: nat, name: string, entries: seq<Entry>)
    requires WellFormedIndex(idx, counter) && WellKeyed(entries, counter)
    ensures WellFormedIndex(SetSection(idx, name, entries), counter)
  {
    SetSectionUnique(idx, name, entries);
  }

  lemma WellFormedIndexMonotone(idx: seq<Section>, counter: nat, counter': nat)
    requires WellFormedIndex(idx, counter) && counter <= counter'
    ensures WellFormedIndex(idx, counter')
  {
  }
}
