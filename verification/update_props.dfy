/** What `update()` does to the store (octoprint_GPX/iniparser.py:60-101): the
    decoded map always takes the normalised value; the layout of the updated
    section either loses the option's line, has that line rewritten where it
    stands, or gains a new line ahead of its trailing blank lines; every other
    section is left alone. */
module UpdateProps {
  import opened Text
  import opened Patterns
  import opened Layout
  import opened IniParser

  // ---------------------------------------------------------------------------
  // Normalisation
  // ---------------------------------------------------------------------------

  /** An update deletes exactly when the payload sends a delete sentinel, except
      that a machine type sent as a string is replaced by `r2` instead. */
  lemma DeletesAfterNormalize(option: string, value: Value)
    ensures Deletes(Normalize(option, value)) <==> Deletes(value) && (option != "machine_type" || value == Null)
  {
    if value.Str? && (value.s == "True" || value.s == "False") {
      assert Normalize(option, value).Num?;
    }
  }

  /** A number prints as a value that reads back as itself. */
  lemma DecimalPlain(n: int)
    ensures PlainValue(DecimalString(n))
  {
    var s := DecimalString(n);
    forall i | 0 <= i < |s|
      ensures s[i] != ';' && s[i] != '\n' && !IsSpace(s[i])
    {
      if i == 0 && n < 0 {
        assert s[i] == '-';
      }
    }
  }

  /** Booleans and numbers are written as decimal digits that the option
      pattern reads back unchanged. */
  lemma NormalizedNumberPlain(option: string, value: Value)
    requires value.Bool? || value.Num?
    ensures PlainValue(Show(Normalize(option, value)))
  {
    DecimalPlain(Normalize(option, value).n);
  }

  // ---------------------------------------------------------------------------
  // The three ways an edit can go
  // ---------------------------------------------------------------------------

  /** A delete sentinel removes the option's line when there is one and keeps
      every other line in order; afterwards no option line carries the name.
      The counter is untouched and nothing is raised. */
  lemma EditDeletes(es: seq<Entry>, option: string, v: Value, counter: nat)
    requires Deletes(v) && UniqueOpts(es)
    ensures EditEntries(es, option, v, counter).Edited?
    ensures EditEntries(es, option, v, counter).counter == counter
    ensures NoOptNamed(EditEntries(es, option, v, counter).entries, option)
    ensures OptIndex(es, option).None? ==> EditEntries(es, option, v, counter).entries == es
    ensures OptIndex(es, option).Some? ==>
      var j := OptIndex(es, option).value;
      es[j].Opt? && es[j].name == option && EditEntries(es, option, v, counter).entries == es[..j] + es[j + 1..]
  {
    OptIndexFirst(es, option);
    match OptIndex(es, option)
    case None =>
    case Some(j) =>
      var r := RemoveAt(es, j);
      assert EditEntries(es, option, v, counter).entries == r;
      forall i | 0 <= i < |r| && r[i].Opt?
        ensures r[i].name != option
      {
        if i >= j {
          assert r[i] == es[i + 1];
        }
      }
  }

  /** A line the option pattern matches is rewritten where it stands: only the
      value group changes, the entry keeps its key and position, and every
      other entry is untouched. A value that reads back as itself is what the
      option pattern finds in the new line, next to the old name, spacing and
      comment. */
  lemma EditRewrites(es: seq<Entry>, option: string, v: Value, counter: nat)
    requires !Deletes(v) && Rewritable(es, option)
    ensures var j := OptIndex(es, option).value;
      var g := MatchNameValue(es[j].line).value;
      var r := EditEntries(es, option, v, counter);
      && r.Edited? && r.counter == counter
      && |r.entries| == |es|
      && (forall i :: 0 <= i < |es| && i != j ==> r.entries[i] == es[i])
      && r.entries[j] == Opt(option, Format(g.(value := Show(v))))
      && (PlainValue(Show(v)) ==> MatchNameValue(r.entries[j].line) == Some(g.(value := Show(v))))
  {
    var j := OptIndex(es, option).value;
    var g := MatchNameValue(es[j].line).value;
    if PlainValue(Show(v)) {
      FormatParse(g.(value := Show(v)));
    }
  }

  /** `k` empty lines under the counter keys after `counter`. */
  function BlankRun(counter: nat, k: nat): (r: seq<Entry>)
    ensures |r| == k
    ensures forall i :: 0 <= i < k ==> r[i] == Raw(counter + 1 + i, "")
  {
    seq(k, i requires 0 <= i < k => Raw(counter + 1 + i, ""))
  }

  /** Putting the blanks back appends them, once every key in use is at most
      the counter. */
  lemma {:induction false} PutBlanksAppends(entries: seq<Entry>, counter: nat, k: nat)
    requires RawKeysAtMost(entries, counter)
    ensures PutBlanks(entries, counter, k) == entries + BlankRun(counter, k)
    decreases k
  {
    if k > 0 {
      SetRawFresh(entries, counter, "");
      var next := entries + [Raw(counter + 1, "")];
      PutBlanksAppends(next, counter + 1, k - 1);
      assert [Raw(counter + 1, "")] + BlankRun(counter + 1, k - 1) == BlankRun(counter, k);
      ConcatAssoc(entries, [Raw(counter + 1, "")], BlankRun(counter + 1, k - 1));
    }
  }

  /** The appended option line is never blank, whatever the option. */
  lemma AddedLineNotBlank(option: string, v: Value)
    ensures !AllSpace(AddedLine(option, v))
  {
    assert AddedLine(option, v)[|option|] == '=';
  }


  /** Appending: the `k` trailing blank lines come off (they are blank and
      the line before them is not, by `TrailingBlanksRun`), the option line
      goes on under the next counter key, and as many empty lines go back on
      under the keys after it. Everything before the blanks is untouched. */
  lemma AppendUnfolds(es: seq<Entry>, option: string, v: Value, counter: nat, k: nat)
    requires TrailingBlanks(es) == Some(k)
    ensures k <= |es|
    ensures Append(es, option, v, counter) ==
      Edited(PutBlanks(SetRaw(es[..|es| - k], counter + 1, AddedLine(option, v)), counter + 1, k), counter + 1 + k)
  {
  }

  lemma AppendPutsBlanksBack(es: seq<Entry>, option: string, v: Value, counter: nat, k: nat)
    requires RawKeysAtMost(es, counter)
    requires TrailingBlanks(es) == Some(k)
    ensures k <= |es|
    ensures Append(es, option, v, counter) ==
      Edited(es[..|es| - k] + [Raw(counter + 1, AddedLine(option, v))] + BlankRun(counter + 1, k), counter + 1 + k)
  {
    AppendUnfolds(es, option, v, counter, k);
    var kept := es[..|es| - k];
    var line := AddedLine(option, v);
    RawKeysAtMostPrefix(es, |es| - k, counter);
    SetRawFresh(kept, counter, line);
    RawKeysAtMostAppend(kept, counter, Raw(counter + 1, line));
    PutBlanksAppends(kept + [Raw(counter + 1, line)], counter + 1, k);
  }

  /** An update that neither deletes nor finds a line to rewrite appends. */
  lemma EditAppends(es: seq<Entry>, option: string, v: Value, counter: nat, k: nat)
    requires RawKeysAtMost(es, counter)
    requires !Deletes(v) && !Rewritable(es, option)
    requires TrailingBlanks(es) == Some(k)
    ensures k <= |es|
    ensures EditEntries(es, option, v, counter) ==
      Edited(es[..|es| - k] + [Raw(counter + 1, AddedLine(option, v))] + BlankRun(counter + 1, k), counter + 1 + k)
  {
    AppendPutsBlanksBack(es, option, v, counter, k);
  }

  /** The append path raises exactly when the section is non-empty and every
      line in it is blank. */
  lemma EditRaises(es: seq<Entry>, option: string, v: Value, counter: nat)
    ensures EditEntries(es, option, v, counter).Emptied? <==>
      && !Deletes(v) && !Rewritable(es, option)
      && |es| > 0 && (forall i :: 0 <= i < |es| ==> AllSpace(es[i].line))
  {
    TrailingBlanksRun(es);
  }

  /** Dropping a tail, adding a line under the next key and then a run of
      blanks under the keys after it keeps a section well keyed. */
  lemma AppendWellKeyed(es: seq<Entry>, k: nat, counter: nat, line: string)
    requires WellKeyed(es, counter) && k <= |es|
    ensures WellKeyed(es[..|es| - k] + [Raw(counter + 1, line)] + BlankRun(counter + 1, k), counter + 1 + k)
  {
    var kept := es[..|es| - k];
    var tail := [Raw(counter + 1, line)] + BlankRun(counter + 1, k);
    var r := es[..|es| - k] + [Raw(counter + 1, line)] + BlankRun(counter + 1, k);
    ConcatAssoc(kept, [Raw(counter + 1, line)], BlankRun(counter + 1, k));
    assert r == kept + tail;
    assert forall i :: 0 <= i < |tail| ==> tail[i] == Raw(counter + 1 + i, if i == 0 then line else "");
    assert forall i :: 0 <= i < |kept| ==> r[i] == es[i];
    assert forall i :: 0 <= i < |tail| ==> r[|kept| + i] == tail[i];
  }

  /** Every edit keeps the section well keyed under the new counter, which
      never goes down. */
  lemma EditWellKeyed(es: seq<Entry>, option: string, v: Value, counter: nat)
    requires WellKeyed(es, counter)
    ensures var r := EditEntries(es, option, v, counter);
      r.Edited? ==> r.counter >= counter && WellKeyed(r.entries, r.counter)
  {
    if Deletes(v) {
      EditDeletes(es, option, v, counter);
      if OptIndex(es, option).Some? {
        RemoveAtWellKeyed(es, OptIndex(es, option).value, counter);
      }
    } else if Rewritable(es, option) {
      EditRewrites(es, option, v, counter);
      OptIndexFirst(es, option);
      var r := EditEntries(es, option, v, counter).entries;
      var j := OptIndex(es, option).value;
      assert forall i :: 0 <= i < |r| ==> r[i] == (if i == j then Opt(option, r[j].line) else es[i]);
    } else if TrailingBlanks(es).Some? {
      var k := TrailingBlanks(es).value;
      EditAppends(es, option, v, counter, k);
      AppendWellKeyed(es, k, counter, AddedLine(option, v));
    }
  }

  // ---------------------------------------------------------------------------
  // Repeated appends
  // ---------------------------------------------------------------------------

  /** Blanks put after a non-blank line are exactly the trailing blanks. */
  lemma {:induction false} TrailingBlanksOfAppended(es: seq<Entry>, counter: nat, k: nat)
    requires |es| > 0 && !AllSpace(es[|es| - 1].line)
    ensures TrailingBlanks(es + BlankRun(counter, k)) == Some(k)
    decreases k
  {
    var r := es + BlankRun(counter, k);
    if k > 0 {
      assert r[|r| - 1].line == "";
      TrailingBlanksOfAppended(es, counter, k - 1);
      assert r[..|r| - 1] == es + BlankRun(counter, k - 1);
    } else {
      assert r == es;
    }
  }

  /** An appended option line is keyed by the counter, not by the option's
      name: after the append the section still has no option line for the
      option and ends in the same `k` blanks, so a second update of the same
      option before the file is read again takes the append path again
      (`EditAppends`) and adds a second line. */
  lemma AppendedOptionStaysUnkeyed(es: seq<Entry>, option: string, v: Value, counter: nat, k: nat)
      returns (mid: seq<Entry>)
    requires WellKeyed(es, counter)
    requires !Deletes(v)
    requires NoOptNamed(es, option)
    requires TrailingBlanks(es) == Some(k)
    ensures EditEntries(es, option, v, counter) == Edited(mid, counter + 1 + k)
    ensures NoOptNamed(mid, option) && !Rewritable(mid, option)
    ensures TrailingBlanks(mid) == Some(k)
    ensures WellKeyed(mid, counter + 1 + k)
    ensures k <= |es| && mid[..|mid| - k] == es[..|es| - k] + [Raw(counter + 1, AddedLine(option, v))]
  {
    OptIndexAbsent(es, option);
    EditAppends(es, option, v, counter, k);
    AppendWellKeyed(es, k, counter, AddedLine(option, v));
    var kept := es[..|es| - k];
    var front := kept + [Raw(counter + 1, AddedLine(option, v))];
    mid := front + BlankRun(counter + 1, k);
    assert NoOptNamed(mid, option) by {
      assert forall i :: 0 <= i < |kept| ==> mid[i] == es[i];
    }
    OptIndexAbsent(mid, option);
    AddedLineNotBlank(option, v);
    TrailingBlanksOfAppended(front, counter + 1, k);
    assert mid[..|mid| - k] == front;
  }

  // ---------------------------------------------------------------------------
  // The store around the edit
  // ---------------------------------------------------------------------------

  /** Creating an empty section changes what no section reads as. */
  lemma PreparedFacts(idx: seq<Section>, section: string, counter: nat)
    requires WellFormedIndex(idx, counter)
    ensures WellFormedIndex(Prepared(idx, section), counter)
    ensures forall other :: Entries(Prepared(idx, section), other) == Entries(idx, other)
    ensures |Prepared(idx, section)| >= |idx|
    ensures forall i :: 0 <= i < |idx| ==> Prepared(idx, section)[i] == idx[i]
  {
    if !HasSection(idx, section) {
      SetSectionWellFormed(idx, counter, section, []);
      SetSectionUnique(idx, section, []);
      assert Prepared(idx, section) == SetSection(idx, section, []);
    }
  }

  /** An update edits the entries of its section and nothing else: other
      sections keep their entries and the sections keep their order; the
      layout stays well formed under the new counter. */
  lemma UpdateEditsOneSection(st: Store, section: string, option: string, value: Value)
    requires WellFormedIndex(st.idx, st.counter)
    ensures var r := UpdateOption(st, section, option, value).store;
      var e := EditEntries(Entries(st.idx, section), option, Normalize(option, value), st.counter);
      && Entries(r.idx, section) == (match e case Edited(es, _) => es case Emptied => [])
      && r.counter == (match e case Edited(_, c) => c case Emptied => st.counter)
      && UpdateOption(st, section, option, value).Raised? == e.Emptied?
      && WellFormedIndex(r.idx, r.counter)
      && (forall other :: other != section ==> Entries(r.idx, other) == Entries(st.idx, other))
      && HasSection(r.idx, section)
      && |r.idx| >= |st.idx|
      && (forall i :: 0 <= i < |st.idx| ==> r.idx[i].name == st.idx[i].name)
  {
    var v := Normalize(option, value);
    var idx := Prepared(st.idx, section);
    PreparedFacts(st.idx, section, st.counter);
    var e := EditEntries(Entries(st.idx, section), option, v, st.counter);
    var es := match e case Edited(es, _) => es case Emptied => [];
    var c := match e case Edited(_, c) => c case Emptied => st.counter;
    EditWellKeyed(Entries(st.idx, section), option, v, st.counter);
    assert WellKeyed(es, c);
    assert UpdateOption(st, section, option, value).store.idx == SetSection(idx, section, es);
    WellFormedIndexMonotone(idx, st.counter, c);
    SetSectionWellFormed(idx, c, section, es);
    SetSectionUnique(idx, section, es);
    SetSectionFacts(idx, section, es);
  }

  /** `get` after an update returns the normalised value, whichever way the
      edit went, and every other option reads as before. */
  lemma UpdateThenGet(st: Store, section: string, option: string, value: Value)
    ensures Get(UpdateOption(st, section, option, value).store, section, option) == Normalize(option, value)
    ensures forall s, o :: s != section || o != option ==>
      Get(UpdateOption(st, section, option, value).store, s, o) == Get(st, s, o)
  {
    var v := Normalize(option, value);
    var opts := Options(st.ini, section)[option := v];
    var r := UpdateOption(st, section, option, value).store;
    assert r.ini == st.ini[section := opts];
    forall s, o | s != section || o != option
      ensures Get(r, s, o) == Get(st, s, o)
    {
      if s == section {
        assert r.ini[s] == opts;
        assert o in opts <==> o in Options(st.ini, section);
        if o in opts {
          assert opts[o] == Options(st.ini, section)[o];
        }
      } else {
        assert s in r.ini <==> s in st.ini;
        if s in st.ini {
          assert r.ini[s] == st.ini[s];
        }
      }
    }
  }


  // ---------------------------------------------------------------------------
  // Whole payloads
  // ---------------------------------------------------------------------------

  /** The pairs of one section, applied in turn, keep the layout well formed,
      never lower the counter and leave every other section alone, whether or
      not one of them raises. */
  lemma {:induction false} UpdateSectionKeeps(st: Store, section: string, options: seq<(string, Value)>)
    requires WellFormedIndex(st.idx, st.counter)
    ensures var r := UpdateSection(st, section, options).store;
      && WellFormedIndex(r.idx, r.counter)
      && r.counter >= st.counter
      && (forall other :: other != section ==> Entries(r.idx, other) == Entries(st.idx, other))
      && (forall other :: other != section ==> Options(r.ini, other) == Options(st.ini, other))
    decreases |options|
  {
    if |options| > 0 {
      UpdateEditsOneSection(st, section, options[0].0, options[0].1);
      var o := UpdateOption(st, section, options[0].0, options[0].1);
      if o.Done? {
        UpdateSectionKeeps(o.store, section, options[1..]);
      }
    }
  }

  /** No section of the payload is called `name`. */
  predicate NotNamed(changes: seq<(string, seq<(string, Value)>)>, name: string) {
    forall i :: 0 <= i < |changes| ==> changes[i].0 != name
  }

  /** A whole payload keeps the layout well formed, never lowers the counter,
      and leaves alone every section it does not name. */
  lemma {:induction false} UpdateKeeps(st: Store, changes: seq<(string, seq<(string, Value)>)>)
    requires WellFormedIndex(st.idx, st.counter)
    ensures var r := Update(st, changes).store;
      && WellFormedIndex(r.idx, r.counter)
      && r.counter >= st.counter
      && (forall other :: NotNamed(changes, other) ==> Entries(r.idx, other) == Entries(st.idx, other))
      && (forall other :: NotNamed(changes, other) ==> Options(r.ini, other) == Options(st.ini, other))
    decreases |changes|
  {
    if |changes| > 0 {
      UpdateSectionKeeps(st, changes[0].0, changes[0].1);
      var o := UpdateSection(st, changes[0].0, changes[0].1);
      if o.Done? {
        UpdateKeeps(o.store, changes[1..]);
        forall other | NotNamed(changes, other)
          ensures Entries(Update(st, changes).store.idx, other) == Entries(st.idx, other)
          ensures Options(Update(st, changes).store.ini, other) == Options(st.ini, other)
        {
          assert changes[0].0 != other;
          assert forall i :: 0 <= i < |changes[1..]| ==> changes[1..][i].0 == changes[i + 1].0;
        }
      } else {
        forall other | NotNamed(changes, other)
          ensures changes[0].0 != other
        {
        }
      }
    }
  }
}
