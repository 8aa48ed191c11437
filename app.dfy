/** The application state of the task list (src/app.rs): entries, filters,
    the queries over them, the bulk operations and the effect of every
    application message on the state and on the storage slot. */
module TodoApp {
  import opened TodoText

  datatype Option<T> = None | Some(value: T)

  datatype EntryStatus = New | Completed | Editing

  datatype Entry = Entry(description: string, status: EntryStatus)

  /** The filters the list can be viewed through; `Search` carries the text. */
  datatype Filter = All | Search(text: string) | Active | Completed

  /** `Filter::fit`: whether entry `e` belongs to the view of filter `f`. */
  predicate Fit(f: Filter, e: Entry)
  {
    match f
    case All => true
    case Active => e.status == EntryStatus.New || e.status == EntryStatus.Editing
    case Completed => e.status == EntryStatus.Completed
    case Search(text) => Matches(text, e.description)
  }

  /** The `All` view holds every entry; `Active` and `Completed` split the
      entries into two complementary views decided by status alone. */
  lemma FitCharacterised(e: Entry)
    ensures Fit(All, e)
    ensures Fit(Active, e) <==> e.status != EntryStatus.Completed
    ensures Fit(Filter.Completed, e) <==> e.status == EntryStatus.Completed
    ensures Fit(Active, e) <==> !Fit(Filter.Completed, e)
  {
  }

  /** The stable filter `iter().filter(|e| f.fit(e)).collect()`: the
      entries of `s` that fit `f`, in their original order. */
  function Select(f: Filter, s: seq<Entry>): (r: seq<Entry>)
    ensures |r| <= |s|
    ensures forall k :: 0 <= k < |r| ==> Fit(f, r[k])
  {
    if s == [] then []
    else
      var rest := Select(f, s[1..]);
      if Fit(f, s[0]) then [s[0]] + rest else rest
  }

  /** Filtering keeps every fitting entry as often as it occurs, and drops
      every other one. */
  lemma {:induction false} SelectCounts(f: Filter, s: seq<Entry>, e: Entry)
    ensures multiset(Select(f, s))[e] == if Fit(f, e) then multiset(s)[e] else 0
  {
    if s != [] {
      assert s == [s[0]] + s[1..];
      SelectCounts(f, s[1..], e);
    }
  }

  lemma {:induction false} SelectMembership(f: Filter, s: seq<Entry>, e: Entry)
    ensures e in Select(f, s) <==> e in s && Fit(f, e)
  {
    SelectCounts(f, s, e);
    assert e in Select(f, s) <==> multiset(Select(f, s))[e] > 0;
    assert e in s <==> multiset(s)[e] > 0;
  }

  /** Filtering distributes over concatenation; together with the
      one-element case this fixes the order of the result. */
  lemma {:induction false} SelectAppend(f: Filter, a: seq<Entry>, b: seq<Entry>)
    ensures Select(f, a + b) == Select(f, a) + Select(f, b)
  {
    if a == [] {
      assert a + b == b;
    } else {
      assert (a + b)[1..] == a[1..] + b;
      SelectAppend(f, a[1..], b);
    }
  }

  /** Filtering keeps the whole list exactly when every entry fits. */
  lemma {:induction false} SelectKeepsAllIff(f: Filter, s: seq<Entry>)
    ensures Select(f, s) == s <==> forall k :: 0 <= k < |s| ==> Fit(f, s[k])
  {
    if s != [] {
      SelectKeepsAllIff(f, s[1..]);
      if !Fit(f, s[0]) {
        assert |Select(f, s)| < |s|;
      } else if forall k :: 0 <= k < |s[1..]| ==> Fit(f, s[1..][k]) {
      } else {
        var k :| 0 <= k < |s[1..]| && !Fit(f, s[1..][k]);
        assert !Fit(f, s[k + 1]);
      }
    }
  }

  /** Filtering yields nothing exactly when no entry fits. */
  lemma {:induction false} SelectEmptyIff(f: Filter, s: seq<Entry>)
    ensures Select(f, s) == [] <==> forall k :: 0 <= k < |s| ==> !Fit(f, s[k])
  {
    if s != [] {
      SelectEmptyIff(f, s[1..]);
      if forall k :: 0 <= k < |s[1..]| ==> !Fit(f, s[1..][k]) {
      } else {
        var k :| 0 <= k < |s[1..]| && Fit(f, s[1..][k]);
        assert Fit(f, s[k + 1]);
      }
    }
  }

  /** Filtering twice by the same filter is filtering once. */
  lemma {:induction false} SelectIdempotent(f: Filter, s: seq<Entry>)
    ensures Select(f, Select(f, s)) == Select(f, s)
  {
    SelectKeepsAllIff(f, Select(f, s));
  }

  /** Every entry is counted by exactly one of `Active` and `Completed`. */
  lemma {:induction false} ActiveCompletedPartition(s: seq<Entry>)
    ensures |Select(Active, s)| + |Select(Filter.Completed, s)| == |s|
  {
    if s != [] {
      ActiveCompletedPartition(s[1..]);
    }
  }

  // ---------------------------------------------------------------------
  // Queries of `State` (pure functions of the fields they read)

  /** `State::total`: the number of entries, whatever the filter. */
  function Total(entries: seq<Entry>): (n: nat)
    ensures n == |entries| == |Select(All, entries)|
  {
    SelectKeepsAllIff(All, entries);
    |entries|
  }

  /** `State::total_completed`: the number of `Completed` entries. */
  function TotalCompleted(entries: seq<Entry>): (n: nat)
    ensures n <= Total(entries)
    ensures n + |Select(Active, entries)| == Total(entries)
    ensures n == 0 <==> forall k :: 0 <= k < |entries| ==> entries[k].status != EntryStatus.Completed
    ensures n == Total(entries) <==> forall k :: 0 <= k < |entries| ==> entries[k].status == EntryStatus.Completed
  {
    var view := Select(Filter.Completed, entries);
    ActiveCompletedPartition(entries);
    SelectEmptyIff(Filter.Completed, entries);
    SelectEmptyIff(Active, entries);
    |view|
  }

  /** `State::is_all_completed`: false when nothing fits the filter,
      otherwise whether every fitting entry is `Completed`. */
  function IsAllCompleted(filter: Filter, entries: seq<Entry>): (b: bool)
    ensures b <==> (exists k :: 0 <= k < |entries| && Fit(filter, entries[k])) &&
                   (forall k :: 0 <= k < |entries| && Fit(filter, entries[k]) ==>
                      entries[k].status == EntryStatus.Completed)
  {
    var view := Select(filter, entries);
    SelectEmptyIff(filter, entries);
    forall k | 0 <= k < |entries| && Fit(filter, entries[k]) ensures entries[k] in view {
      SelectMembership(filter, entries, entries[k]);
    }
    forall k | 0 <= k < |view| ensures view[k] in entries {
      SelectMembership(filter, entries, view[k]);
    }
    if view == [] then false
    else forall k :: 0 <= k < |view| ==> view[k].status == EntryStatus.Completed
  }

  // ---------------------------------------------------------------------
  // Bulk operations of `State`, as functions of the old list

  /** What `toggle_all(v)` does to one entry. */
  function ToggleAllEntry(f: Filter, e: Entry, v: bool): Entry
  {
    if Fit(f, e) && e.status != EntryStatus.Editing then
      e.(status := if v then EntryStatus.Completed else EntryStatus.New)
    else e
  }

  /** The list after `toggle_all(v)` under filter `f`. */
  function ToggledAll(f: Filter, s: seq<Entry>, v: bool): (r: seq<Entry>)
    ensures |r| == |s|
    ensures forall k :: 0 <= k < |s| ==> r[k].description == s[k].description
    ensures forall k :: 0 <= k < |s| && (!Fit(f, s[k]) || s[k].status == EntryStatus.Editing) ==> r[k] == s[k]
    ensures forall k :: 0 <= k < |s| && Fit(f, s[k]) && s[k].status != EntryStatus.Editing ==>
              r[k].status == if v then EntryStatus.Completed else EntryStatus.New
  {
    seq(|s|, k requires 0 <= k < |s| => ToggleAllEntry(f, s[k], v))
  }

  /** A fitting, non-editing entry of a filter other than `Active` still
      fits after it is marked `Completed`: `All` and `Search` do not look
      at the status, and `Completed` entries stay `Completed`. */
  lemma ToggleAllKeepsFit(f: Filter, e: Entry)
    requires !f.Active? && Fit(f, e) && e.status != EntryStatus.Editing
    ensures Fit(f, ToggleAllEntry(f, e, true))
  {
  }

  /** Under any filter but `Active`, when something fits and no fitting
      entry is being edited, `toggle_all(true)` ticks the toggle-all box. */
  lemma ToggleAllCompletesView(f: Filter, s: seq<Entry>)
    requires !f.Active?
    requires exists k :: 0 <= k < |s| && Fit(f, s[k])
    requires forall k :: 0 <= k < |s| && Fit(f, s[k]) ==> s[k].status != EntryStatus.Editing
    ensures IsAllCompleted(f, ToggledAll(f, s, true))
  {
    var r := ToggledAll(f, s, true);
    var k :| 0 <= k < |s| && Fit(f, s[k]);
    ToggleAllKeepsFit(f, s[k]);
    assert Fit(f, r[k]);
  }

  /** Under `All`, on a non-empty list with no entry being edited,
      `toggle_all(true)` completes everything. */
  lemma ToggleAllUnderAll(s: seq<Entry>)
    requires s != []
    requires forall k :: 0 <= k < |s| ==> s[k].status != EntryStatus.Editing
    ensures IsAllCompleted(All, ToggledAll(All, s, true))
    ensures TotalCompleted(ToggledAll(All, s, true)) == Total(ToggledAll(All, s, true))
  {
    assert Fit(All, s[0]);
    ToggleAllCompletesView(All, s);
  }

  /** Under `Active`, with no entry being edited, `toggle_all(true)` empties
      the view, so the toggle-all box is left unticked. */
  lemma ToggleAllUnderActiveEmptiesView(s: seq<Entry>)
    requires forall k :: 0 <= k < |s| ==> s[k].status != EntryStatus.Editing
    ensures Select(Active, ToggledAll(Active, s, true)) == []
    ensures !IsAllCompleted(Active, ToggledAll(Active, s, true))
  {
    SelectEmptyIff(Active, ToggledAll(Active, s, true));
  }

  /** After `clear_completed` no entry is `Completed`, and a second
      `clear_completed` changes nothing. */
  lemma {:induction false} ClearCompletedProperties(s: seq<Entry>)
    ensures TotalCompleted(Select(Active, s)) == 0
    ensures Select(Active, Select(Active, s)) == Select(Active, s)
  {
    SelectIdempotent(Active, s);
  }

  /** The pair of lists a search works on: the list shown and its backup. */
  datatype Lists = Lists(entries: seq<Entry>, backup: seq<Entry>)

  /** `State::search_todos(val)` as a function of the two old lists. */
  function Searched(entries: seq<Entry>, backup: seq<Entry>, val: string): (r: Lists)
    ensures AllWhitespace(val) && backup != [] ==> r == Lists(backup, [])
    ensures AllWhitespace(val) && backup == [] ==> r == Lists(entries, backup)
    ensures !AllWhitespace(val) ==>
              r.backup == entries && r.entries == Select(Filter.Search(Trim(val)), entries) &&
              |r.entries| <= |entries| && Trim(val) != []
  {
    TrimEmptyIff(val);
    var needle := Trim(val);
    if needle == "" && |backup| > 0 then Lists(backup, [])
    else if needle == "" && |backup| == 0 then Lists(entries, backup)
    else Lists(Select(Filter.Search(needle), entries), entries)
  }

  /** Searching and then committing a blank search restores the list as it
      was before the search, with an empty backup. */
  lemma SearchThenClearRestores(entries: seq<Entry>, backup: seq<Entry>, needle: string, blank: string)
    requires !AllWhitespace(needle) && AllWhitespace(blank)
    ensures var s := Searched(entries, backup, needle);
            Searched(s.entries, s.backup, blank) == Lists(entries, [])
  {
  }

  /** Every non-blank search overwrites the backup, so after two searches
      a blank search restores only the result of the first one. */
  lemma RepeatedSearchRestoresOnlyLast(entries: seq<Entry>, backup: seq<Entry>, n1: string, n2: string, blank: string)
    requires !AllWhitespace(n1) && !AllWhitespace(n2) && AllWhitespace(blank)
    ensures var s1 := Searched(entries, backup, n1);
            var s2 := Searched(s1.entries, s1.backup, n2);
            Searched(s2.entries, s2.backup, blank) == Lists(Select(Filter.Search(Trim(n1)), entries), [])
  {
  }

  /** Helpers for the example below. */
  lemma TrimCat()
    ensures Trim(" cat") == "cat" && !AllWhitespace(" cat")
  {
    assert SkipForward(" cat", 1) == 1;
    assert SkipBackward(" cat", 1, 4) == 4;
    assert " cat"[1..4] == "cat";
    assert !IsWhitespace(" cat"[1]);
  }

  lemma MatchesCat()
    ensures Matches("cat", "Cat") && Matches("cat", "Caterpillar") && !Matches("cat", "Dog")
  {
    assert Lower("cat") == "cat";
    assert Lower("Cat") == "cat";
    assert OccursAt(Lower("Cat"), "cat", 0);
    assert Lower("Caterpillar")[0..3] == "cat";
    assert OccursAt(Lower("Caterpillar"), "cat", 0);
    assert Lower("Dog") == "dog";
    forall i ensures !OccursAt("dog", "cat", i) {
      if i == 0 { assert "dog"[0..3] == "dog"; }
    }
  }

  lemma SelectCat(cat: Entry, dog: Entry, caterpillar: Entry)
    requires cat.description == "Cat" && dog.description == "Dog" && caterpillar.description == "Caterpillar"
    ensures Select(Filter.Search("cat"), [cat, dog, caterpillar]) == [cat, caterpillar]
  {
    MatchesCat();
    var f, s := Filter.Search("cat"), [cat, dog, caterpillar];
    assert Fit(f, cat) && !Fit(f, dog) && Fit(f, caterpillar);
    assert s[1..] == [dog, caterpillar] && s[1..][1..] == [caterpillar];
    assert Select(f, [caterpillar]) == [caterpillar];
    assert Select(f, [dog, caterpillar]) == [caterpillar];
  }

  /** With the substring matcher: searching "cat" in Cat, Dog, Caterpillar
      keeps Cat and Caterpillar, and a blank search brings Dog back. */
  lemma SearchExample(cat: Entry, dog: Entry, caterpillar: Entry)
    requires cat.description == "Cat" && dog.description == "Dog" && caterpillar.description == "Caterpillar"
    ensures Searched([cat, dog, caterpillar], [], " cat") == Lists([cat, caterpillar], [cat, dog, caterpillar])
    ensures Searched([cat, caterpillar], [cat, dog, caterpillar], "") == Lists([cat, dog, caterpillar], [])
  {
    TrimCat();
    SelectCat(cat, dog, caterpillar);
  }

  // ---------------------------------------------------------------------
  // The state holder and its bulk mutations

  class State {
    var entries: seq<Entry>
    var entriesBkp: seq<Entry>
    var filter: Filter
    var value: string
    var editValue: string
    var searchValue: string

    constructor (entries: seq<Entry>)
      ensures this.entries == entries && entriesBkp == [] && filter == All
      ensures value == "" && editValue == "" && searchValue == ""
    {
      this.entries := entries;
      entriesBkp := [];
      filter := All;
      value := "";
      editValue := "";
      searchValue := "";
    }

    /** `toggle_all`: walks the list and sets the status of each fitting,
        non-editing entry in place. */
    method ToggleAll(completed: bool)
      modifies this
      ensures entries == ToggledAll(old(filter), old(entries), completed)
      ensures entriesBkp == old(entriesBkp) && filter == old(filter)
      ensures value == old(value) && editValue == old(editValue) && searchValue == old(searchValue)
    {
      var i := 0;
      while i < |entries|
        invariant i <= |entries| == |old(entries)|
        invariant forall k :: 0 <= k < i ==> entries[k] == ToggleAllEntry(filter, old(entries)[k], completed)
        invariant forall k :: i <= k < |entries| ==> entries[k] == old(entries)[k]
        invariant entriesBkp == old(entriesBkp) && filter == old(filter)
        invariant value == old(value) && editValue == old(editValue) && searchValue == old(searchValue)
      {
        if Fit(filter, entries[i]) && entries[i].status != EntryStatus.Editing {
          var status := if completed then EntryStatus.Completed else EntryStatus.New;
          entries := entries[i := entries[i].(status := status)];
        }
        i := i + 1;
      }
    }

    /** `clear_completed`: keeps the entries that fit `Active`. */
    method ClearCompleted()
      modifies this
      ensures entries == Select(Active, old(entries))
      ensures entriesBkp == old(entriesBkp) && filter == old(filter)
      ensures value == old(value) && editValue == old(editValue) && searchValue == old(searchValue)
    {
      entries := Select(Active, entries);
    }

    /** `search_todos(val)`: a blank text restores the backup if there is
        one; any other text saves the list as the backup and keeps the
        entries that match the trimmed text. */
    method SearchTodos(val: string)
      modifies this
      ensures Lists(entries, entriesBkp) == Searched(old(entries), old(entriesBkp), val)
      ensures filter == old(filter)
      ensures value == old(value) && editValue == old(editValue) && searchValue == old(searchValue)
    {
      var needle := Trim(val);
      if needle == "" && |entriesBkp| > 0 {
        entries := entriesBkp;
        entriesBkp := [];
        return;
      } else if needle == "" && |entriesBkp| == 0 {
        return;
      }
      entriesBkp := entries;
      entries := Select(Filter.Search(needle), entries);
    }
  }

  // ---------------------------------------------------------------------
  // The application component

  /** The messages of the application component. */
  datatype Msg =
    | Add
    | Update(val: string)
    | SetFilter(filter: Filter)
    | ToggleAll
    | ClearCompleted
    | UpdateSearch(val: string)
    | Search
    | Nope

  class App {
    const state: State
    /** The entries under the storage key "yew.webassembly.self"; `None`
        when the slot holds nothing that reads back as a list of entries. */
    ghost var stored: Option<seq<Entry>>

    /** `create`: the entries come from the storage slot when it reads back,
        otherwise from the generated placeholder list, whose entries are
        all `New`. */
    constructor (restored: Option<seq<Entry>>, placeholder: seq<Entry>)
      requires forall k :: 0 <= k < |placeholder| ==> placeholder[k].status == EntryStatus.New
      ensures state.entries == (if restored.Some? then restored.value else placeholder)
      ensures state.entriesBkp == [] && state.filter == All
      ensures state.value == "" && state.editValue == "" && state.searchValue == ""
      ensures stored == restored
      ensures restored.None? ==> TotalCompleted(state.entries) == 0
      ensures fresh(state)
    {
      var entries := if restored.Some? then restored.value else placeholder;
      state := new State(entries);
      stored := restored;
    }

    /** `update`: applies one message to the state, then writes the whole
        list to the storage slot. */
    method Update(msg: Msg) returns (shouldRender: bool)
      modifies this, state
      ensures shouldRender
      ensures stored == Some(state.entries)
      ensures msg.Add? ==>
                state.entries == old(state.entries) + [Entry(old(state.value), EntryStatus.New)] &&
                state.value == ""
      ensures msg.Update? ==> state.value == msg.val
      ensures msg.SetFilter? ==> state.filter == msg.filter
      ensures msg.ToggleAll? ==>
                state.entries == ToggledAll(old(state.filter), old(state.entries),
                                            !IsAllCompleted(old(state.filter), old(state.entries)))
      ensures msg.ClearCompleted? ==> state.entries == Select(Active, old(state.entries))
      ensures msg.UpdateSearch? ==> state.searchValue == msg.val
      ensures msg.Search? ==>
                Lists(state.entries, state.entriesBkp) ==
                Searched(old(state.entries), old(state.entriesBkp), old(state.searchValue))
      // what each message leaves alone
      ensures !msg.Add? && !msg.ToggleAll? && !msg.ClearCompleted? && !msg.Search? ==>
                state.entries == old(state.entries)
      ensures !msg.Search? ==> state.entriesBkp == old(state.entriesBkp)
      ensures !msg.SetFilter? ==> state.filter == old(state.filter)
      ensures !msg.Add? && !msg.Update? ==> state.value == old(state.value)
      ensures !msg.UpdateSearch? ==> state.searchValue == old(state.searchValue)
      ensures state.editValue == old(state.editValue)
    {
      match msg {
        case Add =>
          var entry := Entry(state.value, EntryStatus.New);
          state.entries := state.entries + [entry];
          state.value := "";
        case Update(val) =>
          state.value := val;
        case SetFilter(filter) =>
          state.filter := filter;
        case ToggleAll =>
          var status := !IsAllCompleted(state.filter, state.entries);
          state.ToggleAll(status);
        case ClearCompleted =>
          state.ClearCompleted();
        case UpdateSearch(val) =>
          state.searchValue := val;
        case Search =>
          var searchValue := state.searchValue;
          state.SearchTodos(searchValue);
        case Nope =>
      }
      stored := Some(state.entries);
      shouldRender := true;
    }
  }

  /** Adding appends exactly one new entry and keeps the prefix, so a run
      of adds from an empty list leaves one entry per add. */
  lemma AddAppendsOne(entries: seq<Entry>, value: string)
    ensures Total(entries + [Entry(value, EntryStatus.New)]) == Total(entries) + 1
    ensures (entries + [Entry(value, EntryStatus.New)])[..|entries|] == entries
    ensures TotalCompleted(entries + [Entry(value, EntryStatus.New)]) == TotalCompleted(entries)
  {
    SelectAppend(Filter.Completed, entries, [Entry(value, EntryStatus.New)]);
  }
}
