/** The list component of the task list (src/entries.rs): its own copy of
    the entries, the edit buffer, the per-entry operations by list index and
    the effect of every list message on the state and on the storage slot.
    Indices are positions in the whole list the component was given. */
module TodoEntries {
  import opened TodoApp

  // ---------------------------------------------------------------------
  // Per-entry operations, as functions of the old list

  /** What `toggle` does to the status of one entry. */
  function Toggled(e: Entry): Entry
  {
    match e.status
    case Completed => e.(status := EntryStatus.New)
    case New => e.(status := EntryStatus.Completed)
    case Editing => e
  }

  /** What `toggle_edit` does to the status of one entry. */
  function EditToggled(e: Entry): Entry
  {
    match e.status
    case Completed => e
    case New => e.(status := EntryStatus.Editing)
    case Editing => e.(status := EntryStatus.New)
  }

  /** The list after `toggle(i)`: only entry `i` may change, and only its
      status, which swaps `New` and `Completed` and keeps `Editing`. */
  function ToggleAt(s: seq<Entry>, i: nat): (r: seq<Entry>)
    requires i < |s|
    ensures |r| == |s| && forall k :: 0 <= k < |s| && k != i ==> r[k] == s[k]
    ensures r[i].description == s[i].description
    ensures s[i].status == EntryStatus.Completed ==> r[i].status == EntryStatus.New
    ensures s[i].status == EntryStatus.New ==> r[i].status == EntryStatus.Completed
    ensures s[i].status == EntryStatus.Editing ==> r[i] == s[i]
  {
    s[i := Toggled(s[i])]
  }

  /** Toggling the same entry twice gives back the list. */
  lemma ToggleTwice(s: seq<Entry>, i: nat)
    requires i < |s|
    ensures ToggleAt(ToggleAt(s, i), i) == s
  {
    assert ToggleAt(ToggleAt(s, i), i)[i] == s[i];
  }

  /** The list after `toggle_edit(i)`: only entry `i` may change, and only
      its status, which swaps `New` and `Editing` and keeps `Completed`. */
  function ToggleEditAt(s: seq<Entry>, i: nat): (r: seq<Entry>)
    requires i < |s|
    ensures |r| == |s| && forall k :: 0 <= k < |s| && k != i ==> r[k] == s[k]
    ensures r[i].description == s[i].description
    ensures s[i].status == EntryStatus.New ==> r[i].status == EntryStatus.Editing
    ensures s[i].status == EntryStatus.Editing ==> r[i].status == EntryStatus.New
    ensures s[i].status == EntryStatus.Completed ==> r[i] == s[i]
  {
    s[i := EditToggled(s[i])]
  }

  /** Toggling edit mode of the same entry twice gives back the list. */
  lemma ToggleEditTwice(s: seq<Entry>, i: nat)
    requires i < |s|
    ensures ToggleEditAt(ToggleEditAt(s, i), i) == s
  {
    assert ToggleEditAt(ToggleEditAt(s, i), i)[i] == s[i];
  }

  /** The list after `complete_edit(i, val)`: entry `i` gets the new text
      and is `New`, whatever status it had; nothing else changes. */
  function CompleteEditAt(s: seq<Entry>, i: nat, val: string): (r: seq<Entry>)
    requires i < |s|
    ensures |r| == |s| && forall k :: 0 <= k < |s| && k != i ==> r[k] == s[k]
    ensures r[i] == Entry(val, EntryStatus.New)
  {
    s[i := Entry(val, EntryStatus.New)]
  }

  /** `iter().enumerate()`: each entry paired with a counter that starts at
      `start` and goes up by one per entry. */
  function EnumerateFrom(s: seq<Entry>, start: nat): seq<(nat, Entry)>
  {
    if s == [] then [] else [(start, s[0])] + EnumerateFrom(s[1..], start + 1)
  }

  /** The counter paired with an entry is its position plus `start`; from
      zero, looking up position `k` and taking its counter gives back `k`. */
  lemma {:induction false} EnumerateFromAt(s: seq<Entry>, start: nat, k: nat)
    requires k < |s|
    ensures |EnumerateFrom(s, start)| == |s|
    ensures EnumerateFrom(s, start)[k] == (start + k, s[k])
  {
    if k > 0 {
      EnumerateFromAt(s[1..], start + 1, k - 1);
    } else {
      EnumerateLength(s[1..], start + 1);
    }
  }

  lemma {:induction false} EnumerateLength(s: seq<Entry>, start: nat)
    ensures |EnumerateFrom(s, start)| == |s|
  {
    if s != [] {
      EnumerateLength(s[1..], start + 1);
    }
  }

  /** The list after `remove(i)`: entry `i` is gone, the entries before it
      keep their positions and the ones after it move down by one. */
  function RemoveAt(s: seq<Entry>, i: nat): (r: seq<Entry>)
    requires i < |s|
    ensures |r| == |s| - 1
    ensures forall k :: 0 <= k < i ==> r[k] == s[k]
    ensures forall k :: i <= k < |r| ==> r[k] == s[k + 1]
  {
    s[..i] + s[i + 1..]
  }

  /** Removing keeps every other entry: the multiset of entries loses
      exactly one copy of the removed one. */
  lemma RemoveAtContents(s: seq<Entry>, i: nat)
    requires i < |s|
    ensures multiset(RemoveAt(s, i)) + multiset{s[i]} == multiset(s)
  {
    assert s == s[..i] + [s[i]] + s[i + 1..];
  }

  // ---------------------------------------------------------------------
  // The list component's state and its per-entry mutations

  class State {
    var entries: seq<Entry>
    var editValue: string

    constructor (entries: seq<Entry>, editValue: string)
      ensures this.entries == entries && this.editValue == editValue
    {
      this.entries := entries;
      this.editValue := editValue;
    }

    /** `toggle(idx)`; an index past the end is a panic in the source. */
    method Toggle(idx: nat)
      requires idx < |entries|
      modifies this
      ensures entries == ToggleAt(old(entries), idx) && editValue == old(editValue)
    {
      var entry := entries[idx];
      match entry.status {
        case Completed => entries := entries[idx := entry.(status := EntryStatus.New)];
        case New => entries := entries[idx := entry.(status := EntryStatus.Completed)];
        case Editing =>
      }
    }

    /** `toggle_edit(idx)`; an index past the end is a panic in the source. */
    method ToggleEdit(idx: nat)
      requires idx < |entries|
      modifies this
      ensures entries == ToggleEditAt(old(entries), idx) && editValue == old(editValue)
    {
      var entry := entries[idx];
      match entry.status {
        case Completed =>
        case New => entries := entries[idx := entry.(status := EntryStatus.Editing)];
        case Editing => entries := entries[idx := entry.(status := EntryStatus.New)];
      }
    }

    /** `complete_edit(idx, val)`; an index past the end is a panic in the source. */
    method CompleteEdit(idx: nat, val: string)
      requires idx < |entries|
      modifies this
      ensures entries == CompleteEditAt(old(entries), idx, val) && editValue == old(editValue)
    {
      var entry := entries[idx];
      entry := entry.(description := val);
      entry := entry.(status := EntryStatus.New);
      entries := entries[idx := entry];
    }

    /** `remove(idx)`: looks the index up in the enumerated list, then
        removes the entry at the index found there. */
    method Remove(idx: nat)
      requires idx < |entries|
      modifies this
      ensures entries == RemoveAt(old(entries), idx) && editValue == old(editValue)
    {
      var pairs := EnumerateFrom(entries, 0);
      EnumerateFromAt(entries, 0, idx);
      var (found, _) := pairs[idx];
      entries := entries[..found] + entries[found + 1..];
    }
  }

  // ---------------------------------------------------------------------
  // The list component

  /** The properties the application passes down: its whole list. */
  datatype Props = Props(entries: seq<Entry>)

  /** The messages of the list component. */
  datatype Msg =
    | Edit(idx: nat)
    | UpdateEdit(val: string)
    | Remove(idx: nat)
    | ToggleEdit(idx: nat)
    | Toggle(idx: nat)
    | Nope

  /** The messages that name an entry name one of the `n` entries. */
  predicate IndexInRange(msg: Msg, n: nat)
  {
    match msg
    case Edit(idx) => idx < n
    case Remove(idx) => idx < n
    case ToggleEdit(idx) => idx < n
    case Toggle(idx) => idx < n
    case _ => true
  }

  class Entries {
    var props: Props
    var state: State
    /** The entries under the storage key "yew.webassembly.self". */
    ghost var stored: Option<seq<Entry>>

    /** `create`: the list starts as a copy of the given one, with an empty
        edit buffer; the storage slot is not read. */
    constructor (props: Props, ghost slot: Option<seq<Entry>>)
      ensures this.props == props && fresh(state)
      ensures state.entries == props.entries && state.editValue == ""
      ensures stored == slot
    {
      this.props := props;
      state := new State(props.entries, "");
      stored := slot;
    }

    /** `update`: applies one message to the list state, then writes the
        whole list to the storage slot. */
    method Update(msg: Msg) returns (shouldRender: bool)
      requires IndexInRange(msg, |state.entries|)
      modifies this, state
      ensures shouldRender && state == old(state) && props == old(props)
      ensures stored == Some(state.entries)
      ensures msg.ToggleEdit? ==>
                state.editValue == old(state.entries)[msg.idx].description &&
                state.entries == ToggleEditAt(old(state.entries), msg.idx)
      ensures msg.Toggle? ==>
                state.entries == ToggleAt(old(state.entries), msg.idx) &&
                state.editValue == old(state.editValue)
      ensures msg.Edit? ==>
                state.entries == CompleteEditAt(old(state.entries), msg.idx, old(state.editValue)) &&
                state.editValue == ""
      ensures msg.UpdateEdit? ==> state.entries == old(state.entries) && state.editValue == msg.val
      ensures msg.Remove? ==>
                state.entries == RemoveAt(old(state.entries), msg.idx) &&
                state.editValue == old(state.editValue)
      ensures msg.Nope? ==> state.entries == old(state.entries) && state.editValue == old(state.editValue)
    {
      match msg {
        case ToggleEdit(idx) =>
          state.editValue := state.entries[idx].description;
          state.ToggleEdit(idx);
        case Toggle(idx) =>
          state.Toggle(idx);
        case Edit(idx) =>
          var editValue := state.editValue;
          state.CompleteEdit(idx, editValue);
          state.editValue := "";
        case UpdateEdit(val) =>
          state.editValue := val;
        case Remove(idx) =>
          state.Remove(idx);
        case Nope =>
      }
      stored := Some(state.entries);
      shouldRender := true;
    }

    /** `change`: new properties replace the list state with a fresh copy
        of their list and an empty edit buffer; equal properties change
        nothing, even when the local list has been edited since. */
    method Change(props: Props) returns (shouldRender: bool)
      modifies this
      ensures shouldRender <==> old(this.props) != props
      ensures this.props == props
      ensures stored == old(stored)
      ensures shouldRender ==> fresh(state) && state.entries == props.entries && state.editValue == ""
      ensures !shouldRender ==> state == old(state) && state.entries == old(state.entries) &&
                                state.editValue == old(state.editValue)
    {
      if this.props != props {
        state := new State(props.entries, "");
        this.props := props;
        shouldRender := true;
      } else {
        shouldRender := false;
      }
    }
  }

  /** Removing position 1 of three entries, twice, leaves the first one. */
  lemma RemoveTwiceExample(a: Entry, b: Entry, c: Entry)
    ensures RemoveAt([a, b, c], 1) == [a, c]
    ensures RemoveAt(RemoveAt([a, b, c], 1), 1) == [a]
  {
  }
}
