/**
 * The per-session state of the labeling screen: the edit buffer of
 * unsaved label edits and the navigation cursor over the filtered view.
 */
module EditSession {
  import opened Wrappers
  import opened Labels
  import opened FrameTable
  import opened Merge
  import opened Filters
  import opened Commit

  /** The frame keys of the buffer, in insertion order. */
  function Keys(buffer: Buffer): (keys: seq<Key>)
    ensures |keys| == |buffer| && forall i :: 0 <= i < |buffer| ==> keys[i] == buffer[i].0
  {
    if buffer == [] then [] else [buffer[0].0] + Keys(buffer[1..])
  }

  /** A dictionary holds each key once. */
  predicate DistinctKeys(buffer: Buffer)
  {
    forall i, j :: 0 <= i < j < |buffer| ==> buffer[i].0 != buffer[j].0
  }

  /** `temp_labels.get(key)`. */
  function Lookup(buffer: Buffer, key: Key): (found: Option<Entry>)
    ensures found.Some? <==> key in Keys(buffer)
    ensures found.Some? ==> (key, found.value) in buffer
  {
    if buffer == [] then None
    else if buffer[0].0 == key then Some(buffer[0].1)
    else Lookup(buffer[1..], key)
  }

  /** `temp_labels[key] = entry`: an existing key keeps its place, a new key goes last. */
  function Put(buffer: Buffer, key: Key, entry: Entry): (r: Buffer)
    ensures Lookup(r, key) == Some(entry)
    ensures forall p :: p in r ==> p in buffer || p == (key, entry)
  {
    if buffer == [] then [(key, entry)]
    else if buffer[0].0 == key then [(key, entry)] + buffer[1..]
    else [buffer[0]] + Put(buffer[1..], key, entry)
  }

  /** Writing one key leaves every other key's entry as it was. */
  lemma {:induction false} PutOthers(buffer: Buffer, key: Key, entry: Entry, k: Key)
    requires k != key
    ensures Lookup(Put(buffer, key, entry), k) == Lookup(buffer, k)
  {
    if buffer != [] && buffer[0].0 != key {
      PutOthers(buffer[1..], key, entry, k);
    }
  }

  /** Writing a key that is present keeps the key order; a new key is appended. */
  lemma {:induction false} PutKeys(buffer: Buffer, key: Key, entry: Entry)
    ensures key in Keys(buffer) ==> Keys(Put(buffer, key, entry)) == Keys(buffer)
    ensures key !in Keys(buffer) ==> Keys(Put(buffer, key, entry)) == Keys(buffer) + [key]
  {
    if buffer != [] {
      var r := Put(buffer, key, entry);
      assert Keys(buffer) == [buffer[0].0] + Keys(buffer[1..]);
      assert Keys(r) == [r[0].0] + Keys(r[1..]);
      if buffer[0].0 != key {
        PutKeys(buffer[1..], key, entry);
      }
    }
  }

  /** Every buffered entry is a full 0/1 entry and no frame is buffered twice. */
  predicate ValidBuffer(buffer: Buffer)
  {
    DistinctKeys(buffer) && forall i :: 0 <= i < |buffer| ==> IsFullEntry(buffer[i].1)
  }

  /** The values the checkboxes start from: the buffered entry, or the row's cells read as 0/1 when none is buffered. */
  function CurrentValues(buffer: Buffer, row: Record): (v: seq<int>)
    ensures |v| == |LabelColumns|
    ensures Lookup(buffer, row.frame).None? || Lookup(buffer, row.frame).value == [] ==> v == FlagValues(row)
  {
    var current := Lookup(buffer, row.frame);
    if current.None? || current.value == [] then FlagValues(row)
    else seq(5, i requires 0 <= i < 5 => Get(current.value, LabelColumns[i], 0))
  }

  /**
   * One checkbox created with starting value `shown`. `state` is `Some(b)` when the
   * box returns `b` instead: after a click, or because Streamlit kept the state of
   * a box with the same label and starting value from the previous run.
   */
  function Checkbox(shown: int, state: Option<bool>): (v: int)
    ensures v == 0 || v == 1
    ensures state.Some? ==> (v == 1 <==> state.value)
    ensures state.None? ==> (v == 1 <==> shown == 1)
  {
    if state.Some? then (if state.value then 1 else 0) else (if shown == 1 then 1 else 0)
  }

  /** The values the five checkboxes return, given each box's state. */
  function EditedValues(current: seq<int>, states: seq<Option<bool>>): (v: seq<int>)
    requires |current| == |LabelColumns| && |states| == |LabelColumns|
    ensures |v| == |LabelColumns| && ZeroOne(v)
  {
    seq(5, i requires 0 <= i < 5 => Checkbox(current[i], states[i]))
  }

  /** Every box returns the value it is created with. */
  const AsCreated: seq<Option<bool>> := [None, None, None, None, None]

  /** The Previous/Next buttons; at most one is pressed per run of the page. */
  datatype Press = NoPress | PreviousPressed | NextPressed

  /** The cursor after a press on a non-empty view of `len` rows. */
  function MoveCursor(i: nat, press: Press, len: nat): (j: nat)
    requires len > 0
    ensures press == NoPress ==> j == i
    ensures press == PreviousPressed ==> j <= i && (i > 0 ==> j == i - 1) && (i == 0 ==> j == 0)
    ensures press == NextPressed ==> j < len && (i + 1 < len ==> j == i + 1) && (i + 1 >= len ==> j == len - 1)
  {
    match press
    case NoPress => i
    case PreviousPressed => if i - 1 > 0 then i - 1 else 0
    case NextPressed => if i + 1 < len - 1 then i + 1 else len - 1
  }

  /** What the navigation hands to the rest of the page. */
  datatype NavResult = NothingToShow | Showing(index: nat, row: Shown) | IndexError(index: nat)

  class Session {
    /** `st.session_state["temp_labels"]`; an absent buffer reads as empty. */
    var tempLabels: Buffer
    /** `st.session_state.current_index`, absent until a non-empty view is shown. */
    var currentIndex: Option<nat>

    ghost predicate Valid()
      reads this
    {
      ValidBuffer(tempLabels)
    }

    constructor ()
      ensures Valid() && tempLabels == [] && currentIndex == None
    {
      tempLabels := [];
      currentIndex := None;
    }

    /** `labeling_ui`: seed the checkboxes, then overwrite the frame's buffered entry with their values. */
    method LabelingUi(row: Record, states: seq<Option<bool>>)
      requires Valid() && |states| == |LabelColumns|
      modifies this`tempLabels
      ensures Valid()
      ensures tempLabels == Put(old(tempLabels), row.frame,
                                  Pairs(LabelColumns, EditedValues(CurrentValues(old(tempLabels), row), states)))
    {
      var frameName := row.frame;
      var found := Lookup(tempLabels, frameName);
      var currentDict: Entry := if found.Some? then found.value else [];
      if currentDict == [] {
        currentDict := SeedFromRow(row);
      }
      StartingValues(tempLabels, row, currentDict);
      var updatedDict := ReadCheckboxes(currentDict, CurrentValues(tempLabels, row), states);
      PutFullEntryKeepsValid(tempLabels, frameName, updatedDict);
      tempLabels := Put(tempLabels, frameName, updatedDict);
    }

    /** `navigation`: an empty view shows nothing; otherwise move the cursor and show its row. */
    method Navigation(view: seq<Shown>, press: Press) returns (r: NavResult)
      modifies this`currentIndex
      ensures |view| == 0 ==> r == NothingToShow && currentIndex == old(currentIndex)
      ensures |view| > 0 ==>
        var start := if old(currentIndex).Some? then old(currentIndex).value else 0;
        var idx := MoveCursor(start, press, |view|);
        && currentIndex == Some(idx)
        && r == (if idx < |view| then Showing(idx, view[idx]) else IndexError(idx))
    {
      if |view| == 0 {
        return NothingToShow;
      }
      if currentIndex.None? {
        currentIndex := Some(0);
      }
      if press == PreviousPressed {
        currentIndex := Some(if currentIndex.value - 1 > 0 then currentIndex.value - 1 else 0);
      }
      if press == NextPressed {
        currentIndex := Some(if currentIndex.value + 1 < |view| - 1 then currentIndex.value + 1 else |view| - 1);
      }
      var idx := currentIndex.value;
      if idx < |view| {
        r := Showing(idx, view[idx]);
      } else {
        r := IndexError(idx);
      }
    }

    /** `merge_temp_labels`: an empty buffer changes nothing; otherwise merge every entry and clear the buffer. */
    method MergeTempLabels(labeled: seq<Record>, unlabeled: seq<Record>, now: string)
      returns (labeledOut: seq<Record>, unlabeledOut: seq<Record>, changedCount: nat)
      modifies this`tempLabels
      ensures old(tempLabels) == [] ==> labeledOut == labeled && unlabeledOut == unlabeled && changedCount == 0
      ensures Tables(labeledOut, unlabeledOut) == MergeAll(Tables(labeled, unlabeled), old(tempLabels), now)
      ensures changedCount == |old(tempLabels)|
      ensures tempLabels == [] && Valid()
    {
      var pending := tempLabels;
      if pending == [] {
        return labeled, unlabeled, 0;
      }
      labeledOut, unlabeledOut, changedCount := MergeEntries(labeled, unlabeled, pending, now);
      tempLabels := [];
    }

    /** The "Update Excel" button of `main`: merge, then write back only if something changed. */
    method UpdateExcel(labeled: seq<Record>, unlabeled: seq<Record>, now: string,
                       framesFileId: string, unlabeledFileId: Option<string>)
      returns (labeledOut: seq<Record>, unlabeledOut: seq<Record>, outcome: Outcome)
      modifies this`tempLabels
      ensures Tables(labeledOut, unlabeledOut) == MergeAll(Tables(labeled, unlabeled), old(tempLabels), now)
      ensures outcome == CommitOutcome(labeledOut, unlabeledOut, |old(tempLabels)|, framesFileId, unlabeledFileId)
      ensures outcome.NothingToCommit? <==> old(tempLabels) == []
      ensures tempLabels == [] && Valid()
    {
      var changedCount;
      labeledOut, unlabeledOut, changedCount := MergeTempLabels(labeled, unlabeled, now);
      outcome := CommitOutcome(labeledOut, unlabeledOut, changedCount, framesFileId, unlabeledFileId);
    }
  }

  /** The fallback loop of `labeling_ui`: every label's cell of the row, read as 0/1. */
  method SeedFromRow(row: Record) returns (seed: Entry)
    ensures seed == Pairs(LabelColumns, FlagValues(row))
  {
    seed := [];
    for j := 0 to 5
      invariant |seed| == j
      invariant forall k :: 0 <= k < j ==> seed[k] == (LabelColumns[k], FlagValues(row)[k])
    {
      var val := if row.flags[j] == Some(1) then 1 else 0;
      seed := seed + [(LabelColumns[j], val)];
    }
  }

  /** The checkbox loop of `labeling_ui`: one 0/1 value per label, from the box state or the starting value. */
  method ReadCheckboxes(currentDict: Entry, ghost current: seq<int>, states: seq<Option<bool>>) returns (updated: Entry)
    requires |current| == |LabelColumns| && |states| == |LabelColumns|
    requires forall k :: 0 <= k < |LabelColumns| ==> Get(currentDict, LabelColumns[k], 0) == current[k]
    ensures updated == Pairs(LabelColumns, EditedValues(current, states))
    ensures IsFullEntry(updated)
  {
    ghost var edited := EditedValues(current, states);
    updated := [];
    for j := 0 to 5
      invariant |updated| == j
      invariant forall k :: 0 <= k < j ==> updated[k] == (LabelColumns[k], edited[k])
    {
      var ck := if states[j].Some? then states[j].value else Get(currentDict, LabelColumns[j], 0) == 1;
      updated := updated + [(LabelColumns[j], if ck then 1 else 0)];
    }
  }

  // ---------------------------------------------------------------- facts about the buffer

  /** The dictionary `labeling_ui` seeds the checkboxes from holds the starting values. */
  lemma StartingValues(buffer: Buffer, row: Record, seed: Entry)
    requires var found := Lookup(buffer, row.frame);
      seed == if found.Some? && found.value != [] then found.value else Pairs(LabelColumns, FlagValues(row))
    ensures forall k :: 0 <= k < |LabelColumns| ==> Get(seed, LabelColumns[k], 0) == CurrentValues(buffer, row)[k]
  {
    var found := Lookup(buffer, row.frame);
    if !(found.Some? && found.value != []) {
      LabelColumnsDistinct();
      forall k | 0 <= k < 5 ensures Get(seed, LabelColumns[k], 0) == FlagValues(row)[k] {
        GetOfPairs(LabelColumns, FlagValues(row), k, 0);
      }
    }
  }

  /** A buffered full entry gives the checkboxes exactly its own values. */
  lemma CurrentValuesOfFullEntry(buffer: Buffer, row: Record)
    requires Lookup(buffer, row.frame).Some? && IsFullEntry(Lookup(buffer, row.frame).value)
    ensures CurrentValues(buffer, row) == Values(Lookup(buffer, row.frame).value)
  {
    var e := Lookup(buffer, row.frame).value;
    var v := Values(e);
    LabelColumnsDistinct();
    FullEntryIsPairs(e);
    forall k | 0 <= k < 5 ensures Get(e, LabelColumns[k], 0) == v[k] {
      GetOfPairs(LabelColumns, v, k, 0);
    }
  }

  /** Writing a full entry keeps the buffer a dictionary of full entries. */
  lemma PutFullEntryKeepsValid(buffer: Buffer, key: Key, entry: Entry)
    requires ValidBuffer(buffer) && IsFullEntry(entry)
    ensures ValidBuffer(Put(buffer, key, entry))
  {
    var r := Put(buffer, key, entry);
    forall i | 0 <= i < |r| ensures IsFullEntry(r[i].1) {
      assert r[i] in r;
    }
    PutKeepsDistinct(buffer, key, entry);
  }

  /** Writing one key never makes a key occur twice. */
  lemma PutKeepsDistinct(buffer: Buffer, key: Key, entry: Entry)
    requires DistinctKeys(buffer)
    ensures DistinctKeys(Put(buffer, key, entry))
  {
    var r := Put(buffer, key, entry);
    PutKeys(buffer, key, entry);
    var keys, keys' := Keys(buffer), Keys(r);
    assert forall i :: 0 <= i < |r| ==> keys'[i] == r[i].0;
    if key in keys {
      assert keys' == keys;
    } else {
      assert keys' == keys + [key];
      forall i, j | 0 <= i < j < |r| ensures r[i].0 != r[j].0 {
        assert keys'[i] == keys[i];
        if j < |buffer| {
          assert keys'[j] == keys[j];
        }
      }
    }
  }

  lemma {:induction false} PutLookedUp(buffer: Buffer, key: Key)
    requires Lookup(buffer, key).Some?
    ensures Put(buffer, key, Lookup(buffer, key).value) == buffer
  {
    if buffer[0].0 != key {
      PutLookedUp(buffer[1..], key);
    }
  }

  /** Boxes that return their starting values, started from a full entry, give that entry back. */
  lemma AsCreatedFullEntry(e: Entry)
    requires IsFullEntry(e)
    ensures Pairs(LabelColumns, EditedValues(Values(e), AsCreated)) == e
  {
    var v := Values(e);
    assert EditedValues(v, AsCreated) == v;
    FullEntryIsPairs(e);
  }

  /** Showing a frame that is already buffered, with every box returning its starting value, leaves the buffer as it was. */
  lemma RevisitAsCreatedKeepsBuffer(buffer: Buffer, row: Record)
    requires ValidBuffer(buffer) && Lookup(buffer, row.frame).Some?
    ensures Put(buffer, row.frame, Pairs(LabelColumns, EditedValues(CurrentValues(buffer, row), AsCreated))) == buffer
  {
    var e := Lookup(buffer, row.frame).value;
    assert IsFullEntry(e) by {
      assert (row.frame, e) in buffer;
      var i :| 0 <= i < |buffer| && buffer[i] == (row.frame, e);
    }
    CurrentValuesOfFullEntry(buffer, row);
    AsCreatedFullEntry(e);
    PutLookedUp(buffer, row.frame);
  }

  /** The first time a frame is shown, with every box returning its starting value, the row's own cells read as 0/1 are buffered under a new last key. */
  lemma FirstVisitSeedsFromRow(buffer: Buffer, row: Record)
    requires Lookup(buffer, row.frame).None?
    ensures var after := Put(buffer, row.frame, Pairs(LabelColumns, EditedValues(CurrentValues(buffer, row), AsCreated)));
      && Lookup(after, row.frame) == Some(Pairs(LabelColumns, FlagValues(row)))
      && Keys(after) == Keys(buffer) + [row.frame]
  {
    assert EditedValues(FlagValues(row), AsCreated) == FlagValues(row);
    PutKeys(buffer, row.frame, Pairs(LabelColumns, FlagValues(row)));
  }

  /** A box that returns a value of its own decides its label's buffered value, whatever the row or the buffer held. */
  lemma ClickDecides(buffer: Buffer, row: Record, states: seq<Option<bool>>, l: Label)
    requires |states| == |LabelColumns| && states[l.Index()].Some?
    ensures var entry := Pairs(LabelColumns, EditedValues(CurrentValues(buffer, row), states));
      Get(entry, LabelColumns[l.Index()], 0) == (if states[l.Index()].value then 1 else 0)
  {
    LabelColumnsDistinct();
    GetOfPairs(LabelColumns, EditedValues(CurrentValues(buffer, row), states), l.Index(), 0);
  }

  // ---------------------------------------------------------------- facts about the cursor

  /** A cursor inside the view stays inside it, whichever button is pressed. */
  lemma CursorStaysInView(i: nat, press: Press, len: nat)
    requires i < len
    ensures MoveCursor(i, press, len) < len
  {
  }

  /** A cursor left beyond a narrowed view makes the row lookup fail unless Next is pressed. */
  lemma StaleCursorFails()
    ensures MoveCursor(3, NoPress, 2) == 3
    ensures MoveCursor(5, PreviousPressed, 2) == 4
    ensures MoveCursor(5, NextPressed, 2) == 1
  {
  }
}
