/**
 * The label merge engine: every buffered entry either relabels the first
 * labeled row of its frame in place or promotes the frame into the labeled
 * table, removing it from the unlabeled one.
 */
module Merge {
  import opened Wrappers
  import opened Sequences
  import opened Labels
  import opened FrameTable

  /** The edit buffer: frame key to entry, in insertion order. */
  type Buffer = seq<(Key, Entry)>

  /** The labeled and the unlabeled table. */
  datatype Tables = Tables(labeled: seq<Record>, unlabeled: seq<Record>)

  /** The label cells an entry writes: each label's value, 0 where the entry lacks it. */
  function MergedFlags(entry: Entry): (f: Flags)
    ensures forall i :: 0 <= i < |LabelColumns| ==> f[i] == Some(Get(entry, LabelColumns[i], 0))
    ensures forall l: Label :: f[l.Index()] == Some(Get(entry, l.Name(), 0))
  {
    [Some(Get(entry, LabelColumns[0], 0)), Some(Get(entry, LabelColumns[1], 0)),
     Some(Get(entry, LabelColumns[2], 0)), Some(Get(entry, LabelColumns[3], 0)),
     Some(Get(entry, LabelColumns[4], 0))]
  }

  /** An already labeled row after relabeling: new label cells, class and date. */
  function Relabeled(r: Record, entry: Entry, now: string): (r': Record)
    ensures r'.frame == r.frame && r'.movie == r.movie && r'.pillcam == r.pillcam
    ensures r'.flags == MergedFlags(entry) && r'.klass == Some(UpdateClass(entry)) && r'.labelDate == Some(now)
  {
    r.(flags := MergedFlags(entry), klass := Some(UpdateClass(entry)), labelDate := Some(now))
  }

  /** The row a frame is promoted with; its metadata cells are empty strings. */
  function Promoted(key: Key, entry: Entry, now: string): (p: Record)
    ensures p.frame == key && (HasFrame(p, key) <==> key.Some?)
    ensures p.flags == MergedFlags(entry) && p.klass == Some(PromoteClass(entry))
    ensures p.movie == Some("") && p.pillcam == Some("") && p.labelDate == Some(now)
  {
    Record(key, MergedFlags(entry), Some(PromoteClass(entry)), Some(""), Some(""), Some(now))
  }

  /** The position of the first row at or after `from` whose frame is `key`. */
  function FindFrameFrom(rows: seq<Record>, key: Key, from: nat): (r: Option<nat>)
    requires from <= |rows|
    ensures r.Some? ==> from <= r.value < |rows| && HasFrame(rows[r.value], key)
                        && forall j :: from <= j < r.value ==> !HasFrame(rows[j], key)
    ensures r.None? ==> forall j :: from <= j < |rows| ==> !HasFrame(rows[j], key)
    decreases |rows| - from
  {
    if from == |rows| then None
    else if HasFrame(rows[from], key) then Some(from)
    else FindFrameFrom(rows, key, from + 1)
  }

  /** The position of the first row whose frame is `key` (`df.index[df['frame'] == key][0]`). */
  function FindFrame(rows: seq<Record>, key: Key): (r: Option<nat>)
    ensures r.Some? ==> r.value < |rows| && HasFrame(rows[r.value], key)
                        && forall j :: 0 <= j < r.value ==> !HasFrame(rows[j], key)
    ensures r.None? ==> forall j :: 0 <= j < |rows| ==> !HasFrame(rows[j], key)
  {
    FindFrameFrom(rows, key, 0)
  }

  function OtherFrame(key: Key): Record -> bool
  {
    r => !HasFrame(r, key)
  }

  /** `df[df['frame'] != key]`: rows with an empty frame cell are kept. */
  function WithoutFrame(rows: seq<Record>, key: Key): (kept: seq<Record>)
    ensures |kept| <= |rows|
    ensures forall r :: r in kept <==> r in rows && !HasFrame(r, key)
  {
    Filter(rows, OtherFrame(key))
  }

  /** One iteration of the merge loop. */
  function MergeStep(t: Tables, key: Key, entry: Entry, now: string): (after: Tables)
    ensures |after.labeled| == |t.labeled| + (if FindFrame(t.labeled, key).Some? then 0 else 1)
    ensures |after.unlabeled| <= |t.unlabeled|
  {
    match FindFrame(t.labeled, key)
    case Some(idx) => Tables(t.labeled[idx := Relabeled(t.labeled[idx], entry, now)], t.unlabeled)
    case None => Tables(t.labeled + [Promoted(key, entry, now)], WithoutFrame(t.unlabeled, key))
  }

  /** The whole merge loop, entry by entry in buffer order. */
  function MergeAll(t: Tables, buffer: Buffer, now: string): (after: Tables)
    ensures |t.labeled| <= |after.labeled| <= |t.labeled| + |buffer|
    ensures |after.unlabeled| <= |t.unlabeled|
    decreases |buffer|
  {
    if buffer == [] then t
    else MergeAll(MergeStep(t, buffer[0].0, buffer[0].1, now), buffer[1..], now)
  }

  /** Merging from position `i` is one step followed by merging from `i + 1`. */
  lemma MergeAllFrom(t: Tables, buffer: Buffer, i: nat, now: string)
    requires i < |buffer|
    ensures MergeAll(t, buffer[i..], now) == MergeAll(MergeStep(t, buffer[i].0, buffer[i].1, now), buffer[i + 1..], now)
  {
    assert buffer[i..][0] == buffer[i] && buffer[i..][1..] == buffer[i + 1..];
  }

  /** The inner `for lab_col in LABEL_COLUMNS` loop: every label cell is overwritten from the entry. */
  method WriteLabelCells(flags: Flags, entry: Entry) returns (r: Flags)
    ensures r == MergedFlags(entry)
  {
    r := flags;
    for j := 0 to 5
      invariant forall k :: 0 <= k < j ==> r[k] == Some(Get(entry, LabelColumns[k], 0))
    {
      r := r[j := Some(Get(entry, LabelColumns[j], 0))];
    }
  }

  /** The body of the merge loop for one buffered frame: overwrite its labeled row, or promote it. */
  method MergeOne(labeled: seq<Record>, unlabeled: seq<Record>, frameName: Key, labelDict: Entry, now: string)
    returns (labeledOut: seq<Record>, unlabeledOut: seq<Record>)
    ensures Tables(labeledOut, unlabeledOut) == MergeStep(Tables(labeled, unlabeled), frameName, labelDict, now)
  {
    var found := FindFrame(labeled, frameName);
    if found.Some? {
      var idx := found.value;
      var flags := WriteLabelCells(labeled[idx].flags, labelDict);
      var row := labeled[idx].(flags := flags, klass := Some(UpdateClass(labelDict)), labelDate := Some(now));
      labeledOut, unlabeledOut := labeled[idx := row], unlabeled;
    } else {
      var flags := WriteLabelCells([None, None, None, None, None], labelDict);
      var newRow := Record(frameName, flags, Some(PromoteClass(labelDict)), Some(""), Some(""), Some(now));
      labeledOut, unlabeledOut := labeled + [newRow], WithoutFrame(unlabeled, frameName);
    }
  }

  /** The loop of `merge_temp_labels` over a non-empty buffer: the new tables and the change count. */
  method MergeEntries(labeled: seq<Record>, unlabeled: seq<Record>, buffer: Buffer, now: string)
    returns (labeledOut: seq<Record>, unlabeledOut: seq<Record>, changedCount: nat)
    ensures Tables(labeledOut, unlabeledOut) == MergeAll(Tables(labeled, unlabeled), buffer, now)
    ensures changedCount == |buffer|
  {
    labeledOut, unlabeledOut, changedCount := labeled, unlabeled, 0;
    for i := 0 to |buffer|
      invariant MergeAll(Tables(labeledOut, unlabeledOut), buffer[i..], now)
             == MergeAll(Tables(labeled, unlabeled), buffer, now)
      invariant changedCount == i
    {
      var (frameName, labelDict) := buffer[i];
      MergeAllFrom(Tables(labeledOut, unlabeledOut), buffer, i, now);
      labeledOut, unlabeledOut := MergeOne(labeledOut, unlabeledOut, frameName, labelDict, now);
      changedCount := changedCount + 1;
    }
    assert buffer[|buffer|..] == [];
  }

  // ---------------------------------------------------------------- row-level facts

  lemma NamesReplace(rows: seq<Record>, idx: nat, r: Record)
    requires idx < |rows| && rows[idx].frame == r.frame
    ensures Names(rows[idx := r]) == Names(rows)
  {
    var rows' := rows[idx := r];
    forall name ensures name in Names(rows') <==> name in Names(rows) {
      NamesMember(rows, name);
      NamesMember(rows', name);
      if name in Names(rows) {
        var i :| 0 <= i < |rows| && HasFrame(rows[i], Some(name));
        assert HasFrame(rows'[i], Some(name));
      }
      if name in Names(rows') {
        var i :| 0 <= i < |rows'| && HasFrame(rows'[i], Some(name));
        assert HasFrame(rows[i], Some(name));
      }
    }
  }

  lemma UniqueReplace(rows: seq<Record>, idx: nat, r: Record)
    requires idx < |rows| && rows[idx].frame == r.frame && Unique(rows)
    ensures Unique(rows[idx := r])
  {
    var rows' := rows[idx := r];
    assert forall i :: 0 <= i < |rows| ==> rows'[i].frame == rows[i].frame;
  }

  lemma NamesOfFilter(rows: seq<Record>, p: Record -> bool)
    ensures Names(Filter(rows, p)) <= Names(rows)
  {
  }

  lemma {:induction false} UniqueFilter(rows: seq<Record>, p: Record -> bool)
    requires Unique(rows)
    ensures Unique(Filter(rows, p))
  {
    if rows != [] {
      var head := if p(rows[0]) then [rows[0]] else [];
      assert rows == [rows[0]] + rows[1..];
      UniqueAppend([rows[0]], rows[1..]);
      UniqueFilter(rows[1..], p);
      NamesOfFilter(rows[1..], p);
      assert Names(head) <= Names([rows[0]]);
      UniqueAppend(head, Filter(rows[1..], p));
    }
  }

  /** A frame that is found is among the table's names; one that is not found is not. */
  lemma FindFrameNames(rows: seq<Record>, key: Key)
    requires key.Some?
    ensures FindFrame(rows, key).Some? <==> key.value in Names(rows)
  {
    NamesMember(rows, key.value);
  }

  lemma WithoutFrameNames(rows: seq<Record>, key: Key)
    requires key.Some?
    ensures Names(WithoutFrame(rows, key)) == Names(rows) - {key.value}
  {
    var w := WithoutFrame(rows, key);
    forall name ensures name in Names(w) <==> name in Names(rows) && name != key.value {
      NamesMember(rows, name);
      NamesMember(w, name);
      if name in Names(rows) && name != key.value {
        var i :| 0 <= i < |rows| && HasFrame(rows[i], Some(name));
        assert rows[i] in w;
      }
    }
  }

  // ---------------------------------------------------------------- one step

  /** Relabeling: only the first row with the frame changes, and only its label cells, class and date. */
  lemma UpdateBranch(t: Tables, key: Key, entry: Entry, now: string)
    requires FindFrame(t.labeled, key).Some?
    ensures var idx := FindFrame(t.labeled, key).value;
      var after := MergeStep(t, key, entry, now);
      && |after.labeled| == |t.labeled|
      && after.unlabeled == t.unlabeled
      && (forall j :: 0 <= j < |t.labeled| && j != idx ==> after.labeled[j] == t.labeled[j])
      && after.labeled[idx].frame == t.labeled[idx].frame
      && after.labeled[idx].movie == t.labeled[idx].movie
      && after.labeled[idx].pillcam == t.labeled[idx].pillcam
      && after.labeled[idx].flags == MergedFlags(entry)
      && after.labeled[idx].klass == Some(UpdateClass(entry))
      && after.labeled[idx].labelDate == Some(now)
      && (forall j :: 0 <= j < idx ==> !HasFrame(t.labeled[j], key))
  {
  }

  /** Promotion: exactly one row is appended and every unlabeled row of the frame is dropped, the rest kept in order. */
  lemma PromoteBranch(t: Tables, key: Key, entry: Entry, now: string)
    requires FindFrame(t.labeled, key).None?
    ensures var after := MergeStep(t, key, entry, now);
      && after.labeled == t.labeled + [Promoted(key, entry, now)]
      && (forall r :: r in after.unlabeled <==> r in t.unlabeled && !HasFrame(r, key))
      && IsSubsequence(after.unlabeled, t.unlabeled)
  {
    FilterIsSubsequence(t.unlabeled, OtherFrame(key));
  }

  /** After one step the frame is labeled, and the labeled names grow by exactly that frame. */
  lemma StepNames(t: Tables, key: Key, entry: Entry, now: string)
    ensures var after := MergeStep(t, key, entry, now);
      Names(after.labeled) == Names(t.labeled) + (if key.Some? then {key.value} else {})
  {
    match FindFrame(t.labeled, key)
    case Some(idx) =>
      NamesReplace(t.labeled, idx, Relabeled(t.labeled[idx], entry, now));
      assert t.labeled[idx] in t.labeled;
    case None =>
      NamesAppend(t.labeled, [Promoted(key, entry, now)]);
  }

  /** One step keeps every frame name unique across both tables. */
  lemma StepKeepsUnique(t: Tables, key: Key, entry: Entry, now: string)
    requires Unique(t.labeled + t.unlabeled)
    ensures var after := MergeStep(t, key, entry, now); Unique(after.labeled + after.unlabeled)
  {
    if FindFrame(t.labeled, key).Some? {
      UpdateKeepsUnique(t, key, entry, now);
    } else {
      PromoteKeepsUnique(t, key, entry, now);
    }
  }

  lemma UpdateKeepsUnique(t: Tables, key: Key, entry: Entry, now: string)
    requires Unique(t.labeled + t.unlabeled) && FindFrame(t.labeled, key).Some?
    ensures var after := MergeStep(t, key, entry, now); Unique(after.labeled + after.unlabeled)
  {
    var idx := FindFrame(t.labeled, key).value;
    var r := Relabeled(t.labeled[idx], entry, now);
    UniqueReplace(t.labeled + t.unlabeled, idx, r);
    assert (t.labeled + t.unlabeled)[idx := r] == t.labeled[idx := r] + t.unlabeled;
  }

  lemma PromoteKeepsUnique(t: Tables, key: Key, entry: Entry, now: string)
    requires Unique(t.labeled + t.unlabeled) && FindFrame(t.labeled, key).None?
    ensures var after := MergeStep(t, key, entry, now); Unique(after.labeled + after.unlabeled)
  {
    UniqueAppend(t.labeled, t.unlabeled);
    var p := Promoted(key, entry, now);
    var w := WithoutFrame(t.unlabeled, key);
    assert Unique([p] + w) && Names([p] + w) <= Names(t.unlabeled) + (if key.Some? then {key.value} else {}) by {
      UniqueFilter(t.unlabeled, OtherFrame(key));
      NamesOfFilter(t.unlabeled, OtherFrame(key));
      assert Names([p]) <= (if key.Some? then {key.value} else {});
      if key.Some? {
        WithoutFrameNames(t.unlabeled, key);
      }
      UniqueAppend([p], w);
      NamesAppend([p], w);
    }
    if key.Some? {
      FindFrameNames(t.labeled, key);
      WithoutFrameNames(t.unlabeled, key);
    }
    assert Names(t.labeled) !! Names([p] + w);
    UniqueAppend(t.labeled, [p] + w);
    assert t.labeled + [p] + w == t.labeled + ([p] + w);
  }

  /** After one step no unlabeled row carries the frame, provided the tables were disjoint. */
  lemma StepRemovesFromUnlabeled(t: Tables, key: Key, entry: Entry, now: string)
    requires Unique(t.labeled + t.unlabeled) && key.Some?
    ensures key.value !in Names(MergeStep(t, key, entry, now).unlabeled)
  {
    UniqueAppend(t.labeled, t.unlabeled);
    FindFrameNames(t.labeled, key);
    WithoutFrameNames(t.unlabeled, key);
  }

  /** A step only ever removes unlabeled rows. */
  lemma StepShrinksUnlabeled(t: Tables, key: Key, entry: Entry, now: string)
    ensures forall r :: r in MergeStep(t, key, entry, now).unlabeled ==> r in t.unlabeled
  {
  }

  // ---------------------------------------------------------------- the whole merge

  /** Merging an empty buffer changes neither table. */
  lemma MergeEmptyBuffer(t: Tables, now: string)
    ensures MergeAll(t, [], now) == t
  {
  }

  /** Labeled names only grow during a merge. */
  lemma {:induction false} MergeKeepsLabeledNames(t: Tables, buffer: Buffer, now: string)
    ensures Names(t.labeled) <= Names(MergeAll(t, buffer, now).labeled)
    decreases |buffer|
  {
    if buffer != [] {
      StepNames(t, buffer[0].0, buffer[0].1, now);
      MergeKeepsLabeledNames(MergeStep(t, buffer[0].0, buffer[0].1, now), buffer[1..], now);
    }
  }

  /** Unlabeled rows only disappear during a merge. */
  lemma {:induction false} MergeShrinksUnlabeled(t: Tables, buffer: Buffer, now: string)
    ensures forall r :: r in MergeAll(t, buffer, now).unlabeled ==> r in t.unlabeled
    decreases |buffer|
  {
    if buffer != [] {
      StepShrinksUnlabeled(t, buffer[0].0, buffer[0].1, now);
      MergeShrinksUnlabeled(MergeStep(t, buffer[0].0, buffer[0].1, now), buffer[1..], now);
    }
  }

  /** After the merge every buffered frame is in the labeled table. */
  lemma {:induction false} MergeLabelsEveryBufferedFrame(t: Tables, buffer: Buffer, now: string)
    ensures forall i :: 0 <= i < |buffer| && buffer[i].0.Some? ==>
      buffer[i].0.value in Names(MergeAll(t, buffer, now).labeled)
    decreases |buffer|
  {
    if buffer != [] {
      var next := MergeStep(t, buffer[0].0, buffer[0].1, now);
      StepNames(t, buffer[0].0, buffer[0].1, now);
      MergeKeepsLabeledNames(next, buffer[1..], now);
      MergeLabelsEveryBufferedFrame(next, buffer[1..], now);
      forall i | 1 <= i < |buffer| ensures buffer[i] == buffer[1..][i - 1] {
      }
    }
  }

  /** A merge keeps every frame name unique across both tables. */
  lemma {:induction false} MergeKeepsUnique(t: Tables, buffer: Buffer, now: string)
    requires Unique(t.labeled + t.unlabeled)
    ensures var after := MergeAll(t, buffer, now); Unique(after.labeled + after.unlabeled)
    decreases |buffer|
  {
    if buffer != [] {
      StepKeepsUnique(t, buffer[0].0, buffer[0].1, now);
      MergeKeepsUnique(MergeStep(t, buffer[0].0, buffer[0].1, now), buffer[1..], now);
    }
  }

  /** Starting from disjoint tables, no buffered frame is left in the unlabeled table. */
  lemma {:induction false} MergeEmptiesUnlabeledOfBufferedFrames(t: Tables, buffer: Buffer, now: string)
    requires Unique(t.labeled + t.unlabeled)
    ensures forall i :: 0 <= i < |buffer| && buffer[i].0.Some? ==>
      buffer[i].0.value !in Names(MergeAll(t, buffer, now).unlabeled)
    decreases |buffer|
  {
    if buffer != [] {
      var next := MergeStep(t, buffer[0].0, buffer[0].1, now);
      StepKeepsUnique(t, buffer[0].0, buffer[0].1, now);
      if buffer[0].0.Some? {
        StepRemovesFromUnlabeled(t, buffer[0].0, buffer[0].1, now);
      }
      MergeShrinksUnlabeled(next, buffer[1..], now);
      MergeEmptiesUnlabeledOfBufferedFrames(next, buffer[1..], now);
      forall i | 1 <= i < |buffer| ensures buffer[i] == buffer[1..][i - 1] {
      }
    }
  }

  /** A full entry's label cells are its own values. */
  lemma MergedFlagsOfFullEntry(entry: Entry)
    requires IsFullEntry(entry)
    ensures var v := Values(entry); MergedFlags(entry) == [Some(v[0]), Some(v[1]), Some(v[2]), Some(v[3]), Some(v[4])]
  {
    var v := Values(entry);
    LabelColumnsDistinct();
    FullEntryIsPairs(entry);
    forall i | 0 <= i < 5 ensures Get(entry, LabelColumns[i], 0) == v[i] {
      GetOfPairs(LabelColumns, v, i, 0);
    }
  }

  /** A full 0/1 entry writes rows whose class cell is exactly what their label cells denote. */
  lemma FullEntryRowsConsistent(r: Record, key: Key, entry: Entry, now: string)
    requires IsFullEntry(entry)
    ensures ClassConsistent(Relabeled(r, entry, now))
    ensures ClassConsistent(Promoted(key, entry, now))
  {
    var v := Values(entry);
    MergedFlagsOfFullEntry(entry);
    ClassOfFullEntry(entry);
    FlagValuesOfCells(Promoted(key, entry, now), v);
    FlagValuesOfCells(Relabeled(r, entry, now), v);
  }
}
