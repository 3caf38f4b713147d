/**
 * One complete labeling session on a fresh folder: two frames are found,
 * one is labeled Ulcer, the other is saved with no label.
 */
module Scenario {
  import opened Wrappers
  import opened Sequences
  import opened Labels
  import opened FrameTable
  import opened Registry
  import opened Merge

  const Files: seq<FileEntry> := [("id1", "f1.png"), ("id2", "f2.png")]
  const Edits: Buffer := [(Some("f1.png"), [("Ulcer", 1)]), (Some("f2.png"), [])]
  const Now := "2025-01-01 12:00:00"

  /** The labeled row of f1.png after the save: only Ulcer set, class "Ulcer", empty movie and pillcam. */
  function Row1(): Record
  {
    Record(Some("f1.png"), [Some(0), Some(0), Some(0), Some(0), Some(1)], Some("Ulcer"), Some(""), Some(""), Some(Now))
  }

  /** The labeled row of f2.png after the save: no label set and an empty class. */
  function Row2(): Record
  {
    Record(Some("f2.png"), [Some(0), Some(0), Some(0), Some(0), Some(0)], Some(""), Some(""), Some(""), Some(Now))
  }

  lemma DiscoverBoth()
    ensures NewRows({}, Files) == [Discovered("f1.png"), Discovered("f2.png")]
  {
    assert Files[1..][1..] == [];
    assert NewRows({}, Files[1..]) == [Discovered("f2.png")];
  }

  lemma PromoteFirst()
    ensures MergeStep(Tables([], [Discovered("f1.png"), Discovered("f2.png")]), Edits[0].0, Edits[0].1, Now)
         == Tables([Row1()], [Discovered("f2.png")])
  {
    var d1, d2 := Discovered("f1.png"), Discovered("f2.png");
    assert Promoted(Some("f1.png"), Edits[0].1, Now) == Row1() by {
      assert Assigned([("Ulcer", 1)]) == ["Ulcer"] + Assigned([]);
    }
    assert "f1.png"[1] != "f2.png"[1];
    var keep := OtherFrame(Some("f1.png"));
    assert !keep(d1) && keep(d2);
    assert [d1, d2][1..] == [d2];
    assert [d2][1..] == [];
    assert Filter([d2], keep) == [d2] + Filter([], keep);
  }

  lemma PromoteSecond()
    ensures MergeStep(Tables([Row1()], [Discovered("f2.png")]), Edits[1].0, Edits[1].1, Now)
         == Tables([Row1(), Row2()], [])
  {
    assert "f1.png"[1] != "f2.png"[1];
    assert FindFrame([Row1()], Some("f2.png")).None?;
    assert [Discovered("f2.png")][1..] == [];
  }

  /** Both files become unlabeled rows; after saving, both are labeled, in buffer order, and none is left unlabeled. */
  lemma FreshFolderSession()
    ensures NewRows({}, Files) == [Discovered("f1.png"), Discovered("f2.png")]
    ensures var after := MergeAll(Tables([], NewRows({}, Files)), Edits, Now);
      && after.unlabeled == []
      && after.labeled == [Row1(), Row2()]
  {
    DiscoverBoth();
    PromoteFirst();
    PromoteSecond();
    var t0 := Tables([], [Discovered("f1.png"), Discovered("f2.png")]);
    var t1 := Tables([Row1()], [Discovered("f2.png")]);
    assert MergeAll(t0, Edits, Now) == MergeAll(t1, Edits[1..], Now);
    assert Edits[1..][1..] == [];
    assert MergeAll(t1, Edits[1..], Now) == Tables([Row1(), Row2()], []);
  }
}
