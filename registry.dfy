/**
 * The registry reconciler: files found in the frames folder that neither
 * table knows are appended to the unlabeled table.
 */
module Registry {
  import opened Wrappers
  import opened FrameTable

  /** A file listed in the frames folder: (file id, file name). */
  type FileEntry = (string, string)

  /** The row appended for a newly found file: only its frame cell is filled. */
  function Discovered(name: string): (r: Record)
    ensures HasFrame(r, Some(name))
  {
    Record(Some(name), [None, None, None, None, None], None, None, None, None)
  }

  /** The `file_name` of each `(file_id, file_name)` listing entry, in listing order. */
  function FileNames(files: seq<FileEntry>): (names: seq<string>)
    ensures |names| == |files| && forall i :: 0 <= i < |files| ==> names[i] == files[i].1
  {
    seq(|files|, i requires 0 <= i < |files| => files[i].1)
  }

  /**
   * The rows appended for the files whose name is not in `known`, in listing
   * order; `known` is computed once, so a new name listed twice is appended twice.
   */
  function NewRows(known: set<string>, files: seq<FileEntry>): (rows: seq<Record>)
    ensures |rows| <= |files|
    ensures forall r :: r in rows ==> r.frame.Some? && r == Discovered(r.frame.value) && r.frame.value !in known
  {
    if files == [] then []
    else (if files[0].1 !in known then [Discovered(files[0].1)] else []) + NewRows(known, files[1..])
  }

  /** A name is appended exactly when it is listed and not known. */
  lemma {:induction false} NewRowsNames(known: set<string>, files: seq<FileEntry>)
    ensures forall name :: name in Names(NewRows(known, files)) <==> name in FileNames(files) && name !in known
  {
    if files != [] {
      var head := if files[0].1 !in known then [Discovered(files[0].1)] else [];
      NewRowsNames(known, files[1..]);
      NamesAppend(head, NewRows(known, files[1..]));
      assert FileNames(files) == [files[0].1] + FileNames(files[1..]);
    }
  }

  lemma NewRowsFrom(known: set<string>, files: seq<FileEntry>, i: nat)
    requires i < |files|
    ensures NewRows(known, files[i..])
         == (if files[i].1 !in known then [Discovered(files[i].1)] else []) + NewRows(known, files[i + 1..])
  {
    assert files[i..][0] == files[i] && files[i..][1..] == files[i + 1..];
  }

  /** One loop iteration of `sync_unlabeled` keeps the accumulated rows a prefix of the answer. */
  lemma AppendStep(acc: seq<Record>, known: set<string>, files: seq<FileEntry>, i: nat)
    requires i < |files|
    ensures acc + NewRows(known, files[i..])
         == acc + (if files[i].1 !in known then [Discovered(files[i].1)] else []) + NewRows(known, files[i + 1..])
  {
    NewRowsFrom(known, files, i);
  }

  /** `sync_unlabeled`: the labeled table is only read; the result is the new unlabeled table. */
  method SyncUnlabeled(labeled: seq<Record>, unlabeled: seq<Record>, files: seq<FileEntry>)
    returns (result: seq<Record>)
    ensures result == unlabeled + NewRows(Names(labeled) + Names(unlabeled), files)
  {
    var existingFrames := Names(labeled);
    var unlabeledFrames := Names(unlabeled);
    ghost var known := existingFrames + unlabeledFrames;
    var newRecords: seq<Record> := [];
    for i := 0 to |files|
      invariant newRecords + NewRows(known, files[i..]) == NewRows(known, files)
    {
      var name := files[i].1;
      var isNew := name !in existingFrames && name !in unlabeledFrames;
      assert isNew <==> name !in known;
      AppendStep(newRecords, known, files, i);
      if isNew {
        newRecords := newRecords + [Discovered(name)];
      }
    }
    assert files[|files|..] == [];
    if newRecords != [] {
      result := unlabeled + newRecords;
    } else {
      result := unlabeled;
    }
  }

  lemma {:induction false} NoNewRows(known: set<string>, files: seq<FileEntry>)
    requires forall i :: 0 <= i < |files| ==> files[i].1 in known
    ensures NewRows(known, files) == []
  {
    if files != [] {
      NoNewRows(known, files[1..]);
    }
  }

  /** Reconciling twice with the same listing adds nothing the second time. */
  lemma SyncIdempotent(labeled: seq<Record>, unlabeled: seq<Record>, files: seq<FileEntry>)
    ensures var once := unlabeled + NewRows(Names(labeled) + Names(unlabeled), files);
      NewRows(Names(labeled) + Names(once), files) == []
  {
    var known := Names(labeled) + Names(unlabeled);
    var added := NewRows(known, files);
    var once := unlabeled + added;
    NamesAppend(unlabeled, added);
    NewRowsNames(known, files);
    forall i | 0 <= i < |files| ensures files[i].1 in Names(labeled) + Names(once) {
      assert FileNames(files)[i] == files[i].1;
    }
    NoNewRows(Names(labeled) + Names(once), files);
  }

  /** Rows whose frame cell is empty do not make any name known. */
  lemma NullFramesAreNotKnown(labeled: seq<Record>, unlabeled: seq<Record>, nulls: seq<Record>,
                              files: seq<FileEntry>)
    requires forall r :: r in nulls ==> r.frame.None?
    ensures NewRows(Names(labeled) + Names(unlabeled + nulls), files)
         == NewRows(Names(labeled) + Names(unlabeled), files)
  {
    NamesAppend(unlabeled, nulls);
    assert Names(nulls) == {};
  }

  /** New names listed once each keep frame names unique across both tables. */
  lemma SyncKeepsUnique(labeled: seq<Record>, unlabeled: seq<Record>, files: seq<FileEntry>)
    requires Unique(labeled + unlabeled)
    requires forall i, j :: 0 <= i < j < |files| ==> files[i].1 != files[j].1
    ensures Unique(labeled + unlabeled + NewRows(Names(labeled) + Names(unlabeled), files))
  {
    var known := Names(labeled) + Names(unlabeled);
    NamesAppend(labeled, unlabeled);
    NewRowsUnique(known, files);
    UniqueAppend(labeled + unlabeled, NewRows(known, files));
  }

  lemma {:induction false} NewRowsUnique(known: set<string>, files: seq<FileEntry>)
    requires forall i, j :: 0 <= i < j < |files| ==> files[i].1 != files[j].1
    ensures Unique(NewRows(known, files))
  {
    if files != [] {
      var head := if files[0].1 !in known then [Discovered(files[0].1)] else [];
      var rest := NewRows(known, files[1..]);
      NewRowsUnique(known, files[1..]);
      NewRowsNames(known, files[1..]);
      forall i | 0 <= i < |FileNames(files[1..])| ensures FileNames(files[1..])[i] != files[0].1 {
        assert files[1..][i] == files[i + 1];
      }
      assert files[0].1 !in Names(rest);
      assert Names(head) <= {files[0].1};
      UniqueAppend(head, rest);
    }
  }

  /** A new name listed twice is appended twice, so uniqueness then fails. */
  lemma RepeatedNameAppendedTwice()
    ensures NewRows({}, [("id1", "a.png"), ("id2", "a.png")]) == [Discovered("a.png"), Discovered("a.png")]
    ensures !Unique(NewRows({}, [("id1", "a.png"), ("id2", "a.png")]))
  {
    var files: seq<FileEntry> := [("id1", "a.png"), ("id2", "a.png")];
    assert files[1..] == [("id2", "a.png")];
    assert files[1..][1..] == [];
    var rows := NewRows({}, files);
    assert rows[0].frame == rows[1].frame;
  }
}
