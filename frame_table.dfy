/**
 * One row of the labeled or the unlabeled table, and the facts about frame
 * names that the reconciler and the merge keep.
 */
module FrameTable {
  import opened Wrappers
  import opened Labels

  /** The five label cells of a row, in `LabelColumns` order; `None` is an empty (NaN) cell. */
  type Flags = s: seq<Option<int>> | |s| == 5 witness [None, None, None, None, None]

  /** A table row. Every optional field is `None` where the cell is empty. */
  datatype Record = Record(
    frame: Option<string>,
    flags: Flags,
    klass: Option<string>,
    movie: Option<string>,
    pillcam: Option<string>,
    labelDate: Option<string>)

  /** A frame name as a dictionary key; `None` stands for a NaN frame cell. */
  type Key = Option<string>

  /** `row['frame'] == key` as pandas evaluates it: an empty cell never matches. */
  predicate HasFrame(r: Record, key: Key)
    ensures HasFrame(r, key) ==> key.Some? && r.frame == key
    ensures key.Some? && r.frame == key ==> HasFrame(r, key)
    ensures r.frame.None? ==> !HasFrame(r, key)
  {
    r.frame.Some? && r.frame == key
  }

  /** The frame names present in a table, empty cells left out (`df['frame'].dropna().unique()`). */
  function Names(rows: seq<Record>): (names: set<string>)
    ensures rows == [] ==> names == {}
  {
    set r | r in rows && r.frame.Some? :: r.frame.value
  }

  /** No frame name occurs twice; rows with an empty frame cell are not compared. */
  ghost predicate Unique(rows: seq<Record>)
  {
    forall i, j :: 0 <= i < j < |rows| && rows[i].frame.Some? ==> rows[i].frame != rows[j].frame
  }

  /** The flag value 1 when the cell holds 1, else 0 (`1 if val == 1 else 0`). */
  function Normalised(cell: Option<int>): (v: int)
    ensures v == 0 || v == 1
    ensures cell.None? ==> v == 0
    ensures v == 1 <==> cell == Some(1)
  {
    if cell == Some(1) then 1 else 0
  }

  /** The 0/1 reading of a row's five label cells. */
  function FlagValues(r: Record): (v: seq<int>)
    ensures |v| == |LabelColumns| && ZeroOne(v)
    ensures forall i :: 0 <= i < |v| ==> (v[i] == 1 <==> r.flags[i] == Some(1))
  {
    [Normalised(r.flags[0]), Normalised(r.flags[1]), Normalised(r.flags[2]),
     Normalised(r.flags[3]), Normalised(r.flags[4])]
  }

  /** The row's class cell is exactly the class its label cells denote. */
  predicate ClassConsistent(r: Record)
  {
    r.klass == Some(ClassText(FlagValues(r)))
  }

  /** Label cells holding 0/1 values read back as those values. */
  lemma FlagValuesOfCells(r: Record, v: seq<int>)
    requires |v| == |LabelColumns| && ZeroOne(v)
    requires r.flags == [Some(v[0]), Some(v[1]), Some(v[2]), Some(v[3]), Some(v[4])]
    ensures FlagValues(r) == v
  {
  }

  lemma NamesAppend(a: seq<Record>, b: seq<Record>)
    ensures Names(a + b) == Names(a) + Names(b)
  {
    assert forall r :: r in a + b <==> r in a || r in b;
  }

  /** A frame name is in `Names(rows)` exactly when some row carries it. */
  lemma NamesMember(rows: seq<Record>, name: string)
    ensures name in Names(rows) <==> exists i :: 0 <= i < |rows| && HasFrame(rows[i], Some(name))
  {
    if name in Names(rows) {
      var r :| r in rows && r.frame == Some(name);
      var i :| 0 <= i < |rows| && rows[i] == r;
      assert HasFrame(rows[i], Some(name));
    }
  }

  /** Uniqueness of a concatenation: each part unique and no name shared between them. */
  lemma UniqueAppend(a: seq<Record>, b: seq<Record>)
    ensures Unique(a + b) <==> Unique(a) && Unique(b) && Names(a) !! Names(b)
  {
    var ab := a + b;
    if Unique(ab) {
      assert Unique(a) by {
        forall i, j | 0 <= i < j < |a| && a[i].frame.Some? ensures a[i].frame != a[j].frame {
          assert ab[i] == a[i] && ab[j] == a[j];
        }
      }
      assert Unique(b) by {
        forall i, j | 0 <= i < j < |b| && b[i].frame.Some? ensures b[i].frame != b[j].frame {
          assert ab[|a| + i] == b[i] && ab[|a| + j] == b[j];
        }
      }
      forall x | x in Names(a) ensures x !in Names(b) {
        NamesMember(a, x);
        NamesMember(b, x);
        var i :| 0 <= i < |a| && HasFrame(a[i], Some(x));
        forall j | 0 <= j < |b| ensures !HasFrame(b[j], Some(x)) {
          assert ab[i] == a[i] && ab[|a| + j] == b[j];
        }
      }
    }
    if Unique(a) && Unique(b) && Names(a) !! Names(b) {
      forall i, j | 0 <= i < j < |ab| && ab[i].frame.Some? ensures ab[i].frame != ab[j].frame {
        if j < |a| {
          assert ab[i] == a[i] && ab[j] == a[j];
        } else if i >= |a| {
          assert ab[i] == b[i - |a|] && ab[j] == b[j - |a|];
        } else {
          assert ab[i] == a[i] && ab[j] == b[j - |a|];
          assert a[i].frame.value in Names(a);
          if b[j - |a|].frame.Some? {
            assert b[j - |a|] in b;
            assert b[j - |a|].frame.value in Names(b);
          }
        }
      }
    }
  }
}
