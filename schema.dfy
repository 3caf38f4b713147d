/**
 * The schema normaliser: a table read from a spreadsheet gets every required
 * column, an added column being empty in every row.
 */
module Schema {
  import opened Wrappers
  import opened Labels
  import opened FrameTable

  const BaseColumns: seq<string> := ["frame", "class", "movie", "pillcam", "label_date"]

  /** The columns every table must have, in the order they are added. */
  const RequiredColumns: seq<string> := BaseColumns + LabelColumns

  /** A table: its column names, in order, and its rows. */
  datatype Table = Table(columns: seq<string>, rows: seq<Record>)

  /** A spreadsheet cell. */
  datatype Cell = Null | Text(text: string) | Number(number: int)

  function TextCell(v: Option<string>): Cell
  {
    if v.Some? then Text(v.value) else Null
  }

  function NumberCell(v: Option<int>): Cell
  {
    if v.Some? then Number(v.value) else Null
  }

  /** The cell of a row under one of the required columns (`Null` under any other name). */
  function CellAt(r: Record, column: string): Cell
  {
    if column == "frame" then TextCell(r.frame)
    else if column == "class" then TextCell(r.klass)
    else if column == "movie" then TextCell(r.movie)
    else if column == "pillcam" then TextCell(r.pillcam)
    else if column == "label_date" then TextCell(r.labelDate)
    else if column == "Junk" then NumberCell(r.flags[0])
    else if column == "LowQuality" then NumberCell(r.flags[1])
    else if column == "Normal" then NumberCell(r.flags[2])
    else if column == "Stricture" then NumberCell(r.flags[3])
    else if column == "Ulcer" then NumberCell(r.flags[4])
    else Null
  }

  /** A required column the table lacks is empty in every row. */
  ghost predicate Conforms(t: Table)
  {
    forall c, r :: c in RequiredColumns && c !in t.columns && r in t.rows ==> CellAt(r, c) == Null
  }

  /** The names of `required` absent from `columns`, in the order of `required`. */
  function MissingColumns(required: seq<string>, columns: seq<string>): (m: seq<string>)
    ensures forall c :: c in m <==> c in required && c !in columns
  {
    if required == [] then []
    else (if required[0] !in columns then [required[0]] else []) + MissingColumns(required[1..], columns)
  }

  lemma {:induction false} MissingColumnsSnoc(required: seq<string>, c: string, columns: seq<string>)
    ensures MissingColumns(required + [c], columns)
         == MissingColumns(required, columns) + (if c !in columns then [c] else [])
  {
    if required == [] {
      assert required + [c] == [c];
    } else {
      assert (required + [c])[0] == required[0];
      assert (required + [c])[1..] == required[1..] + [c];
      MissingColumnsSnoc(required[1..], c, columns);
    }
  }

  lemma RequiredColumnsDistinct()
    ensures Distinct(RequiredColumns)
  {
  }

  /** One pass of the loop: the column at `i` is new exactly when the original table lacks it. */
  lemma EnsureColumnsStep(columns: seq<string>, i: nat)
    requires i < |RequiredColumns|
    ensures var before := columns + MissingColumns(RequiredColumns[..i], columns);
      (RequiredColumns[i] in before <==> RequiredColumns[i] in columns)
    ensures MissingColumns(RequiredColumns[..i + 1], columns)
         == MissingColumns(RequiredColumns[..i], columns) + (if RequiredColumns[i] !in columns then [RequiredColumns[i]] else [])
  {
    RequiredColumnsDistinct();
    var col := RequiredColumns[i];
    assert col !in RequiredColumns[..i] by {
      forall k | 0 <= k < i ensures RequiredColumns[..i][k] != col {
        assert RequiredColumns[..i][k] == RequiredColumns[k];
      }
    }
    assert RequiredColumns[..i + 1] == RequiredColumns[..i] + [col];
    MissingColumnsSnoc(RequiredColumns[..i], col, columns);
  }

  /** `ensure_columns`: append each required column the table lacks; rows are left as they are. */
  method EnsureColumns(t: Table) returns (r: Table)
    ensures r.columns == t.columns + MissingColumns(RequiredColumns, t.columns)
    ensures r.rows == t.rows
  {
    var columns := t.columns;
    for i := 0 to |RequiredColumns|
      invariant columns == t.columns + MissingColumns(RequiredColumns[..i], t.columns)
    {
      EnsureColumnsStep(t.columns, i);
      if RequiredColumns[i] !in columns {
        columns := columns + [RequiredColumns[i]];
      }
    }
    assert RequiredColumns[..|RequiredColumns|] == RequiredColumns;
    r := Table(columns, t.rows);
  }

  /** The columns that normalisation adds are empty in every row of a conforming table. */
  lemma AddedColumnsAreNull(t: Table, c: string, row: Record)
    requires Conforms(t)
    requires c in MissingColumns(RequiredColumns, t.columns) && row in t.rows
    ensures CellAt(row, c) == Null
  {
  }

  /** After normalisation every required column is present and the old columns keep their order. */
  lemma EnsureColumnsComplete(columns: seq<string>)
    ensures var normalised := columns + MissingColumns(RequiredColumns, columns);
      && (forall c :: c in RequiredColumns ==> c in normalised)
      && normalised[..|columns|] == columns
  {
  }

  lemma {:induction false} NothingMissing(required: seq<string>, columns: seq<string>)
    requires forall c :: c in required ==> c in columns
    ensures MissingColumns(required, columns) == []
  {
    if required != [] {
      assert required[0] in required;
      NothingMissing(required[1..], columns);
    }
  }

  /** Normalising a normalised table adds nothing. */
  lemma EnsureColumnsIdempotent(columns: seq<string>)
    ensures var normalised := columns + MissingColumns(RequiredColumns, columns);
      MissingColumns(RequiredColumns, normalised) == []
  {
    var normalised := columns + MissingColumns(RequiredColumns, columns);
    var again := MissingColumns(RequiredColumns, normalised);
    NothingMissing(RequiredColumns, normalised);
  }
}
