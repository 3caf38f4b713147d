/**
 * The label vocabulary and the derivation of the denormalised `class` string
 * from a dictionary of label values.
 */
module Labels {

  /** The label columns of both tables, in their fixed order. */
  const LabelColumns: seq<string> := ["Junk", "LowQuality", "Normal", "Stricture", "Ulcer"]

  /** One label of the vocabulary; `Index` is its position in `LabelColumns`. */
  datatype Label = Junk | LowQuality | Normal | Stricture | Ulcer {
    /** The label's column name. */
    function Name(): string
    {
      match this
      case Junk => "Junk"
      case LowQuality => "LowQuality"
      case Normal => "Normal"
      case Stricture => "Stricture"
      case Ulcer => "Ulcer"
    }

    function Index(): (i: nat)
      ensures i < |LabelColumns| && LabelColumns[i] == Name()
    {
      match this
      case Junk => 0
      case LowQuality => 1
      case Normal => 2
      case Stricture => 3
      case Ulcer => 4
    }
  }

  /** A dictionary from label name to value, with its keys in insertion order. */
  type Entry = seq<(string, int)>

  /** `entry.get(key, default)`. */
  function Get(entry: Entry, key: string, default: int): (v: int)
    ensures (key, v) in entry || (v == default && forall p :: p in entry ==> p.0 != key)
  {
    if entry == [] then default
    else if entry[0].0 == key then entry[0].1
    else Get(entry[1..], key, default)
  }

  /** `[k for k, v in entry.items() if v == 1]`: the keys whose value is 1, in key order. */
  function Assigned(entry: Entry): (active: seq<string>)
    ensures |active| <= |entry|
    ensures forall x :: x in active <==> (x, 1) in entry
  {
    if entry == [] then []
    else (if entry[0].1 == 1 then [entry[0].0] else []) + Assigned(entry[1..])
  }

  /** `",".join(parts)`. */
  function Join(parts: seq<string>): (r: string)
    ensures |parts| > 1 ==> ',' in r
    ensures |parts| > 0 ==> |parts[0]| <= |r|
  {
    if |parts| == 0 then ""
    else if |parts| == 1 then parts[0]
    else parts[0] + "," + Join(parts[1..])
  }

  /** The class string written when an already labeled row is updated: three cases on the active keys. */
  function UpdateClass(entry: Entry): (c: string)
    ensures c == Join(Assigned(entry))
  {
    var active := Assigned(entry);
    if |active| == 1 then active[0]
    else if |active| > 1 then Join(active)
    else ""
  }

  /** The class string written when a frame is promoted into the labeled table. */
  function PromoteClass(entry: Entry): (c: string)
    ensures c == UpdateClass(entry)
  {
    var active := Assigned(entry);
    if |active| > 0 then Join(active) else ""
  }

  /** Both merge branches derive the same class string from the same dictionary. */
  lemma SameClassOnBothBranches(entry: Entry)
    ensures UpdateClass(entry) == PromoteClass(entry)
  {
  }

  /** The dictionary with keys `names`, in that order, and values `values`. */
  function Pairs(names: seq<string>, values: seq<int>): (e: Entry)
    requires |names| == |values|
    ensures |e| == |names|
    ensures forall i :: 0 <= i < |e| ==> e[i] == (names[i], values[i])
  {
    if names == [] then [] else [(names[0], values[0])] + Pairs(names[1..], values[1..])
  }

  /** The names whose value is 1, in the order of `names`. */
  function ActiveNames(names: seq<string>, values: seq<int>): seq<string>
    requires |names| == |values|
  {
    if names == [] then []
    else (if values[0] == 1 then [names[0]] else []) + ActiveNames(names[1..], values[1..])
  }

  /** The class that a full set of label values denotes: active label names joined by commas. */
  function ClassText(values: seq<int>): string
    requires |values| == |LabelColumns|
  {
    Join(ActiveNames(LabelColumns, values))
  }

  predicate Distinct(names: seq<string>)
  {
    forall i, j :: 0 <= i < j < |names| ==> names[i] != names[j]
  }

  predicate ZeroOne(values: seq<int>)
  {
    forall i :: 0 <= i < |values| ==> values[i] == 0 || values[i] == 1
  }

  /** A full edit-buffer entry: every label of the vocabulary, in order, with a 0/1 value. */
  predicate IsFullEntry(entry: Entry)
  {
    && |entry| == |LabelColumns|
    && (forall i :: 0 <= i < |entry| ==> entry[i].0 == LabelColumns[i])
    && (forall i :: 0 <= i < |entry| ==> entry[i].1 == 0 || entry[i].1 == 1)
  }

  /** The values of an entry, in key order. */
  function Values(entry: Entry): (v: seq<int>)
    ensures |v| == |entry| && forall i :: 0 <= i < |entry| ==> v[i] == entry[i].1
  {
    seq(|entry|, i requires 0 <= i < |entry| => entry[i].1)
  }

  lemma LabelColumnsDistinct()
    ensures Distinct(LabelColumns)
    ensures forall i :: 0 <= i < |LabelColumns| ==> LabelColumns[i] != "" && ',' !in LabelColumns[i]
  {
  }

  lemma {:induction false} AssignedOfPairs(names: seq<string>, values: seq<int>)
    requires |names| == |values|
    ensures Assigned(Pairs(names, values)) == ActiveNames(names, values)
  {
    if names != [] {
      var e := Pairs(names, values);
      assert e[1..] == Pairs(names[1..], values[1..]);
      AssignedOfPairs(names[1..], values[1..]);
    }
  }

  /** Looking a label up in a dictionary with distinct keys gives that label's value. */
  lemma {:induction false} GetOfPairs(names: seq<string>, values: seq<int>, i: nat, default: int)
    requires |names| == |values| && Distinct(names) && i < |names|
    ensures Get(Pairs(names, values), names[i], default) == values[i]
  {
    var e := Pairs(names, values);
    if i > 0 {
      assert names[0] != names[i];
      assert e[1..] == Pairs(names[1..], values[1..]);
      assert names[1..][i - 1] == names[i];
      GetOfPairs(names[1..], values[1..], i - 1, default);
    }
  }

  /** A full entry is the dictionary built from its own values. */
  lemma FullEntryIsPairs(entry: Entry)
    requires IsFullEntry(entry)
    ensures entry == Pairs(LabelColumns, Values(entry))
  {
  }

  /** Every active name is one of the names. */
  lemma {:induction false} ActiveNamesAmong(names: seq<string>, values: seq<int>)
    requires |names| == |values|
    ensures forall x :: x in ActiveNames(names, values) ==> x in names
  {
    if names != [] {
      ActiveNamesAmong(names[1..], values[1..]);
    }
  }

  /** With distinct names, the first name is active exactly when its value is 1. */
  lemma HeadIsActive(names: seq<string>, values: seq<int>)
    requires |names| == |values| > 0 && names[0] !in names[1..]
    ensures var a := ActiveNames(names, values); (a != [] && a[0] == names[0]) <==> values[0] == 1
  {
    var t := ActiveNames(names[1..], values[1..]);
    ActiveNamesAmong(names[1..], values[1..]);
    if t != [] {
      assert t[0] in t;
    }
  }

  /** Over distinct names and 0/1 values, the active names determine the values. */
  lemma {:induction false} ActiveNamesInjective(names: seq<string>, v: seq<int>, w: seq<int>)
    requires |names| == |v| == |w| && Distinct(names) && ZeroOne(v) && ZeroOne(w)
    requires ActiveNames(names, v) == ActiveNames(names, w)
    ensures v == w
  {
    if names != [] {
      var rv, rw := ActiveNames(names[1..], v[1..]), ActiveNames(names[1..], w[1..]);
      ActiveNamesAmong(names[1..], v[1..]);
      ActiveNamesAmong(names[1..], w[1..]);
      assert names[0] !in names[1..] by {
        forall k | 0 <= k < |names[1..]| ensures names[1..][k] != names[0] {
          assert names[1..][k] == names[k + 1];
        }
      }
      HeadIsActive(names, v);
      HeadIsActive(names, w);
      assert v[0] == w[0];
      assert ActiveNames(names, v) == (if v[0] == 1 then [names[0]] else []) + rv;
      assert ActiveNames(names, w) == (if w[0] == 1 then [names[0]] else []) + rw;
      if v[0] == 1 {
        assert [names[0]] + rv == [names[0]] + rw;
        assert ([names[0]] + rv)[1..] == rv && ([names[0]] + rw)[1..] == rw;
      } else {
        assert [] + rv == rv && [] + rw == rw;
      }
      assert rv == rw;
      assert Distinct(names[1..]) by {
        forall a, b | 0 <= a < b < |names[1..]| ensures names[1..][a] != names[1..][b] {
          assert names[1..][a] == names[a + 1] && names[1..][b] == names[b + 1];
        }
      }
      ActiveNamesInjective(names[1..], v[1..], w[1..]);
      assert v == [v[0]] + v[1..] && w == [w[0]] + w[1..];
    }
  }

  /** Splitting a string at every comma; the inverse of `Join` below. */
  function Fields(s: string): (r: seq<string>)
    ensures |r| > 0
  {
    if s == [] then [""]
    else if s[0] == ',' then [""] + Fields(s[1..])
    else var rest := Fields(s[1..]); [[s[0]] + rest[0]] + rest[1..]
  }

  lemma {:induction false} FieldsOfCommaFree(x: string, y: string)
    requires ',' !in x
    ensures Fields(x + y) == (var f := Fields(y); [x + f[0]] + f[1..])
  {
    if x != [] {
      assert (x + y)[0] == x[0] && (x + y)[1..] == x[1..] + y;
      FieldsOfCommaFree(x[1..], y);
      assert [x[0]] + (x[1..] + Fields(y)[0]) == x + Fields(y)[0];
    } else {
      assert x + y == y;
      assert x + Fields(y)[0] == Fields(y)[0];
    }
  }

  /** `Fields` recovers the parts of a join when no part contains a comma. */
  lemma {:induction false} FieldsOfJoin(parts: seq<string>)
    requires |parts| > 0
    requires forall k :: 0 <= k < |parts| ==> ',' !in parts[k]
    ensures Fields(Join(parts)) == parts
  {
    if |parts| == 1 {
      FieldsOfCommaFree(parts[0], "");
      assert parts[0] + "" == parts[0];
    } else {
      var tail := Join(parts[1..]);
      assert Join(parts) == parts[0] + ("," + tail);
      FieldsOfCommaFree(parts[0], "," + tail);
      assert ("," + tail)[0] == ',' && ("," + tail)[1..] == tail;
      assert Fields("," + tail) == [""] + Fields(tail);
      FieldsOfJoin(parts[1..]);
      assert parts[0] + "" == parts[0];
      assert parts == [parts[0]] + parts[1..];
    }
  }

  /** Joining parts whose first part is non-empty gives a non-empty string. */
  lemma JoinNonEmpty(parts: seq<string>)
    requires |parts| > 0 && parts[0] != ""
    ensures Join(parts) != ""
  {
    if |parts| > 1 {
      assert |Join(parts)| >= |parts[0]|;
    }
  }

  /** The class string determines the label values: two 0/1 value sets with the same class are equal. */
  lemma ClassDeterminesFlags(v: seq<int>, w: seq<int>)
    requires |v| == |LabelColumns| && |w| == |LabelColumns| && ZeroOne(v) && ZeroOne(w)
    requires ClassText(v) == ClassText(w)
    ensures v == w
  {
    LabelColumnsDistinct();
    var a, b := ActiveNames(LabelColumns, v), ActiveNames(LabelColumns, w);
    ActiveNamesAmong(LabelColumns, v);
    ActiveNamesAmong(LabelColumns, w);
    if a != [] && b != [] {
      assert a[0] in a && b[0] in b;
      assert forall k :: 0 <= k < |a| ==> ',' !in a[k] by {
        forall k | 0 <= k < |a| ensures ',' !in a[k] { assert a[k] in a; }
      }
      assert forall k :: 0 <= k < |b| ==> ',' !in b[k] by {
        forall k | 0 <= k < |b| ensures ',' !in b[k] { assert b[k] in b; }
      }
      FieldsOfJoin(a);
      FieldsOfJoin(b);
    } else if a != [] {
      assert a[0] in a;
      JoinNonEmpty(a);
    } else if b != [] {
      assert b[0] in b;
      JoinNonEmpty(b);
    }
    ActiveNamesInjective(LabelColumns, v, w);
  }

  /** For a full entry both merge branches write the class that its values denote. */
  lemma ClassOfFullEntry(entry: Entry)
    requires IsFullEntry(entry)
    ensures UpdateClass(entry) == ClassText(Values(entry))
    ensures PromoteClass(entry) == ClassText(Values(entry))
  {
    FullEntryIsPairs(entry);
    AssignedOfPairs(LabelColumns, Values(entry));
  }

  /** A join of two parts puts one comma between them. */
  lemma JoinTwo(a: string, b: string)
    ensures Join([a, b]) == a + "," + b
  {
    assert [a, b][1..] == [b];
  }

  lemma JunkStrictureActive()
    ensures ActiveNames(LabelColumns, [1, 0, 0, 1, 0]) == ["Junk", "Stricture"]
  {
    var names, values := LabelColumns, [1, 0, 0, 1, 0];
    assert ActiveNames(names[3..], values[3..]) == ["Stricture"] by {
      assert ActiveNames(names[4..], values[4..]) == [] by {
        assert names[4..][1..] == [] && values[4..][1..] == [];
      }
      assert names[3..][1..] == names[4..] && values[3..][1..] == values[4..];
    }
    assert names[1..][1..] == names[2..] && values[1..][1..] == values[2..];
    assert names[2..][1..] == names[3..] && values[2..][1..] == values[3..];
  }

  /** The three cases of the class rule, on the examples {}, {Ulcer} and {Junk, Stricture}. */
  lemma ClassExamples()
    ensures PromoteClass([]) == ""
    ensures PromoteClass([("Ulcer", 1)]) == "Ulcer"
    ensures UpdateClass(Pairs(LabelColumns, [1, 0, 0, 1, 0])) == "Junk" + "," + "Stricture"
  {
    assert Assigned([("Ulcer", 1)]) == ["Ulcer"] + Assigned([]);
    JunkStrictureActive();
    AssignedOfPairs(LabelColumns, [1, 0, 0, 1, 0]);
    JoinTwo("Junk", "Stricture");
  }


}
