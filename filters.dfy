/**
 * The filter view: a status choice picks the base rows, then exact-match
 * movie and pillcam filters and a conjunctive "has labels" filter narrow it,
 * keeping the tables' row order.
 */
module Filters {
  import opened Wrappers
  import opened Sequences
  import opened Labels
  import opened FrameTable

  /** A row of the view, tagged with the table it came from (the `is_labeled` column). */
  datatype Shown = Shown(row: Record, isLabeled: bool)

  /** A copy of a table with the `is_labeled` column set to `isLabeled`. */
  function Tagged(rows: seq<Record>, isLabeled: bool): (r: seq<Shown>)
    ensures |r| == |rows| && forall i :: 0 <= i < |rows| ==> r[i] == Shown(rows[i], isLabeled)
  {
    seq(|rows|, i requires 0 <= i < |rows| => Shown(rows[i], isLabeled))
  }

  /** The rows the status selects; any status other than "All" and "Labeled" selects the unlabeled table. */
  function Base(labeled: seq<Record>, unlabeled: seq<Record>, status: string): (base: seq<Shown>)
    ensures |base| == if status == "All" then |labeled| + |unlabeled| else if status == "Labeled" then |labeled| else |unlabeled|
    ensures forall s :: s in base ==> if s.isLabeled then s.row in labeled else s.row in unlabeled
    ensures forall s :: s in base ==> (status == "Labeled" ==> s.isLabeled) && (status != "All" && status != "Labeled" ==> !s.isLabeled)
    ensures status == "All" ==> forall i :: 0 <= i < |labeled| ==> base[i] == Shown(labeled[i], true)
    ensures status == "All" ==> forall i :: 0 <= i < |unlabeled| ==> base[|labeled| + i] == Shown(unlabeled[i], false)
    ensures status == "Labeled" ==> forall i :: 0 <= i < |labeled| ==> base[i] == Shown(labeled[i], true)
    ensures status != "All" && status != "Labeled" ==> forall i :: 0 <= i < |unlabeled| ==> base[i] == Shown(unlabeled[i], false)
  {
    if status == "All" then Tagged(labeled, true) + Tagged(unlabeled, false)
    else if status == "Labeled" then Tagged(labeled, true)
    else Tagged(unlabeled, false)
  }

  /** The movie filter: "All" keeps every row, any other value keeps the rows whose movie cell equals it. */
  predicate MovieMatches(s: Shown, movie: string)
  {
    movie == "All" || s.row.movie == Some(movie)
  }

  predicate PillcamMatches(s: Shown, pillcam: string)
  {
    pillcam == "All" || s.row.pillcam == Some(pillcam)
  }

  /** Every selected label's cell holds 1. */
  predicate HasLabels(s: Shown, labels: seq<Label>)
  {
    forall k :: 0 <= k < |labels| ==> s.row.flags[labels[k].Index()] == Some(1)
  }

  /** The whole filter as one predicate on a row. */
  predicate Matches(s: Shown, movie: string, pillcam: string, labels: seq<Label>)
  {
    MovieMatches(s, movie) && PillcamMatches(s, pillcam) && HasLabels(s, labels)
  }

  function MatchesFn(movie: string, pillcam: string, labels: seq<Label>): Shown -> bool
  {
    (s: Shown) => Matches(s, movie, pillcam, labels)
  }

  function MovieFn(movie: string): Shown -> bool
  {
    (s: Shown) => s.row.movie == Some(movie)
  }

  function PillcamFn(pillcam: string): Shown -> bool
  {
    (s: Shown) => s.row.pillcam == Some(pillcam)
  }

  function LabelFn(lab: Label): Shown -> bool
  {
    (s: Shown) => s.row.flags[lab.Index()] == Some(1)
  }

  /** The view as one selection over the base: the reference for `ApplyFilters`. */
  function View(labeled: seq<Record>, unlabeled: seq<Record>, status: string,
                movie: string, pillcam: string, labels: seq<Label>): (view: seq<Shown>)
    ensures |view| <= |Base(labeled, unlabeled, status)|
    ensures forall s :: s in view ==> s in Base(labeled, unlabeled, status) && Matches(s, movie, pillcam, labels)
  {
    Filter(Base(labeled, unlabeled, status), MatchesFn(movie, pillcam, labels))
  }

  lemma {:induction false} FilterKeepsAll(s: seq<Shown>, p: Shown -> bool)
    requires forall x :: p(x)
    ensures Filter(s, p) == s
  {
    if s != [] {
      FilterKeepsAll(s[1..], p);
    }
  }

  lemma MovieStep(base: seq<Shown>, movie: string)
    requires movie != "All"
    ensures Filter(Filter(base, MatchesFn("All", "All", [])), MovieFn(movie)) == Filter(base, MatchesFn(movie, "All", []))
  {
    FilterCompose(base, MatchesFn("All", "All", []), MovieFn(movie), MatchesFn(movie, "All", []));
  }

  lemma PillcamStep(base: seq<Shown>, movie: string, pillcam: string)
    requires pillcam != "All"
    ensures Filter(Filter(base, MatchesFn(movie, "All", [])), PillcamFn(pillcam)) == Filter(base, MatchesFn(movie, pillcam, []))
  {
    FilterCompose(base, MatchesFn(movie, "All", []), PillcamFn(pillcam), MatchesFn(movie, pillcam, []));
  }

  lemma LabelStep(base: seq<Shown>, movie: string, pillcam: string, labels: seq<Label>, i: nat)
    requires i < |labels|
    ensures Filter(Filter(base, MatchesFn(movie, pillcam, labels[..i])), LabelFn(labels[i]))
         == Filter(base, MatchesFn(movie, pillcam, labels[..i + 1]))
  {
    forall s ensures HasLabels(s, labels[..i + 1]) == (HasLabels(s, labels[..i]) && LabelFn(labels[i])(s)) {
      assert forall k :: 0 <= k < i ==> labels[..i + 1][k] == labels[..i][k];
      assert labels[..i + 1][i] == labels[i];
    }
    FilterCompose(base, MatchesFn(movie, pillcam, labels[..i]), LabelFn(labels[i]), MatchesFn(movie, pillcam, labels[..i + 1]));
  }

  /** `apply_filters`: narrow the base step by step, the label filter one selected label at a time. */
  method ApplyFilters(labeled: seq<Record>, unlabeled: seq<Record>, status: string,
                      movie: string, pillcam: string, labels: seq<Label>)
    returns (view: seq<Shown>)
    ensures view == View(labeled, unlabeled, status, movie, pillcam, labels)
  {
    var framesShown := Tagged(labeled, true);
    var unlabeledShown := Tagged(unlabeled, false);
    if status == "All" {
      view := framesShown + unlabeledShown;
    } else if status == "Labeled" {
      view := framesShown;
    } else {
      view := unlabeledShown;
    }
    ghost var base := view;
    FilterKeepsAll(base, MatchesFn("All", "All", []));
    if movie != "All" {
      MovieStep(base, movie);
      view := Filter(view, MovieFn(movie));
    }
    if pillcam != "All" {
      PillcamStep(base, movie, pillcam);
      view := Filter(view, PillcamFn(pillcam));
    }
    assert labels[..0] == [];
    for i := 0 to |labels|
      invariant view == Filter(base, MatchesFn(movie, pillcam, labels[..i]))
    {
      LabelStep(base, movie, pillcam, labels, i);
      view := Filter(view, LabelFn(labels[i]));
    }
    assert labels[..|labels|] == labels;
  }

  /** Every row of the view comes from the base and passes every active filter; every such base row is shown. */
  lemma ViewMembers(labeled: seq<Record>, unlabeled: seq<Record>, status: string,
                    movie: string, pillcam: string, labels: seq<Label>, s: Shown)
    ensures s in View(labeled, unlabeled, status, movie, pillcam, labels)
        <==> s in Base(labeled, unlabeled, status)
             && (movie != "All" ==> s.row.movie == Some(movie))
             && (pillcam != "All" ==> s.row.pillcam == Some(pillcam))
             && (forall k :: 0 <= k < |labels| ==> s.row.flags[labels[k].Index()] == Some(1))
  {
  }

  /** The view keeps the base's order. */
  lemma ViewIsSubsequence(labeled: seq<Record>, unlabeled: seq<Record>, status: string,
                          movie: string, pillcam: string, labels: seq<Label>)
    ensures IsSubsequence(View(labeled, unlabeled, status, movie, pillcam, labels), Base(labeled, unlabeled, status))
  {
    FilterIsSubsequence(Base(labeled, unlabeled, status), MatchesFn(movie, pillcam, labels));
  }

  /** "All" shows the filtered labeled rows followed by the filtered unlabeled rows. */
  lemma AllIsLabeledThenUnlabeled(labeled: seq<Record>, unlabeled: seq<Record>,
                                  movie: string, pillcam: string, labels: seq<Label>)
    ensures View(labeled, unlabeled, "All", movie, pillcam, labels)
         == View(labeled, unlabeled, "Labeled", movie, pillcam, labels)
          + View(labeled, unlabeled, "Unlabeled", movie, pillcam, labels)
  {
    FilterAppend(Tagged(labeled, true), Tagged(unlabeled, false), MatchesFn(movie, pillcam, labels));
  }

  /** Selecting one more label narrows the view to the rows of the old view that carry it. */
  lemma MoreLabelsNarrow(labeled: seq<Record>, unlabeled: seq<Record>, status: string,
                         movie: string, pillcam: string, labels: seq<Label>, lab: Label)
    ensures var before := View(labeled, unlabeled, status, movie, pillcam, labels);
      var after := View(labeled, unlabeled, status, movie, pillcam, labels + [lab]);
      && after == Filter(before, LabelFn(lab))
      && IsSubsequence(after, before)
      && (forall s :: s in after <==> s in before && s.row.flags[lab.Index()] == Some(1))
  {
    var base := Base(labeled, unlabeled, status);
    forall s ensures HasLabels(s, labels + [lab]) == (HasLabels(s, labels) && LabelFn(lab)(s)) {
      assert forall k :: 0 <= k < |labels| ==> (labels + [lab])[k] == labels[k];
      assert (labels + [lab])[|labels|] == lab;
    }
    FilterCompose(base, MatchesFn(movie, pillcam, labels), LabelFn(lab), MatchesFn(movie, pillcam, labels + [lab]));
    FilterIsSubsequence(View(labeled, unlabeled, status, movie, pillcam, labels), LabelFn(lab));
  }

  /** Filtering by two labels keeps exactly the rows that carry both. */
  lemma TwoLabelsAreConjunctive(labeled: seq<Record>, unlabeled: seq<Record>, status: string,
                                movie: string, pillcam: string, a: Label, b: Label, s: Shown)
    ensures s in View(labeled, unlabeled, status, movie, pillcam, [a, b])
        <==> s in View(labeled, unlabeled, status, movie, pillcam, [a])
             && s.row.flags[b.Index()] == Some(1)
  {
    MoreLabelsNarrow(labeled, unlabeled, status, movie, pillcam, [a], b);
    assert [a] + [b] == [a, b];
  }
}
