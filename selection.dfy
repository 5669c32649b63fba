/**
  The two-stage draw of `select_random_rows`: attendees are sampled from the whole
  table, their rows are dropped, and alternates are sampled from what remains.

  A data frame is a sequence of entries, each a row with its index label. The table
  read from the file carries the default index 0, 1, ..., n-1, so a label names a row
  of the file. The random generator is not modelled: each draw is supplied by the
  caller as the sequence of positions the sampler picked, in the order it picked them.
 */
module Selection {
  import opened Wrappers

  /** One row of a data frame together with its index label. */
  datatype Entry<R> = Entry(index: nat, row: R)

  type Frame<R> = seq<Entry<R>>

  /** The result of a successful draw: the attendee rows and the alternate rows. */
  datatype Selected<R> = Selected(attendees: Frame<R>, alternates: Frame<R>)

  /** The frame built from the rows of the file, with the default index 0, 1, ..., n-1. */
  function RangeIndexed<R>(rows: seq<R>): (data: Frame<R>)
    ensures |data| == |rows|
    ensures forall i :: 0 <= i < |data| ==> data[i] == Entry(i, rows[i])
  {
    seq(|rows|, i requires 0 <= i < |rows| => Entry(i, rows[i]))
  }

  /** The index labels of a frame. */
  function Labels<R>(f: Frame<R>): (labels: set<nat>) {
    set i | 0 <= i < |f| :: f[i].index
  }

  /** Every label of the frame is used once. */
  predicate DistinctLabels<R>(f: Frame<R>) {
    forall i, j :: 0 <= i < j < |f| ==> f[i].index != f[j].index
  }

  /** The labels of the frame appear in increasing order, as in a frame read from a file. */
  predicate IncreasingLabels<R>(f: Frame<R>) {
    forall i, j :: 0 <= i < j < |f| ==> f[i].index < f[j].index
  }

  /** The entry is a row of the file, under the label the file gave it. */
  ghost predicate FromTable<R>(rows: seq<R>, e: Entry<R>) {
    e.index < |rows| && e.row == rows[e.index]
  }

  /**
    `draw` is one possible outcome of drawing `n` of the positions 0 .. size-1
    without replacement, listed in the order they were drawn.
   */
  predicate IsDraw(draw: seq<nat>, n: nat, size: nat) {
    && |draw| == n
    && (forall i :: 0 <= i < n ==> draw[i] < size)
    && (forall i, j :: 0 <= i < j < n ==> draw[i] != draw[j])
  }

  /**
    `DataFrame.sample(n=n)`: the entries at the drawn positions, in draw order.
    No entry is taken twice and every entry keeps its label.
   */
  function Sample<R>(f: Frame<R>, n: nat, draw: seq<nat>): (s: Frame<R>)
    requires IsDraw(draw, n, |f|)
    ensures |s| == n
    ensures forall i :: 0 <= i < |s| ==> s[i] in f
    ensures DistinctLabels(f) ==> DistinctLabels(s)
  {
    seq(n, i requires 0 <= i < n => f[draw[i]])
  }

  /**
    `DataFrame.drop(labels)`: the entries whose label is not among `labels`, in their
    original order.
   */
  function Drop<R>(f: Frame<R>, labels: set<nat>): (r: Frame<R>)
    ensures forall i :: 0 <= i < |r| ==> r[i] in f && r[i].index !in labels
    ensures forall i :: 0 <= i < |f| && f[i].index !in labels ==> f[i] in r
    decreases |f|
  {
    if f == [] then []
    else
      var rest := Drop(f[1..], labels);
      assert forall i :: 1 <= i < |f| ==> f[i] == f[1..][i - 1];
      if f[0].index in labels then rest
      else [f[0]] + rest
  }

  /** Dropping keeps the remaining labels distinct. */
  lemma {:induction false} DropDistinct<R>(f: Frame<R>, labels: set<nat>)
    requires DistinctLabels(f)
    ensures DistinctLabels(Drop(f, labels))
    decreases |f|
  {
    if f != [] {
      DropDistinct(f[1..], labels);
      var rest := Drop(f[1..], labels);
      forall j | 0 <= j < |rest| ensures rest[j].index != f[0].index {
        var k :| 0 <= k < |f[1..]| && f[1..][k] == rest[j];
        assert f[k + 1] == rest[j];
      }
    }
  }

  /** An entry placed before a frame whose labels all exceed its own keeps labels increasing. */
  lemma ConsIncreasing<R>(e: Entry<R>, rest: Frame<R>)
    requires IncreasingLabels(rest)
    requires forall j :: 0 <= j < |rest| ==> e.index < rest[j].index
    ensures IncreasingLabels([e] + rest)
  {
    var r := [e] + rest;
    forall i, j | 0 <= i < j < |r| ensures r[i].index < r[j].index {
      assert r[j] == rest[j - 1];
      if i > 0 { assert r[i] == rest[i - 1]; }
    }
  }

  /** Dropping keeps the remaining entries in their original order. */
  lemma {:induction false} DropKeepsOrder<R>(f: Frame<R>, labels: set<nat>)
    requires IncreasingLabels(f)
    ensures IncreasingLabels(Drop(f, labels))
    decreases |f|
  {
    if f != [] {
      var tail := f[1..];
      assert IncreasingLabels(tail) by {
        forall i, j | 0 <= i < j < |tail| ensures tail[i].index < tail[j].index {
          assert tail[i] == f[i + 1] && tail[j] == f[j + 1];
        }
      }
      DropKeepsOrder(tail, labels);
      var rest := Drop(tail, labels);
      if f[0].index !in labels {
        forall j | 0 <= j < |rest| ensures f[0].index < rest[j].index {
          var k :| 0 <= k < |tail| && tail[k] == rest[j];
          assert f[k + 1] == rest[j];
        }
        ConsIncreasing(f[0], rest);
      }
    }
  }

  /** The rows left for the alternates once the attendees are dropped from the table. */
  function Remaining<R>(rows: seq<R>, attendees: Frame<R>): (rest: Frame<R>) {
    Drop(RangeIndexed(rows), Labels(attendees))
  }

  /** The draws the random source may supply for a request that is not refused. */
  predicate DrawsFit(size: nat, numberOfAttendees: nat, numAlternates: nat,
                     attendeeDraw: seq<nat>, alternateDraw: seq<nat>)
  {
    numberOfAttendees + numAlternates <= size ==>
      && IsDraw(attendeeDraw, numberOfAttendees, size)
      && IsDraw(alternateDraw, numAlternates, size - numberOfAttendees)
  }

  /**
    `select_random_rows`: refuses (None) when more rows are requested than the table
    holds; otherwise samples the attendees from the table, drops them, and samples the
    alternates from the rest. Equality of request and table size is allowed.
   */
  function SelectRandomRows<R>(rows: seq<R>, numberOfAttendees: nat, numAlternates: nat,
                               attendeeDraw: seq<nat>, alternateDraw: seq<nat>): (r: Option<Selected<R>>)
    requires DrawsFit(|rows|, numberOfAttendees, numAlternates, attendeeDraw, alternateDraw)
    ensures r.None? <==> numberOfAttendees + numAlternates > |rows|
    ensures r.Some? ==> |r.value.attendees| == numberOfAttendees && |r.value.alternates| == numAlternates
    ensures r.Some? ==> forall i :: 0 <= i < |r.value.attendees| ==> FromTable(rows, r.value.attendees[i])
    ensures r.Some? ==> forall i :: 0 <= i < |r.value.alternates| ==> FromTable(rows, r.value.alternates[i])
    ensures r.Some? ==> DistinctLabels(r.value.attendees) && DistinctLabels(r.value.alternates)
    ensures r.Some? ==> Labels(r.value.attendees) !! Labels(r.value.alternates)
    ensures r.Some? ==> |Labels(r.value.attendees) + Labels(r.value.alternates)| == numberOfAttendees + numAlternates
  {
    if numberOfAttendees + numAlternates > |rows| then None
    else
      var data := RangeIndexed(rows);
      var selectedRows := Sample(data, numberOfAttendees, attendeeDraw);
      var remainingData := Remaining(rows, selectedRows);
      RemainingSize(rows, selectedRows);
      RangeIndexedShape(rows);
      DropDistinct(data, Labels(selectedRows));
      var alternateRows := Sample(remainingData, numAlternates, alternateDraw);
      AlternatesAvoidAttendees(selectedRows, alternateRows, remainingData);
      DistinctLabelsCount(selectedRows);
      DistinctLabelsCount(alternateRows);
      Some(Selected(selectedRows, alternateRows))
  }

  // ---------------------------------------------------------------------------
  // Lemmas about labels

  lemma LabelsCons<R>(f: Frame<R>)
    requires f != []
    ensures Labels(f) == {f[0].index} + Labels(f[1..])
  {
    forall l | l in Labels(f) ensures l in {f[0].index} + Labels(f[1..]) {
      var i :| 0 <= i < |f| && f[i].index == l;
      if i > 0 { assert f[1..][i - 1].index == l; }
    }
    forall l | l in Labels(f[1..]) ensures l in Labels(f) {
      var i :| 0 <= i < |f[1..]| && f[1..][i].index == l;
      assert f[i + 1].index == l;
    }
  }

  /** A frame whose labels are distinct has as many labels as entries. */
  lemma {:induction false} DistinctLabelsCount<R>(f: Frame<R>)
    requires DistinctLabels(f)
    ensures |Labels(f)| == |f|
  {
    if f != [] {
      LabelsCons(f);
      DistinctLabelsCount(f[1..]);
      assert f[0].index !in Labels(f[1..]);
    }
  }

  /** The tail of a frame with distinct labels has distinct labels, none of them the head's. */
  lemma DistinctTail<R>(f: Frame<R>)
    requires f != [] && DistinctLabels(f)
    ensures DistinctLabels(f[1..]) && f[0].index !in Labels(f[1..])
  {
    var tail := f[1..];
    forall i, j | 0 <= i < j < |tail| ensures tail[i].index != tail[j].index {
      assert tail[i] == f[i + 1] && tail[j] == f[j + 1];
    }
    forall k | 0 <= k < |tail| ensures tail[k].index != f[0].index {
      assert tail[k] == f[k + 1];
    }
  }

  /** Adding a new label to a set adds one to its overlap with `labels` exactly when `labels` holds it. */
  lemma OverlapStep(labels: set<nat>, x: nat, others: set<nat>)
    requires x !in others
    ensures |labels * ({x} + others)| == |labels * others| + (if x in labels then 1 else 0)
  {
    if x in labels {
      assert labels * ({x} + others) == {x} + labels * others;
    } else {
      assert labels * ({x} + others) == labels * others;
    }
  }

  /** Dropping a set of labels from a frame with distinct labels removes exactly the entries that carry them. */
  lemma {:induction false} DropCount<R>(f: Frame<R>, labels: set<nat>)
    requires DistinctLabels(f)
    ensures |Drop(f, labels)| == |f| - |labels * Labels(f)|
    decreases |f|
  {
    if f != [] {
      DistinctTail(f);
      DropCount(f[1..], labels);
      LabelsCons(f);
      OverlapStep(labels, f[0].index, Labels(f[1..]));
    }
  }

  lemma RangeIndexedShape<R>(rows: seq<R>)
    ensures DistinctLabels(RangeIndexed(rows)) && IncreasingLabels(RangeIndexed(rows))
    ensures forall l: nat :: l in Labels(RangeIndexed(rows)) <==> l < |rows|
    ensures forall e :: e in RangeIndexed(rows) <==> FromTable(rows, e)
  {
    var data := RangeIndexed(rows);
    forall e | FromTable(rows, e) ensures e in data {
      assert data[e.index] == e;
    }
    forall l: nat | l < |rows| ensures l in Labels(data) {
      assert data[l].index == l;
    }
    forall l | l in Labels(data) ensures l < |rows| {
      var i :| 0 <= i < |data| && data[i].index == l;
    }
  }

  /** The attendees are a sample of the table, so dropping them leaves |rows| - A rows. */
  lemma RemainingSize<R>(rows: seq<R>, attendees: Frame<R>)
    requires DistinctLabels(attendees)
    requires forall e :: e in attendees ==> e in RangeIndexed(rows)
    ensures |Drop(RangeIndexed(rows), Labels(attendees))| == |rows| - |attendees|
  {
    var data := RangeIndexed(rows);
    RangeIndexedShape(rows);
    DropCount(data, Labels(attendees));
    DistinctLabelsCount(attendees);
    forall l | l in Labels(attendees) ensures l in Labels(data) {
      var i :| 0 <= i < |attendees| && attendees[i].index == l;
      assert attendees[i] in data;
    }
    assert Labels(attendees) * Labels(data) == Labels(attendees);
  }

  lemma AlternatesAvoidAttendees<R>(attendees: Frame<R>, alternates: Frame<R>, rest: Frame<R>)
    requires forall e :: e in alternates ==> e in rest
    requires forall e :: e in rest ==> e.index !in Labels(attendees)
    ensures Labels(attendees) !! Labels(alternates)
  {
    forall l | l in Labels(alternates) ensures l !in Labels(attendees) {
      var i :| 0 <= i < |alternates| && alternates[i].index == l;
      assert alternates[i] in rest;
    }
  }


  // ---------------------------------------------------------------------------
  // Properties of a selection

  /**
    The frame left after the attendees are dropped holds |rows| - A rows: exactly the
    rows of the table that were not chosen, in the order of the file. Every alternate
    is drawn from it.
   */
  lemma RemainingIsTableMinusAttendees<R>(rows: seq<R>, numberOfAttendees: nat, numAlternates: nat,
                                          attendeeDraw: seq<nat>, alternateDraw: seq<nat>)
    requires DrawsFit(|rows|, numberOfAttendees, numAlternates, attendeeDraw, alternateDraw)
    requires numberOfAttendees + numAlternates <= |rows|
    ensures var sel := SelectRandomRows(rows, numberOfAttendees, numAlternates, attendeeDraw, alternateDraw).value;
            var rest := Remaining(rows, sel.attendees);
            && |rest| == |rows| - numberOfAttendees
            && IncreasingLabels(rest)
            && (forall e :: e in rest <==> FromTable(rows, e) && e.index !in Labels(sel.attendees))
            && (forall e :: e in sel.alternates ==> e in rest)
  {
    var data := RangeIndexed(rows);
    var sel := SelectRandomRows(rows, numberOfAttendees, numAlternates, attendeeDraw, alternateDraw).value;
    var rest := Remaining(rows, sel.attendees);
    RangeIndexedShape(rows);
    RemainingSize(rows, sel.attendees);
    DropKeepsOrder(data, Labels(sel.attendees));
    forall e | FromTable(rows, e) && e.index !in Labels(sel.attendees) ensures e in rest {
      assert data[e.index] == e;
    }
  }

  /** The labels of entries from the table are labels of the table. */
  lemma LabelsWithinTable<R>(rows: seq<R>, f: Frame<R>)
    requires forall i :: 0 <= i < |f| ==> FromTable(rows, f[i])
    ensures forall l :: l in Labels(f) ==> l < |rows|
  {
    forall l | l in Labels(f) ensures l < |rows| {
      var i :| 0 <= i < |f| && f[i].index == l;
      assert FromTable(rows, f[i]);
    }
  }

  /** A set of |rows| labels of the table holds every label of the table. */
  lemma {:induction false} FullSetOfLabels<R>(rows: seq<R>, chosen: set<nat>)
    requires forall l :: l in chosen ==> l < |rows|
    requires |chosen| == |rows|
    ensures forall l: nat :: l in chosen <==> l < |rows|
  {
    var all := Labels(RangeIndexed(rows));
    RangeIndexedShape(rows);
    DistinctLabelsCount(RangeIndexed(rows));
    assert chosen <= all;
    assert |all - chosen| == |all| - |chosen| == 0;
    assert all == chosen;
  }

  /**
    When the request equals the size of the table, attendees and alternates together
    are a partition of the whole table.
   */
  lemma ExactRequestSelectsEveryRow<R>(rows: seq<R>, numberOfAttendees: nat, numAlternates: nat,
                                       attendeeDraw: seq<nat>, alternateDraw: seq<nat>)
    requires DrawsFit(|rows|, numberOfAttendees, numAlternates, attendeeDraw, alternateDraw)
    requires numberOfAttendees + numAlternates == |rows|
    ensures var sel := SelectRandomRows(rows, numberOfAttendees, numAlternates, attendeeDraw, alternateDraw).value;
            && Labels(sel.attendees) !! Labels(sel.alternates)
            && (forall l: nat :: l in Labels(sel.attendees) + Labels(sel.alternates) <==> l < |rows|)
  {
    var sel := SelectRandomRows(rows, numberOfAttendees, numAlternates, attendeeDraw, alternateDraw).value;
    LabelsWithinTable(rows, sel.attendees);
    LabelsWithinTable(rows, sel.alternates);
    FullSetOfLabels(rows, Labels(sel.attendees) + Labels(sel.alternates));
  }

  /** A position of `x` in `s`. */
  ghost function PositionOf<T>(s: seq<T>, x: T): (k: nat)
    requires x in s
    ensures k < |s| && s[k] == x
  {
    var k :| 0 <= k < |s| && s[k] == x; k
  }

  /** Any frame of distinct entries of `f` is the sample of some draw. */
  lemma DrawFor<R>(f: Frame<R>, s: Frame<R>) returns (draw: seq<nat>)
    requires forall i :: 0 <= i < |s| ==> s[i] in f
    requires DistinctLabels(s)
    ensures IsDraw(draw, |s|, |f|) && Sample(f, |s|, draw) == s
  {
    draw := seq(|s|, i requires 0 <= i < |s| => PositionOf(f, s[i]));
    forall i, j | 0 <= i < j < |s| ensures draw[i] != draw[j] {
      assert s[i].index != s[j].index;
    }
  }

  /**
    The draws lose nothing: every choice of A attendees and N alternates, each a
    distinct row of the table and none chosen twice, is the outcome of some draws.
   */
  lemma EveryOutcomeReachable<R>(rows: seq<R>, attendees: Frame<R>, alternates: Frame<R>)
    requires |attendees| + |alternates| <= |rows|
    requires forall e :: e in attendees ==> FromTable(rows, e)
    requires forall e :: e in alternates ==> FromTable(rows, e)
    requires DistinctLabels(attendees) && DistinctLabels(alternates)
    requires Labels(attendees) !! Labels(alternates)
    ensures exists attendeeDraw, alternateDraw ::
              && DrawsFit(|rows|, |attendees|, |alternates|, attendeeDraw, alternateDraw)
              && SelectRandomRows(rows, |attendees|, |alternates|, attendeeDraw, alternateDraw)
                   == Some(Selected(attendees, alternates))
  {
    var data := RangeIndexed(rows);
    RangeIndexedShape(rows);
    var attendeeDraw := DrawFor(data, attendees);
    var rest := Drop(data, Labels(attendees));
    RemainingSize(rows, attendees);
    forall i | 0 <= i < |alternates| ensures alternates[i] in rest {
      var e := alternates[i];
      assert FromTable(rows, e);
      assert data[e.index] == e;
      assert e.index in Labels(alternates);
    }
    var alternateDraw := DrawFor(rest, alternates);
    assert SelectRandomRows(rows, |attendees|, |alternates|, attendeeDraw, alternateDraw)
             == Some(Selected(attendees, alternates));
  }

}
