/**
 * The target-info panel beside the sweep: the visible targets, nearest
 * first, at most five of them, and a count of the ones left over.
 */
module InfoPanel {
  import opened Motion
  import opened Targets

  /** The panel lists at most this many targets. */
  const MaxRows: nat := 5

  /** One `(i, target)` pair of `visible_targets`. */
  datatype Entry = Entry(index: nat, pos: Polar)

  /** The listed entries, top to bottom, and the `+ N more` count (0: no such line). */
  datatype Panel = Panel(rows: seq<Entry>, more: nat)

  /** The visible targets with their list indices, in list order, indices counted from `base`. */
  function VisibleFrom(ts: seq<Target>, base: nat): (r: seq<Entry>)
    ensures |r| <= |ts|
    ensures forall e :: e in r ==> base <= e.index < base + |ts| && ts[e.index - base].visible
    decreases |ts|
  {
    if ts == [] then []
    else (if ts[0].visible then [Entry(base, ts[0].pos)] else []) + VisibleFrom(ts[1..], base + 1)
  }

  /** The `visible_targets` list: each visible target with its index in the target list. */
  function VisibleEntries(ts: seq<Target>): (r: seq<Entry>)
    ensures |r| <= |ts|
    ensures forall e :: e in r ==> e.index < |ts| && ts[e.index].visible
  {
    VisibleFrom(ts, 0)
  }

  /** The number of visible targets. */
  function CountVisible(ts: seq<Target>): nat
  {
    if ts == [] then 0 else (if ts[0].visible then 1 else 0) + CountVisible(ts[1..])
  }

  /** `a` sorts before `b`: nearer, or equally near and earlier in the list. */
  predicate Before(a: Entry, b: Entry)
  {
    a.pos.range < b.pos.range || (a.pos.range == b.pos.range && a.index < b.index)
  }

  predicate Sorted(s: seq<Entry>)
  {
    forall i, j :: 0 <= i < j < |s| ==> Before(s[i], s[j])
  }

  /** Inserts `x` before the first entry at least as far away. */
  function Insert(x: Entry, s: seq<Entry>): (r: seq<Entry>)
    ensures multiset(r) == multiset(s) + multiset{x}
  {
    if s == [] || x.pos.range <= s[0].pos.range then [x] + s
    else
      assert s == [s[0]] + s[1..];
      [s[0]] + Insert(x, s[1..])
  }

  /** The panel's stable sort by range, written as an insertion sort. */
  function SortByRange(s: seq<Entry>): (r: seq<Entry>)
    ensures multiset(r) == multiset(s)
  {
    if s == [] then []
    else
      assert s == [s[0]] + s[1..];
      Insert(s[0], SortByRange(s[1..]))
  }

  /** The panel for the current target list. */
  function PanelOf(ts: seq<Target>): (r: Panel)
    ensures |r.rows| <= MaxRows
    ensures r.more > 0 ==> |r.rows| == MaxRows
  {
    var sorted := SortByRange(VisibleEntries(ts));
    var shown := if |sorted| <= MaxRows then |sorted| else MaxRows;
    Panel(sorted[..shown], |sorted| - shown)
  }

  /** An entry is listed exactly when its target is visible, at its own position. */
  lemma {:induction false} VisibleFromMembers(ts: seq<Target>, base: nat, e: Entry)
    ensures e in VisibleFrom(ts, base) <==>
              base <= e.index < base + |ts| && ts[e.index - base].visible && e.pos == ts[e.index - base].pos
    decreases |ts|
  {
    if ts != [] {
      var head := if ts[0].visible then [Entry(base, ts[0].pos)] else [];
      var rest := VisibleFrom(ts[1..], base + 1);
      assert VisibleFrom(ts, base) == head + rest;
      VisibleFromMembers(ts[1..], base + 1, e);
      if base + 1 <= e.index < base + |ts| {
        assert ts[1..][e.index - (base + 1)] == ts[e.index - base];
      }
    }
  }

  /** Indices strictly increase along `s`. */
  predicate IncreasingIndices(s: seq<Entry>)
  {
    forall i, j :: 0 <= i < j < |s| ==> s[i].index < s[j].index
  }

  /** Visible entries come in strictly increasing index order. */
  lemma {:induction false} VisibleFromIncreasing(ts: seq<Target>, base: nat)
    ensures IncreasingIndices(VisibleFrom(ts, base))
    decreases |ts|
  {
    if ts != [] {
      var rest := VisibleFrom(ts[1..], base + 1);
      VisibleFromIncreasing(ts[1..], base + 1);
      forall e | e in rest ensures base < e.index {
        VisibleFromMembers(ts[1..], base + 1, e);
      }
    }
  }

  /** There is one visible entry per visible target. */
  lemma {:induction false} VisibleFromCount(ts: seq<Target>, base: nat)
    ensures |VisibleFrom(ts, base)| == CountVisible(ts)
    decreases |ts|
  {
    if ts != [] {
      VisibleFromCount(ts[1..], base + 1);
    }
  }

  lemma {:induction false} InsertSorted(x: Entry, s: seq<Entry>)
    requires Sorted(s)
    requires forall e :: e in s ==> x.index < e.index
    ensures Sorted(Insert(x, s))
    decreases |s|
  {
    if s == [] || x.pos.range <= s[0].pos.range {
      forall j | 0 <= j < |s| ensures Before(x, s[j]) {
        assert j == 0 || Before(s[0], s[j]);
      }
    } else {
      var tail := Insert(x, s[1..]);
      InsertSorted(x, s[1..]);
      forall e | e in tail ensures Before(s[0], e) {
        assert e in multiset(tail);
        assert e == x || e in multiset(s[1..]);
      }
    }
  }

  /** Sorting a list whose indices increase yields it nearest first, ties in list order. */
  lemma {:induction false} SortByRangeSorted(s: seq<Entry>)
    requires IncreasingIndices(s)
    ensures Sorted(SortByRange(s))
    decreases |s|
  {
    if s != [] {
      var rest := SortByRange(s[1..]);
      SortByRangeSorted(s[1..]);
      forall e | e in rest ensures s[0].index < e.index {
        assert e in multiset(s[1..]);
      }
      InsertSorted(s[0], rest);
    }
  }

  /** The first `n` entries of a sorted list are sorted, and each appears in the list. */
  lemma PrefixOfSorted(sorted: seq<Entry>, n: nat)
    requires Sorted(sorted) && n <= |sorted|
    ensures Sorted(sorted[..n])
    ensures forall e :: e in sorted[..n] ==> e in multiset(sorted)
  {
  }

  /** An entry of a sorted list that is not among its first `n` sorts after all of them. */
  lemma OutsidePrefixOfSorted(sorted: seq<Entry>, n: nat, x: Entry)
    requires Sorted(sorted) && n <= |sorted|
    requires x in multiset(sorted) && x !in sorted[..n]
    ensures forall e :: e in sorted[..n] ==> Before(e, x)
  {
    var p :| 0 <= p < |sorted| && sorted[p] == x;
    assert p >= n;
    forall e | e in sorted[..n] ensures Before(e, x) {
      var q :| 0 <= q < n && sorted[..n][q] == e;
      assert sorted[q] == e;
    }
  }

  lemma SameElements(s: seq<Entry>, t: seq<Entry>, e: Entry)
    requires multiset(s) == multiset(t)
    ensures e in multiset(s) <==> e in t
  {
  }

  /** Membership in the sorted visible list, one entry at a time. */
  lemma SortedVisibleMember(ts: seq<Target>, e: Entry)
    ensures e in multiset(SortByRange(VisibleEntries(ts))) <==>
              e.index < |ts| && ts[e.index].visible && e.pos == ts[e.index].pos
  {
    var vis := VisibleEntries(ts);
    SameElements(SortByRange(vis), vis, e);
    VisibleFromMembers(ts, 0, e);
  }

  /** The visible entries, sorted nearest first with ties in list order. */
  lemma SortedVisible(ts: seq<Target>)
    ensures Sorted(SortByRange(VisibleEntries(ts)))
    ensures |SortByRange(VisibleEntries(ts))| == CountVisible(ts)
    ensures forall e :: e in multiset(SortByRange(VisibleEntries(ts))) <==>
              e.index < |ts| && ts[e.index].visible && e.pos == ts[e.index].pos
  {
    var vis := VisibleEntries(ts);
    var sorted := SortByRange(vis);
    VisibleFromIncreasing(ts, 0);
    SortByRangeSorted(vis);
    VisibleFromCount(ts, 0);
    assert |sorted| == |multiset(sorted)| == |multiset(vis)| == |vis|;
    forall e: Entry ensures e in multiset(sorted) <==>
                            e.index < |ts| && ts[e.index].visible && e.pos == ts[e.index].pos
    {
      SortedVisibleMember(ts, e);
    }
  }

  /**
   * The panel lists visible targets only, each at its current position,
   * nearest first with ties in list order, and at most five of them.
   */
  lemma PanelListsVisibleNearestFirst(ts: seq<Target>)
    ensures |PanelOf(ts).rows| <= MaxRows
    ensures Sorted(PanelOf(ts).rows)
    ensures forall e :: e in PanelOf(ts).rows ==>
              e.index < |ts| && ts[e.index].visible && e.pos == ts[e.index].pos
  {
    var sorted := SortByRange(VisibleEntries(ts));
    SortedVisible(ts);
    PrefixOfSorted(sorted, |PanelOf(ts).rows|);
  }

  /** Every visible target left off the panel sorts after every listed one. */
  lemma PanelLeavesOffOnlyFarther(ts: seq<Target>, i: nat)
    requires i < |ts| && ts[i].visible
    requires Entry(i, ts[i].pos) !in PanelOf(ts).rows
    ensures forall e :: e in PanelOf(ts).rows ==> Before(e, Entry(i, ts[i].pos))
  {
    var sorted := SortByRange(VisibleEntries(ts));
    SortedVisible(ts);
    OutsidePrefixOfSorted(sorted, |PanelOf(ts).rows|, Entry(i, ts[i].pos));
  }

  /** `more` counts the visible targets beyond the first five; together they are all the visible ones. */
  lemma PanelCountsOverflow(ts: seq<Target>)
    ensures |PanelOf(ts).rows| + PanelOf(ts).more == CountVisible(ts)
    ensures PanelOf(ts).more == if CountVisible(ts) > MaxRows then CountVisible(ts) - MaxRows else 0
  {
    SortedVisible(ts);
  }
}
