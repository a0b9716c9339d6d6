/** The range and tag query of `Notebook.query`: the timestamps in order, a
    binary search for where the range starts, and a scan forward until the
    range ends that keeps the notes carrying one of the filter tags. */
module Query {
  import opened Common
  import opened Time

  /** Dates never decrease along the list. */
  predicate DatesSorted(ts: seq<Timestamp>) {
    forall i, j :: 0 <= i < j < |ts| ==> ts[i].date <= ts[j].date
  }

  lemma AscendingDatesSorted(ts: seq<Timestamp>)
    requires Ascending(ts)
    ensures DatesSorted(ts)
  {
    forall i, j | 0 <= i < j < |ts| ensures ts[i].date <= ts[j].date {
      assert Before(ts[i], ts[j]);
    }
  }

  /** `j` is where the dates reach `rs`: every earlier date is below it,
      every later one is not. */
  predicate IsLowerBound(ts: seq<Timestamp>, rs: Date, j: nat) {
    && j <= |ts|
    && (forall i :: 0 <= i < j ==> ts[i].date < rs)
    && (forall i :: j <= i < |ts| ==> ts[i].date >= rs)
  }

  // ---------------------------------------------------------------------
  // The search for the start

  /** The variables `l`, `r` and `mid` of the search loop. */
  datatype Probe = Probe(l: int, r: int, mid: int)

  /** The search loop from the given `l`, `r`, `mid`: probe the middle, move
      `l` past it when its date is below `rs`, `r` before it when the date is
      above, stop at an equal date. */
  function Search(ts: seq<Timestamp>, rs: Date, l: int, r: int, mid: int): (p: Probe)
    requires 0 <= l <= |ts| && -1 <= r < |ts| && 0 <= mid < |ts|
    ensures 0 <= p.l <= |ts| && -1 <= p.r < |ts| && 0 <= p.mid < |ts|
    decreases r - l + 1
  {
    if l > r then Probe(l, r, mid)
    else
      var m := (l + r) / 2;
      if ts[m].date < rs then Search(ts, rs, m + 1, r, m)
      else if ts[m].date > rs then Search(ts, rs, l, m - 1, m)
      else Probe(l, r, m)
  }

  /** The walk back from `mid` while the previous timestamp has the same
      date. */
  function WalkBack(ts: seq<Timestamp>, mid: nat): (j: nat)
    requires mid < |ts|
    ensures j <= mid
  {
    if mid > 0 && ts[mid - 1].date == ts[mid].date then WalkBack(ts, mid - 1) else mid
  }

  /** The start index of `query` for a given `range_start` over a non-empty
      list: the walked-back last probe when its date is not below
      `range_start`, the end of the list otherwise. */
  function StartIndex(ts: seq<Timestamp>, rs: Date): (s: nat)
    requires |ts| > 0
    ensures s <= |ts|
  {
    var p := Search(ts, rs, 0, |ts| - 1, 0);
    if ts[p.mid].date >= rs then WalkBack(ts, p.mid) else |ts|
  }

  /** What the search keeps on sorted dates: every date before `l` is below
      `rs`, every date after `r` is above it. */
  predicate Bounded(ts: seq<Timestamp>, rs: Date, l: int, r: int)
    requires 0 <= l <= |ts| && -1 <= r < |ts|
  {
    && (forall i :: 0 <= i < l ==> ts[i].date < rs)
    && (forall i :: r < i < |ts| ==> ts[i].date > rs)
  }

  /** Once the loop has run out, a last probe below `rs` sits just before `l`
      and one above `rs` sits at `l`. */
  predicate LastProbe(ts: seq<Timestamp>, rs: Date, l: int, mid: int)
    requires 0 <= mid < |ts|
  {
    (ts[mid].date < rs ==> mid == l - 1) && (ts[mid].date > rs ==> mid == l)
  }

  /** The search stops on a date equal to `rs`, or with `l` just past `r` and
      the last probe next to `l`; this needs no order on the dates. */
  lemma {:induction false} SearchStops(ts: seq<Timestamp>, rs: Date, l: int, r: int, mid: int)
    requires 0 <= l <= |ts| && -1 <= r < |ts| && 0 <= mid < |ts|
    requires l <= r + 1 && (l > r ==> LastProbe(ts, rs, l, mid))
    ensures var p := Search(ts, rs, l, r, mid);
      ts[p.mid].date == rs || (p.l == p.r + 1 && LastProbe(ts, rs, p.l, p.mid))
    decreases r - l + 1
  {
    if l <= r {
      var m := (l + r) / 2;
      if ts[m].date < rs {
        SearchStops(ts, rs, m + 1, r, m);
      } else if ts[m].date > rs {
        SearchStops(ts, rs, l, m - 1, m);
      }
    }
  }

  /** On sorted dates every probe keeps `Bounded`. */
  lemma {:induction false} SearchKeeps(ts: seq<Timestamp>, rs: Date, l: int, r: int, mid: int)
    requires DatesSorted(ts)
    requires 0 <= l <= |ts| && -1 <= r < |ts| && 0 <= mid < |ts|
    requires Bounded(ts, rs, l, r)
    ensures var p := Search(ts, rs, l, r, mid); Bounded(ts, rs, p.l, p.r)
    decreases r - l + 1
  {
    if l <= r {
      var m := (l + r) / 2;
      if ts[m].date < rs {
        BelowUpTo(ts, rs, l, m);
        SearchKeeps(ts, rs, m + 1, r, m);
      } else if ts[m].date > rs {
        AboveFrom(ts, rs, r, m);
        SearchKeeps(ts, rs, l, m - 1, m);
      }
    }
  }

  lemma BelowUpTo(ts: seq<Timestamp>, rs: Date, l: int, m: int)
    requires DatesSorted(ts) && 0 <= l <= m < |ts| && ts[m].date < rs
    requires forall i :: 0 <= i < l ==> ts[i].date < rs
    ensures forall i :: 0 <= i < m + 1 ==> ts[i].date < rs
  {
    forall i | 0 <= i < m + 1 ensures ts[i].date < rs {
      if i < m {
        assert ts[i].date <= ts[m].date;
      }
    }
  }

  lemma AboveFrom(ts: seq<Timestamp>, rs: Date, r: int, m: int)
    requires DatesSorted(ts) && 0 <= m <= r < |ts| && ts[m].date > rs
    requires forall i :: r < i < |ts| ==> ts[i].date > rs
    ensures forall i :: m - 1 < i < |ts| ==> ts[i].date > rs
  {
    forall i | m - 1 < i < |ts| ensures ts[i].date > rs {
      if m < i {
        assert ts[m].date <= ts[i].date;
      }
    }
  }

  /** Where the search from the whole list stops on sorted dates: at an equal
      date, or with `l` just past `r`, `l` the lower bound and the last probe
      next to it. */
  lemma SearchEnds(ts: seq<Timestamp>, rs: Date)
    requires DatesSorted(ts) && |ts| > 0
    ensures var p := Search(ts, rs, 0, |ts| - 1, 0);
      || ts[p.mid].date == rs
      || (p.l == p.r + 1 && Bounded(ts, rs, p.l, p.r) && IsLowerBound(ts, rs, p.l) && LastProbe(ts, rs, p.l, p.mid))
  {
    SearchStops(ts, rs, 0, |ts| - 1, 0);
    SearchKeeps(ts, rs, 0, |ts| - 1, 0);
  }

  /** The walk back ends at the first index of the probed date. */
  lemma {:induction false} WalkBackFirst(ts: seq<Timestamp>, mid: nat)
    requires DatesSorted(ts) && mid < |ts|
    ensures var j := WalkBack(ts, mid);
      ts[j].date == ts[mid].date && (j > 0 ==> ts[j - 1].date < ts[mid].date)
  {
    if mid > 0 && ts[mid - 1].date == ts[mid].date {
      WalkBackFirst(ts, mid - 1);
    }
  }

  /** On sorted dates the start index is the lower bound of `rs` or the end of
      the list, so every note from the start on is on or after `rs`. */
  lemma StartIndexSound(ts: seq<Timestamp>, rs: Date)
    requires DatesSorted(ts) && |ts| > 0
    ensures StartIndex(ts, rs) == |ts| || IsLowerBound(ts, rs, StartIndex(ts, rs))
    ensures forall i :: StartIndex(ts, rs) <= i < |ts| ==> ts[i].date >= rs
  {
    SearchEnds(ts, rs);
    var p := Search(ts, rs, 0, |ts| - 1, 0);
    if ts[p.mid].date >= rs {
      WalkBackFirst(ts, p.mid);
    }
  }

  /** When some date equals `rs`, the search stops on one and the walk back
      reaches the first of them: the start is the lower bound of `rs`. */
  lemma StartIndexExact(ts: seq<Timestamp>, rs: Date, k: nat)
    requires DatesSorted(ts) && k < |ts| && ts[k].date == rs
    ensures IsLowerBound(ts, rs, StartIndex(ts, rs))
  {
    SearchEnds(ts, rs);
    var p := Search(ts, rs, 0, |ts| - 1, 0);
    WalkBackFirst(ts, p.mid);
  }

  /** Dates 1, 5 and 6 with `range_start` 3: the search ends with its last
      probe on date 1, so the start is the end of the list although the
      lower bound is 1. */
  lemma StartIndexMissesLaterDates()
    ensures var ts := [Timestamp(1, 0), Timestamp(5, 0), Timestamp(6, 0)];
      StartIndex(ts, 3) == 3 && IsLowerBound(ts, 3, 1)
  {
    var ts := [Timestamp(1, 0), Timestamp(5, 0), Timestamp(6, 0)];
    assert Search(ts, 3, 0, 2, 0) == Search(ts, 3, 0, 0, 1) == Search(ts, 3, 1, 0, 0) == Probe(1, 0, 0);
  }

  /** The evidently intended start: a last probe below `rs` means the lower
      bound is `l`, where the loop left it. */
  function StartIndexFixed(ts: seq<Timestamp>, rs: Date): nat
    requires |ts| > 0
  {
    var p := Search(ts, rs, 0, |ts| - 1, 0);
    if ts[p.mid].date >= rs then WalkBack(ts, p.mid) else p.l
  }

  /** The corrected start is always the lower bound. */
  lemma StartIndexFixedIsLowerBound(ts: seq<Timestamp>, rs: Date)
    requires DatesSorted(ts) && |ts| > 0
    ensures IsLowerBound(ts, rs, StartIndexFixed(ts, rs))
  {
    SearchEnds(ts, rs);
    var p := Search(ts, rs, 0, |ts| - 1, 0);
    if ts[p.mid].date >= rs {
      WalkBackFirst(ts, p.mid);
    }
  }

  /** The search and walk-back loops of `query`. */
  method SearchStart(ts: seq<Timestamp>, rs: Date) returns (start: nat)
    requires |ts| > 0
    ensures start == StartIndex(ts, rs)
  {
    var l, r, mid := 0, |ts| - 1, 0;
    while l <= r
      invariant 0 <= l <= |ts| && -1 <= r < |ts| && 0 <= mid < |ts|
      invariant Search(ts, rs, l, r, mid) == Search(ts, rs, 0, |ts| - 1, 0)
      decreases r - l + 1
    {
      mid := (l + r) / 2;
      if ts[mid].date < rs {
        l := mid + 1;
      } else if ts[mid].date > rs {
        r := mid - 1;
      } else {
        break;
      }
    }
    if ts[mid].date >= rs {
      while mid > 0 && ts[mid - 1].date == ts[mid].date
        invariant 0 <= mid < |ts|
        invariant WalkBack(ts, mid) == StartIndex(ts, rs)
      {
        mid := mid - 1;
      }
      start := mid;
    } else {
      start := |ts|;
    }
  }

  // ---------------------------------------------------------------------
  // The scan

  /** A note is kept when there is no tag filter or one of its tags is in it. */
  predicate Include(tags: seq<string>, filterTags: Option<seq<string>>) {
    filterTags.None? || exists k :: 0 <= k < |tags| && tags[k] in filterTags.value
  }

  /** The inner loop of the scan: look for a tag of the note in the filter,
      stopping at the first found. */
  method HasFilteredTag(tags: seq<string>, filterTags: seq<string>) returns (found: bool)
    ensures found <==> Include(tags, Some(filterTags))
  {
    found := false;
    var k := 0;
    while k < |tags|
      invariant 0 <= k <= |tags|
      invariant forall j :: 0 <= j < k ==> tags[j] !in filterTags
    {
      if tags[k] in filterTags {
        found := true;
        break;
      }
      k := k + 1;
    }
  }

  /** The scan from index `i`: stop at the first date after `range_end`,
      keep what `Include` accepts. `tm` maps each timestamp to its note's tags. */
  function Selected(ts: seq<Timestamp>, tm: map<Timestamp, seq<string>>, i: nat,
                    re: Option<Date>, filterTags: Option<seq<string>>): seq<Timestamp>
    requires i <= |ts| && forall k :: 0 <= k < |ts| ==> ts[k] in tm
    decreases |ts| - i
  {
    if i == |ts| || (re.Some? && ts[i].date > re.value) then []
    else (if Include(tm[ts[i]], filterTags) then [ts[i]] else []) + Selected(ts, tm, i + 1, re, filterTags)
  }

  /** `Selected` with the timestamps kept so far carried along, the way the
      loop builds its result. */
  function SelectedAcc(ts: seq<Timestamp>, tm: map<Timestamp, seq<string>>, i: nat,
                       re: Option<Date>, filterTags: Option<seq<string>>, acc: seq<Timestamp>): seq<Timestamp>
    requires i <= |ts| && forall k :: 0 <= k < |ts| ==> ts[k] in tm
    decreases |ts| - i
  {
    if i == |ts| || (re.Some? && ts[i].date > re.value) then acc
    else SelectedAcc(ts, tm, i + 1, re, filterTags, if Include(tm[ts[i]], filterTags) then acc + [ts[i]] else acc)
  }

  /** Carrying the kept timestamps along appends them in front of `Selected`. */
  lemma {:induction false} SelectedAccAppends(ts: seq<Timestamp>, tm: map<Timestamp, seq<string>>, i: nat,
                                              re: Option<Date>, filterTags: Option<seq<string>>, acc: seq<Timestamp>)
    requires i <= |ts| && forall k :: 0 <= k < |ts| ==> ts[k] in tm
    ensures SelectedAcc(ts, tm, i, re, filterTags, acc) == acc + Selected(ts, tm, i, re, filterTags)
    decreases |ts| - i
  {
    if i == |ts| || (re.Some? && ts[i].date > re.value) {
      assert acc + [] == acc;
    } else {
      var kept := if Include(tm[ts[i]], filterTags) then [ts[i]] else [];
      SelectedAccAppends(ts, tm, i + 1, re, filterTags, acc + kept);
      assert (acc + kept) + Selected(ts, tm, i + 1, re, filterTags) == acc + (kept + Selected(ts, tm, i + 1, re, filterTags));
    }
  }

  /** The start of the scan: 0 without `range_start`, the search result with it. */
  function QueryStart(ts: seq<Timestamp>, rs: Option<Date>): (s: nat)
    ensures s <= |ts|
  {
    if rs.Some? && |ts| > 0 then StartIndex(ts, rs.value) else 0
  }

  /** The timestamps of the notes `query` returns, in the order it returns them. */
  function QueryResult(ts: seq<Timestamp>, tm: map<Timestamp, seq<string>>, rs: Option<Date>,
                       re: Option<Date>, filterTags: Option<seq<string>>): seq<Timestamp>
    requires forall k :: 0 <= k < |ts| ==> ts[k] in tm
  {
    Selected(ts, tm, QueryStart(ts, rs), re, filterTags)
  }

  /** What a caller of `query` asks for: the date within both bounds given
      and a tag in the filter when one is given. */
  predicate Wanted(t: Timestamp, tm: map<Timestamp, seq<string>>, rs: Option<Date>,
                   re: Option<Date>, filterTags: Option<seq<string>>)
    requires t in tm
  {
    && (rs.None? || t.date >= rs.value)
    && (re.None? || t.date <= re.value)
    && Include(tm[t], filterTags)
  }

  /** The scan keeps only indices from `i` on, within `range_end`, passing the filter. */
  lemma {:induction false} SelectedSound(ts: seq<Timestamp>, tm: map<Timestamp, seq<string>>, i: nat,
                                         re: Option<Date>, filterTags: Option<seq<string>>)
    requires i <= |ts| && forall k :: 0 <= k < |ts| ==> ts[k] in tm
    ensures forall t :: t in Selected(ts, tm, i, re, filterTags) ==>
      (exists k :: i <= k < |ts| && ts[k] == t)
      && t in tm && (re.None? || t.date <= re.value) && Include(tm[t], filterTags)
    decreases |ts| - i
  {
    if i < |ts| && !(re.Some? && ts[i].date > re.value) {
      SelectedSound(ts, tm, i + 1, re, filterTags);
    }
  }

  /** The scan of an ascending list is ascending. */
  lemma {:induction false} SelectedAscending(ts: seq<Timestamp>, tm: map<Timestamp, seq<string>>, i: nat,
                                             re: Option<Date>, filterTags: Option<seq<string>>)
    requires Ascending(ts)
    requires i <= |ts| && forall k :: 0 <= k < |ts| ==> ts[k] in tm
    ensures Ascending(Selected(ts, tm, i, re, filterTags))
    decreases |ts| - i
  {
    if i < |ts| && !(re.Some? && ts[i].date > re.value) {
      SelectedAscending(ts, tm, i + 1, re, filterTags);
      SelectedSound(ts, tm, i + 1, re, filterTags);
      var rest := Selected(ts, tm, i + 1, re, filterTags);
      forall t | t in rest ensures Before(ts[i], t) {
        var k :| i + 1 <= k < |ts| && ts[k] == t;
      }
    }
  }

  /** On sorted dates the scan from `i` finds every later wanted index: the
      break at the first date after `range_end` skips only later dates. */
  lemma {:induction false} SelectedComplete(ts: seq<Timestamp>, tm: map<Timestamp, seq<string>>, i: nat,
                                            re: Option<Date>, filterTags: Option<seq<string>>, k: nat)
    requires DatesSorted(ts)
    requires i <= k < |ts| && forall j :: 0 <= j < |ts| ==> ts[j] in tm
    requires (re.None? || ts[k].date <= re.value) && Include(tm[ts[k]], filterTags)
    ensures ts[k] in Selected(ts, tm, i, re, filterTags)
    decreases |ts| - i
  {
    if i < k {
      SelectedComplete(ts, tm, i + 1, re, filterTags, k);
    }
  }

  /** Query soundness and order: every result is one of the timestamps, wanted,
      and the results ascend. */
  lemma QuerySound(ts: seq<Timestamp>, tm: map<Timestamp, seq<string>>, rs: Option<Date>,
                   re: Option<Date>, filterTags: Option<seq<string>>)
    requires Ascending(ts) && forall k :: 0 <= k < |ts| ==> ts[k] in tm
    ensures Ascending(QueryResult(ts, tm, rs, re, filterTags))
    ensures forall t :: t in QueryResult(ts, tm, rs, re, filterTags) ==>
      t in ts && t in tm && Wanted(t, tm, rs, re, filterTags)
  {
    AscendingDatesSorted(ts);
    var s := QueryStart(ts, rs);
    if rs.Some? && |ts| > 0 {
      StartIndexSound(ts, rs.value);
    }
    SelectedSound(ts, tm, s, re, filterTags);
    SelectedAscending(ts, tm, s, re, filterTags);
  }

  /** Query completeness, when there is no `range_start` or some date equals it:
      every wanted timestamp is returned. */
  lemma QueryComplete(ts: seq<Timestamp>, tm: map<Timestamp, seq<string>>, rs: Option<Date>,
                      re: Option<Date>, filterTags: Option<seq<string>>)
    requires Ascending(ts) && forall k :: 0 <= k < |ts| ==> ts[k] in tm
    requires rs.None? || exists k :: 0 <= k < |ts| && ts[k].date == rs.value
    ensures forall k :: 0 <= k < |ts| && Wanted(ts[k], tm, rs, re, filterTags) ==>
      ts[k] in QueryResult(ts, tm, rs, re, filterTags)
  {
    AscendingDatesSorted(ts);
    var s := QueryStart(ts, rs);
    if rs.Some? {
      var e :| 0 <= e < |ts| && ts[e].date == rs.value;
      StartIndexExact(ts, rs.value, e);
    }
    forall k | 0 <= k < |ts| && Wanted(ts[k], tm, rs, re, filterTags)
      ensures ts[k] in QueryResult(ts, tm, rs, re, filterTags)
    {
      SelectedComplete(ts, tm, s, re, filterTags, k);
    }
  }

  /** Notes on dates 1, 5 and 6 queried from date 3 with no other bound: none
      is returned, though the notes of dates 5 and 6 are wanted. */
  lemma QueryMissesLaterNotes()
    ensures var ts := [Timestamp(1, 0), Timestamp(5, 0), Timestamp(6, 0)];
      var tm := map[ts[0] := [], ts[1] := [], ts[2] := []];
      QueryResult(ts, tm, Some(3), None, None) == []
      && Wanted(ts[1], tm, Some(3), None, None) && Wanted(ts[2], tm, Some(3), None, None)
  {
    StartIndexMissesLaterDates();
  }

  /** `query` with the corrected start. */
  function QueryResultFixed(ts: seq<Timestamp>, tm: map<Timestamp, seq<string>>, rs: Option<Date>,
                            re: Option<Date>, filterTags: Option<seq<string>>): seq<Timestamp>
    requires DatesSorted(ts) && forall k :: 0 <= k < |ts| ==> ts[k] in tm
  {
    var s := if rs.Some? && |ts| > 0 then StartIndexFixed(ts, rs.value) else 0;
    assert s <= |ts| by {
      if rs.Some? && |ts| > 0 { StartIndexFixedIsLowerBound(ts, rs.value); }
    }
    Selected(ts, tm, s, re, filterTags)
  }

  /** With the corrected start the query returns exactly the wanted
      timestamps, in ascending order. */
  lemma QueryFixedExact(ts: seq<Timestamp>, tm: map<Timestamp, seq<string>>, rs: Option<Date>,
                        re: Option<Date>, filterTags: Option<seq<string>>)
    requires Ascending(ts) && forall k :: 0 <= k < |ts| ==> ts[k] in tm
    ensures DatesSorted(ts)
    ensures Ascending(QueryResultFixed(ts, tm, rs, re, filterTags))
    ensures forall t :: t in QueryResultFixed(ts, tm, rs, re, filterTags) <==>
      t in ts && t in tm && Wanted(t, tm, rs, re, filterTags)
  {
    AscendingDatesSorted(ts);
    var s := if rs.Some? && |ts| > 0 then StartIndexFixed(ts, rs.value) else 0;
    if rs.Some? && |ts| > 0 {
      StartIndexFixedIsLowerBound(ts, rs.value);
    }
    SelectedSound(ts, tm, s, re, filterTags);
    SelectedAscending(ts, tm, s, re, filterTags);
    forall t | t in ts && t in tm && Wanted(t, tm, rs, re, filterTags)
      ensures t in QueryResultFixed(ts, tm, rs, re, filterTags)
    {
      var k :| 0 <= k < |ts| && ts[k] == t;
      SelectedComplete(ts, tm, s, re, filterTags, k);
    }
  }
}
