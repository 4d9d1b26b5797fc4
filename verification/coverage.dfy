/**
  Per-station statistics over the year index: how many entries a station
  has, its first and last year, and its total number of observations.
*/
module Coverage {
  import opened YearIndex

  /** The station-key column of the index. */
  function Ids(es: seq<IndexEntry>): (r: seq<string>)
    ensures |r| == |es|
    ensures forall i :: 0 <= i < |es| ==> r[i] == es[i].id
  {
    seq(|es|, i requires 0 <= i < |es| => es[i].id)
  }

  /** The stations that have at least one index entry. */
  function KeySet(es: seq<IndexEntry>): set<string>
  {
    set e | e in es :: e.id
  }

  /** One row of the `years` table: `count`, `max` and `min` of the year column. */
  datatype YearStats = YearStats(count: nat, maxYear: int, minYear: int)

  /**
    `groupby(level=0)` on the year column followed by `count()`, `max()` and
    `min()`, computed in one pass over the index. `count` is the number of
    entries of the station (not of distinct years); `max` and `min` are years
    of the station's own entries and bound all of them.
  */
  function StationYears(es: seq<IndexEntry>): (r: map<string, YearStats>)
    ensures Summarizes(r, es)
    decreases |es|
  {
    if es == [] then map[]
    else
      var init, e := es[..|es| - 1], es[|es| - 1];
      var m := StationYears(init);
      assert es == init + [e];
      AbsorbSummarizes(m, init, e);
      m[e.id := Absorb(m, e)]
  }

  /** The facts `StationYears` promises about its result `r` for the index `es`. */
  ghost predicate Summarizes(r: map<string, YearStats>, es: seq<IndexEntry>)
  {
    && r.Keys == KeySet(es)
    && (forall k :: k in r ==> r[k].count == multiset(Ids(es))[k])
    && (forall k :: k in r ==> r[k].minYear <= r[k].maxYear)
    && (forall k :: k in r ==> exists e :: e in es && e.id == k && e.year == r[k].maxYear)
    && (forall k :: k in r ==> exists e :: e in es && e.id == k && e.year == r[k].minYear)
    && (forall e :: e in es ==> e.id in r && r[e.id].minYear <= e.year <= r[e.id].maxYear)
  }

  lemma AbsorbSummarizes(m: map<string, YearStats>, es: seq<IndexEntry>, e: IndexEntry)
    requires Summarizes(m, es)
    ensures Summarizes(m[e.id := Absorb(m, e)], es + [e])
  {
    AbsorbKeys(m, es, e);
    AbsorbCount(m, es, e);
    AbsorbRange(m, es, e);
  }

  /** The year statistics of `e`'s station once `e` is taken into account. */
  function Absorb(m: map<string, YearStats>, e: IndexEntry): YearStats
  {
    if e.id in m then
      var s := m[e.id];
      YearStats(s.count + 1,
                if e.year > s.maxYear then e.year else s.maxYear,
                if e.year < s.minYear then e.year else s.minYear)
    else YearStats(1, e.year, e.year)
  }

  lemma AbsorbKeys(m: map<string, YearStats>, es: seq<IndexEntry>, e: IndexEntry)
    requires m.Keys == KeySet(es)
    ensures m[e.id := Absorb(m, e)].Keys == KeySet(es + [e])
  {
    assert forall x :: x in es + [e] <==> x in es || x == e;
  }

  lemma AbsorbCount(m: map<string, YearStats>, es: seq<IndexEntry>, e: IndexEntry)
    requires m.Keys == KeySet(es)
    requires forall k :: k in m ==> m[k].count == multiset(Ids(es))[k]
    ensures forall k :: k in m[e.id := Absorb(m, e)] ==>
              m[e.id := Absorb(m, e)][k].count == multiset(Ids(es + [e]))[k]
  {
    assert Ids(es + [e]) == Ids(es) + [e.id];
    if e.id !in m {
      assert e.id !in Ids(es);
    }
  }

  lemma AbsorbRange(m: map<string, YearStats>, es: seq<IndexEntry>, e: IndexEntry)
    requires m.Keys == KeySet(es)
    requires forall k :: k in m ==> m[k].minYear <= m[k].maxYear
    requires forall k :: k in m ==> exists x :: x in es && x.id == k && x.year == m[k].maxYear
    requires forall k :: k in m ==> exists x :: x in es && x.id == k && x.year == m[k].minYear
    requires forall x :: x in es ==> m[x.id].minYear <= x.year <= m[x.id].maxYear
    ensures var r := m[e.id := Absorb(m, e)];
      && (forall k :: k in r ==> r[k].minYear <= r[k].maxYear)
      && (forall k :: k in r ==> exists x :: x in es + [e] && x.id == k && x.year == r[k].maxYear)
      && (forall k :: k in r ==> exists x :: x in es + [e] && x.id == k && x.year == r[k].minYear)
      && (forall x :: x in es + [e] ==> r[x.id].minYear <= x.year <= r[x.id].maxYear)
  {
    var r := m[e.id := Absorb(m, e)];
    assert forall x :: x in es + [e] <==> x in es || x == e;
    forall k | k in r
      ensures exists x :: x in es + [e] && x.id == k && x.year == r[k].maxYear
      ensures exists x :: x in es + [e] && x.id == k && x.year == r[k].minYear
    {
      if k == e.id {
        if e.id in m {
          var hi :| hi in es && hi.id == k && hi.year == m[k].maxYear;
          var lo :| lo in es && lo.id == k && lo.year == m[k].minYear;
          assert hi in es + [e] && lo in es + [e];
        }
        assert e in es + [e];
      } else {
        var hi :| hi in es && hi.id == k && hi.year == m[k].maxYear;
        var lo :| lo in es && lo.id == k && lo.year == m[k].minYear;
        assert hi in es + [e] && lo in es + [e];
      }
    }
  }

  /** The reference sum: observations of the entries of station `k`. */
  function ObsOf(es: seq<IndexEntry>, k: string): int
    decreases |es|
  {
    if es == [] then 0
    else ObsOf(es[..|es| - 1], k) + (if es[|es| - 1].id == k then es[|es| - 1].obs else 0)
  }

  /** `dfGsod.obs.sum()`: all observations of the index. */
  function TotalObs(es: seq<IndexEntry>): int
    decreases |es|
  {
    if es == [] then 0 else TotalObs(es[..|es| - 1]) + es[|es| - 1].obs
  }

  /**
    `groupby(level=0)` on the obs column followed by `sum()`, computed in one
    pass: one row per station of the index, holding the sum of its entries.
  */
  function StationObs(es: seq<IndexEntry>): (r: map<string, int>)
    ensures r.Keys == KeySet(es)
    ensures forall k :: k in r ==> r[k] == ObsOf(es, k)
    decreases |es|
  {
    if es == [] then map[]
    else
      var init, e := es[..|es| - 1], es[|es| - 1];
      var m := StationObs(init);
      assert es == init + [e];
      AddObs(init, e, m);
      m[e.id := (if e.id in m then m[e.id] else 0) + e.obs]
  }

  /** Adding one entry to the per-station sums of `init` gives those of `init + [e]`. */
  lemma AddObs(init: seq<IndexEntry>, e: IndexEntry, m: map<string, int>)
    requires m.Keys == KeySet(init)
    requires forall k :: k in m ==> m[k] == ObsOf(init, k)
    ensures var r := m[e.id := (if e.id in m then m[e.id] else 0) + e.obs];
      && r.Keys == KeySet(init + [e])
      && forall k :: k in r ==> r[k] == ObsOf(init + [e], k)
  {
    var es := init + [e];
    assert es[..|es| - 1] == init && es[|es| - 1] == e;
    assert forall x :: x in es <==> x in init || x == e;
    forall k | k !in m
      ensures ObsOf(init, k) == 0
    {
      ObsAbsent(init, k);
    }
  }

  /** A station without entries has no observations. */
  lemma {:induction false} ObsAbsent(es: seq<IndexEntry>, k: string)
    requires k !in KeySet(es)
    ensures ObsOf(es, k) == 0
    decreases |es|
  {
    if es != [] {
      var init := es[..|es| - 1];
      assert forall x :: x in init ==> x in es;
      assert es[|es| - 1] in es;
      ObsAbsent(init, k);
    }
  }

  predicate Distinct(ks: seq<string>)
  {
    forall i, j :: 0 <= i < j < |ks| ==> ks[i] != ks[j]
  }

  /** The per-station totals `m[k]` summed over the keys `ks`. */
  function SumAt(m: map<string, int>, ks: seq<string>): int
    requires forall k :: k in ks ==> k in m
    decreases |ks|
  {
    if ks == [] then 0 else SumAt(m, ks[..|ks| - 1]) + m[ks[|ks| - 1]]
  }

  /** The reference sums `ObsOf(es, k)` summed over the keys `ks`. */
  function SumObsOf(es: seq<IndexEntry>, ks: seq<string>): int
    decreases |ks|
  {
    if ks == [] then 0 else SumObsOf(es, ks[..|ks| - 1]) + ObsOf(es, ks[|ks| - 1])
  }

  lemma {:induction false} SumAtObsOf(es: seq<IndexEntry>, ks: seq<string>)
    requires forall k :: k in ks ==> k in StationObs(es)
    ensures SumAt(StationObs(es), ks) == SumObsOf(es, ks)
    decreases |ks|
  {
    if ks != [] {
      var init := ks[..|ks| - 1];
      assert forall k :: k in init ==> k in ks;
      assert ks[|ks| - 1] in ks;
      SumAtObsOf(es, init);
    }
  }

  /** Appending entry `e` adds `e.obs` to the sum exactly when its station is among `ks`. */
  lemma {:induction false} SumObsOfStep(es: seq<IndexEntry>, e: IndexEntry, ks: seq<string>)
    requires Distinct(ks)
    ensures SumObsOf(es + [e], ks) == SumObsOf(es, ks) + (if e.id in ks then e.obs else 0)
    decreases |ks|
  {
    if ks != [] {
      var init, k := ks[..|ks| - 1], ks[|ks| - 1];
      assert (es + [e])[..|es + [e]| - 1] == es;
      assert ObsOf(es + [e], k) == ObsOf(es, k) + (if e.id == k then e.obs else 0);
      assert Distinct(init);
      SumObsOfStep(es, e, init);
      assert e.id in ks <==> e.id in init || e.id == k by {
        assert ks == init + [k];
      }
      assert e.id == k ==> e.id !in init;
    }
  }

  /**
    Summing the per-station totals over all stations, each counted once,
    gives the total number of observations printed for the whole index.
  */
  lemma {:induction false} StationObsSumsToTotal(es: seq<IndexEntry>, ks: seq<string>)
    requires Distinct(ks)
    requires forall k :: k in ks <==> k in StationObs(es)
    ensures SumAt(StationObs(es), ks) == TotalObs(es)
  {
    SumAtObsOf(es, ks);
    SumObsOfCovers(es, ks);
  }

  lemma {:induction false} SumObsOfCovers(es: seq<IndexEntry>, ks: seq<string>)
    requires Distinct(ks)
    requires forall e :: e in es ==> e.id in ks
    ensures SumObsOf(es, ks) == TotalObs(es)
    decreases |es|
  {
    if es == [] {
      SumObsOfEmpty(ks);
    } else {
      var init, e := es[..|es| - 1], es[|es| - 1];
      assert es == init + [e];
      assert forall x :: x in init ==> x in es;
      SumObsOfCovers(init, ks);
      SumObsOfStep(init, e, ks);
    }
  }

  lemma {:induction false} SumObsOfEmpty(ks: seq<string>)
    ensures SumObsOf([], ks) == 0
    decreases |ks|
  {
    if ks != [] {
      SumObsOfEmpty(ks[..|ks| - 1]);
    }
  }
}
