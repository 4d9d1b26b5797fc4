/**
  The key-uniqueness checks and the two inner joins that turn the station
  table, the year statistics, the observation sums and the externally
  computed classification into the table of selected stations.
*/
module Joins {
  import opened Wrappers
  import opened Stations
  import opened YearIndex
  import opened Coverage

  /** `index.is_unique` for a table given as (key, row) pairs. */
  predicate UniqueKeys<V>(rows: seq<(string, V)>)
  {
    forall i, j :: 0 <= i < j < |rows| ==> rows[i].0 != rows[j].0
  }

  /** The map from key to row; on a repeated key the later row wins. */
  function ToMap<V>(rows: seq<(string, V)>): (m: map<string, V>)
    ensures forall k :: k in m <==> exists i :: 0 <= i < |rows| && rows[i].0 == k
    ensures UniqueKeys(rows) ==> forall i :: 0 <= i < |rows| ==> m[rows[i].0] == rows[i].1
    decreases |rows|
  {
    if rows == [] then map[]
    else
      var init, last := rows[..|rows| - 1], rows[|rows| - 1];
      var m := ToMap(init)[last.0 := last.1];
      ToMapStep(ToMap(init), init, last);
      assert rows == init + [last];
      m
  }

  lemma ToMapStep<V>(m0: map<string, V>, init: seq<(string, V)>, last: (string, V))
    requires forall k :: k in m0 <==> exists i :: 0 <= i < |init| && init[i].0 == k
    requires UniqueKeys(init) ==> forall i :: 0 <= i < |init| ==> m0[init[i].0] == init[i].1
    ensures var m, rows := m0[last.0 := last.1], init + [last];
      && (forall k :: k in m <==> exists i :: 0 <= i < |rows| && rows[i].0 == k)
      && (UniqueKeys(rows) ==> forall i :: 0 <= i < |rows| ==> m[rows[i].0] == rows[i].1)
  {
    var m, rows := m0[last.0 := last.1], init + [last];
    forall k
      ensures k in m <==> exists i :: 0 <= i < |rows| && rows[i].0 == k
    {
      if k in m && k != last.0 {
        var i :| 0 <= i < |init| && init[i].0 == k;
        assert rows[i] == init[i];
      }
      if k == last.0 {
        assert rows[|init|].0 == k;
      }
      if exists i :: 0 <= i < |rows| && rows[i].0 == k {
        var i :| 0 <= i < |rows| && rows[i].0 == k;
        if i < |init| {
          assert init[i].0 == k;
        }
      }
    }
    if UniqueKeys(rows) {
      assert UniqueKeys(init) by {
        forall i, j | 0 <= i < j < |init|
          ensures init[i].0 != init[j].0
        {
          assert rows[i] == init[i] && rows[j] == init[j];
        }
      }
      forall i | 0 <= i < |rows|
        ensures m[rows[i].0] == rows[i].1
      {
        if i < |init| {
          assert rows[i] == init[i];
          assert rows[i].0 != rows[|init|].0;
        }
      }
    }
  }

  /**
    A table indexed by its key column, after the uniqueness check the source
    performs before every join: `None` when a key repeats (pandas refuses to
    align a non-unique index), otherwise the map from each key to its row.
  */
  function IndexBy<V>(rows: seq<(string, V)>): (r: Option<map<string, V>>)
    ensures r.Some? <==> UniqueKeys(rows)
    ensures r.Some? ==> forall k :: k in r.value <==> exists i :: 0 <= i < |rows| && rows[i].0 == k
    ensures r.Some? ==> forall i :: 0 <= i < |rows| ==> r.value[rows[i].0] == rows[i].1
  {
    if UniqueKeys(rows) then Some(ToMap(rows)) else None
  }

  /** `set_index(['id'])` on the station table: each row paired with its key. */
  function Keyed(rows: seq<Station>): (r: seq<(string, Station)>)
    ensures |r| == |rows|
    ensures forall i :: 0 <= i < |rows| ==> r[i] == (Key(rows[i]), rows[i])
  {
    seq(|rows|, i requires 0 <= i < |rows| => (Key(rows[i]), rows[i]))
  }

  /** A row of `scdf`: station attributes, year statistics and observation sum. */
  datatype StationSummary = StationSummary(station: Station, years: YearStats, obs: int)

  /** A row of `scdfc`: a summarised station and its climate category. */
  datatype SelectedStation = SelectedStation(summary: StationSummary, category: string)

  /**
    `pd.concat([stations, years, obs_count], axis=1, join='inner')` on
    unique indexes: a key survives iff it is in all three tables, and its row
    carries each table's attributes for that key unchanged.
  */
  function JoinStats(st: map<string, Station>, years: map<string, YearStats>, obs: map<string, int>): (r: map<string, StationSummary>)
    ensures forall k :: k in r <==> k in st && k in years && k in obs
    ensures forall k :: k in r ==> r[k] == StationSummary(st[k], years[k], obs[k])
  {
    map k | k in st && k in years && k in obs :: StationSummary(st[k], years[k], obs[k])
  }

  /** `pd.concat([scdf, selections], axis=1, join='inner')` on unique indexes. */
  function JoinCategories(scdf: map<string, StationSummary>, cats: map<string, string>): (r: map<string, SelectedStation>)
    ensures forall k :: k in r <==> k in scdf && k in cats
    ensures forall k :: k in r ==> r[k] == SelectedStation(scdf[k], cats[k])
  {
    map k | k in scdf && k in cats :: SelectedStation(scdf[k], cats[k])
  }

  /** No two located stations share a key. */
  predicate StationKeysUnique(rows: seq<Station>)
  {
    forall i, j :: 0 <= i < j < |rows| ==> Key(rows[i]) != Key(rows[j])
  }

  /**
    From the raw station rows and the year index to `scdf`: stations without
    a position are dropped, the uniqueness of the station keys is checked
    (`None` when it fails), and the inner join keeps exactly the located
    stations that have index entries, each with its own record, its year
    statistics and the sum of its observations.
  */
  function SummarizeStations(rows: seq<Station>, es: seq<IndexEntry>): (r: Option<map<string, StationSummary>>)
    ensures r.Some? <==> StationKeysUnique(WithLocation(rows))
    ensures r.Some? ==> SummaryOf(r.value, rows, es)
  {
    var located := WithLocation(rows);
    KeyedUnique(located);
    match IndexBy(Keyed(located))
    case None => None
    case Some(st) =>
      var r := JoinStats(st, StationYears(es), StationObs(es));
      SummaryRows(rows, es, st);
      Some(r)
  }

  lemma KeyedUnique(rows: seq<Station>)
    ensures UniqueKeys(Keyed(rows)) <==> StationKeysUnique(rows)
  {
  }

  /** A key of the indexed station table belongs to a located row of its own. */
  lemma KeyedIndexHas(rows: seq<Station>, st: map<string, Station>, k: string)
    requires IndexBy(Keyed(WithLocation(rows))) == Some(st)
    requires k in st
    ensures st[k] in rows && Located(st[k]) && Key(st[k]) == k
  {
    var located := WithLocation(rows);
    var i :| 0 <= i < |located| && Keyed(located)[i].0 == k;
    assert st[k] == located[i];
    assert located[i] in located;
  }

  /** Every located row is in the indexed station table under its key. */
  lemma KeyedIndexFrom(rows: seq<Station>, st: map<string, Station>, s: Station)
    requires IndexBy(Keyed(WithLocation(rows))) == Some(st)
    requires s in rows && Located(s)
    ensures Key(s) in st
  {
    var located := WithLocation(rows);
    var keyed := Keyed(located);
    assert s in located;
    var i :| 0 <= i < |located| && located[i] == s;
    assert keyed[i].0 == Key(s);
    assert exists j :: 0 <= j < |keyed| && keyed[j].0 == Key(s);
  }

  /**
    `r` is the inner join of the located stations with the year index: a key
    is present iff a located station and an index entry have it, and its row
    is that station with the key's year statistics and observation sum.
  */
  ghost predicate SummaryOf(r: map<string, StationSummary>, rows: seq<Station>, es: seq<IndexEntry>)
  {
    && (forall k :: k in r <==>
          (exists s :: s in rows && Located(s) && Key(s) == k) && (exists e :: e in es && e.id == k))
    && (forall k :: k in r ==>
          && r[k].station in rows
          && Located(r[k].station)
          && Key(r[k].station) == k
          && k in StationYears(es) && r[k].years == StationYears(es)[k]
          && r[k].obs == ObsOf(es, k))
  }

  lemma SummaryRows(rows: seq<Station>, es: seq<IndexEntry>, st: map<string, Station>)
    requires IndexBy(Keyed(WithLocation(rows))) == Some(st)
    ensures SummaryOf(JoinStats(st, StationYears(es), StationObs(es)), rows, es)
  {
    forall k | k in st
      ensures st[k] in rows && Located(st[k]) && Key(st[k]) == k
    {
      KeyedIndexHas(rows, st, k);
    }
    forall s | s in rows && Located(s)
      ensures Key(s) in st
    {
      KeyedIndexFrom(rows, st, s);
    }
    assert forall k :: k in StationYears(es) <==> exists e :: e in es && e.id == k;
    assert forall k :: k in StationObs(es) <==> exists e :: e in es && e.id == k;
  }

  /**
    `scdfc`: the selection rows returned by the classification service are
    checked for unique keys (`None` when a key repeats) and inner-joined
    with `scdf`, keeping exactly the summarised stations that were
    classified, each with the category the service gave it.
  */
  function SelectStations(scdf: map<string, StationSummary>, selections: seq<(string, string)>): (r: Option<map<string, SelectedStation>>)
    ensures r.Some? <==> UniqueKeys(selections)
    ensures r.Some? ==> forall k :: k in r.value <==> k in scdf && exists i :: 0 <= i < |selections| && selections[i].0 == k
    ensures r.Some? ==> forall i :: 0 <= i < |selections| && selections[i].0 in scdf ==>
              r.value[selections[i].0] == SelectedStation(scdf[selections[i].0], selections[i].1)
  {
    match IndexBy(selections)
    case None => None
    case Some(cats) => Some(JoinCategories(scdf, cats))
  }
}
