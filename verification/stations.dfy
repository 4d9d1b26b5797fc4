/**
  The station table read from the ISH history file: one record per row,
  keyed by `usaf-wban`, with the rows lacking a position dropped.
*/
module Stations {
  import opened Wrappers
  import opened Text

  /**
    A row of the station metadata file. Identifier and text columns are kept
    verbatim; `lat`, `lon` (thousandths of a degree) and `elev` (tenths of a
    metre) are `None` when the cell is empty.
  */
  datatype Station = Station(
    usaf: string, wban: string, name: string, ctry: string, fips: string,
    state: string, call: string,
    lat: Option<int>, lon: Option<int>, elev: Option<int>)

  /** The station key `"{}-{}".format(usaf, wban)`: both parts verbatim, no re-padding. */
  function StationKey(usaf: string, wban: string): (k: string)
    ensures |k| == |usaf| + 1 + |wban|
    ensures k[..|usaf|] == usaf && k[|usaf|] == '-' && k[|usaf| + 1..] == wban
  {
    usaf + "-" + wban
  }

  function Key(s: Station): string
  {
    StationKey(s.usaf, s.wban)
  }

  /** The key splits back into the two identifiers when neither holds a `-`. */
  lemma StationKeySplits(usaf: string, wban: string)
    requires '-' !in usaf && '-' !in wban
    ensures Split(StationKey(usaf, wban), '-') == [usaf, wban]
  {
    assert Join([usaf, wban], '-') == StationKey(usaf, wban) by {
      assert [usaf, wban][1..] == [wban];
    }
    SplitJoin([usaf, wban], '-');
  }

  predicate Located(s: Station)
  {
    s.lat.Some? && s.lon.Some?
  }

  /**
    `dropna(how='any', subset=['lat','lon'])`: keeps, in order, exactly the
    rows that have both coordinates.
  */
  function WithLocation(rows: seq<Station>): (r: seq<Station>)
    ensures |r| <= |rows|
    ensures forall s :: s in r <==> s in rows && Located(s)
  {
    if rows == [] then []
    else
      var rest := WithLocation(rows[1..]);
      assert rows == [rows[0]] + rows[1..];
      if Located(rows[0]) then [rows[0]] + rest else rest
  }

  /**
    The filter keeps every located row as many times as it occurs and
    removes every other row.
  */
  lemma {:induction false} WithLocationCounts(rows: seq<Station>, s: Station)
    ensures multiset(WithLocation(rows))[s] == if Located(s) then multiset(rows)[s] else 0
    decreases |rows|
  {
    if rows != [] {
      WithLocationCounts(rows[1..], s);
      assert rows == [rows[0]] + rows[1..];
    }
  }
}
