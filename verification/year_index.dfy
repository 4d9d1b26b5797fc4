/**
  The per-station-per-year index built from the names of the `*.op`
  observation files: one entry `(usaf-wban, year, obs)` per readable file.
*/
module YearIndex {
  import opened Wrappers
  import opened Text
  import opened Decimal
  import opened Stations

  /**
    One file found by the directory walk: its name and its number of lines,
    `None` when the file does not decode as UTF-8.
  */
  datatype OpFile = OpFile(name: string, lines: Option<nat>)

  /** A row of the index: station key, year and number of observations. */
  datatype IndexEntry = IndexEntry(id: string, year: int, obs: int)

  /**
    The entry for file `name` of `lines` lines: `.op` removed, the rest split
    on `-` into usaf, wban and year, and the header line not counted (an empty
    file thus counts -1). A name that does not give three parts, or whose year
    part is not an integer, has no entry.
  */
  function ParseOpFile(name: string, lines: nat): (r: Option<IndexEntry>)
    ensures r.Some? ==> r.value.obs == lines - 1
    ensures r.Some? ==> exists u, w :: r.value.id == StationKey(u, w) && '-' !in u && '-' !in w
  {
    var parts := Split(RemoveAll(name, ".op"), '-');
    if |parts| != 3 then None
    else
      match ParseInt(parts[2])
      case None => None
      case Some(year) => Some(IndexEntry(StationKey(parts[0], parts[1]), year, lines - 1))
  }

  /** The name the downloader gives the file of station `usaf-wban` for `year`. */
  function OpFileName(usaf: string, wban: string, year: nat): string
  {
    usaf + "-" + wban + "-" + IntToString(year) + ".op"
  }

  /** A file named `U-W-Y.op` is indexed as `(U-W, Y, lines - 1)`. */
  lemma ParseOpFileName(usaf: string, wban: string, year: nat, lines: nat)
    requires '-' !in usaf && '-' !in wban && '.' !in usaf && '.' !in wban
    ensures ParseOpFile(OpFileName(usaf, wban, year), lines)
         == Some(IndexEntry(StationKey(usaf, wban), year, lines - 1))
  {
    var y := IntToString(year);
    var stem := usaf + "-" + wban + "-" + y;
    assert y == NatToDecimal(year);
    assert forall c :: c in y ==> IsDigit(c);
    assert '.' !in stem;
    assert OpFileName(usaf, wban, year) == stem + ".op";
    RemoveAllSuffix(stem, ".op");
    var parts := [usaf, wban, y];
    assert Join(parts, '-') == stem by {
      assert parts[1..] == [wban, y];
      assert parts[1..][1..] == [y];
      assert Join([y], '-') == y;
      assert Join([wban, y], '-') == wban + "-" + y;
      assert Join(parts, '-') == usaf + "-" + (wban + "-" + y);
    }
    SplitJoin(parts, '-');
    ParseIntToString(year);
  }

  /** The files that decode; the others are reported and skipped. */
  function Readable(files: seq<OpFile>): (r: seq<OpFile>)
    ensures forall f :: f in r <==> f in files && f.lines.Some?
    ensures |r| <= |files|
  {
    if files == [] then []
    else
      var rest := Readable(files[1..]);
      assert files == [files[0]] + files[1..];
      if files[0].lines.Some? then [files[0]] + rest else rest
  }

  /**
    The index built by the directory walk: one entry per readable file, in
    walk order. Building the table fails as a whole (`None`) as soon as one
    readable file has a name without an entry.
  */
  function BuildIndex(files: seq<OpFile>): (r: Option<seq<IndexEntry>>)
    ensures r.Some? <==> forall f :: f in files && f.lines.Some? ==> ParseOpFile(f.name, f.lines.value).Some?
    ensures r.Some? ==> |r.value| == |Readable(files)|
    ensures r.Some? ==> forall i :: 0 <= i < |r.value| ==>
              Some(r.value[i]) == ParseOpFile(Readable(files)[i].name, Readable(files)[i].lines.value)
  {
    if files == [] then Some([])
    else
      var f := files[0];
      var rest := BuildIndex(files[1..]);
      assert files == [f] + files[1..];
      assert Readable(files) == (if f.lines.Some? then [f] else []) + Readable(files[1..]);
      match f.lines
      case None => rest
      case Some(n) =>
        match ParseOpFile(f.name, n)
        case None => None
        case Some(e) =>
          match rest
          case None => None
          case Some(es) => Some([e] + es)
  }
}
