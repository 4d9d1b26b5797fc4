/**
  Rebuilding the station key of an observation row from its numeric
  station and WBAN fields, and looking up the station's category.
*/
module StationIds {
  import opened Wrappers
  import opened Text
  import opened Decimal
  import opened Stations
  import opened Joins

  /**
    `getId(stn, wban)`: both fields through `int()` and then
    `"{:0>6}-{:0>5}".format(...)`; `None` when either does not parse.
  */
  function GetId(stn: string, wban: string): (r: Option<string>)
    ensures r.Some? <==> ParseInt(stn).Some? && ParseInt(wban).Some?
    ensures forall a, b :: ParseInt(stn) == Some(a) && ParseInt(wban) == Some(b) ==>
              r == Some(StationKey(PadDecimal(a, 6), PadDecimal(b, 5)))
  {
    match (ParseInt(stn), ParseInt(wban))
    case (Some(a), Some(b)) => Some(StationKey(PadDecimal(a, 6), PadDecimal(b, 5)))
    case _ => None
  }

  /**
    For a station number below 10^6 and a WBAN number below 10^5 the key is
    12 characters: 6 digits that write the station number, `-`, and 5 digits
    that write the WBAN number.
  */
  lemma GetIdFixedWidth(stn: string, wban: string, a: int, b: int)
    requires ParseInt(stn) == Some(a) && 0 <= a < 1000000
    requires ParseInt(wban) == Some(b) && 0 <= b < 100000
    ensures GetId(stn, wban).Some?
    ensures var k := GetId(stn, wban).value;
      && |k| == 12 && k[6] == '-'
      && AllDigits(k[..6]) && Value(k[..6]) == a
      && AllDigits(k[7..]) && Value(k[7..]) == b
  {
    Pow10Widths();
    var x, y := PadDecimal(a, 6), PadDecimal(b, 5);
    PadDecimalFixed(a, 6);
    PadDecimalFixed(b, 5);
    var k := StationKey(x, y);
    assert GetId(stn, wban) == Some(k);
    assert k[..6] == x && k[7..] == y;
  }

  lemma Pow10Widths()
    ensures Pow10(6) == 1000000 && Pow10(5) == 100000
  {
    assert Pow10(1) == 10;
    assert Pow10(2) == 100;
    assert Pow10(3) == 1000;
    assert Pow10(4) == 10000;
  }

  /**
    The decoder and the station table agree on keys: for a 6-digit USAF and
    a 5-digit WBAN identifier, `getId` gives the station table's key both
    from the identifiers as written and from the integers the fixed-width
    reader turns them into (leading zeros dropped).
  */
  lemma GetIdRestoresKey(usaf: string, wban: string)
    requires |usaf| == 6 && AllDigits(usaf)
    requires |wban| == 5 && AllDigits(wban)
    ensures GetId(usaf, wban) == Some(StationKey(usaf, wban))
    ensures GetId(IntToString(Value(usaf)), IntToString(Value(wban))) == Some(StationKey(usaf, wban))
  {
    ParseDigits(usaf);
    ParseDigits(wban);
    ParseIntToString(Value(usaf));
    ParseIntToString(Value(wban));
    RepadDigits(usaf);
    RepadDigits(wban);
  }

  /** `getId(725, 54)` is `000725-00054`. */
  lemma GetIdExample()
    ensures GetId("725", "54") == Some("000725-00054")
  {
    ParseLiterals();
    PadLiterals();
  }

  lemma ParseLiterals()
    ensures ParseInt("725") == Some(725) && ParseInt("54") == Some(54)
  {
    assert Value("725") == 725 by {
      assert "725"[..2] == "72" && "72"[..1] == "7" && "7"[..0] == "";
    }
    assert Value("54") == 54 by {
      assert "54"[..1] == "5" && "5"[..0] == "";
    }
    ParseDigits("725");
    ParseDigits("54");
  }

  lemma PadLiterals()
    ensures StationKey(PadDecimal(725, 6), PadDecimal(54, 5)) == "000725-00054"
  {
    IntLiterals();
    ZeroFills();
  }

  lemma ZeroFills()
    ensures PadLeft("725", 6, '0') == "000725" && PadLeft("54", 5, '0') == "00054"
  {
    assert Repeat('0', 3) == "000";
  }

  lemma IntLiterals()
    ensures IntToString(725) == "725" && IntToString(54) == "54"
  {
    assert NatToDecimal(7) == "7";
    assert NatToDecimal(72) == "72";
    assert NatToDecimal(5) == "5";
  }

  /**
    `getStationByStnWban(stn, wban)`: the category of the selected station
    with the rebuilt key; `None`, never a failure, when the key cannot be
    built or is not among the selected stations.
  */
  function StationCategory(selected: map<string, SelectedStation>, stn: string, wban: string): (r: Option<string>)
    ensures r.Some? <==> GetId(stn, wban).Some? && GetId(stn, wban).value in selected
    ensures r.Some? ==> r.value == selected[GetId(stn, wban).value].category
  {
    match GetId(stn, wban)
    case None => None
    case Some(id) => if id in selected then Some(selected[id].category) else None
  }

  /**
    A row read from station `usaf-wban`'s file, whose identifiers arrive as
    integers, gets the category that station was selected with, and none if
    it was not selected.
  */
  lemma CategoryOfStationRow(selected: map<string, SelectedStation>, usaf: string, wban: string)
    requires |usaf| == 6 && AllDigits(usaf)
    requires |wban| == 5 && AllDigits(wban)
    ensures StationCategory(selected, IntToString(Value(usaf)), IntToString(Value(wban)))
         == if StationKey(usaf, wban) in selected then Some(selected[StationKey(usaf, wban)].category) else None
  {
    GetIdRestoresKey(usaf, wban);
  }
}
