/**
  Decoding one daily observation row: its station key and category, its
  date, its padded FRSHTT field and flags, and its temperature readings
  with the missing-value code removed.
*/
module Observations {
  import opened Wrappers
  import opened Decimal
  import opened Calendar
  import opened Joins
  import opened StationIds
  import opened ObsDates
  import opened WeatherFlags

  /** The token the temperature columns use for "no reading". */
  const MissingTemp: string := "99.9"

  /** `replace('99.9', np.nan)` on one cell: the code becomes missing, any other token stays. */
  function RecodeTemp(token: string): (r: Option<string>)
    ensures r.None? <==> token == MissingTemp
    ensures r.Some? ==> r.value == token
  {
    if token == MissingTemp then None else Some(token)
  }

  /**
    `replace('99.9', np.nan)` on a whole temperature column: same length,
    every cell but the code kept as it is, and no code left as a reading.
  */
  function RecodeColumn(col: seq<string>): (r: seq<Option<string>>)
    ensures |r| == |col|
    ensures forall i :: 0 <= i < |col| ==> (r[i].None? <==> col[i] == MissingTemp)
    ensures forall i :: 0 <= i < |col| && r[i].Some? ==> r[i].value == col[i]
    ensures Some(MissingTemp) !in r
  {
    seq(|col|, i requires 0 <= i < |col| => RecodeTemp(col[i]))
  }

  /** The columns of a daily record the decoding uses, as text. */
  datatype RawObservation = RawObservation(
    stn: string, wban: string, year: string, monthday: string,
    temp: string, max: string, min: string, frshtt: string)

  /** A decoded row; `None` marks a missing value. */
  datatype Observation = Observation(
    id: Option<string>, category: Option<string>, date: Option<Date>,
    frshtt: string, flags: Flags,
    tempC: Option<string>, maxC: Option<string>, minC: Option<string>)

  /**
    One row through the decoding steps. No step drops the row: an
    unparseable identifier, an unknown station or an invalid date each only
    leave their own field missing.
  */
  function DecodeRow(row: RawObservation, selected: map<string, SelectedStation>): (o: Observation)
    ensures o.id == GetId(row.stn, row.wban)
    ensures o.id.Some? <==> ParseInt(row.stn).Some? && ParseInt(row.wban).Some?
    ensures o.category == StationCategory(selected, row.stn, row.wban)
    ensures o.category.Some? <==> o.id.Some? && o.id.value in selected
    ensures o.category.Some? ==> o.category.value == selected[o.id.value].category
    ensures o.date == DateFromRow(row.year, row.monthday)
    ensures o.date.Some? ==> ValidDate(o.date.value)
    ensures o.frshtt == PadFrshtt(row.frshtt)
    ensures |o.frshtt| >= 6 && o.frshtt[|o.frshtt| - |row.frshtt|..] == row.frshtt
    ensures forall i :: 0 <= i < 6 ==> (Flag(o.flags, i) <==> RawFlag(row.frshtt, i))
    ensures DecodeFlags(o.frshtt) == o.flags
    ensures o.tempC != Some(MissingTemp) && o.maxC != Some(MissingTemp) && o.minC != Some(MissingTemp)
    ensures row.temp == MissingTemp ==> o.tempC.None?
    ensures row.max == MissingTemp ==> o.maxC.None?
    ensures row.min == MissingTemp ==> o.minC.None?
    ensures row.temp != MissingTemp ==> o.tempC == Some(row.temp)
    ensures row.max != MissingTemp ==> o.maxC == Some(row.max)
    ensures row.min != MissingTemp ==> o.minC == Some(row.min)
  {
    DecodePadded(row.frshtt);
    Observation(
      GetId(row.stn, row.wban),
      StationCategory(selected, row.stn, row.wban),
      DateFromRow(row.year, row.monthday),
      PadFrshtt(row.frshtt),
      DecodeFlags(row.frshtt),
      RecodeTemp(row.temp), RecodeTemp(row.max), RecodeTemp(row.min))
  }
}
