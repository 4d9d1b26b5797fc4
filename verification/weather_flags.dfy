/**
  The FRSHTT field of a daily record: six positional event indicators,
  fog, rain, snow, hail, thunder and tornado, left-padded with `0`.
*/
module WeatherFlags {
  import opened Text

  datatype Flags = Flags(fog: bool, rain: bool, snow: bool, hail: bool, thunder: bool, tornado: bool)

  /** Flag `i`, counting fog as 0 and tornado as 5. */
  function Flag(f: Flags, i: nat): bool
    requires i < 6
  {
    match i
    case 0 => f.fog
    case 1 => f.rain
    case 2 => f.snow
    case 3 => f.hail
    case 4 => f.thunder
    case _ => f.tornado
  }

  /** `"{:0>6}".format(frshtt)`. */
  function PadFrshtt(frshtt: string): (p: string)
    ensures |p| == if |frshtt| < 6 then 6 else |frshtt|
    ensures p[|p| - |frshtt|..] == frshtt
    ensures forall i :: 0 <= i < |p| - |frshtt| ==> p[i] == '0'
  {
    PadLeft(frshtt, 6, '0')
  }

  /**
    Flag `i` read off the raw field: a field shorter than six characters
    holds the last flags, aligned to the right; a longer one is read from the
    left.
  */
  predicate RawFlag(frshtt: string, i: nat)
    requires i < 6
  {
    if |frshtt| >= 6 then frshtt[i] == '1'
    else i >= 6 - |frshtt| && frshtt[i - (6 - |frshtt|)] == '1'
  }

  /** `p[i:i+1] == '1'`. */
  function IsSet(p: string, i: nat): (b: bool)
    requires i < |p|
    ensures b <==> p[i] == '1'
  {
    assert |p[i..i + 1]| == 1 && p[i..i + 1][0] == p[i];
    p[i..i + 1] == "1"
  }

  /** The flags at the first six positions of a padded field. */
  function FlagsAt(p: string): (f: Flags)
    requires |p| >= 6
    ensures forall i :: 0 <= i < 6 ==> (Flag(f, i) <==> p[i] == '1')
  {
    var f := Flags(IsSet(p, 0), IsSet(p, 1), IsSet(p, 2), IsSet(p, 3), IsSet(p, 4), IsSet(p, 5));
    assert Flag(f, 0) == IsSet(p, 0) && Flag(f, 1) == IsSet(p, 1) && Flag(f, 2) == IsSet(p, 2);
    assert Flag(f, 3) == IsSet(p, 3) && Flag(f, 4) == IsSet(p, 4) && Flag(f, 5) == IsSet(p, 5);
    f
  }

  /** The six flags: position `i` of the padded field is `'1'`. */
  function DecodeFlags(frshtt: string): (f: Flags)
    ensures forall i :: 0 <= i < 6 ==> (Flag(f, i) <==> RawFlag(frshtt, i))
  {
    PaddedFlag(frshtt);
    FlagsAt(PadFrshtt(frshtt))
  }

  /** Position `i` of the padded field is the raw field's flag `i`. */
  lemma PaddedFlag(frshtt: string)
    ensures forall i :: 0 <= i < 6 ==> (PadFrshtt(frshtt)[i] == '1' <==> RawFlag(frshtt, i))
  {
    var p := PadFrshtt(frshtt);
    forall i | 0 <= i < 6
      ensures p[i] == '1' <==> RawFlag(frshtt, i)
    {
      if |frshtt| < 6 && i >= 6 - |frshtt| {
        assert p[i] == p[|p| - |frshtt|..][i - (6 - |frshtt|)];
      }
    }
  }

  /** Two sets of flags that agree at every position are equal. */
  lemma FlagsEqual(f: Flags, g: Flags)
    requires forall i :: 0 <= i < 6 ==> Flag(f, i) == Flag(g, i)
    ensures f == g
  {
    assert Flag(f, 0) == Flag(g, 0) && Flag(f, 1) == Flag(g, 1) && Flag(f, 2) == Flag(g, 2);
    assert Flag(f, 3) == Flag(g, 3) && Flag(f, 4) == Flag(g, 4) && Flag(f, 5) == Flag(g, 5);
  }

  /** The six-character field a set of flags is written as. */
  function EncodeFlags(f: Flags): (s: string)
    ensures |s| == 6
    ensures forall i :: 0 <= i < 6 ==> s[i] == if Flag(f, i) then '1' else '0'
  {
    var c := (b: bool) => if b then '1' else '0';
    [c(f.fog), c(f.rain), c(f.snow), c(f.hail), c(f.thunder), c(f.tornado)]
  }

  /** Decoding undoes encoding. */
  lemma DecodeEncode(f: Flags)
    ensures DecodeFlags(EncodeFlags(f)) == f
  {
    FlagsEqual(DecodeFlags(EncodeFlags(f)), f);
  }

  /** Decoding the padded field gives the same flags as decoding the raw one. */
  lemma DecodePadded(frshtt: string)
    ensures DecodeFlags(PadFrshtt(frshtt)) == DecodeFlags(frshtt)
  {
    PadLeftIdempotent(frshtt, 6, '0');
    var p := PadFrshtt(frshtt);
    PaddedFlag(frshtt);
    FlagsEqual(DecodeFlags(p), DecodeFlags(frshtt));
  }

  /**
    `"1"` pads to `"000001"`: only tornado. `"010000"`, and `"10000"` (the
    same field read as the integer 10000), are only rain.
  */
  lemma FlagExamples()
    ensures DecodeFlags("1") == Flags(false, false, false, false, false, true)
    ensures DecodeFlags("010000") == Flags(false, true, false, false, false, false)
    ensures DecodeFlags("10000") == Flags(false, true, false, false, false, false)
  {
    FlagsEqual(DecodeFlags("1"), Flags(false, false, false, false, false, true));
    FlagsEqual(DecodeFlags("010000"), Flags(false, true, false, false, false, false));
    FlagsEqual(DecodeFlags("10000"), Flags(false, true, false, false, false, false));
  }
}
