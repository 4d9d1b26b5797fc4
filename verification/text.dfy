/**
  String helpers with Python's semantics: right-aligned padding as done by
  the format spec `{:0>w}`, `str.split` on a one-character separator, and
  `str.replace(pat, '')`.
*/
module Text {

  /** `n` copies of `c`. */
  function Repeat(c: char, n: nat): (r: string)
    ensures |r| == n
    ensures forall i :: 0 <= i < n ==> r[i] == c
  {
    if n == 0 then [] else [c] + Repeat(c, n - 1)
  }

  /**
    Python's `"{:" + fill + ">" + width + "}".format(s)`: `s` right-aligned in a
    field of `width` characters, filled on the left with `fill`; a string that
    is already as wide is returned as it is (never truncated).
  */
  function PadLeft(s: string, width: nat, fill: char): (r: string)
    ensures |r| == if |s| < width then width else |s|
    ensures r[|r| - |s|..] == s
    ensures forall i :: 0 <= i < |r| - |s| ==> r[i] == fill
  {
    if |s| < width then Repeat(fill, width - |s|) + s else s
  }

  /** Padding an already padded string changes nothing. */
  lemma PadLeftIdempotent(s: string, width: nat, fill: char)
    ensures PadLeft(PadLeft(s, width, fill), width, fill) == PadLeft(s, width, fill)
  {
  }

  /** A string at least `width` long is left unchanged. */
  lemma PadLeftWide(s: string, width: nat, fill: char)
    requires |s| >= width
    ensures PadLeft(s, width, fill) == s
  {
  }

  /**
    The three facts in `PadLeft`'s contract pin its result down: any string
    of that length that ends with `s` after only `fill` characters is it.
  */
  lemma PadLeftUnique(s: string, width: nat, fill: char, t: string)
    requires |t| == if |s| < width then width else |s|
    requires t[|t| - |s|..] == s
    requires forall i :: 0 <= i < |t| - |s| ==> t[i] == fill
    ensures t == PadLeft(s, width, fill)
  {
    var r := PadLeft(s, width, fill);
    assert |t| == |r|;
    forall i | 0 <= i < |t|
      ensures t[i] == r[i]
    {
      if i >= |t| - |s| {
        assert t[i] == t[|t| - |s|..][i - (|t| - |s|)];
        assert r[i] == r[|r| - |s|..][i - (|r| - |s|)];
      }
    }
  }

  /** Inverse of `Split`: the parts glued back together with `sep`. */
  function Join(parts: seq<string>, sep: char): string
    requires |parts| > 0
  {
    if |parts| == 1 then parts[0] else parts[0] + [sep] + Join(parts[1..], sep)
  }

  /**
    Python's `s.split(sep)` for a one-character separator: empty parts are
    kept, and a string without `sep` gives one part.
  */
  function Split(s: string, sep: char): (parts: seq<string>)
    ensures |parts| > 0
    ensures forall i :: 0 <= i < |parts| ==> sep !in parts[i]
    ensures Join(parts, sep) == s
  {
    if s == [] then [""]
    else
      var rest := Split(s[1..], sep);
      if s[0] == sep then [""] + rest
      else
        var parts := [[s[0]] + rest[0]] + rest[1..];
        assert parts[1..] == rest[1..];
        parts
  }

  /** Splitting a string that starts with a separator-free part `a`. */
  lemma {:induction false} SplitFirst(a: string, sep: char, rest: string)
    requires sep !in a
    ensures Split(a + [sep] + rest, sep) == [a] + Split(rest, sep)
    decreases |a|
  {
    if a == [] {
      assert a + [sep] + rest == [sep] + rest;
      assert ([sep] + rest)[1..] == rest;
    } else {
      var s := a + [sep] + rest;
      assert s[0] == a[0];
      assert s[1..] == a[1..] + [sep] + rest;
      SplitFirst(a[1..], sep, rest);
      assert [a[0]] + a[1..] == a;
    }
  }

  /** A string without the separator is one part. */
  lemma {:induction false} SplitNone(a: string, sep: char)
    requires sep !in a
    ensures Split(a, sep) == [a]
    decreases |a|
  {
    if a != [] {
      SplitNone(a[1..], sep);
      assert [a[0]] + a[1..] == a;
    }
  }

  /** `Split` recovers the parts that `Join` glued, when no part holds `sep`. */
  lemma {:induction false} SplitJoin(parts: seq<string>, sep: char)
    requires |parts| > 0
    requires forall i :: 0 <= i < |parts| ==> sep !in parts[i]
    ensures Split(Join(parts, sep), sep) == parts
    decreases |parts|
  {
    if |parts| == 1 {
      SplitNone(parts[0], sep);
    } else {
      SplitJoin(parts[1..], sep);
      SplitFirst(parts[0], sep, Join(parts[1..], sep));
      assert [parts[0]] + parts[1..] == parts;
    }
  }

  /**
    Python's `s.replace(pat, '')`: every occurrence of `pat` found scanning
    from the left, without overlaps, is removed.
  */
  function RemoveAll(s: string, pat: string): (r: string)
    requires |pat| > 0
    ensures |r| <= |s|
    ensures pat[0] !in s ==> r == s
    decreases |s|
  {
    if |s| < |pat| then s
    else if s[..|pat|] == pat then RemoveAll(s[|pat|..], pat)
    else [s[0]] + RemoveAll(s[1..], pat)
  }

  /**
    When the first character of `pat` does not occur in `s`, the only
    occurrence of `pat` in `s + pat` is the trailing one, and removing all
    occurrences gives back `s`.
  */
  lemma {:induction false} RemoveAllSuffix(s: string, pat: string)
    requires |pat| > 0
    requires pat[0] !in s
    ensures RemoveAll(s + pat, pat) == s
    decreases |s|
  {
    var t := s + pat;
    if s == [] {
      assert t[..|pat|] == pat;
      assert t[|pat|..] == [];
    } else {
      assert t[0] == s[0] != pat[0];
      assert t[..|pat|] != pat by { assert t[..|pat|][0] == t[0]; }
      assert t[1..] == s[1..] + pat;
      RemoveAllSuffix(s[1..], pat);
      assert [s[0]] + s[1..] == s;
    }
  }
}
