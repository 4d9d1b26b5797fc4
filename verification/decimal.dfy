/**
  Decimal text and integers: Python's `int(text)` for ASCII decimal text
  and `str(n)` (the text `format` pads), with the facts that link them.
*/
module Decimal {
  import opened Wrappers
  import opened Text

  predicate IsDigit(c: char) { '0' <= c <= '9' }

  predicate AllDigits(s: string) { forall i :: 0 <= i < |s| ==> IsDigit(s[i]) }

  function DigitValue(c: char): nat
    requires IsDigit(c)
  {
    (c as int) - ('0' as int)
  }

  function DigitChar(d: nat): (c: char)
    requires d < 10
    ensures IsDigit(c) && DigitValue(c) == d
  {
    ('0' as int + d) as char
  }

  function Pow10(n: nat): (p: nat)
    ensures p >= 1
  {
    if n == 0 then 1 else 10 * Pow10(n - 1)
  }

  /** The number written by a string of decimal digits (leading zeros allowed). */
  function Value(s: string): nat
    requires AllDigits(s)
  {
    if s == [] then 0 else Value(s[..|s| - 1]) * 10 + DigitValue(s[|s| - 1])
  }

  /** Python's `str(n)` for a natural number: no leading zero except for 0 itself. */
  function NatToDecimal(n: nat): (r: string)
    ensures |r| > 0 && AllDigits(r)
    ensures Value(r) == n
    ensures |r| > 1 ==> r[0] != '0'
  {
    if n < 10 then
      var r := [DigitChar(n)];
      assert r[..0] == [];
      r
    else
      var hi := NatToDecimal(n / 10);
      var r := hi + [DigitChar(n % 10)];
      assert r[..|r| - 1] == hi;
      assert r[0] == hi[0];
      assert |hi| == 1 ==> Value(hi) == DigitValue(hi[0]) by {
        if |hi| == 1 { assert hi[..0] == []; }
      }
      r
  }

  /** Python's `str(n)` for an integer. */
  function IntToString(n: int): (r: string)
  {
    if n < 0 then "-" + NatToDecimal(-n) else NatToDecimal(n)
  }

  /** The whitespace Python's `int()` strips (ASCII part). */
  predicate IsSpace(c: char) { c == ' ' || c == '\t' || c == '\n' || c == '\r' }

  function TrimLeft(s: string): (r: string)
    ensures |r| <= |s|
    ensures r == [] || !IsSpace(r[0])
  {
    if s != [] && IsSpace(s[0]) then TrimLeft(s[1..]) else s
  }

  function TrimRight(s: string): (r: string)
    ensures |r| <= |s|
    ensures r == [] || !IsSpace(r[|r| - 1])
  {
    if s != [] && IsSpace(s[|s| - 1]) then TrimRight(s[..|s| - 1]) else s
  }

  /** Python's `s.strip()` restricted to the whitespace above. */
  function Strip(s: string): string
  {
    TrimRight(TrimLeft(s))
  }

  /** The text `int()` accepts once stripped: an optional sign and at least one digit. */
  predicate IntText(t: string)
  {
    || (|t| > 0 && AllDigits(t))
    || (|t| > 1 && (t[0] == '-' || t[0] == '+') && AllDigits(t[1..]))
  }

  /**
    Python's `int(s)`: surrounding whitespace, an optional `+` or `-`, then
    one or more decimal digits; anything else is a `ValueError`, here `None`.
  */
  function ParseInt(s: string): (r: Option<int>)
    ensures r.Some? <==> IntText(Strip(s))
    ensures r.Some? ==> exists c :: c in s && IsDigit(c)
  {
    var t := Strip(s);
    if |t| > 0 && (t[0] == '-' || t[0] == '+') then
      var ds := t[1..];
      if |ds| > 0 && AllDigits(ds) then
        assert TrimLeft(s) == s[|s| - |TrimLeft(s)|..] by { TrimLeftSuffix(s); }
        assert t == TrimLeft(s)[..|t|] by { TrimRightPrefix(TrimLeft(s)); }
        assert ds[0] in s;
        var v: int := Value(ds);
        Some(if t[0] == '-' then -v else v)
      else None
    else if |t| > 0 && AllDigits(t) then
      assert TrimLeft(s) == s[|s| - |TrimLeft(s)|..] by { TrimLeftSuffix(s); }
      assert t == TrimLeft(s)[..|t|] by { TrimRightPrefix(TrimLeft(s)); }
      assert t[0] in s;
      Some(Value(t))
    else None
  }

  lemma {:induction false} TrimLeftSuffix(s: string)
    ensures TrimLeft(s) == s[|s| - |TrimLeft(s)|..]
    decreases |s|
  {
    if s != [] && IsSpace(s[0]) {
      TrimLeftSuffix(s[1..]);
    }
  }

  lemma {:induction false} TrimRightPrefix(s: string)
    ensures TrimRight(s) == s[..|TrimRight(s)|]
    decreases |s|
  {
    if s != [] && IsSpace(s[|s| - 1]) {
      TrimRightPrefix(s[..|s| - 1]);
    }
  }

  /** Text that neither starts nor ends with whitespace is left unstripped. */
  lemma StripNoSpace(s: string)
    requires s != [] && !IsSpace(s[0]) && !IsSpace(s[|s| - 1])
    ensures Strip(s) == s
  {
  }

  /** Text made only of the whitespace `int()` strips. */
  predicate AllSpace(s: string)
  {
    forall i :: 0 <= i < |s| ==> IsSpace(s[i])
  }

  /** Leading whitespace is stripped up to the first other character. */
  lemma {:induction false} TrimLeftSpaces(pre: string, x: string)
    requires AllSpace(pre) && x != [] && !IsSpace(x[0])
    ensures TrimLeft(pre + x) == x
    decreases |pre|
  {
    if pre == [] {
      assert pre + x == x;
    } else {
      assert (pre + x)[1..] == pre[1..] + x;
      TrimLeftSpaces(pre[1..], x);
    }
  }

  /** Trailing whitespace is stripped back to the last other character. */
  lemma {:induction false} TrimRightSpaces(x: string, post: string)
    requires AllSpace(post) && x != [] && !IsSpace(x[|x| - 1])
    ensures TrimRight(x + post) == x
    decreases |post|
  {
    if post == [] {
      assert x + post == x;
    } else {
      var q := post[..|post| - 1];
      assert (x + post)[..|x + post| - 1] == x + q;
      TrimRightSpaces(x, q);
    }
  }

  /** Whitespace around text that starts and ends with another character is stripped. */
  lemma StripAround(pre: string, core: string, post: string)
    requires AllSpace(pre) && AllSpace(post)
    requires core != [] && !IsSpace(core[0]) && !IsSpace(core[|core| - 1])
    ensures Strip(pre + core + post) == core
  {
    assert pre + core + post == pre + (core + post);
    assert (core + post)[0] == core[0];
    TrimLeftSpaces(pre, core + post);
    TrimRightSpaces(core, post);
  }

  /**
    The value `int()` returns: whitespace around an optional sign and a run
    of digits is ignored, and the sign `-` negates the digits' value.
  */
  lemma ParseIntParts(pre: string, sign: string, d: string, post: string)
    requires AllSpace(pre) && AllSpace(post)
    requires sign == "" || sign == "+" || sign == "-"
    requires |d| > 0 && AllDigits(d)
    ensures ParseInt(pre + sign + d + post) == Some(if sign == "-" then -(Value(d) as int) else Value(d))
  {
    if sign == "" {
      UnsignedParts(pre, sign, d, post);
    } else {
      SignedParts(pre, sign, d, post);
    }
  }

  lemma UnsignedParts(pre: string, sign: string, d: string, post: string)
    requires AllSpace(pre) && AllSpace(post) && sign == ""
    requires |d| > 0 && AllDigits(d)
    ensures ParseInt(pre + sign + d + post) == Some(Value(d))
  {
    var s := pre + sign + d + post;
    assert Strip(s) == d by {
      assert pre + sign == pre;
      assert s == pre + d + post;
      StripAround(pre, d, post);
    }
    ParseUnsigned(s, d);
  }

  lemma SignedParts(pre: string, sign: string, d: string, post: string)
    requires AllSpace(pre) && AllSpace(post) && (sign == "-" || sign == "+")
    requires |d| > 0 && AllDigits(d)
    ensures ParseInt(pre + sign + d + post) == Some(if sign == "-" then -(Value(d) as int) else Value(d))
  {
    StripSigned(pre, sign, d, post);
    ParseSigned(pre + sign + d + post, sign[0], d);
  }

  lemma StripSigned(pre: string, sign: string, d: string, post: string)
    requires AllSpace(pre) && AllSpace(post) && |sign| == 1 && !IsSpace(sign[0])
    requires |d| > 0 && AllDigits(d)
    ensures Strip(pre + sign + d + post) == [sign[0]] + d
  {
    var core := sign + d;
    assert core == [sign[0]] + d;
    assert core[|core| - 1] == d[|d| - 1];
    Associate(pre, sign, d);
    StripAround(pre, core, post);
  }

  lemma Associate(a: string, b: string, c: string)
    ensures a + b + c == a + (b + c)
  {
  }

  /** Text that strips to digits parses to their value. */
  lemma ParseUnsigned(s: string, d: string)
    requires |d| > 0 && AllDigits(d) && Strip(s) == d
    ensures ParseInt(s) == Some(Value(d))
  {
    assert IsDigit(d[0]);
  }

  /** Text that strips to a sign and digits parses to the signed value of the digits. */
  lemma ParseSigned(s: string, c: char, d: string)
    requires c == '-' || c == '+'
    requires |d| > 0 && AllDigits(d) && Strip(s) == [c] + d
    ensures ParseInt(s) == Some(if c == '-' then -(Value(d) as int) else Value(d))
  {
    var t := Strip(s);
    assert t[0] == c && t[1..] == d;
  }

  /** `int(" -07\n")` is `-7`. */
  lemma ParseIntExample()
    ensures ParseInt(" -07\n") == Some(-7)
  {
    assert Value("07") == 7 by {
      assert "07"[..1] == "0" && "0"[..0] == "";
    }
    ParseIntParts(" ", "-", "07", "\n");
    assert " " + "-" + "07" + "\n" == " -07\n";
  }

  /** A non-empty string of digits parses to the number it writes. */
  lemma ParseDigits(s: string)
    requires |s| > 0 && AllDigits(s)
    ensures ParseInt(s) == Some(Value(s))
  {
    assert IsDigit(s[0]) && IsDigit(s[|s| - 1]);
    StripNoSpace(s);
  }

  /** `int(str(n)) == n` for every integer. */
  lemma ParseIntToString(n: int)
    ensures ParseInt(IntToString(n)) == Some(n)
  {
    var r := IntToString(n);
    var d := NatToDecimal(if n < 0 then -n else n);
    assert IsDigit(d[|d| - 1]);
    if n < 0 {
      assert r[0] == '-' && r[1..] == d && r[|r| - 1] == d[|d| - 1];
    } else {
      assert IsDigit(r[0]);
    }
    StripNoSpace(r);
  }

  lemma {:induction false} ZerosValue(k: nat)
    ensures AllDigits(Repeat('0', k)) && Value(Repeat('0', k)) == 0
  {
    if k > 0 {
      ZerosValue(k - 1);
      assert Repeat('0', k)[..k - 1] == Repeat('0', k - 1);
    }
  }

  /** The value of a concatenation: the digits of `b` are the low-order ones. */
  lemma {:induction false} ValueConcat(a: string, b: string)
    requires AllDigits(a) && AllDigits(b)
    ensures AllDigits(a + b)
    ensures Value(a + b) == Value(a) * Pow10(|b|) + Value(b)
    decreases |b|
  {
    if b == [] {
      assert a + b == a;
    } else {
      var b', c := b[..|b| - 1], b[|b| - 1];
      ValueConcat(a, b');
      var ab := a + b;
      assert forall i :: 0 <= i < |ab| ==> ab[i] == (if i < |a| then a[i] else b[i - |a|]);
      assert ab[..|ab| - 1] == a + b';
      assert ab[|ab| - 1] == c;
      assert Value(b) == Value(b') * 10 + DigitValue(c);
      assert Value(ab) == Value(a + b') * 10 + DigitValue(c);
      ShiftDigit(Value(a), Value(b'), DigitValue(c), Pow10(|b'|));
    }
  }

  lemma ShiftDigit(x: nat, y: nat, d: nat, p: nat)
    ensures (x * p + y) * 10 + d == x * (10 * p) + (y * 10 + d)
  {
  }

  /** A string of `n` digits writes a number below `10^n`. */
  lemma {:induction false} ValueBound(s: string)
    requires AllDigits(s)
    ensures Value(s) < Pow10(|s|)
    decreases |s|
  {
    if s != [] {
      ValueBound(s[..|s| - 1]);
    }
  }

  /** Two digit strings of the same length that write the same number are equal. */
  lemma {:induction false} ValueInjective(s: string, t: string)
    requires AllDigits(s) && AllDigits(t) && |s| == |t|
    requires Value(s) == Value(t)
    ensures s == t
    decreases |s|
  {
    if s != [] {
      var n := |s| - 1;
      assert DigitValue(s[n]) == Value(s) % 10 && DigitValue(t[n]) == Value(t) % 10;
      assert s[n] == t[n];
      ValueInjective(s[..n], t[..n]);
      assert s == s[..n] + [s[n]] && t == t[..n] + [t[n]];
    }
  }

  /** `str(n)` has at most `w` characters when `n < 10^w`. */
  lemma {:induction false} DecimalLength(n: nat, w: nat)
    requires w > 0 && n < Pow10(w)
    ensures |NatToDecimal(n)| <= w
    decreases n
  {
    if n >= 10 {
      assert w > 1;
      DecimalLength(n / 10, w - 1);
    }
  }

  /** `"{:0>w}".format(n)`: the decimal text of `n` zero-padded to width `w`. */
  function PadDecimal(n: int, w: nat): string
  {
    PadLeft(IntToString(n), w, '0')
  }

  /**
    For `0 <= n < 10^w`, `"{:0>w}".format(n)` is exactly `w` digits that
    write `n`.
  */
  lemma PadDecimalFixed(n: int, w: nat)
    requires w > 0 && 0 <= n < Pow10(w)
    ensures |PadDecimal(n, w)| == w
    ensures AllDigits(PadDecimal(n, w))
    ensures Value(PadDecimal(n, w)) == n
  {
    var d := NatToDecimal(n);
    assert IntToString(n) == d;
    DecimalLength(n, w);
    if |d| < w {
      var z := Repeat('0', w - |d|);
      assert PadDecimal(n, w) == z + d;
      ZerosValue(w - |d|);
      ValueConcat(z, d);
      assert Value(z + d) == 0 * Pow10(|d|) + Value(d);
    } else {
      assert PadDecimal(n, w) == d;
    }
  }

  /**
    A digit string of width `w` is what `"{:0>w}".format(int(s))` rebuilds:
    re-padding undoes the loss of leading zeros.
  */
  lemma RepadDigits(s: string)
    requires |s| > 0 && AllDigits(s)
    ensures PadDecimal(Value(s), |s|) == s
  {
    ValueBound(s);
    PadDecimalFixed(Value(s), |s|);
    ValueInjective(PadDecimal(Value(s), |s|), s);
  }
}
