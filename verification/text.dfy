/** The pieces of Python string handling that the dropdown parsing relies on:
    `str.split(sep)`, `int(s)` and `float(s)` restricted to unsigned decimal
    literals, and the decimal rendering that produces such literals. */
module Text {
  import opened Wrappers

  predicate IsDigit(c: char)
  {
    '0' <= c <= '9'
  }

  predicate AllDigits(s: string)
  {
    forall i :: 0 <= i < |s| ==> IsDigit(s[i])
  }

  function DigitValue(c: char): nat
    requires IsDigit(c)
  {
    (c - '0') as nat
  }

  function DigitChar(d: nat): (c: char)
    requires d < 10
    ensures IsDigit(c) && DigitValue(c) == d
  {
    ('0' as int + d) as char
  }

  /** The value of a string of decimal digits; the empty string is 0. */
  function DigitsValue(s: string): nat
    requires AllDigits(s)
    decreases |s|
  {
    if |s| == 0 then 0
    else DigitsValue(s[..|s| - 1]) * 10 + DigitValue(s[|s| - 1])
  }

  /** `int(s)` for an unsigned literal: fails (ValueError) on the empty string
      or any non-digit. */
  function ParseNat(s: string): (r: Option<nat>)
    ensures r.Some? <==> |s| > 0 && AllDigits(s)
  {
    if |s| > 0 && AllDigits(s) then Some(DigitsValue(s)) else None
  }

  /** Decimal rendering without leading zeros, as `str(n)`. */
  function NatToString(n: nat): (s: string)
    ensures |s| > 0 && AllDigits(s)
    decreases n
  {
    if n < 10 then [DigitChar(n)] else NatToString(n / 10) + [DigitChar(n % 10)]
  }

  /** Parsing a rendered number gives the number back. */
  lemma {:induction false} ParseNatToString(n: nat)
    ensures ParseNat(NatToString(n)) == Some(n)
    ensures DigitsValue(NatToString(n)) == n
    decreases n
  {
    var s := NatToString(n);
    if n >= 10 {
      assert s[..|s| - 1] == NatToString(n / 10);
      assert DigitValue(s[|s| - 1]) == n % 10;
      ParseNatToString(n / 10);
      assert DigitsValue(s) == (n / 10) * 10 + n % 10;
    }
  }

  /** The value of the digits after a decimal point: "05" stands for 0.05. */
  function FractionValue(s: string): (v: real)
    requires AllDigits(s)
    ensures 0.0 <= v <= 1.0
    decreases |s|
  {
    if |s| == 0 then 0.0 else (DigitValue(s[0]) as real + FractionValue(s[1..])) / 10.0
  }

  /** `str.split(sep)`: the maximal `sep`-free pieces between separators; a
      string with k separators gives k + 1 pieces, some possibly empty. */
  function Split(s: string, sep: char): (parts: seq<string>)
    ensures |parts| >= 1
    ensures forall i :: 0 <= i < |parts| ==> sep !in parts[i]
    ensures Join(parts, sep) == s
    decreases |s|
  {
    if |s| == 0 then [""]
    else
      var init := s[..|s| - 1];
      var c := s[|s| - 1];
      assert s == init + [c];
      var rest := Split(init, sep);
      if c == sep then rest + [""]
      else
        var parts := rest[..|rest| - 1] + [rest[|rest| - 1] + [c]];
        JoinLast(rest, sep, c);
        parts
  }

  /** Glues pieces back together with `sep` between consecutive ones. */
  function Join(parts: seq<string>, sep: char): string
    decreases |parts|
  {
    if |parts| == 0 then ""
    else if |parts| == 1 then parts[0]
    else Join(parts[..|parts| - 1], sep) + [sep] + parts[|parts| - 1]
  }

  lemma JoinLast(parts: seq<string>, sep: char, c: char)
    requires |parts| >= 1
    ensures Join(parts[..|parts| - 1] + [parts[|parts| - 1] + [c]], sep) == Join(parts, sep) + [c]
  {
    var parts' := parts[..|parts| - 1] + [parts[|parts| - 1] + [c]];
    if |parts| > 1 {
      assert parts'[..|parts'| - 1] == parts[..|parts| - 1];
    }
  }

  /** Splitting is the inverse of joining pieces that contain no separator. */
  lemma {:induction false} SplitJoin(parts: seq<string>, sep: char)
    requires |parts| >= 1
    requires forall i :: 0 <= i < |parts| ==> sep !in parts[i]
    ensures Split(Join(parts, sep), sep) == parts
    decreases |parts|, |parts[|parts| - 1]|
  {
    var last := parts[|parts| - 1];
    if |last| > 0 {
      var c := last[|last| - 1];
      var shorter := parts[..|parts| - 1] + [last[..|last| - 1]];
      assert last[..|last| - 1] + [c] == last;
      assert shorter[..|shorter| - 1] + [shorter[|shorter| - 1] + [c]] == parts;
      assert c != sep by { assert c in last; }
      JoinLast(shorter, sep, c);
      var j := Join(shorter, sep);
      assert (j + [c])[..|j|] == j;
      SplitJoin(shorter, sep);
    } else if |parts| > 1 {
      var init := parts[..|parts| - 1];
      assert init + [""] == parts;
      var j := Join(init, sep);
      assert Join(parts, sep) == j + [sep];
      assert (j + [sep])[..|j|] == j;
      SplitJoin(init, sep);
    }
  }

  /** The pieces of "x-y" split at '-' are x and y when neither holds a '-'. */
  lemma {:induction false} SplitPair(x: string, y: string, sep: char)
    requires sep !in x && sep !in y
    ensures Split(x + [sep] + y, sep) == [x, y]
  {
    SplitJoin([x, y], sep);
    assert [x, y][..1] == [x];
  }

  /** `float(s)` for an unsigned decimal literal: digits with at most one '.',
      and at least one digit on some side of it ("3", "3.5", "3.", ".5").
      Anything else fails (ValueError). */
  function ParseDecimal(s: string): (r: Option<real>)
    ensures r.Some? ==> r.value >= 0.0
    ensures |s| > 0 && AllDigits(s) ==> r == Some(DigitsValue(s) as real)
  {
    var parts := Split(s, '.');
    if |s| > 0 && AllDigits(s) then
      SplitNone(s, '.');
      Some(DigitsValue(s) as real)
    else if |parts| == 1 then
      match ParseNat(s)
      case Some(n) => Some(n as real)
      case None => None
    else if |parts| == 2 && AllDigits(parts[0]) && AllDigits(parts[1])
            && |parts[0]| + |parts[1]| > 0 then
      Some(DigitsValue(parts[0]) as real + FractionValue(parts[1]))
    else None
  }

  /** What `float` accepts: digits and at most one '.', with at least one
      digit. */
  lemma ParseDecimalAccepts(s: string)
    requires ParseDecimal(s).Some?
    ensures forall i :: 0 <= i < |s| ==> IsDigit(s[i]) || s[i] == '.'
    ensures forall i, j :: 0 <= i < j < |s| && s[i] == '.' ==> s[j] != '.'
    ensures exists i :: 0 <= i < |s| && IsDigit(s[i])
  {
    var parts := Split(s, '.');
    if |s| > 0 && AllDigits(s) {
      assert IsDigit(s[0]);
    } else {
      assert |parts| == 2 && AllDigits(parts[0]) && AllDigits(parts[1]) && |parts[0]| + |parts[1]| > 0;
      assert parts[..1] == [parts[0]];
      assert Join(parts[..1], '.') == parts[0];
      assert s == Join(parts, '.') == parts[0] + ['.'] + parts[1];
      DecimalShape(parts[0], parts[1]);
    }
  }

  /** A string without the separator is its own single piece. */
  lemma SplitNone(x: string, sep: char)
    requires sep !in x
    ensures Split(x, sep) == [x]
  {
    SplitJoin([x], sep);
  }

  /** "a.b" with digit strings a and b: digits and one '.', with a digit
      somewhere when a and b are not both empty. */
  lemma DecimalShape(a: string, b: string)
    requires AllDigits(a) && AllDigits(b)
    ensures var s := a + ['.'] + b;
            (forall i :: 0 <= i < |s| ==> IsDigit(s[i]) || s[i] == '.')
            && (forall i, j :: 0 <= i < j < |s| && s[i] == '.' ==> s[j] != '.')
            && (|a| + |b| > 0 ==> exists i :: 0 <= i < |s| && IsDigit(s[i]))
  {
    var s := a + ['.'] + b;
    assert forall i :: 0 <= i < |a| ==> s[i] == a[i];
    assert forall i :: |a| < i < |s| ==> s[i] == b[i - |a| - 1];
    if |a| > 0 {
      assert IsDigit(s[0]);
    } else if |b| > 0 {
      assert IsDigit(s[|a| + 1]);
    }
  }

  /** A value in tenths rendered with one decimal, as "3.5" for 35. */
  function TenthsToString(t: nat): string
  {
    NatToString(t / 10) + "." + [DigitChar(t % 10)]
  }

  /** Parsing a one-decimal rendering gives the value back. */
  lemma ParseTenths(t: nat)
    ensures ParseDecimal(TenthsToString(t)) == Some(t as real / 10.0)
  {
    var ip := NatToString(t / 10);
    var fp := [DigitChar(t % 10)];
    TenthsParts(t);
    ParseNatToString(t / 10);
    OneDigit(t % 10);
    assert FractionValue(fp) == (t % 10) as real / 10.0 by {
      assert fp[1..] == [];
    }
    TenthsValue(t);
  }

  /** The rendering splits at its '.' into the whole part and the digit. */
  lemma TenthsParts(t: nat)
    ensures Split(TenthsToString(t), '.') == [NatToString(t / 10), [DigitChar(t % 10)]]
  {
    var ip := NatToString(t / 10);
    var fp := [DigitChar(t % 10)];
    assert TenthsToString(t) == ip + ['.'] + fp;
    assert '.' !in ip;
    assert fp[0] != '.';
    SplitPair(ip, fp, '.');
  }

  lemma OneDigit(d: nat)
    requires d < 10
    ensures AllDigits([DigitChar(d)]) && DigitsValue([DigitChar(d)]) == d
  {
    assert [DigitChar(d)][..0] == [];
  }

  lemma TenthsValue(t: nat)
    ensures (t / 10) as real + (t % 10) as real / 10.0 == t as real / 10.0
  {
    assert t == 10 * (t / 10) + t % 10;
  }
}
