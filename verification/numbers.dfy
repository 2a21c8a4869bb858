/** The numeric normaliser: `convertSize` of matchers.go and the two
    standard-library parsers it and the throughput rule call,
    `strconv.ParseFloat` and `strconv.Atoi`, on the inputs the classifier
    gives them. */
module Numbers {
  import opened Optional
  import Text

  /** The range of Go's `int` on a 64-bit platform. */
  const MinInt: int := -0x8000_0000_0000_0000
  const MaxInt: int := 0x7FFF_FFFF_FFFF_FFFF

  predicate IsDigit(c: char)
  {
    '0' <= c <= '9'
  }

  predicate AllDigits(s: string)
  {
    forall i :: 0 <= i < |s| ==> IsDigit(s[i])
  }

  /** The number a run of decimal digits denotes, most significant first. */
  function DigitsValue(s: string): nat
    requires AllDigits(s)
    decreases |s|
  {
    if |s| == 0 then 0
    else DigitsValue(s[..|s| - 1]) * 10 + (s[|s| - 1] as int - '0' as int)
  }

  function Pow10(k: nat): (r: nat)
    ensures r >= 1
  {
    if k == 0 then 1 else 10 * Pow10(k - 1)
  }

  /** The decimal numeral of `n`, without leading zeros. */
  function Numeral(n: nat): (r: string)
    ensures |r| > 0 && AllDigits(r)
    ensures DigitsValue(r) == n
    ensures n > 0 ==> r[0] != '0'
    decreases n
  {
    var last := ['0' + (n % 10) as char];
    if n < 10 then last
    else
      var r := Numeral(n / 10) + last;
      assert r[..|r| - 1] == Numeral(n / 10);
      r
  }

  /** `strconv.Atoi`: an optional sign and at least one decimal digit,
      whose value must fit in a 64-bit `int`; anything else is an error. */
  function Atoi(s: string): (r: Option<int>)
    ensures r.Some? ==> MinInt <= r.value <= MaxInt
    ensures |s| > 0 && AllDigits(s) ==>
              (r.Some? <==> DigitsValue(s) <= MaxInt) && (r.Some? ==> r.value == DigitsValue(s))
    ensures |s| == 0 || (!AllDigits(s) && s[0] != '+' && s[0] != '-') ==> r.None?
  {
    var signed := |s| > 0 && (s[0] == '+' || s[0] == '-');
    var digits := if signed then s[1..] else s;
    if |digits| == 0 || !AllDigits(digits) then None
    else
      var m: int := DigitsValue(digits);
      var v := if signed && s[0] == '-' then -m else m;
      if MinInt <= v <= MaxInt then Some(v) else None
  }

  /** A fixed-point decimal `mantissa / 10^scale`. */
  datatype Decimal = Decimal(mantissa: nat, scale: nat)

  /** The whole part of `factor` times `d`: Go's `int(...)` truncation of a
      non-negative number. */
  function Scaled(d: Decimal, factor: nat): (r: nat)
    ensures r * Pow10(d.scale) <= factor * d.mantissa
    ensures factor * d.mantissa < (r + 1) * Pow10(d.scale)
  {
    Quotient(factor * d.mantissa, Pow10(d.scale))
  }

  /** Division of naturals, rounding down. */
  function Quotient(x: nat, p: nat): (q: nat)
    requires p >= 1
    ensures q * p <= x < (q + 1) * p
    decreases x
  {
    if x < p then 0 else 1 + Quotient(x - p, p)
  }

  /** The position of the first `c` in `s`, or `|s|` when there is none. */
  function IndexOf(s: string, c: char): (k: nat)
    ensures k <= |s|
    ensures k < |s| ==> s[k] == c
    ensures forall j :: 0 <= j < k ==> s[j] != c
    decreases |s|
  {
    if |s| == 0 then 0
    else if s[0] == c then 0
    else 1 + IndexOf(s[1..], c)
  }

  predicate DigitsAndPoints(s: string)
  {
    forall i :: 0 <= i < |s| ==> IsDigit(s[i]) || s[i] == '.'
  }

  predicate AtMostOnePoint(s: string)
  {
    forall i, j :: 0 <= i < j < |s| && s[i] == '.' ==> s[j] != '.'
  }

  predicate HasDigit(s: string)
  {
    exists i :: 0 <= i < |s| && IsDigit(s[i])
  }

  /** `strconv.ParseFloat` on numerals made of digits and points, the only
      text the size pattern lets through: the digits before the first point,
      then the digits after it; a second point, no digit at all, or any
      other character is a syntax error. */
  function ParseDecimal(s: string): (r: Option<Decimal>)
  {
    var k := IndexOf(s, '.');
    var whole := s[..k];
    var fraction := if k < |s| then s[k + 1..] else "";
    if AllDigits(whole) && AllDigits(fraction) && |whole| + |fraction| > 0 then
      assert AllDigits(whole + fraction);
      Some(Decimal(DigitsValue(whole + fraction), |fraction|))
    else None
  }

  /** `convertSize`: a magnitude in megabytes. Gigabytes are scaled by 1000
      (decimal, not binary), megabytes and any other unit are taken as they
      are, and in both cases the fraction is cut off. The unit is compared
      without regard to case. A magnitude that does not parse is an error. */
  function ConvertSize(num: string, scale: string): (r: Option<int>)
    ensures r.Some? <==> ParseDecimal(num).Some?
    ensures r.Some? ==> r.value >= 0
    ensures r.Some? && Text.Lower(scale) == "gb" ==> r.value == Scaled(ParseDecimal(num).value, 1000)
    ensures r.Some? && Text.Lower(scale) != "gb" ==> r.value == Scaled(ParseDecimal(num).value, 1)
  {
    match ParseDecimal(num)
    case None => None
    case Some(d) =>
      if Text.Lower(scale) == "gb" then Some(Scaled(d, 1000))
      else if Text.Lower(scale) == "mb" then Some(Scaled(d, 1))
      else Some(Scaled(d, 1))
  }

  /** Which numerals `ParseDecimal` accepts: digits and at most one point,
      with at least one digit. */
  lemma ParseDecimalAccepts(s: string)
    ensures ParseDecimal(s).Some? <==> DigitsAndPoints(s) && AtMostOnePoint(s) && HasDigit(s)
  {
    if ParseDecimal(s).Some? {
      ParseDecimalSound(s);
    }
    if DigitsAndPoints(s) && AtMostOnePoint(s) && HasDigit(s) {
      ParseDecimalComplete(s);
    }
  }

  lemma ParseDecimalSound(s: string)
    requires ParseDecimal(s).Some?
    ensures DigitsAndPoints(s) && AtMostOnePoint(s) && HasDigit(s)
  {
    var k := IndexOf(s, '.');
    var whole := s[..k];
    var fraction := if k < |s| then s[k + 1..] else "";
    assert AllDigits(whole) && AllDigits(fraction);
    forall i | 0 <= i < |s|
      ensures IsDigit(s[i]) || s[i] == '.'
    {
      if i < k {
        assert s[i] == whole[i];
      } else if i > k {
        assert s[i] == fraction[i - k - 1];
      }
    }
    forall i, j | 0 <= i < j < |s| && s[i] == '.'
      ensures s[j] != '.'
    {
      assert i >= k;
      assert s[j] == fraction[j - k - 1];
    }
    if |whole| > 0 {
      assert IsDigit(s[0]);
    } else {
      assert IsDigit(s[k + 1]);
    }
  }

  lemma ParseDecimalComplete(s: string)
    requires DigitsAndPoints(s) && AtMostOnePoint(s) && HasDigit(s)
    ensures ParseDecimal(s).Some?
  {
    var k := IndexOf(s, '.');
    var whole := s[..k];
    var fraction := if k < |s| then s[k + 1..] else "";
    var i :| 0 <= i < |s| && IsDigit(s[i]);
    forall j | 0 <= j < |whole|
      ensures IsDigit(whole[j])
    {
      assert whole[j] == s[j];
    }
    if k < |s| {
      forall j | 0 <= j < |fraction|
        ensures IsDigit(fraction[j])
      {
        assert fraction[j] == s[k + 1 + j];
      }
      assert i != k;
    }
    assert |whole| + |fraction| > 0;
  }

  lemma {:induction false} DigitsValueAppend(a: string, b: string)
    requires AllDigits(a) && AllDigits(b)
    ensures AllDigits(a + b)
    ensures DigitsValue(a + b) == DigitsValue(a) * Pow10(|b|) + DigitsValue(b)
    decreases |b|
  {
    assert AllDigits(a + b);
    if |b| == 0 {
      assert a + b == a;
    } else {
      var b' := b[..|b| - 1];
      var d := b[|b| - 1] as int - '0' as int;
      assert (a + b)[..|a + b| - 1] == a + b';
      assert (a + b)[|a + b| - 1] == b[|b| - 1];
      DigitsValueAppend(a, b');
      assert DigitsValue(a + b) == DigitsValue(a + b') * 10 + d;
      assert DigitsValue(b) == DigitsValue(b') * 10 + d;
      ShiftDigit(DigitsValue(a), Pow10(|b'|), DigitsValue(b'), d);
    }
  }

  lemma ShiftDigit(x: nat, p: nat, y: nat, d: int)
    ensures (x * p + y) * 10 + d == x * (10 * p) + (y * 10 + d)
  {
  }

  /** A run of digits reads as a whole number. */
  lemma ParseWhole(s: string)
    requires |s| > 0 && AllDigits(s)
    ensures ParseDecimal(s) == Some(Decimal(DigitsValue(s), 0))
  {
    assert IndexOf(s, '.') == |s|;
    assert s[..|s|] + "" == s;
  }

  /** A fixed-point numeral `w.f` reads as `w + f / 10^|f|`. */
  lemma ParseFixedPoint(w: nat, f: string)
    requires AllDigits(f)
    ensures ParseDecimal(Numeral(w) + "." + f) == Some(Decimal(w * Pow10(|f|) + DigitsValue(f), |f|))
  {
    var n := Numeral(w);
    var s := n + "." + f;
    var k := IndexOf(s, '.');
    assert s[|n|] == '.';
    assert k == |n|;
    assert s[..k] == n;
    assert s[k + 1..] == f;
    DigitsValueAppend(n, f);
  }

  /** A magnitude that starts with neither a digit nor a point is an error,
      whatever the unit. */
  lemma ConvertRejectsText(num: string, scale: string)
    requires |num| > 0 && !IsDigit(num[0]) && num[0] != '.'
    ensures ConvertSize(num, scale).None?
  {
    ParseDecimalAccepts(num);
  }

  /** `Atoi` reads back every numeral that fits in an `int`. */
  lemma AtoiNumeral(n: nat)
    requires n <= MaxInt
    ensures Atoi(Numeral(n)) == Some(n)
  {
  }

  /** Scaling a whole number is exact. */
  lemma ScaledWhole(m: nat, factor: nat)
    ensures Scaled(Decimal(m, 0), factor) == factor * m
  {
    var r := Scaled(Decimal(m, 0), factor);
    assert Pow10(0) == 1;
    assert r * 1 <= factor * m < (r + 1) * 1;
  }

  lemma ConvertGigabytes(n: nat)
    ensures ConvertSize(Numeral(n), "GB") == Some(n * 1000)
    ensures ConvertSize(Numeral(n), "gb") == Some(n * 1000)
  {
    ParseWhole(Numeral(n));
    ScaledWhole(n, 1000);
    assert Text.Lower("GB") == "gb";
    assert Text.Lower("gb") == "gb";
  }

  lemma ConvertMegabytes(n: nat)
    ensures ConvertSize(Numeral(n), "MB") == Some(n)
  {
    ParseWhole(Numeral(n));
    ScaledWhole(n, 1);
    assert Text.Lower("MB") == "mb";
  }
}
