/** Decimal text and 32-bit integers: the `int.Parse` and `int.ToString`
    that the decoder uses for every numeric leader, directory and subfield
    value. */
module Numbers {
  import opened Results

  const Int32Min: int := -0x8000_0000
  const Int32Max: int := 0x7FFF_FFFF

  predicate IsDigit(c: char) {
    '0' <= c <= '9'
  }

  predicate AllDigits(s: string) {
    forall i :: 0 <= i < |s| ==> IsDigit(s[i])
  }

  function DigitValue(c: char): (d: nat)
    requires IsDigit(c)
    ensures d < 10
  {
    (c as int) - ('0' as int)
  }

  function DigitChar(d: nat): (c: char)
    requires d < 10
    ensures IsDigit(c) && DigitValue(c) == d
  {
    (('0' as int) + d) as char
  }

  function Pow10(n: nat): (p: nat)
    ensures p >= 1
  {
    if n == 0 then 1 else 10 * Pow10(n - 1)
  }

  /** The value of a string of decimal digits, most significant first. */
  function DigitsValue(s: string): nat
    requires AllDigits(s)
    decreases |s|
  {
    if |s| == 0 then 0 else 10 * DigitsValue(s[..|s| - 1]) + DigitValue(s[|s| - 1])
  }

  /** The digits of `s`, in order: `s.Where(char.IsDigit)`. */
  function FilterDigits(s: string): (r: string)
    ensures AllDigits(r)
    ensures |r| <= |s|
    decreases |s|
  {
    if |s| == 0 then ""
    else (if IsDigit(s[0]) then [s[0]] else "") + FilterDigits(s[1..])
  }

  lemma {:induction false} FilterDigitsAppend(a: string, b: string)
    ensures FilterDigits(a + b) == FilterDigits(a) + FilterDigits(b)
    decreases |a|
  {
    if |a| > 0 {
      FilterDigitsAppend(a[1..], b);
      assert (a + b)[1..] == a[1..] + b;
      assert (a + b)[0] == a[0];
    } else {
      assert a + b == b;
    }
  }

  /** Filtering keeps a digit string whole. */
  lemma {:induction false} FilterDigitsOfDigits(s: string)
    requires AllDigits(s)
    ensures FilterDigits(s) == s
    decreases |s|
  {
    if |s| > 0 {
      FilterDigitsOfDigits(s[1..]);
    }
  }

  /** `int.Parse`: an optional `+` or `-` followed by at least one digit,
      whose value fits in 32 bits. */
  function ParseInt(s: string): (r: Result<int>)
    ensures r.Ok? ==> Int32Min <= r.value <= Int32Max
    ensures r.Ok? ==> |s| >= 1
    ensures r.Err? ==> r.error == InvalidNumber || r.error == NumberOverflow
  {
    var signed := |s| > 0 && (s[0] == '-' || s[0] == '+');
    var digits := if signed then s[1..] else s;
    if |digits| == 0 then Err(InvalidNumber)
    else match DigitsOf(digits)
      case None => Err(InvalidNumber)
      case Some(n) =>
        var v: int := if signed && s[0] == '-' then -(n as int) else n;
        if v < Int32Min || v > Int32Max then Err(NumberOverflow) else Ok(v)
  }

  /** The value of `s` when it holds only digits, read left to right
      without a quantifier: the shape `ParseInt` scans. */
  function DigitsOf(s: string): Option<nat>
    decreases |s|
  {
    if |s| == 0 then Some(0)
    else match DigitsOf(s[..|s| - 1])
      case None => None
      case Some(v) => if IsDigit(s[|s| - 1]) then Some(10 * v + DigitValue(s[|s| - 1])) else None
  }

  /** `DigitsOf` succeeds exactly on digit strings, with their value. */
  lemma {:induction false} DigitsOfValue(s: string)
    ensures DigitsOf(s).Some? <==> AllDigits(s)
    ensures DigitsOf(s).Some? ==> DigitsOf(s).value == DigitsValue(s)
    decreases |s|
  {
    if |s| > 0 {
      var init := s[..|s| - 1];
      DigitsOfValue(init);
      assert AllDigits(s) <==> AllDigits(init) && IsDigit(s[|s| - 1]) by {
        assert forall i :: 0 <= i < |init| ==> init[i] == s[i];
      }
    }
  }

  /** Text that parses is a sign or a digit followed by digits only. */
  lemma ParseIntShape(s: string)
    ensures ParseInt(s).Ok? ==> |s| >= 1 && (IsDigit(s[0]) || s[0] == '-' || s[0] == '+')
    ensures ParseInt(s).Ok? ==> AllDigits(s[1..])
  {
    if ParseInt(s).Ok? && (s[0] == '-' || s[0] == '+') {
      DigitsOfValue(s[1..]);
    } else if ParseInt(s).Ok? {
      DigitsOfValue(s);
      assert AllDigits(s);
      assert forall i :: 0 <= i < |s| - 1 ==> s[1..][i] == s[i + 1];
    }
  }

  /** The shortest decimal text of `n`, as `ToString` prints it. */
  function Decimal(n: nat): (r: string)
    ensures |r| >= 1 && AllDigits(r)
    decreases n
  {
    if n < 10 then [DigitChar(n)] else Decimal(n / 10) + [DigitChar(n % 10)]
  }

  /** `int.ToString(CultureInfo.InvariantCulture)`. */
  function IntToString(v: int): string
  {
    if v < 0 then "-" + Decimal(-v) else Decimal(v)
  }

  /** `n` digits of `v`, zero-padded on the left: the way a leader or a
      directory entry writes a number into a fixed-width slot. */
  function PadDecimal(v: nat, n: nat): (r: string)
    ensures |r| == n && AllDigits(r)
    decreases n
  {
    if n == 0 then "" else PadDecimal(v / 10, n - 1) + [DigitChar(v % 10)]
  }

  lemma {:induction false} DigitsValueOfDecimal(n: nat)
    ensures DigitsValue(Decimal(n)) == n
    decreases n
  {
    if n >= 10 {
      DigitsValueOfDecimal(n / 10);
      var s := Decimal(n);
      assert s[..|s| - 1] == Decimal(n / 10);
    }
  }

  /** A zero-padded field of a value below `10^n` holds exactly that value. */
  lemma {:induction false} DigitsValueOfPadDecimal(v: nat, n: nat)
    requires v < Pow10(n)
    ensures DigitsValue(PadDecimal(v, n)) == v
    decreases n
  {
    if n > 0 {
      DigitsValueOfPadDecimal(v / 10, n - 1);
      var s := PadDecimal(v, n);
      assert s[..|s| - 1] == PadDecimal(v / 10, n - 1);
    }
  }

  lemma DigitsValueBound(s: string)
    requires AllDigits(s)
    ensures DigitsValue(s) < Pow10(|s|)
    decreases |s|
  {
    if |s| > 0 {
      DigitsValueBound(s[..|s| - 1]);
    }
  }

  /** Parsing the printed form of any 32-bit integer gives it back: the
      normalisation of an integer subfield loses nothing. */
  lemma ParseIntToString(v: int)
    requires Int32Min <= v <= Int32Max
    ensures ParseInt(IntToString(v)) == Ok(v)
  {
    if v < 0 {
      ParseNegativeDecimal(-v);
    } else {
      ParseDecimal(v);
    }
  }

  lemma ParseDecimal(n: nat)
    requires n <= Int32Max
    ensures ParseInt(Decimal(n)) == Ok(n)
  {
    var s := Decimal(n);
    DigitsValueOfDecimal(n);
    DigitsOfValue(s);
    assert !(s[0] == '-' || s[0] == '+') by { assert IsDigit(s[0]); }
  }

  lemma ParseNegativeDecimal(n: nat)
    requires 0 < n <= -Int32Min
    ensures ParseInt("-" + Decimal(n)) == Ok(-(n as int))
  {
    var s := "-" + Decimal(n);
    assert s[1..] == Decimal(n);
    DigitsValueOfDecimal(n);
    DigitsOfValue(Decimal(n));
  }

  /** Unsigned digit text parses to its digit value, or overflows. */
  lemma ParseIntOfDigits(s: string)
    requires AllDigits(s)
    ensures ParseInt(s).Ok? ==> ParseInt(s).value == DigitsValue(s)
    ensures ParseInt(s).Ok? <==> |s| >= 1 && DigitsValue(s) <= Int32Max
  {
    DigitsOfValue(s);
    if |s| > 0 {
      assert !(s[0] == '-' || s[0] == '+') by { assert IsDigit(s[0]); }
    }
  }

  /** A zero-padded `n`-digit field of a value below `10^n` parses back to
      that value. */
  lemma ParsePadDecimal(v: nat, n: nat)
    requires 1 <= n && v < Pow10(n) && v <= Int32Max
    ensures ParseInt(PadDecimal(v, n)) == Ok(v)
  {
    DigitsValueOfPadDecimal(v, n);
    DigitsOfValue(PadDecimal(v, n));
  }

  /** `int.Parse` reads at most `n` characters as a value of magnitude below
      `10^n`. */
  lemma ParseIntBound(s: string)
    ensures ParseInt(s).Ok? ==> -(Pow10(|s|) as int) < ParseInt(s).value < Pow10(|s|)
  {
    if ParseInt(s).Err? {
    } else if s[0] == '-' || s[0] == '+' {
      DigitsOfValue(s[1..]);
      DigitsValueBound(s[1..]);
      Pow10Monotone(|s| - 1, |s|);
    } else {
      DigitsOfValue(s);
      DigitsValueBound(s);
    }
  }

  lemma Pow10Monotone(m: nat, n: nat)
    requires m <= n
    ensures Pow10(m) <= Pow10(n)
    decreases n
  {
    if m < n {
      Pow10Monotone(m, n - 1);
    }
  }
}
