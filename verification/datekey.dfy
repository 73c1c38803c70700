/** The dimension's integer date key: the date written as "YYYYMMDD" by
    `strftime("%Y%m%d")` and read back with `int`, its arithmetic form, and
    its inverse. */
module DateKey {
  import opened Wrappers
  import opened Calendar

  /** The key of a date, `year * 10000 + month * 100 + day`. */
  function DateId(d: Date): (id: int)
    ensures ValidDate(d) ==> 10101 <= id <= 99991231
  {
    d.year * 10000 + d.month * 100 + d.day
  }

  predicate IsDigit(c: char)
  {
    '0' <= c <= '9'
  }

  predicate AllDigits(s: string)
  {
    forall i :: 0 <= i < |s| ==> IsDigit(s[i])
  }

  function DigitChar(k: int): (c: char)
    requires 0 <= k < 10
    ensures IsDigit(c)
  {
    "0123456789"[k]
  }

  function DigitValue(c: char): (k: int)
    requires IsDigit(c)
    ensures 0 <= k < 10
  {
    c as int - '0' as int
  }

  function Pow10(k: nat): (p: nat)
    ensures p >= 1
  {
    if k == 0 then 1 else 10 * Pow10(k - 1)
  }

  /** Decimal digits of `n` without leading zeros (`str(n)`). */
  function Digits(n: nat): (s: string)
    ensures |s| >= 1 && AllDigits(s)
    decreases n
  {
    if n < 10 then [DigitChar(n)] else Digits(n / 10) + [DigitChar(n % 10)]
  }

  function Zeros(k: nat): (s: string)
    ensures |s| == k && AllDigits(s)
  {
    seq(k, _ => '0')
  }

  /** `s` widened to at least `w` characters with leading zeros, as a
      zero-padded `strftime` field is. */
  function PadLeft(s: string, w: nat): (r: string)
    requires AllDigits(s)
    ensures AllDigits(r)
    ensures |r| == if |s| >= w then |s| else w
  {
    if |s| >= w then s else Zeros(w - |s|) + s
  }

  /** Value of a string of decimal digits, as `int` reads it. */
  function ParseDecimal(s: string): nat
    requires AllDigits(s)
  {
    if |s| == 0 then 0
    else ParseDecimal(s[..|s| - 1]) * 10 + DigitValue(s[|s| - 1])
  }

  /** `strftime("%Y%m%d")`: month and day are always two digits; whether the
      year is padded to four digits depends on the platform's C library, so
      the year's minimum width is a parameter. */
  function FormatYmd(d: Date, yearWidth: nat): (s: string)
    requires ValidDate(d)
    ensures AllDigits(s)
  {
    PadLeft(Digits(d.year), yearWidth) + PadLeft(Digits(d.month), 2) + PadLeft(Digits(d.day), 2)
  }

  lemma {:induction false} ParseAppend(a: string, b: string)
    requires AllDigits(a) && AllDigits(b)
    ensures AllDigits(a + b)
    ensures ParseDecimal(a + b) == ParseDecimal(a) * Pow10(|b|) + ParseDecimal(b)
    decreases |b|
  {
    var ab := a + b;
    assert AllDigits(ab);
    if |b| > 0 {
      var b' := b[..|b| - 1];
      var c := DigitValue(b[|b| - 1]);
      assert ab[..|ab| - 1] == a + b';
      assert ab[|ab| - 1] == b[|b| - 1];
      ParseAppend(a, b');
      var pa, pb, p := ParseDecimal(a), ParseDecimal(b'), Pow10(|b'|);
      assert ParseDecimal(ab) == ParseDecimal(a + b') * 10 + c;
      assert ParseDecimal(b) == pb * 10 + c;
      assert Pow10(|b|) == p * 10;
      ShiftDigit(pa, p, pb, c);
      assert ParseDecimal(ab) == pa * (p * 10) + ParseDecimal(b);
      assert pa * (p * 10) == pa * Pow10(|b|);
    } else {
      assert ab == a;
    }
  }

  lemma ShiftDigit(pa: int, p: int, pb: int, c: int)
    ensures (pa * p + pb) * 10 + c == pa * (p * 10) + (pb * 10 + c)
  {
  }

  lemma {:induction false} ParseZeros(k: nat)
    ensures ParseDecimal(Zeros(k)) == 0
  {
    if k > 0 {
      assert Zeros(k)[..k - 1] == Zeros(k - 1);
      ParseZeros(k - 1);
    }
  }

  /** Leading zeros do not change the value read back. */
  lemma ParsePadded(s: string, w: nat)
    requires AllDigits(s)
    ensures ParseDecimal(PadLeft(s, w)) == ParseDecimal(s)
  {
    if |s| < w {
      ParseAppend(Zeros(w - |s|), s);
      ParseZeros(w - |s|);
    }
  }

  /** Reading back the digits of a number gives the number. */
  lemma {:induction false} ParseDigits(n: nat)
    ensures ParseDecimal(Digits(n)) == n
    decreases n
  {
    if n >= 10 {
      var s := Digits(n);
      assert s[..|s| - 1] == Digits(n / 10);
      ParseDigits(n / 10);
    }
  }

  /** A number below `10^k` has at most `k` digits, and one of at least
      `10^(k-1)` has at least `k`. */
  lemma {:induction false} DigitsLength(n: nat, k: nat)
    requires k >= 1
    ensures n < Pow10(k) ==> |Digits(n)| <= k
    ensures n >= Pow10(k - 1) ==> |Digits(n)| >= k
    decreases n
  {
    if n >= 10 {
      if k >= 2 {
        DigitsLength(n / 10, k - 1);
      } else {
        assert Pow10(1) == 10;
      }
    }
  }

  /** The key is the number the formatted "YYYYMMDD" string denotes, whether
      or not the platform pads the year. */
  lemma DateIdIsFormattedValue(d: Date, yearWidth: nat)
    requires ValidDate(d)
    ensures ParseDecimal(FormatYmd(d, yearWidth)) == DateId(d)
  {
    var y := PadLeft(Digits(d.year), yearWidth);
    var m := PadLeft(Digits(d.month), 2);
    var dd := PadLeft(Digits(d.day), 2);
    PaddedFieldValue(d.year, yearWidth);
    PaddedFieldValue(d.month, 2);
    PaddedFieldValue(d.day, 2);
    DigitsLength(d.month, 2);
    DigitsLength(d.day, 2);
    assert |m| == 2 && |dd| == 2;
    assert Pow10(2) == 100;
    ParseAppend(y, m);
    ParseAppend(y + m, dd);
    assert FormatYmd(d, yearWidth) == (y + m) + dd;
    assert ParseDecimal(y + m) == d.year * 100 + d.month;
  }

  /** A zero-padded decimal field reads back as the number it shows. */
  lemma PaddedFieldValue(n: nat, w: nat)
    ensures ParseDecimal(PadLeft(Digits(n), w)) == n
  {
    ParsePadded(Digits(n), w);
    ParseDigits(n);
  }

  /** For a four-digit year the formatted key has exactly eight characters
      on every platform. */
  lemma FormattedLength(d: Date, yearWidth: nat)
    requires ValidDate(d) && 1000 <= d.year
    requires yearWidth <= 4
    ensures |FormatYmd(d, yearWidth)| == 8
  {
    assert Pow10(3) == 1000 && Pow10(4) == 10000 && Pow10(1) == 10 && Pow10(2) == 100;
    DigitsLength(d.year, 4);
    DigitsLength(d.month, 2);
    DigitsLength(d.day, 2);
  }

  /** Splits a key into year, month and day; only keys of valid dates
      decode. */
  function DecodeDateId(id: int): (r: Option<Date>)
    ensures r.Some? ==> ValidDate(r.value) && DateId(r.value) == id
  {
    var d := Date(id / 10000, (id / 100) % 100, id % 100);
    if ValidDate(d) then Some(d) else None
  }

  /** Decoding a date's key gives the date back. */
  lemma DecodeDateIdOfDateId(d: Date)
    requires ValidDate(d)
    ensures DecodeDateId(DateId(d)) == Some(d)
  {
    var rest := d.month * 100 + d.day;
    assert DateId(d) == d.year * 10000 + rest;
    assert DateId(d) / 10000 == d.year;
    assert DateId(d) / 100 == d.year * 100 + d.month;
  }

  /** Distinct dates have distinct keys. */
  lemma DateIdInjective(a: Date, b: Date)
    requires ValidDate(a) && ValidDate(b)
    requires DateId(a) == DateId(b)
    ensures a == b
  {
    DecodeDateIdOfDateId(a);
    DecodeDateIdOfDateId(b);
  }

  /** Ordering keys numerically orders dates chronologically. */
  lemma DateIdOrder(a: Date, b: Date)
    requires ValidDate(a) && ValidDate(b)
    ensures Before(a, b) <==> DateId(a) < DateId(b)
  {
  }

  /** Four-digit years give keys between 10000101 and 99991231, eight digits
      long. */
  lemma DateIdEightDigits(d: Date)
    requires ValidDate(d) && 1000 <= d.year
    ensures 10000101 <= DateId(d) <= 99991231
    ensures |Digits(DateId(d))| == 8
  {
    assert Pow10(7) == 10000000 && Pow10(8) == 100000000;
    DigitsLength(DateId(d), 8);
  }

  lemma DateIdExample()
    ensures DateId(Date(2005, 5, 24)) == 20050524
    ensures FormatYmd(Date(2005, 5, 24), 4) == "20050524"
  {
  }
}
