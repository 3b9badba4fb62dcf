/**
 * The `YYYY-MM-DD` text of a date: the extended calendar-date format of
 * ISO 8601:2004 section 4.1.2.2, as produced by Luxon's
 * `toFormat("yyyy-MM-dd")` for years 1 .. 9999, and JavaScript's string
 * comparison on it.
 */
module DateText {
  import opened Wrappers
  import opened Calendar

  predicate IsDigit(c: char) {
    '0' <= c <= '9'
  }

  function DigitChar(k: int): (c: char)
    requires 0 <= k <= 9
    ensures IsDigit(c) && c as int - '0' as int == k
  {
    ('0' as int + k) as char
  }

  function Pow10(k: nat): (r: nat)
    ensures 1 <= r
  {
    if k == 0 then 1 else 10 * Pow10(k - 1)
  }

  predicate AllDigits(s: string) {
    forall i :: 0 <= i < |s| ==> IsDigit(s[i])
  }

  /** The k-digit, zero-padded decimal text of x. */
  function Digits(x: nat, k: nat): (s: string)
    requires x < Pow10(k)
    ensures |s| == k && AllDigits(s)
  {
    if k == 0 then "" else Digits(x / 10, k - 1) + [DigitChar(x % 10)]
  }

  /** The number a string of decimal digits denotes. */
  function DigitsValue(s: string): (x: nat)
    requires AllDigits(s)
    ensures x < Pow10(|s|)
  {
    if s == [] then 0
    else DigitsValue(s[..|s| - 1]) * 10 + (s[|s| - 1] as int - '0' as int)
  }

  lemma {:induction false} DigitsValueOfDigits(x: nat, k: nat)
    requires x < Pow10(k)
    ensures DigitsValue(Digits(x, k)) == x
  {
    if k > 0 {
      var s := Digits(x, k);
      assert s[..k - 1] == Digits(x / 10, k - 1);
      DigitsValueOfDigits(x / 10, k - 1);
    }
  }

  lemma {:induction false} DigitsOfDigitsValue(s: string)
    requires AllDigits(s)
    ensures Digits(DigitsValue(s), |s|) == s
  {
    if s != [] {
      var p, c := s[..|s| - 1], s[|s| - 1];
      DigitsOfDigitsValue(p);
      var x := DigitsValue(s);
      ShiftDigit(DigitsValue(p), c as int - '0' as int);
      assert DigitChar(x % 10) == c;
      assert s == p + [c];
    }
  }

  lemma ShiftDigit(a: nat, c: int)
    requires 0 <= c <= 9
    ensures (a * 10 + c) / 10 == a && (a * 10 + c) % 10 == c
  {
  }

  /** The `YYYY-MM-DD` text of a date with a four-digit year. */
  function Format(d: Date): (s: string)
    requires ValidDate(d) && d.year <= 9999
    ensures |s| == 10 && s[4] == '-' && s[7] == '-'
    ensures AllDigits(s[..4]) && AllDigits(s[5..7]) && AllDigits(s[8..])
  {
    Digits(d.year, 4) + "-" + Digits(d.month, 2) + "-" + Digits(d.day, 2)
  }

  /** Four digits, a hyphen, two digits, a hyphen, two digits. */
  predicate Shaped(s: string) {
    |s| == 10 && s[4] == '-' && s[7] == '-'
    && AllDigits(s[..4]) && AllDigits(s[5..7]) && AllDigits(s[8..])
  }

  /** The date a `YYYY-MM-DD` text names, if it names one. */
  function Parse(s: string): (r: Option<Date>)
    ensures r.Some? ==> ValidDate(r.value) && r.value.year <= 9999 && Format(r.value) == s
  {
    if Shaped(s) then
      var d := Date(DigitsValue(s[..4]), DigitsValue(s[5..7]), DigitsValue(s[8..]));
      FieldsReformat(s);
      if ValidDate(d) then Some(d) else None
    else None
  }

  /** A ten-character text with hyphens at 4 and 7 is its three fields joined by hyphens. */
  lemma Reassemble(s: string)
    requires |s| == 10 && s[4] == '-' && s[7] == '-'
    ensures s == s[..4] + "-" + s[5..7] + "-" + s[8..]
  {
    assert s[..5] == s[..4] + "-";
    assert s[..7] == s[..5] + s[5..7];
    assert s[..8] == s[..7] + "-";
    assert s == s[..8] + s[8..];
  }

  lemma FieldsReformat(s: string)
    requires Shaped(s)
    ensures DigitsValue(s[..4]) <= 9999
    ensures s == Digits(DigitsValue(s[..4]), 4) + "-" + Digits(DigitsValue(s[5..7]), 2) + "-" + Digits(DigitsValue(s[8..]), 2)
  {
    var y, m, d := s[..4], s[5..7], s[8..];
    assert Pow10(4) == 10000;
    DigitsOfDigitsValue(y);
    DigitsOfDigitsValue(m);
    DigitsOfDigitsValue(d);
    Reassemble(s);
  }

  /** Round trip: the text of a date parses back to that date. */
  lemma ParseFormat(d: Date)
    requires ValidDate(d) && d.year <= 9999
    ensures Parse(Format(d)) == Some(d)
  {
    var s := Format(d);
    assert s[..4] == Digits(d.year, 4);
    assert s[5..7] == Digits(d.month, 2);
    assert s[8..] == Digits(d.day, 2);
    DigitsValueOfDigits(d.year, 4);
    DigitsValueOfDigits(d.month, 2);
    DigitsValueOfDigits(d.day, 2);
  }

  /** Distinct dates have distinct texts, so a table keyed by the text is keyed by the date. */
  lemma FormatInjective(a: Date, b: Date)
    requires ValidDate(a) && a.year <= 9999 && ValidDate(b) && b.year <= 9999
    requires Format(a) == Format(b)
    ensures a == b
  {
    ParseFormat(a);
    ParseFormat(b);
  }

  /** JavaScript's `a < b` on strings: lexicographic by code unit, a proper prefix first. */
  function StrLess(a: string, b: string): bool {
    if b == [] then false
    else if a == [] then true
    else if a[0] != b[0] then a[0] < b[0]
    else StrLess(a[1..], b[1..])
  }

  /** Behind equal-length heads, comparison is decided by the heads unless they are equal. */
  lemma {:induction false} StrLessConcat(p: string, s: string, q: string, t: string)
    requires |p| == |q|
    ensures StrLess(p + s, q + t) == if p == q then StrLess(s, t) else StrLess(p, q)
  {
    if p == [] {
      assert p + s == s && q + t == t;
    } else {
      assert (p + s)[0] == p[0] && (q + t)[0] == q[0];
      assert (p + s)[1..] == p[1..] + s && (q + t)[1..] == q[1..] + t;
      if p[0] == q[0] {
        StrLessConcat(p[1..], s, q[1..], t);
        assert p == q <==> p[1..] == q[1..] by {
          if p[1..] == q[1..] {
            assert p == [p[0]] + p[1..] && q == [q[0]] + q[1..];
          }
        }
      }
    }
  }

  /** Zero-padded numerals of one width compare as the numbers do. */
  lemma {:induction false} DigitsOrder(x: nat, y: nat, k: nat)
    requires x < Pow10(k) && y < Pow10(k)
    ensures StrLess(Digits(x, k), Digits(y, k)) <==> x < y
    ensures Digits(x, k) == Digits(y, k) <==> x == y
  {
    DigitsValueOfDigits(x, k);
    DigitsValueOfDigits(y, k);
    if k > 0 {
      DigitsOrder(x / 10, y / 10, k - 1);
      StrLessConcat(Digits(x / 10, k - 1), [DigitChar(x % 10)], Digits(y / 10, k - 1), [DigitChar(y % 10)]);
    }
  }

  /** Chronological order of civil dates: by year, then month, then day. */
  predicate DateBefore(a: Date, b: Date) {
    a.year < b.year
    || (a.year == b.year && a.month < b.month)
    || (a.year == b.year && a.month == b.month && a.day < b.day)
  }

  /** A later civil date has a larger day number. */
  lemma ToDayOrder(a: Date, b: Date)
    requires ValidDate(a) && ValidDate(b)
    ensures DateBefore(a, b) <==> ToDay(a) < ToDay(b)
  {
    if DateBefore(a, b) {
      ToDayBefore(a, b);
    } else if a == b {
    } else {
      ToDayBefore(b, a);
    }
  }

  lemma ToDayBefore(a: Date, b: Date)
    requires ValidDate(a) && ValidDate(b) && DateBefore(a, b)
    ensures ToDay(a) < ToDay(b)
  {
    MonthWithinYear(a.year, a.month);
    MonthWithinYear(b.year, b.month);
    if a.year < b.year {
      DaysBeforeYearGrows(a.year, b.year);
    } else if a.month < b.month {
      DaysBeforeMonthGrows(a.year, a.month, b.month);
    }
  }

  /** Texts `Y-M-D` with equal-width fields compare field by field. */
  lemma FieldsOrder(ya: string, ma: string, da: string, yb: string, mb: string, db: string)
    requires |ya| == |yb| && |ma| == |mb|
    ensures StrLess(ya + "-" + ma + "-" + da, yb + "-" + mb + "-" + db)
         == if ya != yb then StrLess(ya, yb) else if ma != mb then StrLess(ma, mb) else StrLess(da, db)
  {
    assert ya + "-" + ma + "-" + da == ya + ("-" + (ma + ("-" + da)));
    assert yb + "-" + mb + "-" + db == yb + ("-" + (mb + ("-" + db)));
    StrLessConcat(ya, "-" + (ma + ("-" + da)), yb, "-" + (mb + ("-" + db)));
    StrLessConcat("-", ma + ("-" + da), "-", mb + ("-" + db));
    StrLessConcat(ma, "-" + da, mb, "-" + db);
    StrLessConcat("-", da, "-", db);
  }

  /** Text order agrees with chronological order for four-digit years. */
  lemma FormatOrder(a: Date, b: Date)
    requires ValidDate(a) && a.year <= 9999 && ValidDate(b) && b.year <= 9999
    ensures StrLess(Format(a), Format(b)) <==> ToDay(a) < ToDay(b)
  {
    ToDayOrder(a, b);
    FieldsOrder(Digits(a.year, 4), Digits(a.month, 2), Digits(a.day, 2), Digits(b.year, 4), Digits(b.month, 2), Digits(b.day, 2));
    DigitsOrder(a.year, b.year, 4);
    DigitsOrder(a.month, b.month, 2);
    DigitsOrder(a.day, b.day, 2);
  }
}
