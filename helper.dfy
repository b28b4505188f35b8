/** helper.js: comparisons of two dates on month and day (the year is
    ignored) and of two hours. `isSameMonthAndDay` and `isSameHour`
    are async in the source; the model gives the value their promise
    resolves to. `isAfter` is synchronous. */
module Helper {
  import opened Calendar
  import JsNumber

  /** What moment makes of an input: a moment holding a date, or an invalid
      moment (an input its parser rejects). A valid moment always holds a
      date that exists. */
  datatype Parsed = Valid(date: Date) | Invalid

  predicate WellFormed(p: Parsed) {
    p.Valid? ==> ValidDate(p.date)
  }

  /** A number 0..99 printed with two digits, as the `MM` and `DD` tokens do. */
  function TwoDigits(n: int): (r: string)
    requires 0 <= n < 100
    ensures |r| == 2 && JsNumber.IsDigit(r[0]) && JsNumber.IsDigit(r[1])
  {
    [JsNumber.DigitChar(n / 10), JsNumber.DigitChar(n % 10)]
  }

  /** `moment(p).format('MM-DD')`; moment prints an invalid moment as
      "Invalid date". */
  function FormatMonthDay(p: Parsed): string
    requires WellFormed(p)
  {
    match p
    case Invalid => "Invalid date"
    case Valid(d) => TwoDigits(d.month) + "-" + TwoDigits(d.day)
  }

  lemma TwoDigitsInjective(m: int, n: int)
    requires 0 <= m < 100 && 0 <= n < 100
    requires TwoDigits(m) == TwoDigits(n)
    ensures m == n
  {
    assert JsNumber.DigitValue(TwoDigits(m)[0]) == m / 10;
    assert JsNumber.DigitValue(TwoDigits(m)[1]) == m % 10;
    assert JsNumber.DigitValue(TwoDigits(n)[0]) == n / 10;
    assert JsNumber.DigitValue(TwoDigits(n)[1]) == n % 10;
  }

  /** Two `MM-DD` texts are equal exactly when the two parts are; no such
      text is "Invalid date", which is longer. */
  lemma FormatMonthDayInjective(a: Parsed, b: Parsed)
    requires WellFormed(a) && WellFormed(b)
    ensures FormatMonthDay(a) == FormatMonthDay(b) <==>
              (a.Invalid? && b.Invalid?) ||
              (a.Valid? && b.Valid? && SameMonthAndDay(a.date, b.date))
  {
    if a.Valid? && b.Valid? && FormatMonthDay(a) == FormatMonthDay(b) {
      var fa, fb := FormatMonthDay(a), FormatMonthDay(b);
      assert fa[..2] == TwoDigits(a.date.month) && fb[..2] == TwoDigits(b.date.month);
      assert fa[3..] == TwoDigits(a.date.day) && fb[3..] == TwoDigits(b.date.day);
      TwoDigitsInjective(a.date.month, b.date.month);
      TwoDigitsInjective(a.date.day, b.date.day);
    }
    if a.Valid? != b.Valid? {
      assert |FormatMonthDay(a)| != |FormatMonthDay(b)|;
    }
  }

  /** `isSameMonthAndDay(date1, date2)`: compares the two `MM-DD` texts. */
  function IsSameMonthAndDay(a: Parsed, b: Parsed): (r: bool)
    requires WellFormed(a) && WellFormed(b)
    ensures r <==> (a.Invalid? && b.Invalid?) ||
                   (a.Valid? && b.Valid? && SameMonthAndDay(a.date, b.date))
  {
    FormatMonthDayInjective(a, b);
    FormatMonthDay(a) == FormatMonthDay(b)
  }

  /** The comparison is reflexive and symmetric; two invalid inputs count
      as the same day, since both print as "Invalid date". */
  lemma IsSameMonthAndDayEquivalence(a: Parsed, b: Parsed)
    requires WellFormed(a) && WellFormed(b)
    ensures IsSameMonthAndDay(a, a)
    ensures IsSameMonthAndDay(a, b) == IsSameMonthAndDay(b, a)
    ensures IsSameMonthAndDay(Invalid, Invalid)
  {
  }

  /** The year takes no part in the comparison. */
  lemma IsSameMonthAndDayIgnoresYear(d: Date, e: Date, y: int)
    requires ValidDate(d) && ValidDate(e) && ValidDate(d.(year := y))
    ensures IsSameMonthAndDay(Valid(d.(year := y)), Valid(e)) == IsSameMonthAndDay(Valid(d), Valid(e))
  {
  }

  /** `moment(hour1, 'HH').isSame(moment(hour2, 'HH'), 'hour')`: both
      readings fall on today's date at minute 0, and the comparison looks at
      the date and the hour. */
  function IsSameHour(today: Date, h1: int, h2: int): (r: bool)
    requires 0 <= h1 <= 23 && 0 <= h2 <= 23
    ensures r <==> h1 == h2
  {
    var a := Moment(today, h1, 0);
    var b := Moment(today, h2, 0);
    a.date == b.date && a.hour == b.hour
  }

  /** moment's `month()`, which counts from 0. */
  function MonthIndex(d: Date): int {
    d.month - 1
  }

  /** `isAfter(input1, input2)`: the later month, or the same month and the
      later day. For an invalid moment `month()` and `date()` are NaN, and
      every comparison with NaN is false. */
  function IsAfter(a: Parsed, b: Parsed): bool {
    && a.Valid? && b.Valid?
    && (|| MonthIndex(a.date) > MonthIndex(b.date)
        || (MonthIndex(a.date) == MonthIndex(b.date) && a.date.day > b.date.day))
  }

  /** IsAfter is a strict order: irreflexive, asymmetric and transitive. */
  lemma IsAfterIsStrictOrder()
    ensures forall a :: !IsAfter(a, a)
    ensures forall a, b :: IsAfter(a, b) ==> !IsAfter(b, a)
    ensures forall a, b, c :: IsAfter(a, b) && IsAfter(b, c) ==> IsAfter(a, c)
  {
  }

  /** The year takes no part in IsAfter either. */
  lemma IsAfterIgnoresYear(d: Date, e: Date, y: int, z: int)
    ensures IsAfter(Valid(d.(year := y)), Valid(e.(year := z))) == IsAfter(Valid(d), Valid(e))
  {
  }

  /** Trichotomy: of two valid dates, exactly one is after the other or
      the two share month and day. */
  lemma Trichotomy(a: Parsed, b: Parsed)
    requires a.Valid? && b.Valid? && WellFormed(a) && WellFormed(b)
    ensures IsAfter(a, b) || IsAfter(b, a) || IsSameMonthAndDay(a, b)
    ensures !(IsAfter(a, b) && IsAfter(b, a))
    ensures !(IsAfter(a, b) && IsSameMonthAndDay(a, b))
    ensures !(IsAfter(b, a) && IsSameMonthAndDay(a, b))
  {
  }

  /** Trichotomy fails once one input is invalid: none of the three holds. */
  lemma InvalidIsIncomparable(b: Parsed)
    requires b.Valid? && WellFormed(b)
    ensures !IsAfter(Invalid, b) && !IsAfter(b, Invalid) && !IsSameMonthAndDay(Invalid, b)
  {
  }
}
