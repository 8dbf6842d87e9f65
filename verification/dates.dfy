/**
 * The date-exclusion rule of the booking walk: the portal's cells dated
 * today, tomorrow or the day after tomorrow are never booked. The dates are
 * rendered as `dd.mm.yyyy` and the portal may also show the words
 * "сегодня", "завтра", "послезавтра" instead of a date.
 */
module Dates {
  import opened Wrappers
  import opened Text

  /** A day of the proleptic Gregorian calendar, as Python's `datetime.date`. */
  datatype Date = Date(year: int, month: int, day: int)

  predicate IsLeapYear(year: int) {
    (year % 4 == 0 && year % 100 != 0) || year % 400 == 0
  }

  function DaysInMonth(year: int, month: int): int
    requires 1 <= month <= 12
  {
    if month == 2 then (if IsLeapYear(year) then 29 else 28)
    else if month == 4 || month == 6 || month == 9 || month == 11 then 30
    else 31
  }

  predicate ValidDate(d: Date) {
    d.year >= 1 && 1 <= d.month <= 12 && 1 <= d.day <= DaysInMonth(d.year, d.month)
  }

  /** Calendar order. */
  predicate Before(a: Date, b: Date) {
    a.year < b.year
    || (a.year == b.year && (a.month < b.month || (a.month == b.month && a.day < b.day)))
  }

  /** `d + timedelta(days=1)`. */
  function NextDay(d: Date): (r: Date)
    requires ValidDate(d)
    ensures ValidDate(r) && Before(d, r)
  {
    if d.day < DaysInMonth(d.year, d.month) then d.(day := d.day + 1)
    else if d.month < 12 then Date(d.year, d.month + 1, 1)
    else Date(d.year + 1, 1, 1)
  }

  /** No valid date lies strictly between a date and the next day. */
  lemma NextDayIsSuccessor(d: Date, e: Date)
    requires ValidDate(d) && ValidDate(e) && Before(d, e)
    ensures e == NextDay(d) || Before(NextDay(d), e)
  {
  }

  /** `d + timedelta(days=n)`. */
  function AddDays(d: Date, n: nat): (r: Date)
    requires ValidDate(d)
    ensures ValidDate(r)
    ensures n > 0 ==> Before(d, r)
    decreases n
  {
    if n == 0 then d else AddDays(NextDay(d), n - 1)
  }

  /** Reads back a `dd.mm.yyyy` text; the inverse of `FormatDate`. */
  function ParseDate(s: string): Option<Date>
  {
    if |s| >= 10 && s[2] == '.' && s[5] == '.'
       && AllDigits(s[..2]) && AllDigits(s[3..5]) && AllDigits(s[6..]) then
      var d := Date(DigitsToNat(s[6..]), DigitsToNat(s[3..5]), DigitsToNat(s[..2]));
      if ValidDate(d) then Some(d) else None
    else None
  }

  /** `d.strftime("%d.%m.%Y")`: two-digit day and month, year of at least four digits. */
  function FormatDate(d: Date): (r: string)
    requires ValidDate(d)
    ensures |r| >= 10
    ensures d.year < 10000 ==> |r| == 10
  {
    ZeroPad(NatToDigits(d.day), 2) + "." + ZeroPad(NatToDigits(d.month), 2) + "." + ZeroPad(NatToDigits(d.year), 4)
  }

  /** The three fields of a `dd.mm.yyyy` text sit where `ParseDate` reads them. */
  lemma FieldsInPlace(dd: string, mm: string, yyyy: string)
    requires |dd| == 2 && |mm| == 2 && |yyyy| >= 4
    ensures var s := dd + "." + mm + "." + yyyy;
            |s| >= 10 && s[2] == '.' && s[5] == '.' && s[..2] == dd && s[3..5] == mm && s[6..] == yyyy
  {
    var s := dd + "." + mm + "." + yyyy;
    assert s[..2] == dd;
    assert s[3..5] == mm;
    assert s[6..] == yyyy;
  }

  /** Reading a formatted date back gives the date. */
  lemma FormatDateRoundTrip(d: Date)
    requires ValidDate(d)
    ensures ParseDate(FormatDate(d)) == Some(d)
  {
    ZeroPadValue(NatToDigits(d.day), 2);
    ZeroPadValue(NatToDigits(d.month), 2);
    ZeroPadValue(NatToDigits(d.year), 4);
    FieldsInPlace(ZeroPad(NatToDigits(d.day), 2), ZeroPad(NatToDigits(d.month), 2), ZeroPad(NatToDigits(d.year), 4));
  }

  /** Different days are rendered differently. */
  lemma FormatDateInjective(a: Date, b: Date)
    requires ValidDate(a) && ValidDate(b) && a != b
    ensures FormatDate(a) != FormatDate(b)
  {
    FormatDateRoundTrip(a);
    FormatDateRoundTrip(b);
  }

  /** The words the portal shows in place of the three nearest dates. */
  const ForbiddenWords: seq<string> := ["сегодня", "завтра", "послезавтра"]

  /**
   * `create_forbitten_dates`: today, today + 1 and today + 2 as `dd.mm.yyyy`,
   * in that order, followed by the three words.
   */
  function ForbiddenDates(today: Date): (r: seq<string>)
    requires ValidDate(today)
    ensures |r| == 6 && r[3..] == ForbiddenWords
  {
    [FormatDate(today), FormatDate(AddDays(today, 1)), FormatDate(AddDays(today, 2))] + ForbiddenWords
  }

  /** Entry `k` of the list is the date `k` days after today for `k < 3`, then come the words in order. */
  lemma ForbiddenDatesEntries(today: Date)
    requires ValidDate(today)
    ensures var r := ForbiddenDates(today);
            (forall k :: 0 <= k < 3 ==> r[k] == FormatDate(AddDays(today, k)))
            && forall k :: 0 <= k < 3 ==> r[k + 3] == ForbiddenWords[k]
  {
    var r := ForbiddenDates(today);
    var d0, d1, d2 := AddDays(today, 0), AddDays(today, 1), AddDays(today, 2);
    assert d0 == today;
    assert r == [FormatDate(d0), FormatDate(d1), FormatDate(d2)] + ForbiddenWords;
    forall k | 0 <= k < 3
      ensures r[k] == FormatDate(AddDays(today, k)) && r[k + 3] == ForbiddenWords[k]
    {
      if k == 0 {
        assert r[0] == FormatDate(d0);
      } else if k == 1 {
        assert r[1] == FormatDate(d1);
      } else {
        assert r[2] == FormatDate(d2);
      }
    }
  }

  /** The three date entries read back as today, tomorrow and the day after. */
  lemma ForbiddenDatesRead(today: Date)
    requires ValidDate(today)
    ensures forall k :: 0 <= k < 3 ==> ParseDate(ForbiddenDates(today)[k]) == Some(AddDays(today, k))
  {
    ForbiddenDatesEntries(today);
    forall k | 0 <= k < 3
      ensures ParseDate(ForbiddenDates(today)[k]) == Some(AddDays(today, k))
    {
      FormatDateRoundTrip(AddDays(today, k));
    }
  }

  /** The three date entries are three different strings. */
  lemma ForbiddenDatesDistinct(today: Date)
    requires ValidDate(today)
    ensures var r := ForbiddenDates(today); r[0] != r[1] && r[1] != r[2] && r[0] != r[2]
  {
    var t1 := AddDays(today, 1);
    assert t1 == NextDay(today);
    assert AddDays(today, 2) == AddDays(NextDay(today), 1) == AddDays(t1, 1);
    FormatDateInjective(today, t1);
    FormatDateInjective(t1, AddDays(t1, 1));
    FormatDateInjective(today, AddDays(t1, 1));
  }

  /** `check_data_record`'s answer: some entry of the list is a substring of the date text. */
  predicate IsForbidden(dateText: string, forbidden: seq<string>) {
    exists k :: 0 <= k < |forbidden| && Contains(dateText, forbidden[k])
  }

  /**
   * `check_data_record`: scans the list in order and answers true at the first
   * entry found inside the date text, false when none is (so false for an
   * empty list).
   */
  method CheckDataRecord(dateText: string, forbidden: seq<string>) returns (r: bool)
    ensures r <==> IsForbidden(dateText, forbidden)
    ensures |forbidden| == 0 ==> !r
  {
    for k := 0 to |forbidden|
      invariant forall j :: 0 <= j < k ==> !Contains(dateText, forbidden[j])
    {
      if Contains(dateText, forbidden[k]) {
        return true;
      }
    }
    return false;
  }

  /** Every text that contains "послезавтра" contains "завтра". */
  lemma DayAfterTomorrowContainsTomorrow(dateText: string)
    requires Contains(dateText, "послезавтра")
    ensures Contains(dateText, "завтра")
  {
    var long: string := "послезавтра";
    assert long[5..11] == "завтра";
    assert OccursAt(long, "завтра", 5);
    ContainsTransitive(dateText, long, "завтра");
  }

  /**
   * In a list that ends with "завтра", "послезавтра" the last entry never
   * changes `check_data_record`'s answer.
   */
  lemma LastWordRedundant(dateText: string, forbidden: seq<string>)
    requires |forbidden| >= 2
    requires forbidden[|forbidden| - 2] == "завтра" && forbidden[|forbidden| - 1] == "послезавтра"
    ensures IsForbidden(dateText, forbidden) <==> IsForbidden(dateText, forbidden[..|forbidden| - 1])
  {
    var n := |forbidden|;
    var shorter := forbidden[..n - 1];
    if Contains(dateText, forbidden[n - 1]) {
      DayAfterTomorrowContainsTomorrow(dateText);
      assert shorter[n - 2] == forbidden[n - 2];
    }
    if IsForbidden(dateText, shorter) {
      var k :| 0 <= k < n - 1 && Contains(dateText, shorter[k]);
      assert forbidden[k] == shorter[k];
    }
  }
}
