/**
 * Publication dates of PubMed records (app/services/pubmed_services/pubmed_services.py):
 * reading a `<Year>/<Month>/<Day>` element into a partial date, choosing between
 * a record's ArticleDate and PubDate, and the three-format date parser.
 */
module PubmedDates {
  import opened Wrappers
  import opened Calendar

  /** The texts of an element's `Year`, `Month` and `Day` children; None when a
      child is absent or has no text. */
  datatype DateElement = DateElement(year: Option<string>, month: Option<string>, day: Option<string>)

  /** A date as `extract_date` returns it: a year, and a month and day that may be missing. */
  datatype PartialDate = PartialDate(year: int, month: Option<nat>, day: Option<nat>)

  /** Python truthiness of a `str | None`. */
  predicate NonEmpty(s: Option<string>) { s.Some? && s.value != "" }

  /** Python truthiness of an `int | None`: zero counts as missing. */
  predicate Truthy(n: Option<nat>) { n.Some? && n.value != 0 }

  /** `s.isdigit()` (ASCII digits). */
  predicate IsDigitString(s: string) { |s| > 0 && AllDigits(s) }

  /**
   * The most decimal digits `int` converts (`sys.get_int_max_str_digits()`,
   * default of Python 3.11 and later); a longer digit string raises `ValueError`.
   */
  const MaxIntDigits := 4300

  /** `int(s)`: an optional sign followed by one to `MaxIntDigits` digits; None for the `ValueError`. */
  function PyInt(s: string): (r: Option<int>)
    ensures IsDigitString(s) ==> (r.Some? <==> |s| <= MaxIntDigits)
    ensures IsDigitString(s) && r.Some? ==> r.value == NumberValue(s)
    ensures r.Some? ==> |s| > 0
  {
    if |s| > 1 && (s[0] == '+' || s[0] == '-') && AllDigits(s[1..]) && |s| - 1 <= MaxIntDigits then
      Some(if s[0] == '-' then -(NumberValue(s[1..]) as int) else NumberValue(s[1..]))
    else if IsDigitString(s) && |s| <= MaxIntDigits then Some(NumberValue(s))
    else None
  }

  /** A present digit text too long for `int`: reading it raises `ValueError`. */
  predicate TooLong(text: Option<string>) {
    NonEmpty(text) && IsDigitString(text.value) && |text.value| > MaxIntDigits
  }

  // ---------------------------------------------------------------------------
  // Month abbreviations (`strptime(text, "%b")` in the C locale)

  const MonthAbbreviations: seq<string> :=
    ["jan", "feb", "mar", "apr", "may", "jun", "jul", "aug", "sep", "oct", "nov", "dec"]

  function LowerAscii(s: string): (r: string)
    ensures |r| == |s|
    ensures forall i | 0 <= i < |s| :: r[i] == if 'A' <= s[i] <= 'Z' then (s[i] as int + 32) as char else s[i]
  {
    if s == [] then []
    else [if 'A' <= s[0] <= 'Z' then (s[0] as int + 32) as char else s[0]] + LowerAscii(s[1..])
  }

  function IndexOf(names: seq<string>, s: string): (r: Option<nat>)
    ensures r.Some? ==> r.value < |names| && names[r.value] == s
    ensures r.None? ==> s !in names
  {
    if names == [] then None
    else if names[0] == s then Some(0)
    else match IndexOf(names[1..], s)
      case None => None
      case Some(k) => Some(k + 1)
  }

  /**
   * The month number of an English month abbreviation, matched without regard
   * to case (`Sep`, `SEP` and `sep` all give 9); None when `strptime` would raise.
   */
  function MonthFromAbbreviation(s: string): (r: Option<nat>)
    ensures r.Some? ==> 1 <= r.value <= 12 && LowerAscii(s) == MonthAbbreviations[r.value - 1]
    ensures r.None? ==> LowerAscii(s) !in MonthAbbreviations
  {
    match IndexOf(MonthAbbreviations, LowerAscii(s))
    case None => None
    case Some(k) => Some(k + 1)
  }

  // ---------------------------------------------------------------------------
  // extract_date

  /**
   * The month `extract_date` reads from a month text; None also for a digit
   * text too long for `int`, where `ExtractDate` gives no date at all.
   */
  function ReadMonth(text: Option<string>): (r: Option<nat>)
    ensures !NonEmpty(text) ==> r.None?
    ensures NonEmpty(text) && IsDigitString(text.value) ==>
      r == if TooLong(text) then None else Some(NumberValue(text.value))
    ensures NonEmpty(text) && !IsDigitString(text.value) ==> r == MonthFromAbbreviation(text.value)
  {
    if NonEmpty(text) && !IsDigitString(text.value) then MonthFromAbbreviation(text.value)
    else if NonEmpty(text) && IsDigitString(text.value) && PyInt(text.value).Some? then Some(NumberValue(text.value))
    else None
  }

  /**
   * The day `extract_date` reads from a day text: only an all-digit text gives
   * a day; None also for one too long for `int`, where `ExtractDate` gives no date.
   */
  function ReadDay(text: Option<string>): (r: Option<nat>)
    ensures r.Some? <==> text.Some? && IsDigitString(text.value) && !TooLong(text)
    ensures r.Some? ==> r.value == NumberValue(text.value)
  {
    if NonEmpty(text) && IsDigitString(text.value) && PyInt(text.value).Some? then Some(NumberValue(text.value))
    else None
  }

  /**
   * `extract_date`: None when the element is absent, its year is missing,
   * empty or not an integer, or a digit month or day is too long for `int`
   * (the `ValueError` caught around the conversions); otherwise the year with
   * whatever month and day could be read.
   */
  function ExtractDate(element: Option<DateElement>): (r: Option<PartialDate>)
    ensures r.None? <==> (element.None? || !NonEmpty(element.value.year) || PyInt(element.value.year.value).None? ||
      TooLong(element.value.month) || TooLong(element.value.day))
    ensures r.Some? ==> Some(r.value.year) == PyInt(element.value.year.value)
    ensures r.Some? ==> r.value.month == ReadMonth(element.value.month) && r.value.day == ReadDay(element.value.day)
  {
    if element.None? then None
    else
      var e := element.value;
      if !NonEmpty(e.year) then None
      else match PyInt(e.year.value)
        case None => None
        case Some(y) =>
          if TooLong(e.month) || TooLong(e.day) then None
          else Some(PartialDate(y, ReadMonth(e.month), ReadDay(e.day)))
  }

  /** A digit month or day too long for `int` loses the whole date, whatever the year. */
  lemma TooLongFieldNoDate(element: DateElement)
    requires TooLong(element.month) || TooLong(element.day)
    ensures ExtractDate(Some(element)).None?
  {
  }

  /**
   * A month given by name always lies in 1..12; one given by digits is taken as
   * written; the month is missing exactly when its text is missing or empty, or
   * is neither digits nor a month name.
   */
  lemma ExtractedMonthBounds(element: DateElement)
    requires ExtractDate(Some(element)).Some?
    ensures var p := ExtractDate(Some(element)).value;
      p.month.Some? && !IsDigitString(element.month.value) ==> 1 <= p.month.value <= 12
    ensures var p := ExtractDate(Some(element)).value;
      p.month.Some? && IsDigitString(element.month.value) ==> p.month.value == NumberValue(element.month.value)
    ensures var p := ExtractDate(Some(element)).value;
      p.month.None? <==> (!NonEmpty(element.month) ||
        (!IsDigitString(element.month.value) && LowerAscii(element.month.value) !in MonthAbbreviations))
  {
  }

  lemma NumberValue2024()
    ensures AllDigits("2024") && NumberValue("2024") == 2024
  {
    assert "2024"[..3] == "202" && "202"[..2] == "20" && "20"[..1] == "2" && "2"[..0] == "";
  }

  /** A month abbreviation is read as its month number. */
  lemma ExtractDateMonthName()
    ensures ExtractDate(Some(DateElement(Some("2024"), Some("Sep"), None))) == Some(PartialDate(2024, Some(9), None))
  {
    NumberValue2024();
    MonthSep();
  }

  lemma MonthSep()
    ensures MonthFromAbbreviation("Sep") == Some(9)
  {
    assert LowerAscii("Sep") == "sep" by {
      assert LowerAscii("Sep")[0] == 's';
    }
    var names := MonthAbbreviations;
    forall k | 0 <= k < 8 ensures names[k] != "sep" {
      assert names[k][0] != 's';
    }
    IndexOfFirst(names, "sep", 8);
  }

  lemma {:induction false} IndexOfFirst(names: seq<string>, s: string, k: nat)
    requires k < |names| && names[k] == s
    requires forall j | 0 <= j < k :: names[j] != s
    ensures IndexOf(names, s) == Some(k)
  {
    if k > 0 {
      IndexOfFirst(names[1..], s, k - 1);
    }
  }

  // ---------------------------------------------------------------------------
  // compare_dates

  /**
   * `compare_dates` on two dates that are both present: the year decides, then a
   * month both sides have, then a day both sides have. A side that has a month
   * (or, with months tied, a day) wins over one that lacks it. Full ties give `a`.
   */
  function Earlier(a: PartialDate, b: PartialDate): (r: PartialDate)
    ensures r == if LexLe(Key(a), Key(b)) then a else b
  {
    KeyOrder(a, b);
    if a.year != b.year then (if a.year < b.year then a else b)
    else if Truthy(a.month) && Truthy(b.month) && a.month.value != b.month.value then
      (if a.month.value < b.month.value then a else b)
    else if Truthy(a.month) && !Truthy(b.month) then a
    else if !Truthy(a.month) && Truthy(b.month) then b
    else if Truthy(a.day) && Truthy(b.day) && a.day.value != b.day.value then
      (if a.day.value < b.day.value then a else b)
    else if Truthy(a.day) && !Truthy(b.day) then a
    else if !Truthy(a.day) && Truthy(b.day) then b
    else a
  }

  /** `compare_dates`: an absent side gives the other; otherwise `Earlier`. */
  function CompareDates(d1: Option<PartialDate>, d2: Option<PartialDate>): (r: Option<PartialDate>)
    ensures r == d1 || r == d2
    ensures r.None? <==> d1.None? && d2.None?
    ensures d1.None? ==> r == d2
    ensures d2.None? ==> r == d1
    ensures r.Some? ==> (d1.Some? ==> LexLe(Key(r.value), Key(d1.value))) && (d2.Some? ==> LexLe(Key(r.value), Key(d2.value)))
  {
    if d1.None? then (if d2.Some? then LexLeReflexive(Key(d2.value)); d2 else d2)
    else if d2.None? then LexLeReflexive(Key(d1.value)); d1
    else
      LexLeTotal(Key(d1.value), Key(d2.value));
      LexLeReflexive(Key(d1.value));
      LexLeReflexive(Key(d2.value));
      Some(Earlier(d1.value, d2.value))
  }

  // The reference order that compare_dates follows.

  /** Rank of a month or day: a present value ranks by itself, a missing one after all values. */
  function Missing(n: Option<nat>): int { if Truthy(n) then 0 else 1 }
  function ValueOr0(n: Option<nat>): int { if Truthy(n) then n.value else 0 }

  /** The sort key under which `compare_dates` returns the least date. */
  function Key(p: PartialDate): (k: seq<int>)
    ensures |k| == 5
  {
    [p.year, Missing(p.month), ValueOr0(p.month), Missing(p.day), ValueOr0(p.day)]
  }

  /** Lexicographic order on keys of equal length. */
  predicate LexLe(x: seq<int>, y: seq<int>)
    requires |x| == |y|
  {
    x == [] || x[0] < y[0] || (x[0] == y[0] && LexLe(x[1..], y[1..]))
  }

  /** The key order spelled out field by field. */
  lemma KeyOrder(a: PartialDate, b: PartialDate)
    ensures LexLe(Key(a), Key(b)) <==>
      a.year < b.year || (a.year == b.year &&
        (Missing(a.month) < Missing(b.month) || (Missing(a.month) == Missing(b.month) &&
          (ValueOr0(a.month) < ValueOr0(b.month) || (ValueOr0(a.month) == ValueOr0(b.month) &&
            (Missing(a.day) < Missing(b.day) || (Missing(a.day) == Missing(b.day) &&
              ValueOr0(a.day) <= ValueOr0(b.day))))))))
  {
    var x, y := Key(a), Key(b);
    assert LexLe(x[4..], y[4..]) <==> x[4] <= y[4] by { assert x[4..][1..] == []; }
    assert LexLe(x[3..], y[3..]) <==> x[3] < y[3] || (x[3] == y[3] && LexLe(x[4..], y[4..])) by {
      assert x[3..][1..] == x[4..] && y[3..][1..] == y[4..];
    }
    assert LexLe(x[2..], y[2..]) <==> x[2] < y[2] || (x[2] == y[2] && LexLe(x[3..], y[3..])) by {
      assert x[2..][1..] == x[3..] && y[2..][1..] == y[3..];
    }
    assert LexLe(x[1..], y[1..]) <==> x[1] < y[1] || (x[1] == y[1] && LexLe(x[2..], y[2..])) by {
      assert x[1..][1..] == x[2..] && y[1..][1..] == y[2..];
    }
  }

  lemma {:induction false} LexLeReflexive(x: seq<int>)
    ensures LexLe(x, x)
  {
    if x != [] { LexLeReflexive(x[1..]); }
  }

  lemma {:induction false} LexLeTotal(x: seq<int>, y: seq<int>)
    requires |x| == |y|
    ensures LexLe(x, y) || LexLe(y, x)
  {
    if x != [] && x[0] == y[0] { LexLeTotal(x[1..], y[1..]); }
  }

  lemma {:induction false} LexLeTransitive(x: seq<int>, y: seq<int>, z: seq<int>)
    requires |x| == |y| == |z|
    requires LexLe(x, y) && LexLe(y, z)
    ensures LexLe(x, z)
  {
    if x != [] && x[0] == y[0] && y[0] == z[0] { LexLeTransitive(x[1..], y[1..], z[1..]); }
  }

  lemma {:induction false} LexLeAntisymmetric(x: seq<int>, y: seq<int>)
    requires |x| == |y|
    requires LexLe(x, y) && LexLe(y, x)
    ensures x == y
  {
    if x != [] {
      LexLeAntisymmetric(x[1..], y[1..]);
      assert x == [x[0]] + x[1..] && y == [y[0]] + y[1..];
    }
  }

  /** Choosing among three candidates does not depend on how the comparisons are grouped. */
  lemma EarlierAssociative(a: PartialDate, b: PartialDate, c: PartialDate)
    ensures Earlier(Earlier(a, b), c) == Earlier(a, Earlier(b, c))
  {
    var ka, kb, kc := Key(a), Key(b), Key(c);
    LexLeTotal(ka, kb); LexLeTotal(kb, kc); LexLeTotal(ka, kc);
    if LexLe(ka, kb) && LexLe(kb, kc) { LexLeTransitive(ka, kb, kc); }
    if LexLe(kb, ka) && LexLe(kc, kb) { LexLeTransitive(kc, kb, ka); }
    if LexLe(kc, ka) && LexLe(ka, kb) { LexLeTransitive(kc, ka, kb); }
    if LexLe(kb, kc) && LexLe(kc, ka) { LexLeTransitive(kb, kc, ka); }
  }

  /** Swapping the arguments changes the outcome only between dates with equal keys. */
  lemma EarlierSwap(a: PartialDate, b: PartialDate)
    ensures Key(Earlier(a, b)) == Key(Earlier(b, a))
  {
    LexLeTotal(Key(a), Key(b));
    if LexLe(Key(a), Key(b)) && LexLe(Key(b), Key(a)) { LexLeAntisymmetric(Key(a), Key(b)); }
  }

  /** With years equal and exactly one side carrying a month, that side is chosen. */
  lemma EarlierPrefersMonth(a: PartialDate, b: PartialDate)
    requires a.year == b.year && Truthy(a.month) != Truthy(b.month)
    ensures Earlier(a, b) == if Truthy(a.month) then a else b
  {
  }

  // ---------------------------------------------------------------------------
  // Filling in a missing month and day

  /** The calendar date the filter compares: a missing (or zero) month or day becomes 1. */
  function Resolve(p: PartialDate): (d: Date)
    ensures d.year == p.year
    ensures Truthy(p.month) ==> d.month == p.month.value
    ensures !Truthy(p.month) ==> d.month == 1
    ensures Truthy(p.day) ==> d.day == p.day.value
    ensures !Truthy(p.day) ==> d.day == 1
  {
    Date(p.year, if Truthy(p.month) then p.month.value else 1, if Truthy(p.day) then p.day.value else 1)
  }

  /** When both dates carry month and day, the chosen one is chronologically the earlier. */
  lemma EarlierIsChronological(a: PartialDate, b: PartialDate)
    requires Truthy(a.month) && Truthy(b.month) && Truthy(a.day) && Truthy(b.day)
    ensures !Before(Resolve(a), Resolve(Earlier(a, b))) && !Before(Resolve(b), Resolve(Earlier(a, b)))
  {
  }

  /**
   * A date with only a year loses to one of the same year that has a month,
   * although after filling in month 1 it is the earlier of the two.
   */
  lemma MoreSpecificDateWins()
    ensures var yearOnly, withMonth := PartialDate(2024, None, None), PartialDate(2024, Some(9), None);
      Earlier(yearOnly, withMonth) == withMonth && Before(Resolve(yearOnly), Resolve(withMonth))
  {
  }

  // ---------------------------------------------------------------------------
  // parse_date

  /**
   * `parse_date`: turn every `/` into `-`, then try `%Y-%m-%d`, `%d-%m-%Y` and
   * `%m-%d-%Y` in that order; the first that matches gives the date.
   */
  function ParseDate(s: string): (r: Result<Date>)
    ensures var t := ReplaceChar(s, '/', '-');
      r.Ok? <==> Strptime(t, YMD, '-').Some? || Strptime(t, DMY, '-').Some? || Strptime(t, MDY, '-').Some?
    ensures r.Ok? ==> IsValid(r.value)
    ensures r.Err? ==> r.error == "Date format not recognized: " + ReplaceChar(s, '/', '-')
    ensures var t := ReplaceChar(s, '/', '-');
      Strptime(t, YMD, '-').Some? ==> r == Ok(Strptime(t, YMD, '-').value)
    ensures var t := ReplaceChar(s, '/', '-');
      Strptime(t, YMD, '-').None? && Strptime(t, DMY, '-').Some? ==> r == Ok(Strptime(t, DMY, '-').value)
    ensures var t := ReplaceChar(s, '/', '-');
      (Strptime(t, YMD, '-').None? && Strptime(t, DMY, '-').None? && Strptime(t, MDY, '-').Some?) ==>
        r == Ok(Strptime(t, MDY, '-').value)
  {
    var t := ReplaceChar(s, '/', '-');
    match Strptime(t, YMD, '-')
    case Some(d) => Ok(d)
    case None =>
      match Strptime(t, DMY, '-')
      case Some(d) => Ok(d)
      case None =>
        match Strptime(t, MDY, '-')
        case Some(d) => Ok(d)
        case None => Err("Date format not recognized: " + t)
  }

  /** Replacing `/` by `-` turns the `/` rendering of a date into its `-` rendering. */
  lemma SlashesToDashes(d: Date)
    requires IsValid(d)
    ensures ReplaceChar(Strftime(d, '/'), '/', '-') == Strftime(d, '-')
    ensures ReplaceChar(Strftime(d, '-'), '/', '-') == Strftime(d, '-')
  {
    var slash, dash := Strftime(d, '/'), Strftime(d, '-');
    assert slash[..4] == dash[..4] && slash[5..7] == dash[5..7] && slash[8..] == dash[8..];
    forall i | 0 <= i < 10 ensures ReplaceChar(slash, '/', '-')[i] == dash[i] {
      if i != 4 && i != 7 { assert slash[i] == dash[i]; }
    }
  }

  /** `parse_date` reads back any date written as `YYYY/MM/DD` or `YYYY-MM-DD`. */
  lemma ParseDateRoundTrip(d: Date)
    requires IsValid(d)
    ensures ParseDate(Strftime(d, '/')) == Ok(d)
    ensures ParseDate(Strftime(d, '-')) == Ok(d)
  {
    SlashesToDashes(d);
    StrftimeRoundTrip(d, '-');
  }

  /** A date written day first, `DD-MM-YYYY`. */
  function DayFirst(d: Date): (s: string)
    requires IsValid(d)
    ensures |s| == 10
  {
    Pad2(d.day) + "-" + Pad2(d.month) + "-" + Pad4(d.year)
  }

  /** A date written month first, `MM-DD-YYYY`. */
  function MonthFirst(d: Date): (s: string)
    requires IsValid(d)
    ensures |s| == 10
  {
    Pad2(d.month) + "-" + Pad2(d.day) + "-" + Pad4(d.year)
  }

  lemma NoDash(s: string)
    requires AllDigits(s)
    ensures '-' !in s && '/' !in s
  {
    assert forall i | 0 <= i < |s| :: s[i] != '-' && s[i] != '/';
  }

  /** A day-first date is always read day first. */
  lemma ParseDateDayFirst(d: Date)
    requires IsValid(d)
    ensures ParseDate(DayFirst(d)) == Ok(d)
  {
    var dd, mm, yy := Pad2(d.day), Pad2(d.month), Pad4(d.year);
    NoDash(dd); NoDash(mm); NoDash(yy);
    var s := DayFirst(d);
    assert ReplaceChar(s, '/', '-') == s;
    SplitThree(dd, mm, yy, '-');
    assert Strptime(s, YMD, '-') == None;
  }

  /**
   * A month-first date is read month first only when its day exceeds 12;
   * otherwise the day-first reading wins and day and month trade places.
   */
  lemma ParseDateMonthFirst(d: Date)
    requires IsValid(d)
    ensures d.day <= 12 ==> ParseDate(MonthFirst(d)) == Ok(Date(d.year, d.day, d.month))
    ensures d.day > 12 ==> ParseDate(MonthFirst(d)) == Ok(d)
  {
    var dd, mm, yy := Pad2(d.day), Pad2(d.month), Pad4(d.year);
    NoDash(dd); NoDash(mm); NoDash(yy);
    var s := MonthFirst(d);
    assert ReplaceChar(s, '/', '-') == s;
    SplitThree(mm, dd, yy, '-');
    assert Strptime(s, YMD, '-') == None;
  }
}
