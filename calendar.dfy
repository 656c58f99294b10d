/**
 * The part of Python's `datetime` that the PubMed adapter relies on:
 * proleptic Gregorian dates in years 1..9999, `strptime` for the numeric
 * three-field formats built from `%Y`, `%m` and `%d`, and `strftime` with
 * the format `%Y<sep>%m<sep>%d`.
 */
module Calendar {
  import opened Wrappers

  datatype Date = Date(year: int, month: int, day: int)

  predicate IsLeapYear(y: int) {
    y % 4 == 0 && (y % 100 != 0 || y % 400 == 0)
  }

  function DaysInMonth(y: int, m: int): (n: int)
    requires 1 <= m <= 12
    ensures 28 <= n <= 31
    ensures n == 29 <==> m == 2 && IsLeapYear(y)
  {
    if m == 2 then (if IsLeapYear(y) then 29 else 28)
    else if m == 4 || m == 6 || m == 9 || m == 11 then 30
    else 31
  }

  /** The arguments `datetime(year, month, day)` accepts without raising `ValueError`. */
  predicate IsValid(d: Date) {
    1 <= d.year <= 9999 && 1 <= d.month <= 12 && 1 <= d.day <= DaysInMonth(d.year, d.month)
  }

  /** `a < b` on two datetimes at midnight: chronological order. */
  predicate Before(a: Date, b: Date) {
    a.year < b.year || (a.year == b.year && (a.month < b.month || (a.month == b.month && a.day < b.day)))
  }

  // ---------------------------------------------------------------------------
  // Decimal digits

  predicate IsDigit(c: char) { '0' <= c <= '9' }

  predicate AllDigits(s: string) { forall i | 0 <= i < |s| :: IsDigit(s[i]) }

  function DigitValue(c: char): (n: nat)
    requires IsDigit(c)
    ensures n < 10
  {
    c as int - '0' as int
  }

  function DigitChar(n: nat): (c: char)
    requires n < 10
    ensures IsDigit(c) && DigitValue(c) == n
  {
    ('0' as int + n) as char
  }

  function Pow10(k: nat): (p: nat)
    ensures p >= 1
  {
    if k == 0 then 1 else 10 * Pow10(k - 1)
  }

  /** The number a string of decimal digits spells, most significant digit first. */
  function NumberValue(s: string): (n: nat)
    requires AllDigits(s)
    ensures n < Pow10(|s|)
  {
    if s == [] then 0 else NumberValue(s[..|s| - 1]) * 10 + DigitValue(s[|s| - 1])
  }

  lemma AllDigitsAppend(x: string, y: string)
    requires AllDigits(x) && AllDigits(y)
    ensures AllDigits(x + y)
  {
    forall i | 0 <= i < |x + y| ensures IsDigit((x + y)[i]) {
      if i >= |x| { assert (x + y)[i] == y[i - |x|]; }
    }
  }

  /** Appending digits shifts the value of the prefix by a power of ten. */
  lemma {:induction false} NumberValueAppend(x: string, y: string)
    requires AllDigits(x) && AllDigits(y)
    ensures AllDigits(x + y)
    ensures NumberValue(x + y) == NumberValue(x) * Pow10(|y|) + NumberValue(y)
  {
    AllDigitsAppend(x, y);
    if y == [] {
      assert x + y == x;
    } else {
      var y' := y[..|y| - 1];
      var last := DigitValue(y[|y| - 1]);
      assert (x + y)[..|x + y| - 1] == x + y';
      assert (x + y)[|x + y| - 1] == y[|y| - 1];
      NumberValueAppend(x, y');
      assert NumberValue(x + y) == NumberValue(x + y') * 10 + last;
      assert NumberValue(y) == NumberValue(y') * 10 + last;
      Shift(NumberValue(x), Pow10(|y'|), NumberValue(y'), last, NumberValue(x + y'), NumberValue(x + y), NumberValue(y));
    }
  }

  /** The arithmetic step of `NumberValueAppend`, kept apart so that its products stay small. */
  lemma Shift(vx: int, p: int, vy: int, c: int, vxy: int, n: int, m: int)
    requires vxy == vx * p + vy
    requires n == vxy * 10 + c
    requires m == vy * 10 + c
    ensures n == vx * (10 * p) + m
  {
    assert vx * (10 * p) == (vx * p) * 10;
  }

  /** Two digits, zero-padded (`%m`, `%d` in `strftime`). */
  function Pad2(n: nat): (s: string)
    requires n < 100
    ensures |s| == 2 && AllDigits(s) && NumberValue(s) == n
  {
    var s := [DigitChar(n / 10), DigitChar(n % 10)];
    assert s[..1] == [s[0]];
    assert [s[0]][..0] == [];
    s
  }

  /** Four digits, zero-padded (`%Y` in `strftime`). */
  function Pad4(n: nat): (s: string)
    requires n < 10000
    ensures |s| == 4 && AllDigits(s) && NumberValue(s) == n
  {
    NumberValueAppend(Pad2(n / 100), Pad2(n % 100));
    Pad2(n / 100) + Pad2(n % 100)
  }

  /** Zero-padding a two-digit string's value gives the string back. */
  lemma Pad2OfDigits(s: string)
    requires |s| == 2 && AllDigits(s)
    ensures Pad2(NumberValue(s)) == s
  {
    assert s[..1] == [s[0]];
    assert [s[0]][..0] == [];
    var a, b := DigitValue(s[0]), DigitValue(s[1]);
    assert NumberValue(s) == a * 10 + b;
    assert (a * 10 + b) / 10 == a && (a * 10 + b) % 10 == b;
    assert DigitChar(a) == s[0] && DigitChar(b) == s[1];
  }

  /** Zero-padding a four-digit string's value gives the string back. */
  lemma Pad4OfDigits(s: string)
    requires |s| == 4 && AllDigits(s)
    ensures Pad4(NumberValue(s)) == s
  {
    var hi, lo := s[..2], s[2..];
    assert s == hi + lo;
    NumberValueAppend(hi, lo);
    var h, l := NumberValue(hi), NumberValue(lo);
    assert NumberValue(s) == h * 100 + l;
    assert (h * 100 + l) / 100 == h && (h * 100 + l) % 100 == l;
    Pad2OfDigits(hi);
    Pad2OfDigits(lo);
  }

  // ---------------------------------------------------------------------------
  // Splitting on a separator

  /** `s.split(sep)`: the pieces between occurrences of `sep`, empty pieces included. */
  function Split(s: string, sep: char): (parts: seq<string>)
    ensures |parts| >= 1
    ensures forall k | 0 <= k < |parts| :: sep !in parts[k]
  {
    if s == [] then [[]]
    else
      var rest := Split(s[1..], sep);
      if s[0] == sep then [[]] + rest
      else [[s[0]] + rest[0]] + rest[1..]
  }

  /** `sep.join(parts)`. */
  function Join(parts: seq<string>, sep: char): string
    requires |parts| >= 1
  {
    if |parts| == 1 then parts[0] else parts[0] + [sep] + Join(parts[1..], sep)
  }

  /** Splitting loses nothing: joining the pieces again gives the string back. */
  lemma {:induction false} JoinSplit(s: string, sep: char)
    ensures Join(Split(s, sep), sep) == s
  {
    if s != [] {
      var rest := Split(s[1..], sep);
      JoinSplit(s[1..], sep);
      if s[0] == sep {
        assert ([[]] + rest)[1..] == rest;
      } else if |rest| > 1 {
        assert ([[s[0]] + rest[0]] + rest[1..])[1..] == rest[1..];
      }
    }
  }

  /** A piece free of the separator, followed by the separator, splits off as one piece. */
  lemma {:induction false} SplitCons(a: string, rest: string, sep: char)
    requires sep !in a
    ensures Split(a + [sep] + rest, sep) == [a] + Split(rest, sep)
  {
    var s := a + [sep] + rest;
    if a == [] {
      assert s[1..] == rest;
    } else {
      assert s[1..] == a[1..] + [sep] + rest;
      SplitCons(a[1..], rest, sep);
      assert [a[0]] + a[1..] == a;
    }
  }

  lemma {:induction false} SplitNoSep(a: string, sep: char)
    requires sep !in a
    ensures Split(a, sep) == [a]
  {
    if a != [] {
      SplitNoSep(a[1..], sep);
      assert [a[0]] + a[1..] == a;
    }
  }

  /** A string made of three separator-free pieces splits into exactly those pieces. */
  lemma SplitThree(a: string, b: string, c: string, sep: char)
    requires sep !in a && sep !in b && sep !in c
    ensures Split(a + [sep] + b + [sep] + c, sep) == [a, b, c]
  {
    assert a + [sep] + b + [sep] + c == a + [sep] + (b + [sep] + c);
    SplitCons(a, b + [sep] + c, sep);
    SplitCons(b, c, sep);
    SplitNoSep(c, sep);
  }

  /** `s.replace(from, to)` for single characters. */
  function ReplaceChar(s: string, from: char, to: char): (r: string)
    ensures |r| == |s|
    ensures forall i | 0 <= i < |s| :: r[i] == if s[i] == from then to else s[i]
  {
    if s == [] then [] else [if s[0] == from then to else s[0]] + ReplaceChar(s[1..], from, to)
  }

  // ---------------------------------------------------------------------------
  // strptime and strftime

  /** The three directives of the numeric formats. */
  datatype Directive = Year | Month | Day

  /** The order in which a format names its fields: `%Y %m %d`, `%d %m %Y` or `%m %d %Y`. */
  datatype FieldOrder = YMD | DMY | MDY

  /**
   * The value one directive reads from the text between two separators, or None
   * when its pattern does not match all of that text. `%Y` takes exactly four
   * digits; `%m` one or two digits worth 1..12; `%d` one or two digits worth
   * 1..31, or a space followed by a digit 1..9.
   */
  function ReadDirective(dir: Directive, p: string): (r: Option<int>)
    ensures r.Some? ==> AllDigits(p) || (|p| == 2 && p[0] == ' ')
    ensures dir == Year ==> (r.Some? <==> |p| == 4 && AllDigits(p))
    ensures dir == Month ==> (r.Some? <==> 1 <= |p| <= 2 && AllDigits(p) && 1 <= NumberValue(p) <= 12)
    ensures dir == Day ==> (r.Some? <==>
      (1 <= |p| <= 2 && AllDigits(p) && 1 <= NumberValue(p) <= 31) || (|p| == 2 && p[0] == ' ' && '1' <= p[1] <= '9'))
    ensures r.Some? && AllDigits(p) ==> r.value == NumberValue(p)
    ensures r.Some? && |p| == 2 && p[0] == ' ' ==> r.value == p[1] as int - '0' as int
    ensures dir == Year && r.Some? ==> 0 <= r.value <= 9999
    ensures dir == Month && r.Some? ==> 1 <= r.value <= 12
    ensures dir == Day && r.Some? ==> 1 <= r.value <= 31
  {
    match dir
    case Year =>
      if |p| == 4 && AllDigits(p) then Some(NumberValue(p)) else None
    case Month =>
      if 1 <= |p| <= 2 && AllDigits(p) && 1 <= NumberValue(p) <= 12 then Some(NumberValue(p)) else None
    case Day =>
      if 1 <= |p| <= 2 && AllDigits(p) && 1 <= NumberValue(p) <= 31 then Some(NumberValue(p))
      else if |p| == 2 && p[0] == ' ' && '1' <= p[1] <= '9' then Some(DigitValue(p[1]))
      else None
  }

  /**
   * `datetime.strptime(s, fmt)` for a format whose fields come in `order` and are
   * separated by `sep`; None stands for the `ValueError` it raises.
   */
  function Strptime(s: string, order: FieldOrder, sep: char): (r: Option<Date>)
    ensures r.Some? ==> IsValid(r.value)
    ensures r.Some? ==> |Split(s, sep)| == 3
  {
    var parts := Split(s, sep);
    if |parts| != 3 then None
    else
      var (y, m, d) :=
        match order
        case YMD => (parts[0], parts[1], parts[2])
        case DMY => (parts[2], parts[1], parts[0])
        case MDY => (parts[2], parts[0], parts[1]);
      var year, month, day := ReadDirective(Year, y), ReadDirective(Month, m), ReadDirective(Day, d);
      if year.Some? && month.Some? && day.Some? && IsValid(Date(year.value, month.value, day.value))
      then Some(Date(year.value, month.value, day.value))
      else None
  }

  /** `d.strftime("%Y<sep>%m<sep>%d")`. */
  function Strftime(d: Date, sep: char): (s: string)
    requires IsValid(d)
    ensures |s| == 10 && s[4] == sep && s[7] == sep
    ensures forall i | 0 <= i < 10 && i != 4 && i != 7 :: IsDigit(s[i])
  {
    Pad4(d.year) + [sep] + Pad2(d.month) + [sep] + Pad2(d.day)
  }

  /** Reading back what `strftime` wrote, with the same separator, gives the same date. */
  lemma StrftimeRoundTrip(d: Date, sep: char)
    requires IsValid(d) && !IsDigit(sep)
    ensures Strptime(Strftime(d, sep), YMD, sep) == Some(d)
  {
    var y, m, dd := Pad4(d.year), Pad2(d.month), Pad2(d.day);
    assert sep !in y && sep !in m && sep !in dd by {
      assert forall i | 0 <= i < |y| :: y[i] != sep;
      assert forall i | 0 <= i < |m| :: m[i] != sep;
      assert forall i | 0 <= i < |dd| :: dd[i] != sep;
    }
    SplitThree(y, m, dd, sep);
  }
}
