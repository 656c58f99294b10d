/**
 * The request validation of the `/filter` endpoint (app/api/filter_article.py):
 * both dates must be present and read as `YYYY-MM-DD`; they are then handed on
 * rewritten as `YYYY/MM/DD`, the form the PubMed search takes.
 */
module FilterRequest {
  import opened Wrappers
  import opened Calendar

  /** One key of the JSON body: absent, `null`, or a string. */
  datatype JsonField = Missing | Null | Str(text: string)

  /** The request handed to the article filter. */
  datatype PubmedRequest = PubmedRequest(startDate: string, endDate: string, query: Option<string>)

  /** What the endpoint answers before the filter runs: an error status with its message, or the request. */
  datatype Response = Rejected(status: int, message: string) | Accepted(request: PubmedRequest)

  const MISSING_DATES := "Missing start_date or end_date"
  const BAD_FORMAT := "Invalid date format, expected YYYY/MM/DD"

  /** `not value` is false: a non-empty string. */
  predicate Present(f: JsonField) {
    f.Str? && f.text != []
  }

  /** `data.get("query", "")`. */
  function QueryOf(f: JsonField): (q: Option<string>)
    ensures f.Missing? ==> q == Some("")
    ensures f.Null? ==> q.None?
    ensures f.Str? ==> q == Some(f.text)
  {
    match f
    case Missing => Some("")
    case Null => None
    case Str(text) => Some(text)
  }

  /** `datetime.strptime(text, "%Y-%m-%d")`. */
  function ReadInput(text: string): Option<Date>
  {
    Strptime(text, YMD, '-')
  }

  /** `d.strftime("%Y/%m/%d")`. */
  function WriteOutput(d: Date): string
    requires IsValid(d)
  {
    Strftime(d, '/')
  }

  /** The checks of `filter_articles` on the three body fields, in source order. */
  function FilterArticles(start: JsonField, end: JsonField, query: JsonField): (r: Response)
    ensures r.Rejected? ==> r.status == 400 && (r.message == MISSING_DATES || r.message == BAD_FORMAT)
    ensures r.Accepted? ==> Present(start) && Present(end) && ReadInput(start.text).Some? && ReadInput(end.text).Some?
    ensures r.Accepted? ==> |r.request.startDate| == 10 && |r.request.endDate| == 10
  {
    if !Present(start) || !Present(end) then Rejected(400, MISSING_DATES)
    else match (ReadInput(start.text), ReadInput(end.text))
      case (Some(s), Some(e)) => Accepted(PubmedRequest(WriteOutput(s), WriteOutput(e), QueryOf(query)))
      case _ => Rejected(400, BAD_FORMAT)
  }

  /** A missing, null or empty date is refused with the first message, whatever the other fields hold. */
  lemma MissingDateRejected(start: JsonField, end: JsonField, query: JsonField)
    ensures !Present(start) || !Present(end) <==> FilterArticles(start, end, query) == Rejected(400, MISSING_DATES)
  {
  }

  /** Both dates present but one not `YYYY-MM-DD` (or not a calendar date): refused with the second message. */
  lemma MalformedDateRejected(start: JsonField, end: JsonField, query: JsonField)
    requires Present(start) && Present(end)
    ensures ReadInput(start.text).None? || ReadInput(end.text).None?
      <==> FilterArticles(start, end, query) == Rejected(400, BAD_FORMAT)
  {
  }

  /** Every rejection is a 400, and a request is accepted exactly when both dates are present and read. */
  lemma AcceptedIffBothRead(start: JsonField, end: JsonField, query: JsonField)
    ensures FilterArticles(start, end, query).Rejected? ==> FilterArticles(start, end, query).status == 400
    ensures FilterArticles(start, end, query).Accepted?
      <==> Present(start) && Present(end) && ReadInput(start.text).Some? && ReadInput(end.text).Some?
  {
  }

  /** The rewritten dates read back, in the PubMed form, as the very dates the caller sent. */
  lemma AcceptedDatesRoundTrip(start: JsonField, end: JsonField, query: JsonField)
    requires FilterArticles(start, end, query).Accepted?
    ensures var req := FilterArticles(start, end, query).request;
      && Strptime(req.startDate, YMD, '/') == ReadInput(start.text)
      && Strptime(req.endDate, YMD, '/') == ReadInput(end.text)
  {
    StrftimeRoundTrip(ReadInput(start.text).value, '/');
    StrftimeRoundTrip(ReadInput(end.text).value, '/');
  }

  /** The query is passed through; an absent one becomes the empty string and `null` stays None. */
  lemma QueryPassedThrough(start: JsonField, end: JsonField, query: JsonField)
    requires FilterArticles(start, end, query).Accepted?
    ensures FilterArticles(start, end, query).request.query == QueryOf(query)
    ensures query.Missing? ==> FilterArticles(start, end, query).request.query == Some("")
  {
  }

  /**
   * The order of the two dates is not checked: swapping them swaps the
   * rewritten dates and changes nothing else, so a start after the end is accepted.
   */
  lemma DatesNotOrdered(start: JsonField, end: JsonField, query: JsonField)
    ensures FilterArticles(start, end, query).Accepted? <==> FilterArticles(end, start, query).Accepted?
    ensures FilterArticles(start, end, query).Accepted? ==>
      var a, b := FilterArticles(start, end, query).request, FilterArticles(end, start, query).request;
      a.startDate == b.endDate && a.endDate == b.startDate && a.query == b.query
  {
  }

  /** Ten characters, dashes at positions 4 and 7, digits elsewhere. */
  predicate Canonical(s: string) {
    |s| == 10 && s[4] == '-' && s[7] == '-' && forall i | 0 <= i < 10 && i != 4 && i != 7 :: IsDigit(s[i])
  }

  /** A canonical date splits on its dashes into a four-digit and two two-digit pieces. */
  lemma CanonicalSplit(s: string)
    requires Canonical(s)
    ensures s == s[..4] + ['-'] + s[5..7] + ['-'] + s[8..]
    ensures AllDigits(s[..4]) && AllDigits(s[5..7]) && AllDigits(s[8..])
    ensures Split(s, '-') == [s[..4], s[5..7], s[8..]]
  {
    var y, m, d := s[..4], s[5..7], s[8..];
    assert s == y + ['-'] + m + ['-'] + d;
    assert forall i | 0 <= i < 4 :: y[i] == s[i];
    assert forall i | 0 <= i < 2 :: m[i] == s[5 + i] && d[i] == s[8 + i];
    assert '-' !in y && '-' !in m && '-' !in d by {
      assert forall i | 0 <= i < |y| :: IsDigit(y[i]);
      assert forall i | 0 <= i < |m| :: IsDigit(m[i]);
      assert forall i | 0 <= i < |d| :: IsDigit(d[i]);
    }
    SplitThree(y, m, d, '-');
  }

  /** A canonical `YYYY-MM-DD` date that reads is handed on with its dashes replaced by slashes and nothing else changed. */
  lemma CanonicalDateOnlyChangesSeparator(s: string)
    requires Canonical(s) && ReadInput(s).Some?
    ensures WriteOutput(ReadInput(s).value) == ReplaceChar(s, '-', '/')
  {
    var y, m, d := s[..4], s[5..7], s[8..];
    CanonicalSplit(s);
    var date := ReadInput(s).value;
    assert date.year == NumberValue(y) && date.month == NumberValue(m) && date.day == NumberValue(d);
    Pad4OfDigits(y);
    Pad2OfDigits(m);
    Pad2OfDigits(d);
    var out := WriteOutput(date);
    assert out == y + ['/'] + m + ['/'] + d;
    assert forall i | 0 <= i < 10 :: out[i] == ReplaceChar(s, '-', '/')[i];
  }

  /** The dashed form is the only one read: a slashed date is refused as malformed. */
  lemma SlashedDateRejected(end: JsonField, query: JsonField)
    requires Present(end)
    ensures FilterArticles(Str("2024/09/17"), end, query) == Rejected(400, BAD_FORMAT)
  {
    var s := "2024/09/17";
    assert '-' !in s by { assert forall i | 0 <= i < |s| :: s[i] != '-'; }
    SplitNoSep(s, '-');
  }

  /** Month and day written with one digit are read, and handed on zero-padded to two. */
  lemma OneDigitFieldsPadded(y: string, m: char, d: char)
    requires |y| == 4 && AllDigits(y) && '1' <= m <= '9' && '1' <= d <= '9'
    requires IsValid(Date(NumberValue(y), DigitValue(m), DigitValue(d)))
    ensures ReadInput(y + ['-', m, '-', d]) == Some(Date(NumberValue(y), DigitValue(m), DigitValue(d)))
    ensures WriteOutput(Date(NumberValue(y), DigitValue(m), DigitValue(d))) == y + ['/', '0', m, '/', '0', d]
  {
    assert '-' !in y by { assert forall i | 0 <= i < |y| :: IsDigit(y[i]); }
    SplitThree(y, [m], [d], '-');
    assert y + ['-'] + [m] + ['-'] + [d] == y + ['-', m, '-', d];
    SingleDigit(m);
    SingleDigit(d);
    Pad4OfDigits(y);
    assert Pad2(DigitValue(m)) == ['0', m] && Pad2(DigitValue(d)) == ['0', d];
    assert Pad4(NumberValue(y)) + ['/'] + ['0', m] + ['/'] + ['0', d] == y + ['/', '0', m, '/', '0', d];
  }

  lemma SingleDigit(c: char)
    requires IsDigit(c)
    ensures AllDigits([c]) && NumberValue([c]) == DigitValue(c)
  {
    assert [c][..0] == [];
  }
}
