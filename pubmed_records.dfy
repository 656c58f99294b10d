/**
 * The record loop of `parse_pubmed_data` (app/services/pubmed_services/pubmed_services.py):
 * each fetched PubmedArticle is given a resolved publication date, kept only when
 * that date lies inside the requested window, and turned into an article record.
 * The first exception ends the loop and the articles gathered so far are returned.
 */
module PubmedRecords {
  import opened Wrappers
  import opened Calendar
  import opened PubmedDates

  /** A child element looked up with `find`: absent, or present with a text that may be None. */
  datatype Element = Absent | Present(text: Option<string>)

  /** The parts of one `PubmedArticle` that the loop reads. */
  datatype RawArticle = RawArticle(
    pmid: Element,
    title: Element,
    abstractText: Element,
    journal: Element,
    articleDate: Option<DateElement>,
    pubDate: Option<DateElement>)

  /** One returned article; the date is rendered `YYYY/MM/DD`. */
  datatype Article = Article(
    pubmedId: Option<string>,
    title: Option<string>,
    abstractText: Option<string>,
    journal: Option<string>,
    date: string)

  /** What the loop does with one record. */
  datatype Outcome = Stop | Skip | Keep(article: Article)

  /** One bound of the window as `if bound: strptime(bound, "%Y/%m/%d")` sees it. */
  datatype Bound = Unbounded | BoundAt(date: Date) | Malformed

  function ReadBound(bound: Option<string>): (b: Bound)
    ensures b.Unbounded? <==> !NonEmpty(bound)
    ensures b.BoundAt? <==> NonEmpty(bound) && Strptime(bound.value, YMD, '/').Some?
    ensures b.Malformed? <==> NonEmpty(bound) && Strptime(bound.value, YMD, '/').None?
    ensures b.BoundAt? ==> Strptime(bound.value, YMD, '/') == Some(b.date)
  {
    if !NonEmpty(bound) then Unbounded
    else match Strptime(bound.value, YMD, '/')
      case Some(d) => BoundAt(d)
      case None => Malformed
  }

  /** The text of an optional element, `"N/A"` when the element is absent. */
  function TextOrNA(e: Element): (t: Option<string>)
    ensures e.Absent? ==> t == Some("N/A")
    ensures e.Present? ==> t == e.text
  {
    match e
    case Absent => Some("N/A")
    case Present(text) => text
  }

  /** The earlier of a record's ArticleDate and PubDate, as `compare_dates` picks it. */
  function RecordDate(r: RawArticle): (d: Option<PartialDate>)
    ensures d == ExtractDate(r.articleDate) || d == ExtractDate(r.pubDate)
    ensures d.None? <==> ExtractDate(r.articleDate).None? && ExtractDate(r.pubDate).None?
  {
    CompareDates(ExtractDate(r.articleDate), ExtractDate(r.pubDate))
  }

  /** `d` is not before the lower bound and not after the upper one; an absent bound admits every date. */
  predicate InWindow(d: Date, mindate: Option<string>, maxdate: Option<string>)
    ensures InWindow(d, mindate, maxdate) ==> !ReadBound(mindate).Malformed? && !ReadBound(maxdate).Malformed?
    ensures !NonEmpty(mindate) && !NonEmpty(maxdate) ==> InWindow(d, mindate, maxdate)
  {
    (NonEmpty(mindate) ==>
      Strptime(mindate.value, YMD, '/').Some? && !Before(d, Strptime(mindate.value, YMD, '/').value)) &&
    (NonEmpty(maxdate) ==>
      Strptime(maxdate.value, YMD, '/').Some? && !Before(Strptime(maxdate.value, YMD, '/').value, d))
  }

  /** A `YYYY/MM/DD` text whose date lies inside the window. */
  predicate DateTextInWindow(text: string, mindate: Option<string>, maxdate: Option<string>)
  {
    match Strptime(text, YMD, '/')
    case None => false
    case Some(d) => InWindow(d, mindate, maxdate)
  }

  /**
   * One pass of the loop body. A missing PMID, a resolved date `datetime` rejects,
   * or a bound `strptime` rejects raise (Stop); a record with no date, or a date
   * outside the window, is skipped; anything else is kept.
   */
  function Examine(r: RawArticle, mindate: Option<string>, maxdate: Option<string>): (o: Outcome)
    ensures r.pmid.Absent? ==> o == Stop
    ensures r.pmid.Present? && RecordDate(r).None? ==> o == Skip
    ensures o.Keep? ==> RecordDate(r).Some? && InWindow(Resolve(RecordDate(r).value), mindate, maxdate)
  {
    if r.pmid.Absent? then Stop
    else match RecordDate(r)
      case None => Skip
      case Some(p) => ExamineDate(r, Resolve(p), mindate, maxdate)
  }

  /** The rest of the loop body once the record's date `d` is resolved. */
  function ExamineDate(r: RawArticle, d: Date, mindate: Option<string>, maxdate: Option<string>): (o: Outcome)
    requires r.pmid.Present?
    ensures !IsValid(d) ==> o == Stop
    ensures o.Keep? ==> IsValid(d) && InWindow(d, mindate, maxdate) && o.article == MakeArticle(r, d)
    ensures IsValid(d) && !ReadBound(mindate).Malformed? && !ReadBound(maxdate).Malformed? ==>
      !o.Stop? && (o.Keep? <==> InWindow(d, mindate, maxdate))
  {
    if !IsValid(d) then Stop
    else match ReadBound(mindate)
      case Malformed => Stop
      case BoundAt(lo) => if Before(d, lo) then Skip else ExamineUpper(r, d, maxdate)
      case Unbounded => ExamineUpper(r, d, maxdate)
  }

  /** The upper-bound check and the construction of the article. */
  function ExamineUpper(r: RawArticle, d: Date, maxdate: Option<string>): (o: Outcome)
    requires r.pmid.Present? && IsValid(d)
    ensures o.Stop? <==> ReadBound(maxdate).Malformed?
    ensures o.Keep? ==> o.article == MakeArticle(r, d)
    ensures o.Keep? <==> ReadBound(maxdate).Unbounded? || (ReadBound(maxdate).BoundAt? && !Before(ReadBound(maxdate).date, d))
  {
    match ReadBound(maxdate)
    case Malformed => Stop
    case BoundAt(hi) => if Before(hi, d) then Skip else Keep(MakeArticle(r, d))
    case Unbounded => Keep(MakeArticle(r, d))
  }

  /** The dictionary appended for a kept record. */
  function MakeArticle(r: RawArticle, d: Date): (a: Article)
    requires r.pmid.Present? && IsValid(d)
    ensures |a.date| == 10 && Strptime(a.date, YMD, '/') == Some(d)
  {
    StrftimeRoundTrip(d, '/');
    Article(r.pmid.text, TextOrNA(r.title), TextOrNA(r.abstractText), TextOrNA(r.journal), Strftime(d, '/'))
  }

  /** A kept record's date, read back from the article, lies inside the window. */
  lemma KeptDateInWindow(r: RawArticle, mindate: Option<string>, maxdate: Option<string>)
    requires Examine(r, mindate, maxdate).Keep?
    ensures DateTextInWindow(Examine(r, mindate, maxdate).article.date, mindate, maxdate)
  {
    StrftimeRoundTrip(Resolve(RecordDate(r).value), '/');
  }

  /**
   * What a kept article holds: the PMID text, title, abstract and journal with
   * `"N/A"` for an absent element, and the resolved date with month and day
   * defaulted to 1.
   */
  lemma KeptArticleFields(r: RawArticle, mindate: Option<string>, maxdate: Option<string>)
    requires Examine(r, mindate, maxdate).Keep?
    ensures var a := Examine(r, mindate, maxdate).article;
      && r.pmid.Present? && a.pubmedId == r.pmid.text
      && (r.title.Absent? ==> a.title == Some("N/A")) && (r.title.Present? ==> a.title == r.title.text)
      && (r.abstractText.Absent? ==> a.abstractText == Some("N/A"))
      && (r.abstractText.Present? ==> a.abstractText == r.abstractText.text)
      && (r.journal.Absent? ==> a.journal == Some("N/A")) && (r.journal.Present? ==> a.journal == r.journal.text)
      && RecordDate(r).Some? && a.date == Strftime(Resolve(RecordDate(r).value), '/')
  {
  }

  /** A record with a PMID but neither date is skipped, never kept and never fatal. */
  lemma UndatedRecordSkipped(r: RawArticle, mindate: Option<string>, maxdate: Option<string>)
    requires r.pmid.Present? && RecordDate(r).None?
    ensures Examine(r, mindate, maxdate) == Skip
  {
  }

  /**
   * A record with a PMID and a valid resolved date is kept exactly when the date
   * lies inside the window, provided both bounds (where given) are well formed.
   */
  lemma DatedRecordKeptIffInWindow(r: RawArticle, mindate: Option<string>, maxdate: Option<string>)
    requires r.pmid.Present? && RecordDate(r).Some? && IsValid(Resolve(RecordDate(r).value))
    requires !ReadBound(mindate).Malformed? && !ReadBound(maxdate).Malformed?
    ensures Examine(r, mindate, maxdate).Keep? <==> InWindow(Resolve(RecordDate(r).value), mindate, maxdate)
    ensures !Examine(r, mindate, maxdate).Stop?
  {
    if Examine(r, mindate, maxdate).Keep? {
      KeptDateInWindow(r, mindate, maxdate);
      StrftimeRoundTrip(Resolve(RecordDate(r).value), '/');
    }
  }

  /** The decision the loop body takes for each record, in order. */
  function Outcomes(rs: seq<RawArticle>, mindate: Option<string>, maxdate: Option<string>): (os: seq<Outcome>)
    ensures |os| == |rs|
    ensures forall k | 0 <= k < |rs| :: os[k] == Examine(rs[k], mindate, maxdate)
  {
    seq(|rs|, k requires 0 <= k < |rs| => Examine(rs[k], mindate, maxdate))
  }

  /** The articles a run of decisions yields: the kept ones in order, up to the first Stop. */
  function Collect(os: seq<Outcome>): (articles: seq<Article>)
    ensures |articles| <= |os|
  {
    if os == [] then []
    else match os[0]
      case Stop => []
      case Skip => Collect(os[1..])
      case Keep(a) => [a] + Collect(os[1..])
  }

  /** The articles the loop returns for a list of records. */
  function Filtered(rs: seq<RawArticle>, mindate: Option<string>, maxdate: Option<string>): (articles: seq<Article>)
    ensures |articles| <= |rs|
  {
    Collect(Outcomes(rs, mindate, maxdate))
  }

  /** Every collected article is the one some decision kept. */
  lemma {:induction false} CollectKept(os: seq<Outcome>)
    ensures forall a | a in Collect(os) :: exists k | 0 <= k < |os| :: os[k] == Keep(a)
  {
    if os != [] {
      CollectKept(os[1..]);
      forall a | a in Collect(os)
        ensures exists k | 0 <= k < |os| :: os[k] == Keep(a)
      {
        if os[0] != Keep(a) {
          assert a in Collect(os[1..]);
          var k :| 0 <= k < |os[1..]| && os[1..][k] == Keep(a);
          assert os[k + 1] == Keep(a);
        }
      }
    }
  }

  /** Decisions with no Stop among them can be collected separately and the results concatenated. */
  lemma {:induction false} CollectAppend(xs: seq<Outcome>, ys: seq<Outcome>)
    requires forall k | 0 <= k < |xs| :: !xs[k].Stop?
    ensures Collect(xs + ys) == Collect(xs) + Collect(ys)
  {
    if xs == [] {
      assert xs + ys == ys;
    } else {
      assert (xs + ys)[0] == xs[0];
      assert (xs + ys)[1..] == xs[1..] + ys;
      CollectAppend(xs[1..], ys);
    }
  }

  /** Every returned article comes from some record of the input. */
  lemma FilteredFromRecords(rs: seq<RawArticle>, mindate: Option<string>, maxdate: Option<string>)
    ensures forall a | a in Filtered(rs, mindate, maxdate) ::
      exists k | 0 <= k < |rs| :: Examine(rs[k], mindate, maxdate) == Keep(a)
  {
    CollectKept(Outcomes(rs, mindate, maxdate));
  }

  /** Every returned article's date lies inside the window. */
  lemma FilteredInWindow(rs: seq<RawArticle>, mindate: Option<string>, maxdate: Option<string>)
    ensures forall a | a in Filtered(rs, mindate, maxdate) :: DateTextInWindow(a.date, mindate, maxdate)
  {
    forall a | a in Filtered(rs, mindate, maxdate)
      ensures DateTextInWindow(a.date, mindate, maxdate)
    {
      FilteredFromRecords(rs, mindate, maxdate);
      var k :| 0 <= k < |rs| && Examine(rs[k], mindate, maxdate) == Keep(a);
      KeptDateInWindow(rs[k], mindate, maxdate);
    }
  }

  /** Records that raise nothing can be processed separately and the results concatenated (order is kept). */
  lemma FilteredAppend(xs: seq<RawArticle>, ys: seq<RawArticle>, mindate: Option<string>, maxdate: Option<string>)
    requires forall k | 0 <= k < |xs| :: !Examine(xs[k], mindate, maxdate).Stop?
    ensures Filtered(xs + ys, mindate, maxdate) == Filtered(xs, mindate, maxdate) + Filtered(ys, mindate, maxdate)
  {
    var ox, oy := Outcomes(xs, mindate, maxdate), Outcomes(ys, mindate, maxdate);
    assert Outcomes(xs + ys, mindate, maxdate) == ox + oy;
    CollectAppend(ox, oy);
  }

  /** The first record that raises ends the loop: the result is what the records before it gave. */
  lemma FilteredStopsAtFirstFailure(rs: seq<RawArticle>, i: nat, mindate: Option<string>, maxdate: Option<string>)
    requires i < |rs| && Examine(rs[i], mindate, maxdate).Stop?
    requires forall k | 0 <= k < i :: !Examine(rs[k], mindate, maxdate).Stop?
    ensures Filtered(rs, mindate, maxdate) == Filtered(rs[..i], mindate, maxdate)
  {
    var os := Outcomes(rs, mindate, maxdate);
    assert os == Outcomes(rs[..i], mindate, maxdate) + os[i..];
    CollectAppend(Outcomes(rs[..i], mindate, maxdate), os[i..]);
    assert os[i..][0] == os[i];
  }

  /**
   * The loop of `parse_pubmed_data` over the parsed records, with the
   * exception handler's early exit as `break`.
   */
  method ParseRecords(records: seq<RawArticle>, mindate: Option<string>, maxdate: Option<string>)
    returns (articles: seq<Article>)
    ensures articles == Filtered(records, mindate, maxdate)
  {
    ghost var os := Outcomes(records, mindate, maxdate);
    articles := [];
    for i := 0 to |records|
      invariant articles + Collect(os[i..]) == Collect(os)
    {
      var outcome := CheckRecord(records[i], mindate, maxdate);
      match outcome {
        case Stop =>
          StepStops(os, i, articles);
          break;
        case Skip =>
          StepSkips(os, i, articles);
        case Keep(article) =>
          StepKeeps(os, i, articles);
          articles := articles + [article];
      }
    }
  }

  /**
   * The body of the loop for one record: a missing PMID or an impossible
   * date is the exception that ends the loop (`Stop`), an undated record
   * or one outside the window is skipped (`continue`).
   */
  method CheckRecord(r: RawArticle, mindate: Option<string>, maxdate: Option<string>) returns (outcome: Outcome)
    ensures outcome == Examine(r, mindate, maxdate)
  {
    if r.pmid.Absent? {
      return Stop;
    }
    var articleDate := ExtractDate(r.articleDate);
    var pubDate := ExtractDate(r.pubDate);
    var finalDate := CompareDates(articleDate, pubDate);
    if finalDate.None? {
      return Skip;
    }
    var date := Resolve(finalDate.value);
    outcome := CheckWindow(r, date, mindate, maxdate);
  }

  /** The `datetime(...)` construction and the two window tests, in source order. */
  method CheckWindow(r: RawArticle, date: Date, mindate: Option<string>, maxdate: Option<string>) returns (outcome: Outcome)
    requires r.pmid.Present?
    ensures outcome == ExamineDate(r, date, mindate, maxdate)
  {
    if !IsValid(date) {
      return Stop;
    }
    if NonEmpty(mindate) {
      var lo := Strptime(mindate.value, YMD, '/');
      if lo.None? {
        return Stop;
      }
      if Before(date, lo.value) {
        return Skip;
      }
    }
    if NonEmpty(maxdate) {
      var hi := Strptime(maxdate.value, YMD, '/');
      if hi.None? {
        return Stop;
      }
      if Before(hi.value, date) {
        return Skip;
      }
    }
    return Keep(MakeArticle(r, date));
  }

  lemma StepStops(os: seq<Outcome>, i: nat, acc: seq<Article>)
    requires i < |os| && os[i] == Stop
    requires acc + Collect(os[i..]) == Collect(os)
    ensures acc == Collect(os)
  {
    assert os[i..][0] == os[i];
  }

  lemma StepSkips(os: seq<Outcome>, i: nat, acc: seq<Article>)
    requires i < |os| && os[i] == Skip
    requires acc + Collect(os[i..]) == Collect(os)
    ensures acc + Collect(os[i + 1..]) == Collect(os)
  {
    assert os[i..][0] == os[i] && os[i..][1..] == os[i + 1..];
  }

  lemma StepKeeps(os: seq<Outcome>, i: nat, acc: seq<Article>)
    requires i < |os| && os[i].Keep?
    requires acc + Collect(os[i..]) == Collect(os)
    ensures (acc + [os[i].article]) + Collect(os[i + 1..]) == Collect(os)
  {
    assert os[i..][0] == os[i] && os[i..][1..] == os[i + 1..];
    assert Collect(os[i..]) == [os[i].article] + Collect(os[i + 1..]);
    assert (acc + [os[i].article]) + Collect(os[i + 1..]) == acc + ([os[i].article] + Collect(os[i + 1..]));
  }

  /** `Entrez.efetch` and the XML parse for one id list: the records, or None when either raises. */
  type Fetcher = seq<string> -> Option<seq<RawArticle>>

  /** What `parse_pubmed_data` returns for an id list: nothing when the fetch fails, else the filtered records. */
  function Parsed(efetch: Fetcher, ids: seq<string>, mindate: Option<string>, maxdate: Option<string>): (articles: seq<Article>)
    ensures efetch(ids).None? ==> articles == []
    ensures efetch(ids).Some? ==> |articles| <= |efetch(ids).value|
  {
    match efetch(ids)
    case None => []
    case Some(records) => Filtered(records, mindate, maxdate)
  }

  /** `parse_pubmed_data`: fetch the records of `ids`, then run the record loop. */
  method ParsePubmedData(efetch: Fetcher, ids: seq<string>, mindate: Option<string>, maxdate: Option<string>)
    returns (articles: seq<Article>)
    ensures articles == Parsed(efetch, ids, mindate, maxdate)
    ensures efetch(ids).None? ==> articles == []
  {
    var response := efetch(ids);
    if response.None? { return []; }
    articles := ParseRecords(response.value, mindate, maxdate);
  }
}
