# PubMed retrieval and date filtering, modelled in Dafny

This project models the PubMed adapter of the UNSW backend and the date validation of its `/filter` endpoint.

- **Search.** `fetch_pubmed_ids` pages through the search results at the offsets of `range(0, total_results, batch_size)`. It extends its id list after each page and stops at the first page that fails, keeping the ids it already has.
- **Fetch.** `fetch_pubmed_data` fetches the records in one call when the id list holds at most `MAX_FETCH_IDS` (2000) ids. A longer list is fetched in consecutive slices of `BATCH_SIZE` (500) ids.
- **Filter.** `parse_pubmed_data` takes each fetched record and reads its ArticleDate and PubDate (`extract_date`). It picks one of the two (`compare_dates`) and defaults a missing month or day to 1. It keeps the record only when the resulting date lies inside the `YYYY/MM/DD` window `[mindate, maxdate]`, and returns the kept articles in order. The first exception inside the loop ends it: the articles gathered so far are returned.
- **Parsing.** `parse_date` reads a date in one of three numeric layouts, in a fixed order of preference.
- **Validation.** The `/filter` endpoint requires a start and an end date in `YYYY-MM-DD` form and hands them on rewritten as `YYYY/MM/DD`.

Files:

- `wrappers.dfy`: `Option` and `Result`.
- `calendar.dfy`: the part of Python's `datetime` the code relies on.
  - Calendar validity for years 1..9999 and leap years.
  - `strptime` for the three-field numeric formats. The text is split on the separator, each field must match its directive's pattern, and the date must exist.
  - `strftime("%Y<sep>%m<sep>%d")`, and the round trip between the two.
- `pubmed_dates.dfy`: `extract_date`, `compare_dates`, the defaulting of month and day, and `parse_date`. `compare_dates` is related to an independent reference order: a lexicographic order on a five-component key.
- `pubmed_records.dfy`: the record loop of `parse_pubmed_data` as a method.
  - It is proved equal to a function: the per-record decisions (`Stop`, `Skip`, `Keep`) collected up to the first `Stop`.
  - Lemmas state that every returned article lies in the window, comes from some input record, and has its fields read from that record.
- `pubmed_fetch.dfy`: the paging loop of `fetch_pubmed_ids` and the slicing loop of `fetch_pubmed_data`.
  - Both are methods proved against specification functions.
  - The Entrez calls are function-valued parameters.
- `filter_request.dfy`: the checks of `filter_articles` on the three JSON fields.

How `compare_dates` ranks dates, as its if-chain does:
- Years are compared first.
- When the years agree and only one side carries a month, that side is returned. A missing month ranks after every present one, and the same holds for the day.
- `PubmedDates.MoreSpecificDateWins` shows what this means once a missing month or day is defaulted to 1. From a year-only 2024 and September 2024 the function returns September, whose resolved date is not the chronologically smaller one.

## Model

| member | source | states |
|---|---|---|
| Calendar.DaysInMonth | app/services/pubmed_services/pubmed_services.py:167 | the length of each month as `datetime` checks it: 28 to 31 days, 29 exactly for February of a leap year |
| Calendar.IsValid | app/services/pubmed_services/pubmed_services.py:167 | the dates `datetime(year, month, day)` accepts: year 1..9999, month 1..12, day within the month's length |
| Calendar.Before | app/services/pubmed_services/pubmed_services.py:172 | `<` on two datetimes at midnight: year, then month, then day |
| Calendar.NumberValue | app/services/pubmed_services/pubmed_services.py:77-79 | `int()` of an all-digit text: the decimal value, below 10 to the power of its length |
| Calendar.ReplaceChar | app/services/pubmed_services/pubmed_services.py:52 | `str.replace` of one character: same length, each occurrence replaced and every other character kept |
| Calendar.ReadDirective | app/services/pubmed_services/pubmed_services.py:171 | exactly which texts each directive accepts: `%Y` exactly four digits; `%m` one or two digits worth 1..12; `%d` one or two digits worth 1..31, or a space and a digit 1..9. The value read is the digits' value |
| Calendar.Strptime | app/api/filter_article.py:56-57 | a parsed date always exists in the calendar, and the text had exactly three separator-delimited fields |
| Calendar.Strftime | app/services/pubmed_services/pubmed_services.py:186 | the rendered date is ten characters, the separator at positions 4 and 7 and digits elsewhere |
| Calendar.StrftimeRoundTrip | app/services/pubmed_services/pubmed_services.py:186 | reading back a rendered date with the same separator gives the same date |
| Calendar.Pad4OfDigits | app/services/pubmed_services/pubmed_services.py:186 | zero-padding the value of a four-digit text gives that text back |
| PubmedDates.PyInt | app/services/pubmed_services/pubmed_services.py:70 | `int()` of a digit string converts exactly when it has at most 4300 digits, and then gives its decimal value; an empty text never converts |
| PubmedDates.MonthFromAbbreviation | app/services/pubmed_services/pubmed_services.py:73 | `%b`: a month number 1..12 whose abbreviation matches ignoring case, or no month when none matches |
| PubmedDates.ReadMonth | app/services/pubmed_services/pubmed_services.py:71-77 | a missing or empty month gives none; a digit month is taken as written unless it is too long for `int`; any other text is looked up as a month name |
| PubmedDates.ReadDay | app/services/pubmed_services/pubmed_services.py:79 | a day exists exactly when its text is all digits and not too long for `int`, and it is that text's value |
| PubmedDates.ExtractDate | app/services/pubmed_services/pubmed_services.py:61-89 | no date exactly when the element is absent, its year is missing or empty or not an integer, or a digit month or day is too long for `int`; otherwise year, month and day as read |
| PubmedDates.TooLongFieldNoDate | app/services/pubmed_services/pubmed_services.py:77-88 | a digit month or day longer than 4300 digits makes the `ValueError` handler return no date |
| PubmedDates.ExtractedMonthBounds | app/services/pubmed_services/pubmed_services.py:71-77 | a month read from a name lies in 1..12; one read from digits equals the digits' value; the month is missing exactly when its text is missing, empty, or neither digits nor a month name |
| PubmedDates.ExtractDateMonthName | app/services/pubmed_services/pubmed_services.py:73 | an element with year 2024 and month `Sep` gives year 2024, month 9 and no day |
| PubmedDates.Earlier | app/services/pubmed_services/pubmed_services.py:98-121 | the if-chain returns the left date exactly when its key is lexicographically not greater than the right one's |
| PubmedDates.CompareDates | app/services/pubmed_services/pubmed_services.py:91-121 | the result is one of the arguments; it is absent only when both are; an absent side yields the other; the result is least in the reference order |
| PubmedDates.KeyOrder | app/services/pubmed_services/pubmed_services.py:98-118 | the reference order spelled out: year, then whether a month is present, then the month, then whether a day is present, then the day |
| PubmedDates.LexLeTotal | app/services/pubmed_services/pubmed_services.py:91-121 | any two keys are comparable, so `compare_dates` always has an answer |
| PubmedDates.LexLeTransitive | app/services/pubmed_services/pubmed_services.py:91-121 | the reference order is transitive |
| PubmedDates.LexLeAntisymmetric | app/services/pubmed_services/pubmed_services.py:91-121 | keys that are each not greater than the other are equal |
| PubmedDates.EarlierAssociative | app/services/pubmed_services/pubmed_services.py:91-121 | choosing among three dates does not depend on how the comparisons are grouped |
| PubmedDates.EarlierSwap | app/services/pubmed_services/pubmed_services.py:120-121 | swapping the arguments can change the result only between dates of equal key |
| PubmedDates.EarlierPrefersMonth | app/services/pubmed_services/pubmed_services.py:103-109 | with equal years, the only side with a month is chosen |
| PubmedDates.Resolve | app/services/pubmed_services/pubmed_services.py:164-166 | the year is kept; a present month and day are kept; a missing or zero month or day becomes 1 |
| PubmedDates.EarlierIsChronological | app/services/pubmed_services/pubmed_services.py:91-121 | when both dates carry a month and a day, the chosen one is not after either argument |
| PubmedDates.MoreSpecificDateWins | app/services/pubmed_services/pubmed_services.py:106-109 | year-only 2024 against September 2024: September is chosen, although 1 January 2024 is earlier |
| PubmedDates.ParseDate | app/services/pubmed_services/pubmed_services.py:50-58 | slashes become dashes; the result is the date of the first of `%Y-%m-%d`, `%d-%m-%Y`, `%m-%d-%Y` that reads; an error exactly when none reads, naming the normalised text |
| PubmedDates.SlashesToDashes | app/services/pubmed_services/pubmed_services.py:52 | normalising turns the slash rendering of a date into its dash rendering |
| PubmedDates.ParseDateRoundTrip | app/services/pubmed_services/pubmed_services.py:50-58 | any date rendered `YYYY/MM/DD` or `YYYY-MM-DD` is read back as itself |
| PubmedDates.ParseDateDayFirst | app/services/pubmed_services/pubmed_services.py:53-55 | a date rendered `DD-MM-YYYY` is read back as itself |
| PubmedDates.ParseDateMonthFirst | app/services/pubmed_services/pubmed_services.py:53-55 | a date rendered `MM-DD-YYYY` is misread with month and day exchanged when the day is at most 12, and read correctly otherwise |
| PubmedRecords.ReadBound | app/services/pubmed_services/pubmed_services.py:170-171 | an empty or missing bound imposes nothing; a present bound is the date `strptime` reads from it, and it is malformed exactly when `strptime` cannot read it |
| PubmedRecords.RecordDate | app/services/pubmed_services/pubmed_services.py:153-157 | the chosen date is the ArticleDate or the PubDate as read, and is missing exactly when both are |
| PubmedRecords.InWindow | app/services/pubmed_services/pubmed_services.py:169-178 | no date is inside a window with a malformed bound, and every date is inside a window with no bounds |
| PubmedRecords.Examine | app/services/pubmed_services/pubmed_services.py:142-187 | a record without PMID ends the loop; one with a PMID but no date is skipped; a kept record's resolved date lies inside the window |
| PubmedRecords.ExamineDate | app/services/pubmed_services/pubmed_services.py:167-187 | a date `datetime` rejects ends the loop; a kept date is valid, inside the window, and gives the article built from it; with well-formed bounds the loop goes on, and the date is kept exactly when inside the window |
| PubmedRecords.ExamineUpper | app/services/pubmed_services/pubmed_services.py:175-187 | only a malformed upper bound ends the loop; the date is kept exactly when there is no upper bound or it is not after the bound, and then the article built from it is appended |
| PubmedRecords.MakeArticle | app/services/pubmed_services/pubmed_services.py:181-187 | the article's date text is ten characters and reads back as the resolved date |
| PubmedRecords.TextOrNA | app/services/pubmed_services/pubmed_services.py:183-185 | an absent element gives `"N/A"`, a present one its text (which may be None) |
| PubmedRecords.KeptDateInWindow | app/services/pubmed_services/pubmed_services.py:169-186 | the date text of a kept article reads back as a date inside the window |
| PubmedRecords.KeptArticleFields | app/services/pubmed_services/pubmed_services.py:181-187 | a kept article carries the record's PMID text, title, abstract and journal (`"N/A"` when absent) and its resolved date rendered `YYYY/MM/DD` |
| PubmedRecords.UndatedRecordSkipped | app/services/pubmed_services/pubmed_services.py:159-161 | a record with a PMID and no usable date is skipped, never kept and never fatal |
| PubmedRecords.DatedRecordKeptIffInWindow | app/services/pubmed_services/pubmed_services.py:169-178 | with well-formed bounds, a record with a PMID and a valid date is kept exactly when its date lies in the window, and never ends the loop |
| PubmedRecords.Outcomes | app/services/pubmed_services/pubmed_services.py:141-187 | one decision per record, in record order |
| PubmedRecords.Collect | app/services/pubmed_services/pubmed_services.py:141-192 | never more articles than decisions; which articles is given by the lemmas below |
| PubmedRecords.Filtered | app/services/pubmed_services/pubmed_services.py:141-192 | never more articles than records; window, origin and stopping lemmas below |
| PubmedRecords.CollectKept | app/services/pubmed_services/pubmed_services.py:181-187 | every collected article is the article of some `Keep` decision |
| PubmedRecords.CollectAppend | app/services/pubmed_services/pubmed_services.py:141-187 | decisions without a `Stop` can be collected in two parts and the results concatenated |
| PubmedRecords.FilteredFromRecords | app/services/pubmed_services/pubmed_services.py:141-187 | every returned article is the one some input record yields |
| PubmedRecords.FilteredInWindow | app/services/pubmed_services/pubmed_services.py:169-187 | every returned article's date lies inside the window |
| PubmedRecords.FilteredAppend | app/services/pubmed_services/pubmed_services.py:141-187 | records that raise nothing can be filtered in two parts and the results concatenated, order kept |
| PubmedRecords.FilteredStopsAtFirstFailure | app/services/pubmed_services/pubmed_services.py:189-192 | the result is what the records before the first raising one give |
| PubmedRecords.ParseRecords | app/services/pubmed_services/pubmed_services.py:141-187 | the loop returns exactly the filtered articles: kept records in order, up to the first exception |
| PubmedRecords.CheckRecord | app/services/pubmed_services/pubmed_services.py:142-167 | the body of the loop for one record takes the decision the specification function takes |
| PubmedRecords.CheckWindow | app/services/pubmed_services/pubmed_services.py:167-187 | date construction and the two window tests, in source order, take the specified decision |
| PubmedRecords.Parsed | app/services/pubmed_services/pubmed_services.py:132-192 | a failing fetch gives no articles; otherwise no more articles than records fetched |
| PubmedRecords.ParsePubmedData | app/services/pubmed_services/pubmed_services.py:123-192 | a failing fetch gives no articles; otherwise the filtered records |
| PubmedFetch.PyRange | app/services/pubmed_services/pubmed_services.py:13 | `range(start, stop, step)` for a non-zero step, by recursion from `start`; its elements are given by PubmedFetch.PyRangeAscending |
| PubmedFetch.PyRangeAscending | app/services/pubmed_services/pubmed_services.py:13 | a positive-step range holds exactly the values `start + k * step` below `stop`, in order |
| PubmedFetch.Gathered | app/services/pubmed_services/pubmed_services.py:13-28 | the ids of the pages in offset order up to the first failing page; its value is given by PubmedFetch.GatheredStopsAtFailure and PubmedFetch.GatheredAllSucceed |
| PubmedFetch.Attempted | app/services/pubmed_services/pubmed_services.py:13-28 | no more pages are requested than there are offsets |
| PubmedFetch.GatheredStopsAtFailure | app/services/pubmed_services/pubmed_services.py:26-28 | at the first failing page, the ids of the earlier pages are returned and no later page is requested |
| PubmedFetch.GatheredAllSucceed | app/services/pubmed_services/pubmed_services.py:13-32 | when every page succeeds, every offset is requested and all ids are returned in page order |
| PubmedFetch.FetchPubmedIds | app/services/pubmed_services/pubmed_services.py:8-32 | a zero batch size raises before any request; otherwise the gathered ids and the offsets requested |
| PubmedFetch.Chunks | app/services/pubmed_services/pubmed_services.py:42-43 | the slices `ids[i:i+size]` for `i` in `range(0, len(ids), size)`; covered by PubmedFetch.ChunksFlatten, PubmedFetch.ChunksSizes and PubmedFetch.ChunkAt |
| PubmedFetch.CallPlan | app/services/pubmed_services/pubmed_services.py:37-46 | one call with all ids, or one call per slice; covered by PubmedFetch.CallPlanCovers |
| PubmedFetch.ChunksFlatten | app/services/pubmed_services/pubmed_services.py:42-46 | the slices, concatenated, are exactly the id list |
| PubmedFetch.ChunksSizes | app/services/pubmed_services/pubmed_services.py:42-43 | every slice is non-empty and at most the batch size; all but the last are exactly the batch size |
| PubmedFetch.ChunkAt | app/services/pubmed_services/pubmed_services.py:42-43 | slice `k` is `ids[k*size : k*size+size]` |
| PubmedFetch.CallPlanCovers | app/services/pubmed_services/pubmed_services.py:37-46 | a list of at most 2000 ids is one call; a longer one is slices of at most 500 ids that cover it in order |
| PubmedFetch.PerCall | app/services/pubmed_services/pubmed_services.py:40-46 | one result per call, each what `parse_pubmed_data` returns for that call's ids |
| PubmedFetch.FlattenedInWindow | app/services/pubmed_services/pubmed_services.py:34-48 | every article `fetch_pubmed_data` returns lies inside the window |
| PubmedFetch.FetchPubmedData | app/services/pubmed_services/pubmed_services.py:34-48 | the calls made are the call plan, and the articles are every call's results concatenated in call order |
| PubmedFetch.FetchInSlices | app/services/pubmed_services/pubmed_services.py:41-47 | the loop over the slices makes one call per slice, in order, and concatenates their results |
| FilterRequest.FilterArticles | app/api/filter_article.py:40-66 | every rejection is a 400 with one of the two messages; a request is built only from two present dates that read, each handed on as ten characters |
| FilterRequest.QueryOf | app/api/filter_article.py:45 | an absent query becomes the empty string, `null` stays None, a string is kept |
| FilterRequest.MissingDateRejected | app/api/filter_article.py:48-49 | the 400 "Missing start_date or end_date" answer comes exactly when a date is absent, null or empty |
| FilterRequest.MalformedDateRejected | app/api/filter_article.py:54-60 | with both dates present, the 400 "Invalid date format" answer comes exactly when one of them does not read as `YYYY-MM-DD` |
| FilterRequest.AcceptedIffBothRead | app/api/filter_article.py:40-66 | every rejection is a 400; a request is built exactly when both dates are present and read |
| FilterRequest.AcceptedDatesRoundTrip | app/api/filter_article.py:54-64 | the rewritten `YYYY/MM/DD` dates read back as the dates the caller sent |
| FilterRequest.QueryPassedThrough | app/api/filter_article.py:62-66 | the request carries the query as read, the empty string when absent |
| FilterRequest.DatesNotOrdered | app/api/filter_article.py:54-66 | the dates are not compared: swapping them swaps the request's dates and nothing else |
| FilterRequest.CanonicalDateOnlyChangesSeparator | app/api/filter_article.py:56-64 | a canonical `YYYY-MM-DD` date is handed on with its dashes replaced by slashes |
| FilterRequest.OneDigitFieldsPadded | app/api/filter_article.py:56-64 | one-digit month and day fields are read and handed on zero-padded to two digits |
| FilterRequest.SlashedDateRejected | app/api/filter_article.py:43-60 | the example value `2024/09/17` in the source's comment is refused as malformed |

## Left out

- The Entrez calls (`esearch`, `efetch`, `Entrez.read`), the XML parse and `time.sleep` are not modelled. A search page and a fetch are function-valued parameters that return a result or None for an exception. Their arguments other than the ids and the offset are not modelled: query, retmax, the date bounds and credentials.
- The `",".join` of the ids is not modelled: the fetch parameter receives the id list itself.
- The XML structure is left out. A record is given as the elements the loop looks up, including which `PMID` element `find(".//PMID")` selects.
- `print` and the logging of exceptions are left out; they do not change any result.
- PubmedDates.PyInt: models `int()` for an optional sign followed by ASCII digits only. Surrounding whitespace, underscores and non-ASCII digits are not accepted. The 4300-digit limit is the default of Python 3.11 and later; a raised or lowered `sys.set_int_max_str_digits`, or an older Python without the limit, is not modelled.
- Calendar.ReadDirective: models ASCII digits only, whereas Python's patterns also match other Unicode decimal digits.
- PubmedDates.ReadMonth: models `str.isdigit` on ASCII digits only. In Python a month such as "٣" (Arabic-Indic three) passes `isdigit` and `int` reads it as 3, where the model finds no month. A month such as "²" passes `isdigit`, then `int` raises and `extract_date` returns None for the whole date, where the model keeps the date without a month.
- PubmedDates.ReadDay: models `str.isdigit` on ASCII digits only, with the same two consequences as for the month. A Unicode decimal digit gives a day in Python and none in the model. A digit such as "²" makes `extract_date` return None in Python, where the model keeps the date without a day.
- PubmedDates.MonthFromAbbreviation: models the English month abbreviations of the C locale; other locales are not modelled.
- Calendar.Strftime: writes the year as four zero-padded digits; platforms that write years below 1000 unpadded are not modelled.
- FilterRequest.FilterArticles: models string, `null` and absent JSON values. Other JSON types are not modelled. A falsy one (`0`, `false`, `[]`, `{}`) gets the "Missing start_date or end_date" answer at line 48, as `null` does. A truthy one (a non-zero number, a non-empty list or object) reaches `strptime`, which raises a `TypeError` that the handler does not catch. The Flask request parsing, `jsonify` and the call to `ArticleFilter.get_parsmed_articles` after validation are not part of this model.
- PubmedFetch.FetchPubmedIds: for a negative batch size, the range is modelled as Python computes it. What the search service does with a negative `retmax` is left to the search parameter.
- The rest of the repository is not part of this model: the DynamoDB service, the LLM filtering logic, gene extraction, reports and configuration loading.
