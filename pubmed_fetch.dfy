/**
 * Paging and chunking in app/services/pubmed_services/pubmed_services.py:
 * `fetch_pubmed_ids` walks the search results page by page and keeps what it
 * has when a page fails; `fetch_pubmed_data` fetches records in one call or
 * in fixed-size slices of the id list. The Entrez calls are parameters.
 */
module PubmedFetch {
  import opened Wrappers
  import opened PubmedRecords

  /** `Config.BATCH_SIZE`: ids per fetch when the list is long. */
  const BATCH_SIZE: nat := 500
  /** `Config.MAX_FETCH_IDS`: the longest id list fetched in one call. */
  const MAX_FETCH_IDS: nat := 2000

  /** `range(start, stop, step)` for a non-zero step. */
  function PyRange(start: int, stop: int, step: int): (r: seq<int>)
    requires step != 0
    decreases if step > 0 then stop - start else start - stop
  {
    if (step > 0 && start < stop) || (step < 0 && start > stop) then [start] + PyRange(start + step, stop, step)
    else []
  }

  /** For a positive step the range holds exactly the values `start + k * step` below `stop`. */
  lemma {:induction false} PyRangeAscending(start: int, stop: int, step: int)
    requires step > 0
    ensures var r := PyRange(start, stop, step);
      (forall k | 0 <= k < |r| :: r[k] == start + k * step && r[k] < stop) && start + |r| * step >= stop
    decreases stop - start
  {
    if start < stop {
      var r, r' := PyRange(start, stop, step), PyRange(start + step, stop, step);
      PyRangeAscending(start + step, stop, step);
      forall k | 0 < k < |r| ensures r[k] == start + k * step {
        assert r[k] == r'[k - 1];
        assert start + step + (k - 1) * step == start + k * step;
      }
      assert start + step + |r'| * step == start + |r| * step;
    }
  }

  // ---------------------------------------------------------------------------
  // fetch_pubmed_ids

  /** One `esearch` page at a given offset: its id list, or None when the call raises. */
  type SearchPage = int -> Option<seq<string>>

  /** The ids gathered from the pages at `offsets`, stopping at the first failing page. */
  function Gathered(offsets: seq<int>, search: SearchPage): seq<string>
  {
    if offsets == [] then []
    else match search(offsets[0])
      case None => []
      case Some(ids) => ids + Gathered(offsets[1..], search)
  }

  /** The offsets requested: every one up to and including the first failing page. */
  function Attempted(offsets: seq<int>, search: SearchPage): (r: seq<int>)
    ensures |r| <= |offsets|
  {
    if offsets == [] then []
    else if search(offsets[0]).None? then [offsets[0]]
    else [offsets[0]] + Attempted(offsets[1..], search)
  }

  /** The ids of pages that all succeed, concatenated in order. */
  function AllPages(offsets: seq<int>, search: SearchPage): seq<string>
    requires forall k | 0 <= k < |offsets| :: search(offsets[k]).Some?
  {
    if offsets == [] then [] else search(offsets[0]).value + AllPages(offsets[1..], search)
  }

  /**
   * If page `i` is the first to fail, the pages before it were requested and
   * their ids returned in order; page `i` was the last request.
   */
  lemma {:induction false} GatheredStopsAtFailure(offsets: seq<int>, search: SearchPage, i: nat)
    requires i < |offsets| && search(offsets[i]).None?
    requires forall k | 0 <= k < i :: search(offsets[k]).Some?
    ensures Gathered(offsets, search) == AllPages(offsets[..i], search)
    ensures Attempted(offsets, search) == offsets[..i + 1]
  {
    if i > 0 {
      GatheredStopsAtFailure(offsets[1..], search, i - 1);
      assert offsets[1..][..i - 1] == offsets[..i][1..];
      assert offsets[1..][..i] == offsets[..i + 1][1..];
    }
  }

  /** When no page fails every offset is requested and every page's ids are returned in order. */
  lemma {:induction false} GatheredAllSucceed(offsets: seq<int>, search: SearchPage)
    requires forall k | 0 <= k < |offsets| :: search(offsets[k]).Some?
    ensures Gathered(offsets, search) == AllPages(offsets, search)
    ensures Attempted(offsets, search) == offsets
  {
    if offsets != [] {
      GatheredAllSucceed(offsets[1..], search);
    }
  }

  /**
   * `fetch_pubmed_ids`: request the pages at offsets `0, batchSize, ...` below
   * `totalResults`, extending the id list after each, and stop at the first
   * failure. A zero `batchSize` makes `range` raise before any request.
   */
  method FetchPubmedIds(totalResults: int, batchSize: int, search: SearchPage)
    returns (result: Result<seq<string>>, requested: seq<int>)
    ensures batchSize == 0 ==> result.Err? && requested == []
    ensures batchSize != 0 ==>
      var offsets := PyRange(0, totalResults, batchSize);
      result == Ok(Gathered(offsets, search)) && requested == Attempted(offsets, search)
  {
    if batchSize == 0 {
      return Err("range() arg 3 must not be zero"), [];
    }
    var offsets := PyRange(0, totalResults, batchSize);
    var allIds: seq<string> := [];
    requested := [];
    var i := 0;
    while i < |offsets|
      invariant 0 <= i <= |offsets|
      invariant allIds + Gathered(offsets[i..], search) == Gathered(offsets, search)
      invariant requested + Attempted(offsets[i..], search) == Attempted(offsets, search)
    {
      assert offsets[i..][0] == offsets[i] && offsets[i..][1..] == offsets[i + 1..];
      var start := offsets[i];
      var page := search(start);
      requested := requested + [start];
      if page.None? {
        assert Gathered(offsets[i..], search) == [] && Attempted(offsets[i..], search) == [start];
        break;
      }
      allIds := allIds + page.value;
      i := i + 1;
    }
    assert allIds == Gathered(offsets, search) && requested == Attempted(offsets, search) by {
      if i == |offsets| { assert offsets[i..] == []; }
    }
    result := Ok(allIds);
  }

  // ---------------------------------------------------------------------------
  // fetch_pubmed_data

  function Min(a: int, b: int): int { if a <= b then a else b }

  /** The slices `ids[i:i+size]` for `i` in `range(0, len(ids), size)`. */
  function Chunks<T>(ids: seq<T>, size: nat): (cs: seq<seq<T>>)
    requires size > 0
    decreases |ids|
  {
    if ids == [] then []
    else if |ids| <= size then [ids]
    else [ids[..size]] + Chunks(ids[size..], size)
  }

  function Flatten<T>(css: seq<seq<T>>): seq<T>
  {
    if css == [] then [] else css[0] + Flatten(css[1..])
  }

  /** The slices, concatenated in order, are exactly the id list. */
  lemma {:induction false} ChunksFlatten<T>(ids: seq<T>, size: nat)
    requires size > 0
    ensures Flatten(Chunks(ids, size)) == ids
    decreases |ids|
  {
    if |ids| > size {
      ChunksFlatten(ids[size..], size);
      assert ids == ids[..size] + ids[size..];
    } else if ids != [] {
      assert Flatten([ids]) == ids + Flatten([ids][1..]);
    }
  }

  /** Every slice is non-empty and at most `size` long; all but the last are exactly `size` long. */
  lemma {:induction false} ChunksSizes<T>(ids: seq<T>, size: nat)
    requires size > 0
    ensures forall k | 0 <= k < |Chunks(ids, size)| :: 0 < |Chunks(ids, size)[k]| <= size
    ensures forall k | 0 <= k < |Chunks(ids, size)| - 1 :: |Chunks(ids, size)[k]| == size
    decreases |ids|
  {
    if |ids| > size {
      ChunksSizes(ids[size..], size);
      var cs, rest := Chunks(ids, size), Chunks(ids[size..], size);
      assert cs == [ids[..size]] + rest;
      forall k | 0 <= k < |cs|
        ensures 0 < |cs[k]| <= size && (k < |cs| - 1 ==> |cs[k]| == size)
      {
        if k > 0 {
          assert cs[k] == rest[k - 1];
          assert 0 < |rest[k - 1]| <= size && (k - 1 < |rest| - 1 ==> |rest[k - 1]| == size);
        }
      }
    }
  }

  /** Slice `k` starts at offset `k * size` of the id list, as the loop over `range` has it. */
  lemma {:induction false} ChunkAt<T>(ids: seq<T>, size: nat, k: nat)
    requires size > 0 && k < |Chunks(ids, size)|
    ensures k * size < |ids|
    ensures Chunks(ids, size)[k] == ids[k * size .. Min(k * size + size, |ids|)]
    decreases |ids|
  {
    if k > 0 {
      var rest := ids[size..];
      ChunkAt(rest, size, k - 1);
      var j, start := (k - 1) * size, k * size;
      MulStep(k, size);
      assert start == j + size;
      assert Chunks(ids, size)[k] == Chunks(rest, size)[k - 1];
      assert rest[j .. Min(j + size, |rest|)] == ids[start .. Min(start + size, |ids|)];
    }
  }

  lemma MulStep(k: nat, size: nat)
    requires k > 0
    ensures k * size == (k - 1) * size + size
  {
  }

  /** The id lists `fetch_pubmed_data` hands to `parse_pubmed_data`, one per call. */
  function CallPlan(ids: seq<string>): (calls: seq<seq<string>>)
  {
    if |ids| <= MAX_FETCH_IDS then [ids] else Chunks(ids, BATCH_SIZE)
  }

  /** A short list is fetched in one call; a long one in slices that cover it exactly, in order. */
  lemma CallPlanCovers(ids: seq<string>)
    ensures Flatten(CallPlan(ids)) == ids
    ensures |ids| <= MAX_FETCH_IDS ==> CallPlan(ids) == [ids]
    ensures |ids| > MAX_FETCH_IDS ==> forall c | c in CallPlan(ids) :: 0 < |c| <= BATCH_SIZE
  {
    if |ids| <= MAX_FETCH_IDS {
      assert Flatten([ids]) == ids + Flatten([ids][1..]);
    } else {
      ChunksFlatten(ids, BATCH_SIZE);
      ChunksSizes(ids, BATCH_SIZE);
    }
  }

  /** The articles each call returns, one list per call, in call order. */
  function PerCall(efetch: Fetcher, calls: seq<seq<string>>, mindate: Option<string>, maxdate: Option<string>): (results: seq<seq<Article>>)
    ensures |results| == |calls|
    ensures forall k | 0 <= k < |calls| :: results[k] == Parsed(efetch, calls[k], mindate, maxdate)
  {
    seq(|calls|, k requires 0 <= k < |calls| => Parsed(efetch, calls[k], mindate, maxdate))
  }

  lemma {:induction false} FlattenAppend<T>(css: seq<seq<T>>, last: seq<T>)
    ensures Flatten(css + [last]) == Flatten(css) + last
  {
    if css == [] {
      assert css + [last] == [last];
      assert Flatten([last]) == last + Flatten([last][1..]);
    } else {
      assert (css + [last])[1..] == css[1..] + [last];
      FlattenAppend(css[1..], last);
    }
  }

  /** Every fetched article's date lies inside the window. */
  lemma {:induction false} FlattenedInWindow(results: seq<seq<Article>>, efetch: Fetcher, calls: seq<seq<string>>, mindate: Option<string>, maxdate: Option<string>)
    requires results == PerCall(efetch, calls, mindate, maxdate)
    ensures forall a | a in Flatten(results) :: DateTextInWindow(a.date, mindate, maxdate)
  {
    if calls != [] {
      assert results[1..] == PerCall(efetch, calls[1..], mindate, maxdate);
      FlattenedInWindow(results[1..], efetch, calls[1..], mindate, maxdate);
      match efetch(calls[0])
      case None =>
      case Some(records) => FilteredInWindow(records, mindate, maxdate);
    }
  }

  /**
   * `fetch_pubmed_data`: one `parse_pubmed_data` call for at most
   * `MAX_FETCH_IDS` ids, otherwise one per `BATCH_SIZE` slice; the results are
   * concatenated in call order. `calls` lists the id list of each call.
   */
  method FetchPubmedData(efetch: Fetcher, ids: seq<string>, mindate: Option<string>, maxdate: Option<string>)
    returns (articles: seq<Article>, calls: seq<seq<string>>)
    ensures calls == CallPlan(ids)
    ensures articles == Flatten(PerCall(efetch, calls, mindate, maxdate))
  {
    if |ids| <= MAX_FETCH_IDS {
      articles := ParsePubmedData(efetch, ids, mindate, maxdate);
      calls := [ids];
      FlattenAppend([], articles);
      assert PerCall(efetch, calls, mindate, maxdate) == [] + [articles];
    } else {
      articles, calls := FetchInSlices(efetch, ids, mindate, maxdate);
    }
  }

  /** The `else` branch of `fetch_pubmed_data`: the loop over `range(0, len(ids), BATCH_SIZE)`. */
  method FetchInSlices(efetch: Fetcher, ids: seq<string>, mindate: Option<string>, maxdate: Option<string>)
    returns (articles: seq<Article>, calls: seq<seq<string>>)
    ensures calls == Chunks(ids, BATCH_SIZE)
    ensures articles == Flatten(PerCall(efetch, calls, mindate, maxdate))
  {
    articles, calls := [], [];
    ghost var results: seq<seq<Article>> := [];
    var i := 0;
    assert ids[i..] == ids;
    while i < |ids|
      invariant 0 <= i
      invariant calls + ChunksFrom(ids, i, BATCH_SIZE) == Chunks(ids, BATCH_SIZE)
      invariant results == PerCall(efetch, calls, mindate, maxdate)
      invariant articles == Flatten(results)
    {
      var batchIds := ids[i..Min(i + BATCH_SIZE, |ids|)];
      ChunksFromStep(ids, i, BATCH_SIZE);
      var batch := ParsePubmedData(efetch, batchIds, mindate, maxdate);
      FlattenAppend(results, batch);
      articles := articles + batch;
      calls := calls + [batchIds];
      results := results + [batch];
      i := i + BATCH_SIZE;
    }
    assert ChunksFrom(ids, i, BATCH_SIZE) == [];
  }

  /** The slices from offset `i` on, none once `i` is past the end. */
  function ChunksFrom<T>(ids: seq<T>, i: nat, size: nat): seq<seq<T>>
    requires size > 0
  {
    if i < |ids| then Chunks(ids[i..], size) else []
  }

  /** The slices from offset `i` on: the slice at `i`, then those from `i + size`. */
  lemma ChunksFromStep<T>(ids: seq<T>, i: nat, size: nat)
    requires size > 0 && i < |ids|
    ensures ChunksFrom(ids, i, size) == [ids[i..Min(i + size, |ids|)]] + ChunksFrom(ids, i + size, size)
  {
    if i + size < |ids| {
      assert ids[i..][..size] == ids[i..i + size] && ids[i..][size..] == ids[i + size..];
    } else {
      assert ids[i..Min(i + size, |ids|)] == ids[i..];
    }
  }
}
