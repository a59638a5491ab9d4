/**
 * The first phase of a run: ask the search engine for result pages 0, 1, 2, ...
 * until one comes back empty, wrapping and appending every result, and
 * sleeping `cooldown` seconds after each non-empty page.
 */
module Pagination {
  import opened IntermediaryUrls

  /** An effect of the collection loop, in the order it happens. */
  datatype Event = Search(page: nat) | Sleep(seconds: nat)

  /**
   * `google::search(page)` answered from a fixed oracle: the given pages, then
   * empty pages for ever after.
   */
  function SearchPage(pages: seq<seq<string>>, page: nat): seq<string>
  {
    if page < |pages| then pages[page] else []
  }

  /** The index of the first empty page at or after `from`. */
  function FirstEmptyPage(pages: seq<seq<string>>, from: nat): (k: nat)
    ensures from <= k
    ensures SearchPage(pages, k) == []
    ensures forall p :: from <= p < k ==> SearchPage(pages, p) != []
    decreases |pages| - from
  {
    if SearchPage(pages, from) == [] then from else FirstEmptyPage(pages, from + 1)
  }

  /** The results of pages 0 .. n-1, concatenated in page order. */
  function Gathered(pages: seq<seq<string>>, n: nat): seq<string>
  {
    if n == 0 then [] else Gathered(pages, n - 1) + SearchPage(pages, n - 1)
  }

  /** Every even position requests the next page; every odd one sleeps for the cooldown. */
  predicate Alternates(trace: seq<Event>, cooldown: nat)
  {
    forall j :: 0 <= j < |trace| ==> trace[j] == if j % 2 == 0 then Search(j / 2) else Sleep(cooldown)
  }

  /** The trace of `n` rounds of the loop that found a non-empty page: search page p, then sleep, for p = 0 .. n-1. */
  function Rounds(n: nat, cooldown: nat): seq<Event>
  {
    if n == 0 then [] else Rounds(n - 1, cooldown) + [Search(n - 1), Sleep(cooldown)]
  }

  /** Requesting page `page` after `page` search-and-sleep rounds keeps the alternation, and so does the sleep after it. */
  lemma AlternatesExtend(trace: seq<Event>, cooldown: nat, page: nat)
    requires |trace| == 2 * page && Alternates(trace, cooldown)
    ensures Alternates(trace + [Search(page)], cooldown)
    ensures Alternates(trace + [Search(page), Sleep(cooldown)], cooldown)
  {
    assert (2 * page) % 2 == 0 && (2 * page) / 2 == page;
    assert (2 * page + 1) % 2 == 1;
  }

  /** n rounds, followed by the search that ends the loop, alternate searches of pages 0, 1, ... with sleeps. */
  lemma {:induction false} RoundsAlternate(n: nat, cooldown: nat)
    ensures |Rounds(n, cooldown)| == 2 * n && Alternates(Rounds(n, cooldown), cooldown)
    ensures Alternates(Rounds(n, cooldown) + [Search(n)], cooldown)
  {
    if n > 0 {
      RoundsAlternate(n - 1, cooldown);
      AlternatesExtend(Rounds(n - 1, cooldown), cooldown, n - 1);
      assert Rounds(n, cooldown) == Rounds(n - 1, cooldown) + [Search(n - 1), Sleep(cooldown)];
    }
    AlternatesExtend(Rounds(n, cooldown), cooldown, n);
  }

  /**
   * The time the loop has spent after `n` non-empty pages: each of them cost
   * one search, which takes `searchLatency(p)` for page p, and one sleep of
   * `cooldown`.
   */
  function SearchTime(searchLatency: nat -> nat, cooldown: nat, n: nat): nat
  {
    if n == 0 then 0 else SearchTime(searchLatency, cooldown, n - 1) + searchLatency(n - 1) + cooldown
  }

  /**
   * The sleeps alone account for `n` cooldowns, so that much time at least
   * has passed; exactly that much when every search is instantaneous.
   */
  lemma {:induction false} SearchTimeCountsSleeps(searchLatency: nat -> nat, cooldown: nat, n: nat)
    ensures SearchTime(searchLatency, cooldown, n) >= n * cooldown
    ensures (forall p :: 0 <= p < n ==> searchLatency(p) == 0) ==> SearchTime(searchLatency, cooldown, n) == n * cooldown
  {
    if n > 0 {
      SearchTimeCountsSleeps(searchLatency, cooldown, n - 1);
      assert n * cooldown == (n - 1) * cooldown + cooldown;
    }
  }

  /** What the source demands of the search engine: every result it returns before the first empty page has a host. */
  predicate ResultsHaveHosts<H>(parse: HostParser<H>, pages: seq<seq<string>>)
  {
    forall p :: 0 <= p < FirstEmptyPage(pages, 0) ==> AllHaveHosts(parse, SearchPage(pages, p))
  }

  /**
   * One more round of the loop, on a non-empty page: its results have hosts
   * and are appended after the results gathered so far, and so are their
   * wrappers; the trace grows by that page's search and a sleep, and the
   * time spent by that search and that sleep.
   */
  lemma NextRound<H>(parse: HostParser<H>, pages: seq<seq<string>>, cooldown: nat, searchLatency: nat -> nat, page: nat)
    requires ResultsHaveHosts(parse, pages) && page < FirstEmptyPage(pages, 0)
    requires AllHaveHosts(parse, Gathered(pages, page))
    ensures AllHaveHosts(parse, SearchPage(pages, page))
    ensures AllHaveHosts(parse, Gathered(pages, page + 1))
    ensures Wrapped(parse, Gathered(pages, page + 1)) == Wrapped(parse, Gathered(pages, page)) + Wrapped(parse, SearchPage(pages, page))
    ensures Rounds(page + 1, cooldown) == Rounds(page, cooldown) + [Search(page)] + [Sleep(cooldown)]
    ensures SearchTime(searchLatency, cooldown, page + 1) == SearchTime(searchLatency, cooldown, page) + searchLatency(page) + cooldown
  {
    WrappedAppend(parse, Gathered(pages, page), SearchPage(pages, page));
  }

  /**
   * The collection loop. With k the first empty page, it stops with the page
   * counter at k; `results` wraps exactly the concatenation of pages 0 .. k-1;
   * the trace is Search(0), Sleep(cooldown), Search(1), ..., Sleep(cooldown),
   * Search(k): k + 1 searches with indices 0 .. k in order, one sleep after
   * each non-empty page and none after the empty one; the clock has advanced
   * by the k + 1 searches and the k sleeps.
   */
  method Collect<H>(parse: HostParser<H>, pages: seq<seq<string>>, cooldown: nat, searchLatency: nat -> nat, clock: nat)
    returns (results: seq<IntermediaryUrl<H>>, page: nat, trace: seq<Event>, now: nat)
    requires ResultsHaveHosts(parse, pages)
    ensures page == FirstEmptyPage(pages, 0)
    ensures AllHaveHosts(parse, Gathered(pages, page)) && results == Wrapped(parse, Gathered(pages, page))
    ensures AllInitialised(results) && UrlsOf(results) == Gathered(pages, page)
    ensures trace == Rounds(page, cooldown) + [Search(page)]
    ensures |trace| == 2 * page + 1 && Alternates(trace, cooldown)
    ensures now == clock + SearchTime(searchLatency, cooldown, page) + searchLatency(page)
  {
    results, page, trace, now := [], 0, [], clock;
    ghost var gathered: seq<string> := [];
    while true
      invariant page <= FirstEmptyPage(pages, 0) && gathered == Gathered(pages, page)
      invariant AllHaveHosts(parse, gathered) && results == Wrapped(parse, gathered)
      invariant trace == Rounds(page, cooldown)
      invariant now == clock + SearchTime(searchLatency, cooldown, page)
      decreases |pages| - page
    {
      var newResults := SearchPage(pages, page);
      trace := trace + [Search(page)];
      now := now + searchLatency(page);
      if |newResults| > 0 {
        NextRound(parse, pages, cooldown, searchLatency, page);
        var wrapped := NewFromVec(parse, newResults);
        results := results + wrapped;
        gathered := gathered + newResults;
        page := page + 1;
        trace := trace + [Sleep(cooldown)];
        now := now + cooldown;
      } else {
        break;
      }
    }
    RoundsAlternate(page, cooldown);
  }
}
