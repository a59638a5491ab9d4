/**
 * A whole run of the finder: collect the search results page by page, then
 * visit them one by one under the per-host cooldown, emitting every gleam.io
 * link found. One cooldown governs both the sleep between result pages and
 * the minimum gap between two visits to the same host.
 */
module GleamFinder {
  import opened IntermediaryUrls
  import opened Pagination
  import opened HostCooldown

  /** When the crawl begins: after the k + 1 searches and k sleeps of the collection loop, k being the first empty page. */
  function CrawlStart(pages: seq<seq<string>>, cooldown: nat, searchLatency: nat -> nat, clock: nat): nat
  {
    var k := FirstEmptyPage(pages, 0);
    clock + SearchTime(searchLatency, cooldown, k) + searchLatency(k)
  }

  /**
   * The body of `main`, in either of its two output modes. With k the first
   * empty result page and `found` the results of pages 0 .. k-1 in order:
   * the search phase asked for pages 0 .. k in order with a sleep after each
   * non-empty one; the visits are exactly those of the crawl specification
   * run on the wrapped results from the moment the search phase ended, so
   * every lemma about that crawl applies to them; in particular, the i-th
   * visit is of found[i] under its host, the first visit to any host does
   * not wait, and two visits to the same host are at least one cooldown
   * apart; the emitted links are the resolver's answers for `found`, in order.
   */
  method FindLinks<H(==)>(parse: HostParser<H>, pages: seq<seq<string>>, cooldown: nat,
                          searchLatency: nat -> nat, resolve: string -> seq<string>, latency: nat -> nat, clock: nat)
    returns (output: seq<string>, trace: seq<Event>, visits: seq<Visit<H>>)
    requires ResultsHaveHosts(parse, pages)
    ensures var k := FirstEmptyPage(pages, 0);
      |trace| == 2 * k + 1 && Alternates(trace, cooldown)
    ensures AllHaveHosts(parse, Gathered(pages, FirstEmptyPage(pages, 0)))
    ensures visits == Crawled(Env(cooldown, resolve, latency), Wrapped(parse, Gathered(pages, FirstEmptyPage(pages, 0))),
                              CrawlStart(pages, cooldown, searchLatency, clock)).visits
    ensures output == Resolved(resolve, Gathered(pages, FirstEmptyPage(pages, 0)))
    ensures var found := Gathered(pages, FirstEmptyPage(pages, 0));
      |visits| == |found| &&
      forall i :: 0 <= i < |visits| ==> visits[i].url == found[i] && visits[i].host == parse(found[i]).value
    ensures |visits| > 0 ==> visits[0].waited == 0 && visits[0].start == CrawlStart(pages, cooldown, searchLatency, clock)
    ensures forall i :: 0 <= i < |visits| && (forall j :: 0 <= j < i ==> visits[j].host != visits[i].host) ==> visits[i].waited == 0
    ensures forall j, i :: 0 <= j < i < |visits| && visits[j].host == visits[i].host ==>
      visits[i].start >= visits[j].finish + cooldown
  {
    var results, page, searched;
    results, page, trace, searched := Collect(parse, pages, cooldown, searchLatency, clock);
    var env := Env(cooldown, resolve, latency);
    var ledger, now;
    ledger, output, visits, now := Crawl(env, results, searched);
    assert searched == CrawlStart(pages, cooldown, searchLatency, clock);
    assert visits == Crawled(env, results, searched).visits;
    if |visits| > 0 {
      FirstVisitNoWait(env, results, searched, visits, 0);
    }
  }
}
