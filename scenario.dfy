/**
 * A worked run. The search engine returns two pages, `a.test/1`,
 * `b.test/2` and then `a.test/3`, followed by an empty page. A URL's host
 * is its first six characters. The cooldown is 6 seconds. The collection
 * loop ends at time 12, and every call of the resolver takes 1 second. The
 * resolver finds the link `x` on `a.test/1`, none on `b.test/2`, and `y` on
 * `a.test/3`.
 */
module Scenarios {
  import opened Options
  import opened IntermediaryUrls
  import opened Pagination
  import opened HostCooldown

  function Pages(): seq<seq<string>>
  {
    [["a.test/1", "b.test/2"], ["a.test/3"]]
  }

  function HostPrefix(s: string): Option<string>
  {
    if |s| >= 6 then Some(s[..6]) else None
  }

  function Links(u: string): seq<string>
  {
    if u == "a.test/1" then ["x"] else if u == "a.test/3" then ["y"] else []
  }

  function ScenarioEnv(): Env
  {
    Env(6, Links, _ => 1)
  }

  /** Paging stops at page 2, having gathered the three results in page order. */
  lemma ScenarioSearch()
    ensures FirstEmptyPage(Pages(), 0) == 2 && Gathered(Pages(), 2) == ["a.test/1", "b.test/2", "a.test/3"]
  {
    assert SearchPage(Pages(), 0) != [] && SearchPage(Pages(), 1) != [] && SearchPage(Pages(), 2) == [];
  }

  /** Wrapping the gathered results gives the hosts a.test, b.test and a.test. */
  lemma ScenarioResults()
    ensures ResultsHaveHosts(HostPrefix, Pages())
    ensures Wrapped(HostPrefix, Gathered(Pages(), 2)) ==
      [IntermediaryUrl("a.test/1", Some("a.test")), IntermediaryUrl("b.test/2", Some("b.test")),
       IntermediaryUrl("a.test/3", Some("a.test"))]
  {
    ScenarioSearch();
    var w := Wrapped(HostPrefix, Gathered(Pages(), 2));
    assert "a.test/1"[..6] == "a.test" && "b.test/2"[..6] == "b.test" && "a.test/3"[..6] == "a.test";
    assert w[0] == New(HostPrefix, "a.test/1") && w[1] == New(HostPrefix, "b.test/2") && w[2] == New(HostPrefix, "a.test/3");
  }

  /**
   * The crawl that follows, on the wrapped results, from time 12. The visit
   * to b.test does not wait, although a.test was visited just before it. The
   * second visit to a.test arrives 1 second after the first one finished. It
   * sleeps the remaining 5 seconds, not a full cooldown.
   */
  lemma ScenarioCrawl(results: seq<IntermediaryUrl<string>>, v: seq<Visit<string>>)
    requires results == Wrapped(HostPrefix, Gathered(Pages(), 2))
    requires v == Crawled(ScenarioEnv(), results, 12).visits
    ensures |v| == 3
    ensures v[0].waited == 0 && v[0].start == 12 && v[0].finish == 13
    ensures v[1].waited == 0 && v[1].start == 13 && v[1].finish == 14
    ensures v[2].waited == 5 && v[2].start == 19
  {
    ScenarioResults();
    var env := ScenarioEnv();
    assert LastVisit(results, "a.test", 0).None? && LastVisit(results, "b.test", 1).None?;
    assert LastVisit(results, "a.test", 2) == Some(0);
    VisitAt(env, results, 12, v, 0);
    WaitRule(env, results, 12, v, 0);
    VisitAt(env, results, 12, v, 1);
    WaitRule(env, results, 12, v, 1);
    VisitAt(env, results, 12, v, 2);
    WaitRule(env, results, 12, v, 2);
  }

  /** The resolver's answers for the three results, in order: x, then y. */
  lemma ScenarioResolved()
    ensures Resolved(Links, ["a.test/1", "b.test/2", "a.test/3"]) == ["x", "y"]
  {
    var urls := ["a.test/1", "b.test/2", "a.test/3"];
    assert urls[..2] == ["a.test/1", "b.test/2"] && urls[..2][..1] == ["a.test/1"] && urls[..2][..1][..0] == [];
    assert Resolved(Links, urls[..2][..1]) == ["x"];
    assert Resolved(Links, urls[..2]) == ["x"];
  }

  /** The links emitted by that crawl: x, then y. */
  lemma ScenarioOutput(results: seq<IntermediaryUrl<string>>)
    requires results == Wrapped(HostPrefix, Gathered(Pages(), 2))
    ensures Crawled(ScenarioEnv(), results, 12).output == ["x", "y"]
  {
    ScenarioSearch();
    ScenarioResolved();
    assert UrlsOf(results) == ["a.test/1", "b.test/2", "a.test/3"];
    OutputInOrder(ScenarioEnv(), results, 12, 3);
    assert UrlsOf(results)[..3] == UrlsOf(results);
  }
}
