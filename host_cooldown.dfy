/**
 * The second phase of a run: visit the collected URLs strictly in order,
 * keeping a ledger from host to the time its last visit finished. Before a
 * visit, a host already in the ledger whose cooldown has not yet elapsed is
 * waited for, exactly for the time that remains; a host not in the ledger is
 * not waited for. The resolver is then called, every link it yields is
 * emitted in order, and only then is the host's entry set to the current time.
 *
 * Time is an abstract clock in seconds. Sleeping for d advances it by d.
 * The work of a visit after its sleep advances it by a duration the
 * environment chooses: calling the resolver, printing its links, and
 * reading the clock for the ledger. Nothing else takes time.
 */
module HostCooldown {
  import opened Options
  import opened IntermediaryUrls

  /**
   * What the crawl depends on besides its input: the configured cooldown,
   * `intermediary::resolve` as a function of the URL, and how long the i-th
   * visit takes from the end of its sleep until its host is recorded. That
   * time covers the resolver call and the printing of its links.
   */
  datatype Env = Env(cooldown: nat, resolve: string -> seq<string>, latency: nat -> nat)

  /**
   * What one step of the crawl did: the URL and its host; how long it slept;
   * `start`, when the sleep ended and the resolver could be called; `finish`,
   * the time recorded for the host, after the resolver returned and its links
   * were printed; and the links the resolver yielded.
   */
  datatype Visit<H> = Visit(url: string, host: H, waited: nat, start: nat, finish: nat, links: seq<string>)

  /** The crawl's state: the ledger (`timeout_check`), the clock, the links emitted so far and the visits made so far. */
  datatype CrawlState<H> = CrawlState(ledger: map<H, nat>, now: nat, output: seq<string>, visits: seq<Visit<H>>)

  /** No ledger entry lies in the future, so the elapsed time is never negative. */
  predicate Settled<H(==)>(s: CrawlState<H>)
  {
    forall h :: h in s.ledger ==> s.ledger[h] <= s.now
  }

  function Max(a: int, b: int): int
  {
    if a < b then b else a
  }

  /**
   * How long the crawler sleeps before a visit to `host` at time `now`: not
   * at all for a host it has not visited; for a visited host, until the later
   * of now and the end of that host's cooldown, and not a moment longer.
   */
  function Wait<H(==)>(ledger: map<H, nat>, host: H, now: nat, cooldown: nat): (w: nat)
    requires host in ledger ==> ledger[host] <= now
    ensures host !in ledger ==> w == 0
    ensures host in ledger ==> now + w == Max(now, ledger[host] + cooldown)
    ensures cooldown == 0 ==> w == 0
  {
    if host in ledger && now - ledger[host] < cooldown then cooldown - (now - ledger[host]) else 0
  }

  /**
   * One iteration of the crawl loop on `u`, the i-th URL: sleep what Wait
   * prescribes, call the resolver, emit its links, then record the host.
   * The clock never goes back and the ledger stays settled.
   */
  function Step<H(==)>(env: Env, s: CrawlState<H>, u: IntermediaryUrl<H>, i: nat): (t: CrawlState<H>)
    requires u.Initialised() && Settled(s)
    ensures Settled(t) && t.now >= s.now
  {
    var host := u.GetHost();
    var waited := Wait(s.ledger, host, s.now, env.cooldown);
    var start := s.now + waited;
    var links := env.resolve(u.GetUrl());
    var finish := start + env.latency(i);
    CrawlState(s.ledger[host := finish], finish, s.output + links,
               s.visits + [Visit(u.GetUrl(), host, waited, start, finish, links)])
  }

  /**
   * What one iteration does to the ledger: the URL's host is added if it was
   * new, its entry becomes the time the visit finished, and every other
   * entry is left alone.
   */
  lemma StepRecordsHost<H>(env: Env, s: CrawlState<H>, u: IntermediaryUrl<H>, i: nat)
    requires u.Initialised() && Settled(s)
    ensures Step(env, s, u, i).ledger.Keys == s.ledger.Keys + {u.GetHost()}
    ensures Step(env, s, u, i).ledger[u.GetHost()] == Step(env, s, u, i).now
    ensures forall h :: h in s.ledger && h != u.GetHost() ==> Step(env, s, u, i).ledger[h] == s.ledger[h]
  {
  }

  /** The hosts of the first n URLs. */
  function HostsOf<H(==)>(results: seq<IntermediaryUrl<H>>, n: nat): set<H>
    requires n <= |results| && AllInitialised(results)
  {
    set j | 0 <= j < n :: results[j].GetHost()
  }

  lemma HostsOfStep<H>(results: seq<IntermediaryUrl<H>>, n: nat)
    requires 0 < n <= |results| && AllInitialised(results)
    ensures HostsOf(results, n) == HostsOf(results, n - 1) + {results[n - 1].GetHost()}
  {
    assert results[n - 1].GetHost() in HostsOf(results, n);
  }

  /**
   * The state after the first n iterations of the crawl loop, started with an
   * empty ledger at time `clock`. No ledger entry lies in the future, one
   * visit was made per URL, and the clock stands at the time the last visit
   * finished.
   */
  function Run<H(==)>(env: Env, results: seq<IntermediaryUrl<H>>, n: nat, clock: nat): (s: CrawlState<H>)
    requires n <= |results| && AllInitialised(results)
    ensures Settled(s) && s.now >= clock
    ensures |s.visits| == n
    ensures n > 0 ==> s.now == s.visits[n - 1].finish
    decreases n
  {
    if n == 0 then CrawlState(map[], clock, [], [])
    else
      Step(env, Run(env, results, n - 1, clock), results[n - 1], n - 1)
  }

  /** The ledger's keys are exactly the hosts of the URLs visited so far: it grows by one host per new host and never loses one. */
  lemma {:induction false} LedgerHoldsVisitedHosts<H>(env: Env, results: seq<IntermediaryUrl<H>>, clock: nat, n: nat)
    requires n <= |results| && AllInitialised(results)
    ensures Run(env, results, n, clock).ledger.Keys == HostsOf(results, n)
  {
    if n > 0 {
      LedgerHoldsVisitedHosts(env, results, clock, n - 1);
      HostsOfStep(results, n);
    }
  }

  /** The state after the whole crawl. */
  function Crawled<H(==)>(env: Env, results: seq<IntermediaryUrl<H>>, clock: nat): CrawlState<H>
    requires AllInitialised(results)
  {
    Run(env, results, |results|, clock)
  }

  /** The links of every URL in turn, each URL's links in the order the resolver yields them. */
  function Resolved(resolve: string -> seq<string>, urls: seq<string>): seq<string>
  {
    if urls == [] then [] else Resolved(resolve, urls[..|urls| - 1]) + resolve(urls[|urls| - 1])
  }

  /**
   * The position of the last of the first n URLs whose host is `host`, if
   * there is one: the visit whose finish the ledger holds for that host.
   */
  function LastVisit<H(==)>(results: seq<IntermediaryUrl<H>>, host: H, n: nat): (r: Option<nat>)
    requires n <= |results| && AllInitialised(results)
    ensures r.None? ==> forall j :: 0 <= j < n ==> results[j].GetHost() != host
    ensures r.Some? ==> r.value < n && results[r.value].GetHost() == host
    ensures r.Some? ==> forall j :: r.value < j < n ==> results[j].GetHost() != host
  {
    if n == 0 then None
    else if results[n - 1].GetHost() == host then Some(n - 1)
    else LastVisit(results, host, n - 1)
  }

  /** When the i-th of the visits `v` may begin: when the crawl started, or when the previous visit finished. */
  function Arrival<H>(clock: nat, v: seq<Visit<H>>, i: nat): nat
    requires i <= |v|
  {
    if i == 0 then clock else v[i - 1].finish
  }

  /** Earlier prefixes of the crawl made the same visits: nothing done later changes what was done before. */
  lemma {:induction false} RunPrefix<H>(env: Env, results: seq<IntermediaryUrl<H>>, clock: nat, m: nat, n: nat)
    requires m <= n <= |results| && AllInitialised(results)
    ensures Run(env, results, m, clock).visits == Run(env, results, n, clock).visits[..m]
    decreases n
  {
    if m < n {
      RunPrefix(env, results, clock, m, n - 1);
      var s, t := Run(env, results, n - 1, clock), Run(env, results, n, clock);
      assert t == Step(env, s, results[n - 1], n - 1);
      assert t.visits[..n - 1] == s.visits;
      assert t.visits[..m] == s.visits[..m];
    }
  }

  /**
   * The i-th visit `v[i]` of the crawl: it is of the i-th URL and its host;
   * it sleeps what Wait prescribes for the ledger and clock left by the
   * visits before it, which stand at its arrival; the visit's work starts
   * after that sleep and lasts the i-th duration; and the visit's links are
   * the resolver's answer for its URL.
   */
  lemma VisitAt<H>(env: Env, results: seq<IntermediaryUrl<H>>, clock: nat, v: seq<Visit<H>>, i: nat)
    requires AllInitialised(results) && v == Crawled(env, results, clock).visits && i < |results|
    ensures |v| == |results|
    ensures v[i].url == results[i].GetUrl() && v[i].host == results[i].GetHost()
    ensures Run(env, results, i, clock).now == Arrival(clock, v, i)
    ensures v[i].waited == Wait(Run(env, results, i, clock).ledger, v[i].host, Arrival(clock, v, i), env.cooldown)
    ensures v[i].start == Arrival(clock, v, i) + v[i].waited
    ensures v[i].finish == v[i].start + env.latency(i)
    ensures v[i].links == env.resolve(v[i].url)
  {
    RunPrefix(env, results, clock, i + 1, |results|);
    if i > 0 {
      RunPrefix(env, results, clock, i, |results|);
    }
  }

  /**
   * The ledger after n visits records, for each host, the finish time of the
   * last visit to that host, and holds no host that was not visited.
   */
  lemma {:induction false} LedgerRecordsLastVisit<H>(env: Env, results: seq<IntermediaryUrl<H>>, clock: nat, n: nat, host: H)
    requires n <= |results| && AllInitialised(results)
    ensures host in Run(env, results, n, clock).ledger <==> LastVisit(results, host, n).Some?
    ensures host in Run(env, results, n, clock).ledger ==>
      Run(env, results, n, clock).ledger[host] == Run(env, results, n, clock).visits[LastVisit(results, host, n).value].finish
  {
    if n > 0 {
      LedgerRecordsLastVisit(env, results, clock, n - 1, host);
      var s := Run(env, results, n - 1, clock);
      var t := Run(env, results, n, clock);
      assert t == Step(env, s, results[n - 1], n - 1);
      if results[n - 1].GetHost() != host && host in s.ledger {
        var j := LastVisit(results, host, n - 1).value;
        assert t.visits[j] == t.visits[..n - 1][j];
      }
    }
  }

  /**
   * The scheduling rule, in terms of visits only. The i-th visit starts as
   * soon as it arrives if its host has not been visited before; otherwise at
   * the later of its arrival and the end of the cooldown that began when the
   * last visit to the same host finished. No visit to any other host enters
   * into it (VisitAt adds that it sleeps exactly from arrival to start).
   */
  lemma WaitRule<H>(env: Env, results: seq<IntermediaryUrl<H>>, clock: nat, v: seq<Visit<H>>, i: nat)
    requires AllInitialised(results) && v == Crawled(env, results, clock).visits && i < |v|
    ensures LastVisit(results, v[i].host, i).None? ==> v[i].start == Arrival(clock, v, i)
    ensures LastVisit(results, v[i].host, i).Some? ==>
      v[i].start == Max(Arrival(clock, v, i), v[LastVisit(results, v[i].host, i).value].finish + env.cooldown)
  {
    var s := Run(env, results, i, clock);
    VisitAt(env, results, clock, v, i);
    var host, last := v[i].host, LastVisit(results, v[i].host, i);
    if last.Some? {
      assert host in s.ledger && s.ledger[host] == v[last.value].finish by {
        LedgerRecordsLastVisit(env, results, clock, i, host);
        RunPrefix(env, results, clock, i, |results|);
        assert s.visits[last.value] == v[last.value];
      }
    } else {
      assert host !in s.ledger by {
        LedgerRecordsLastVisit(env, results, clock, i, host);
      }
    }
  }

  /** Time only moves forward: each visit finishes no earlier than it started, and later visits finish no earlier than earlier ones. */
  lemma {:induction false} FinishesInOrder<H>(env: Env, results: seq<IntermediaryUrl<H>>, clock: nat, v: seq<Visit<H>>, j: nat, k: nat)
    requires AllInitialised(results) && v == Crawled(env, results, clock).visits && j <= k < |v|
    ensures Arrival(clock, v, k) <= v[k].start <= v[k].finish
    ensures v[j].finish <= v[k].finish
    decreases k
  {
    VisitAt(env, results, clock, v, k);
    if j < k {
      FinishesInOrder(env, results, clock, v, j, k - 1);
    }
  }

  /** A host's first visit never waits, whatever happened to other hosts before it. */
  lemma FirstVisitNoWait<H>(env: Env, results: seq<IntermediaryUrl<H>>, clock: nat, v: seq<Visit<H>>, i: nat)
    requires AllInitialised(results) && v == Crawled(env, results, clock).visits && i < |v|
    requires forall j :: 0 <= j < i ==> results[j].GetHost() != results[i].GetHost()
    ensures v[i].waited == 0
    ensures v[i].start == Arrival(clock, v, i)
  {
    VisitAt(env, results, clock, v, i);
    WaitRule(env, results, clock, v, i);
  }

  /**
   * The cooldown is respected: when two visits have the same host, the later
   * one starts at least `cooldown` after the time recorded for the earlier
   * one, which is no earlier than the moment its resolver returned.
   */
  lemma CooldownRespected<H>(env: Env, results: seq<IntermediaryUrl<H>>, clock: nat, v: seq<Visit<H>>, j: nat, i: nat)
    requires AllInitialised(results) && v == Crawled(env, results, clock).visits && j < i < |v|
    requires v[j].host == v[i].host
    ensures v[i].start >= v[j].finish + env.cooldown
  {
    VisitAt(env, results, clock, v, i);
    VisitAt(env, results, clock, v, j);
    WaitRule(env, results, clock, v, i);
    var last := LastVisit(results, v[i].host, i).value;
    FinishesInOrder(env, results, clock, v, j, last);
  }

  /** With no cooldown configured, the crawler never sleeps, even for a repeated host. */
  lemma ZeroCooldownNeverWaits<H>(env: Env, results: seq<IntermediaryUrl<H>>, clock: nat, v: seq<Visit<H>>, i: nat)
    requires AllInitialised(results) && v == Crawled(env, results, clock).visits && i < |v|
    requires env.cooldown == 0
    ensures v[i].waited == 0
  {
    VisitAt(env, results, clock, v, i);
    WaitRule(env, results, clock, v, i);
    var last := LastVisit(results, v[i].host, i);
    if last.Some? {
      FinishesInOrder(env, results, clock, v, last.value, i - 1);
    }
  }

  /**
   * The crawl as a whole: one visit per URL, in URL order, each under that
   * URL's host; a visit to a host not visited before never waits; and every
   * pair of visits to the same host is at least one cooldown apart.
   */
  lemma CrawlVisits<H>(env: Env, results: seq<IntermediaryUrl<H>>, clock: nat, v: seq<Visit<H>>)
    requires AllInitialised(results) && v == Crawled(env, results, clock).visits
    ensures |v| == |results|
    ensures forall i :: 0 <= i < |v| ==> v[i].url == results[i].GetUrl() && v[i].host == results[i].GetHost()
    ensures forall i :: 0 <= i < |v| && (forall j :: 0 <= j < i ==> v[j].host != v[i].host) ==> v[i].waited == 0
    ensures forall j, i :: 0 <= j < i < |v| && v[j].host == v[i].host ==> v[i].start >= v[j].finish + env.cooldown
  {
    forall i | 0 <= i < |v|
      ensures v[i].url == results[i].GetUrl() && v[i].host == results[i].GetHost()
    {
      VisitAt(env, results, clock, v, i);
    }
    forall i | 0 <= i < |v| && (forall j :: 0 <= j < i ==> v[j].host != v[i].host)
      ensures v[i].waited == 0
    {
      FirstVisitNoWait(env, results, clock, v, i);
    }
    forall j, i | 0 <= j < i < |v| && v[j].host == v[i].host
      ensures v[i].start >= v[j].finish + env.cooldown
    {
      CooldownRespected(env, results, clock, v, j, i);
    }
  }

  /** The links emitted after n visits are the resolver's answers for the first n URLs, concatenated in URL order. */
  lemma {:induction false} OutputInOrder<H>(env: Env, results: seq<IntermediaryUrl<H>>, clock: nat, n: nat)
    requires n <= |results| && AllInitialised(results)
    ensures Run(env, results, n, clock).output == Resolved(env.resolve, UrlsOf(results)[..n])
  {
    if n > 0 {
      OutputInOrder(env, results, clock, n - 1);
      assert UrlsOf(results)[..n][..n - 1] == UrlsOf(results)[..n - 1];
    }
  }

  /** The (i+1)-th state of the crawl, written out from the i-th. */
  lemma RunStep<H>(env: Env, results: seq<IntermediaryUrl<H>>, clock: nat, i: nat, waited: nat, start: nat, links: seq<string>)
    requires i < |results| && AllInitialised(results)
    requires var s := Run(env, results, i, clock);
      waited == Wait(s.ledger, results[i].GetHost(), s.now, env.cooldown) && start == s.now + waited
    requires links == env.resolve(results[i].GetUrl())
    ensures var s, finish := Run(env, results, i, clock), start + env.latency(i);
      Run(env, results, i + 1, clock) ==
      CrawlState(s.ledger[results[i].GetHost() := finish], finish, s.output + links,
                 s.visits + [Visit(results[i].GetUrl(), results[i].GetHost(), waited, start, finish, links)])
  {
  }

  /**
   * The crawl loop. Its final state is the one Run describes: the ledger's
   * keys are exactly the hosts of the URLs; the emitted links are the
   * resolver's answers for every URL, concatenated in URL order; one visit
   * is made per URL, in order, under that URL's host; a host's first visit
   * does not wait; and whenever two visits share a host, the
   * later one starts at least `cooldown` after the earlier one finished.
   */
  method Crawl<H(==)>(env: Env, results: seq<IntermediaryUrl<H>>, clock: nat)
    returns (ledger: map<H, nat>, output: seq<string>, visits: seq<Visit<H>>, now: nat)
    requires AllInitialised(results)
    ensures CrawlState(ledger, now, output, visits) == Crawled(env, results, clock)
    ensures ledger.Keys == HostsOf(results, |results|)
    ensures output == Resolved(env.resolve, UrlsOf(results))
    ensures |visits| == |results|
    ensures forall i :: 0 <= i < |visits| ==> visits[i].url == results[i].GetUrl() && visits[i].host == results[i].GetHost()
    ensures forall i :: 0 <= i < |visits| && (forall j :: 0 <= j < i ==> visits[j].host != visits[i].host) ==> visits[i].waited == 0
    ensures forall j, i :: 0 <= j < i < |visits| && visits[j].host == visits[i].host ==>
      visits[i].start >= visits[j].finish + env.cooldown
  {
    ledger, output, visits, now := map[], [], [], clock;
    for i := 0 to |results|
      invariant ledger == Run(env, results, i, clock).ledger && now == Run(env, results, i, clock).now
      invariant output == Run(env, results, i, clock).output && visits == Run(env, results, i, clock).visits
    {
      ghost var s := Run(env, results, i, clock);
      var host := results[i].GetHost();
      var waited := 0;
      if host in ledger {
        var elapsed := now - ledger[host];
        if elapsed < env.cooldown {
          waited := env.cooldown - elapsed;
          now := now + waited;
        }
      }
      var start := now;
      var links := env.resolve(results[i].GetUrl());
      now := now + env.latency(i);
      ghost var before := output;
      var k := 0;
      while k < |links|
        invariant 0 <= k <= |links|
        invariant output == before + links[..k]
      {
        output := output + [links[k]];
        k := k + 1;
      }
      assert links[..k] == links;
      visits := visits + [Visit(results[i].GetUrl(), host, waited, start, now, links)];
      ledger := ledger[host := now];
      RunStep(env, results, clock, i, waited, start, links);
    }
    OutputInOrder(env, results, clock, |results|);
    LedgerHoldsVisitedHosts(env, results, clock, |results|);
    assert UrlsOf(results)[..|results|] == UrlsOf(results);
    CrawlVisits(env, results, clock, visits);
  }
}
