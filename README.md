# gleam_finder_client: the search-then-crawl core, in Dafny

This project models `main` in `src/main.rs` of the gleam_finder client. The finder looks for gleam.io giveaway links in two phases:

1. **Collection.** It asks the search engine for result pages 0, 1, 2, ... and stops at the first empty page. It wraps every result as an `IntermediaryUrl` and sleeps for the configured cooldown after each non-empty page.
2. **Crawl.** It visits the collected URLs strictly in order. For each one it asks the resolver for the gleam.io links on that page and prints them. A map called `timeout_check` records, for each host, when its last visit finished. Before visiting a host it has seen before, the crawler sleeps for whatever is left of that host's cooldown. Hosts it has not seen before are visited at once.

`main` has two branches, a progress-bar one and a `--minimal` one. They run the same two phases and differ only in what they print, so the model covers them once.

The modules are:

- `IntermediaryUrls` (`intermediary_url.dfy`): the `IntermediaryUrl` struct with `init`, `new`, `get_host` and `get_url`.
  - `NewFromVec` is a loop proved against the function `Wrapped`.
  - The URL library is reduced to one given function from a string to its host. The host type is a type parameter, because the crawl only compares hosts for equality.
- `Pagination` (`pagination.dfy`): the collection loop, `Collect`.
  - The search engine is a fixed sequence of pages, with empty pages after its end. The p-th search takes a duration `searchLatency(p)` that the environment chooses.
  - The loop's effects are recorded as a trace of `Search(page)` and `Sleep(seconds)` events.
- `HostCooldown` (`host_cooldown.dfy`): the crawl loop, `Crawl`.
  - `Crawl` is proved equal to `Run`, a step-by-step specification that records every visit.
  - The scheduling properties are lemmas about `Run`.
  - Time is an abstract clock in whole seconds. A sleep of d advances it by d. The i-th visit's work after its sleep advances it by a duration `latency(i)` that the environment chooses. That work is the resolver call, the printing of its links and the reading of the clock for the ledger. Nothing else in the crawl takes time.
  - A visit's `finish` is the time recorded for its host. That is no earlier than the moment its resolver returned.
- `GleamFinder` (`finder.dfy`): the two phases run one after the other with one shared cooldown, as `main` runs them.
- `Scenarios` (`scenario.dfy`): a worked run with three results on two hosts, from the search pages to the printed links.

## Model

| member | source | states |
|---|---|---|
| IntermediaryUrls.IntermediaryUrl.GetHost | src/main.rs:50-52 | `get_host` returns the host stored by `init`; it is defined only on an initialised wrapper, the case in which its `unwrap` does not panic |
| IntermediaryUrls.IntermediaryUrl.GetUrl | src/main.rs:54-56 | `get_url` returns the raw string the wrapper was built from |
| IntermediaryUrls.IntermediaryUrl.Init | src/main.rs:45-48 | after `init` the wrapper holds a parsed URL, so `get_host` no longer panics; its raw string is unchanged and its host is the host of that string |
| IntermediaryUrls.New | src/main.rs:36-43 | `new(url)` keeps `url` as the raw string and is already initialised with the host of `url` |
| IntermediaryUrls.Wrapped | src/main.rs:28-34 | what `new_from_vec` returns: exactly one initialised wrapper per input string, in order; the i-th wrapper's `get_url` is the i-th string and its host is that string's host |
| IntermediaryUrls.NewFromVec | src/main.rs:28-34 | the push loop returns one wrapper per string, in input order, each with its own string and host; the result equals `Wrapped` |
| IntermediaryUrls.WrappedAppend | src/main.rs:115 | wrapping two lists of strings and appending the results is the same as wrapping their concatenation, so `results` is always the wrapping of everything gathered so far |
| Pagination.FirstEmptyPage | src/main.rs:110-123 | the index where the loop stops: that page is empty and every page before it is non-empty, so it is the first empty page |
| Pagination.RoundsAlternate | src/main.rs:111-122 | k rounds of search-then-sleep followed by the final search form a trace of 2k+1 events that alternates Search(0), Sleep, Search(1), ..., Sleep, Search(k) |
| Pagination.SearchTimeCountsSleeps | src/main.rs:113-119 | the time spent in k rounds is at least k cooldowns, one per sleep, and exactly k cooldowns when the searches take no time |
| Pagination.Collect | src/main.rs:109-123 | the loop stops with `page` at the first empty page k; `results` wraps exactly the concatenation of pages 0..k-1; the trace is k rounds of Search(p) and Sleep followed by Search(k), so there are k+1 searches with indices 0..k in order and one sleep after each non-empty page but none after the empty one; the clock has advanced by the k+1 searches' durations plus k cooldowns |
| HostCooldown.Wait | src/main.rs:129-137 | the sleep before a visit is zero for a host not in the ledger; for a known host it lasts until the later of now and last-finish + cooldown; it is zero when the cooldown is zero |
| HostCooldown.Step | src/main.rs:128-144 | one loop iteration keeps every ledger entry in the past and never moves the clock back |
| HostCooldown.StepRecordsHost | src/main.rs:144 | after an iteration the ledger gains only the visited host; that host's entry is the time the visit finished; every other entry is unchanged |
| HostCooldown.Run | src/main.rs:126-145 | after n iterations there is one visit per URL, no ledger entry lies in the future, and the clock stands at the last visit's finish time |
| HostCooldown.LedgerHoldsVisitedHosts | src/main.rs:126-144 | the ledger's key set after n iterations is exactly the set of hosts of the first n URLs |
| HostCooldown.LedgerRecordsLastVisit | src/main.rs:130-144 | a host is in the ledger exactly when one of the URLs visited so far has that host; its entry is the finish time of the last such visit |
| HostCooldown.RunPrefix | src/main.rs:128 | visits are made strictly in index order: the visits of a shorter run are a prefix of the visits of a longer one |
| HostCooldown.VisitAt | src/main.rs:128-144 | the i-th visit is of the i-th URL and its host; it arrives when the previous visit finished; it sleeps what `Wait` prescribes; its work starts after the sleep and lasts the i-th duration; its links are the resolver's answer for that URL |
| HostCooldown.WaitRule | src/main.rs:130-137 | a visit to a new host starts on arrival; any other visit starts at the later of its arrival and the finish of the last visit to the same host plus the cooldown; visits to other hosts play no part |
| HostCooldown.FinishesInOrder | src/main.rs:128-144 | time never goes back: each visit starts no earlier than it arrives and finishes no earlier than it starts, and later visits finish no earlier than earlier ones |
| HostCooldown.FirstVisitNoWait | src/main.rs:130 | the first visit to a host never waits and starts on arrival, whatever happened to other hosts before it |
| HostCooldown.CooldownRespected | src/main.rs:130-144 | if two visits share a host, the later one starts at least one cooldown after the time recorded for the earlier one, which is no earlier than its resolver's return |
| HostCooldown.ZeroCooldownNeverWaits | src/main.rs:132 | with a zero cooldown no visit ever waits, even for a repeated host |
| HostCooldown.CrawlVisits | src/main.rs:128-144 | over the whole crawl: one visit per URL, in URL order, under that URL's host; a host's first visit does not wait; every pair of same-host visits is at least one cooldown apart |
| HostCooldown.OutputInOrder | src/main.rs:140-142 | the links emitted so far are the resolver's answers for the URLs visited, concatenated in URL order, each in the order the resolver yields them |
| HostCooldown.Crawl | src/main.rs:125-145 | the loop ends in the state `Run` describes; the ledger's keys are the hosts of all results; the output is every URL's links in order; one visit per result, in order, under its host; a host's first visit does not wait; same-host visits are at least one cooldown apart |
| GleamFinder.FindLinks | src/main.rs:105-145 | a whole run, with k the first empty page: the search trace is k rounds of search and sleep plus the final search; the visits are exactly those of `Run` on the wrapped results of pages 0..k-1, started when the search phase ended, so every `HostCooldown` lemma applies to them; the i-th visit is of the i-th result under its parsed host; a host's first visit does not wait; same-host visits are at least one cooldown apart; the output is the resolver's answers for those results, in order |
| Scenarios.ScenarioSearch | src/main.rs:110-123 | for the pages [a.test/1, b.test/2], [a.test/3] followed by an empty page, paging stops at page 2 with the three results in order |
| Scenarios.ScenarioResults | src/main.rs:28-47 | wrapping those results gives the hosts a.test, b.test and a.test |
| Scenarios.ScenarioCrawl | src/main.rs:128-144 | crawling the wrapped results with cooldown 6 and 1-second visits from time 12: a.test/1 and b.test/2 do not wait; a.test/3 waits the remaining 5 seconds and starts at 19 |
| Scenarios.ScenarioResolved | src/main.rs:140-142 | the resolver's answers for the three results, concatenated in order, are x then y |
| Scenarios.ScenarioOutput | src/main.rs:140-142 | that crawl prints x, then y |

## Left out

- Command-line parsing (src/main.rs:60-103) is not modelled: the clap definitions, the `min_values`/`max_values` bounds and the fallback to 6 on a bad number. The cooldown is a parameter.
- The `force-cooldown` flag (src/main.rs:71-75) is declared but never read, so no behaviour is attached to it.
- `MINREQ_TIMEOUT` (src/main.rs:103) is left out. It is an environment setting read by the HTTP library, and this file does nothing else with it.
- Progress bars and `println!` are left out. Their only visible effect, printing each found link in order, is modelled as appending to an output sequence. Their running time counts as part of a visit's duration. The `+ 1` at src/main.rs:134 affects only the displayed number of seconds, not the sleep.
- `google::search` and `intermediary::resolve` are not part of this model. Search is a finite sequence of pages with a duration per search. The resolver is a function of the URL. Network failures and retries inside them are not modelled.
- A search engine that never returns an empty page is outside the model, because the page sequence is finite. In the source, the loop at src/main.rs:111-123 would then never end.
- `Url::parse` and `Url::host` are folded into one given function from a string to an optional host. Two `unwrap`s can panic in the source:
  - the one at src/main.rs:46 panics during collection on a string that `Url::parse` rejects;
  - the one at src/main.rs:51 panics on a URL that parses but has no host, such as `mailto:a@b.c`. Such a URL gets through collection. It panics only when the crawl reaches it at src/main.rs:130, after the links of every earlier result have been printed.
  Every operation instead requires that each string parses and has a host (`AllHaveHosts`, `ResultsHaveHosts`), so both panics, including the late one, are excluded rather than modelled.
- The clock is modelled as whole seconds on an abstract `nat`. `Instant`, `Duration` with sub-second precision, and `thread::sleep` oversleeping are not modelled.
  - The links are printed before `Instant::now()` is read at src/main.rs:144. So the recorded time is later than the resolver's return, and the next elapsed time is shorter. The model captures this by counting the printing in the visit's duration and recording the host at the visit's finish.
  - The time between recording a host and the next iteration's `Instant::now()` at src/main.rs:131 is not modelled. Neither is the time between the sleep and the resolver call (the print at src/main.rs:139). In the source, both can only move the resolver call later than the model's `start`. The lower bound stated by `CooldownRespected` still holds for the source, because the wait is computed from the real clock.
- The page counter and the cooldown are unbounded here. The source's `u64` cooldown and `usize` page counter never overflow in practice.
- IntermediaryUrls.IntermediaryUrl.Init: the in-place update of `self.domain` is modelled as returning the updated value. The struct is owned by value inside a `Vec`, so no alias can observe the difference.
- The unused `Record` struct (src/main.rs:14-20) is not modelled.
