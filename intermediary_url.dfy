/**
 * A search result as the finder keeps it between the two phases of a run:
 * the raw URL string and, once initialised, its parsed form. The only part
 * of the parsed form the finder reads is its host, the key under which the
 * crawler tracks cooldowns, so the parsed form is represented by that host.
 */
module IntermediaryUrls {
  import opened Options

  /**
   * The URL library reduced to what the finder asks of it: the host of a
   * string once parsed. None stands for a string that `Url::parse` rejects or
   * whose parsed URL has no host; on such a string one of the finder's
   * `unwrap`s panics, so the operations below require that it does not occur.
   */
  type HostParser<H> = string -> Option<H>

  predicate HasHost<H>(parse: HostParser<H>, s: string)
  {
    parse(s).Some?
  }

  predicate AllHaveHosts<H>(parse: HostParser<H>, urls: seq<string>)
  {
    forall i :: 0 <= i < |urls| ==> HasHost(parse, urls[i])
  }

  datatype IntermediaryUrl<H> = IntermediaryUrl(url: string, domain: Option<H>)
  {
    /** The parsed form has been stored: `get_host` will not panic. */
    predicate Initialised()
    {
      domain.Some?
    }

    /**
     * `get_host`: the host of the parsed URL that `init` stored. Calling it on
     * a wrapper that was never initialised is the `unwrap` that panics, so it
     * requires an initialised wrapper.
     */
    function GetHost(): (h: H)
      requires Initialised()
      ensures domain == Some(h)
    {
      domain.value
    }

    /** `get_url`: the raw string the wrapper was built from, whether or not it was initialised. */
    function GetUrl(): (u: string)
      ensures u == url
    {
      url
    }

    /**
     * `init`: parse the stored string and keep the result, leaving the string
     * itself as it was.
     */
    function Init(parse: HostParser<H>): (r: IntermediaryUrl<H>)
      requires HasHost(parse, url)
      ensures r.Initialised()
      ensures r.GetUrl() == GetUrl()
      ensures r.GetHost() == parse(url).value
    {
      this.(domain := parse(url))
    }
  }

  /**
   * `new`: a wrapper for `url`, initialised at once, so that its raw string
   * is `url` and its host is the host parsed from `url`.
   */
  function New<H>(parse: HostParser<H>, url: string): (r: IntermediaryUrl<H>)
    requires HasHost(parse, url)
    ensures r.Initialised()
    ensures r.GetUrl() == url
    ensures r.GetHost() == parse(url).value
  {
    IntermediaryUrl(url, None).Init(parse)
  }

  predicate AllInitialised<H>(us: seq<IntermediaryUrl<H>>)
  {
    forall i :: 0 <= i < |us| ==> us[i].Initialised()
  }

  /** The raw strings of a list of wrappers, in order. */
  function UrlsOf<H>(us: seq<IntermediaryUrl<H>>): seq<string>
  {
    seq(|us|, i requires 0 <= i < |us| => us[i].GetUrl())
  }

  /** What `new_from_vec` returns: one wrapper per string, in the order of the strings. */
  function Wrapped<H>(parse: HostParser<H>, urls: seq<string>): (r: seq<IntermediaryUrl<H>>)
    requires AllHaveHosts(parse, urls)
    ensures |r| == |urls| && AllInitialised(r)
    ensures UrlsOf(r) == urls
    ensures forall i :: 0 <= i < |r| ==> r[i].GetHost() == parse(urls[i]).value
  {
    seq(|urls|, i requires 0 <= i < |urls| => New(parse, urls[i]))
  }

  /** Wrapping a concatenation wraps each part: what `results.append` relies on. */
  lemma WrappedAppend<H>(parse: HostParser<H>, a: seq<string>, b: seq<string>)
    requires AllHaveHosts(parse, a) && AllHaveHosts(parse, b)
    ensures AllHaveHosts(parse, a + b)
    ensures Wrapped(parse, a + b) == Wrapped(parse, a) + Wrapped(parse, b)
  {
    assert AllHaveHosts(parse, a + b) by {
      forall i | 0 <= i < |a + b| ensures HasHost(parse, (a + b)[i]) {
        if i < |a| { assert (a + b)[i] == a[i]; } else { assert (a + b)[i] == b[i - |a|]; }
      }
    }
    var w, wa, wb := Wrapped(parse, a + b), Wrapped(parse, a), Wrapped(parse, b);
    forall i | 0 <= i < |w| ensures w[i] == (wa + wb)[i] {
      if i < |a| { assert (a + b)[i] == a[i]; } else { assert (a + b)[i] == b[i - |a|]; }
    }
  }

  /**
   * `new_from_vec`: wraps the strings one by one, pushing each wrapper onto
   * the result; the result has one wrapper per string, in the same order,
   * each holding its string and that string's host.
   */
  method NewFromVec<H>(parse: HostParser<H>, urls: seq<string>) returns (result: seq<IntermediaryUrl<H>>)
    requires AllHaveHosts(parse, urls)
    ensures |result| == |urls|
    ensures forall i :: 0 <= i < |urls| ==>
      result[i].Initialised() && result[i].GetUrl() == urls[i] && result[i].GetHost() == parse(urls[i]).value
    ensures result == Wrapped(parse, urls)
  {
    result := [];
    for i := 0 to |urls|
      invariant |result| == i
      invariant forall j :: 0 <= j < i ==> result[j] == New(parse, urls[j])
    {
      result := result + [New(parse, urls[i])];
    }
  }
}
