/** Following an OPTIMADE service's pages: the first-page retry and the continuation loop. */
module RemotePaging {
  import opened Common
  import opened Slices

  type Item = int

  /** A link as it is spelled: the scheme, the authority and the path with query and fragment. Two
      spellings of one address are two links. */
  datatype Url = Url(scheme: string, authority: string, rest: string)

  /** The host that an authority names, casefolded, and the port it gives. */
  datatype Authorities = Authorities(host: string -> string, port: string -> Option<nat>)

  function Lower(s: string): string {
    seq(|s|, i requires 0 <= i < |s| => if 'A' <= s[i] <= 'Z' then (s[i] as int + 32) as char else s[i])
  }

  function EffectivePort(a: Authorities, u: Url): Option<nat> {
    if a.port(u.authority).Some? then a.port(u.authority)
    else if Lower(u.scheme) == "https" then Some(443)
    else if Lower(u.scheme) == "http" then Some(80)
    else None
  }

  predicate SameOrigin(a: Authorities, u: Url, v: Url) {
    && Lower(u.scheme) == Lower(v.scheme) && a.host(u.authority) == a.host(v.authority)
    && EffectivePort(a, u) == EffectivePort(a, v)
  }

  /** The link differs from the base only by http instead of https, default ports included. */
  predicate IsSchemeOnlyUpgrade(a: Authorities, link: Url, base: Url) {
    && Lower(link.scheme) == "http" && Lower(base.scheme) == "https" && a.host(link.authority) == a.host(base.authority)
    && var linkPort := if a.port(link.authority).Some? then a.port(link.authority).value else 80;
       var basePort := if a.port(base.authority).Some? then a.port(base.authority).value else 443;
       linkPort == basePort || (linkPort == 80 && basePort == 443)
  }

  function UpgradedToHttps(link: Url, base: Url): Url {
    Url("https", base.authority, link.rest)
  }

  /** One validated page; `next` is the continuation already resolved against the page's own URL. */
  datatype Page = Page(items: seq<Item>, next: Option<Url>, more: bool)

  /** What the service answers to a page-size-limited first request: a page, a 403 whose detail names
      some numbers, or any other failure. */
  datatype FirstReply = Accepted(text: string) | Forbidden(numbers: seq<nat>) | Failed

  /** Any service: its first replies by page size, its replies by URL, and how a text read from a URL parses. */
  datatype Service = Service(first: int -> FirstReply, firstUrl: int -> Url,
                             get: Url -> Option<string>, parse: (string, Url) -> Option<Page>)

  // ---------------------------------------------------------- first-page retry

  /** The largest number below the refused size that the message names, or half the refused size. */
  function ReducedPageLimit(numbers: seq<nat>, current: int): (r: int)
    ensures current > 1 ==> 1 <= r < current
    ensures forall n :: n in numbers && 1 <= n < current ==> n <= r
    ensures if exists n :: n in numbers && 1 <= n < current then r in numbers else r == Max(1, current / 2)
  {
    var candidates := Candidates(numbers, current);
    if candidates == [] then
      NoCandidate(numbers, current);
      Max(1, current / 2)
    else Largest(numbers, current); Maximum(candidates)
  }

  function Candidates(numbers: seq<nat>, current: int): seq<nat> {
    if numbers == [] then []
    else
      var last := numbers[|numbers| - 1];
      Candidates(numbers[..|numbers| - 1], current) + (if 1 <= last < current then [last] else [])
  }

  function Maximum(s: seq<nat>): (m: nat)
    requires s != []
    ensures m in s && forall n :: n in s ==> n <= m
  {
    if |s| == 1 then s[0]
    else
      var m := Maximum(s[1..]);
      assert forall n :: n in s ==> n == s[0] || n in s[1..];
      if s[0] > m then s[0] else m
  }

  lemma {:induction false} CandidatesAre(numbers: seq<nat>, current: int, n: nat)
    ensures n in Candidates(numbers, current) <==> n in numbers && 1 <= n < current
  {
    if numbers != [] {
      CandidatesAre(numbers[..|numbers| - 1], current, n);
      assert numbers == numbers[..|numbers| - 1] + [numbers[|numbers| - 1]];
    }
  }

  lemma NoCandidate(numbers: seq<nat>, current: int)
    requires Candidates(numbers, current) == []
    ensures forall n :: n in numbers ==> !(1 <= n < current)
  {
    forall n | n in numbers ensures !(1 <= n < current) {
      CandidatesAre(numbers, current, n);
    }
  }

  lemma Largest(numbers: seq<nat>, current: int)
    requires Candidates(numbers, current) != []
    ensures var m := Maximum(Candidates(numbers, current));
            m in numbers && 1 <= m < current && forall n :: n in numbers && 1 <= n < current ==> n <= m
  {
    CandidatesAre(numbers, current, Maximum(Candidates(numbers, current)));
    forall n | n in numbers && 1 <= n < current ensures n <= Maximum(Candidates(numbers, current)) {
      CandidatesAre(numbers, current, n);
    }
  }

  /** The page size at which retrying ends: each refusal of more than one item leads to a smaller size. */
  function FinalSize(service: Service, size: int): (r: int)
    ensures r <= size && (size >= 1 ==> r >= 1)
    ensures service.first(r).Forbidden? ==> r <= 1
    decreases size
  {
    if service.first(size).Forbidden? && size > 1 then
      FinalSize(service, ReducedPageLimit(service.first(size).numbers, size))
    else size
  }

  /** The size that follows a refused one: the largest smaller number the refusal names, else half of it. */
  predicate FollowsRefusal(numbers: seq<nat>, refused: int, next: int) {
    if exists n :: n in numbers && 1 <= n < refused
    then next in numbers && 1 <= next < refused && forall n :: n in numbers && n < refused ==> n <= next
    else next == if refused / 2 >= 1 then refused / 2 else 1
  }

  /** The sizes that are tried, each after the refusal of the one before, up to one that is not refused or is a
      single item. */
  ghost predicate Tries(service: Service, sizes: seq<int>) {
    && sizes != []
    && (forall i :: 0 <= i < |sizes| - 1 ==>
          sizes[i] > 1 && service.first(sizes[i]).Forbidden?
          && FollowsRefusal(service.first(sizes[i]).numbers, sizes[i], sizes[i + 1]))
    && (service.first(sizes[|sizes| - 1]).Forbidden? ==> sizes[|sizes| - 1] <= 1)
  }

  /** The size at which retrying ends is the last of the sizes that are tried, and no other sizes can be. */
  lemma {:induction false} FinalSizeIsTried(service: Service, size: int) returns (sizes: seq<int>)
    ensures Tries(service, sizes) && sizes[0] == size && sizes[|sizes| - 1] == FinalSize(service, size)
    decreases size
  {
    sizes := [size];
    if service.first(size).Forbidden? && size > 1 {
      var next := ReducedPageLimit(service.first(size).numbers, size);
      var rest := FinalSizeIsTried(service, next);
      sizes := [size] + rest;
      assert forall i :: 0 < i < |sizes| ==> sizes[i] == rest[i - 1];
    }
  }

  lemma {:induction false} TriesAreUnique(service: Service, a: seq<int>, b: seq<int>, n: nat)
    requires Tries(service, a) && Tries(service, b) && a[0] == b[0] && n < |a|
    ensures n < |b| && a[n] == b[n]
  {
    if n > 0 {
      TriesAreUnique(service, a, b, n - 1);
      assert service.first(a[n - 1]).Forbidden? && a[n - 1] > 1 && n - 1 < |b| - 1;
    }
  }

  datatype PagingError = HttpFailure | NotAbsolute | CrossOrigin | Cycle | TooManyPages | BadResponse | NoUsableNext

  /** The settings of a store and the page size it has learned. */
  class RemoteStore {
    const base: Url
    const authorities: Authorities
    const maxPages: nat
    const tolerateDeviations: bool
    const allowCrossOrigin: bool
    var pageLimit: int

    constructor (base: Url, authorities: Authorities, maxPages: nat, tolerateDeviations: bool, allowCrossOrigin: bool,
                 pageLimit: int)
      ensures this.base == base && this.authorities == authorities
      ensures this.maxPages == maxPages && this.pageLimit == pageLimit
      ensures this.tolerateDeviations == tolerateDeviations && this.allowCrossOrigin == allowCrossOrigin
    {
      this.base, this.authorities, this.maxPages, this.pageLimit := base, authorities, maxPages, pageLimit;
      this.tolerateDeviations, this.allowCrossOrigin := tolerateDeviations, allowCrossOrigin;
    }

    /** Retries the first page at smaller sizes for as long as the service answers 403. It always ends,
        never asks for less than one item, and never raises the learned page size. */
    method GetPage(service: Service, pageLimit: int) returns (r: Result<(string, Url), PagingError>, used: int)
      modifies this`pageLimit
      ensures used == FinalSize(service, pageLimit) && (r.Ok? <==> service.first(used).Accepted?)
      ensures r.Ok? ==> service.first(used) == Accepted(r.value.0) && r.value.1 == service.firstUrl(used)
      ensures r.Ok? ==>
        this.pageLimit == if used < pageLimit then Min(old(this.pageLimit), used) else old(this.pageLimit)
      ensures r.Err? ==> this.pageLimit == old(this.pageLimit) && r.error == HttpFailure
      ensures this.pageLimit <= old(this.pageLimit)
    {
      used := pageLimit;
      var reduced := false;
      while true
        invariant used <= pageLimit && FinalSize(service, used) == FinalSize(service, pageLimit)
        invariant reduced <==> used < pageLimit
        invariant this.pageLimit == old(this.pageLimit)
        decreases used
      {
        match service.first(used) {
          case Accepted(text) =>
            if reduced {
              this.pageLimit := Min(this.pageLimit, used);
            }
            return Ok((text, service.firstUrl(used))), used;
          case Failed =>
            return Err(HttpFailure), used;
          case Forbidden(numbers) =>
            if used <= 1 {
              return Err(HttpFailure), used;
            }
            used := ReducedPageLimit(numbers, used);
            reduced := true;
        }
      }
    }

    // --------------------------------------------------------- continuations

    /** Whether a link may be followed, and as which URL. */
    function Admit(link: Url): Result<Url, PagingError> {
      if (Lower(link.scheme) != "http" && Lower(link.scheme) != "https") || link.authority == "" then Err(NotAbsolute)
      else if SameOrigin(authorities, link, base) then Ok(link)
      else if tolerateDeviations && IsSchemeOnlyUpgrade(authorities, link, base) then Ok(UpgradedToHttps(link, base))
      else if !allowCrossOrigin then Err(CrossOrigin)
      else Ok(link)
    }

    /** A link is refused exactly when it is no web address, or leaves the base's origin without consent and is no
        tolerated upgrade. What is admitted is the link as it is spelled; an upgraded one alone takes the base's
        authority over https, and keeps its own path, query and fragment. */
    lemma AdmittedIsSpelled(link: Url)
      ensures Admit(link).Err? <==>
              || !(Lower(link.scheme) in {"http", "https"}) || link.authority == ""
              || (!SameOrigin(authorities, link, base) && !allowCrossOrigin
                  && !(tolerateDeviations && IsSchemeOnlyUpgrade(authorities, link, base)))
      ensures Admit(link).Ok? && Admit(link).value != link ==>
              tolerateDeviations && IsSchemeOnlyUpgrade(authorities, link, base)
              && Admit(link).value.scheme == "https" && Admit(link).value.authority == base.authority
              && Admit(link).value.rest == link.rest
      ensures Admit(link).Ok? && tolerateDeviations && IsSchemeOnlyUpgrade(authorities, link, base) ==>
              Admit(link).value.scheme == "https"
    {
      assert Lower("http") == "http";
    }

    /** Without consent to cross origins, whatever is followed stays at the base's origin. */
    lemma AdmittedStaysHome(link: Url)
      requires !allowCrossOrigin && Admit(link).Ok?
      ensures SameOrigin(authorities, Admit(link).value, base)
    {
      assert Lower("https") == "https";
    }

    /** What has been consumed: `trail` lists the URLs in their order, `pages` what they held. No URL is
        consumed twice, no page beyond the bound or beyond the limit, and the items emitted are the page of
        the items consumed. */
    ghost predicate Consumed(service: Service, firstText: string, firstUrl: Url, offset: nat, limit: Option<nat>,
                             trail: seq<Url>, pages: seq<Page>, out: seq<Item>)
    {
      && |pages| == |trail| <= maxPages && Distinct(trail)
      && IsChain(service, firstText, firstUrl, trail, pages)
      && LastWasWanted(pages, offset, limit)
      && out == Slices.Page(Items(pages), offset, limit)
    }

    /** A whole walk over pages: it ends where the service says so, where the limit is reached, or with the
        error that keeps it from going on. */
    ghost predicate IsWalk(service: Service, firstText: string, firstUrl: Url, offset: nat, limit: Option<nat>,
                           trail: seq<Url>, pages: seq<Page>, out: seq<Item>, error: Option<PagingError>)
    {
      && Consumed(service, firstText, firstUrl, offset, limit, trail, pages, out)
      && var reached := limit.Some? && |out| >= limit.value;
         var ended := pages != [] && Ended(pages[|pages| - 1]);
         match error
         case None => pages != [] && (reached || ended)
         case Some(e) => !reached && !ended && Attempt(service, firstText, firstUrl, trail, pages) == Err(e)
    }

    /** Follows pages from the first one, emitting at most `limit` items after `offset`. */
    method Objects(service: Service, firstText: string, firstUrl: Url, offset: nat, limit: Option<nat>)
      returns (out: seq<Item>, error: Option<PagingError>)
      requires limit != Some(0)
      ensures exists trail, pages :: IsWalk(service, firstText, firstUrl, offset, limit, trail, pages, out, error)
    {
      out, error := [], None;
      ghost var trail: seq<Url>, pages: seq<Page> := [], [];
      var rawText := Some(firstText);
      var next := firstUrl;
      var seen: set<Url> := {};
      var consumed := 0;
      var skipped, emitted := 0, 0;
      while true
        invariant consumed == |trail| <= maxPages && seen == (set u <- trail)
        invariant Consumed(service, firstText, firstUrl, offset, limit, trail, pages, out) && emitted == |out|
        invariant AtTurn(firstText, firstUrl, pages, rawText, next)
        invariant skipped == Min(offset, |Items(pages)|)
        invariant limit.Some? ==> |out| < limit.value
        decreases maxPages - consumed
      {
        var r := NextPage(service, firstText, firstUrl, rawText, next, seen, consumed, trail, pages);
        if r.Err? {
          error := Some(r.error);
          StopsRefused(service, firstText, firstUrl, offset, limit, trail, pages, out, rawText, next, r.error);
          break;
        }
        var (url, page) := r.value;
        seen := seen + {url};
        ghost var before := out;
        skipped, out := Emit(page.items, Items(pages), offset, limit, skipped, out);
        PageConsumed(service, firstText, firstUrl, offset, limit, trail, pages, before, url, page, out);
        consumed := consumed + 1;
        trail, pages := trail + [url], pages + [page];
        emitted := |out|;
        if limit.Some? && emitted >= limit.value {
          StopsAtLimit(service, firstText, firstUrl, offset, limit, trail, pages, out);
          break;
        }
        if page.next.None? {
          error := if page.more then Some(NoUsableNext) else None;
          StopsAtEnd(service, firstText, firstUrl, offset, limit, trail, pages, out);
          break;
        }
        rawText := None;
        next := page.next.value;
      }
    }

    lemma StopsRefused(service: Service, firstText: string, firstUrl: Url, offset: nat, limit: Option<nat>,
                       trail: seq<Url>, pages: seq<Page>, out: seq<Item>, rawText: Option<string>, next: Url,
                       error: PagingError)
      requires Consumed(service, firstText, firstUrl, offset, limit, trail, pages, out)
      requires AtTurn(firstText, firstUrl, pages, rawText, next) && (limit.Some? ==> |out| < limit.value)
      requires Attempt(service, firstText, firstUrl, trail, pages) == Err(error)
      ensures IsWalk(service, firstText, firstUrl, offset, limit, trail, pages, out, Some(error))
    {
    }

    lemma StopsAtLimit(service: Service, firstText: string, firstUrl: Url, offset: nat, limit: Option<nat>,
                       trail: seq<Url>, pages: seq<Page>, out: seq<Item>)
      requires Consumed(service, firstText, firstUrl, offset, limit, trail, pages, out)
      requires pages != [] && limit.Some? && |out| >= limit.value
      ensures IsWalk(service, firstText, firstUrl, offset, limit, trail, pages, out, None)
    {
    }

    lemma StopsAtEnd(service: Service, firstText: string, firstUrl: Url, offset: nat, limit: Option<nat>,
                     trail: seq<Url>, pages: seq<Page>, out: seq<Item>)
      requires Consumed(service, firstText, firstUrl, offset, limit, trail, pages, out)
      requires pages != [] && pages[|pages| - 1].next.None? && (limit.Some? ==> |out| < limit.value)
      ensures IsWalk(service, firstText, firstUrl, offset, limit, trail, pages, out,
                     if pages[|pages| - 1].more then Some(NoUsableNext) else None)
    {
    }

    /** One more page consumed, with its items emitted. */
    lemma PageConsumed(service: Service, firstText: string, firstUrl: Url, offset: nat, limit: Option<nat>,
                       trail: seq<Url>, pages: seq<Page>, out: seq<Item>, url: Url, page: Page, more: seq<Item>)
      requires Consumed(service, firstText, firstUrl, offset, limit, trail, pages, out)
      requires limit.Some? ==> |out| < limit.value
      requires |trail| < maxPages && Distinct(trail + [url])
      requires IsChain(service, firstText, firstUrl, trail + [url], pages + [page])
      requires more == Slices.Page(Items(pages) + page.items, offset, limit)
      ensures Consumed(service, firstText, firstUrl, offset, limit, trail + [url], pages + [page], more)
      ensures Items(pages + [page]) == Items(pages) + page.items
    {
      ItemsStep(pages, page);
      WantedStep(pages, page, offset, limit);
    }

    /** One more turn: admits the link, refuses a URL already consumed or a page too many, fetches. */
    method NextPage(service: Service, ghost firstText: string, ghost firstUrl: Url, rawText: Option<string>, next: Url,
                    seen: set<Url>, consumed: nat, ghost trail: seq<Url>, ghost pages: seq<Page>)
      returns (r: Result<(Url, Page), PagingError>)
      requires IsChain(service, firstText, firstUrl, trail, pages) && Distinct(trail)
      requires consumed == |trail| && seen == (set u <- trail) && AtTurn(firstText, firstUrl, pages, rawText, next)
      ensures r.Err? ==> Attempt(service, firstText, firstUrl, trail, pages) == Err(r.error)
      ensures r.Ok? ==>
                && |trail| < maxPages && Distinct(trail + [r.value.0])
                && IsChain(service, firstText, firstUrl, trail + [r.value.0], pages + [r.value.1])
    {
      var admitted := Admit(next);
      if admitted.Err? {
        return Err(admitted.error);
      }
      var url := admitted.value;
      if url in seen {
        return Err(Cycle);
      }
      if consumed >= maxPages {
        return Err(TooManyPages);
      }
      var fetched := Fetch(service, rawText, url);
      if fetched.Err? {
        return Err(fetched.error);
      }
      ChainExtends(service, firstText, firstUrl, trail, pages, url, fetched.value);
      r := Ok((url, fetched.value));
    }

    /** What the loop holds between turns: the first response, or the link of the last page. */
    predicate AtTurn(firstText: string, firstUrl: Url, pages: seq<Page>, rawText: Option<string>, next: Url) {
      if pages == [] then rawText == Some(firstText) && next == firstUrl
      else rawText == None && pages[|pages| - 1].next == Some(next)
    }

    /** What one more turn of the loop comes to: the next page, or why there is none. */
    function Attempt(service: Service, firstText: string, firstUrl: Url, trail: seq<Url>, pages: seq<Page>)
      : Result<Page, PagingError>
      requires |trail| == |pages|
    {
      if pages != [] && pages[|pages| - 1].next.None? then Err(NoUsableNext)
      else
        var admitted := Admit(if pages == [] then firstUrl else pages[|pages| - 1].next.value);
        if admitted.Err? then Err(admitted.error)
        else if admitted.value in trail then Err(Cycle)
        else if |trail| >= maxPages then Err(TooManyPages)
        else Fetched(service, if pages == [] then Some(firstText) else None, admitted.value)
    }

    function Fetched(service: Service, atHand: Option<string>, url: Url): Result<Page, PagingError> {
      var text := if atHand.Some? then atHand else service.get(url);
      if text.None? then Err(HttpFailure)
      else if service.parse(text.value, url).None? then Err(BadResponse)
      else Ok(service.parse(text.value, url).value)
    }

    /** The page behind a URL: the first response is already at hand, later ones are requested. */
    method Fetch(service: Service, atHand: Option<string>, url: Url) returns (r: Result<Page, PagingError>)
      ensures r == Fetched(service, atHand, url)
    {
      var rawText := atHand;
      if rawText.None? {
        rawText := service.get(url);
        if rawText.None? {
          return Err(HttpFailure);
        }
      }
      var parsed := service.parse(rawText.value, url);
      r := if parsed.None? then Err(BadResponse) else Ok(parsed.value);
    }

    predicate Distinct(trail: seq<Url>) {
      forall i, j | 0 <= i < j < |trail| :: trail[i] != trail[j]
    }

    /** The trail starts at the first URL and each later page is what the admitted link returned. */
    ghost predicate IsChain(service: Service, firstText: string, firstUrl: Url, trail: seq<Url>, pages: seq<Page>) {
      && |trail| == |pages|
      && (trail != [] ==> Admit(firstUrl) == Ok(trail[0]) && service.parse(firstText, trail[0]) == Some(pages[0]))
      && forall i :: 0 < i < |trail| ==> ChainLink(service, pages[i - 1], trail[i], pages[i])
    }

    predicate ChainLink(service: Service, prior: Page, url: Url, page: Page) {
      && prior.next.Some? && Admit(prior.next.value) == Ok(url)
      && service.get(url).Some? && service.parse(service.get(url).value, url) == Some(page)
    }

    /** Chains over one service agree as far as both reach. */
    lemma {:induction false} ChainsAgree(service: Service, firstText: string, firstUrl: Url, trail: seq<Url>,
                                         pages: seq<Page>, trail': seq<Url>, pages': seq<Page>, k: nat)
      requires IsChain(service, firstText, firstUrl, trail, pages)
      requires IsChain(service, firstText, firstUrl, trail', pages')
      requires k <= |trail| && k <= |trail'|
      ensures trail[..k] == trail'[..k] && pages[..k] == pages'[..k]
    {
      if k > 0 {
        ChainsAgree(service, firstText, firstUrl, trail, pages, trail', pages', k - 1);
        if k > 1 {
          assert pages[..k - 1][k - 2] == pages'[..k - 1][k - 2];
          assert ChainLink(service, pages[k - 2], trail[k - 1], pages[k - 1]);
          assert ChainLink(service, pages'[k - 2], trail'[k - 1], pages'[k - 1]);
        }
        assert trail[..k] == trail[..k - 1] + [trail[k - 1]] && trail'[..k] == trail'[..k - 1] + [trail'[k - 1]];
        assert pages[..k] == pages[..k - 1] + [pages[k - 1]] && pages'[..k] == pages'[..k - 1] + [pages'[k - 1]];
      }
    }

    /** A walk never stops where a longer one goes on. */
    lemma WalksStopTogether(service: Service, firstText: string, firstUrl: Url, offset: nat, limit: Option<nat>,
                            trail: seq<Url>, pages: seq<Page>, out: seq<Item>, error: Option<PagingError>,
                            trail': seq<Url>, pages': seq<Page>, out': seq<Item>, error': Option<PagingError>)
      requires IsWalk(service, firstText, firstUrl, offset, limit, trail, pages, out, error)
      requires IsWalk(service, firstText, firstUrl, offset, limit, trail', pages', out', error')
      ensures |trail| >= |trail'|
    {
      var n := |trail|;
      if n < |trail'| {
        ChainsAgree(service, firstText, firstUrl, trail, pages, trail', pages', n);
        assert pages'[..n] == pages && trail'[..n] == trail;
        GoesOn(service, firstText, firstUrl, trail', pages', n);
        EarlierWasWanted(pages', n, offset, limit);
        assert false;
      }
    }

    /** Where a chain goes on, one more turn has a next page. */
    lemma GoesOn(service: Service, firstText: string, firstUrl: Url, trail: seq<Url>, pages: seq<Page>, n: nat)
      requires IsChain(service, firstText, firstUrl, trail, pages) && Distinct(trail) && n < |trail| <= maxPages
      ensures Attempt(service, firstText, firstUrl, trail[..n], pages[..n]).Ok?
      ensures n > 0 ==> pages[n - 1].next.Some?
    {
      if n > 0 {
        assert ChainLink(service, pages[n - 1], trail[n], pages[n]);
      }
      assert trail[n] !in trail[..n];
    }

    /** The service and the settings decide the walk: its pages, what it emits and how it ends. */
    lemma WalkIsUnique(service: Service, firstText: string, firstUrl: Url, offset: nat, limit: Option<nat>,
                       trail: seq<Url>, pages: seq<Page>, out: seq<Item>, error: Option<PagingError>,
                       trail': seq<Url>, pages': seq<Page>, out': seq<Item>, error': Option<PagingError>)
      requires IsWalk(service, firstText, firstUrl, offset, limit, trail, pages, out, error)
      requires IsWalk(service, firstText, firstUrl, offset, limit, trail', pages', out', error')
      ensures trail == trail' && pages == pages' && out == out' && error == error'
    {
      WalksStopTogether(service, firstText, firstUrl, offset, limit, trail, pages, out, error,
                        trail', pages', out', error');
      WalksStopTogether(service, firstText, firstUrl, offset, limit, trail', pages', out', error',
                        trail, pages, out, error);
      ChainsAgree(service, firstText, firstUrl, trail, pages, trail', pages', |trail|);
      assert trail[..|trail|] == trail && trail'[..|trail|] == trail';
      assert pages[..|trail|] == pages && pages'[..|trail|] == pages';
    }

    /** A service that answers every URL with one text, whose relative link leads one level deeper: every
        URL is new, and only the page bound ends the walk. */
    lemma OneTextManyPages(text: string, firstUrl: Url, offset: nat, limit: Option<nat>)
      requires Admit(firstUrl) == Ok(firstUrl) && limit != Some(0)
      ensures var (trail, pages) := (DeeperUrls(firstUrl, maxPages), DeeperPages(firstUrl, maxPages));
              IsWalk(Deepening(text), text, firstUrl, offset, limit, trail, pages, [], Some(TooManyPages))
    {
      var trail, pages := DeeperUrls(firstUrl, maxPages), DeeperPages(firstUrl, maxPages);
      DeeperChain(text, firstUrl);
      DeeperUrlsDiffer(firstUrl, maxPages);
      SameAuthorityAdmitted(firstUrl, Deeper(firstUrl, maxPages));
      NoItems(firstUrl, maxPages);
      if maxPages > 0 {
        NoItems(firstUrl, maxPages - 1);
        assert pages[..maxPages - 1] == DeeperPages(firstUrl, maxPages - 1);
      } else {
        DeeperStill(firstUrl, 0);
      }
    }

    lemma DeeperChain(text: string, firstUrl: Url)
      requires Admit(firstUrl) == Ok(firstUrl)
      ensures IsChain(Deepening(text), text, firstUrl, DeeperUrls(firstUrl, maxPages), DeeperPages(firstUrl, maxPages))
    {
      var service, trail, pages := Deepening(text), DeeperUrls(firstUrl, maxPages), DeeperPages(firstUrl, maxPages);
      forall i | 0 <= i < maxPages
        ensures service.parse(text, trail[i]) == Some(pages[i]) && Admit(trail[i]) == Ok(trail[i])
      {
        DeeperStill(firstUrl, i);
        SameAuthorityAdmitted(firstUrl, trail[i]);
      }
      DeeperStill(firstUrl, 0);
    }

    lemma SameAuthorityAdmitted(u: Url, v: Url)
      requires Admit(u) == Ok(u) && v.scheme == u.scheme && v.authority == u.authority
      ensures Admit(v) == Ok(v)
    {
      assert Lower("https") == "https";
    }

    lemma ChainExtends(service: Service, firstText: string, firstUrl: Url, trail: seq<Url>, pages: seq<Page>,
                       url: Url, page: Page)
      requires IsChain(service, firstText, firstUrl, trail, pages)
      requires if trail == [] then Admit(firstUrl) == Ok(url) && service.parse(firstText, url) == Some(page)
               else ChainLink(service, pages[|pages| - 1], url, page)
      requires Distinct(trail) && url !in trail
      ensures IsChain(service, firstText, firstUrl, trail + [url], pages + [page]) && Distinct(trail + [url])
    {
    }
  }

  function Deeper(u: Url, k: nat): Url { u.(rest := u.rest + seq(2 * k, i => if i % 2 == 0 then 'x' else '/')) }

  function Deepening(text: string): Service {
    Service((size: int) => Accepted(text), (size: int) => Url("", "", ""), (u: Url) => Some(text),
            (t: string, u: Url) => Some(Page([], Some(Deeper(u, 1)), true)))
  }

  function DeeperUrls(u: Url, n: nat): seq<Url> { seq(n, i requires 0 <= i < n => Deeper(u, i)) }

  function DeeperPages(u: Url, n: nat): seq<Page> {
    seq(n, i requires 0 <= i < n => Page([], Some(Deeper(u, i + 1)), true))
  }

  lemma DeeperStill(u: Url, k: nat)
    ensures Deeper(Deeper(u, k), 1) == Deeper(u, k + 1) && Deeper(u, 0) == u
  {
  }

  lemma DeeperUrlsDiffer(u: Url, n: nat)
    ensures forall i, j | 0 <= i < j < n :: DeeperUrls(u, n)[i] != DeeperUrls(u, n)[j]
    ensures Deeper(u, n) !in DeeperUrls(u, n)
  {
    assert forall i, j | 0 <= i < j <= n :: |Deeper(u, i).rest| < |Deeper(u, j).rest|;
  }

  lemma {:induction false} NoItems(u: Url, n: nat)
    ensures Items(DeeperPages(u, n)) == []
  {
    if n > 0 {
      NoItems(u, n - 1);
      assert DeeperPages(u, n)[..n - 1] == DeeperPages(u, n - 1);
    }
  }

  /** The last page says there is nothing more. */
  predicate Ended(p: Page) { p.next.None? && !p.more }

  function Items(pages: seq<Page>): seq<Item> {
    if pages == [] then [] else Items(pages[..|pages| - 1]) + pages[|pages| - 1].items
  }

  /** No page is consumed once the limit is reached. */
  predicate LastWasWanted(pages: seq<Page>, offset: nat, limit: Option<nat>) {
    limit.Some? && pages != [] ==> |Slices.Page(Items(pages[..|pages| - 1]), offset, limit)| < limit.value
  }

  /** Nor was the limit reached before any earlier page. */
  lemma EarlierWasWanted(pages: seq<Page>, n: nat, offset: nat, limit: Option<nat>)
    requires LastWasWanted(pages, offset, limit) && n < |pages|
    ensures limit.Some? ==> |Slices.Page(Items(pages[..n]), offset, limit)| < limit.value
  {
    if limit.Some? {
      var last := pages[..|pages| - 1];
      assert last == pages[..n] + last[n..];
      ItemsOfSum(pages[..n], last[n..]);
      PageGrows(Items(pages[..n]), Items(last[n..]), offset, limit.value);
    }
  }

  lemma WantedStep(pages: seq<Page>, page: Page, offset: nat, limit: Option<nat>)
    requires limit.Some? ==> |Slices.Page(Items(pages), offset, limit)| < limit.value
    ensures LastWasWanted(pages + [page], offset, limit)
  {
    assert (pages + [page])[..|pages|] == pages;
  }

  lemma PageGrows(items: seq<Item>, more: seq<Item>, offset: nat, limit: nat)
    ensures |Slices.Page(items, offset, Some(limit))| <= |Slices.Page(items + more, offset, Some(limit))|
  {
  }

  lemma ItemsStep(pages: seq<Page>, page: Page)
    ensures Items(pages + [page]) == Items(pages) + page.items
  {
    assert (pages + [page])[..|pages|] == pages;
  }

  /** Emits one page's items after `before`, up to the limit. */
  method Emit(items: seq<Item>, ghost before: seq<Item>, offset: nat, limit: Option<nat>,
              skippedBefore: nat, outBefore: seq<Item>) returns (skipped: nat, out: seq<Item>)
    requires skippedBefore == Min(offset, |before|) && outBefore == Slices.Page(before, offset, limit)
    requires limit.Some? ==> |outBefore| < limit.value
    ensures out == Slices.Page(before + items, offset, limit)
    ensures limit.None? || |out| < limit.value ==> skipped == Min(offset, |before + items|)
  {
    skipped, out := skippedBefore, outBefore;
    assert before + items[..0] == before;
    var i := 0;
    while i < |items|
      invariant 0 <= i <= |items|
      invariant skipped == Min(offset, |before| + i)
      invariant out == Slices.Page(before + items[..i], offset, limit)
      invariant limit.Some? ==> |out| < limit.value
    {
      CutAt(before, items, i);
      PageExtends(before + items[..i], items[i], offset, limit);
      i := i + 1;
      if skipped < offset {
        skipped := skipped + 1;
      } else {
        out := out + [items[i - 1]];
        if limit.Some? && |out| >= limit.value {
          CutAt(before, items, i - 1);
          FullPageIsStable(before + items[..i], items[i..], offset, limit.value);
          return;
        }
      }
    }
    assert items[..i] == items;
  }

  /** Had the service gone on, the emitted items would be the same: any longer chain of pages has the
      same page of items once the limit is reached. */
  lemma LimitReachedIsFinal(pages: seq<Page>, more: seq<Page>, offset: nat, limit: nat)
    requires |Slices.Page(Items(pages), offset, Some(limit))| == limit > 0
    ensures Slices.Page(Items(pages + more), offset, Some(limit)) == Slices.Page(Items(pages), offset, Some(limit))
  {
    ItemsOfSum(pages, more);
    FullPageIsStable(Items(pages), Items(more), offset, limit);
  }

  lemma {:induction false} ItemsOfSum(pages: seq<Page>, more: seq<Page>)
    ensures Items(pages + more) == Items(pages) + Items(more)
  {
    if more == [] {
      assert pages + more == pages;
    } else {
      var init, last := more[..|more| - 1], more[|more| - 1];
      ItemsOfSum(pages, init);
      SplitLast(more);
      Regroup(pages, init, last);
      ItemsStep(pages + init, last);
      ItemsStep(init, last);
    }
  }

  /** The size of the first request: no larger than the store's own limit, no larger than what the
      slice can use, and at least one. */
  function RequestPageLimit(storeLimit: int, override: Option<int>, limit: Option<nat>, offset: nat): (r: int)
    ensures storeLimit >= 1 && (override.Some? ==> override.value >= 1) ==> 1 <= r <= storeLimit
    ensures limit.Some? ==> r >= 1
  {
    var size := if override.Some? then Min(storeLimit, override.value) else storeLimit;
    if limit.Some? then Max(1, Min(size, limit.value + offset)) else size
  }

  /** The first request asks for the least of what the store allows, what it is told, and what is wanted. */
  lemma RequestIsLeast(storeLimit: int, override: Option<int>, limit: Option<nat>, offset: nat)
    requires storeLimit >= 1 && (override.Some? ==> override.value >= 1)
    ensures var r := RequestPageLimit(storeLimit, override, limit, offset);
            && r <= storeLimit && (override.Some? ==> r <= override.value)
            && (limit.Some? && limit.value + offset >= 1 ==> r <= limit.value + offset)
            && (r == storeLimit || (override.Some? && r == override.value)
                || (limit.Some? && r == Max(1, limit.value + offset)))
  {
  }

  // ----------------------------------------------------------------- origins

  const CAPITALS := "ABCDEFGHIJKLMNOPQRSTUVWXYZ"
  const SMALLS := "abcdefghijklmnopqrstuvwxyz"

  /** Lowering turns capitals into their small letters and leaves everything else. */
  lemma LowersCapitals(s: string, i: nat)
    requires i < |s|
    ensures |Lower(s)| == |s| && (s[i] !in CAPITALS ==> Lower(s)[i] == s[i])
    ensures forall k :: 0 <= k < |CAPITALS| && s[i] == CAPITALS[k] ==> Lower(s)[i] == SMALLS[k]
  {
    forall k | 0 <= k < |CAPITALS| ensures CAPITALS[k] as int == 65 + k && SMALLS[k] as int == 97 + k {
      LettersInOrder(k);
    }
    if 'A' <= s[i] <= 'Z' {
      assert s[i] == CAPITALS[s[i] as int - 65];
    }
  }

  lemma LettersInOrder(k: nat)
    requires k < 26
    ensures CAPITALS[k] as int == 65 + k && SMALLS[k] as int == 97 + k
  {
  }

  /** The port a URL leads to: the one it names, or that of its scheme. */
  predicate LeadsToPort(a: Authorities, u: Url, port: nat) {
    || a.port(u.authority) == Some(port)
    || (a.port(u.authority).None? && Lower(u.scheme) == "https" && port == 443)
    || (a.port(u.authority).None? && Lower(u.scheme) == "http" && port == 80)
  }

  /** Web addresses are of one origin exactly when they share scheme, host and port, whatever their capitals, and
      a link is an upgrade's when it is the base's but for the scheme, with 80 standing in for 443. */
  lemma OriginsAreExact(a: Authorities, u: Url, v: Url, m: nat, n: nat)
    requires Lower(u.scheme) in {"http", "https"} && Lower(v.scheme) in {"http", "https"}
    requires LeadsToPort(a, u, m) && LeadsToPort(a, v, n)
    ensures SameOrigin(a, u, v) <==>
            Lower(u.scheme) == Lower(v.scheme) && a.host(u.authority) == a.host(v.authority) && m == n
    ensures IsSchemeOnlyUpgrade(a, u, v) <==>
            && Lower(u.scheme) == "http" && Lower(v.scheme) == "https" && a.host(u.authority) == a.host(v.authority)
            && (m == n || (m == 80 && n == 443))
  {
  }
}
