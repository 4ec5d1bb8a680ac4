/**
 * The specification side of the crawl in extract_links.py: the link filter, what a fetched page
 * contributes, and the loop invariant of fetch_html_links with one lemma per kind of loop step.
 *
 * The network and the HTML parser are modelled by the web: a finite map from each URL that
 * answers with a success status to the href values of that page's <a href> tags, in document
 * order. Fetching a URL outside the map is requests raising RequestException (a connection
 * failure, or an error status reported by raise_for_status).
 */
module Crawl {
  import opened Strings
  import opened Urls

  type Web = map<string, seq<string>>

  /**
   * The filter a resolved link must pass (extract_links.py:30-32): its last five characters are
   * ".html", and its network location is the base URL's.
   */
  predicate SameSiteHtml(lib: UrlLib, baseUrl: string, url: string) {
    EndsWith(url, ".html") && lib.netloc(url) == lib.netloc(baseUrl)
  }

  /**
   * The hrefs of one page, each resolved against the base URL (not the page's own URL),
   * that pass the filter, in document order and with repetitions.
   */
  ghost function Candidates(lib: UrlLib, baseUrl: string, hrefs: seq<string>): (r: seq<string>)
    ensures |r| <= |hrefs|
  {
    if hrefs == [] then []
    else
      var last := lib.join(baseUrl, hrefs[|hrefs| - 1]);
      Candidates(lib, baseUrl, hrefs[..|hrefs| - 1]) + (if SameSiteHtml(lib, baseUrl, last) then [last] else [])
  }

  /** A URL is a candidate of a page exactly when some href of the page resolves to it and it passes the filter. */
  lemma {:induction false} CandidatesExactly(lib: UrlLib, baseUrl: string, hrefs: seq<string>, u: string)
    ensures u in Candidates(lib, baseUrl, hrefs)
        <==> SameSiteHtml(lib, baseUrl, u) && exists h :: h in hrefs && lib.join(baseUrl, h) == u
  {
    if hrefs != [] {
      var init := hrefs[..|hrefs| - 1];
      CandidatesExactly(lib, baseUrl, init, u);
      assert hrefs == init + [hrefs[|hrefs| - 1]];
      assert forall h :: h in hrefs <==> h in init || h == hrefs[|hrefs| - 1];
    }
  }

  /** What one successfully fetched page contributes: the URLs it lets into html_links. */
  ghost predicate Found(web: Web, lib: UrlLib, baseUrl: string, page: string, url: string) {
    page in web && url in Candidates(lib, baseUrl, web[page])
  }

  /** The number of hrefs on a page; zero for a page whose web failed. */
  ghost function HrefCount(web: Web, page: string): nat {
    if page in web then |web[page]| else 0
  }

  /**
   * Every collected link passed the filter and was found on a fetched page, the one foundOn
   * names for it.
   */
  ghost predicate LinksSound(web: Web, lib: UrlLib, baseUrl: string, links: set<string>,
                             fetched: seq<string>, foundOn: map<string, string>) {
    forall u :: u in links ==>
      SameSiteHtml(lib, baseUrl, u) && u in foundOn && foundOn[u] in fetched && Found(web, lib, baseUrl, foundOn[u], u)
  }

  /** Every qualifying link of every fetched page was collected. */
  ghost predicate LinksComplete(web: Web, lib: UrlLib, baseUrl: string, links: set<string>, fetched: seq<string>) {
    forall p, u :: p in fetched && Found(web, lib, baseUrl, p, u) ==> u in links
  }

  /**
   * The links the crawl appends to the queue while it fetches the given pages, in order: each
   * page that answers contributes its candidates that are not yet among the links found before
   * it (extract_links.py:26-35); a page whose request fails contributes nothing.
   */
  ghost function Discovered(web: Web, lib: UrlLib, baseUrl: string, pages: seq<string>): seq<string>
    decreases |pages|
  {
    if pages == [] then []
    else
      var before := Discovered(web, lib, baseUrl, pages[..|pages| - 1]);
      var page := pages[|pages| - 1];
      before + Contribution(web, lib, baseUrl, page, Elems(before))
  }

  /**
   * The state of fetch_html_links: the program's html_links, visited and to_visit, and the
   * ghost logs of the pages fetched, of every URL ever appended to the queue, of how many queue
   * entries were popped, and of the page each link was first found on.
   */
  datatype CrawlState = CrawlState(links: set<string>, visited: set<string>, toVisit: seq<string>,
                                   fetched: seq<string>, enqueued: seq<string>, popped: nat,
                                   foundOn: map<string, string>)

  /** The state before the first iteration (extract_links.py:9-11). */
  function Initial(baseUrl: string): CrawlState {
    CrawlState({}, {}, [baseUrl], [], [baseUrl], 0, map[])
  }

  /**
   * The queue part of the loop invariant of fetch_html_links: the queue is the base URL followed
   * by each link once; to_visit is its unpopped suffix; visited is the popped prefix, and the
   * fetched pages are that prefix without repetitions, in first-occurrence order.
   */
  ghost predicate QueueInv(baseUrl: string, s: CrawlState) {
    && |s.enqueued| == |s.links| + 1 && s.enqueued[0] == baseUrl
    && Elems(s.enqueued[1..]) == s.links
    && s.popped <= |s.enqueued| && s.toVisit == s.enqueued[s.popped..]
    && s.visited == Elems(s.enqueued[..s.popped])
    && s.fetched == Dedup(s.enqueued[..s.popped])
  }

  /**
   * The discovery part of the loop invariant: the queue after the base URL is exactly what the
   * fetched pages discovered, in order; every fetched page after the first was discovered by
   * the pages fetched before it; and the cap had not been reached when the last fetched page
   * was popped.
   */
  ghost predicate DiscoveryInv(web: Web, lib: UrlLib, baseUrl: string, maxPages: int, fetched: seq<string>, enqueued: seq<string>) {
    && |enqueued| >= 1 && enqueued[1..] == Discovered(web, lib, baseUrl, fetched)
    && ReachedInOrder(web, lib, baseUrl, fetched)
    && (fetched != [] ==> |Elems(Discovered(web, lib, baseUrl, fetched[..|fetched| - 1]))| < maxPages)
  }

  /**
   * Every fetched page after the first is a link discovered by the pages fetched before it,
   * stated page by page from the last one back.
   */
  ghost predicate ReachedInOrder(web: Web, lib: UrlLib, baseUrl: string, fetched: seq<string>)
    decreases |fetched|
  {
    |fetched| <= 1 ||
      var before := fetched[..|fetched| - 1];
      ReachedInOrder(web, lib, baseUrl, before) && fetched[|fetched| - 1] in Discovered(web, lib, baseUrl, before)
  }

  /** Fetching a page that earlier pages discovered keeps the fetched pages reached in order. */
  lemma ReachedSnoc(web: Web, lib: UrlLib, baseUrl: string, fetched: seq<string>, page: string)
    requires ReachedInOrder(web, lib, baseUrl, fetched)
    requires fetched != [] ==> page in Discovered(web, lib, baseUrl, fetched)
    ensures ReachedInOrder(web, lib, baseUrl, fetched + [page])
  {
    assert (fetched + [page])[..|fetched|] == fetched;
  }

  /** Reached in order means: each fetched page after the first is in what its predecessors discovered. */
  lemma {:induction false} ReachedAll(web: Web, lib: UrlLib, baseUrl: string, fetched: seq<string>)
    requires ReachedInOrder(web, lib, baseUrl, fetched)
    ensures forall k :: 0 < k < |fetched| ==> fetched[k] in Discovered(web, lib, baseUrl, fetched[..k])
    decreases |fetched|
  {
    if |fetched| > 1 {
      var n := |fetched| - 1;
      var before := fetched[..n];
      ReachedAll(web, lib, baseUrl, before);
      forall k | 0 < k < |fetched|
        ensures fetched[k] in Discovered(web, lib, baseUrl, fetched[..k])
      {
        if k < n {
          assert before[k] == fetched[k] && before[..k] == fetched[..k];
        }
      }
    }
  }

  /**
   * A page that only its own hrefs lead to is not reached: after a base URL without hrefs, the
   * self-linked "a.html" cannot be the second page fetched.
   */
  lemma SelfLinkedPageNotReached(lib: UrlLib)
    ensures !ReachedInOrder(map["base" := [], "a.html" := ["a.html"]], lib, "base", ["base", "a.html"])
  {
    var web: Web := map["base" := [], "a.html" := ["a.html"]];
    var fetched := ["base", "a.html"];
    assert fetched[..1] == ["base"] && ["base"][..0] == [];
    assert Candidates(lib, "base", web["base"]) == [];
    assert Discovered(web, lib, "base", ["base"]) == [];
  }

  /**
   * Once a page has been fetched, the URL at the head of the queue is not the base URL's first
   * entry: it lies in the part of the queue the fetched pages discovered.
   */
  lemma PoppedWasDiscovered(baseUrl: string, s: CrawlState)
    requires QueueInv(baseUrl, s)
    requires s.toVisit != []
    ensures s.fetched != [] ==> s.toVisit[0] in s.enqueued[1..]
  {
    if s.fetched != [] {
      assert s.toVisit[0] == s.enqueued[1..][s.popped - 1];
    }
  }

  /**
   * The loop invariant of fetch_html_links: the queue and discovery invariants; links sound and
   * complete for the fetched pages; and the counting facts.
   */
  ghost predicate CrawlInv(web: Web, lib: UrlLib, baseUrl: string, maxPages: int, s: CrawlState) {
    && QueueInv(baseUrl, s)
    && DiscoveryInv(web, lib, baseUrl, maxPages, s.fetched, s.enqueued)
    && LinksSound(web, lib, baseUrl, s.links, s.fetched, s.foundOn)
    && LinksComplete(web, lib, baseUrl, s.links, s.fetched)
    && CountInv(web, baseUrl, maxPages, s.links, s.fetched, s.popped)
  }

  /**
   * The counting part of the loop invariant: the cap is overshot at most by the last fetched
   * page's hrefs; nothing is collected before a page is fetched; a non-positive cap fetches
   * nothing; and the first fetched page is the base URL.
   */
  ghost predicate CountInv(web: Web, baseUrl: string, maxPages: int, links: set<string>, fetched: seq<string>, popped: nat) {
    && (fetched != [] ==> |links| < maxPages + HrefCount(web, fetched[|fetched| - 1]))
    && (fetched == [] ==> links == {})
    && (maxPages <= 0 ==> popped == 0)
    && (popped > 0 ==> fetched != [] && fetched[0] == baseUrl)
  }

  /** Fetching one more page below the cap keeps the counting invariant. */
  lemma CountVisit(web: Web, baseUrl: string, maxPages: int, links: set<string>, links': set<string>,
                   fetched: seq<string>, popped: nat, page: string)
    requires |links| < maxPages && |links'| <= |links| + HrefCount(web, page)
    requires (fetched + [page])[0] == baseUrl
    ensures CountInv(web, baseUrl, maxPages, links', fetched + [page], popped + 1)
  {
    assert (fetched + [page])[|fetched|] == page;
  }

  /**
   * Fetching one more page below the cap appends exactly what it discovers to the queue, which
   * keeps the discovery invariant.
   */
  lemma DiscoverStep(web: Web, lib: UrlLib, baseUrl: string, maxPages: int, links: set<string>,
                     fetched: seq<string>, enqueued: seq<string>, page: string, added: seq<string>)
    requires |enqueued| >= 1 && enqueued[1..] == Discovered(web, lib, baseUrl, fetched)
    requires Elems(enqueued[1..]) == links && |links| < maxPages
    requires added == Contribution(web, lib, baseUrl, page, links)
    requires ReachedInOrder(web, lib, baseUrl, fetched)
    requires fetched != [] ==> page in enqueued[1..]
    ensures DiscoveryInv(web, lib, baseUrl, maxPages, fetched + [page], enqueued + added)
  {
    ReachedSnoc(web, lib, baseUrl, fetched, page);
    var before := Discovered(web, lib, baseUrl, fetched);
    assert Elems(before) == links;
    assert Contribution(web, lib, baseUrl, page, Elems(before)) == added;
    DiscoveredSnoc(web, lib, baseUrl, fetched, page);
    assert Discovered(web, lib, baseUrl, fetched + [page]) == before + added;
    TailOfConcat(enqueued, added);
    assert (fetched + [page])[..|fetched|] == fetched;
  }

  /** Fetching the URL at the head of the queue below the cap keeps the discovery invariant. */
  lemma DiscoverVisit(web: Web, lib: UrlLib, baseUrl: string, maxPages: int, s: CrawlState, added: seq<string>)
    requires QueueInv(baseUrl, s) && DiscoveryInv(web, lib, baseUrl, maxPages, s.fetched, s.enqueued)
    requires s.toVisit != [] && |s.links| < maxPages
    requires added == Contribution(web, lib, baseUrl, s.toVisit[0], s.links)
    ensures DiscoveryInv(web, lib, baseUrl, maxPages, s.fetched + [s.toVisit[0]], s.enqueued + added)
  {
    PoppedWasDiscovered(baseUrl, s);
    DiscoverStep(web, lib, baseUrl, maxPages, s.links, s.fetched, s.enqueued, s.toVisit[0], added);
  }

  /** Fetching the URL at the head of the queue below the cap, when its request fails, keeps the discovery invariant. */
  lemma DiscoverFail(web: Web, lib: UrlLib, baseUrl: string, maxPages: int, s: CrawlState)
    requires QueueInv(baseUrl, s) && DiscoveryInv(web, lib, baseUrl, maxPages, s.fetched, s.enqueued)
    requires s.toVisit != [] && |s.links| < maxPages && s.toVisit[0] !in web
    ensures DiscoveryInv(web, lib, baseUrl, maxPages, s.fetched + [s.toVisit[0]], s.enqueued)
  {
    DiscoverVisit(web, lib, baseUrl, maxPages, s, []);
    assert s.enqueued + [] == s.enqueued;
  }

  /** Dropping the head of a + b, for a non-empty a. */
  lemma TailOfConcat<T>(a: seq<T>, b: seq<T>)
    requires |a| >= 1
    ensures (a + b)[1..] == a[1..] + b
  {
  }

  /**
   * What fetching page appends to the queue when the links seen are already collected: its
   * candidates that are new, in document order, or nothing when its request fails.
   */
  ghost function Contribution(web: Web, lib: UrlLib, baseUrl: string, page: string, seen: set<string>): seq<string> {
    if page in web then Fresh(Candidates(lib, baseUrl, web[page]), seen) else []
  }

  /** Fetching one more page appends what it discovers to what the earlier pages discovered. */
  lemma DiscoveredSnoc(web: Web, lib: UrlLib, baseUrl: string, fetched: seq<string>, page: string)
    ensures var before := Discovered(web, lib, baseUrl, fetched);
      Discovered(web, lib, baseUrl, fetched + [page])
        == before + Contribution(web, lib, baseUrl, page, Elems(before))
    ensures (fetched + [page])[..|fetched|] == fetched
  {
    assert (fetched + [page])[..|fetched|] == fetched;
  }

  lemma CrawlStart(web: Web, lib: UrlLib, baseUrl: string, maxPages: int)
    ensures CrawlInv(web, lib, baseUrl, maxPages, Initial(baseUrl))
  {
    assert Elems([baseUrl][1..]) == {};
  }

  /** One iteration of the loop of fetch_html_links on a non-empty queue (extract_links.py:14-38). */
  ghost function Step(web: Web, lib: UrlLib, baseUrl: string, s: CrawlState): CrawlState
    requires s.toVisit != []
  {
    var page := s.toVisit[0];
    if page in s.visited then
      s.(toVisit := s.toVisit[1..], popped := s.popped + 1)
    else if page !in web then
      s.(visited := s.visited + {page}, toVisit := s.toVisit[1..], fetched := s.fetched + [page], popped := s.popped + 1)
    else
      var added := Fresh(Candidates(lib, baseUrl, web[page]), s.links);
      CrawlState(s.links + Elems(added), s.visited + {page}, s.toVisit[1..] + added,
                 s.fetched + [page], s.enqueued + added, s.popped + 1, Credit(s.foundOn, added, page))
  }

  /** Every iteration below the cap keeps the loop invariant. */
  lemma StepKeepsInv(web: Web, lib: UrlLib, baseUrl: string, maxPages: int, s: CrawlState)
    requires CrawlInv(web, lib, baseUrl, maxPages, s)
    requires s.toVisit != [] && |s.links| < maxPages
    ensures CrawlInv(web, lib, baseUrl, maxPages, Step(web, lib, baseUrl, s))
  {
    var page := s.toVisit[0];
    var s' := Step(web, lib, baseUrl, s);
    StepCases(web, lib, baseUrl, s);
    if page in s.visited {
      SkipStep(web, lib, baseUrl, maxPages, s);
      InvTransfer(web, lib, baseUrl, maxPages, s.(toVisit := s.toVisit[1..], popped := s.popped + 1), s');
    } else if page !in web {
      FailStep(web, lib, baseUrl, maxPages, s);
      InvTransfer(web, lib, baseUrl, maxPages, s.(visited := s.visited + {page}, toVisit := s.toVisit[1..],
                                                  fetched := s.fetched + [page], popped := s.popped + 1), s');
    } else {
      var hrefs := web[page];
      var added := Fresh(Candidates(lib, baseUrl, hrefs), s.links);
      FreshDistinct(Candidates(lib, baseUrl, hrefs), s.links);
      DistinctIffCard(added);
      FoundStep(web, lib, baseUrl, maxPages, s, hrefs, added, s.links + Elems(added));
      InvTransfer(web, lib, baseUrl, maxPages,
                  CrawlState(s.links + Elems(added), s.visited + {page}, s.toVisit[1..] + added,
                             s.fetched + [page], s.enqueued + added, s.popped + 1, Credit(s.foundOn, added, page)), s');
    }
  }

  /** The state Step leaves in each of its three cases. */
  lemma StepCases(web: Web, lib: UrlLib, baseUrl: string, s: CrawlState)
    requires s.toVisit != []
    ensures var page := s.toVisit[0];
      page in s.visited ==>
        Step(web, lib, baseUrl, s) == s.(toVisit := s.toVisit[1..], popped := s.popped + 1)
    ensures var page := s.toVisit[0];
      page !in s.visited && page !in web ==>
        Step(web, lib, baseUrl, s) == s.(visited := s.visited + {page}, toVisit := s.toVisit[1..],
                                         fetched := s.fetched + [page], popped := s.popped + 1)
    ensures var page := s.toVisit[0];
      page !in s.visited && page in web ==>
        var added := Fresh(Candidates(lib, baseUrl, web[page]), s.links);
        Step(web, lib, baseUrl, s)
          == CrawlState(s.links + Elems(added), s.visited + {page}, s.toVisit[1..] + added,
                        s.fetched + [page], s.enqueued + added, s.popped + 1, Credit(s.foundOn, added, page))
  {
  }

  /** The invariant holds of a state equal to one it holds of. */
  lemma InvTransfer(web: Web, lib: UrlLib, baseUrl: string, maxPages: int, a: CrawlState, b: CrawlState)
    requires CrawlInv(web, lib, baseUrl, maxPages, a) && a == b
    ensures CrawlInv(web, lib, baseUrl, maxPages, b)
  {
  }

  /** Popping an already visited URL changes nothing but the queue. */
  lemma SkipStep(web: Web, lib: UrlLib, baseUrl: string, maxPages: int, s: CrawlState)
    requires CrawlInv(web, lib, baseUrl, maxPages, s)
    requires s.toVisit != [] && |s.links| < maxPages && s.toVisit[0] in s.visited
    ensures CrawlInv(web, lib, baseUrl, maxPages, s.(toVisit := s.toVisit[1..], popped := s.popped + 1))
  {
    QueueSkip(baseUrl, s);
  }

  /** Popping an unvisited URL whose request fails records it as fetched and visited, with nothing found. */
  lemma FailStep(web: Web, lib: UrlLib, baseUrl: string, maxPages: int, s: CrawlState)
    requires CrawlInv(web, lib, baseUrl, maxPages, s)
    requires s.toVisit != [] && |s.links| < maxPages && s.toVisit[0] !in s.visited && s.toVisit[0] !in web
    ensures CrawlInv(web, lib, baseUrl, maxPages,
                     s.(visited := s.visited + {s.toVisit[0]}, toVisit := s.toVisit[1..],
                        fetched := s.fetched + [s.toVisit[0]], popped := s.popped + 1))
  {
    var page := s.toVisit[0];
    QueueFail(baseUrl, s);
    DiscoverFail(web, lib, baseUrl, maxPages, s);
    FailedPageStep(web, lib, baseUrl, page, s.links, s.fetched, s.foundOn);
    CountVisit(web, baseUrl, maxPages, s.links, s.links, s.fetched, s.popped, page);
  }

  /** Popping an unvisited URL that answers adds its fresh candidates to the links and the queue. */
  lemma FoundStep(web: Web, lib: UrlLib, baseUrl: string, maxPages: int, s: CrawlState,
                  hrefs: seq<string>, added: seq<string>, links': set<string>)
    requires CrawlInv(web, lib, baseUrl, maxPages, s)
    requires s.toVisit != [] && |s.links| < maxPages && s.toVisit[0] !in s.visited
    requires s.toVisit[0] in web && web[s.toVisit[0]] == hrefs
    requires added == Fresh(Candidates(lib, baseUrl, hrefs), s.links)
    requires links' == s.links + Elems(added)
    requires |links'| == |s.links| + |added| <= |s.links| + |hrefs|
    ensures CrawlInv(web, lib, baseUrl, maxPages,
                     CrawlState(links', s.visited + {s.toVisit[0]}, s.toVisit[1..] + added,
                                s.fetched + [s.toVisit[0]], s.enqueued + added, s.popped + 1,
                                Credit(s.foundOn, added, s.toVisit[0])))
  {
    var page := s.toVisit[0];
    QueueVisit(baseUrl, s, added, links');
    DiscoverVisit(web, lib, baseUrl, maxPages, s, added);
    PageStep(web, lib, baseUrl, page, hrefs, s.links, added, links', s.fetched, s.foundOn);
    CountVisit(web, baseUrl, maxPages, s.links, links', s.fetched, s.popped, page);
  }

  /** The queue invariant survives popping a URL already visited. */
  lemma QueueSkip(baseUrl: string, s: CrawlState)
    requires QueueInv(baseUrl, s)
    requires s.toVisit != [] && s.toVisit[0] in s.visited
    ensures QueueInv(baseUrl, s.(toVisit := s.toVisit[1..], popped := s.popped + 1))
  {
    QueuePop(s.enqueued, s.popped);
    assert s.enqueued[s.popped + 1..] == s.toVisit[1..];
  }

  /** The queue invariant survives popping an unvisited URL whose request fails. */
  lemma QueueFail(baseUrl: string, s: CrawlState)
    requires QueueInv(baseUrl, s)
    requires s.toVisit != [] && s.toVisit[0] !in s.visited
    ensures QueueInv(baseUrl, s.(visited := s.visited + {s.toVisit[0]}, toVisit := s.toVisit[1..],
                                 fetched := s.fetched + [s.toVisit[0]], popped := s.popped + 1))
    ensures (s.fetched + [s.toVisit[0]])[0] == baseUrl
  {
    QueueVisit(baseUrl, s, [], s.links);
    assert s.toVisit[1..] + [] == s.toVisit[1..] && s.enqueued + [] == s.enqueued;
  }

  /**
   * The queue invariant survives popping an unvisited URL, fetching it and appending the links
   * it newly contributed.
   */
  lemma QueueVisit(baseUrl: string, s: CrawlState, added: seq<string>, links': set<string>)
    requires QueueInv(baseUrl, s)
    requires s.toVisit != [] && s.toVisit[0] !in s.visited
    requires links' == s.links + Elems(added) && |links'| == |s.links| + |added|
    ensures QueueInv(baseUrl, s.(links := links', visited := s.visited + {s.toVisit[0]},
                                 toVisit := s.toVisit[1..] + added, fetched := s.fetched + [s.toVisit[0]],
                                 enqueued := s.enqueued + added, popped := s.popped + 1))
    ensures (s.fetched + [s.toVisit[0]])[0] == baseUrl
  {
    QueuePop(s.enqueued, s.popped);
    assert s.enqueued[s.popped + 1..] == s.toVisit[1..];
    QueueAppend(s.enqueued, added, s.popped + 1, s.links);
    if s.popped == 0 {
      assert s.fetched == [];
    }
  }

  /** When the loop stops, the invariant and the exit condition give the crawl's postcondition. */
  lemma CrawlEnd(web: Web, lib: UrlLib, baseUrl: string, maxPages: int, s: CrawlState)
    requires CrawlInv(web, lib, baseUrl, maxPages, s)
    requires s.toVisit == [] || |s.links| >= maxPages
    ensures forall u :: u in s.links ==> SameSiteHtml(lib, baseUrl, u)
    ensures forall u :: u in s.links ==> u in s.foundOn && s.foundOn[u] in s.fetched && Found(web, lib, baseUrl, s.foundOn[u], u)
    ensures forall p, u :: p in s.fetched && Found(web, lib, baseUrl, p, u) ==> u in s.links
    ensures Distinct(s.fetched)
    ensures s.popped <= |s.enqueued| && s.fetched == Dedup(s.enqueued[..s.popped])
    ensures |s.enqueued| == |s.links| + 1 && s.enqueued[0] == baseUrl
    ensures s.enqueued[1..] == Discovered(web, lib, baseUrl, s.fetched)
    ensures forall k :: 0 < k < |s.fetched| ==> s.fetched[k] in Discovered(web, lib, baseUrl, s.fetched[..k])
    ensures Distinct(s.enqueued[1..]) && Elems(s.enqueued[1..]) == s.links
    ensures s.popped == |s.enqueued| || |s.links| >= maxPages
    ensures s.fetched != [] ==> |Elems(Discovered(web, lib, baseUrl, s.fetched[..|s.fetched| - 1]))| < maxPages
    ensures s.fetched != [] ==> |s.links| < maxPages + HrefCount(web, s.fetched[|s.fetched| - 1])
    ensures |s.links| < maxPages ==> s.links <= Elems(s.fetched)
    ensures maxPages <= 0 ==> s.links == {} && s.fetched == []
    ensures maxPages > 0 ==> s.fetched != [] && s.fetched[0] == baseUrl
  {
    ReachedAll(web, lib, baseUrl, s.fetched);
    if |s.links| < maxPages {
      assert s.popped == |s.enqueued|;
      QueueAllPopped(baseUrl, s);
    }
    DistinctIffCard(s.enqueued[1..]);
    FreshDistinct(s.enqueued[..s.popped], {});
  }

  /** Records page as the origin of each newly added link. */
  ghost function Credit(foundOn: map<string, string>, added: seq<string>, page: string): (m: map<string, string>)
    ensures forall u :: u in Elems(added) ==> u in m && m[u] == page
    ensures forall u :: u in foundOn && u !in Elems(added) ==> u in m && m[u] == foundOn[u]
  {
    foundOn + map u | u in Elems(added) :: page
  }

  /** A page whose web failed is visited but leaves the links and their origins as they were. */
  lemma FailedPageStep(web: Web, lib: UrlLib, baseUrl: string, page: string, links: set<string>,
                       fetched: seq<string>, foundOn: map<string, string>)
    requires page !in web
    requires LinksSound(web, lib, baseUrl, links, fetched, foundOn)
    requires LinksComplete(web, lib, baseUrl, links, fetched)
    ensures LinksSound(web, lib, baseUrl, links, fetched + [page], foundOn)
    ensures LinksComplete(web, lib, baseUrl, links, fetched + [page])
  {
  }

  /** Processing a fetched page keeps the collected links sound and complete. */
  lemma PageStep(web: Web, lib: UrlLib, baseUrl: string, page: string, hrefs: seq<string>,
                 links: set<string>, added: seq<string>, links': set<string>,
                 fetched: seq<string>, foundOn: map<string, string>)
    requires page in web && web[page] == hrefs
    requires added == Fresh(Candidates(lib, baseUrl, hrefs), links)
    requires links' == links + Elems(added)
    requires LinksSound(web, lib, baseUrl, links, fetched, foundOn)
    requires LinksComplete(web, lib, baseUrl, links, fetched)
    ensures LinksSound(web, lib, baseUrl, links', fetched + [page], Credit(foundOn, added, page))
    ensures LinksComplete(web, lib, baseUrl, links', fetched + [page])
  {
    var foundOn' := Credit(foundOn, added, page);
    forall u | u in links'
      ensures SameSiteHtml(lib, baseUrl, u) && u in foundOn' && foundOn'[u] in fetched + [page]
      ensures Found(web, lib, baseUrl, foundOn'[u], u)
    {
      if u in links {
        assert u !in Elems(added);
      } else {
        CandidatesExactly(lib, baseUrl, hrefs, u);
      }
    }
    forall p, u | p in fetched + [page] && Found(web, lib, baseUrl, p, u)
      ensures u in links'
    {
      if p != page {
        assert p in fetched;
      }
    }
  }

  /** Popping the front of the queue extends the popped prefix by one entry. */
  lemma QueuePop(enqueued: seq<string>, popped: nat)
    requires popped < |enqueued|
    ensures Elems(enqueued[..popped + 1]) == Elems(enqueued[..popped]) + {enqueued[popped]}
    ensures Dedup(enqueued[..popped + 1])
        == Dedup(enqueued[..popped]) + (if enqueued[popped] in Elems(enqueued[..popped]) then [] else [enqueued[popped]])
  {
    assert enqueued[..popped + 1] == enqueued[..popped] + [enqueued[popped]];
    FreshSnoc(enqueued[..popped], enqueued[popped], {});
  }

  /** Appending the newly collected links to the queue keeps it the base URL plus each link once. */
  lemma QueueAppend(enqueued: seq<string>, added: seq<string>, popped: nat, links: set<string>)
    requires |enqueued| == |links| + 1 && popped <= |enqueued|
    requires Elems(enqueued[1..]) == links
    ensures Elems((enqueued + added)[1..]) == links + Elems(added)
    ensures (enqueued + added)[..popped] == enqueued[..popped]
    ensures (enqueued + added)[popped..] == enqueued[popped..] + added
  {
    assert (enqueued + added)[1..] == enqueued[1..] + added;
  }

  /**
   * Once the whole queue has been popped (to_visit is empty, so the loop test at
   * extract_links.py:13 fails), every link has been visited and is one of the fetched pages.
   */
  lemma QueueAllPopped(baseUrl: string, s: CrawlState)
    requires QueueInv(baseUrl, s) && s.popped == |s.enqueued|
    ensures s.toVisit == []
    ensures s.links <= s.visited
    ensures s.links <= Elems(s.fetched)
  {
    assert s.enqueued == [s.enqueued[0]] + s.enqueued[1..];
    assert s.enqueued[..s.popped] == s.enqueued;
  }
}
