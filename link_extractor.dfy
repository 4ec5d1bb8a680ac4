/**
 * extract_links.py: a breadth-first crawl that collects the same-site ".html" links reachable
 * from a base URL, and the writer that saves them one per line.
 */
module LinkExtractor {
  import opened Wrappers
  import opened Strings
  import opened Urls
  import opened Crawl

  /**
   * The inner loop of fetch_html_links (extract_links.py:26-35): every href is resolved against
   * baseUrl, and a URL that passes the filter and is not yet a known link is added to the links
   * and appended, in document order, to the queue (`added`).
   */
  method AddPageLinks(lib: UrlLib, baseUrl: string, hrefs: seq<string>, links: set<string>)
    returns (links': set<string>, added: seq<string>)
    ensures added == Fresh(Candidates(lib, baseUrl, hrefs), links)
    ensures links' == links + Elems(added)
    ensures |links'| == |links| + |added| <= |links| + |hrefs|
  {
    links', added := links, [];
    for j := 0 to |hrefs|
      invariant added == Fresh(Candidates(lib, baseUrl, hrefs[..j]), links)
      invariant links' == links + Elems(added)
    {
      var fullUrl := lib.join(baseUrl, hrefs[j]);
      AddStep(lib, baseUrl, hrefs, j, links, added, links');
      if EndsWith(fullUrl, ".html") {
        if lib.netloc(fullUrl) == lib.netloc(baseUrl) {
          if fullUrl !in links' {
            links' := links' + {fullUrl};
            added := added + [fullUrl];
          }
        }
      }
    }
    assert hrefs[..|hrefs|] == hrefs;
    FreshDistinct(Candidates(lib, baseUrl, hrefs), links);
    DistinctIffCard(added);
  }

  /** One iteration of the inner loop keeps links' and added in step with Fresh over the hrefs seen. */
  lemma AddStep(lib: UrlLib, baseUrl: string, hrefs: seq<string>, j: nat, links: set<string>,
                added: seq<string>, links': set<string>)
    requires j < |hrefs|
    requires added == Fresh(Candidates(lib, baseUrl, hrefs[..j]), links)
    requires links' == links + Elems(added)
    ensures var u := lib.join(baseUrl, hrefs[j]);
      if SameSiteHtml(lib, baseUrl, u) && u !in links' then
        Fresh(Candidates(lib, baseUrl, hrefs[..j + 1]), links) == added + [u] && links' + {u} == links + Elems(added + [u])
      else
        Fresh(Candidates(lib, baseUrl, hrefs[..j + 1]), links) == added
  {
    var before := Candidates(lib, baseUrl, hrefs[..j]);
    var u := lib.join(baseUrl, hrefs[j]);
    assert hrefs[..j + 1][..j] == hrefs[..j];
    var accepted := SameSiteHtml(lib, baseUrl, u);
    assert Candidates(lib, baseUrl, hrefs[..j + 1]) == before + (if accepted then [u] else []);
    FreshSnoc(before, u, links);
    if !accepted {
      assert before + [] == before;
    } else {
      assert u in links' <==> u in links || u in before;
    }
  }

  /**
   * fetch_html_links (extract_links.py:5-40). Besides the result, the ghost outputs record the
   * pages fetched (in order), every URL ever appended to the queue (in order), how many queue
   * entries were popped, and for each link the page it was first found on.
   */
  method FetchHtmlLinks(web: Web, lib: UrlLib, baseUrl: string, maxPages: int)
    returns (links: set<string>, ghost fetched: seq<string>, ghost enqueued: seq<string>, ghost popped: nat,
             ghost foundOn: map<string, string>)
    // every collected link passed the filter, and came from a fetched page (foundOn[u])
    ensures forall u :: u in links ==> SameSiteHtml(lib, baseUrl, u)
    ensures forall u :: u in links ==> u in foundOn && foundOn[u] in fetched && Found(web, lib, baseUrl, foundOn[u], u)
    // every qualifying link of every fetched page was collected
    ensures forall p, u :: p in fetched && Found(web, lib, baseUrl, p, u) ==> u in links
    // no URL is fetched twice, and pages are fetched in queue (FIFO) order, skipping visited ones
    ensures Distinct(fetched)
    ensures popped <= |enqueued| && fetched == Dedup(enqueued[..popped])
    // the queue is the base URL followed by what the fetched pages discovered, in that order,
    // each link once; every fetched page after the first was discovered by earlier ones
    ensures |enqueued| == |links| + 1 && enqueued[0] == baseUrl
    ensures enqueued[1..] == Discovered(web, lib, baseUrl, fetched)
    ensures forall k :: 0 < k < |fetched| ==> fetched[k] in Discovered(web, lib, baseUrl, fetched[..k])
    ensures Distinct(enqueued[1..]) && Elems(enqueued[1..]) == links
    // the loop stops on an empty queue or at the cap, which was not yet reached when the last
    // page was fetched; only that page's hrefs may overshoot it
    ensures popped == |enqueued| || |links| >= maxPages
    ensures fetched != [] ==> |Elems(Discovered(web, lib, baseUrl, fetched[..|fetched| - 1]))| < maxPages
    ensures fetched != [] ==> |links| < maxPages + HrefCount(web, fetched[|fetched| - 1])
    ensures |links| < maxPages ==> links <= Elems(fetched)
    ensures maxPages <= 0 ==> links == {} && fetched == []
    ensures maxPages > 0 ==> fetched != [] && fetched[0] == baseUrl
  {
    var visited: set<string> := {};
    var toVisit := [baseUrl];
    links := {};
    ghost var s := Initial(baseUrl);
    CrawlStart(web, lib, baseUrl, maxPages);
    while toVisit != [] && |links| < maxPages
      invariant CrawlInv(web, lib, baseUrl, maxPages, s)
      invariant s.links == links && s.visited == visited && s.toVisit == toVisit
      decreases maxPages - |links|, |toVisit|
    {
      StepKeepsInv(web, lib, baseUrl, maxPages, s);
      links, visited, toVisit, s := VisitNext(web, lib, baseUrl, links, visited, toVisit, s);
    }
    CrawlEnd(web, lib, baseUrl, maxPages, s);
    fetched, enqueued, popped, foundOn := s.fetched, s.enqueued, s.popped, s.foundOn;
  }

  /**
   * One iteration of the loop of fetch_html_links (extract_links.py:14-38): pop the head of the
   * queue; skip it if visited; otherwise mark it visited and, if its request succeeds, collect
   * its new candidates and append them to the queue. The ghost state s is the loop state with
   * its logs. The iteration is the specification Step, and it either collects a link or
   * shortens the queue.
   */
  method VisitNext(web: Web, lib: UrlLib, baseUrl: string,
                   links: set<string>, visited: set<string>, toVisit: seq<string>, ghost s: CrawlState)
    returns (links': set<string>, visited': set<string>, toVisit': seq<string>, ghost s': CrawlState)
    requires s.links == links && s.visited == visited && s.toVisit == toVisit
    requires toVisit != []
    ensures s' == Step(web, lib, baseUrl, s)
    ensures s'.links == links' && s'.visited == visited' && s'.toVisit == toVisit'
    ensures links <= links' && |links| <= |links'|
    ensures |links'| > |links| || |toVisit'| < |toVisit|
  {
    var currentUrl := toVisit[0];
    if currentUrl in visited {
      links', visited', toVisit' := links, visited, toVisit[1..];
      s' := s.(toVisit := s.toVisit[1..], popped := s.popped + 1);
      return;
    }
    if currentUrl !in web {
      // RequestException: the page stays visited and contributes nothing
      links', visited', toVisit' := links, visited + {currentUrl}, toVisit[1..];
      s' := s.(visited := s.visited + {currentUrl}, toVisit := s.toVisit[1..],
               fetched := s.fetched + [currentUrl], popped := s.popped + 1);
    } else {
      var hrefs := web[currentUrl];
      var added;
      links', added := AddPageLinks(lib, baseUrl, hrefs, links);
      visited', toVisit' := visited + {currentUrl}, toVisit[1..] + added;
      s' := CrawlState(links', s.visited + {currentUrl}, s.toVisit[1..] + added,
                       s.fetched + [currentUrl], s.enqueued + added, s.popped + 1,
                       Credit(s.foundOn, added, currentUrl));
    }
  }

  /** One line of the links file: the link between single quotes, then a comma and a newline. */
  function LinkLine(link: string): string {
    "'" + link + "',\n"
  }

  /**
   * The text save_links_to_file writes (extract_links.py:42-49). `links` is the order in which
   * the Python set happens to iterate.
   */
  function LinksFileText(links: seq<string>): (text: string)
    ensures |text| == 4 * |links| + SumLengths(links)
  {
    if links == [] then "" else LinkLine(links[0]) + LinksFileText(links[1..])
  }

  /** The total length of the links. */
  function SumLengths(links: seq<string>): nat {
    if links == [] then 0 else |links[0]| + SumLengths(links[1..])
  }

  /** The position of the first newline in text, if any. */
  function NewlineIndex(text: string): (r: Option<nat>)
    ensures r.Some? ==> r.value < |text| && text[r.value] == '\n' && '\n' !in text[..r.value]
    ensures r.None? ==> '\n' !in text
  {
    if text == [] then None
    else if text[0] == '\n' then Some(0)
    else match NewlineIndex(text[1..])
      case None => None
      case Some(i) =>
        assert text[..i + 1] == [text[0]] + text[1..][..i];
        Some(i + 1)
  }

  /** Reads a links file back: each line must be a quoted link followed by a comma. */
  function ParseLinksFile(text: string): Option<seq<string>>
    decreases |text|
  {
    if text == [] then Some([])
    else match NewlineIndex(text)
      case None => None
      case Some(i) =>
        var line := text[..i];
        if |line| >= 3 && line[0] == '\'' && line[|line| - 2..] == "'," then
          match ParseLinksFile(text[i + 1..])
          case None => None
          case Some(rest) => Some([line[1..|line| - 2]] + rest)
        else None
  }

  /**
   * The file holds exactly one line per link and nothing else: reading it back yields the links
   * in the order written, provided no link contains a newline.
   */
  lemma {:induction false} LinksFileRoundTrip(links: seq<string>)
    requires forall l :: l in links ==> '\n' !in l
    ensures ParseLinksFile(LinksFileText(links)) == Some(links)
  {
    if links != [] {
      var line := LinkLine(links[0]);
      var rest := LinksFileText(links[1..]);
      var text := line + rest;
      assert LinksFileText(links) == text;
      NewlineAt(links[0], rest);
      assert text[..|line| - 1] == "'" + links[0] + "',";
      assert text[|line|..] == rest;
      LinksFileRoundTrip(links[1..]);
      assert links == [links[0]] + links[1..];
    }
  }

  /** The first newline of a line followed by anything is the line's own terminator. */
  lemma NewlineAt(link: string, rest: string)
    requires '\n' !in link
    ensures NewlineIndex(LinkLine(link) + rest) == Some(|link| + 3)
  {
    var text := LinkLine(link) + rest;
    var k := |link| + 3;
    assert text[k] == '\n';
    assert forall j :: 0 <= j < k ==> text[j] != '\n' by {
      forall j | 0 <= j < k ensures text[j] != '\n' {
        if 1 <= j <= |link| { assert text[j] == link[j - 1]; }
      }
    }
    NewlineIndexIsFirst(text, k);
  }

  /** NewlineIndex finds the first newline. */
  lemma {:induction false} NewlineIndexIsFirst(text: string, k: nat)
    requires k < |text| && text[k] == '\n'
    requires forall j :: 0 <= j < k ==> text[j] != '\n'
    ensures NewlineIndex(text) == Some(k)
  {
    if k > 0 {
      NewlineIndexIsFirst(text[1..], k - 1);
    }
  }
}
