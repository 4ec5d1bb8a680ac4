/**
 * download_pages.py, fetch_and_save_html_resources: every distinct stripped input URL is fetched
 * once; a page that answers is written verbatim under the output directory, and then every
 * <link href>, <script src> and <img src> reference of the page is resolved against the page
 * URL and downloaded, unless a file or directory already exists at its local path.
 *
 * The site is a finite map: requests.get(url) succeeds (raise_for_status passes) exactly for
 * the URLs in it, and then yields the response text, its raw bytes and the parsed document. A
 * URL outside the map raises RequestException, which the script catches and reports. An OSError
 * from makedirs or open is not caught: it ends the whole call, which the model records as
 * `aborted` with the tree as it stood.
 */
module PageSaver {
  import opened Strings
  import opened Urls
  import opened Paths
  import opened FileTree

  /** What BeautifulSoup finds in a page: the attribute values of the three asset tags, in document order. */
  datatype Soup = Soup(linkHrefs: seq<string>, scriptSrcs: seq<string>, imgSrcs: seq<string>)

  /** A successful response: response.text, response.content, and the parse of the text. */
  datatype Response = Response(text: string, content: seq<byte>, soup: Soup)

  type Site = map<string, Response>

  /** The (tag, attribute) pairs the resource loop visits, in its order (download_pages.py:44). */
  datatype AssetTag = LinkHref | ScriptSrc | ImgSrc

  const AssetTags: seq<AssetTag> := [LinkHref, ScriptSrc, ImgSrc]

  /** soup.find_all(tag, attr=True), each element's attribute value. */
  function References(soup: Soup, tag: AssetTag): seq<string> {
    match tag
    case LinkHref => soup.linkHrefs
    case ScriptSrc => soup.scriptSrcs
    case ImgSrc => soup.imgSrcs
  }

  /** The references of the given tags, tag by tag. */
  function TagReferences(soup: Soup, tags: seq<AssetTag>): seq<string> {
    if tags == [] then [] else TagReferences(soup, tags[..|tags| - 1]) + References(soup, tags[|tags| - 1])
  }

  /** Every reference the resource loop handles, in the order it handles them. */
  function AllReferences(soup: Soup): (refs: seq<string>)
    ensures refs == soup.linkHrefs + soup.scriptSrcs + soup.imgSrcs
  {
    assert [LinkHref][..0] == [];
    assert [LinkHref, ScriptSrc][..1] == [LinkHref];
    assert AssetTags[..2] == [LinkHref, ScriptSrc];
    assert TagReferences(soup, [LinkHref]) == soup.linkHrefs;
    assert TagReferences(soup, [LinkHref, ScriptSrc]) == soup.linkHrefs + soup.scriptSrcs;
    TagReferences(soup, AssetTags)
  }

  /**
   * The state of a call: the output tree, whether an OSError ended it, the visited set, and
   * two logs, the page URLs requested and the resource files downloaded, each in order.
   */
  datatype Run = Run(disk: Disk, aborted: bool, visited: set<string>, requested: seq<string>, downloads: seq<string>)

  /** The state before the first URL. */
  function Start(disk: Disk): Run {
    Run(disk, false, {}, [], [])
  }

  /** The URL a reference of the page at pageUrl resolves to (download_pages.py:47). */
  function ResolvedUrl(lib: UrlLib, pageUrl: string, src: string): string {
    lib.join(pageUrl, src)
  }

  /** The local file of a reference (download_pages.py:48-50). */
  function ReferenceFile(lib: UrlLib, pageUrl: string, outputDir: string, src: string): string {
    ResourceFilePath(outputDir, lib.path(ResolvedUrl(lib, pageUrl, src)))
  }

  /** The file a page URL is saved to (download_pages.py:35-38). */
  function PageFile(lib: UrlLib, outputDir: string, url: string): string {
    PageFilePath(outputDir, lib.path(url))
  }

  /**
   * One reference of a page (download_pages.py:46-59). It never touches the page bookkeeping,
   * downloads at most the reference's own local file, and changes the state only for a call
   * still running, a resolved URL with a non-empty path that answers, and nothing yet at its
   * local path.
   */
  ghost function SaveResource(site: Site, lib: UrlLib, pageUrl: string, outputDir: string, src: string, r: Run): (r': Run)
    ensures r'.visited == r.visited && r'.requested == r.requested
    ensures r'.downloads == r.downloads
         || r'.downloads == r.downloads + [ReferenceFile(lib, pageUrl, outputDir, src)]
    ensures r' != r ==>
      var fullUrl := ResolvedUrl(lib, pageUrl, src);
      && !r.aborted && lib.path(fullUrl) != "" && fullUrl in site
      && !Exists(r.disk, ReferenceFile(lib, pageUrl, outputDir, src))
  {
    if r.aborted then r
    else
      var fullUrl := ResolvedUrl(lib, pageUrl, src);
      var resourcePath := lib.path(fullUrl);
      if resourcePath == "" then r
      else
        var file := ResourceFilePath(outputDir, resourcePath);
        if Exists(r.disk, file) || fullUrl !in site then r
        else if WriteFails(r.disk, file) then r.(aborted := true)
        else r.(disk := r.disk[file := BinaryFile(site[fullUrl].content)], downloads := r.downloads + [file])
  }

  /**
   * The references of a page, one after the other (download_pages.py:44-59): the page
   * bookkeeping is kept, and a call already ended stays as it is.
   */
  ghost function SaveResources(site: Site, lib: UrlLib, pageUrl: string, outputDir: string, refs: seq<string>, r: Run): (r': Run)
    ensures r'.visited == r.visited && r'.requested == r.requested
    ensures r.aborted ==> r' == r
    decreases |refs|
  {
    if refs == [] then r
    else SaveResource(site, lib, pageUrl, outputDir, refs[|refs| - 1],
                      SaveResources(site, lib, pageUrl, outputDir, refs[..|refs| - 1], r))
  }

  /**
   * A URL not yet visited (download_pages.py:27-62): it is marked visited and requested once,
   * whatever its request and writes do.
   */
  ghost function SavePage(site: Site, lib: UrlLib, outputDir: string, url: string, r: Run): (r': Run)
    ensures r'.visited == r.visited + {url} && r'.requested == r.requested + [url]
  {
    var r1 := r.(visited := r.visited + {url}, requested := r.requested + [url]);
    if url !in site then r1
    else
      var file := PageFile(lib, outputDir, url);
      if WriteFails(r1.disk, file) then r1.(aborted := true)
      else
        var r2 := r1.(disk := r1.disk[file := TextFile(site[url].text)]);
        SaveResources(site, lib, url, outputDir, AllReferences(site[url].soup), r2)
  }

  /**
   * The input URLs, one after the other (download_pages.py:23-27): at most one request per input
   * URL, appended to the log, and a call already ended stays as it is.
   */
  ghost function SaveUrls(site: Site, lib: UrlLib, outputDir: string, urls: seq<string>, r: Run): (r': Run)
    ensures r.requested <= r'.requested && |r'.requested| <= |r.requested| + |urls|
    ensures r.aborted ==> r' == r
    decreases |urls|
  {
    if urls == [] then r
    else
      var before := SaveUrls(site, lib, outputDir, urls[..|urls| - 1], r);
      var url := Strip(urls[|urls| - 1]);
      if before.aborted || url in before.visited then before
      else SavePage(site, lib, outputDir, url, before)
  }

  /** The whole call on the tree disk: it requests at most one page per input URL. */
  ghost function SaveAll(site: Site, lib: UrlLib, urls: seq<string>, outputDir: string, disk: Disk): (r: Run)
    ensures |r.requested| <= |urls|
  {
    SaveUrls(site, lib, outputDir, urls, Start(disk))
  }

  /**
   * fetch_and_save_html_resources (download_pages.py:17-62) on the tree disk0. It returns the
   * tree afterwards and whether an OSError ended the call; the ghost outputs are the logs of
   * requested pages and downloaded files.
   */
  method FetchAndSaveHtmlResources(site: Site, lib: UrlLib, urls: seq<string>, outputDir: string, disk0: Disk)
    returns (disk: Disk, aborted: bool, ghost requested: seq<string>, ghost downloads: seq<string>)
    ensures disk == SaveAll(site, lib, urls, outputDir, disk0).disk
    ensures aborted == SaveAll(site, lib, urls, outputDir, disk0).aborted
    ensures requested == SaveAll(site, lib, urls, outputDir, disk0).requested
    ensures downloads == SaveAll(site, lib, urls, outputDir, disk0).downloads
  {
    disk, aborted, requested, downloads := disk0, false, [], [];
    var visited: set<string> := {};
    for i := 0 to |urls|
      invariant !aborted
      invariant Run(disk, aborted, visited, requested, downloads) == SaveUrls(site, lib, outputDir, urls[..i], Start(disk0))
    {
      assert urls[..i + 1][..i] == urls[..i];
      var currentUrl := Strip(urls[i]);
      if currentUrl in visited {
        continue;
      }
      visited := visited + {currentUrl};
      requested := requested + [currentUrl];
      if currentUrl !in site {
        // RequestException: reported, and the loop goes on
        continue;
      }
      var response := site[currentUrl];
      var filePath := PageFilePath(outputDir, lib.path(currentUrl));
      if WriteFails(disk, filePath) {
        aborted := true;
        SaveUrlsStops(site, lib, outputDir, urls, i + 1, Start(disk0));
        return;
      }
      disk := disk[filePath := TextFile(response.text)];
      ghost var r := Run(disk, false, visited, requested, downloads);
      disk, aborted, downloads := SavePageResources(site, lib, currentUrl, response.soup, outputDir, disk, r);
      if aborted {
        SaveUrlsStops(site, lib, outputDir, urls, i + 1, Start(disk0));
        return;
      }
    }
    assert urls[..|urls|] == urls;
  }

  /**
   * The resource loops of one page (download_pages.py:44-59): for each asset tag, for each
   * reference, download it unless its path is empty or its file already exists.
   */
  method SavePageResources(site: Site, lib: UrlLib, pageUrl: string, soup: Soup, outputDir: string,
                           disk0: Disk, ghost r0: Run)
    returns (disk: Disk, aborted: bool, ghost downloads: seq<string>)
    requires r0.disk == disk0 && !r0.aborted
    ensures disk == SaveResources(site, lib, pageUrl, outputDir, AllReferences(soup), r0).disk
    ensures aborted == SaveResources(site, lib, pageUrl, outputDir, AllReferences(soup), r0).aborted
    ensures r0.(disk := disk, aborted := aborted, downloads := downloads)
         == SaveResources(site, lib, pageUrl, outputDir, AllReferences(soup), r0)
  {
    disk, aborted, downloads := disk0, false, r0.downloads;
    for t := 0 to |AssetTags|
      invariant !aborted
      invariant r0.(disk := disk, downloads := downloads)
             == SaveResources(site, lib, pageUrl, outputDir, TagReferences(soup, AssetTags[..t]), r0)
    {
      ghost var done := TagReferences(soup, AssetTags[..t]);
      var refs := References(soup, AssetTags[t]);
      disk, aborted, downloads := SaveTagResources(site, lib, pageUrl, refs, outputDir, disk, downloads, done, r0);
      if aborted {
        AllReferencesSplit(soup, t, |refs|);
        assert refs[..|refs|] == refs;
        SaveResourcesStop(site, lib, pageUrl, outputDir, done + refs, [] + LaterReferences(soup, t), r0);
        return;
      }
      assert AssetTags[..t + 1][..t] == AssetTags[..t];
    }
    assert AssetTags[..|AssetTags|] == AssetTags;
  }

  /**
   * The inner resource loop of one asset tag (download_pages.py:45-59), continuing the state
   * reached after the references done.
   */
  method SaveTagResources(site: Site, lib: UrlLib, pageUrl: string, refs: seq<string>, outputDir: string,
                          disk0: Disk, ghost downloads0: seq<string>, ghost done: seq<string>, ghost r0: Run)
    returns (disk: Disk, aborted: bool, ghost downloads: seq<string>)
    requires !r0.aborted
    requires r0.(disk := disk0, downloads := downloads0) == SaveResources(site, lib, pageUrl, outputDir, done, r0)
    ensures disk == SaveResources(site, lib, pageUrl, outputDir, done + refs, r0).disk
    ensures aborted == SaveResources(site, lib, pageUrl, outputDir, done + refs, r0).aborted
    ensures r0.(disk := disk, aborted := aborted, downloads := downloads)
         == SaveResources(site, lib, pageUrl, outputDir, done + refs, r0)
  {
    disk, aborted, downloads := disk0, false, downloads0;
    assert done + refs[..0] == done;
    for j := 0 to |refs|
      invariant !aborted
      invariant r0.(disk := disk, downloads := downloads)
             == SaveResources(site, lib, pageUrl, outputDir, done + refs[..j], r0)
    {
      var src := refs[j];
      SaveResourcesSnoc(site, lib, pageUrl, outputDir, done + refs[..j], src, r0);
      TakeOneMore(done, refs, j);
      var fullUrl := lib.join(pageUrl, src);
      var resourcePath := lib.path(fullUrl);
      if resourcePath != "" {
        var resourceFilePath := ResourceFilePath(outputDir, resourcePath);
        if !Exists(disk, resourceFilePath) && fullUrl in site {
          if WriteFails(disk, resourceFilePath) {
            aborted := true;
            SaveResourcesStop(site, lib, pageUrl, outputDir, done + refs[..j + 1], refs[j + 1..], r0);
            SplitAt(done, refs, j + 1);
            return;
          }
          disk := disk[resourceFilePath := BinaryFile(site[fullUrl].content)];
          downloads := downloads + [resourceFilePath];
        }
      }
    }
    assert refs[..|refs|] == refs;
  }

  /** The references of the tags after the t-th one. */
  ghost function LaterReferences(soup: Soup, t: nat): seq<string> {
    if t == 0 then soup.scriptSrcs + soup.imgSrcs
    else if t == 1 then soup.imgSrcs
    else []
  }

  /** Where the resource loops stand inside the whole reference list: before tag t, within it, and after. */
  lemma AllReferencesSplit(soup: Soup, t: nat, j: nat)
    requires t < |AssetTags| && j <= |References(soup, AssetTags[t])|
    ensures var refs := References(soup, AssetTags[t]);
      AllReferences(soup) == (TagReferences(soup, AssetTags[..t]) + refs[..j]) + (refs[j..] + LaterReferences(soup, t))
  {
    var refs := References(soup, AssetTags[t]);
    assert refs == refs[..j] + refs[j..];
    assert [LinkHref][..0] == [];
    assert AssetTags[..0] == [];
    assert AssetTags[..1] == [LinkHref];
    assert AssetTags[..2] == [LinkHref, ScriptSrc];
    assert [LinkHref, ScriptSrc][..1] == [LinkHref];
  }

  /** Splitting b at j. */
  lemma SplitAt<T>(a: seq<T>, b: seq<T>, j: nat)
    requires j <= |b|
    ensures (a + b[..j]) + b[j..] == a + b
  {
    assert b[..j] + b[j..] == b;
  }

  /** Taking one more element of b. */
  lemma TakeOneMore<T>(a: seq<T>, b: seq<T>, j: nat)
    requires j < |b|
    ensures a + b[..j + 1] == (a + b[..j]) + [b[j]]
  {
    assert b[..j + 1] == b[..j] + [b[j]];
  }

  /** Handling one more reference is one more SaveResource step. */
  lemma SaveResourcesSnoc(site: Site, lib: UrlLib, pageUrl: string, outputDir: string, refs: seq<string>, src: string, r: Run)
    ensures SaveResources(site, lib, pageUrl, outputDir, refs + [src], r)
         == SaveResource(site, lib, pageUrl, outputDir, src, SaveResources(site, lib, pageUrl, outputDir, refs, r))
  {
    assert (refs + [src])[..|refs|] == refs;
  }

  /** Once a call has aborted, the remaining references change nothing. */
  lemma {:induction false} SaveResourcesStop(site: Site, lib: UrlLib, pageUrl: string, outputDir: string,
                                              done: seq<string>, rest: seq<string>, r: Run)
    requires SaveResources(site, lib, pageUrl, outputDir, done, r).aborted
    ensures SaveResources(site, lib, pageUrl, outputDir, done + rest, r) == SaveResources(site, lib, pageUrl, outputDir, done, r)
    decreases |rest|
  {
    if rest == [] {
      assert done + rest == done;
    } else {
      var init := rest[..|rest| - 1];
      SaveResourcesStop(site, lib, pageUrl, outputDir, done, init, r);
      assert (done + rest)[..|done + rest| - 1] == done + init;
    }
  }

  /** Once a call has aborted, the remaining URLs change nothing. */
  lemma {:induction false} SaveUrlsStops(site: Site, lib: UrlLib, outputDir: string, urls: seq<string>, n: nat, r: Run)
    requires n <= |urls| && SaveUrls(site, lib, outputDir, urls[..n], r).aborted
    ensures SaveUrls(site, lib, outputDir, urls, r) == SaveUrls(site, lib, outputDir, urls[..n], r)
    decreases |urls|
  {
    if n < |urls| {
      assert urls[..|urls| - 1][..n] == urls[..n];
      SaveUrlsStops(site, lib, outputDir, urls[..|urls| - 1], n, r);
    } else {
      assert urls[..n] == urls;
    }
  }
}
