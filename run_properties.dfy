/**
 * What a whole call of fetch_and_save_html_resources guarantees, proved of SaveAll (and so,
 * through its postcondition, of the method FetchAndSaveHtmlResources): which pages it requests,
 * and how the output tree afterwards relates to the tree before.
 */
module RunProperties {
  import opened Strings
  import opened Urls
  import opened FileTree
  import opened PageSaver
  import opened SaverProperties

  /** url.strip() of every input URL, in order. */
  function StripAll(urls: seq<string>): (r: seq<string>)
    ensures |r| == |urls| && forall i :: 0 <= i < |urls| ==> r[i] == Strip(urls[i])
    decreases |urls|
  {
    if urls == [] then [] else StripAll(urls[..|urls| - 1]) + [Strip(urls[|urls| - 1])]
  }

  /** The files the given page URLs are saved to, in order. */
  function PageFiles(lib: UrlLib, outputDir: string, urls: seq<string>): seq<string>
    decreases |urls|
  {
    if urls == [] then [] else PageFiles(lib, outputDir, urls[..|urls| - 1]) + [PageFile(lib, outputDir, urls[|urls| - 1])]
  }

  /** A prefix of a duplicate-free sequence is duplicate-free. */
  lemma DistinctPrefix<T>(s: seq<T>, n: nat)
    requires Distinct(s) && n <= |s|
    ensures Distinct(s[..n])
  {
    forall i, j | 0 <= i < j < n
      ensures s[..n][i] != s[..n][j]
    {
      assert s[..n][i] == s[i] && s[..n][j] == s[j];
    }
  }

  /** The members of s + [x]. */
  lemma ElemsSnoc<T>(s: seq<T>, x: T)
    ensures Elems(s + [x]) == Elems(s) + {x}
  {
    assert forall y :: y in s + [x] <==> y in s || y == x;
  }

  /**
   * The pages requested: each distinct stripped input URL once, in order of first occurrence
   * (the visited set is exactly the set of requested URLs). A call an OSError ended has requested
   * a prefix of that list, and the full list otherwise.
   */
  lemma {:induction false} SaveUrlsRequests(site: Site, lib: UrlLib, outputDir: string, urls: seq<string>, disk0: Disk)
    ensures var r := SaveUrls(site, lib, outputDir, urls, Start(disk0));
      && r.visited == Elems(r.requested)
      && r.requested <= Dedup(StripAll(urls))
      && (!r.aborted ==> r.requested == Dedup(StripAll(urls)))
      && Distinct(r.requested)
    decreases |urls|
  {
    var all := Dedup(StripAll(urls));
    FreshDistinct(StripAll(urls), {});
    if urls == [] {
      assert Elems<string>([]) == {};
    } else {
      var init := urls[..|urls| - 1];
      var url := Strip(urls[|urls| - 1]);
      var before := SaveUrls(site, lib, outputDir, init, Start(disk0));
      var r := SaveUrls(site, lib, outputDir, urls, Start(disk0));
      SaveUrlsRequests(site, lib, outputDir, init, disk0);
      assert StripAll(urls) == StripAll(init) + [url];
      FreshSnoc(StripAll(init), url, {});
      var prev := Dedup(StripAll(init));
      assert Elems(prev) == Elems(StripAll(init));
      assert prev <= all;
      if before.aborted {
        assert r == before;
      } else if url in before.visited {
        assert url in StripAll(init);
        assert all == prev;
      } else {
        SavePageEffect(site, lib, outputDir, url, before);
        assert url !in StripAll(init);
        assert all == prev + [url];
        ElemsSnoc(before.requested, url);
      }
      DistinctPrefix(all, |r.requested|);
    }
  }

  /**
   * How the tree stands after some of the URLs: every file that was there at the start is still
   * there (possibly rewritten by a page); every file is an old one, a download or the file of a
   * requested page; no path was downloaded twice, and no download replaced a file that was
   * there at the start; a well-formed tree stays well formed.
   */
  ghost predicate Grows(disk0: Disk, lib: UrlLib, outputDir: string, r: Run) {
    && (forall k :: k in disk0 ==> k in r.disk)
    && (forall k :: k in r.disk ==> k in disk0 || k in r.downloads || k in PageFiles(lib, outputDir, r.requested))
    && Distinct(r.downloads)
    && (forall f :: f in r.downloads ==> f !in disk0 && f in r.disk)
    && (WellFormed(disk0) ==> WellFormed(r.disk))
  }

  /** Resource downloads keep Grows. */
  lemma GrowsOnlyAdds(disk0: Disk, lib: UrlLib, outputDir: string, r: Run, r': Run)
    requires Grows(disk0, lib, outputDir, r) && OnlyAdds(r, r')
    ensures Grows(disk0, lib, outputDir, r')
  {
    var n := NewDownloads(r, r');
    assert r'.downloads == r.downloads + n;
    forall i, j | 0 <= i < j < |r'.downloads|
      ensures r'.downloads[i] != r'.downloads[j]
    {
      if i < |r.downloads| <= j {
        assert r'.downloads[i] in r.disk;
        assert r'.downloads[j] == n[j - |r.downloads|];
      }
    }
  }

  /** Requesting one more page keeps Grows. */
  lemma SavePageGrows(site: Site, lib: UrlLib, outputDir: string, url: string, r: Run, disk0: Disk)
    requires !r.aborted && Grows(disk0, lib, outputDir, r)
    ensures Grows(disk0, lib, outputDir, SavePage(site, lib, outputDir, url, r))
  {
    var r1 := r.(visited := r.visited + {url}, requested := r.requested + [url]);
    var file := PageFile(lib, outputDir, url);
    assert r1.requested[..|r1.requested| - 1] == r.requested;
    assert PageFiles(lib, outputDir, r1.requested) == PageFiles(lib, outputDir, r.requested) + [file];
    assert Grows(disk0, lib, outputDir, r1);
    if url in site && !WriteFails(r1.disk, file) {
      var r2 := r1.(disk := r1.disk[file := TextFile(site[url].text)]);
      if WellFormed(disk0) {
        WriteKeepsWellFormed(r1.disk, file, TextFile(site[url].text));
      }
      assert Grows(disk0, lib, outputDir, r2);
      SaveResourcesOnlyAdds(site, lib, url, outputDir, AllReferences(site[url].soup), r2);
      GrowsOnlyAdds(disk0, lib, outputDir, r2, SavePage(site, lib, outputDir, url, r));
    }
  }

  /** Grows holds for every prefix of the input URLs. */
  lemma {:induction false} SaveUrlsGrows(site: Site, lib: UrlLib, outputDir: string, urls: seq<string>, disk0: Disk)
    ensures Grows(disk0, lib, outputDir, SaveUrls(site, lib, outputDir, urls, Start(disk0)))
    decreases |urls|
  {
    if urls == [] {
      assert PageFiles(lib, outputDir, []) == [];
    } else {
      var init := urls[..|urls| - 1];
      var before := SaveUrls(site, lib, outputDir, init, Start(disk0));
      SaveUrlsGrows(site, lib, outputDir, init, disk0);
      if !before.aborted && Strip(urls[|urls| - 1]) !in before.visited {
        SavePageGrows(site, lib, outputDir, Strip(urls[|urls| - 1]), before, disk0);
      }
    }
  }

  /**
   * The output tree after the whole call: nothing that existed is deleted; each file is one that
   * existed, a downloaded resource or a requested page's file; every resource was downloaded at
   * most once and never over an existing file; the tree stays well formed.
   */
  lemma SaveAllTree(site: Site, lib: UrlLib, urls: seq<string>, outputDir: string, disk0: Disk)
    ensures var r := SaveAll(site, lib, urls, outputDir, disk0);
      && (forall k :: k in disk0 ==> k in r.disk)
      && (forall k :: k in r.disk ==> k in disk0 || k in r.downloads || k in PageFiles(lib, outputDir, r.requested))
      && Distinct(r.downloads)
      && (forall f :: f in r.downloads ==> f !in disk0 && f in r.disk)
      && (WellFormed(disk0) ==> WellFormed(r.disk))
  {
    SaveUrlsGrows(site, lib, outputDir, urls, disk0);
  }
}
