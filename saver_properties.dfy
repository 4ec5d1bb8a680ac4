/**
 * What fetch_and_save_html_resources guarantees about the output tree and about its requests,
 * proved of the specification in PageSaver (and so, through its postcondition, of the method).
 */
module SaverProperties {
  import opened Strings
  import opened Urls
  import opened Paths
  import opened FileTree
  import opened PageSaver

  /** The downloads r' made since r. */
  function NewDownloads(r: Run, r': Run): seq<string>
    requires |r.downloads| <= |r'.downloads|
  {
    r'.downloads[|r.downloads|..]
  }

  /**
   * From r to r' only resource downloads happened: the visited set and the request log are as
   * they were, every existing file is kept unchanged, the download log was only extended, each
   * new download is a file that did not exist before and now does, no path was downloaded twice,
   * and a well-formed tree stays well formed. An aborted state never changes.
   */
  ghost predicate OnlyAdds(r: Run, r': Run) {
    && r'.visited == r.visited && r'.requested == r.requested
    && |r.downloads| <= |r'.downloads| && r'.downloads[..|r.downloads|] == r.downloads
    && (forall k :: k in r.disk ==> k in r'.disk && r'.disk[k] == r.disk[k])
    && (forall k :: k in r'.disk ==> k in r.disk || k in NewDownloads(r, r'))
    && (forall f :: f in NewDownloads(r, r') ==> f !in r.disk && f in r'.disk)
    && Distinct(NewDownloads(r, r'))
    && (WellFormed(r.disk) ==> WellFormed(r'.disk))
    && (r.aborted ==> r' == r)
  }

  /** A step that writes nothing: only the aborted flag may change, and only from false. */
  lemma NoWriteOnlyAdds(r: Run, r': Run)
    requires r'.disk == r.disk && r'.downloads == r.downloads
    requires r'.visited == r.visited && r'.requested == r.requested
    requires r.aborted ==> r' == r
    ensures OnlyAdds(r, r')
  {
    assert r.downloads[..|r.downloads|] == r.downloads;
    assert NewDownloads(r, r') == [];
  }

  /** Writing a file that did not exist and whose write does not fail adds exactly that download. */
  lemma AddFileOnlyAdds(r: Run, file: string, c: Content)
    requires !r.aborted && !Exists(r.disk, file) && !WriteFails(r.disk, file)
    ensures OnlyAdds(r, r.(disk := r.disk[file := c], downloads := r.downloads + [file]))
  {
    var r' := r.(disk := r.disk[file := c], downloads := r.downloads + [file]);
    assert NewDownloads(r, r') == [file];
    assert r'.downloads[..|r.downloads|] == r.downloads;
    if WellFormed(r.disk) {
      WriteKeepsWellFormed(r.disk, file, c);
    }
  }

  /** Writing one file leaves every other file as it was. */
  lemma WriteKeepsOthers(disk: Disk, file: string, c: Content)
    ensures forall k :: k in disk && k != file ==> k in disk[file := c] && disk[file := c][k] == disk[k]
  {
  }

  /** Two stretches of downloads make one. */
  lemma OnlyAddsTrans(r1: Run, r2: Run, r3: Run)
    requires OnlyAdds(r1, r2) && OnlyAdds(r2, r3)
    ensures OnlyAdds(r1, r3)
    ensures NewDownloads(r1, r3) == NewDownloads(r1, r2) + NewDownloads(r2, r3)
  {
    var a, b := NewDownloads(r1, r2), NewDownloads(r2, r3);
    assert r3.downloads == r1.downloads + a + b by {
      assert r3.downloads == r2.downloads + b;
      assert r2.downloads == r1.downloads + a;
    }
    assert NewDownloads(r1, r3) == a + b;
    assert r3.downloads[..|r1.downloads|] == r1.downloads;
    forall i, j | 0 <= i < j < |a + b|
      ensures (a + b)[i] != (a + b)[j]
    {
      if j >= |a| && i < |a| {
        assert a[i] in r2.disk;
        assert b[j - |a|] !in r2.disk;
      }
    }
    forall k | k in r3.disk
      ensures k in r1.disk || k in a + b
    {
      if k !in r2.disk {
        assert k in b;
      } else if k !in r1.disk {
        assert k in a;
      }
    }
    forall f | f in a + b
      ensures f !in r1.disk && f in r3.disk
    {
      if f in b {
        assert f !in r2.disk;
      }
    }
  }

  /** One reference either changes nothing, aborts, or downloads one new file. */
  lemma SaveResourceOnlyAdds(site: Site, lib: UrlLib, pageUrl: string, outputDir: string, src: string, r: Run)
    ensures OnlyAdds(r, SaveResource(site, lib, pageUrl, outputDir, src, r))
  {
    var r' := SaveResource(site, lib, pageUrl, outputDir, src, r);
    if r.aborted {
      NoWriteOnlyAdds(r, r');
    } else {
      var fullUrl := lib.join(pageUrl, src);
      var file := ResourceFilePath(outputDir, lib.path(fullUrl));
      if lib.path(fullUrl) == "" || Exists(r.disk, file) || fullUrl !in site || WriteFails(r.disk, file) {
        NoWriteOnlyAdds(r, r');
      } else {
        AddFileOnlyAdds(r, file, BinaryFile(site[fullUrl].content));
      }
    }
  }

  /**
   * The resource step of a page only adds files: it never overwrites an existing file (a saved
   * page included), and never downloads one path twice.
   */
  lemma {:induction false} SaveResourcesOnlyAdds(site: Site, lib: UrlLib, pageUrl: string, outputDir: string,
                                                 refs: seq<string>, r: Run)
    ensures OnlyAdds(r, SaveResources(site, lib, pageUrl, outputDir, refs, r))
    decreases |refs|
  {
    if refs == [] {
      NoWriteOnlyAdds(r, r);
    } else {
      var mid := SaveResources(site, lib, pageUrl, outputDir, refs[..|refs| - 1], r);
      SaveResourcesOnlyAdds(site, lib, pageUrl, outputDir, refs[..|refs| - 1], r);
      SaveResourceOnlyAdds(site, lib, pageUrl, outputDir, refs[|refs| - 1], mid);
      OnlyAddsTrans(r, mid, SaveResources(site, lib, pageUrl, outputDir, refs, r));
    }
  }

  /** A tree whose file keys only grew keeps every path that existed. */
  lemma ExistsGrows(disk: Disk, disk': Disk, p: string)
    requires forall k :: k in disk ==> k in disk'
    requires Exists(disk, p)
    ensures Exists(disk', p)
  {
    if p !in disk {
      var k :| k in disk && StartsWith(k, DirPrefix(p));
      assert k in disk';
    }
  }

  /** A reference the resource loop would download: its URL has a non-empty path and answers. */
  predicate Wanted(site: Site, lib: UrlLib, pageUrl: string, src: string) {
    lib.path(ResolvedUrl(lib, pageUrl, src)) != "" && ResolvedUrl(lib, pageUrl, src) in site
  }

  /**
   * Unless an OSError ended the loop, every wanted reference has something at its local path
   * afterwards: it was downloaded, or a file or directory was already there.
   */
  lemma {:induction false} SaveResourcesComplete(site: Site, lib: UrlLib, pageUrl: string, outputDir: string,
                                                 refs: seq<string>, r: Run)
    ensures var r' := SaveResources(site, lib, pageUrl, outputDir, refs, r);
      !r'.aborted ==>
        forall src :: src in refs && Wanted(site, lib, pageUrl, src) ==> Exists(r'.disk, ReferenceFile(lib, pageUrl, outputDir, src))
    decreases |refs|
  {
    if refs != [] {
      var init, last := refs[..|refs| - 1], refs[|refs| - 1];
      var mid := SaveResources(site, lib, pageUrl, outputDir, init, r);
      var r' := SaveResource(site, lib, pageUrl, outputDir, last, mid);
      SaveResourcesComplete(site, lib, pageUrl, outputDir, init, r);
      SaveResourceOnlyAdds(site, lib, pageUrl, outputDir, last, mid);
      if !r'.aborted {
        assert !mid.aborted;
        forall src | src in refs && Wanted(site, lib, pageUrl, src)
          ensures Exists(r'.disk, ReferenceFile(lib, pageUrl, outputDir, src))
        {
          if src in init {
            ExistsGrows(mid.disk, r'.disk, ReferenceFile(lib, pageUrl, outputDir, src));
          } else {
            assert src == last;
          }
        }
      }
    }
  }

  /** f was downloaded for one of refs and holds the bytes of that reference's response. */
  ghost predicate FetchedFor(site: Site, lib: UrlLib, pageUrl: string, outputDir: string, refs: seq<string>,
                             f: string, disk: Disk) {
    exists src :: src in refs && Wanted(site, lib, pageUrl, src) && f == ReferenceFile(lib, pageUrl, outputDir, src)
      && f in disk && disk[f] == BinaryFile(site[ResolvedUrl(lib, pageUrl, src)].content)
  }

  /** A download of one reference is that reference's file, holding its response. */
  lemma SaveResourceSound(site: Site, lib: UrlLib, pageUrl: string, outputDir: string, src: string, r: Run)
    ensures var r' := SaveResource(site, lib, pageUrl, outputDir, src, r);
      |r.downloads| <= |r'.downloads| &&
      forall f :: f in NewDownloads(r, r') ==> FetchedFor(site, lib, pageUrl, outputDir, [src], f, r'.disk)
  {
    var r' := SaveResource(site, lib, pageUrl, outputDir, src, r);
    SaveResourceOnlyAdds(site, lib, pageUrl, outputDir, src, r);
    if |r'.downloads| != |r.downloads| {
      var fullUrl := ResolvedUrl(lib, pageUrl, src);
      var file := ReferenceFile(lib, pageUrl, outputDir, src);
      assert !r.aborted && lib.path(fullUrl) != "" && fullUrl in site && !Exists(r.disk, file);
      assert !WriteFails(r.disk, file);
      assert r' == r.(disk := r.disk[file := BinaryFile(site[fullUrl].content)], downloads := r.downloads + [file]);
      assert NewDownloads(r, r') == [file];
      assert src in [src] && Wanted(site, lib, pageUrl, src);
    }
  }

  /** FetchedFor survives more references and a tree that keeps the file. */
  lemma FetchedForKept(site: Site, lib: UrlLib, pageUrl: string, outputDir: string, refs: seq<string>, refs': seq<string>,
                       f: string, disk: Disk, disk': Disk)
    requires FetchedFor(site, lib, pageUrl, outputDir, refs, f, disk)
    requires forall src :: src in refs ==> src in refs'
    requires f in disk' && disk'[f] == disk[f]
    ensures FetchedFor(site, lib, pageUrl, outputDir, refs', f, disk')
  {
    var src :| src in refs && Wanted(site, lib, pageUrl, src) && f == ReferenceFile(lib, pageUrl, outputDir, src)
      && f in disk && disk[f] == BinaryFile(site[ResolvedUrl(lib, pageUrl, src)].content);
    assert src in refs';
  }

  /** Every file the resource loop downloads belongs to a reference of the page and holds its response. */
  lemma {:induction false} SaveResourcesSound(site: Site, lib: UrlLib, pageUrl: string, outputDir: string,
                                              refs: seq<string>, r: Run)
    ensures var r' := SaveResources(site, lib, pageUrl, outputDir, refs, r);
      |r.downloads| <= |r'.downloads| &&
      forall f :: f in NewDownloads(r, r') ==> FetchedFor(site, lib, pageUrl, outputDir, refs, f, r'.disk)
    decreases |refs|
  {
    if refs == [] {
      assert NewDownloads(r, r) == [];
    } else {
      var init, last := refs[..|refs| - 1], refs[|refs| - 1];
      var mid := SaveResources(site, lib, pageUrl, outputDir, init, r);
      var r' := SaveResource(site, lib, pageUrl, outputDir, last, mid);
      SaveResourcesSound(site, lib, pageUrl, outputDir, init, r);
      SaveResourceSound(site, lib, pageUrl, outputDir, last, mid);
      SaveResourcesOnlyAdds(site, lib, pageUrl, outputDir, init, r);
      SaveResourceOnlyAdds(site, lib, pageUrl, outputDir, last, mid);
      OnlyAddsTrans(r, mid, r');
      forall f | f in NewDownloads(r, r')
        ensures FetchedFor(site, lib, pageUrl, outputDir, refs, f, r'.disk)
      {
        if f in NewDownloads(r, mid) {
          FetchedForKept(site, lib, pageUrl, outputDir, init, refs, f, mid.disk, r'.disk);
        } else {
          FetchedForKept(site, lib, pageUrl, outputDir, [last], refs, f, r'.disk, r'.disk);
        }
      }
    }
  }

  /**
   * One page: the URL is marked visited and requested whatever happens; a failed request changes
   * nothing else; a failed write of the page ends the call before anything is written.
   */
  lemma SavePageEffect(site: Site, lib: UrlLib, outputDir: string, url: string, r: Run)
    requires !r.aborted
    ensures var r' := SavePage(site, lib, outputDir, url, r);
      && r'.visited == r.visited + {url} && r'.requested == r.requested + [url]
      && (url !in site ==> r'.disk == r.disk && r'.downloads == r.downloads && !r'.aborted)
      && (url in site && WriteFails(r.disk, PageFile(lib, outputDir, url)) ==>
            r'.aborted && r'.disk == r.disk && r'.downloads == r.downloads)
  {
    var file := PageFile(lib, outputDir, url);
    if url in site && !WriteFails(r.disk, file) {
      var r1 := r.(visited := r.visited + {url}, requested := r.requested + [url]);
      var r2 := r1.(disk := r1.disk[file := TextFile(site[url].text)]);
      SaveResourcesOnlyAdds(site, lib, url, outputDir, AllReferences(site[url].soup), r2);
    }
  }

  /**
   * The files of one page: once the page's resources are done, the page file holds the response
   * text (the resources never overwrite it), and no other file that existed is changed.
   */
  lemma SavePageWrites(site: Site, lib: UrlLib, outputDir: string, url: string, r: Run)
    requires !r.aborted
    ensures var r' := SavePage(site, lib, outputDir, url, r);
            var file := PageFile(lib, outputDir, url);
      && (url in site && !WriteFails(r.disk, file) ==> file in r'.disk && r'.disk[file] == TextFile(site[url].text))
      && (forall k :: k in r.disk && k != file ==> k in r'.disk && r'.disk[k] == r.disk[k])
  {
    var r' := SavePage(site, lib, outputDir, url, r);
    var file := PageFile(lib, outputDir, url);
    var r1 := r.(visited := r.visited + {url}, requested := r.requested + [url]);
    if url !in site {
      assert r' == r1;
      assert r'.disk == r.disk;
    } else if WriteFails(r.disk, file) {
      assert r' == r1.(aborted := true);
      assert r'.disk == r.disk;
    } else {
      var r2 := r1.(disk := r1.disk[file := TextFile(site[url].text)]);
      assert r' == SaveResources(site, lib, url, outputDir, AllReferences(site[url].soup), r2);
      SaveResourcesOnlyAdds(site, lib, url, outputDir, AllReferences(site[url].soup), r2);
      assert file in r2.disk && r'.disk[file] == r2.disk[file];
      WriteKeepsOthers(r.disk, file, TextFile(site[url].text));
    }
  }

  /**
   * The downloads of one page all belong to its references and hold their responses; and unless
   * an OSError ended the call, every wanted reference of an answering page has a file or
   * directory at its local path.
   */
  lemma SavePageDownloads(site: Site, lib: UrlLib, outputDir: string, url: string, r: Run)
    requires !r.aborted
    ensures var r' := SavePage(site, lib, outputDir, url, r);
      && |r.downloads| <= |r'.downloads|
      && (forall f :: f in NewDownloads(r, r') ==>
            url in site && FetchedFor(site, lib, url, outputDir, AllReferences(site[url].soup), f, r'.disk))
      && (url in site && !r'.aborted ==>
            forall src :: src in AllReferences(site[url].soup) && Wanted(site, lib, url, src) ==>
              Exists(r'.disk, ReferenceFile(lib, url, outputDir, src)))
  {
    var r' := SavePage(site, lib, outputDir, url, r);
    var file := PageFile(lib, outputDir, url);
    var r1 := r.(visited := r.visited + {url}, requested := r.requested + [url]);
    if url !in site || WriteFails(r.disk, file) {
      assert NewDownloads(r, r') == [];
    } else {
      var r2 := r1.(disk := r1.disk[file := TextFile(site[url].text)]);
      var refs := AllReferences(site[url].soup);
      SaveResourcesSound(site, lib, url, outputDir, refs, r2);
      SaveResourcesComplete(site, lib, url, outputDir, refs, r2);
      assert NewDownloads(r, r') == NewDownloads(r2, r');
    }
  }

  /**
   * A page whose URL path is "/" is not mapped to index.html (only the empty path is): its file
   * path names the output directory itself, so the write raises OSError and the call ends.
   */
  lemma RootPageAborts(site: Site, lib: UrlLib, outputDir: string, url: string, r: Run)
    requires !r.aborted && url in site && lib.path(url) == "/"
    ensures SavePage(site, lib, outputDir, url, r).aborted
    ensures SavePage(site, lib, outputDir, url, r).disk == r.disk
  {
    PageSpecialPaths(outputDir);
    var file := PageFile(lib, outputDir, url);
    assert file == JoinPath(outputDir, "");
    if outputDir == "" {
      assert file == "";
    } else if !EndsWith(outputDir, "/") {
      assert file == outputDir + "/";
      assert EndsWith(file, "/");
    }
    assert WriteFails(r.disk, file);
  }
}
