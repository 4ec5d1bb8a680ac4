/**
 * The local file path download_pages.py gives a fetched URL: the URL's path, with every leading
 * '/' removed, joined under the output directory with os.path.join (download_pages.py:35-38 for
 * pages, 48-50 for resources).
 */
module Paths {
  import opened Strings

  predicate IsSlash(c: char) {
    c == '/'
  }

  /** Python's s.lstrip('/'). */
  function LStripSlashes(s: string): (r: string)
    ensures r == [] || r[0] != '/'
    ensures |r| <= |s| && r == s[|s| - |r|..]
    ensures forall i :: 0 <= i < |s| - |r| ==> s[i] == '/'
  {
    TrimStart(s, IsSlash)
  }

  /**
   * posixpath.join(a, b): an absolute b replaces a; otherwise b is appended to a, with a '/'
   * in between unless a is empty or already ends with one.
   */
  function JoinPath(a: string, b: string): (r: string)
    ensures EndsWith(r, b)
    ensures !StartsWith(b, "/") ==> StartsWith(r, a)
  {
    if StartsWith(b, "/") then b
    else if a == "" || EndsWith(a, "/") then a + b
    else a + "/" + b
  }

  /**
   * The file a page is saved to: an empty URL path becomes "/index.html" first. The file is the
   * output directory followed by the URL path without its leading slashes.
   */
  function PageFilePath(outputDir: string, urlPath: string): (r: string)
    ensures StartsWith(r, outputDir)
    ensures urlPath == "" ==> EndsWith(r, "index.html")
    ensures urlPath != "" ==> EndsWith(r, LStripSlashes(urlPath))
  {
    LStripOneSlash("index.html");
    assert "/" + "index.html" == "/index.html";
    JoinPath(outputDir, LStripSlashes(if urlPath == "" then "/index.html" else urlPath))
  }

  /**
   * The file a resource is saved to (it is only called for a non-empty URL path): the output
   * directory followed by the URL path without its leading slashes.
   */
  function ResourceFilePath(outputDir: string, urlPath: string): (r: string)
    ensures StartsWith(r, outputDir) && EndsWith(r, LStripSlashes(urlPath))
  {
    JoinPath(outputDir, LStripSlashes(urlPath))
  }

  /** Stripping a single leading '/' from a path that does not start with another. */
  lemma LStripOneSlash(s: string)
    requires s == [] || s[0] != '/'
    ensures LStripSlashes("/" + s) == s
  {
    var t := "/" + s;
    assert t[1..] == s;
    assert LeadingCount(t, IsSlash) == 1;
  }

  /** Only the empty path is mapped to index.html; a page path of "/" maps to the directory itself. */
  lemma PageSpecialPaths(outputDir: string)
    ensures PageFilePath(outputDir, "") == JoinPath(outputDir, "index.html")
    ensures PageFilePath(outputDir, "/") == JoinPath(outputDir, "")
  {
    LStripOneSlash("index.html");
    assert "/" + "index.html" == "/index.html";
    LStripOneSlash("");
    assert "/" + "" == "/";
  }

  /** Apart from the empty path, a page and a resource with the same URL path share a file. */
  lemma PageAndResourcePathsAgree(outputDir: string, urlPath: string)
    requires urlPath != ""
    ensures PageFilePath(outputDir, urlPath) == ResourceFilePath(outputDir, urlPath)
  {
  }

  /** Two URL paths give the same file exactly when they agree after their leading slashes. */
  lemma ResourcePathsCollide(outputDir: string, p: string, q: string)
    ensures ResourceFilePath(outputDir, p) == ResourceFilePath(outputDir, q) <==> LStripSlashes(p) == LStripSlashes(q)
  {
    var a, b := LStripSlashes(p), LStripSlashes(q);
    if ResourceFilePath(outputDir, p) == ResourceFilePath(outputDir, q) {
      JoinRelativeInjective(outputDir, a, b);
    }
  }

  /** Joining a fixed directory with relative paths is injective. */
  lemma JoinRelativeInjective(dir: string, a: string, b: string)
    requires a == [] || a[0] != '/'
    requires b == [] || b[0] != '/'
    requires JoinPath(dir, a) == JoinPath(dir, b)
    ensures a == b
  {
    assert !StartsWith(a, "/") && !StartsWith(b, "/");
    var prefix := if dir == "" || EndsWith(dir, "/") then dir else dir + "/";
    assert JoinPath(dir, a) == prefix + a && JoinPath(dir, b) == prefix + b;
    assert a == (prefix + a)[|prefix|..];
    assert b == (prefix + b)[|prefix|..];
  }

  /**
   * Because leading slashes are stripped, every saved file path starts, as text, with the output
   * directory and a '/': the join never discards outputDir for an absolute URL path. This is a
   * textual prefix only; ParentSegmentsEscape shows a path that the file system resolves outside.
   */
  lemma SavedUnderOutputDir(outputDir: string, urlPath: string)
    requires outputDir != "" && !EndsWith(outputDir, "/")
    ensures StartsWith(ResourceFilePath(outputDir, urlPath), outputDir + "/")
    ensures StartsWith(PageFilePath(outputDir, urlPath), outputDir + "/")
  {
    var r := LStripSlashes(urlPath);
    assert !StartsWith(r, "/");
    assert (outputDir + "/" + r)[..|outputDir| + 1] == outputDir + "/";
    var r' := LStripSlashes(if urlPath == "" then "/index.html" else urlPath);
    assert !StartsWith(r', "/");
    assert (outputDir + "/" + r')[..|outputDir| + 1] == outputDir + "/";
  }

  /**
   * os.path.join does not normalise "..": a URL path "/" + rel is saved at outputDir + "/" + rel
   * verbatim, so "/../../x.png" under "website_resources" is "website_resources/../../x.png",
   * which names a file two levels above the output directory.
   */
  lemma ParentSegmentsEscape(outputDir: string, rel: string)
    requires outputDir != "" && !EndsWith(outputDir, "/")
    requires rel == [] || rel[0] != '/'
    ensures ResourceFilePath(outputDir, "/" + rel) == outputDir + "/" + rel
    ensures PageFilePath(outputDir, "/" + rel) == outputDir + "/" + rel
  {
  }

  /** Different URL paths can share a file: "" and "/index.html", or "/a" and "//a". */
  lemma PagePathsNotInjective(outputDir: string)
    ensures PageFilePath(outputDir, "") == PageFilePath(outputDir, "/index.html")
    ensures ResourceFilePath(outputDir, "/a") == ResourceFilePath(outputDir, "//a")
  {
    LStripOneSlash("a");
    assert "/" + "a" == "/a";
    assert LStripSlashes("//a") == "a" by {
      var r := LStripSlashes("//a");
      assert r == "//a"[3 - |r|..];
    }
  }
}
