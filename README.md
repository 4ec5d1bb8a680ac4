# Site mirror core in Dafny

This project models the two working parts of a small website-mirroring tool and proves what they guarantee.

- **The link crawler** (`extract_links.py`):
  - `fetch_html_links` is a breadth-first crawl from a base URL. It collects the same-site links that end in `.html` until it has `max_pages` of them.
  - `save_links_to_file` writes those links one per line, as `'link',`.
- **The page downloader** (`download_pages.py`):
  - `fetch_and_save_html_resources` takes a list of URLs and strips each one.
  - It fetches each distinct URL once and writes the page text under the output directory.
  - It then downloads every `<link href>`, `<script src>` and `<img src>` of the page, unless something already exists at the resource's local path.

The modules:

- `Strings`: `str.strip` and `lstrip`, and first-occurrence deduplication (`Fresh`/`Dedup`).
- `Urls`: the three `urllib.parse` operations used, as an opaque library value: `urljoin`, `urlparse(...).netloc` and `urlparse(...).path`.
- `Crawl`: the specification side of the crawl:
  - the link filter;
  - the links a page contributes, and `Discovered`, the links a sequence of fetched pages discovers in order;
  - `CrawlState`, the loop state of `fetch_html_links` with ghost logs, and `Step`, one loop iteration on it;
  - the loop invariant, with one lemma per kind of loop step.
- `LinkExtractor`: the imperative crawl `FetchHtmlLinks`, with its loop body `VisitNext` and its inner loop `AddPageLinks`. It also holds the links-file writer and a reader that inverts it.
- `Paths`: how a URL path becomes a local file path, following `posixpath.join` and `lstrip('/')`.
- `FileTree`: the output directory as a map from file path to content, with what `os.path.exists`, `os.makedirs` and `open` decide.
- `PageSaver`:
  - the downloader as specification functions: `SaveResource`, `SaveResources`, `SavePage`, `SaveUrls` and `SaveAll`;
  - the imperative `FetchAndSaveHtmlResources`, `SavePageResources` and `SaveTagResources`, each proved equal to them.
- `SaverProperties` and `RunProperties`: what one page and what a whole call guarantee about the requests made and the output tree.

The outside world is modelled as values:

- **The crawler's web** is a finite map from each URL that answers with a success status to the `href` values of its `<a>` tags. A URL outside the map stands for `requests` raising `RequestException`.
- **The downloader's site** maps each answering URL to its response: `text`, `content`, and what BeautifulSoup finds in it.
- **An `OSError`** from `makedirs` or `open` is not caught by the script. It ends the whole call, and the model records that as `aborted`, with the tree as it stood.

A mirroring tool might be expected to behave differently in the following places. This code does not, and the model follows the code:

- **Only the empty URL path is saved as `index.html`.** A path of `/` maps to the output directory itself, so writing that page fails and ends the call (`RootPageAborts`).
- **The local path is not injective.** `/a` and `//a` share a file, and so do `""` and `/index.html` (`PagePathsNotInjective`).
- **Page references are not rewritten.** The page text is saved verbatim (`SavePageWrites`).
- **There are no retries, and the crawl is sequential.**
- **The crawler resolves every `href` against the base URL**, not against the page it was found on (`Candidates`). The downloader resolves resources against the page's own URL.
- **The crawler's cap counts collected links, not pages visited.** The last page fetched can push the count over `max_pages` (`FetchHtmlLinks`).

## Model

| member | source | states |
|---|---|---|
| Strings.Strip | download_pages.py:24 | the result is the input with all leading and trailing whitespace removed and nothing else: it is a contiguous slice, every dropped character is whitespace, and the result neither starts nor ends with whitespace |
| Strings.StripIdempotent | download_pages.py:24 | stripping a stripped URL changes nothing |
| Strings.TrimStart | download_pages.py:38 | `lstrip`: the result is a suffix of the input, every dropped character is one of the stripped characters, and the result does not start with one |
| Strings.Fresh | download_pages.py:23-27 | the elements a loop keeping a "seen" set lets through are exactly the input's elements that are not already seen, and there are no more of them than inputs |
| Strings.FreshDistinct | download_pages.py:25-27 | the URLs such a loop lets through never repeat |
| Strings.FreshSnoc | extract_links.py:33-35 | one more input extends the output by that element exactly when it is new |
| Strings.DistinctIffCard | extract_links.py:33-35 | a sequence has no duplicates exactly when its number of members equals its length |
| Crawl.Candidates | extract_links.py:25-32 | a page contributes at most one candidate per href |
| Crawl.CandidatesExactly | extract_links.py:26-32 | a URL is a candidate of a page exactly when some href of the page resolves against the base URL to it and it ends in `.html` on the base URL's host |
| Crawl.DiscoveredSnoc | extract_links.py:26-35 | fetching one more page appends, after everything the earlier pages discovered, that page's candidates not discovered before, in document order |
| Crawl.DiscoverStep | extract_links.py:13-35 | fetching a page while below the cap keeps the queue equal to the base URL followed by what the fetched pages discovered, and records that the cap was not reached before that page |
| Crawl.ReachedSnoc | extract_links.py:14-35 | fetching a page that the earlier fetched pages discovered keeps every fetched page after the first discovered by its predecessors |
| Crawl.ReachedAll | extract_links.py:14-35 | the page-by-page reachability invariant means: each fetched page after the first is among the links the pages fetched before it discovered |
| Crawl.PoppedWasDiscovered | extract_links.py:14-35 | once a page has been fetched, the URL at the head of the queue is not the initial base URL entry but one of the discovered links |
| Crawl.SelfLinkedPageNotReached | extract_links.py:13-35 | a page that only its own hrefs lead to is not reachable: after a base URL with no hrefs, a self-linked page cannot be the second page fetched |
| Crawl.StepKeepsInv | extract_links.py:13-38 | one loop iteration below the cap, whichever branch it takes, keeps the whole loop invariant: queue order, discovery order, soundness and completeness of the links, and the count bound |
| Crawl.CrawlStart | extract_links.py:9-11 | the initial state (nothing visited, the queue holding the base URL, no links) satisfies the loop invariant |
| Crawl.SkipStep | extract_links.py:14-16 | popping an already visited URL keeps the loop invariant |
| Crawl.FailStep | extract_links.py:14-38 | popping an unvisited URL whose request fails marks it visited, adds nothing, and keeps the loop invariant |
| Crawl.FoundStep | extract_links.py:14-35 | popping an unvisited URL that answers adds its fresh candidates to the links and to the end of the queue, and keeps the loop invariant |
| Crawl.CountVisit | extract_links.py:13-35 | visiting a page below the cap keeps the counting invariant: the cap is overshot at most by the last page's hrefs, and the first page fetched is the base URL |
| Crawl.QueueSkip | extract_links.py:14-16 | popping a visited URL keeps the queue invariant |
| Crawl.QueueVisit | extract_links.py:14-35 | popping an unvisited URL and appending the new links keeps the queue the base URL followed by each link once, with the fetched pages its deduplicated popped prefix |
| Crawl.QueuePop | extract_links.py:14-17 | popping one queue entry adds it to the visited set, and to the fetched pages exactly when it was not visited before |
| Crawl.QueueAppend | extract_links.py:33-35 | appending the new links to the queue leaves the popped part alone and extends the pending part and the set of queued links |
| Crawl.QueueAllPopped | extract_links.py:13-17 | in a state satisfying the queue invariant whose queue is fully popped, `to_visit` is empty and every link has been visited and fetched |
| Crawl.FailedPageStep | extract_links.py:37-38 | a page whose request fails leaves the links sound and complete |
| Crawl.PageStep | extract_links.py:26-35 | processing a page keeps every link sound (it passes the filter and was found on a fetched page) and the links complete (every candidate of every fetched page is collected) |
| Crawl.CrawlEnd | extract_links.py:13-40 | when the loop stops, the invariant and the exit condition give every postcondition of the crawl |
| LinkExtractor.AddStep | extract_links.py:26-35 | one iteration of the inner loop adds the resolved href exactly when it passes the filter and is not yet a link |
| LinkExtractor.AddPageLinks | extract_links.py:26-35 | the inner loop adds to the links, and appends to the queue in document order, exactly the page's candidates that are not already links, each once |
| LinkExtractor.VisitNext | extract_links.py:14-38 | one iteration pops the head of the queue and takes the skip, failed-request or collect branch exactly as the specification `Step` does; it either collects a link or shortens the queue, so the loop terminates |
| LinkExtractor.FetchHtmlLinks | extract_links.py:5-40 | every result link ends in `.html`, is on the base host, and was found on a page the crawl fetched; every such candidate of every fetched page is in the result; no page is fetched twice and pages are fetched in FIFO queue order; the queue is the base URL followed by exactly what the fetched pages discovered, page after page in document order; the first page fetched is the base URL and every later one is among the links discovered by the pages fetched before it; the loop stops on an empty queue or at the cap; the cap was not reached before the last page fetched, whose hrefs alone can overshoot it; a non-positive cap fetches nothing; otherwise the base URL is fetched first |
| LinkExtractor.LinksFileText | extract_links.py:46-48 | the file holds four characters per link besides the links themselves |
| LinkExtractor.NewlineIndex | extract_links.py:48 | the reader's line splitter finds the first newline, or reports that there is none |
| LinkExtractor.LinksFileRoundTrip | extract_links.py:46-48 | reading the file back line by line yields exactly the links written, in order, when no link contains a newline |
| Paths.LStripSlashes | download_pages.py:38 | `path.lstrip('/')` leaves a suffix that does not start with `/` and drops only slashes |
| Paths.JoinPath | download_pages.py:38 | `os.path.join` ends with its second argument, and starts with the first when the second is relative |
| Paths.LStripOneSlash | download_pages.py:38 | one leading slash before a relative path is stripped to that path |
| Paths.PageSpecialPaths | download_pages.py:35-38 | an empty URL path is saved as `index.html` in the output directory; a path of `/` maps to the output directory itself |
| Paths.PageAndResourcePathsAgree | download_pages.py:35-50 | apart from the empty path, a page and a resource with the same URL path share a local file |
| Paths.ResourcePathsCollide | download_pages.py:50 | two URL paths give the same local file exactly when they agree once their leading slashes are stripped |
| Paths.JoinRelativeInjective | download_pages.py:50 | joining one directory with different relative paths gives different paths |
| Paths.PageFilePath | download_pages.py:35-38 | a page's file path starts with the output directory and ends with the URL path without its leading slashes, or with `index.html` for an empty path |
| Paths.ResourceFilePath | download_pages.py:48-50 | a resource's file path starts with the output directory and ends with the URL path without its leading slashes |
| Paths.SavedUnderOutputDir | download_pages.py:35-50 | every page and resource file path starts, as text, with the output directory and a `/`: an absolute URL path never replaces the directory |
| Paths.ParentSegmentsEscape | download_pages.py:38-50 | a URL path `/` + rel is saved at the output directory, `/`, and rel verbatim, so `..` segments are kept and `/../../x.png` names a file above the output directory |
| Paths.PagePathsNotInjective | download_pages.py:35-38 | different URL paths can share a file: `""` and `/index.html`, `/a` and `//a` |
| FileTree.WriteKeepsWellFormed | download_pages.py:39-41 | a write that does not fail keeps the tree well formed, and the written path is then a file, not a directory |
| FileTree.RewriteExistingFile | download_pages.py:39-41 | in a well-formed tree, rewriting an existing file fails only when its path has no directory part |
| SaverProperties.ExistsGrows | download_pages.py:51 | a path that exists, as a file or as a directory holding one, still exists after the tree only gains files |
| PageSaver.AllReferences | download_pages.py:44-45 | the resource loop handles the `<link href>` values, then the `<script src>` values, then the `<img src>` values |
| PageSaver.SaveResource | download_pages.py:46-59 | one reference leaves the visited set and the request log alone, downloads nothing or exactly its own local file, and changes the state only when the call is still running, the resolved URL has a non-empty path and answers, and nothing exists at its local path |
| PageSaver.SaveResources | download_pages.py:44-59 | a page's references leave the visited set and the request log alone, and change nothing once an `OSError` has ended the call |
| PageSaver.SavePage | download_pages.py:24-62 | a URL not yet visited is added to the visited set and appended to the request log, whatever its request and writes do |
| PageSaver.SaveUrls | download_pages.py:23-27 | the request log is only extended, by at most one page per input URL, and nothing changes once an `OSError` has ended the call |
| PageSaver.SaveAll | download_pages.py:17-62 | a call requests at most one page per input URL |
| PageSaver.FetchAndSaveHtmlResources | download_pages.py:17-62 | the final tree, the abort flag, and the logs of requested pages and downloaded files are exactly those of the specification `SaveAll` |
| PageSaver.SavePageResources | download_pages.py:44-59 | the resource loops of a page leave exactly the state `SaveResources` gives for all of its references |
| PageSaver.SaveTagResources | download_pages.py:45-59 | the inner loop over one tag's references continues the specification over exactly those references |
| PageSaver.SaveResourcesStop | download_pages.py:55-57 | once an `OSError` has ended the call, later references change nothing |
| PageSaver.SaveUrlsStops | download_pages.py:23-62 | once an `OSError` has ended the call, later URLs change nothing |
| SaverProperties.AddFileOnlyAdds | download_pages.py:51-57 | downloading to a path where nothing existed adds exactly that file and that download, changes no other file, and keeps the tree well formed |
| SaverProperties.SaveResourceOnlyAdds | download_pages.py:46-59 | one reference either changes nothing, ends the call, or downloads one file that did not exist before |
| SaverProperties.SaveResourcesOnlyAdds | download_pages.py:44-59 | a page's resources never overwrite an existing file (the page included), never download one path twice, leave the visited set and request log alone, and keep the tree well formed |
| SaverProperties.SaveResourcesComplete | download_pages.py:44-59 | unless an `OSError` ended the call, every reference whose resolved URL has a non-empty path and answers has a file or directory at its local path afterwards |
| SaverProperties.SaveResourceSound | download_pages.py:46-57 | a download made for a reference is that reference's local file and holds the bytes of its response |
| SaverProperties.SaveResourcesSound | download_pages.py:44-59 | every file a page's resource loop downloads belongs to one of its references and holds that reference's response |
| SaverProperties.SavePageEffect | download_pages.py:24-41 | a page URL is marked visited and requested whatever happens; a failed request changes nothing else; a failed page write ends the call before anything is written |
| SaverProperties.SavePageWrites | download_pages.py:35-59 | once a page's resources are done, its file holds the response text verbatim, and every other file that existed is unchanged |
| SaverProperties.SavePageDownloads | download_pages.py:43-59 | a page's downloads all belong to its references and hold their responses; unless the call was ended, every wanted reference has a file at its local path |
| SaverProperties.RootPageAborts | download_pages.py:35-40 | a page that answers and whose URL path is `/` ends the whole call, with the tree unchanged |
| RunProperties.StripAll | download_pages.py:23-24 | one stripped URL per input URL, in order |
| RunProperties.SaveUrlsRequests | download_pages.py:21-30 | the pages requested are each distinct stripped input URL once, in order of first occurrence (a prefix of that list if the call was ended); the visited set is exactly the set of requested URLs |
| RunProperties.GrowsOnlyAdds | download_pages.py:48-57 | resource downloads keep the whole-call tree invariant |
| RunProperties.SavePageGrows | download_pages.py:27-59 | one more page keeps the whole-call tree invariant |
| RunProperties.SaveUrlsGrows | download_pages.py:23-62 | the tree invariant holds after every prefix of the input URLs |
| RunProperties.SaveAllTree | download_pages.py:17-62 | after a call, no file that existed is gone; every file is an old one, a downloaded resource or a requested page's file; no resource was downloaded twice or over a file that existed at the start; a well-formed tree stays well formed |

## Left out

- The GUI, the worker thread, `save_to_zip`, the `print` calls and the `__main__` blocks are not modelled.
- `requests`, BeautifulSoup and `urllib.parse` are not re-implemented:
  - the crawler's web and the downloader's site are finite maps from answering URLs to what the script reads from the response;
  - `urljoin`, `netloc` and `path` are opaque functions passed in as a `UrlLib` value.
- The file system is a map from file path to content. Path normalisation (`.`, `..`, repeated `/`) is not modelled, so such paths are distinct keys. Empty directories, and directories that `makedirs` creates before an `open` fails, are not represented.
- `OSError` is modelled only by the conditions under which the script's writes fail on a tree it could have built itself. Permissions, a full disk and other environmental failures are not modelled.
- `save_links_to_file` iterates a Python `set`. Its order is an input of `LinksFileText`, not something the model decides.
- `fetch_and_save_html_resources` never uses its `base_url` parameter, so the model takes no such argument.
- `Paths.SavedUnderOutputDir`: states only a textual prefix. Since `..` segments are not normalised, a URL path such as `/../../x.png` is written to `website_resources/../../x.png`, which the file system resolves outside the output directory (`ParentSegmentsEscape`).
- `urljoin` and `urlparse` are modelled as total functions. On a malformed URL such as `http://[x` they raise `ValueError`, which neither script catches and which ends the whole call; the model does not capture that abort.
- The web and the site are fixed snapshots: a URL requested again always gets the same answer, and no page changes during a call.
- The model is of a POSIX host: `os.path` is `posixpath`, and file names are case-sensitive, so two paths that differ only in case are different files.
- `LinkExtractor.FetchHtmlLinks`: `max_pages` is modelled as an unbounded integer, and the default of 100 is not modelled as a default argument.
- The opening of the links file, and the I/O errors it may raise, are not modelled.
