/**
 * The downloader fetch_all_threads_final_cleaned.py, with the network made an input.
 *
 * `get_thread_links` walks the forum's listing pages and collects each thread link once,
 * with the title it first appeared with. It stops at a failed request, at a page without
 * thread links, or at a page whose links are the same as the previous page's. The network
 * is a function from a URL to its response, and page k is fetched from `ForumPageUrl(k)`.
 *
 * `download_thread_pages` derives the thread's folder name from its URL, then fetches the
 * pages 1..50 of the thread. It skips pages already saved and stops at a failed request, a
 * title that does not match the page number, or a page whose cleaned text equals that of
 * the page fetched before it.
 */
module Scraper {
  import opened Wrappers
  import opened Strings
  import opened TitleCheck

  const BaseUrl := "https://www.rollspel.nu"
  const ForumUrl := BaseUrl + "/forums/varulvsspel.81/"
  const MaxPages: nat := 50
  const ThreadsPath := "/threads/"

  /** The URL of listing page `page`. */
  function ForumPageUrl(page: nat): string {
    if page > 1 then ForumUrl + "page-" + NatToString(page) else ForumUrl
  }

  /** The URL of page `page` of the thread at `url`. */
  function PageUrl(url: string, page: nat): string {
    if page == 1 then url else url + "page-" + NatToString(page)
  }

  lemma NatToStringInjective(p: nat, q: nat)
    requires NatToString(p) == NatToString(q)
    ensures p == q
  {
  }

  /** Different listing pages are fetched from different URLs. */
  lemma ForumPageUrlInjective(p: nat, q: nat)
    requires 1 <= p && 1 <= q && ForumPageUrl(p) == ForumPageUrl(q)
    ensures p == q
  {
    if p != 1 && q != 1 {
      var a := ForumUrl + "page-";
      assert ForumPageUrl(p)[|a|..] == NatToString(p);
      assert ForumPageUrl(q)[|a|..] == NatToString(q);
      NatToStringInjective(p, q);
    }
  }

  /** Different pages of a thread are fetched from different URLs. */
  lemma PageUrlInjective(url: string, p: nat, q: nat)
    requires 1 <= p && 1 <= q && PageUrl(url, p) == PageUrl(url, q)
    ensures p == q
  {
    if p != 1 && q != 1 {
      var a := url + "page-";
      assert PageUrl(url, p)[|a|..] == NatToString(p);
      assert PageUrl(url, q)[|a|..] == NatToString(q);
      NatToStringInjective(p, q);
    }
  }

  // ---------------------------------------------------------------------------
  // Collecting thread links
  // ---------------------------------------------------------------------------

  /** A hit of the listing page's link selector: its href and its text. */
  datatype Link = Link(href: string, text: string)

  /** A listing page as the collector sees it: the status code and the selector hits in
      document order. */
  datatype ForumPage = ForumPage(status: int, links: seq<Link>)

  /** A collected thread: its title and its full URL. */
  datatype ThreadLink = ThreadLink(title: string, url: string)

  /** The hrefs the collector takes: starting with "/threads/" and containing a dot. */
  predicate Qualifies(href: string) {
    StartsWith(href, ThreadsPath) && '.' in href
  }

  function ToThread(l: Link): ThreadLink {
    ThreadLink(Strip(l.text), BaseUrl + l.href)
  }

  /** The qualifying links of `ls`, in order. */
  function Candidates(ls: seq<Link>): (r: seq<ThreadLink>)
    ensures |r| <= |ls|
  {
    if ls == [] then []
    else
      var n := |ls| - 1;
      Candidates(ls[..n]) + (if Qualifies(ls[n].href) then [ToThread(ls[n])] else [])
  }

  function Urls(xs: seq<ThreadLink>): set<string> {
    set x | x in xs :: x.url
  }

  /** The full URLs of the qualifying links of `ls`: `current_urls`. */
  function UrlSet(ls: seq<Link>): set<string> {
    if ls == [] then {}
    else
      var n := |ls| - 1;
      UrlSet(ls[..n]) + if Qualifies(ls[n].href) then {BaseUrl + ls[n].href} else {}
  }

  /** `current_urls` are the URLs of the page's candidates. */
  lemma {:induction false} UrlSetOfCandidates(ls: seq<Link>)
    ensures UrlSet(ls) == Urls(Candidates(ls))
  {
    if ls != [] {
      var n := |ls| - 1;
      UrlSetOfCandidates(ls[..n]);
      if Qualifies(ls[n].href) {
        UrlsSnoc(Candidates(ls[..n]), ToThread(ls[n]));
      }
    }
  }

  /** Each URL of `xs` once, at its first position, with its first title. */
  function Dedup(xs: seq<ThreadLink>): (r: seq<ThreadLink>)
    ensures |r| <= |xs|
  {
    if xs == [] then []
    else
      var n := |xs| - 1;
      var d := Dedup(xs[..n]);
      if xs[n].url in Urls(d) then d else d + [xs[n]]
  }

  lemma {:induction false} DedupUrls(xs: seq<ThreadLink>)
    ensures Urls(Dedup(xs)) == Urls(xs)
  {
    if xs != [] {
      var n := |xs| - 1;
      DedupUrls(xs[..n]);
      assert xs == xs[..n] + [xs[n]];
      assert Urls(xs) == Urls(xs[..n]) + {xs[n].url};
      var d := Dedup(xs[..n]);
      if xs[n].url !in Urls(d) {
        assert Urls(d + [xs[n]]) == Urls(d) + {xs[n].url};
      }
    }
  }

  lemma UrlsSnoc(d: seq<ThreadLink>, x: ThreadLink)
    ensures Urls(d + [x]) == Urls(d) + {x.url}
  {
  }

  lemma DedupSnoc(ys: seq<ThreadLink>, x: ThreadLink)
    ensures Dedup(ys + [x]) == if x.url in Urls(Dedup(ys)) then Dedup(ys) else Dedup(ys) + [x]
  {
    assert (ys + [x])[..|ys|] == ys;
  }

  /** No URL is collected twice. */
  lemma {:induction false} DedupDistinct(xs: seq<ThreadLink>)
    ensures forall i, j :: 0 <= i < j < |Dedup(xs)| ==> Dedup(xs)[i].url != Dedup(xs)[j].url
  {
    if xs != [] {
      var n := |xs| - 1;
      DedupDistinct(xs[..n]);
      var d := Dedup(xs[..n]);
      if xs[n].url !in Urls(d) {
        var r := d + [xs[n]];
        assert Dedup(xs) == r;
        forall i, j | 0 <= i < j < |r| ensures r[i].url != r[j].url {
          assert r[i] == d[i];
          if j < |d| {
            assert r[j] == d[j];
          } else {
            assert r[j] == xs[n] && d[i] in d;
            assert d[i].url in Urls(d);
          }
        }
      }
    }
  }

  /** `i` is the first position of `xs` with `u`'s URL. */
  ghost predicate FirstSeen(xs: seq<ThreadLink>, i: int) {
    0 <= i < |xs| && forall k :: 0 <= k < i ==> xs[k].url != xs[i].url
  }

  /** Each collected link is the link its URL was first seen with. */
  lemma {:induction false} DedupFirstSeen(xs: seq<ThreadLink>, x: ThreadLink)
    requires x in Dedup(xs)
    ensures exists i :: FirstSeen(xs, i) && xs[i] == x
  {
    var n := |xs| - 1;
    var d := Dedup(xs[..n]);
    if x in d {
      DedupFirstSeen(xs[..n], x);
      var i :| FirstSeen(xs[..n], i) && xs[..n][i] == x;
      FirstSeenPrefix(xs, n, i);
    } else {
      DedupLast(xs);
    }
  }

  /** A first sighting in a prefix is one in the whole. */
  lemma FirstSeenPrefix(xs: seq<ThreadLink>, n: nat, i: int)
    requires n <= |xs| && FirstSeen(xs[..n], i)
    ensures FirstSeen(xs, i) && xs[i] == xs[..n][i]
  {
    forall k | 0 <= k < i ensures xs[k].url != xs[i].url {
      assert xs[k] == xs[..n][k];
    }
  }

  /** When the last link is collected, its URL is seen there for the first time. */
  lemma DedupLast(xs: seq<ThreadLink>)
    requires xs != []
    requires Dedup(xs) != Dedup(xs[..|xs| - 1])
    ensures FirstSeen(xs, |xs| - 1) && Dedup(xs) == Dedup(xs[..|xs| - 1]) + [xs[|xs| - 1]]
  {
    var n := |xs| - 1;
    var d := Dedup(xs[..n]);
    assert xs[n].url !in Urls(d);
    DedupUrls(xs[..n]);
    forall k | 0 <= k < n ensures xs[k].url != xs[n].url {
      assert xs[..n][k] in xs[..n];
    }
  }

  /** Collected links keep the order in which their URLs were first seen: the first
      sightings of two collected links come in the order of the links. */
  lemma {:induction false} DedupOrder(xs: seq<ThreadLink>, a: int, b: int)
    requires 0 <= a < b < |Dedup(xs)|
    ensures exists i, j :: 0 <= i < j < |xs| && FirstSeen(xs, i) && FirstSeen(xs, j)
                           && xs[i] == Dedup(xs)[a] && xs[j] == Dedup(xs)[b]
  {
    var n := |xs| - 1;
    var d := Dedup(xs[..n]);
    if b < |d| {
      DedupOrder(xs[..n], a, b);
      var i, j :| 0 <= i < j < n && FirstSeen(xs[..n], i) && FirstSeen(xs[..n], j)
                  && xs[..n][i] == d[a] && xs[..n][j] == d[b];
      FirstSeenPrefix(xs, n, i);
      FirstSeenPrefix(xs, n, j);
    } else {
      assert d[a] in d;
      DedupFirstSeen(xs[..n], d[a]);
      var i :| FirstSeen(xs[..n], i) && xs[..n][i] == d[a];
      FirstSeenPrefix(xs, n, i);
      assert |Dedup(xs)| != |d|;
      DedupLast(xs);
      assert xs[i] == Dedup(xs)[a] && xs[n] == Dedup(xs)[b];
    }
  }

  /** The index of the first listing page not collected, scanning from page `k` (0-based)
      with `prev` the URL set of the page before it. */
  function Taken(pages: seq<ForumPage>, k: nat, prev: set<string>): (m: nat)
    requires k <= |pages|
    ensures k <= m <= |pages|
    decreases |pages| - k
  {
    if k == |pages| then k
    else
      var pg := pages[k];
      if pg.status != 200 || pg.links == [] then k
      else if UrlSet(pg.links) == prev then k + 1
      else Taken(pages, k + 1, UrlSet(pg.links))
  }

  /** The qualifying links of the first `m` listing pages, in order. */
  function Collected(pages: seq<ForumPage>, m: nat): seq<ThreadLink>
    requires m <= |pages|
  {
    if m == 0 then [] else Collected(pages, m - 1) + Candidates(pages[m - 1].links)
  }

  /** What `get_thread_links` returns: the collected pages' links, each URL once. */
  function ThreadLinks(pages: seq<ForumPage>): seq<ThreadLink> {
    Dedup(Collected(pages, Taken(pages, 0, {})))
  }

  /** The responses of the listing pages 1..n, each fetched from its own URL. */
  function Listing(fetch: string -> ForumPage, n: nat): (r: seq<ForumPage>)
    ensures |r| == n
    ensures forall k :: 0 <= k < n ==> r[k] == fetch(ForumPageUrl(k + 1))
  {
    seq(n, k requires 0 <= k < n => fetch(ForumPageUrl(k + 1)))
  }

  /** `get_thread_links`, with `fetch` giving the response for a URL and `n` the number of
      listing pages the forum answers for; the run also ends after page `n`. */
  method GetThreadLinks(fetch: string -> ForumPage, n: nat) returns (links: seq<ThreadLink>)
    ensures links == ThreadLinks(Listing(fetch, n))
  {
    ghost var pages := Listing(fetch, n);
    links := [];
    var seen: set<string> := {};
    var prev: set<string> := {};
    var page := 0;
    ghost var stop := Taken(pages, 0, {});
    while page < n
      invariant page <= n
      invariant links == Dedup(Collected(pages, page))
      invariant seen == Urls(links)
      invariant Taken(pages, page, prev) == stop
      decreases n - page
    {
      var pg := fetch(ForumPageUrl(page + 1));
      assert pg == pages[page];
      if pg.status != 200 || pg.links == [] {
        break;
      }
      var current;
      links, seen, current := AddLinks(pg.links, Collected(pages, page), links, seen);
      assert Collected(pages, page + 1) == Collected(pages, page) + Candidates(pg.links);
      page := page + 1;
      if current == prev {
        break;
      }
      prev := current;
    }
  }

  lemma CandidatesSnoc(ls: seq<Link>, j: nat)
    requires j < |ls|
    ensures Candidates(ls[..j + 1])
            == Candidates(ls[..j]) + if Qualifies(ls[j].href) then [ToThread(ls[j])] else []
  {
    assert ls[..j + 1][..j] == ls[..j];
  }

  /** The loop over one listing page's links `ls`, `before` being the qualifying links of
      the pages before it: the links and seen URLs after it, and the page's URL set. */
  method AddLinks(ls: seq<Link>, ghost before: seq<ThreadLink>, links: seq<ThreadLink>, seen: set<string>)
    returns (links': seq<ThreadLink>, seen': set<string>, current: set<string>)
    requires links == Dedup(before) && seen == Urls(links)
    ensures links' == Dedup(before + Candidates(ls)) && seen' == Urls(links')
    ensures current == UrlSet(ls)
  {
    links', seen', current := links, seen, {};
    var j := 0;
    assert ls[..0] == [] && before + [] == before;
    while j < |ls|
      invariant j <= |ls|
      invariant links' == Dedup(before + Candidates(ls[..j]))
      invariant seen' == Urls(links')
      invariant current == UrlSet(ls[..j])
    {
      AddLink(ls, j, before, links', seen');
      UrlSetSnoc(ls, j);
      var l := ls[j];
      if Qualifies(l.href) {
        var x := ToThread(l);
        current := current + {x.url};
        if x.url !in seen' {
          links' := links' + [x];
          seen' := seen' + {x.url};
        }
      }
      j := j + 1;
    }
    assert ls[..|ls|] == ls;
  }

  lemma UrlSetSnoc(ls: seq<Link>, j: nat)
    requires j < |ls|
    ensures UrlSet(ls[..j + 1])
            == UrlSet(ls[..j]) + if Qualifies(ls[j].href) then {BaseUrl + ls[j].href} else {}
  {
    assert ls[..j + 1][..j] == ls[..j];
  }

  /** One step of the loop over a page's links keeps the collected links deduplicated. */
  lemma AddLink(ls: seq<Link>, j: nat, before: seq<ThreadLink>, links: seq<ThreadLink>, seen: set<string>)
    requires j < |ls|
    requires links == Dedup(before + Candidates(ls[..j])) && seen == Urls(links)
    ensures var l := ls[j];
            var x := ToThread(l);
            var links' := if Qualifies(l.href) && x.url !in seen then links + [x] else links;
            && links' == Dedup(before + Candidates(ls[..j + 1]))
            && Urls(links') == (if Qualifies(l.href) && x.url !in seen then seen + {x.url} else seen)
  {
    CandidatesSnoc(ls, j);
    if Qualifies(ls[j].href) {
      var x := ToThread(ls[j]);
      var ys := before + Candidates(ls[..j]);
      assert before + Candidates(ls[..j + 1]) == ys + [x];
      DedupSnoc(ys, x);
      UrlsSnoc(links, x);
    } else {
      assert Candidates(ls[..j + 1]) == Candidates(ls[..j]);
    }
  }

  /** The collected links are exactly the qualifying links of the collected listing pages,
      each URL once. */
  lemma ThreadLinksFacts(pages: seq<ForumPage>)
    ensures var r := ThreadLinks(pages);
            && Urls(r) == Urls(Collected(pages, Taken(pages, 0, {})))
            && forall i, j :: 0 <= i < j < |r| ==> r[i].url != r[j].url
  {
    var xs := Collected(pages, Taken(pages, 0, {}));
    DedupUrls(xs);
    DedupDistinct(xs);
  }

  /** The URL set the page at index `i` is compared with: the previous page's, or `prev`
      for the first page scanned. */
  function Before(pages: seq<ForumPage>, k: nat, prev: set<string>, i: nat): set<string>
    requires k <= i < |pages|
  {
    if i == k then prev else UrlSet(pages[i - 1].links)
  }

  /** Every page the collector takes came back with status 200 and thread links, and all
      but the last differ from the page before them. */
  lemma {:induction false} TakenPages(pages: seq<ForumPage>, k: nat, prev: set<string>)
    requires k <= |pages|
    ensures var m := Taken(pages, k, prev);
            && (forall i :: k <= i < m ==> pages[i].status == 200 && pages[i].links != [])
            && (forall i :: k <= i < m - 1 ==> UrlSet(pages[i].links) != Before(pages, k, prev, i))
    decreases |pages| - k
  {
    if k < |pages| {
      var pg := pages[k];
      if pg.status == 200 && pg.links != [] && UrlSet(pg.links) != prev {
        TakenPages(pages, k + 1, UrlSet(pg.links));
      }
    }
  }

  /** The collector stops only when the responses run out, a page fails or has no thread
      links, or the last page taken repeats the one before it. */
  lemma {:induction false} TakenStops(pages: seq<ForumPage>, k: nat, prev: set<string>)
    requires k <= |pages|
    ensures var m := Taken(pages, k, prev);
            || m == |pages|
            || pages[m].status != 200 || pages[m].links == []
            || (k < m && UrlSet(pages[m - 1].links) == Before(pages, k, prev, m - 1))
    decreases |pages| - k
  {
    if k < |pages| {
      var pg := pages[k];
      if pg.status == 200 && pg.links != [] && UrlSet(pg.links) != prev {
        TakenStops(pages, k + 1, UrlSet(pg.links));
      }
    }
  }

  // ---------------------------------------------------------------------------
  // Downloading a thread
  // ---------------------------------------------------------------------------

  /** A dot followed by a digit starts at `k`. */
  predicate DotDigitAt(u: string, k: int) {
    0 <= k && k + 1 < |u| && u[k] == '.' && IsDigit(u[k + 1])
  }

  /** `.+?` followed by `\.\d`, the run starting at `j` and scanned on from `m`: the first
      `r >= m` at which a dot and a digit start, provided no line break comes first
      (`.` does not match one). */
  function LazyEnd(u: string, j: nat, m: nat): (r: Option<nat>)
    requires j < m <= |u|
    ensures r.Some? ==> m <= r.value && DotDigitAt(u, r.value)
    ensures r.Some? ==> forall k :: m <= k < r.value ==> !DotDigitAt(u, k)
    ensures r.Some? ==> forall k :: m - 1 <= k < r.value ==> u[k] != '\n'
    ensures r.None? ==> forall e :: m <= e && DotDigitAt(u, e) ==> '\n' in u[m - 1..e]
    decreases |u| - m
  {
    if u[m - 1] == '\n' then None
    else if m + 1 < |u| && u[m] == '.' && IsDigit(u[m + 1]) then Some(m)
    else if m < |u| then LazyEnd(u, j, m + 1)
    else None
  }

  /** `/threads/(.+?\.\d+)` matched at `i`, with its group. */
  function SlugAt(u: string, i: nat): (r: Option<string>)
    requires i <= |u|
  {
    if i + |ThreadsPath| < |u| && u[i..i + |ThreadsPath|] == ThreadsPath then
      var j := i + |ThreadsPath|;
      match LazyEnd(u, j, j + 1)
      case Some(m) => Some(u[j..ClassEnd(u, m + 1, IsDigit)])
      case None => None
    else None
  }

  /** `re.search(r"/threads/(.+?\.\d+)", url)`'s group, from position `i` on. */
  function SlugFrom(u: string, i: nat): Option<string>
    requires i <= |u|
    decreases |u| - i
  {
    match SlugAt(u, i)
    case Some(s) => Some(s)
    case None => if i < |u| then SlugFrom(u, i + 1) else None
  }

  /** The thread's folder name, if its URL has one. */
  function Slug(url: string): Option<string> {
    SlugFrom(url, 0)
  }

  /** A thread's URL as the forum writes it. */
  function ThreadUrl(name: string, id: nat): string {
    BaseUrl + ThreadsPath + name + "." + NatToString(id) + "/"
  }

  /** No dot in `name` is followed by a digit: the lazy group cannot end early. */
  predicate NoDotDigit(name: string) {
    forall k :: 0 <= k < |name| - 1 ==> !(name[k] == '.' && IsDigit(name[k + 1]))
  }

  lemma SlugSkips(u: string, i: nat, j: nat)
    requires i <= j <= |u|
    requires forall k :: i <= k < j ==> SlugAt(u, k).None?
    ensures SlugFrom(u, i) == SlugFrom(u, j)
    decreases j - i
  {
    if i < j {
      SlugSkips(u, i + 1, j);
    }
  }

  /** The lazy run over `name` ends right after it. */
  lemma {:induction false} LazyEndOverName(u: string, j: nat, m: nat, name: string)
    requires j < m <= j + |name| && j + |name| + 1 < |u|
    requires u[j..j + |name|] == name && u[j + |name|] == '.' && IsDigit(u[j + |name| + 1])
    requires '\n' !in name && NoDotDigit(name)
    ensures LazyEnd(u, j, m) == Some(j + |name|)
    decreases j + |name| - m
  {
    assert u[m - 1] == name[m - 1 - j];
    if m < j + |name| {
      assert u[m] == name[m - j];
      if m + 1 < j + |name| {
        assert u[m + 1] == name[m + 1 - j];
      }
      LazyEndOverName(u, j, m + 1, name);
    }
  }

  /** No match starts at a character other than a slash. */
  lemma NoSlugAt(u: string, k: nat)
    requires k < |u| && u[k] != '/'
    ensures SlugAt(u, k).None?
  {
    if k + |ThreadsPath| < |u| {
      assert u[k..k + |ThreadsPath|][0] == u[k];
    }
  }

  /** Nor at a slash not followed by a 't'. */
  lemma NoSlugAtSlash(u: string, k: nat)
    requires k + 1 < |u| && u[k + 1] != 't'
    ensures SlugAt(u, k).None?
  {
    if k + |ThreadsPath| < |u| {
      assert u[k..k + |ThreadsPath|][1] == u[k + 1];
    }
  }

  /** The site's address holds no match. */
  lemma HostHasNoSlug(u: string, rest: string)
    requires u == BaseUrl + rest && |rest| >= 1
    ensures forall k :: 0 <= k < |BaseUrl| ==> SlugAt(u, k).None?
  {
    var a := "https:";
    var b := "www.rollspel.nu";
    assert BaseUrl == a + "//" + b;
    assert '/' !in a && '/' !in b;
    forall k | 0 <= k < |BaseUrl| ensures SlugAt(u, k).None? {
      if k < |a| {
        assert u[k] == a[k] && a[k] in a;
        NoSlugAt(u, k);
      } else if k == |a| {
        assert u[k + 1] == '/';
        NoSlugAtSlash(u, k);
      } else if k == |a| + 1 {
        assert u[k + 1] == 'w';
        NoSlugAtSlash(u, k);
      } else {
        var q := k - |a| - 2;
        assert u[k] == b[q] && b[q] in b;
        NoSlugAt(u, k);
      }
    }
  }

  /** A run of digits ended by a slash. */
  lemma DigitsRun(u: string, i: nat, d: string)
    requires i + |d| < |u| && u[i..i + |d|] == d && u[i + |d|] == '/'
    requires forall k :: 0 <= k < |d| ==> IsDigit(d[k])
    ensures ClassEnd(u, i, IsDigit) == i + |d|
  {
    forall k | i <= k < i + |d| ensures IsDigit(u[k]) {
      assert u[k] == u[i..i + |d|][k - i];
    }
    ClassEndAt(u, i, i + |d|, IsDigit);
  }

  /** A match at `i` of "/threads/", a name without line breaks or early dot-digit, a dot,
      and digits ended by a slash. */
  lemma SlugAtParts(u: string, i: nat, name: string, d: string)
    requires var m := i + |ThreadsPath| + |name|;
             && m + 1 + |d| < |u| && d != []
             && u[i..i + |ThreadsPath|] == ThreadsPath
             && u[i + |ThreadsPath|..m] == name && u[m] == '.'
             && u[m + 1..m + 1 + |d|] == d && u[m + 1 + |d|] == '/'
             && forall k :: 0 <= k < |d| ==> IsDigit(d[k])
    requires name != [] && '\n' !in name && NoDotDigit(name)
    ensures SlugAt(u, i) == Some(u[i + |ThreadsPath|..i + |ThreadsPath| + |name| + 1 + |d|])
  {
    var j := i + |ThreadsPath|;
    var m := j + |name|;
    assert u[m + 1] == u[m + 1..m + 1 + |d|][0];
    LazyEndOverName(u, j, j + 1, name);
    DigitsRun(u, m + 1, d);
  }

  /** Where the parts of `a + b + c + "." + d + "/"` lie. */
  lemma UrlParts(a: string, b: string, c: string, d: string, u: string)
    requires u == a + b + c + "." + d + "/"
    ensures var i := |a|; var j := i + |b|; var m := j + |c|;
            && |u| == m + |d| + 2
            && u[i..j] == b && u[j..m] == c && u[m] == '.'
            && u[m + 1..m + 1 + |d|] == d && u[m + 1 + |d|] == '/'
            && u[j..m + 1 + |d|] == c + "." + d
  {
    var i := |a|;
    var j := i + |b|;
    var m := j + |c|;
    assert u[i..j] == b by {
      forall k | 0 <= k < |b| ensures u[i..j][k] == b[k] {
        assert u[i + k] == b[k];
      }
    }
    assert u[j..m] == c by {
      forall k | 0 <= k < |c| ensures u[j..m][k] == c[k] {
        assert u[j + k] == c[k];
      }
    }
    assert u[m + 1..m + 1 + |d|] == d by {
      forall k | 0 <= k < |d| ensures u[m + 1..m + 1 + |d|][k] == d[k] {
        assert u[m + 1 + k] == d[k];
      }
    }
    assert u[j..m + 1 + |d|] == u[j..m] + [u[m]] + u[m + 1..m + 1 + |d|];
  }

  /** Right after "/threads/", the match takes the thread's name and number. */
  lemma SlugAfterHost(host: string, name: string, id: nat)
    requires name != [] && '\n' !in name && NoDotDigit(name)
    ensures var u := host + ThreadsPath + name + "." + NatToString(id) + "/";
            SlugAt(u, |host|) == Some(name + "." + NatToString(id))
  {
    var d := NatToString(id);
    var u := host + ThreadsPath + name + "." + d + "/";
    UrlParts(host, ThreadsPath, name, d, u);
    SlugAtParts(u, |host|, name, d);
  }

  /** The folder name of a thread is its name and number as they appear in its URL. */
  lemma SlugOfThreadUrl(name: string, id: nat)
    requires name != [] && '\n' !in name && NoDotDigit(name)
    ensures Slug(ThreadUrl(name, id)) == Some(name + "." + NatToString(id))
  {
    var rest := ThreadsPath + name + "." + NatToString(id) + "/";
    var u := ThreadUrl(name, id);
    assert u == BaseUrl + rest;
    HostHasNoSlug(u, rest);
    SlugSkips(u, 0, |BaseUrl|);
    SlugAfterHost(BaseUrl, name, id);
    assert BaseUrl + rest == BaseUrl + ThreadsPath + name + "." + NatToString(id) + "/";
  }

  /** A folder name comes from the URL: it follows "/threads/" there and ends in a dot and
      digits. */
  lemma {:induction false} SlugSound(u: string, i: nat, s: string)
    requires i <= |u| && SlugFrom(u, i) == Some(s)
    ensures Contains(u, ThreadsPath + s)
    ensures exists k :: 0 < k < |s| - 1 && s[k] == '.' && forall q :: k < q < |s| ==> IsDigit(s[q])
    decreases |u| - i
  {
    if SlugAt(u, i).Some? {
      SlugAtSound(u, i, s);
    } else {
      SlugSound(u, i + 1, s);
    }
  }

  /** A match at `i` lies at `i`, and its group ends in a dot and digits. */
  lemma SlugAtSound(u: string, i: nat, s: string)
    requires i <= |u| && SlugAt(u, i) == Some(s)
    ensures ThreadsPath + s <= u[i..]
    ensures exists k :: 0 < k < |s| - 1 && s[k] == '.' && forall q :: k < q < |s| ==> IsDigit(s[q])
  {
    var j := i + |ThreadsPath|;
    var m := LazyEnd(u, j, j + 1).value;
    var c := ClassEnd(u, m + 1, IsDigit);
    assert s == u[j..c];
    assert u[i..c] == ThreadsPath + s;
    assert u[i..][..c - i] == u[i..c];
    var k := m - j;
    assert c > m + 1 && s[k] == '.';
    assert forall q :: k < q < |s| ==> s[q] == u[j + q] && IsDigit(u[j + q]);
  }

  /** The group is as short as `.+?` makes it: its first character is any but a line break,
      the first later dot followed by a digit ends the lazy part, no line break comes
      before it, and behind it `\d+` takes every digit there is. */
  lemma SlugAtShortest(u: string, i: nat, s: string)
    requires i <= |u| && SlugAt(u, i) == Some(s)
    ensures var j := i + |ThreadsPath|;
            && j + |s| <= |u| && s == u[j..j + |s|]
            && (j + |s| == |u| || !IsDigit(u[j + |s|]))
            && exists k :: 0 < k < |s| - 1 && DotDigitAt(s, k)
                           && (forall q :: 0 < q < k ==> !DotDigitAt(s, q))
                           && (forall q :: 0 <= q < k ==> s[q] != '\n')
                           && (forall q :: k < q < |s| ==> IsDigit(s[q]))
  {
    var j := i + |ThreadsPath|;
    var m := LazyEnd(u, j, j + 1).value;
    var c := ClassEnd(u, m + 1, IsDigit);
    assert s == u[j..c];
    GroupShape(u, j, m, c, s);
  }

  /** The group read off the positions the scan found. */
  lemma GroupShape(u: string, j: nat, m: nat, c: nat, s: string)
    requires j < m && m + 1 < c <= |u| && s == u[j..c] && DotDigitAt(u, m)
    requires forall k :: j + 1 <= k < m ==> !DotDigitAt(u, k)
    requires forall k :: j <= k < m ==> u[k] != '\n'
    requires forall k :: m + 1 <= k < c ==> IsDigit(u[k])
    ensures exists k :: 0 < k < |s| - 1 && DotDigitAt(s, k)
                        && (forall q :: 0 < q < k ==> !DotDigitAt(s, q))
                        && (forall q :: 0 <= q < k ==> s[q] != '\n')
                        && (forall q :: k < q < |s| ==> IsDigit(s[q]))
  {
    var k := m - j;
    assert s[k] == u[m] && s[k + 1] == u[m + 1];
    forall q | 0 < q < k ensures !DotDigitAt(s, q) {
      assert !DotDigitAt(u, j + q);
      assert s[q] == u[j + q] && s[q + 1] == u[j + q + 1];
    }
    forall q | 0 <= q < k ensures s[q] != '\n' {
      assert s[q] == u[j + q];
    }
    forall q | k < q < |s| ensures IsDigit(s[q]) {
      assert s[q] == u[j + q];
    }
    assert 0 < k < |s| - 1 && DotDigitAt(s, k);
  }

  /** Where "/threads/" starts a candidate that yields no group, every dot-digit pair behind
      it has a line break before it. */
  lemma SlugAtNone(u: string, i: nat)
    requires i + |ThreadsPath| < |u| && u[i..i + |ThreadsPath|] == ThreadsPath
    requires SlugAt(u, i).None?
    ensures var j := i + |ThreadsPath|;
            forall e :: j < e && DotDigitAt(u, e) ==> '\n' in u[j..e]
  {
  }

  /** `re.search` takes the leftmost start that yields a match: `SlugFrom` is the group of
      the first start with one, and None exactly when no start has one. */
  lemma SlugFromLeftmost(u: string, i: nat)
    requires i <= |u|
    ensures SlugFrom(u, i).Some? ==>
              exists k :: i <= k <= |u| && SlugAt(u, k) == SlugFrom(u, i)
                          && forall q :: i <= q < k ==> SlugAt(u, q).None?
    ensures SlugFrom(u, i).None? ==> forall k :: i <= k <= |u| ==> SlugAt(u, k).None?
  {
    if SlugFrom(u, i).Some? {
      var k := SlugFromFirst(u, i);
    } else {
      SlugFromNone(u, i);
    }
  }

  /** The start whose group `SlugFrom` returns, with no match before it. */
  lemma {:induction false} SlugFromFirst(u: string, i: nat) returns (k: nat)
    requires i <= |u| && SlugFrom(u, i).Some?
    ensures i <= k <= |u| && SlugAt(u, k) == SlugFrom(u, i)
    ensures forall q :: i <= q < k ==> SlugAt(u, q).None?
    decreases |u| - i
  {
    if SlugAt(u, i).Some? {
      k := i;
    } else {
      k := SlugFromFirst(u, i + 1);
    }
  }

  /** No group from `i` on means no start from `i` on matches. */
  lemma {:induction false} SlugFromNone(u: string, i: nat)
    requires i <= |u| && SlugFrom(u, i).None?
    ensures forall k :: i <= k <= |u| ==> SlugAt(u, k).None?
    decreases |u| - i
  {
    if i < |u| {
      SlugFromNone(u, i + 1);
    }
  }

  /** A page response: the status code, the page's title text (None without a title tag)
      and the page's text after the cleaning that removes per-request tokens. */
  datatype PageResponse = PageResponse(status: int, title: Option<string>, cleaned: string)

  /** A response the downloader saves, unless it repeats the page before it. */
  predicate Fits(r: PageResponse, page: nat) {
    r.status == 200 && VerifyTitle(r.title, page).ok
  }

  /** The pages `download_thread_pages` saves from page `page` on, given the pages already
      on disk, the response to each page's URL, and the cleaned text of the page fetched
      last. */
  function SavePages(saved: set<nat>, resp: nat -> PageResponse, page: nat, last: Option<string>): seq<nat>
    requires page >= 1
    decreases MaxPages + 1 - page
  {
    if page > MaxPages then []
    else if page in saved then SavePages(saved, resp, page + 1, last)
    else
      var r := resp(page);
      if !Fits(r, page) || Some(r.cleaned) == last then []
      else [page] + SavePages(saved, resp, page + 1, Some(r.cleaned))
  }

  /** `download_thread_pages`: nothing when the URL has no folder name, else the pages it
      saves, in order, page `p` being fetched from `PageUrl(url, p)`. */
  function Download(url: string, saved: set<nat>, fetch: string -> PageResponse): seq<nat> {
    if Slug(url).None? then [] else SavePages(saved, (p: nat) => fetch(PageUrl(url, p)), 1, None)
  }

  /** A page is saved only if it was not on disk, lies in page..50, and came back with
      status 200 and a title matching its number. */
  lemma {:induction false} SavePagesFacts(saved: set<nat>, resp: nat -> PageResponse, page: nat,
                                          last: Option<string>)
    requires page >= 1
    ensures forall p :: p in SavePages(saved, resp, page, last) ==>
              page <= p <= MaxPages && p !in saved && Fits(resp(p), p)
    decreases MaxPages + 1 - page
  {
    if page <= MaxPages {
      if page in saved {
        SavePagesFacts(saved, resp, page + 1, last);
      } else if SavePages(saved, resp, page, last) != [] {
        SavePagesCons(saved, resp, page, last);
        SavePagesFacts(saved, resp, page + 1, Some(resp(page).cleaned));
      }
    }
  }

  /** The download stops at the first page not on disk that it does not save: no later page
      is saved. The saved pages are thus a run of the pages missing from disk. */
  lemma {:induction false} SavePagesStops(saved: set<nat>, resp: nat -> PageResponse, page: nat,
                                          last: Option<string>, p: nat, q: nat)
    requires page >= 1 && page <= p < q && p !in saved
    requires p !in SavePages(saved, resp, page, last)
    ensures q !in SavePages(saved, resp, page, last)
    decreases MaxPages + 1 - page
  {
    if page <= MaxPages {
      if page in saved {
        SavePagesStops(saved, resp, page + 1, last, p, q);
      } else if SavePages(saved, resp, page, last) != [] {
        SavePagesCons(saved, resp, page, last);
        SavePagesStops(saved, resp, page + 1, Some(resp(page).cleaned), p, q);
      }
    }
  }

  /** A page not on disk that saves anything saves itself first. */
  lemma SavePagesCons(saved: set<nat>, resp: nat -> PageResponse, page: nat, last: Option<string>)
    requires page >= 1 && page !in saved && SavePages(saved, resp, page, last) != []
    ensures SavePages(saved, resp, page, last)
            == [page] + SavePages(saved, resp, page + 1, Some(resp(page).cleaned))
  {
  }

  ghost predicate Increasing(r: seq<nat>) {
    forall i, j :: 0 <= i < j < |r| ==> r[i] < r[j]
  }

  lemma IncreasingCons(p: nat, rest: seq<nat>)
    requires Increasing(rest) && forall q :: q in rest ==> p < q
    ensures Increasing([p] + rest)
  {
    forall i, j | 0 <= i < j < |[p] + rest| ensures ([p] + rest)[i] < ([p] + rest)[j] {
      assert ([p] + rest)[j] == rest[j - 1] && rest[j - 1] in rest;
      if i > 0 {
        assert ([p] + rest)[i] == rest[i - 1];
      }
    }
  }

  /** Pages are saved in increasing order. */
  lemma {:induction false} SavePagesIncreasing(saved: set<nat>, resp: nat -> PageResponse, page: nat,
                                               last: Option<string>)
    requires page >= 1
    ensures Increasing(SavePages(saved, resp, page, last))
    decreases MaxPages + 1 - page
  {
    if page <= MaxPages {
      if page in saved {
        SavePagesIncreasing(saved, resp, page + 1, last);
      } else {
        var c := Some(resp(page).cleaned);
        if SavePages(saved, resp, page, last) != [] {
          var rest := SavePages(saved, resp, page + 1, c);
          SavePagesCons(saved, resp, page, last);
          SavePagesIncreasing(saved, resp, page + 1, c);
          SavePagesFacts(saved, resp, page + 1, c);
          IncreasingCons(page, rest);
        }
      }
    }
  }

  /** The first page saved differs in its cleaned text from the page fetched before. */
  lemma {:induction false} SavePagesFirst(saved: set<nat>, resp: nat -> PageResponse, page: nat,
                                          last: Option<string>)
    requires page >= 1
    requires SavePages(saved, resp, page, last) != []
    ensures Some(resp(SavePages(saved, resp, page, last)[0]).cleaned) != last
    decreases MaxPages + 1 - page
  {
    if page in saved {
      SavePagesFirst(saved, resp, page + 1, last);
    }
  }

  /** No two pages of `r` in a row have the same cleaned text. */
  ghost predicate Changes(r: seq<nat>, resp: nat -> PageResponse) {
    forall i :: 0 <= i < |r| - 1 ==> resp(r[i]).cleaned != resp(r[i + 1]).cleaned
  }

  lemma ChangesCons(p: nat, rest: seq<nat>, resp: nat -> PageResponse)
    requires Changes(rest, resp)
    requires rest != [] ==> resp(rest[0]).cleaned != resp(p).cleaned
    ensures Changes([p] + rest, resp)
  {
    forall i | 0 <= i < |[p] + rest| - 1
      ensures resp(([p] + rest)[i]).cleaned != resp(([p] + rest)[i + 1]).cleaned
    {
      if i > 0 {
        assert ([p] + rest)[i] == rest[i - 1] && ([p] + rest)[i + 1] == rest[i];
      }
    }
  }

  /** Two pages saved one after the other differ in their cleaned text. */
  lemma {:induction false} SavePagesChange(saved: set<nat>, resp: nat -> PageResponse, page: nat,
                                           last: Option<string>)
    requires page >= 1
    ensures Changes(SavePages(saved, resp, page, last), resp)
    decreases MaxPages + 1 - page
  {
    if page > MaxPages {
    } else if page in saved {
      SavePagesChange(saved, resp, page + 1, last);
    } else if SavePages(saved, resp, page, last) != [] {
      var c := Some(resp(page).cleaned);
      var rest := SavePages(saved, resp, page + 1, c);
      SavePagesCons(saved, resp, page, last);
      SavePagesChange(saved, resp, page + 1, c);
      if rest != [] {
        SavePagesFirst(saved, resp, page + 1, c);
      }
      ChangesCons(page, rest, resp);
    }
  }

  /** The cleaned text of the last page fetched in page..q-1, that is the last one not on
      disk, or `last` when there is none. */
  function LastFetched(saved: set<nat>, resp: nat -> PageResponse, page: nat, q: nat,
                       last: Option<string>): Option<string>
    requires page <= q
    decreases q - page
  {
    if q == page then last
    else if q - 1 in saved then LastFetched(saved, resp, page, q - 1, last)
    else Some(resp(q - 1).cleaned)
  }

  /** Moving the start past one page: a page on disk changes nothing, a fetched page
      becomes the last one fetched. */
  lemma {:induction false} LastFetchedShift(saved: set<nat>, resp: nat -> PageResponse, page: nat, q: nat,
                                            last: Option<string>)
    requires page < q
    ensures LastFetched(saved, resp, page, q, last)
            == LastFetched(saved, resp, page + 1, q,
                           if page in saved then last else Some(resp(page).cleaned))
    decreases q - page
  {
    if q - 1 > page && q - 1 in saved {
      LastFetchedShift(saved, resp, page, q - 1, last);
    }
  }

  /** The loop stops for a reason: if every page before `q` not on disk was saved and `q`
      was not, then `q` failed its request or its title check, or repeated the cleaned text
      of the page fetched before it. */
  lemma {:induction false} SavePagesStop(saved: set<nat>, resp: nat -> PageResponse, page: nat,
                                         last: Option<string>, q: nat)
    requires 1 <= page <= q <= MaxPages && q !in saved
    requires forall p :: page <= p < q && p !in saved ==> p in SavePages(saved, resp, page, last)
    requires q !in SavePages(saved, resp, page, last)
    ensures !Fits(resp(q), q) || Some(resp(q).cleaned) == LastFetched(saved, resp, page, q, last)
    decreases q - page
  {
    if page < q {
      var last' := if page in saved then last else Some(resp(page).cleaned);
      if page !in saved {
        SavePagesCons(saved, resp, page, last);
      }
      SavePagesStop(saved, resp, page + 1, last', q);
      LastFetchedShift(saved, resp, page, q, last);
    }
  }

  /** What a download saves: pages 1..50 not already on disk, in increasing order, each
      fetched from its own page URL with status 200 and a title matching its number, and
      no two in a row with the same cleaned text. It stops at the first page missing from
      disk that it does not save. Without a folder name it saves nothing. */
  lemma DownloadFacts(url: string, saved: set<nat>, fetch: string -> PageResponse)
    ensures var r := Download(url, saved, fetch);
            && (Slug(url).None? ==> r == [])
            && (forall p :: p in r ==> 1 <= p <= MaxPages && p !in saved && Fits(fetch(PageUrl(url, p)), p))
            && Increasing(r)
            && (forall i :: 0 <= i < |r| - 1 ==> fetch(PageUrl(url, r[i])).cleaned != fetch(PageUrl(url, r[i + 1])).cleaned)
            && (forall p, q :: 1 <= p < q && p !in saved && p !in r ==> q !in r)
  {
    if Slug(url).Some? {
      var resp := (p: nat) => fetch(PageUrl(url, p));
      SavePagesFacts(saved, resp, 1, None);
      SavePagesIncreasing(saved, resp, 1, None);
      SavePagesChange(saved, resp, 1, None);
      forall p: nat, q: nat | 1 <= p < q && p !in saved && p !in SavePages(saved, resp, 1, None)
        ensures q !in SavePages(saved, resp, 1, None)
      {
        SavePagesStops(saved, resp, 1, None, p, q);
      }
    } else {
      assert Increasing([]);
    }
  }
}
