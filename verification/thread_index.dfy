/**
 * The thread index `data/threads.json` that create_threads_json.py writes: one entry per
 * downloaded thread folder whose first page has a usable title, with the cleaned title,
 * the folder name as slug and the number of saved pages.
 *
 * Reading the directory and parsing HTML are inputs here: a folder is given with its
 * entries and with the text of page1.html's `<title>` (None when it has no title tag).
 */
module ThreadIndex {
  import opened Wrappers
  import opened Strings
  import opened Sorting

  const NecroPrefix := "Nekromanti - "
  const GamePrefix := "Varulv - "
  const SiteMark := "| rollspel.nu"

  // ---------------------------------------------------------------------------
  // Title cleaning
  // ---------------------------------------------------------------------------

  /** How much of `s` goes when a leading "Nekromanti - " is dropped once, then a leading
      "Varulv - " once: one prefix, both or neither. */
  function PrefixLen(s: string): (k: nat)
    ensures k <= |s|
    ensures k == 0 || k == |NecroPrefix| || k == |GamePrefix| || k == |NecroPrefix| + |GamePrefix|
  {
    var n := if StartsWith(s, NecroPrefix) then |NecroPrefix| else 0;
    if StartsWith(s[n..], GamePrefix) then n + |GamePrefix| else n
  }

  /** The title with its prefixes dropped. */
  function Unprefix(s: string): string {
    s[PrefixLen(s)..]
  }

  /** `extract_title_cleaned` once the title text is extracted: strip, drop the prefixes,
      then, if the site's suffix occurs, delete every occurrence and strip again. No title,
      or an empty one, gives None. */
  function CleanTitle(title: Option<string>): (r: Option<string>)
    ensures r.None? <==> title.None? || title.value == ""
  {
    if title.None? || title.value == "" then None
    else
      var t2 := Unprefix(Strip(title.value));
      Some(if Contains(t2, SiteMark) then Strip(DeleteAll(t2, SiteMark)) else t2)
  }

  /** A title with neither prefix nor the site's suffix comes back stripped and otherwise
      unchanged. */
  lemma CleanTitlePlain(t: string)
    requires t != ""
    requires !StartsWith(Strip(t), NecroPrefix) && !StartsWith(Strip(t), GamePrefix)
    requires !Contains(Strip(t), SiteMark)
    ensures CleanTitle(Some(t)) == Some(Strip(t))
  {
  }

  /** Without the site's suffix, cleaning only drops one or both prefixes from the front of
      the stripped title. */
  lemma CleanTitleDropsPrefixes(t: string)
    requires t != "" && !Contains(Strip(t), SiteMark)
    ensures var r := CleanTitle(Some(t)).value;
            var s := Strip(t);
            var k := |s| - |r|;
            && (k == 0 || k == |NecroPrefix| || k == |GamePrefix| || k == |NecroPrefix| + |GamePrefix|)
            && 0 <= k && r == s[k..]
  {
    var s := Strip(t);
    PrefixesKeepNoMark(s);
    assert CleanTitle(Some(t)).value == Unprefix(s);
  }

  /** Dropping prefixes cannot make the site's suffix appear. */
  lemma PrefixesKeepNoMark(s: string)
    requires !Contains(s, SiteMark)
    ensures !Contains(Unprefix(s), SiteMark)
  {
  }

  /** With the site's suffix in the title, the prefixes cannot hide it, since '|' occurs in
      neither. The text before its leftmost occurrence is kept, that occurrence is deleted,
      and so is every later one (`DeleteAllAtFirst`); the result is stripped and at least
      the suffix's length shorter than the stripped title. */
  lemma CleanTitleDropsSuffix(t: string)
    requires t != "" && Contains(Strip(t), SiteMark)
    ensures var r := CleanTitle(Some(t)).value;
            var u := Unprefix(Strip(t));
            && Contains(u, SiteMark)
            && var i := Find(u, SiteMark);
               && r == Strip(u[..i] + DeleteAll(u[i + |SiteMark|..], SiteMark))
               && Strip(r) == r && |r| <= |Strip(t)| - |SiteMark|
  {
    var t0 := Strip(t);
    PrefixesKeepMark(t0);
    CleanTitleMarked(t);
    MarkCleaned(Unprefix(t0));
  }

  lemma CleanTitleMarked(t: string)
    requires t != "" && Contains(Unprefix(Strip(t)), SiteMark)
    ensures CleanTitle(Some(t)) == Some(Strip(DeleteAll(Unprefix(Strip(t)), SiteMark)))
  {
  }

  /** The prefixes cannot hide the site's suffix, since '|' occurs in neither. */
  lemma PrefixesKeepMark(t0: string)
    requires Contains(t0, SiteMark)
    ensures Contains(Unprefix(t0), SiteMark)
  {
    var t1 := if StartsWith(t0, NecroPrefix) then t0[|NecroPrefix|..] else t0;
    if StartsWith(t0, NecroPrefix) {
      assert '|' !in NecroPrefix;
      ContainsPastPrefix(t0, NecroPrefix, SiteMark);
    }
    if StartsWith(t1, GamePrefix) {
      assert '|' !in GamePrefix;
      ContainsPastPrefix(t1, GamePrefix, SiteMark);
    }
  }

  lemma MarkCleaned(u: string)
    requires Contains(u, SiteMark)
    ensures var r := Strip(DeleteAll(u, SiteMark));
            var i := Find(u, SiteMark);
            && r == Strip(u[..i] + DeleteAll(u[i + |SiteMark|..], SiteMark))
            && Strip(r) == r && |r| <= |u| - |SiteMark|
  {
    var i := Find(u, SiteMark);
    var a, b := u[..i], u[i + |SiteMark|..];
    assert u == a + SiteMark + b;
    DeleteAllAtFirst(a, SiteMark, b);
    MarkDeleted(u);
  }

  lemma MarkDeleted(t2: string)
    requires Contains(t2, SiteMark)
    ensures var r := Strip(DeleteAll(t2, SiteMark));
            Strip(r) == r && |r| <= |t2| - |SiteMark|
  {
    var d := DeleteAll(t2, SiteMark);
    DeleteShrinks(t2);
    StripIdempotent(d, IsPySpace);
    StripShorter(d);
  }

  lemma DeleteShrinks(t2: string)
    requires Contains(t2, SiteMark)
    ensures |DeleteAll(t2, SiteMark)| <= |t2| - |SiteMark|
  {
    var n := Occurrences(t2, SiteMark);
    assert |SiteMark| * n >= |SiteMark|;
  }

  lemma StripShorter(s: string)
    ensures |Strip(s)| <= |s|
  {
    var i :| IsStripOf(s, Strip(s), i, IsPySpace);
  }

  /** "Nekromanti - " goes at most once: behind it, a second copy stays. */
  lemma NecroPrefixOnce(t: string, x: string)
    requires t != "" && Strip(t) == NecroPrefix + x
    requires StartsWith(x, NecroPrefix) && !Contains(x, SiteMark)
    ensures CleanTitle(Some(t)) == Some(x)
  {
    assert (NecroPrefix + x)[|NecroPrefix|..] == x;
  }

  /** "Varulv - " is looked for only after "Nekromanti - ": a "Nekromanti - " behind it stays. */
  lemma PrefixOrder(t: string, x: string)
    requires t != "" && Strip(t) == GamePrefix + x && !Contains(x, SiteMark)
    ensures CleanTitle(Some(t)) == Some(x)
  {
    assert (GamePrefix + x)[0] != NecroPrefix[0];
    assert (GamePrefix + x)[|GamePrefix|..] == x;
  }

  // ---------------------------------------------------------------------------
  // Page count
  // ---------------------------------------------------------------------------

  /** The names `count_pages` counts. */
  predicate IsPageFile(name: string) {
    StartsWith(name, "page") && EndsWith(name, ".html")
  }

  /** `count_pages` over the folder's entries. */
  function CountPages(names: seq<string>): (n: nat)
    ensures n <= |names|
  {
    if names == [] then 0
    else CountPages(names[..|names| - 1]) + (if IsPageFile(names[|names| - 1]) then 1 else 0)
  }

  /** No page file, no count; every entry a page file, every entry counted. */
  lemma {:induction false} CountPagesExtremes(names: seq<string>)
    ensures CountPages(names) == 0 <==> forall i :: 0 <= i < |names| ==> !IsPageFile(names[i])
    ensures CountPages(names) == |names| <==> forall i :: 0 <= i < |names| ==> IsPageFile(names[i])
  {
    if names != [] {
      var n := |names| - 1;
      CountPagesExtremes(names[..n]);
      assert forall i :: 0 <= i < n ==> names[..n][i] == names[i];
    }
  }

  lemma {:induction false} CountPagesAppend(a: seq<string>, b: seq<string>)
    ensures CountPages(a + b) == CountPages(a) + CountPages(b)
  {
    if b == [] {
      assert a + b == a;
    } else {
      var n := |b| - 1;
      assert (a + b)[..|a + b| - 1] == a + b[..n];
      CountPagesAppend(a, b[..n]);
    }
  }

  /** The count does not depend on the order `os.listdir` returns the names in. */
  lemma {:induction false} CountPagesOrderFree(a: seq<string>, b: seq<string>)
    requires multiset(a) == multiset(b)
    ensures CountPages(a) == CountPages(b)
  {
    if a != [] {
      var n := |a| - 1;
      var x := a[n];
      assert a == a[..n] + [x];
      assert x in multiset(b);
      var k :| 0 <= k < |b| && b[k] == x;
      var b' := b[..k] + b[k + 1..];
      assert b == b[..k] + [x] + b[k + 1..];
      assert multiset(a[..n]) == multiset(a) - multiset{x};
      assert multiset(b') == multiset(b) - multiset{x};
      CountPagesOrderFree(a[..n], b');
      CountPagesAppend(b[..k] + [x], b[k + 1..]);
      CountPagesAppend(b[..k], [x]);
      CountPagesAppend(b[..k], b[k + 1..]);
      assert CountPages([x]) == CountPages([]) + (if IsPageFile(x) then 1 else 0);
    }
  }

  // ---------------------------------------------------------------------------
  // The index
  // ---------------------------------------------------------------------------

  /** An entry of the data directory: its name, whether it is a directory, its own
      entries, and, when it holds a file page1.html, that page's title text (None when the
      page has no title tag). */
  datatype Folder = Folder(name: string, isDir: bool, entries: seq<string>, page1: Option<Option<string>>)

  /** An element of threads.json. */
  datatype Thread = Thread(name: string, slug: string, pages: nat)

  predicate NameLe(a: Folder, b: Folder) {
    StrLe(a.name, b.name)
  }

  lemma NameLeIsTotalPreorder()
    ensures TotalPreorder(NameLe)
  {
    forall a: Folder, b: Folder ensures NameLe(a, b) || NameLe(b, a) {
      StrLeTotal(a.name, b.name);
    }
    forall a: Folder, b: Folder, c: Folder | NameLe(a, b) && NameLe(b, c) ensures NameLe(a, c) {
      StrLeTrans(a.name, b.name, c.name);
    }
  }

  /** The entry a folder contributes, if any: a directory with a page1.html whose cleaned
      title is non-empty. */
  function Entry(f: Folder): (r: Option<Thread>)
  {
    if f.isDir && f.page1.Some? then
      match CleanTitle(f.page1.value)
      case Some(title) =>
        if title != "" then Some(Thread(title, f.name, CountPages(f.entries))) else None
      case None => None
    else None
  }

  /** The entries of `fs`, in order. */
  function Select(fs: seq<Folder>): seq<Thread> {
    if fs == [] then []
    else
      var n := |fs| - 1;
      Select(fs[..n]) + (match Entry(fs[n]) case Some(e) => [e] case None => [])
  }

  /** `main`: the folders in sorted name order, each contributing its entry. */
  function BuildIndex(folders: seq<Folder>): seq<Thread> {
    Select(SortBy(folders, NameLe))
  }

  /** Every entry of `Select(fs)` is some folder's entry; none appears out of thin air. */
  lemma {:induction false} SelectSound(fs: seq<Folder>, e: Thread)
    requires e in Select(fs)
    ensures exists i :: 0 <= i < |fs| && Entry(fs[i]) == Some(e)
  {
    var n := |fs| - 1;
    if e in Select(fs[..n]) {
      SelectSound(fs[..n], e);
      var i :| 0 <= i < n && Entry(fs[..n][i]) == Some(e);
      assert fs[..n][i] == fs[i];
    } else {
      assert Entry(fs[n]) == Some(e);
    }
  }

  /** Every folder's entry is in `Select(fs)`. */
  lemma {:induction false} SelectComplete(fs: seq<Folder>, i: nat)
    requires i < |fs| && Entry(fs[i]).Some?
    ensures Entry(fs[i]).value in Select(fs)
  {
    var n := |fs| - 1;
    if i < n {
      SelectComplete(fs[..n], i);
      assert fs[..n][i] == fs[i];
    }
  }

  ghost predicate SlugSorted(ts: seq<Thread>) {
    forall i, j :: 0 <= i < j < |ts| ==> StrLe(ts[i].slug, ts[j].slug)
  }

  /** A folder's entry is filed under the folder's name. */
  lemma EntrySlug(f: Folder)
    requires Entry(f).Some?
    ensures Entry(f).value.slug == f.name
  {
  }

  lemma SlugSortedSnoc(p: seq<Thread>, e: Thread)
    requires SlugSorted(p)
    requires forall i :: 0 <= i < |p| ==> StrLe(p[i].slug, e.slug)
    ensures SlugSorted(p + [e])
  {
  }

  /** The slugs of `Select(fs)` follow the order of `fs`. */
  lemma {:induction false} SelectOrdered(fs: seq<Folder>)
    requires SortedBy(fs, NameLe)
    ensures SlugSorted(Select(fs))
  {
    if fs != [] {
      var n := |fs| - 1;
      var p := Select(fs[..n]);
      assert SortedBy(fs[..n], NameLe);
      SelectOrdered(fs[..n]);
      if Entry(fs[n]).Some? {
        var e := Entry(fs[n]).value;
        EntrySlug(fs[n]);
        forall i | 0 <= i < |p| ensures StrLe(p[i].slug, e.slug) {
          SelectSound(fs[..n], p[i]);
          var k :| 0 <= k < n && Entry(fs[..n][k]) == Some(p[i]);
          assert fs[..n][k] == fs[k];
          EntrySlug(fs[k]);
          assert NameLe(fs[k], fs[n]);
        }
        SlugSortedSnoc(p, e);
        assert Select(fs) == p + [e];
      } else {
        assert Select(fs) == p;
      }
    }
  }

  /** threads.json lists exactly the eligible folders' entries, by slug in sorted order,
      with the cleaned title and the page count. */
  lemma IndexFacts(folders: seq<Folder>)
    ensures forall e :: e in BuildIndex(folders) ==>
              exists f :: f in folders && Entry(f) == Some(e)
    ensures forall f :: f in folders && Entry(f).Some? ==> Entry(f).value in BuildIndex(folders)
    ensures var r := BuildIndex(folders);
            forall i, j :: 0 <= i < j < |r| ==> StrLe(r[i].slug, r[j].slug)
  {
    var s := SortBy(folders, NameLe);
    NameLeIsTotalPreorder();
    SortBySorted(folders, NameLe);
    forall e | e in BuildIndex(folders) ensures exists f :: f in folders && Entry(f) == Some(e) {
      SelectSound(s, e);
      var i :| 0 <= i < |s| && Entry(s[i]) == Some(e);
      assert s[i] in multiset(folders);
    }
    forall f | f in folders && Entry(f).Some? ensures Entry(f).value in BuildIndex(folders) {
      assert f in multiset(s);
      var i :| 0 <= i < |s| && s[i] == f;
      SelectComplete(s, i);
    }
    SelectOrdered(s);
  }

  /** What an entry says about its folder. */
  lemma EntryFacts(f: Folder)
    requires Entry(f).Some?
    ensures var e := Entry(f).value;
            && f.isDir && f.page1.Some? && CleanTitle(f.page1.value) == Some(e.name)
            && e.name != "" && e.slug == f.name && e.pages == CountPages(f.entries)
  {
  }
}
