/**
 * The two title checks of the scraper scripts. A saved page `pageN.html` of a thread must
 * carry "| Page N |" in its `<title>` when N > 1, and must not carry a page segment when
 * N = 1. fetch_all_threads_final_cleaned.py checks each page as it downloads it
 * (`verify_title_against_page_number`); find_duplicates.py checks the saved folders
 * afterwards (`verify_titles`), and its page-1 rule is the stricter one.
 *
 * The title text is an input (None when the page has no `<title>` tag). The regular
 * expressions are modelled by scanners: every `\s*`, `\s+` and `\d+` in them is followed by
 * a character its class does not contain, so a match takes the longest run and there is
 * no backtracking to model.
 */
module TitleCheck {
  import opened Wrappers
  import opened Strings
  import opened Sorting

  /** The end of the run of `cls` characters of `t` that starts at `i`. */
  function ClassEnd(t: string, i: nat, cls: char -> bool): (j: nat)
    requires i <= |t|
    ensures i <= j <= |t|
    ensures forall k :: i <= k < j ==> cls(t[k])
    ensures j < |t| ==> !cls(t[j])
    decreases |t| - i
  {
    if i < |t| && cls(t[i]) then ClassEnd(t, i + 1, cls) else i
  }

  /** The run is determined by where it stops. */
  lemma ClassEndAt(t: string, i: nat, j: nat, cls: char -> bool)
    requires i <= j <= |t|
    requires forall k :: i <= k < j ==> cls(t[k])
    requires j < |t| ==> !cls(t[j])
    ensures ClassEnd(t, i, cls) == j
    decreases j - i
  {
    if i < j {
      ClassEndAt(t, i + 1, j, cls);
    }
  }

  // ---------------------------------------------------------------------------
  // The page segment
  // ---------------------------------------------------------------------------

  /** `\|\s*Page\s+\d+\s*\|` matched at `i`, with the digits it matched. */
  function SegmentAt(t: string, i: nat): Option<string>
    requires i <= |t|
  {
    if i < |t| && t[i] == '|' then
      var a := ClassEnd(t, i + 1, IsPySpace);
      if a + 4 <= |t| && t[a..a + 4] == "Page" then
        var b := ClassEnd(t, a + 4, IsPySpace);
        var c := ClassEnd(t, b, IsDigit);
        if b > a + 4 && c > b then
          var e := ClassEnd(t, c, IsPySpace);
          if e < |t| && t[e] == '|' then Some(t[b..c]) else None
        else None
      else None
    else None
  }

  /** `\|\s*Page\s+1\s*\|` matched at `i`. */
  predicate PageOneAt(t: string, i: nat)
    requires i <= |t|
  {
    && i < |t| && t[i] == '|'
    && var a := ClassEnd(t, i + 1, IsPySpace);
    && a + 4 <= |t| && t[a..a + 4] == "Page"
    && var b := ClassEnd(t, a + 4, IsPySpace);
    && b > a + 4 && b < |t| && t[b] == '1'
    && var e := ClassEnd(t, b + 1, IsPySpace);
    && e < |t| && t[e] == '|'
  }

  /** `re.search(r'\|\s*Page\s+\d+\s*\|', t)` finds a match. */
  predicate HasSegment(t: string) {
    exists i | 0 <= i < |t| :: SegmentAt(t, i).Some?
  }

  /** `re.search(r'\|\s*Page\s+1\s*\|', t)` finds a match. */
  predicate HasPageOne(t: string) {
    exists i | 0 <= i < |t| :: PageOneAt(t, i)
  }

  /** The page-1 pattern is the general one with the number written "1". */
  lemma PageOneIsSegmentOne(t: string, i: nat)
    requires i <= |t|
    ensures PageOneAt(t, i) <==> SegmentAt(t, i) == Some("1")
  {
    if PageOneAt(t, i) {
      PageOneThenSegment(t, i);
    }
    if SegmentAt(t, i) == Some("1") {
      SegmentThenPageOne(t, i);
    }
  }

  lemma PageOneThenSegment(t: string, i: nat)
    requires i <= |t| && PageOneAt(t, i)
    ensures SegmentAt(t, i) == Some("1")
  {
    var a := ClassEnd(t, i + 1, IsPySpace);
    var b := ClassEnd(t, a + 4, IsPySpace);
    ClassEndAt(t, b, b + 1, IsDigit);
    assert t[b..b + 1] == "1";
  }

  lemma SegmentThenPageOne(t: string, i: nat)
    requires i <= |t| && SegmentAt(t, i) == Some("1")
    ensures PageOneAt(t, i)
  {
    var a := ClassEnd(t, i + 1, IsPySpace);
    var b := ClassEnd(t, a + 4, IsPySpace);
    var c := ClassEnd(t, b, IsDigit);
    assert |t[b..c]| == 1 && t[b] == t[b..c][0];
  }

  /** Hence whatever the page-1 pattern finds, the general pattern finds. */
  lemma PageOneIsSegment(t: string)
    requires HasPageOne(t)
    ensures HasSegment(t)
  {
    var i :| 0 <= i < |t| && PageOneAt(t, i);
    PageOneIsSegmentOne(t, i);
  }

  /** The segment a page N > 1 must carry: `f"| Page {N} |"`. */
  function Expected(n: nat): string {
    "| Page " + NatToString(n) + " |"
  }

  /** The segment a page must carry is one the general pattern finds, with its number. */
  lemma ExpectedIsSegment(t: string, n: nat)
    requires Contains(t, Expected(n))
    ensures exists i :: 0 <= i < |t| && SegmentAt(t, i) == Some(NatToString(n))
  {
    var i :| 0 <= i <= |t| && Expected(n) <= t[i..];
    ExpectedChars(t, i, NatToString(n));
    SegmentOfShape(t, i, NatToString(n));
  }

  lemma ExpectedChars(t: string, i: nat, d: string)
    requires i <= |t| && "| Page " + d + " |" <= t[i..]
    ensures i + 9 + |d| <= |t|
    ensures t[i] == '|' && t[i + 1] == ' ' && t[i + 2..i + 6] == "Page" && t[i + 6] == ' '
    ensures t[i + 7..i + 7 + |d|] == d && t[i + 7 + |d|] == ' ' && t[i + 8 + |d|] == '|'
  {
    var x := "| Page " + d + " |";
    assert t[i..i + |x|] == x;
    assert x[2..6] == "Page" && x[7..7 + |d|] == d;
  }

  lemma SegmentOfShape(t: string, i: nat, d: string)
    requires |d| > 0 && forall k :: 0 <= k < |d| ==> IsDigit(d[k])
    requires i + 9 + |d| <= |t|
    requires t[i] == '|' && t[i + 1] == ' ' && t[i + 2..i + 6] == "Page" && t[i + 6] == ' '
    requires t[i + 7..i + 7 + |d|] == d && t[i + 7 + |d|] == ' ' && t[i + 8 + |d|] == '|'
    ensures SegmentAt(t, i) == Some(d)
  {
    assert t[i + 2] == 'P';
    ClassEndAt(t, i + 1, i + 2, IsPySpace);
    assert t[i + 7] == d[0];
    ClassEndAt(t, i + 6, i + 7, IsPySpace);
    assert forall k :: i + 7 <= k < i + 7 + |d| ==> t[k] == d[k - i - 7];
    ClassEndAt(t, i + 7, i + 7 + |d|, IsDigit);
    ClassEndAt(t, i + 7 + |d|, i + 8 + |d|, IsPySpace);
  }

  // ---------------------------------------------------------------------------
  // verify_title_against_page_number
  // ---------------------------------------------------------------------------

  datatype Verdict = Verdict(ok: bool, msg: string)

  /** `verify_title_against_page_number` with the page's title text. */
  function VerifyTitle(title: Option<string>, page: int): (r: Verdict)
    ensures r.ok ==> r.msg == ""
    ensures !r.ok ==> r.msg != ""
    ensures title.None? ==> !r.ok
  {
    if title.None? then Verdict(false, "Sidan saknar <title>")
    else
      var t := Strip(title.value);
      if page == 1 && HasPageOne(t) then
        Verdict(false, "page1.html har felaktigt '" + Expected(1) + "' i titeln: " + t)
      else if page > 1 && !Contains(t, Expected(page)) then
        Verdict(false, "Sidan " + NatToString(page) + " saknar '" + Expected(page) + "' i titeln: " + t)
      else Verdict(true, "")
  }

  // ---------------------------------------------------------------------------
  // verify_titles
  // ---------------------------------------------------------------------------

  /** `re.match(r"page(\d+)\.html", name)`: anchored at the start only, the page number
      being the value of the digits. */
  function ParsePageName(name: string): Option<nat> {
    if |name| >= 4 && name[..4] == "page" then
      var c := ClassEnd(name, 4, IsDigit);
      if c > 4 && c + 5 <= |name| && name[c..c + 5] == ".html" then Some(DigitsValue(name[4..c]))
      else None
    else None
  }

  /** The name the downloader saves page `n` under. */
  function PageName(n: nat): string {
    "page" + NatToString(n) + ".html"
  }

  /** Every name that starts with a page file's name is read back as that page, whatever
      follows (the pattern is not anchored at the end). */
  lemma PageNameRoundTrip(n: nat, rest: string)
    ensures ParsePageName(PageName(n) + rest) == Some(n)
  {
    var name := PageName(n) + rest;
    var d := NatToString(n);
    assert name[..4] == "page";
    assert forall k :: 4 <= k < 4 + |d| ==> name[k] == d[k - 4];
    assert name[4 + |d|] == '.';
    ClassEndAt(name, 4, 4 + |d|, IsDigit);
    assert name[4 + |d|..4 + |d| + 5] == ".html";
    assert name[4..4 + |d|] == d;
  }

  /** A name is read as page `n` only if it starts with "page", a run of digits worth `n`,
      and ".html". */
  lemma ParsePageNameSound(name: string, n: nat)
    requires ParsePageName(name) == Some(n)
    ensures exists d :: && |d| > 0 && (forall k :: 0 <= k < |d| ==> IsDigit(d[k]))
                        && DigitsValue(d) == n && StartsWith(name, "page" + d + ".html")
  {
    var c := ClassEnd(name, 4, IsDigit);
    var d := name[4..c];
    assert forall k :: 0 <= k < |d| ==> IsDigit(d[k]) by {
      forall k | 0 <= k < |d| ensures IsDigit(d[k]) {
        assert d[k] == name[4 + k];
      }
    }
    assert name[..c + 5] == "page" + d + ".html";
    assert StartsWith(name, "page" + d + ".html");
  }

  /** The error a page file gets, if any: `extract_title` strips the title, a missing or
      empty one is reported alone, page 1 may carry no page segment at all, and page N > 1
      must carry "| Page N |". */
  function CheckFile(page: nat, title: Option<string>): (r: Option<string>)
    ensures (title.None? || Strip(title.value) == "") ==> r == Some("Saknar <title>")
  {
    if title.None? || Strip(title.value) == "" then Some("Saknar <title>")
    else
      var t := Strip(title.value);
      if page == 1 && HasSegment(t) then Some("page1.html har 'Page N' i titeln: " + t)
      else if page > 1 && !Contains(t, Expected(page)) then
        Some("Förväntade '" + Expected(page) + "' i titel: " + t)
      else None
  }

  /** Beyond page 1 the two scripts agree. */
  lemma ChecksAgreeBeyondPageOne(page: nat, title: Option<string>)
    requires page > 1
    ensures CheckFile(page, title).None? <==> VerifyTitle(title, page).ok
  {
    if title.Some? && Strip(title.value) == "" {
      assert !Contains("", Expected(page)) by {
        assert Expected(page)[0] !in "";
        MissingHead("", Expected(page));
      }
    }
  }

  /** On page 1 a title the saved-folder check accepts is one the downloader accepts. */
  lemma PageOneCheckIsStricter(title: Option<string>)
    ensures CheckFile(1, title).None? ==> VerifyTitle(title, 1).ok
  {
    if title.Some? {
      var t := Strip(title.value);
      if HasPageOne(t) { PageOneIsSegment(t); }
    }
  }

  /** With no "1" in the stripped title, the downloader's page-1 rule cannot fire. */
  lemma NoOneAcceptsPageOne(title: string)
    requires '1' !in Strip(title)
    ensures VerifyTitle(Some(title), 1).ok
  {
    var t := Strip(title);
    forall i | 0 <= i < |t| ensures !PageOneAt(t, i) {
    }
  }

  /** ... and not the other way round: the downloader keeps a first page titled with
      another page's number, which the folder check reports. */
  lemma PageOneChecksDisagree()
    ensures exists title :: VerifyTitle(Some(title), 1).ok && CheckFile(1, Some(title)).Some?
  {
    var t := "T | Page 2 |";
    StrippedTitle(t);
    assert '1' !in t;
    NoOneAcceptsPageOne(t);
    SecondPageSegment(t);
    assert CheckFile(1, Some(t)).Some?;
  }

  lemma StrippedTitle(t: string)
    requires t == "T | Page 2 |"
    ensures Strip(t) == t
  {
    StripUnpadded(t, IsPySpace);
  }

  lemma SecondPageSegment(t: string)
    requires t == "T | Page 2 |"
    ensures HasSegment(t)
  {
    assert NatToString(2) == "2";
    assert Expected(2) <= t[2..];
    ExpectedIsSegment(t, 2);
  }

  /** ... nor one with a blank title. */
  lemma BlankTitleWitness()
    ensures VerifyTitle(Some(" "), 1).ok && CheckFile(1, Some(" ")).Some?
  {
    assert Strip(" ") == "" by {
      assert IsStripOf(" ", "", 0, IsPySpace);
      StripUnique(" ", "", 0, IsPySpace);
    }
  }

  /** A directory entry of the data folder: its name, whether it is a directory, and its
      files, each with its title text (None when it has no title tag). */
  datatype File = File(name: string, title: Option<string>)
  datatype Dir = Dir(name: string, isDir: bool, files: seq<File>)

  datatype Error = Error(path: string, msg: string)

  predicate FileLe(a: File, b: File) {
    StrLe(a.name, b.name)
  }

  lemma FileLeIsTotalPreorder()
    ensures TotalPreorder(FileLe)
  {
    forall a: File, b: File ensures FileLe(a, b) || FileLe(b, a) {
      StrLeTotal(a.name, b.name);
    }
    forall a: File, b: File, c: File | FileLe(a, b) && FileLe(b, c) ensures FileLe(a, c) {
      StrLeTrans(a.name, b.name, c.name);
    }
  }

  /** `os.path.join(base, dir, name)`. */
  function PathOf(base: string, dir: string, name: string): string {
    base + "/" + dir + "/" + name
  }

  /** The error recorded for one file of a directory: files not named like a page are
      skipped. */
  function FileError(base: string, dir: string, f: File): Option<Error> {
    match ParsePageName(f.name)
    case None => None
    case Some(n) =>
      match CheckFile(n, f.title)
      case None => None
      case Some(m) => Some(Error(PathOf(base, dir, f.name), m))
  }

  /** The errors of `fs`, in order. */
  function FilesErrors(base: string, dir: string, fs: seq<File>): (r: seq<Error>)
    ensures |r| <= |fs|
  {
    if fs == [] then []
    else
      var n := |fs| - 1;
      FilesErrors(base, dir, fs[..n])
      + (match FileError(base, dir, fs[n]) case Some(e) => [e] case None => [])
  }

  /** The errors of one entry of the data folder: none for a non-directory, else its files'
      errors in sorted name order. */
  function DirErrors(base: string, d: Dir): seq<Error> {
    if d.isDir then FilesErrors(base, d.name, SortBy(d.files, FileLe)) else []
  }

  /** `verify_titles`' error list: the entries in the order `os.listdir` gives them. */
  function AllErrors(base: string, ds: seq<Dir>): seq<Error> {
    Flatten(seq(|ds|, i requires 0 <= i < |ds| => DirErrors(base, ds[i])))
  }

  /** The lists of `xss` one after the other. */
  function Flatten<T>(xss: seq<seq<T>>): seq<T> {
    if xss == [] then [] else Flatten(xss[..|xss| - 1]) + xss[|xss| - 1]
  }

  lemma {:induction false} FlattenSound<T>(xss: seq<seq<T>>, x: T)
    requires x in Flatten(xss)
    ensures exists i :: 0 <= i < |xss| && x in xss[i]
  {
    var n := |xss| - 1;
    if x in Flatten(xss[..n]) {
      FlattenSound(xss[..n], x);
      var i :| 0 <= i < n && x in xss[..n][i];
      assert xss[..n][i] == xss[i];
    }
  }

  lemma {:induction false} FlattenComplete<T>(xss: seq<seq<T>>, i: nat, x: T)
    requires i < |xss| && x in xss[i]
    ensures x in Flatten(xss)
  {
    var n := |xss| - 1;
    if i < n {
      assert xss[..n][i] == xss[i];
      FlattenComplete(xss[..n], i, x);
    }
  }

  lemma {:induction false} FilesErrorsSound(base: string, dir: string, fs: seq<File>, e: Error)
    requires e in FilesErrors(base, dir, fs)
    ensures exists f :: f in fs && FileError(base, dir, f) == Some(e)
  {
    var n := |fs| - 1;
    if e in FilesErrors(base, dir, fs[..n]) {
      FilesErrorsSound(base, dir, fs[..n], e);
    } else {
      assert FileError(base, dir, fs[n]) == Some(e);
    }
  }

  lemma {:induction false} FilesErrorsComplete(base: string, dir: string, fs: seq<File>, f: File)
    requires f in fs && FileError(base, dir, f).Some?
    ensures FileError(base, dir, f).value in FilesErrors(base, dir, fs)
  {
    var n := |fs| - 1;
    if f != fs[n] {
      assert f in fs[..n];
      FilesErrorsComplete(base, dir, fs[..n], f);
    }
  }

  /** A directory's errors are exactly its failing page files' errors; other entries have none. */
  lemma DirErrorsExact(base: string, d: Dir, e: Error)
    ensures e in DirErrors(base, d) <==>
            d.isDir && exists f :: f in d.files && FileError(base, d.name, f) == Some(e)
  {
    if d.isDir {
      var s := SortBy(d.files, FileLe);
      FileLeIsTotalPreorder();
      SortBySorted(d.files, FileLe);
      if e in DirErrors(base, d) {
        FilesErrorsSound(base, d.name, s, e);
        var f :| f in s && FileError(base, d.name, f) == Some(e);
        assert f in multiset(d.files);
      }
      forall f | f in d.files && FileError(base, d.name, f) == Some(e) ensures e in DirErrors(base, d) {
        assert f in multiset(s);
        FilesErrorsComplete(base, d.name, s, f);
      }
    }
  }

  /** Every recorded error belongs to a page file of a directory entry, and every page
      file of a directory entry whose check fails has its error recorded. */
  lemma AllErrorsExact(base: string, ds: seq<Dir>, e: Error)
    ensures e in AllErrors(base, ds) <==>
            exists i, f :: 0 <= i < |ds| && ds[i].isDir && f in ds[i].files && FileError(base, ds[i].name, f) == Some(e)
  {
    var xss := seq(|ds|, i requires 0 <= i < |ds| => DirErrors(base, ds[i]));
    if e in AllErrors(base, ds) {
      FlattenSound(xss, e);
      var i :| 0 <= i < |xss| && e in xss[i];
      DirErrorsExact(base, ds[i], e);
    }
    forall i, f | 0 <= i < |ds| && ds[i].isDir && f in ds[i].files && FileError(base, ds[i].name, f) == Some(e)
      ensures e in AllErrors(base, ds)
    {
      DirErrorsExact(base, ds[i], e);
      FlattenComplete(xss, i, e);
    }
  }

  /** What the script prints after its opening line: the errors, each as its message and
      its path, or the all-clear line when there are none. */
  function Report(errors: seq<Error>): (lines: seq<string>)
    ensures errors == [] <==> lines == ["\nAlla sidor har korrekta titlar."]
  {
    if errors == [] then ["\nAlla sidor har korrekta titlar."]
    else ["\nFel hittades:"] + ErrorLines(errors)
  }

  function ErrorLines(errors: seq<Error>): (lines: seq<string>)
    ensures |lines| == 2 * |errors|
  {
    if errors == [] then []
    else ErrorLines(errors[..|errors| - 1]) + ["   " + errors[|errors| - 1].msg, " " + errors[|errors| - 1].path]
  }

  /** The report lists the errors in the order they were collected, message then path. */
  lemma {:induction false} ErrorLinesInOrder(errors: seq<Error>)
    ensures forall k :: 0 <= k < |errors| ==>
              ErrorLines(errors)[2 * k] == "   " + errors[k].msg
              && ErrorLines(errors)[2 * k + 1] == " " + errors[k].path
  {
    if errors != [] {
      var n := |errors| - 1;
      ErrorLinesInOrder(errors[..n]);
      assert forall k :: 0 <= k < n ==> errors[..n][k] == errors[k];
    }
  }
}
