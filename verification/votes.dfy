/**
 * Vote parser of the leaderboard page (`parseVotesFromPages` in scripts/app.js).
 *
 * A post is the abstract record of one `article[data-author]` element after its quoted
 * replies are removed: the author, the element id, the `datetime` text of its `<time>`
 * element ("" when missing), the instant that text denotes, and the inner HTML of its
 * message body. Every line of the body is tried against the regular expression
 * `/Röst:.*<a [^>]*>@([^<]+)<\/a>/i`; a line that matches yields one vote whose target is
 * the captured name, trimmed.
 */
module Votes {
  import opened Wrappers
  import opened Strings

  datatype Post = Post(author: string, id: string, datetime: string, time: int, content: string)

  /** One vote event: `from` voted against `to` in post `postId`. `stamp` is the post's
      `datetime` text, `time` the instant (epoch milliseconds) it denotes. */
  datatype Vote = Vote(from: string, to: string, postId: string, stamp: string, time: int)

  const Marker: string := "Röst:"
  const AnchorOpen: string := "<a "
  const AnchorClose: string := "</a>"

  // ---------------------------------------------------------------------------
  // The regular expression, character by character
  // ---------------------------------------------------------------------------

  /** The upper-case form used to compare characters under the `i` flag (without the `u`
      flag), for ASCII and Latin-1 letters; the only letters of the pattern are R, ö, s, t
      and a. */
  function Upper(c: char): char {
    if 'a' <= c <= 'z' || ('\U{e0}' <= c <= '\U{fe}' && c != '\U{f7}') then (c as int - 32) as char else c
  }

  /** `line` holds the literal `lit` at position `i`, ignoring case. */
  predicate LiteralAt(line: string, i: int, lit: string) {
    && 0 <= i
    && i + |lit| <= |line|
    && forall j :: 0 <= j < |lit| ==> Upper(line[i + j]) == Upper(lit[j])
  }

  /** The characters `.` matches: all but the line terminators. */
  predicate IsDotChar(c: char) {
    c != '\n' && c != '\r' && c != '\U{2028}' && c != '\U{2029}'
  }

  /** First position at or after `i` holding `c`, or `|line|` when there is none. */
  function Scan(line: string, i: int, c: char): (k: int)
    requires 0 <= i <= |line|
    ensures i <= k <= |line|
    ensures forall j :: i <= j < k ==> line[j] != c
    ensures k < |line| ==> line[k] == c
    decreases |line| - i
  {
    if i == |line| || line[i] == c then i else Scan(line, i + 1, c)
  }

  /** End of the run of `.`-characters that starts at `i`. */
  function RunEnd(line: string, i: int): (e: int)
    requires 0 <= i <= |line|
    ensures i <= e <= |line|
    ensures forall j :: i <= j < e ==> IsDotChar(line[j])
    ensures e < |line| ==> !IsDotChar(line[e])
    decreases |line| - i
  {
    if i == |line| || !IsDotChar(line[i]) then i else RunEnd(line, i + 1)
  }

  /** The name `<a [^>]*>@([^<]+)<\/a>` captures when it matches at position `p`. Each part
      is forced: `[^>]*` must stop at the first `>`, and `[^<]+` at the first `<`. */
  function AnchorAt(line: string, p: int): Option<string>
    requires 0 <= p <= |line|
  {
    if !LiteralAt(line, p, AnchorOpen) then None
    else
      var q := Scan(line, p + 3, '>');
      if q + 1 >= |line| || line[q + 1] != '@' then None
      else
        var r := Scan(line, q + 2, '<');
        if r == q + 2 || !LiteralAt(line, r, AnchorClose) then None
        else Some(line[q + 2..r])
  }

  /** `g` is what the anchor part of the pattern captures at `p`, for a match whose
      `[^>]*` ends before position `q`: the pattern read as a description of the text. */
  ghost predicate AnchorShape(line: string, p: int, q: int, g: string) {
    && 0 <= p
    && LiteralAt(line, p, AnchorOpen)
    && p + 3 <= q
    && q + 2 + |g| <= |line|
    && (forall j :: p + 3 <= j < q ==> line[j] != '>')
    && line[q] == '>'
    && line[q + 1] == '@'
    && |g| >= 1
    && line[q + 2..q + 2 + |g|] == g
    && (forall j :: 0 <= j < |g| ==> g[j] != '<')
    && LiteralAt(line, q + 2 + |g|, AnchorClose)
  }

  /** `AnchorAt` captures exactly what the pattern describes. */
  lemma AnchorAtShape(line: string, p: int, g: string)
    requires 0 <= p <= |line|
    ensures AnchorAt(line, p) == Some(g) <==> exists q :: AnchorShape(line, p, q, g)
  {
    if AnchorAt(line, p) == Some(g) {
      AnchorAtHasShape(line, p, g);
    }
    if q :| AnchorShape(line, p, q, g) {
      ShapeIsAnchorAt(line, p, q, g);
    }
  }

  lemma AnchorAtHasShape(line: string, p: int, g: string)
    requires 0 <= p <= |line|
    requires AnchorAt(line, p) == Some(g)
    ensures AnchorShape(line, p, Scan(line, p + 3, '>'), g)
  {
    var q := Scan(line, p + 3, '>');
    assert forall j :: 0 <= j < |g| ==> g[j] == line[q + 2 + j];
  }

  lemma ShapeIsAnchorAt(line: string, p: int, q: int, g: string)
    requires 0 <= p <= |line|
    requires AnchorShape(line, p, q, g)
    ensures AnchorAt(line, p) == Some(g)
  {
    assert Scan(line, p + 3, '>') == q;
    var r := Scan(line, q + 2, '<');
    assert forall j :: q + 2 <= j < q + 2 + |g| ==> line[j] == g[j - q - 2];
    assert line[q + 2 + |g|] == '<' by { assert AnchorClose[0] == '<'; }
    assert r == q + 2 + |g|;
  }

  /** Largest position in `[lo, hi]` at which an anchor matches. */
  function LastAnchor(line: string, lo: int, hi: int): (p: Option<int>)
    requires 0 <= lo && hi <= |line|
    ensures p.Some? ==> lo <= p.value <= hi && AnchorAt(line, p.value).Some?
    ensures p.Some? ==> forall p' :: p.value < p' <= hi ==> AnchorAt(line, p').None?
    ensures p.None? ==> forall p' :: lo <= p' <= hi ==> AnchorAt(line, p').None?
    decreases hi - lo
  {
    if hi < lo then None
    else if AnchorAt(line, hi).Some? then Some(hi)
    else LastAnchor(line, lo, hi - 1)
  }

  /** The whole pattern matches starting at `k`, with `.*` running up to the anchor at `p`. */
  ghost predicate MatchSpan(line: string, k: int, p: int) {
    && 0 <= k
    && k + |Marker| <= p <= |line|
    && LiteralAt(line, k, Marker)
    && (forall j :: k + |Marker| <= j < p ==> IsDotChar(line[j]))
    && AnchorAt(line, p).Some?
  }

  /** Where a match starts and where its anchor starts. */
  datatype Span = Span(start: nat, anchor: nat)

  /** The match `String.prototype.match` reports, searching from position `k`: the
      leftmost start, and for it the rightmost anchor `.*` can reach (`.*` is greedy). */
  function Search(line: string, k: nat): (m: Option<Span>)
    requires k <= |line|
    ensures m.Some? ==> k <= m.value.start && MatchSpan(line, m.value.start, m.value.anchor)
    ensures m.Some? ==> forall k', p' :: k <= k' < m.value.start ==> !MatchSpan(line, k', p')
    ensures m.Some? ==> forall p' :: m.value.anchor < p' ==> !MatchSpan(line, m.value.start, p')
    ensures m.None? ==> forall k', p' :: k <= k' ==> !MatchSpan(line, k', p')
    decreases |line| - k
  {
    if k + |Marker| > |line| then None
    else if !LiteralAt(line, k, Marker) then Search(line, k + 1)
    else
      var e := RunEnd(line, k + |Marker|);
      match LastAnchor(line, k + |Marker|, e)
      case Some(p) => Some(Span(k, p))
      case None => Search(line, k + 1)
  }

  /** The name a vote line captures (`m[1]`), or None when `line.match(...)` is null. */
  function MatchVote(line: string): (g: Option<string>)
    ensures g.Some? <==> exists k, p :: MatchSpan(line, k, p)
    ensures g.Some? ==> |g.value| >= 1 && forall j :: 0 <= j < |g.value| ==> g.value[j] != '<'
  {
    match Search(line, 0)
    case None => None
    case Some(m) =>
      var g := AnchorAt(line, m.anchor).value;
      AnchorAtShape(line, m.anchor, g);
      Some(g)
  }

  /** The greedy `.*` makes the captured name the one of the last anchor reachable from the
      first vote marker: a later anchor on the same line wins over an earlier one. */
  lemma MatchVoteIsLastAnchor(line: string)
    requires MatchVote(line).Some?
    ensures exists k, p ::
      && MatchSpan(line, k, p)
      && MatchVote(line) == AnchorAt(line, p)
      && (forall k', p' :: 0 <= k' < k ==> !MatchSpan(line, k', p'))
      && (forall p' :: p < p' ==> !MatchSpan(line, k, p'))
  {
    var m := Search(line, 0).value;
    assert MatchSpan(line, m.start, m.anchor);
  }

  // ---------------------------------------------------------------------------
  // Posts to votes
  // ---------------------------------------------------------------------------

  const PostPrefix: string := "js-post-"

  /** `post.id.replace("js-post-", "")`: the leftmost `js-post-` removed. It is empty only
      for an element without id and for the id `js-post-` itself. */
  function PostId(id: string): (r: string)
    ensures r == [] <==> id == [] || id == PostPrefix
    ensures !Contains(id, PostPrefix) ==> r == id
  {
    var r := DeleteFirst(id, PostPrefix);
    assert id == PostPrefix ==> Contains(id, PostPrefix) by {
      assert id == PostPrefix ==> PostPrefix <= id[0..];
    }
    assert r == [] && Contains(id, PostPrefix) ==> id == PostPrefix by {
      if r == [] && Contains(id, PostPrefix) {
        var i :| FirstAt(id, PostPrefix, i) && r == id[..i] + id[i + |PostPrefix|..];
      }
    }
    r
  }

  /** The vote one line of a post yields: one when the line matches and the post has an id. */
  function LineVotes(p: Post, pid: string, line: string): seq<Vote> {
    var m := MatchVote(line);
    if m.Some? && pid != [] then [Vote(p.author, Trim(m.value), pid, p.datetime, p.time)] else []
  }

  /** The votes the lines of one post yield, in line order. */
  function LinesVotes(p: Post, pid: string, lines: seq<string>): (r: seq<Vote>)
    ensures |r| <= |lines|
    ensures pid == [] ==> r == []
    ensures forall v :: v in r ==>
      v.from == p.author && v.postId == pid && v.stamp == p.datetime && v.time == p.time
  {
    if lines == [] then [] else LinesVotes(p, pid, lines[..|lines| - 1]) + LineVotes(p, pid, lines[|lines| - 1])
  }

  /** Every vote of a post comes from a matching line, and names that line's capture. */
  lemma {:induction false} LinesVotesSound(p: Post, pid: string, lines: seq<string>, v: Vote)
    requires v in LinesVotes(p, pid, lines)
    ensures exists i :: 0 <= i < |lines| && MatchVote(lines[i]).Some? && v.to == Trim(MatchVote(lines[i]).value)
  {
    var n := |lines| - 1;
    if v in LinesVotes(p, pid, lines[..n]) {
      LinesVotesSound(p, pid, lines[..n], v);
      var i :| 0 <= i < n && MatchVote(lines[..n][i]).Some? && v.to == Trim(MatchVote(lines[..n][i]).value);
      assert lines[..n][i] == lines[i];
    } else {
      assert v in LineVotes(p, pid, lines[n]);
    }
  }

  /** Every matching line of a post with an id yields its vote. */
  lemma {:induction false} LinesVotesComplete(p: Post, pid: string, lines: seq<string>, i: int)
    requires pid != [] && 0 <= i < |lines| && MatchVote(lines[i]).Some?
    ensures Vote(p.author, Trim(MatchVote(lines[i]).value), pid, p.datetime, p.time) in LinesVotes(p, pid, lines)
  {
    var n := |lines| - 1;
    var w := Vote(p.author, Trim(MatchVote(lines[i]).value), pid, p.datetime, p.time);
    assert LinesVotes(p, pid, lines) == LinesVotes(p, pid, lines[..n]) + LineVotes(p, pid, lines[n]);
    if i < n {
      assert lines[..n][i] == lines[i];
      LinesVotesComplete(p, pid, lines[..n], i);
      assert w in LinesVotes(p, pid, lines[..n]);
    } else {
      assert i == n;
      var m := MatchVote(lines[n]);
      assert LineVotes(p, pid, lines[n]) == [w];
    }
  }

  /** A line's votes go after those of the lines before it. */
  lemma LinesVotesSnoc(p: Post, pid: string, a: seq<string>, line: string)
    ensures LinesVotes(p, pid, a + [line]) == LinesVotes(p, pid, a) + LinesVotes(p, pid, [line])
  {
    assert (a + [line])[..|a|] == a;
    assert [line][..0] == [];
  }

  /** Votes are produced line after line. */
  lemma LinesVotesAppend(p: Post, pid: string, a: seq<string>, b: seq<string>)
    ensures LinesVotes(p, pid, a + b) == LinesVotes(p, pid, a) + LinesVotes(p, pid, b)
  {
    var f := (ls: seq<string>) => LinesVotes(p, pid, ls);
    forall xs, x ensures f(xs + [x]) == f(xs) + f([x]) {
      LinesVotesSnoc(p, pid, xs, x);
    }
    SnocAppend(f, a, b);
  }

  /** The votes of one post: its body split at `\n`, each line tried in turn. */
  function PostVotes(p: Post): (r: seq<Vote>)
    ensures |r| <= |Split(p.content, '\n')|
    ensures PostId(p.id) == [] ==> r == []
    ensures forall v :: v in r ==>
      && v.from == p.author && v.postId == PostId(p.id) && v.postId != []
      && v.stamp == p.datetime && v.time == p.time
  {
    LinesVotes(p, PostId(p.id), Split(p.content, '\n'))
  }

  /** The votes of a sequence of posts, in post order. */
  function PostsVotes(posts: seq<Post>): seq<Vote> {
    if posts == [] then [] else PostsVotes(posts[..|posts| - 1]) + PostVotes(posts[|posts| - 1])
  }

  /** `parseVotesFromPages`: the votes of every post of every page, in page order. */
  function ParseVotes(pages: seq<seq<Post>>): seq<Vote> {
    if pages == [] then [] else ParseVotes(pages[..|pages| - 1]) + PostsVotes(pages[|pages| - 1])
  }

  /** Every parsed vote has a post id and comes from one post of one page. */
  lemma {:induction false} ParseVotesSound(pages: seq<seq<Post>>)
    ensures forall v :: v in ParseVotes(pages) ==> v.postId != [] && exists i, j ::
      0 <= i < |pages| && 0 <= j < |pages[i]| && v in PostVotes(pages[i][j])
  {
    if pages != [] {
      var n := |pages| - 1;
      ParseVotesSound(pages[..n]);
      assert forall i :: 0 <= i < n ==> pages[..n][i] == pages[i];
      PostsVotesFrom(pages[n]);
    }
  }

  lemma {:induction false} PostsVotesFrom(posts: seq<Post>)
    ensures forall v :: v in PostsVotes(posts) ==> v.postId != [] && exists j :: 0 <= j < |posts| && v in PostVotes(posts[j])
  {
    if posts != [] {
      var n := |posts| - 1;
      PostsVotesFrom(posts[..n]);
      assert forall j :: 0 <= j < n ==> posts[..n][j] == posts[j];
    }
  }

  /** A page's votes go after those of the pages before it. */
  lemma ParseVotesSnoc(a: seq<seq<Post>>, page: seq<Post>)
    ensures ParseVotes(a + [page]) == ParseVotes(a) + ParseVotes([page])
  {
    assert (a + [page])[..|a|] == a;
    assert [page][..0] == [];
  }

  /** Pages are parsed one after the other. */
  lemma ParseVotesAppend(a: seq<seq<Post>>, b: seq<seq<Post>>)
    ensures ParseVotes(a + b) == ParseVotes(a) + ParseVotes(b)
  {
    forall xs, x ensures ParseVotes(xs + [x]) == ParseVotes(xs) + ParseVotes([x]) {
      ParseVotesSnoc(xs, x);
    }
    SnocAppend(ParseVotes, a, b);
  }
}
