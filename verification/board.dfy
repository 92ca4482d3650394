/**
 * The leaderboard `renderVotes` draws (scripts/app.js): per target the number of votes
 * (`counts`) and the instant of the earliest one (`first`), the ranking of targets, the
 * summary line, and one table row per vote with the standing after that vote and the
 * voter's chain of choices so far. Also the player filter on rows and the CSV export.
 * Colours, HTML escaping and date formatting are presentation and are not modelled.
 */
module Board {
  import opened Wrappers
  import opened Strings
  import opened Sorting
  import opened Votes
  import opened View

  // ---------------------------------------------------------------------------
  // Counts and first votes
  // ---------------------------------------------------------------------------

  /** The votes `s` gives to `t`. */
  function CountTo(s: seq<Vote>, t: string): nat {
    if s == [] then 0
    else CountTo(s[..|s| - 1], t) + (if s[|s| - 1].to == t then 1 else 0)
  }

  /** The players `s` votes for. */
  function Targets(s: seq<Vote>): set<string> {
    set v | v in s :: v.to
  }

  /** One key of `counts`, with its value and the instant `first` holds for it. */
  datatype Entry = Entry(target: string, count: nat, first: int)

  /** Where `t` sits among the keys of `es`; `|es|` when it is not a key. */
  function Lookup(es: seq<Entry>, t: string): (k: nat)
    ensures k <= |es|
    ensures k < |es| ==> es[k].target == t
    ensures forall j :: 0 <= j < k ==> es[j].target != t
  {
    if es == [] then 0
    else if es[0].target == t then 0
    else 1 + Lookup(es[1..], t)
  }

  ghost predicate Distinct(es: seq<Entry>) {
    forall i, j :: 0 <= i < j < |es| ==> es[i].target != es[j].target
  }

  /** One turn of `votes.forEach(v => { counts[v.to] = (counts[v.to] || 0) + 1;
      if (!first[v.to] || v earlier than first[v.to]) first[v.to] = v.timestamp; })`:
      a new key goes last, an existing one keeps its place. */
  function Bump(es: seq<Entry>, v: Vote): seq<Entry> {
    var k := Lookup(es, v.to);
    if k == |es| then es + [Entry(v.to, 1, v.time)]
    else es[k := Entry(v.to, es[k].count + 1, if v.time < es[k].first then v.time else es[k].first)]
  }

  /** The sum of the counts. */
  function Total(es: seq<Entry>): nat {
    if es == [] then 0 else es[0].count + Total(es[1..])
  }

  lemma {:induction false} TotalAppend(es: seq<Entry>, e: Entry)
    ensures Total(es + [e]) == Total(es) + e.count
  {
    if es != [] {
      assert (es + [e])[1..] == es[1..] + [e];
      TotalAppend(es[1..], e);
    }
  }

  lemma {:induction false} TotalUpdate(es: seq<Entry>, k: nat, e: Entry)
    requires k < |es|
    ensures Total(es[k := e]) == Total(es) - es[k].count + e.count
  {
    if k > 0 {
      assert es[k := e][1..] == es[1..][k - 1 := e];
      TotalUpdate(es[1..], k - 1, e);
    }
  }

  /** `counts` and `first` after the loop over `s`: one entry per target, in the order the
      targets first receive a vote, holding how many votes the target has and the earliest
      instant among them; the counts add up to the number of votes. */
  function Tally(s: seq<Vote>): seq<Entry> {
    if s == [] then [] else Bump(Tally(s[..|s| - 1]), s[|s| - 1])
  }

  /** `Tally` keeps the promises `Tallies` lists. */
  lemma {:induction false} TallySpec(s: seq<Vote>)
    ensures Tallies(s, Tally(s))
  {
    if s != [] {
      var n := |s| - 1;
      TallySpec(s[..n]);
      assert s == s[..n] + [s[n]];
      TallyStep(s[..n], s[n], Tally(s[..n]));
    }
  }

  lemma {:induction false} LookupAppend(es: seq<Entry>, e: Entry, t: string)
    ensures Lookup(es + [e], t) == if Lookup(es, t) < |es| then Lookup(es, t)
                                   else if e.target == t then |es| else |es| + 1
  {
    if es != [] {
      assert (es + [e])[1..] == es[1..] + [e];
      LookupAppend(es[1..], e, t);
    }
  }

  lemma {:induction false} LookupUpdate(es: seq<Entry>, k: nat, e: Entry, t: string)
    requires k < |es| && e.target == es[k].target
    ensures Lookup(es[k := e], t) == Lookup(es, t)
  {
    if k > 0 {
      assert es[k := e][1..] == es[1..][k - 1 := e];
      LookupUpdate(es[1..], k - 1, e, t);
    }
  }

  /** A target has no votes exactly when nobody voted for it. */
  lemma {:induction false} CountToZero(s: seq<Vote>, t: string)
    ensures CountTo(s, t) == 0 <==> t !in Targets(s)
  {
    if s != [] {
      var n := |s| - 1;
      assert s == s[..n] + [s[n]];
      assert Targets(s) == Targets(s[..n]) + {s[n].to};
      CountToZero(s[..n], t);
    }
  }

  /** What `Bump` does to each position and to each lookup. */
  lemma BumpFacts(p: seq<Entry>, v: Vote, r: seq<Entry>, k: nat)
    requires Distinct(p)
    requires r == Bump(p, v) && k == Lookup(p, v.to)
    ensures |r| == (if k == |p| then |p| + 1 else |p|)
    ensures Lookup(r, v.to) == k && k < |r| && r[k].target == v.to
    ensures r[k].count == (if k == |p| then 0 else p[k].count) + 1
    ensures r[k].first == (if k == |p| || v.time < p[k].first then v.time else p[k].first)
    ensures forall i :: 0 <= i < |p| && i != k ==> r[i] == p[i] && p[i].target != v.to
    ensures forall t :: t != v.to && Lookup(p, t) < |p| ==> Lookup(r, t) == Lookup(p, t)
    ensures forall t :: t != v.to && Lookup(p, t) == |p| ==> Lookup(r, t) == |r|
    ensures Total(r) == Total(p) + 1
  {
    if k == |p| {
      TotalAppend(p, Entry(v.to, 1, v.time));
      forall t {
        LookupAppend(p, Entry(v.to, 1, v.time), t);
      }
    } else {
      TotalUpdate(p, k, r[k]);
      forall t {
        LookupUpdate(p, k, r[k], t);
      }
    }
  }

  /** What `Tally` promises about the entries `r` for the votes `s`. */
  ghost predicate Tallies(s: seq<Vote>, r: seq<Entry>) {
    && Distinct(r)
    && (forall t :: Lookup(r, t) < |r| <==> t in Targets(s))
    && (forall i :: 0 <= i < |r| ==> r[i].count == CountTo(s, r[i].target))
    && (forall i :: 0 <= i < |r| ==> exists w :: w in s && w.to == r[i].target && w.time == r[i].first)
    && (forall i, w :: 0 <= i < |r| && w in s && w.to == r[i].target ==> r[i].first <= w.time)
    && Total(r) == |s|
  }

  /** The inductive step of `Tally`. */
  lemma TallyStep(s: seq<Vote>, v: Vote, p: seq<Entry>)
    requires Tallies(s, p)
    ensures Tallies(s + [v], Bump(p, v))
  {
    var r := Bump(p, v);
    var k := Lookup(p, v.to);
    StepKeys(s, v, p, r, k);
    StepCounts(s, v, p, r, k);
    StepFirst(s, v, p, r, k);
  }

  lemma StepKeys(s: seq<Vote>, v: Vote, p: seq<Entry>, r: seq<Entry>, k: nat)
    requires Tallies(s, p)
    requires r == Bump(p, v) && k == Lookup(p, v.to)
    ensures Distinct(r)
    ensures forall t :: Lookup(r, t) < |r| <==> t in Targets(s + [v])
  {
    BumpFacts(p, v, r, k);
    assert Targets(s + [v]) == Targets(s) + {v.to} by {
      assert forall w :: w in s + [v] <==> w in s || w == v;
    }
    forall i, j | 0 <= i < j < |r| ensures r[i].target != r[j].target {
      if i != k && j != k {
        assert r[j] == p[j];
      }
    }
    forall t ensures Lookup(r, t) < |r| <==> t in Targets(s + [v]) {
      if t != v.to {
        if Lookup(p, t) < |p| {
        } else {
        }
      }
    }
  }

  lemma StepCounts(s: seq<Vote>, v: Vote, p: seq<Entry>, r: seq<Entry>, k: nat)
    requires Tallies(s, p)
    requires r == Bump(p, v) && k == Lookup(p, v.to)
    ensures forall i :: 0 <= i < |r| ==> r[i].count == CountTo(s + [v], r[i].target)
    ensures Total(r) == |s + [v]|
  {
    BumpFacts(p, v, r, k);
    assert (s + [v])[..|s|] == s;
    forall i | 0 <= i < |r| ensures r[i].count == CountTo(s + [v], r[i].target) {
      if i == k && k == |p| {
        CountToZero(s, v.to);
      }
    }
  }

  lemma StepFirst(s: seq<Vote>, v: Vote, p: seq<Entry>, r: seq<Entry>, k: nat)
    requires Tallies(s, p)
    requires r == Bump(p, v) && k == Lookup(p, v.to)
    ensures forall i :: 0 <= i < |r| ==> exists w :: w in s + [v] && w.to == r[i].target && w.time == r[i].first
    ensures forall i, w :: 0 <= i < |r| && w in s + [v] && w.to == r[i].target ==> r[i].first <= w.time
  {
    BumpFacts(p, v, r, k);
    assert forall w :: w in s + [v] <==> w in s || w == v;
    forall i | 0 <= i < |r|
      ensures exists w :: w in s + [v] && w.to == r[i].target && w.time == r[i].first
    {
      if i != k {
        var w :| w in s && w.to == p[i].target && w.time == p[i].first;
        assert w in s + [v];
      } else if k < |p| && v.time >= p[k].first {
        var w :| w in s && w.to == p[k].target && w.time == p[k].first;
        assert w in s + [v];
      } else {
        assert v in s + [v];
      }
    }
  }

  /** Position of the first vote for `t` in `s`; `|s|` when there is none. */
  function FirstVoteFor(s: seq<Vote>, t: string): (k: nat)
    ensures k <= |s|
    ensures k < |s| ==> s[k].to == t
    ensures forall j :: 0 <= j < k ==> s[j].to != t
  {
    if s == [] then 0
    else if s[0].to == t then 0
    else 1 + FirstVoteFor(s[1..], t)
  }

  lemma {:induction false} FirstVoteForAppend(s: seq<Vote>, v: Vote, t: string)
    ensures FirstVoteFor(s + [v], t) == if FirstVoteFor(s, t) < |s| then FirstVoteFor(s, t)
                                        else if v.to == t then |s| else |s| + 1
  {
    if s != [] {
      assert (s + [v])[1..] == s[1..] + [v];
      FirstVoteForAppend(s[1..], v, t);
    }
  }

  /** The entries `r` list their targets in the order `s` first votes for them. */
  ghost predicate InFirstVoteOrder(s: seq<Vote>, r: seq<Entry>) {
    && (forall i :: 0 <= i < |r| ==> FirstVoteFor(s, r[i].target) < |s|)
    && (forall i, j :: 0 <= i < j < |r| ==>
         FirstVoteFor(s, r[i].target) < FirstVoteFor(s, r[j].target))
  }

  /** A target nobody voted for has no first vote. */
  lemma {:induction false} FirstVoteForAbsent(s: seq<Vote>, t: string)
    requires t !in Targets(s)
    ensures FirstVoteFor(s, t) == |s|
  {
    if s != [] {
      assert s[0] in s;
      assert Targets(s[1..]) <= Targets(s) by {
        forall w | w in s[1..] ensures w in s {
        }
      }
      FirstVoteForAbsent(s[1..], t);
    }
  }

  /** A vote for a target already on the board changes a count, not a key. */
  lemma BumpKeepsKeys(p: seq<Entry>, v: Vote)
    requires Lookup(p, v.to) < |p|
    ensures |Bump(p, v)| == |p|
    ensures forall i :: 0 <= i < |p| ==> Bump(p, v)[i].target == p[i].target
  {
  }

  /** Appending a vote keeps the order of keys that already had a first vote. */
  lemma OrderStepOld(s: seq<Vote>, v: Vote, p: seq<Entry>, r: seq<Entry>)
    requires InFirstVoteOrder(s, p)
    requires |r| == |p| && forall i :: 0 <= i < |p| ==> r[i].target == p[i].target
    ensures InFirstVoteOrder(s + [v], r)
  {
    forall i | 0 <= i < |r|
      ensures FirstVoteFor(s + [v], r[i].target) == FirstVoteFor(s, p[i].target)
    {
      FirstVoteForAppend(s, v, p[i].target);
    }
  }

  /** A vote for a target not on the board adds it at the end. */
  lemma BumpAddsKey(p: seq<Entry>, v: Vote)
    requires Lookup(p, v.to) == |p|
    ensures Bump(p, v) == p + [Entry(v.to, 1, v.time)]
  {
  }

  /** A vote for a new target puts it last, and its first vote is the latest one. */
  lemma OrderStepNew(s: seq<Vote>, v: Vote, p: seq<Entry>, e: Entry)
    requires InFirstVoteOrder(s, p) && e.target == v.to && v.to !in Targets(s)
    ensures InFirstVoteOrder(s + [v], p + [e])
  {
    forall i | 0 <= i < |p|
      ensures FirstVoteFor(s + [v], p[i].target) == FirstVoteFor(s, p[i].target)
    {
      FirstVoteForAppend(s, v, p[i].target);
    }
    FirstVoteForAbsent(s, v.to);
    FirstVoteForAppend(s, v, v.to);
  }

  /** The keys of `counts` enumerate in the order their targets first receive a vote, which
      is how full ties in the ranking are broken. */
  lemma {:induction false} TallyOrder(s: seq<Vote>)
    ensures InFirstVoteOrder(s, Tally(s))
  {
    if s != [] {
      var n := |s| - 1;
      var p := Tally(s[..n]);
      assert s == s[..n] + [s[n]];
      TallyOrder(s[..n]);
      TallySpec(s[..n]);
      if Lookup(p, s[n].to) < |p| {
        BumpKeepsKeys(p, s[n]);
        OrderStepOld(s[..n], s[n], p, Bump(p, s[n]));
      } else {
        BumpAddsKey(p, s[n]);
        OrderStepNew(s[..n], s[n], p, Entry(s[n].to, 1, s[n].time));
      }
    }
  }

  // ---------------------------------------------------------------------------
  // Ranking and summary
  // ---------------------------------------------------------------------------

  /** The comparator `(a, b) => b[1] - a[1] || first[a[0]] - first[b[0]]`: more votes first,
      then the earlier first vote. */
  predicate RankLe(a: Entry, b: Entry) {
    a.count > b.count || (a.count == b.count && a.first <= b.first)
  }

  lemma RankLeIsTotalPreorder()
    ensures TotalPreorder(RankLe)
  {
  }

  /** `Object.entries(counts).sort(...)`: the entries by count descending, then by first vote
      ascending. */
  function Rank(es: seq<Entry>): (r: seq<Entry>)
    ensures |r| == |es|
  {
    SortBy(es, RankLe)
  }

  /** The ranking holds the same entries, by count descending and then by first vote. */
  lemma RankSorted(es: seq<Entry>)
    ensures multiset(Rank(es)) == multiset(es)
    ensures forall i, j :: 0 <= i < j < |Rank(es)| ==>
      Rank(es)[i].count > Rank(es)[j].count
      || (Rank(es)[i].count == Rank(es)[j].count && Rank(es)[i].first <= Rank(es)[j].first)
  {
    RankLeIsTotalPreorder();
    SortBySorted(es, RankLe);
  }

  /** The stable sort leaves full ties, same count and same first vote, in their input order. */
  lemma RankStable(es: seq<Entry>, e: Entry)
    ensures Class(Rank(es), RankLe, e) == Class(es, RankLe, e)
  {
    RankLeIsTotalPreorder();
    SortByStable(es, RankLe, e);
  }

  /** The name the summary uses when no vote has been cast. */
  const Nobody := "Ingen"

  /** `votes.reduce((acc, v) => (!acc || v later than acc) ? v.timestamp : acc, null)`: the
      first of the latest votes, none for no votes. */
  function LatestOf(s: seq<Vote>): (r: Option<Vote>)
    ensures r.None? <==> s == []
    ensures r.Some? ==> forall v :: v in s ==> v.time <= r.value.time
    ensures r.Some? ==> exists i :: 0 <= i < |s| && s[i] == r.value
                                   && forall j :: 0 <= j < i ==> s[j].time < r.value.time
  {
    if s == [] then None
    else
      var n := |s| - 1;
      var a := LatestOf(s[..n]);
      assert s == s[..n] + [s[n]];
      if a.None? || s[n].time > a.value.time then Some(s[n]) else a
  }

  /** The summary line: the player at risk with their vote count and the instant of their
      first vote, and the latest vote. */
  datatype Summary = Summary(danger: string, votes: nat, since: Option<int>, last: Option<Vote>)

  /** The summary of the time-sorted votes `sv`: rank 0 of the ranking, or `["Ingen", 0]`
      and unknown instants when there are no votes. The player at risk has the most votes,
      and of those with as many the earliest first vote. */
  function Summarize(sv: seq<Vote>): (r: Summary)
    requires SortedBy(sv, TimeLe)
    ensures sv == [] ==> r == Summary(Nobody, 0, None, None)
    ensures sv != [] ==> r.danger in Targets(sv) && r.votes == CountTo(sv, r.danger)
    ensures forall t :: CountTo(sv, t) <= r.votes
    ensures sv != [] ==> (r.since.Some?
      && (exists v :: v in sv && v.to == r.danger && v.time == r.since.value)
      && (forall v :: v in sv && v.to == r.danger ==> r.since.value <= v.time))
    ensures forall v :: v in sv && CountTo(sv, v.to) == r.votes ==> r.since.value <= v.time
    ensures r.last.None? <==> sv == []
    ensures r.last.Some? ==> r.last.value in sv && forall v :: v in sv ==> v.time <= r.last.value.time
  {
    var ranked := Rank(Tally(sv));
    if ranked == [] then
      NoVotesNoCounts(sv);
      Summary(Nobody, 0, None, LatestOf(sv))
    else
      TopFacts(sv);
      Summary(ranked[0].target, ranked[0].count, Some(ranked[0].first), LatestOf(sv))
  }

  lemma NoVotesNoCounts(sv: seq<Vote>)
    requires Rank(Tally(sv)) == []
    ensures sv == []
    ensures forall t :: CountTo(sv, t) == 0
  {
    TallySpec(sv);
    forall t ensures CountTo(sv, t) == 0 {
      CountToZero(sv, t);
    }
  }

  /** What rank 0 of the ranking says about the votes. */
  lemma TopFacts(sv: seq<Vote>)
    requires Rank(Tally(sv)) != []
    ensures var top := Rank(Tally(sv))[0];
      && sv != []
      && top.target in Targets(sv) && top.count == CountTo(sv, top.target)
      && (exists v :: v in sv && v.to == top.target && v.time == top.first)
      && (forall v :: v in sv && v.to == top.target ==> top.first <= v.time)
      && (forall t :: CountTo(sv, t) <= top.count)
      && (forall v :: v in sv && CountTo(sv, v.to) == top.count ==> top.first <= v.time)
  {
    var es := Tally(sv);
    var ranked := Rank(es);
    TallySpec(sv);
    RankSorted(es);
    assert ranked[0] in multiset(es);
    var i :| 0 <= i < |es| && es[i] == ranked[0];
    assert Lookup(es, es[i].target) < |es|;
    SummaryTop(sv, es, ranked);
  }

  /** Rank 0 of the ranking of `Tally(sv)` beats every target on count and, at equal count,
      on first vote. */
  lemma SummaryTop(sv: seq<Vote>, es: seq<Entry>, ranked: seq<Entry>)
    requires Tallies(sv, es) && ranked != []
    requires multiset(ranked) == multiset(es)
    requires forall j :: 0 <= j < |ranked| ==> RankLe(ranked[0], ranked[j])
    ensures forall t :: CountTo(sv, t) <= ranked[0].count
    ensures forall v :: v in sv && CountTo(sv, v.to) == ranked[0].count ==> ranked[0].first <= v.time
  {
    forall t ensures CountTo(sv, t) <= ranked[0].count {
      CountToZero(sv, t);
      if t in Targets(sv) {
        var i := Lookup(es, t);
        assert es[i] in multiset(ranked);
      }
    }
    forall v | v in sv && CountTo(sv, v.to) == ranked[0].count ensures ranked[0].first <= v.time {
      assert v.to in Targets(sv);
      var i := Lookup(es, v.to);
      assert es[i] in multiset(ranked);
      var j :| 0 <= j < |ranked| && ranked[j] == es[i];
    }
  }

  // ---------------------------------------------------------------------------
  // Table rows
  // ---------------------------------------------------------------------------

  /** The players `u` votes for in `s`, in order. */
  function ChoicesOf(s: seq<Vote>, u: string): seq<string> {
    if s == [] then []
    else ChoicesOf(s[..|s| - 1], u) + (if s[|s| - 1].from == u then [s[|s| - 1].to] else [])
  }

  /** `if (chain[chain.length - 1] !== to) chain.push(to)`. */
  function Extend(chain: seq<string>, to: string): seq<string> {
    if chain == [] || chain[|chain| - 1] != to then chain + [to] else chain
  }

  /** `voteHist[from]` fed with `xs` one at a time, each pushed only if it differs from the
      current last entry: consecutive repeats collapse into one. */
  function Collapse(xs: seq<string>): (r: seq<string>)
    ensures |r| <= |xs|
    ensures r == [] <==> xs == []
    ensures xs != [] ==> r[|r| - 1] == xs[|xs| - 1]
    ensures forall i :: 0 <= i < |r| - 1 ==> r[i] != r[i + 1]
  {
    if xs == [] then [] else Extend(Collapse(xs[..|xs| - 1]), xs[|xs| - 1])
  }

  /** One more choice grows the chain by at most one entry and keeps what was there. */
  lemma CollapseGrows(xs: seq<string>, x: string)
    ensures var c := Collapse(xs); var d := Collapse(xs + [x]);
      c <= d && |d| <= |c| + 1
  {
    assert (xs + [x])[..|xs|] == xs;
  }

  /** A chain changes exactly when its voter switches target. */
  lemma CollapseSwitch(xs: seq<string>, x: string)
    requires xs != []
    ensures |Collapse(xs + [x])| == |Collapse(xs)| + (if x == xs[|xs| - 1] then 0 else 1)
  {
    CollapseSnoc(xs, x);
  }

  /** Collapsing leaves a sequence alone exactly when it has no consecutive repeats. */
  lemma {:induction false} CollapseFixed(xs: seq<string>)
    ensures Collapse(xs) == xs <==> forall i :: 0 <= i < |xs| - 1 ==> xs[i] != xs[i + 1]
  {
    if xs != [] {
      var n := |xs| - 1;
      CollapseFixed(xs[..n]);
      if forall i :: 0 <= i < |xs| - 1 ==> xs[i] != xs[i + 1] {
        assert forall i :: 0 <= i < n - 1 ==> xs[..n][i] != xs[..n][i + 1];
        assert xs == xs[..n] + [xs[n]];
      }
    }
  }

  /** Collapsing keeps every player that was voted for and adds none. */
  lemma {:induction false} CollapseKeepsPlayers(xs: seq<string>)
    ensures forall x :: x in Collapse(xs) <==> x in xs
  {
    if xs != [] {
      var n := |xs| - 1;
      CollapseKeepsPlayers(xs[..n]);
      assert xs == xs[..n] + [xs[n]];
    }
  }

  /** One row of the vote table. */
  datatype Row = Row(from: string, chain: seq<string>, postId: string, stamp: string,
                     leader: string, runner: string)

  /** The placeholder shown when the standing has no such place. */
  const NoPlace := "\U{2013}"

  /** `` standing[i] ? `${name} (${count})` : "–" ``. */
  function Disp(es: seq<Entry>, i: nat): (d: string)
    ensures d == NoPlace <==> i >= |es|
  {
    if i < |es| then es[i].target + " (" + NatToString(es[i].count) + ")" else NoPlace
  }

  /** `first[t]` of the whole board, for a target of it. */
  function FirstOf(g: seq<Entry>, t: string): int {
    var k := Lookup(g, t);
    if k < |g| then g[k].first else 0
  }

  /** `Object.entries(running)` with each key's `first` from the whole board: the running
      counts carry no instants of their own. */
  function WithBoardFirst(running: seq<Entry>, g: seq<Entry>): (r: seq<Entry>)
    ensures |r| == |running|
    ensures forall i :: 0 <= i < |r| ==> r[i] == running[i].(first := FirstOf(g, running[i].target))
  {
    seq(|running|, i requires 0 <= i < |running| => running[i].(first := FirstOf(g, running[i].target)))
  }

  /** Row `k` as the table means it: the standing after the first `k + 1` time-sorted votes,
      ranked as the summary ranks, and the voter's collapsed choices so far. */
  function RowAt(sv: seq<Vote>, k: nat): Row
    requires k < |sv|
  {
    var standing := Rank(Tally(sv[..k + 1]));
    Row(sv[k].from, Collapse(ChoicesOf(sv[..k + 1], sv[k].from)), sv[k].postId, sv[k].stamp,
        Disp(standing, 0), Disp(standing, 1))
  }

  /** In time order, the earliest vote for a target within a prefix is its earliest vote
      overall, so ranking a prefix with the board's `first` ranks it with its own. */
  lemma PrefixFirst(sv: seq<Vote>, m: nat)
    requires SortedBy(sv, TimeLe)
    requires m <= |sv|
    ensures WithBoardFirst(Tally(sv[..m]), Tally(sv)) == Tally(sv[..m])
  {
    var p := Tally(sv[..m]);
    var g := Tally(sv);
    TallySpec(sv[..m]);
    TallySpec(sv);
    forall i | 0 <= i < |p| ensures FirstOf(g, p[i].target) == p[i].first {
      PrefixFirstAt(sv, m, p, g, i);
    }
  }

  lemma PrefixFirstAt(sv: seq<Vote>, m: nat, p: seq<Entry>, g: seq<Entry>, i: nat)
    requires SortedBy(sv, TimeLe)
    requires m <= |sv|
    requires Tallies(sv[..m], p) && Tallies(sv, g)
    requires i < |p|
    ensures FirstOf(g, p[i].target) == p[i].first
  {
    var t := p[i].target;
    var w :| w in sv[..m] && w.to == t && w.time == p[i].first;
    var a :| 0 <= a < m && sv[..m][a] == w;
    assert sv[a] == w;
    assert t in Targets(sv);
    var k := Lookup(g, t);
    assert g[k].first <= w.time;
    var x :| x in sv && x.to == t && x.time == g[k].first;
    var b :| 0 <= b < |sv| && sv[b] == x;
    if b < m {
      assert sv[..m][b] == x;
      assert p[i].first <= x.time;
    } else {
      assert TimeLe(sv[a], sv[b]);
    }
  }

  /** `voteHist` after the votes `s`: each vote extends its voter's chain. */
  function History(s: seq<Vote>): map<string, seq<string>> {
    if s == [] then map[]
    else
      var m := History(s[..|s| - 1]);
      var v := s[|s| - 1];
      m[v.from := Extend(if v.from in m then m[v.from] else [], v.to)]
  }

  /** `voteHist` has a chain for exactly the voters so far. */
  lemma {:induction false} HistoryVoters(s: seq<Vote>)
    ensures History(s).Keys == Voters(s)
  {
    if s != [] {
      var n := |s| - 1;
      HistoryVoters(s[..n]);
      assert s == s[..n] + [s[n]];
      assert Voters(s) == Voters(s[..n]) + {s[n].from};
    }
  }

  /** Each chain of `voteHist` is its voter's choices with consecutive repeats collapsed. */
  lemma {:induction false} HistoryChain(s: seq<Vote>, u: string)
    requires u in History(s)
    ensures History(s)[u] == Collapse(ChoicesOf(s, u))
  {
    var n := |s| - 1;
    var v := s[n];
    var m := History(s[..n]);
    assert History(s) == m[v.from := Extend(if v.from in m then m[v.from] else [], v.to)];
    if v.from != u {
      assert ChoicesOf(s, u) == ChoicesOf(s[..n], u) + [];
      assert ChoicesOf(s[..n], u) + [] == ChoicesOf(s[..n], u);
      HistoryChain(s[..n], u);
    } else {
      var xs := ChoicesOf(s[..n], u);
      assert ChoicesOf(s, u) == xs + [v.to];
      CollapseSnoc(xs, v.to);
      if u in m {
        HistoryChain(s[..n], u);
      } else {
        HistoryVoters(s[..n]);
        NoChoicesOfNonVoter(s[..n], u);
      }
    }
  }

  lemma CollapseSnoc(xs: seq<string>, x: string)
    ensures Collapse(xs + [x]) == Extend(Collapse(xs), x)
  {
    assert (xs + [x])[..|xs|] == xs;
  }

  lemma {:induction false} NoChoicesOfNonVoter(s: seq<Vote>, u: string)
    requires u !in Voters(s)
    ensures ChoicesOf(s, u) == []
  {
    if s != [] {
      var n := |s| - 1;
      assert s[n] in s;
      assert Voters(s[..n]) <= Voters(s) by {
        forall x | x in Voters(s[..n]) ensures x in Voters(s) {
          var w :| w in s[..n] && w.from == x;
          assert w in s;
        }
      }
      NoChoicesOfNonVoter(s[..n], u);
    }
  }

  /** `[f(0), ..., f(n - 1)]`. */
  function Tabulate<T>(f: nat --> T, n: nat): seq<T>
    requires forall i :: 0 <= i < n ==> f.requires(i)
  {
    if n == 0 then [] else Tabulate(f, n - 1) + [f(n - 1)]
  }

  lemma {:induction false} TabulateAt<T>(f: nat --> T, n: nat)
    requires forall i :: 0 <= i < n ==> f.requires(i)
    ensures |Tabulate(f, n)| == n
    ensures forall i :: 0 <= i < n ==> Tabulate(f, n)[i] == f(i)
  {
    if n > 0 {
      TabulateAt(f, n - 1);
    }
  }

  /** Rows `0 .. k - 1` of the table. */
  function Table(sv: seq<Vote>, k: nat): seq<Row>
    requires k <= |sv|
  {
    Tabulate((j: nat) requires j < |sv| => RowAt(sv, j), k)
  }

  lemma TableRows(sv: seq<Vote>, k: nat)
    requires k <= |sv|
    ensures |Table(sv, k)| == k
    ensures forall j :: 0 <= j < k ==> Table(sv, k)[j] == RowAt(sv, j)
  {
    TabulateAt((j: nat) requires j < |sv| => RowAt(sv, j), k);
  }

  /** `renderVotes`' table loop: sorts the votes by time, then for each vote bumps the running
      count of its target, ranks the running counts with the board's `first`, and extends
      the voter's chain unless it repeats the last choice. */
  method BuildRows(votes: seq<Vote>) returns (rows: seq<Row>)
    ensures |rows| == |votes|
    ensures forall k :: 0 <= k < |rows| ==> rows[k] == RowAt(SortByTime(votes), k)
  {
    var sv := SortByTime(votes);
    SortByTimeSorted(votes);
    var g := Tally(sv);
    var running: seq<Entry> := [];
    var hist: map<string, seq<string>> := map[];
    rows := [];
    var k := 0;
    while k < |sv|
      invariant 0 <= k <= |sv|
      invariant running == Tally(sv[..k])
      invariant hist == History(sv[..k])
      invariant rows == Table(sv, k)
    {
      var row;
      running, hist, row := Advance(sv, k, g, running, hist);
      rows := rows + [row];
      k := k + 1;
    }
    TableRows(sv, |sv|);
  }

  /** One turn of the table loop, on vote `k` of the time-sorted votes `sv` whose whole
      board is `g`: the running counts and the chains grow by that vote, and the row it
      yields is row `k` of the table. */
  method Advance(sv: seq<Vote>, k: nat, g: seq<Entry>, running: seq<Entry>, hist: map<string, seq<string>>)
    returns (running': seq<Entry>, hist': map<string, seq<string>>, row: Row)
    requires SortedBy(sv, TimeLe)
    requires k < |sv| && g == Tally(sv)
    requires running == Tally(sv[..k]) && hist == History(sv[..k])
    ensures running' == Tally(sv[..k + 1]) && hist' == History(sv[..k + 1])
    ensures Table(sv, k + 1) == Table(sv, k) + [row]
  {
    var v := sv[k];
    TallyPrefix(sv, k);
    HistoryPrefix(sv, k);
    running' := Bump(running, v);
    var standing := Rank(WithBoardFirst(running', g));
    var h := Extend(if v.from in hist then hist[v.from] else [], v.to);
    hist' := hist[v.from := h];
    row := Row(v.from, h, v.postId, v.stamp, Disp(standing, 0), Disp(standing, 1));
    PrefixFirst(sv, k + 1);
    assert standing == Rank(Tally(sv[..k + 1]));
    RowStep(sv, k, standing, h, row);
  }

  lemma TallyPrefix(s: seq<Vote>, k: nat)
    requires k < |s|
    ensures Tally(s[..k + 1]) == Bump(Tally(s[..k]), s[k])
  {
    assert s[..k + 1][..k] == s[..k];
  }

  lemma HistoryPrefix(s: seq<Vote>, k: nat)
    requires k < |s|
    ensures var m := History(s[..k]);
      History(s[..k + 1]) == m[s[k].from := Extend(if s[k].from in m then m[s[k].from] else [], s[k].to)]
  {
    assert s[..k + 1][..k] == s[..k];
  }

  /** The row the loop builds for vote `k` is row `k` of the table. */
  lemma RowStep(sv: seq<Vote>, k: nat, standing: seq<Entry>, h: seq<string>, row: Row)
    requires k < |sv|
    requires standing == Rank(Tally(sv[..k + 1]))
    requires sv[k].from in History(sv[..k + 1])
    requires h == History(sv[..k + 1])[sv[k].from]
    requires row == Row(sv[k].from, h, sv[k].postId, sv[k].stamp, Disp(standing, 0), Disp(standing, 1))
    ensures row == RowAt(sv, k)
  {
    var p := sv[..k + 1];
    HistoryChain(p, sv[k].from);
  }

  // ---------------------------------------------------------------------------
  // What a row shows
  // ---------------------------------------------------------------------------

  /** The targets the entries list. */
  function Keys(es: seq<Entry>): set<string> {
    set e | e in es :: e.target
  }

  lemma {:induction false} DistinctKeys(es: seq<Entry>)
    requires Distinct(es)
    ensures |Keys(es)| == |es|
  {
    if es != [] {
      var n := |es| - 1;
      var p := es[..n];
      assert Distinct(p) by {
        forall i, j | 0 <= i < j < |p| ensures p[i].target != p[j].target {
          assert p[i] == es[i] && p[j] == es[j];
        }
      }
      DistinctKeys(p);
      assert es == p + [es[n]];
      assert Keys(es) == Keys(p) + {es[n].target};
    }
  }

  /** A tally has exactly one entry per player voted for. */
  lemma TallySize(s: seq<Vote>)
    ensures |Tally(s)| == |Targets(s)|
  {
    var r := Tally(s);
    TallySpec(s);
    DistinctKeys(r);
    forall t ensures t in Keys(r) <==> t in Targets(s) {
      if t in Keys(r) {
        var e :| e in r && e.target == t;
        var i :| 0 <= i < |r| && r[i] == e;
        assert Lookup(r, t) < |r|;
      }
      if t in Targets(s) {
        assert r[Lookup(r, t)] in r;
      }
    }
    assert Keys(r) == Targets(s);
  }

  /** Every row has a leader, and it has a runner-up exactly when at least two players have
      votes among the first `k + 1`. */
  lemma RowPlaces(sv: seq<Vote>, k: nat)
    requires k < |sv|
    ensures RowAt(sv, k).leader != NoPlace
    ensures RowAt(sv, k).runner == NoPlace <==> |Targets(sv[..k + 1])| < 2
  {
    var p := sv[..k + 1];
    TallySize(p);
    assert p[k] in p;
    assert sv[k].to in Targets(p);
  }

  /** The chain shown in row `k` ends with that row's vote and never repeats a player twice
      in a row. */
  lemma RowChain(sv: seq<Vote>, k: nat)
    requires k < |sv|
    ensures var c := RowAt(sv, k).chain;
      && c != []
      && c[|c| - 1] == sv[k].to
      && forall i :: 0 <= i < |c| - 1 ==> c[i] != c[i + 1]
  {
    var p := sv[..k + 1];
    assert p[..k] == sv[..k];
    assert ChoicesOf(p, sv[k].from) == ChoicesOf(p[..k], sv[k].from) + [sv[k].to];
  }

  // ---------------------------------------------------------------------------
  // Player filter
  // ---------------------------------------------------------------------------

  /** `!sel.length || sel.includes(r.dataset.from)`: with no player selected every row shows. */
  predicate Visible(sel: seq<string>, from: string) {
    |sel| == 0 || from in sel
  }

  /** The rows `filterVotes` leaves displayed, in table order. */
  function Shown(rows: seq<Row>, sel: seq<string>): (r: seq<Row>)
    ensures |r| <= |rows|
  {
    if rows == [] then []
    else
      var n := |rows| - 1;
      Shown(rows[..n], sel) + (if Visible(sel, rows[n].from) then [rows[n]] else [])
  }

  /** A row stays displayed exactly when its voter is visible. */
  lemma {:induction false} ShownMembers(rows: seq<Row>, sel: seq<string>)
    ensures forall x :: x in Shown(rows, sel) <==> x in rows && Visible(sel, x.from)
  {
    if rows != [] {
      var n := |rows| - 1;
      ShownMembers(rows[..n], sel);
      assert rows == rows[..n] + [rows[n]];
    }
  }

  /** With no player selected, nothing is hidden. */
  lemma {:induction false} ShownAll(rows: seq<Row>)
    ensures Shown(rows, []) == rows
  {
    if rows != [] {
      var n := |rows| - 1;
      ShownAll(rows[..n]);
      assert rows == rows[..n] + [rows[n]];
    }
  }

  lemma ShownSnoc(rows: seq<Row>, x: Row, sel: seq<string>)
    ensures Shown(rows + [x], sel) == Shown(rows, sel) + (if Visible(sel, x.from) then [x] else [])
  {
    assert (rows + [x])[..|rows|] == rows;
  }

  /** Filtering twice by the same selection hides nothing more. */
  lemma {:induction false} ShownIdempotent(rows: seq<Row>, sel: seq<string>)
    ensures Shown(Shown(rows, sel), sel) == Shown(rows, sel)
  {
    if rows != [] {
      var n := |rows| - 1;
      var a := Shown(rows[..n], sel);
      ShownIdempotent(rows[..n], sel);
      ShownSnoc(rows[..n], rows[n], sel);
      assert rows == rows[..n] + [rows[n]];
      if Visible(sel, rows[n].from) {
        ShownSnoc(a, rows[n], sel);
      } else {
        assert Shown(rows, sel) == a;
      }
    }
  }
}
