/**
 * The working set of the leaderboard (scripts/app.js): the votes at or before the slider's
 * time limit, and in the "latest" view only each voter's last vote among them
 * (`getLatestVotes`). Timestamps are the integer instants their `datetime` texts denote.
 */
module View {
  import opened Wrappers
  import opened Sorting
  import opened Votes

  /** The comparator `(a, b) => new Date(a.timestamp) - new Date(b.timestamp)`. */
  predicate TimeLe(a: Vote, b: Vote) {
    a.time <= b.time
  }

  lemma TimeLeIsTotalPreorder()
    ensures TotalPreorder(TimeLe)
  {
  }

  /** `[...votes].sort(byTime)`: the votes in time order. */
  function SortByTime(votes: seq<Vote>): (r: seq<Vote>)
    ensures |r| == |votes|
  {
    SortBy(votes, TimeLe)
  }

  /** The time-sorted copy is in time order and holds the same votes. */
  lemma SortByTimeSorted(votes: seq<Vote>)
    ensures SortedBy(SortByTime(votes), TimeLe)
    ensures multiset(SortByTime(votes)) == multiset(votes)
  {
    TimeLeIsTotalPreorder();
    SortBySorted(votes, TimeLe);
  }

  /** The votes of `s` cast at instant `t`, in their order in `s`. */
  function AtInstant(s: seq<Vote>, t: int): seq<Vote> {
    if s == [] then []
    else AtInstant(s[..|s| - 1], t) + (if s[|s| - 1].time == t then [s[|s| - 1]] else [])
  }

  /** Comparing equal under `TimeLe` is being cast at the same instant. */
  lemma {:induction false} ClassIsAtInstant(s: seq<Vote>, e: Vote)
    ensures Class(s, TimeLe, e) == AtInstant(s, e.time)
  {
    if s != [] {
      ClassIsAtInstant(s[..|s| - 1], e);
    }
  }

  /** The time sort is stable: the votes cast at any one instant keep their input order. */
  lemma SortByTimeStable(votes: seq<Vote>, t: int)
    ensures AtInstant(SortByTime(votes), t) == AtInstant(votes, t)
  {
    var e := Vote("", "", "", "", t);
    TimeLeIsTotalPreorder();
    SortByStable(votes, TimeLe, e);
    ClassIsAtInstant(SortByTime(votes), e);
    ClassIsAtInstant(votes, e);
  }

  // ---------------------------------------------------------------------------
  // Time cutoff and slider
  // ---------------------------------------------------------------------------

  /** The votes of `s` cast at or before `t`, in their order in `s`. */
  function Before(s: seq<Vote>, t: int): (r: seq<Vote>)
    ensures |r| <= |s|
    ensures forall v :: v in r <==> v in s && v.time <= t
  {
    if s == [] then []
    else
      var n := |s| - 1;
      assert s == s[..n] + [s[n]];
      Before(s[..n], t) + (if s[n].time <= t then [s[n]] else [])
  }

  /** `allVotes.filter(v => !limit || new Date(v.timestamp) <= limit)`: with a limit, the
      votes at or before it in their original order; without one, every vote. */
  function Cutoff(votes: seq<Vote>, limit: Option<int>): (r: seq<Vote>)
    ensures |r| <= |votes|
    ensures forall v :: v in r <==> v in votes && (limit.None? || v.time <= limit.value)
    ensures limit.None? ==> r == votes
  {
    if limit.None? then votes else Before(votes, limit.value)
  }

  /** Filtering keeps the input order: it works vote by vote. */
  lemma {:induction false} CutoffAppend(a: seq<Vote>, b: seq<Vote>, limit: Option<int>)
    ensures Cutoff(a + b, limit) == Cutoff(a, limit) + Cutoff(b, limit)
  {
    if b == [] {
      assert a + b == a;
    } else if limit.Some? {
      var n := |b| - 1;
      assert (a + b)[..|a + b| - 1] == a + b[..n];
      CutoffAppend(a, b[..n], limit);
    }
  }

  /** A limit at or after every vote drops nothing. */
  lemma {:induction false} CutoffKeepsLaterLimit(votes: seq<Vote>, t: int)
    requires forall v :: v in votes ==> v.time <= t
    ensures Cutoff(votes, Some(t)) == votes
  {
    if votes != [] {
      var n := |votes| - 1;
      assert votes == votes[..n] + [votes[n]];
      CutoffKeepsLaterLimit(votes[..n], t);
    }
  }

  /** Earliest and latest instant of the loaded votes (`timeSliderRange`). */
  datatype Range = Range(min: int, max: int)

  /** `ts[0]` and `ts[ts.length - 1]` of the sorted instants; absent for no votes. */
  function TimeRange(votes: seq<Vote>): (r: Option<Range>)
    ensures r.None? <==> votes == []
    ensures r.Some? ==> forall v :: v in votes ==> r.value.min <= v.time <= r.value.max
    ensures r.Some? ==> exists v, w :: v in votes && w in votes && v.time == r.value.min && w.time == r.value.max
  {
    if votes == [] then None
    else
      var s := SortByTime(votes);
      SortByTimeSorted(votes);
      assert s[0] in multiset(votes) && s[|s| - 1] in multiset(votes);
      assert forall v :: v in votes ==> v in multiset(s);
      Some(Range(s[0].time, s[|s| - 1].time))
  }

  /** `minTime + (maxTime - minTime) * pct / 100`, truncated to a whole millisecond by `new
      Date`; the slider reports a percentage from 0 to 100. */
  function SliderLimit(r: Range, pct: int): (t: int)
    requires r.min <= r.max
    requires 0 <= pct <= 100
    ensures r.min <= t <= r.max
    ensures pct == 100 ==> t == r.max
    ensures pct == 0 ==> t == r.min
  {
    var d := r.max - r.min;
    assert 0 <= d * pct <= d * 100;
    r.min + d * pct / 100
  }

  /** Moving the slider right never moves the limit left. */
  lemma SliderLimitMonotone(r: Range, p: int, q: int)
    requires r.min <= r.max
    requires 0 <= p <= q <= 100
    ensures SliderLimit(r, p) <= SliderLimit(r, q)
  {
    var d := r.max - r.min;
    assert d * p <= d * q;
  }

  /** At 100 % the slider keeps every vote. */
  lemma FullSliderKeepsAll(votes: seq<Vote>)
    requires votes != []
    ensures Cutoff(votes, Some(SliderLimit(TimeRange(votes).value, 100))) == votes
  {
    CutoffKeepsLaterLimit(votes, TimeRange(votes).value.max);
  }

  // ---------------------------------------------------------------------------
  // Latest vote per voter
  // ---------------------------------------------------------------------------

  /** The voters of `s`. */
  function Voters(s: seq<Vote>): set<string> {
    set v | v in s :: v.from
  }

  /** The last vote `u` cast in `s`, if any. */
  function LastBy(s: seq<Vote>, u: string): (r: Option<Vote>)
    ensures r.None? <==> u !in Voters(s)
    ensures r.Some? ==> r.value.from == u && r.value in s
  {
    if s == [] then None
    else
      var n := |s| - 1;
      assert s == s[..n] + [s[n]];
      if s[n].from == u then Some(s[n]) else LastBy(s[..n], u)
  }

  /** Nothing after the vote `LastBy` picks is by the same voter. */
  lemma {:induction false} LastByIsLast(s: seq<Vote>, u: string) returns (p: nat)
    requires LastBy(s, u).Some?
    ensures p < |s| && s[p] == LastBy(s, u).value
    ensures forall j :: p < j < |s| ==> s[j].from != u
  {
    var n := |s| - 1;
    if s[n].from == u {
      p := n;
    } else {
      p := LastByIsLast(s[..n], u);
    }
  }

  /** The `latest` object of `getLatestVotes`: its keys in the order a JavaScript object
      enumerates them (first insertion), and the vote stored under each key. */
  datatype LastSeen = LastSeen(keys: seq<string>, last: map<string, Vote>)

  /** `latest[v.from] = v`: overwriting a key keeps its position. */
  function Put(d: LastSeen, v: Vote): LastSeen {
    if v.from in d.last then d.(last := d.last[v.from := v])
    else LastSeen(d.keys + [v.from], d.last[v.from := v])
  }

  /** `s.forEach(v => latest[v.from] = v)` on an empty object: every voter once, in order of
      first appearance, holding that voter's last vote in `s`. */
  function Assign(s: seq<Vote>): (d: LastSeen)
    ensures forall i, j :: 0 <= i < j < |d.keys| ==> d.keys[i] != d.keys[j]
    ensures forall u :: u in d.last <==> u in d.keys
    ensures d.last.Keys == Voters(s)
    ensures forall u :: u in d.last ==> LastBy(s, u) == Some(d.last[u])
  {
    if s == [] then LastSeen([], map[])
    else
      var n := |s| - 1;
      assert s == s[..n] + [s[n]];
      assert Voters(s) == Voters(s[..n]) + {s[n].from};
      Put(Assign(s[..n]), s[n])
  }

  lemma LastBySnoc(a: seq<Vote>, x: Vote, u: string)
    ensures LastBy(a + [x], u) == if x.from == u then Some(x) else LastBy(a, u)
  {
    assert (a + [x])[..|a|] == a;
  }

  /** The last vote of a voter is also the last one that voter cast at that instant. */
  lemma {:induction false} LastByAtInstant(s: seq<Vote>, u: string, w: Vote)
    requires LastBy(s, u) == Some(w)
    ensures LastBy(AtInstant(s, w.time), u) == Some(w)
  {
    var n := |s| - 1;
    var x := s[n];
    var a := AtInstant(s[..n], w.time);
    assert AtInstant(s, w.time) == a + (if x.time == w.time then [x] else []);
    if x.from == u {
      LastBySnoc(a, x, u);
    } else {
      assert LastBy(s[..n], u) == Some(w);
      LastByAtInstant(s[..n], u, w);
      if x.time == w.time {
        LastBySnoc(a, x, u);
      } else {
        assert a + [] == a;
      }
    }
  }

  /** In the time-sorted copy `s` of `votes`, the last vote of a voter is one of that voter's
      latest votes, and the last the voter cast at its instant in `votes` too. */
  lemma SortedLastFacts(votes: seq<Vote>, s: seq<Vote>, w: Vote)
    requires s == SortByTime(votes)
    requires LastBy(s, w.from) == Some(w)
    ensures w in votes
    ensures forall v :: v in votes && v.from == w.from ==> v.time <= w.time
    ensures LastBy(AtInstant(votes, w.time), w.from) == Some(w)
  {
    var u := w.from;
    SortByTimeSorted(votes);
    var p := LastByIsLast(s, u);
    assert w in multiset(s);
    forall v | v in votes && v.from == u ensures v.time <= w.time {
      assert v in multiset(s);
      var j :| 0 <= j < |s| && s[j] == v;
    }
    LastByAtInstant(s, u, w);
    SortByTimeStable(votes, w.time);
  }

  /** The votes `getLatestVotes` reads off the `latest` object, in key order. */
  function Stored(d: LastSeen): (r: seq<Vote>)
    requires forall u :: u in d.keys ==> u in d.last
    ensures |r| == |d.keys|
    ensures forall i :: 0 <= i < |r| ==> r[i] == d.last[d.keys[i]]
  {
    seq(|d.keys|, i requires 0 <= i < |d.keys| => d.last[d.keys[i]])
  }

  /** Each stored vote sits under its own voter's key and is that voter's last in `s`. */
  lemma StoredAt(s: seq<Vote>, i: nat)
    requires i < |Assign(s).keys|
    ensures Stored(Assign(s))[i].from == Assign(s).keys[i]
    ensures LastBy(s, Assign(s).keys[i]) == Some(Stored(Assign(s))[i])
  {
    assert Assign(s).keys[i] in Assign(s).last;
  }

  /** The stored votes are one per voter of `s`, each that voter's last. */
  lemma StoredLast(s: seq<Vote>, r: seq<Vote>)
    requires r == Stored(Assign(s))
    ensures forall i, j :: 0 <= i < j < |r| ==> r[i].from != r[j].from
    ensures forall w :: w in r ==> LastBy(s, w.from) == Some(w)
    ensures Voters(r) == Voters(s)
  {
    var d := Assign(s);
    forall i, j | 0 <= i < j < |r| ensures r[i].from != r[j].from {
      StoredAt(s, i);
      StoredAt(s, j);
    }
    forall w | w in r ensures LastBy(s, w.from) == Some(w) {
      var i :| 0 <= i < |r| && r[i] == w;
      StoredAt(s, i);
    }
    StoredVoters(s, r);
  }

  lemma StoredVoters(s: seq<Vote>, r: seq<Vote>)
    requires r == Stored(Assign(s))
    ensures Voters(r) == Voters(s)
  {
    var d := Assign(s);
    forall u | u in Voters(s) ensures u in Voters(r) {
      var i :| 0 <= i < |d.keys| && d.keys[i] == u;
      StoredAt(s, i);
      assert r[i] in r;
    }
    forall u | u in Voters(r) ensures u in Voters(s) {
      var w :| w in r && w.from == u;
      var i :| 0 <= i < |r| && r[i] == w;
      StoredAt(s, i);
    }
  }

  lemma SortedVoters(votes: seq<Vote>)
    ensures Voters(SortByTime(votes)) == Voters(votes)
  {
    SortByTimeSorted(votes);
    var s := SortByTime(votes);
    forall v ensures v in s <==> v in votes { assert v in s <==> v in multiset(s); }
  }

  lemma LatestFacts(votes: seq<Vote>, s: seq<Vote>, r: seq<Vote>)
    requires s == SortByTime(votes)
    requires r == Stored(Assign(s))
    ensures forall i, j :: 0 <= i < j < |r| ==> r[i].from != r[j].from
    ensures Voters(r) == Voters(votes)
    ensures forall w :: w in r ==> w in votes
    ensures forall w, v :: w in r && v in votes && v.from == w.from ==> v.time <= w.time
    ensures forall w :: w in r ==> LastBy(AtInstant(votes, w.time), w.from) == Some(w)
  {
    StoredLast(s, r);
    SortedVoters(votes);
    forall w | w in r ensures w in votes && LastBy(AtInstant(votes, w.time), w.from) == Some(w)
      && forall v :: v in votes && v.from == w.from ==> v.time <= w.time
    {
      SortedLastFacts(votes, s, w);
    }
  }

  /** `getLatestVotes`: one vote per voter of `votes`, that voter's latest; among votes
      cast at the same instant the one later in `votes` wins, because the sort is stable. */
  function LatestVotes(votes: seq<Vote>): (r: seq<Vote>)
    ensures forall i, j :: 0 <= i < j < |r| ==> r[i].from != r[j].from
    ensures Voters(r) == Voters(votes)
    ensures forall w :: w in r ==> w in votes
    ensures forall w, v :: w in r && v in votes && v.from == w.from ==> v.time <= w.time
    ensures forall w :: w in r ==> LastBy(AtInstant(votes, w.time), w.from) == Some(w)
  {
    var s := SortByTime(votes);
    var r := Stored(Assign(s));
    LatestFacts(votes, s, r);
    r
  }

  // ---------------------------------------------------------------------------
  // View mode
  // ---------------------------------------------------------------------------

  /** The `voteView` radio buttons; anything but "all" reads as "latest". */
  datatype Mode = LatestMode | AllMode

  /** `mode === "all" ? votes : getLatestVotes(votes)`. */
  function Resolve(mode: Mode, votes: seq<Vote>): seq<Vote> {
    if mode == AllMode then votes else LatestVotes(votes)
  }

  /** What `renderCurrentView` hands to `renderVotes`. */
  function WorkingSet(all: seq<Vote>, limit: Option<int>, mode: Mode): (r: seq<Vote>)
    ensures forall v :: v in r ==> v in all && (limit.None? || v.time <= limit.value)
    ensures mode == AllMode ==> r == Cutoff(all, limit)
    ensures mode == LatestMode ==> Voters(r) == Voters(Cutoff(all, limit))
  {
    Resolve(mode, Cutoff(all, limit))
  }
}
