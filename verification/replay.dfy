/**
 * The live replay of scripts/app.js (`playVoteAnimation`) as a state machine. A replay
 * captures the votes at or before the slider's limit, renders the first `i` of them for
 * i = 0, 1, ..., N one frame per timer tick, re-reading the view mode each frame, and then
 * clears the `isAnimating` flag. The flag makes a second start a no-op while a replay runs.
 *
 * The timer is modelled by events: `Tick(p, j, mode)` is the pending timer of replay `j`
 * firing. A rendered frame is recorded as the list of votes handed to `renderVotes`.
 *
 * As written, loading a thread (`loadSelected`) clears the flag without stopping the pending
 * timer, so a live reload starts a second replay beside the first (`ReloadRunsTwoReplays`).
 * A load is two steps, `Unload` and `Arrive`, because the pages are awaited in between; a
 * live slider move in that window replays the old votes and blocks the new start
 * (`SlideDuringLoad`).
 * `Guarded` is the corrected machine: each replay carries the generation it was started in,
 * loading a thread starts a new generation, and a tick of an older replay stops it.
 */
module Replay {
  import opened Wrappers
  import opened Votes
  import opened View

  /** A replay waiting for its next tick: the captured votes and the frame it renders next. */
  datatype Loop = Loop(all: seq<Vote>, next: nat)

  /** A call of `renderVotes`: the view mode in force and the votes that mode is applied
      to. The list it renders is `Shown`. */
  datatype Frame = Frame(mode: Mode, votes: seq<Vote>)

  function Shown(f: Frame): seq<Vote> {
    Resolve(f.mode, f.votes)
  }

  /** The page as far as replay goes: the `isAnimating` flag, the replays whose timer is
      pending, and the frames rendered so far. */
  datatype Player = Player(animating: bool, loops: seq<Loop>, frames: seq<Frame>)

  const Idle := Player(false, [], [])

  function Remove<T>(s: seq<T>, j: nat): (r: seq<T>)
    requires j < |s|
    ensures |r| == |s| - 1
    ensures forall x :: x in r ==> x in s
  {
    s[..j] + s[j + 1..]
  }

  // ---------------------------------------------------------------------------
  // As written
  // ---------------------------------------------------------------------------

  /** `playVoteAnimation`: a no-op while the flag is set; otherwise it sets the flag,
      captures the votes at or before `limit`, renders frame 0 at once and schedules the
      next frame. */
  function Play(p: Player, all: seq<Vote>, limit: Option<int>, mode: Mode): Player {
    if p.animating then p
    else
      var cut := Cutoff(all, limit);
      Player(true, p.loops + [Loop(cut, 1)], p.frames + [Frame(mode, cut[..0])])
  }

  /** The timer of replay `j` fires (`step`): past the last frame it clears the flag and
      stops; otherwise it renders the next prefix in the current view mode. */
  function Tick(p: Player, j: nat, mode: Mode): Player
    requires j < |p.loops|
  {
    var l := p.loops[j];
    if l.next > |l.all| then Player(false, Remove(p.loops, j), p.frames)
    else
      Player(p.animating, p.loops[j := Loop(l.all, l.next + 1)],
             p.frames + [Frame(mode, l.all[..l.next])])
  }

  /** `handleSliderInput`: in live mode the slider starts a replay, otherwise it renders the
      current view at once. The slider has a range exactly when votes are loaded; without
      one the handler returns before either. */
  function Slide(p: Player, all: seq<Vote>, limit: Option<int>, mode: Mode, live: bool): Player {
    if all == [] then p
    else if live then Play(p, all, limit, mode)
    else p.(frames := p.frames + [Frame(mode, Cutoff(all, limit))])
  }

  /** The start of `loadSelected`: the flag is cleared before the pages are awaited. A load
      that finds no page ends here. */
  function Unload(p: Player): Player {
    p.(animating := false)
  }

  /** The rest of `loadSelected`, once the new thread's votes `all` are in: `displayVotes`
      runs the slider handler and renders the current view. */
  function Arrive(p: Player, all: seq<Vote>, limit: Option<int>, mode: Mode, live: bool): Player {
    var q := Slide(p, all, limit, mode, live);
    q.(frames := q.frames + [Frame(mode, Cutoff(all, limit))])
  }

  /** A load with no event between its two halves. */
  function Load(p: Player, all: seq<Vote>, limit: Option<int>, mode: Mode, live: bool): Player {
    Arrive(Unload(p), all, limit, mode, live)
  }

  /** At most one replay is pending, exactly when the flag is set, and it is between its
      first and its closing tick. */
  ghost predicate Sound(p: Player) {
    && |p.loops| <= 1
    && (p.animating <==> |p.loops| == 1)
    && (forall l :: l in p.loops ==> 1 <= l.next <= |l.all| + 1)
  }

  lemma PlayKeepsSound(p: Player, all: seq<Vote>, limit: Option<int>, mode: Mode)
    requires Sound(p)
    ensures Sound(Play(p, all, limit, mode))
    ensures p.animating ==> Play(p, all, limit, mode) == p
  {
  }

  lemma TickKeepsSound(p: Player, j: nat, mode: Mode)
    requires Sound(p) && j < |p.loops|
    ensures Sound(Tick(p, j, mode))
  {
  }

  /** A slider move keeps the machine sound. Without votes it changes nothing; otherwise a
      live move is a start and any other move draws the cut-off votes at once. */
  lemma SlideKeepsSound(p: Player, all: seq<Vote>, limit: Option<int>, mode: Mode, live: bool)
    requires Sound(p)
    ensures Sound(Slide(p, all, limit, mode, live))
    ensures all == [] ==> Slide(p, all, limit, mode, live) == p
    ensures all != [] && live ==> Slide(p, all, limit, mode, live) == Play(p, all, limit, mode)
    ensures all != [] && !live ==>
              Slide(p, all, limit, mode, live) == p.(frames := p.frames + [Frame(mode, Cutoff(all, limit))])
  {
  }

  /** The frames a replay of `cut` renders when frame `i` is drawn in mode `ms[i]`: the
      first `i` votes, for i = 0, 1, .... */
  function Frames(cut: seq<Vote>, ms: seq<Mode>): (r: seq<Frame>)
    requires |ms| <= |cut| + 1
    ensures |r| == |ms|
    ensures forall i :: 0 <= i < |ms| ==> r[i] == Frame(ms[i], cut[..i])
  {
    seq(|ms|, i requires 0 <= i < |ms| => Frame(ms[i], cut[..i]))
  }

  /** Ticks of the first pending replay, in the given view modes; a tick with nothing
      pending does not happen. */
  function Run(p: Player, modes: seq<Mode>): Player {
    if modes == [] then p
    else
      var q := Run(p, modes[..|modes| - 1]);
      if q.loops == [] then q else Tick(q, 0, modes[|modes| - 1])
  }

  /** One more mode, one more frame. */
  lemma FramesSnoc(cut: seq<Vote>, ms: seq<Mode>, m: Mode)
    requires |ms| + 1 <= |cut| + 1
    ensures Frames(cut, ms + [m]) == Frames(cut, ms) + [Frame(m, cut[..|ms|])]
  {
  }

  /** The tick of a lone replay that has frames left renders the next one. */
  lemma TickRenders(cut: seq<Vote>, k: nat, fr: seq<Frame>, m: Mode)
    requires k <= |cut|
    ensures Tick(Player(true, [Loop(cut, k)], fr), 0, m)
            == Player(true, [Loop(cut, k + 1)], fr + [Frame(m, cut[..k])])
  {
  }

  /** Uninterrupted, a replay started from rest renders after `k <= N` ticks exactly the
      frames 0..k and is still running. */
  lemma {:induction false} RunFrames(all: seq<Vote>, limit: Option<int>, m0: Mode, modes: seq<Mode>)
    requires |modes| <= |Cutoff(all, limit)|
    ensures Run(Play(Idle, all, limit, m0), modes)
            == Player(true, [Loop(Cutoff(all, limit), |modes| + 1)], Frames(Cutoff(all, limit), [m0] + modes))
  {
    var cut := Cutoff(all, limit);
    if modes == [] {
      assert Frames(cut, [m0]) == [Frame(m0, cut[..0])];
    } else {
      var n := |modes| - 1;
      var ms := [m0] + modes[..n];
      RunFrames(all, limit, m0, modes[..n]);
      var q := Run(Play(Idle, all, limit, m0), modes[..n]);
      assert q == Player(true, [Loop(cut, n + 1)], Frames(cut, ms));
      assert Run(Play(Idle, all, limit, m0), modes) == Tick(q, 0, modes[n]);
      TickRenders(cut, n + 1, Frames(cut, ms), modes[n]);
      assert [m0] + modes == ms + [modes[n]];
      FramesSnoc(cut, ms, modes[n]);
    }
  }

  /** ... and the tick after frame N clears the flag, leaving frames 0..N. */
  lemma RunEnds(all: seq<Vote>, limit: Option<int>, m0: Mode, modes: seq<Mode>)
    requires |modes| == |Cutoff(all, limit)| + 1
    ensures Run(Play(Idle, all, limit, m0), modes)
            == Player(false, [], Frames(Cutoff(all, limit), [m0] + modes[..|modes| - 1]))
  {
    RunFrames(all, limit, m0, modes[..|modes| - 1]);
  }

  /** Reloading during a live replay leaves two replays pending. The old one then renders
      the previous thread's votes after the new thread's frames. */
  lemma ReloadRunsTwoReplays(v: Vote, w: Vote)
    ensures var p := Play(Idle, [v], None, AllMode);
            var q := Load(p, [w], None, AllMode, true);
            && Sound(p) && !Sound(q)
            && |q.loops| == 2
            && Shown(Tick(q, 0, AllMode).frames[|q.frames|]) == [v]
  {
    var p := Play(Idle, [v], None, AllMode);
    var q := Load(p, [w], None, AllMode, true);
    assert q.loops == [Loop([v], 1), Loop([w], 1)];
    assert [v][..1] == [v];
  }

  /** A live slider move while the new thread's pages are awaited replays the old votes, and
      the arriving thread's own start is then refused by the flag: nothing replays its votes. */
  lemma SlideDuringLoad(v: Vote, w: Vote)
    requires v != w
    ensures var q := Slide(Unload(Idle), [v], None, AllMode, true);
            var r := Arrive(q, [w], None, AllMode, true);
            && Sound(r) && r.animating
            && r.loops == [Loop([v], 1)]
            && (forall l :: l in r.loops ==> w !in l.all)
  {
    var q := Slide(Unload(Idle), [v], None, AllMode, true);
    assert q.loops == [Loop([v], 1)];
  }

  /** When the old replay finishes first, it clears the flag while the new one still runs,
      so the next live slider move starts a third. */
  lemma StaleCompletion(w: Vote)
    ensures var q := Load(Play(Idle, [], None, AllMode), [w], None, AllMode, true);
            var r := Tick(q, 0, AllMode);
            && !r.animating && |r.loops| == 1
            && |Slide(r, [w], None, AllMode, true).loops| == 2
  {
    var q := Load(Play(Idle, [], None, AllMode), [w], None, AllMode, true);
    assert q.loops == [Loop([], 1), Loop([w], 1)];
  }

  // ---------------------------------------------------------------------------
  // Corrected: replays tagged with a generation
  // ---------------------------------------------------------------------------

  datatype GLoop = GLoop(all: seq<Vote>, next: nat, gen: nat)

  datatype Guarded = Guarded(animating: bool, gen: nat, loops: seq<GLoop>, frames: seq<Frame>)

  function GPlay(p: Guarded, all: seq<Vote>, limit: Option<int>, mode: Mode): Guarded {
    if p.animating then p
    else
      var cut := Cutoff(all, limit);
      p.(animating := true, loops := p.loops + [GLoop(cut, 1, p.gen)],
         frames := p.frames + [Frame(mode, cut[..0])])
  }

  /** A tick of a replay from an older generation stops it and touches nothing else. */
  function GTick(p: Guarded, j: nat, mode: Mode): Guarded
    requires j < |p.loops|
  {
    var l := p.loops[j];
    if l.gen != p.gen then p.(loops := Remove(p.loops, j))
    else if l.next > |l.all| then p.(animating := false, loops := Remove(p.loops, j))
    else
      p.(loops := p.loops[j := l.(next := l.next + 1)],
         frames := p.frames + [Frame(mode, l.all[..l.next])])
  }

  function GSlide(p: Guarded, all: seq<Vote>, limit: Option<int>, mode: Mode, live: bool): Guarded {
    if all == [] then p
    else if live then GPlay(p, all, limit, mode)
    else p.(frames := p.frames + [Frame(mode, Cutoff(all, limit))])
  }

  /** Clearing the flag starts a new generation, which retires every pending replay. */
  function Retire(p: Guarded): Guarded {
    p.(animating := false, gen := p.gen + 1)
  }

  /** The start of a load retires the running replays. */
  function GUnload(p: Guarded): Guarded {
    Retire(p)
  }

  /** The votes arrive: replays started while they were awaited are retired too, then the
      slider handler runs and the current view is drawn. */
  function GArrive(p: Guarded, all: seq<Vote>, limit: Option<int>, mode: Mode, live: bool): Guarded {
    var q := GSlide(Retire(p), all, limit, mode, live);
    q.(frames := q.frames + [Frame(mode, Cutoff(all, limit))])
  }

  /** Loading a thread, with no event between its two halves. */
  function GLoad(p: Guarded, all: seq<Vote>, limit: Option<int>, mode: Mode, live: bool): Guarded {
    GArrive(GUnload(p), all, limit, mode, live)
  }

  /** At most one replay of the current generation is pending, exactly when the flag is
      set; older ones may still be pending. */
  ghost predicate GSound(p: Guarded) {
    && (forall i, j :: 0 <= i < j < |p.loops| && p.loops[i].gen == p.gen ==> p.loops[j].gen != p.gen)
    && (p.animating <==> exists i :: 0 <= i < |p.loops| && p.loops[i].gen == p.gen)
    && (forall l :: l in p.loops ==> l.gen <= p.gen && 1 <= l.next <= |l.all| + 1)
  }

  lemma GPlayKeepsSound(p: Guarded, all: seq<Vote>, limit: Option<int>, mode: Mode)
    requires GSound(p)
    ensures GSound(GPlay(p, all, limit, mode))
  {
    if !p.animating {
      var r := GPlay(p, all, limit, mode);
      assert r.loops[|p.loops|].gen == r.gen;
    }
  }

  /** Dropping replay `j` keeps the machine sound; the flag stays set unless `j` was the
      current replay. */
  lemma GDropKeepsSound(p: Guarded, j: nat)
    requires GSound(p) && j < |p.loops|
    ensures GSound(p.(animating := p.animating && p.loops[j].gen != p.gen, loops := Remove(p.loops, j)))
  {
    var r := p.(animating := p.animating && p.loops[j].gen != p.gen, loops := Remove(p.loops, j));
    assert forall i :: 0 <= i < |r.loops| ==> r.loops[i] == p.loops[if i < j then i else i + 1];
    if r.animating {
      var i :| 0 <= i < |p.loops| && p.loops[i].gen == p.gen;
      assert i != j;
      assert r.loops[if i < j then i else i - 1].gen == r.gen;
    }
    forall i | 0 <= i < |r.loops| && r.loops[i].gen == r.gen
      ensures r.animating
    {
      var k := if i < j then i else i + 1;
      assert p.loops[k].gen == p.gen && k != j;
    }
  }

  lemma GTickKeepsSound(p: Guarded, j: nat, mode: Mode)
    requires GSound(p) && j < |p.loops|
    ensures GSound(GTick(p, j, mode))
  {
    var l := p.loops[j];
    if l.gen != p.gen || l.next > |l.all| {
      GDropKeepsSound(p, j);
    } else {
      var r := GTick(p, j, mode);
      assert r.loops[j].gen == r.gen;
    }
  }

  /** A slider move keeps the corrected machine sound, and changes nothing without votes. */
  lemma GSlideKeepsSound(p: Guarded, all: seq<Vote>, limit: Option<int>, mode: Mode, live: bool)
    requires GSound(p)
    ensures GSound(GSlide(p, all, limit, mode, live))
    ensures all == [] ==> GSlide(p, all, limit, mode, live) == p
    ensures all != [] && live ==> GSlide(p, all, limit, mode, live) == GPlay(p, all, limit, mode)
  {
    if all != [] && live {
      GPlayKeepsSound(p, all, limit, mode);
    }
  }

  /** A new generation has no pending replay of its own. */
  lemma RetireKeepsSound(p: Guarded)
    requires GSound(p)
    ensures GSound(Retire(p)) && !Retire(p).animating
  {
  }

  lemma GUnloadKeepsSound(p: Guarded)
    requires GSound(p)
    ensures GSound(GUnload(p))
  {
    RetireKeepsSound(p);
  }

  /** Unlike `Load`, loading keeps the machine sound: a reload during a live replay leaves
      one current replay. */
  lemma GLoadKeepsSound(p: Guarded, all: seq<Vote>, limit: Option<int>, mode: Mode, live: bool)
    requires GSound(p)
    ensures GSound(GArrive(p, all, limit, mode, live))
    ensures GSound(GLoad(p, all, limit, mode, live))
  {
    RetireKeepsSound(p);
    GSlideKeepsSound(Retire(p), all, limit, mode, live);
    GUnloadKeepsSound(p);
    RetireKeepsSound(GUnload(p));
    GSlideKeepsSound(Retire(GUnload(p)), all, limit, mode, live);
  }

  /** Unlike `SlideDuringLoad`, a live arrival with votes always replays the new votes: its
      replay is the only current one, whatever ran while the pages were awaited. */
  lemma GArriveReplaysNew(p: Guarded, all: seq<Vote>, limit: Option<int>, mode: Mode)
    requires GSound(p) && all != []
    ensures var r := GArrive(p, all, limit, mode, true);
            && r.animating && r.gen == p.gen + 1
            && r.loops == p.loops + [GLoop(Cutoff(all, limit), 1, r.gen)]
            && (forall i :: 0 <= i < |p.loops| ==> r.loops[i].gen != r.gen)
  {
  }

  /** Every frame is drawn by the current replay, from a prefix of its captured votes, and
      the flag is cleared only by the current replay's tick after its last frame. */
  lemma GTickIsCurrent(p: Guarded, j: nat, mode: Mode)
    requires GSound(p) && j < |p.loops|
    ensures var r := GTick(p, j, mode);
            var l := p.loops[j];
            && (|r.frames| != |p.frames| ==>
                  l.gen == p.gen && l.next <= |l.all|
                  && r.frames == p.frames + [Frame(mode, l.all[..l.next])])
            && (p.animating && !r.animating ==> l.gen == p.gen && l.next == |l.all| + 1)
  {
  }

  /** The gens forgotten: what the as-written machine sees. */
  function Erase(p: Guarded): (r: Player)
    ensures |r.loops| == |p.loops|
  {
    Player(p.animating, seq(|p.loops|, i requires 0 <= i < |p.loops| => Loop(p.loops[i].all, p.loops[i].next)), p.frames)
  }

  /** Starting a replay is unchanged by the correction. */
  lemma GPlayRefines(p: Guarded, all: seq<Vote>, limit: Option<int>, mode: Mode)
    ensures Erase(GPlay(p, all, limit, mode)) == Play(Erase(p), all, limit, mode)
  {
    if !p.animating {
      assert Erase(GPlay(p, all, limit, mode)).loops == Erase(p).loops + [Loop(Cutoff(all, limit), 1)];
    }
  }

  /** A tick of a current replay does what the as-written tick does. */
  lemma GTickRefines(p: Guarded, j: nat, mode: Mode)
    requires j < |p.loops| && p.loops[j].gen == p.gen
    ensures Erase(GTick(p, j, mode)) == Tick(Erase(p), j, mode)
  {
    var l := p.loops[j];
    if l.next > |l.all| {
      assert Erase(GTick(p, j, mode)).loops == Remove(Erase(p).loops, j);
    } else {
      assert Erase(GTick(p, j, mode)).loops == Erase(p).loops[j := Loop(l.all, l.next + 1)];
    }
  }
}
