/** What live polling gets from the unwrap of client/src/wire.rs.

An edge may land in the ring after a drain's snapshot and before its `now`
latch, so it ships one drain later with a tick slightly before that `now`.  The
theorem here bounds that window by 4096 ticks and says nothing of the anchor:
polled this way, the capture is the true timeline. */
module LivePolling {
  import opened Basics
  import opened WireTimeline

  /** A drain as the timeline sees it: when it latched, how many edges are out once it is
      merged, and whether it was quiet. */
  datatype Poll = Poll(now: int, upTo: nat, quiet: bool)

  /** How many edges are out before poll `i`. */
  ghost function Out(polls: seq<Poll>, i: nat): nat
    requires i <= |polls|
  {
    if i == 0 then 0 else polls[i - 1].upTo
  }

  /** Polls are taken in time order, each ships only edges that have happened, and an edge
      that missed a quiet poll is at most 4096 ticks older than its `now`. */
  ghost predicate Windowed(truth: seq<int>, polls: seq<Poll>) {
    && (forall k, m :: 0 <= k <= m < |truth| ==> truth[k] <= truth[m])
    && (forall i, j :: 0 <= i <= j < |polls| ==> polls[i].now <= polls[j].now && polls[i].upTo <= polls[j].upTo)
    && (forall i, k :: 0 <= i < |polls| && 0 <= k < |truth| ==>
          if k < polls[i].upTo then truth[k] <= polls[i].now else polls[i].quiet ==> polls[i].now - 4096 <= truth[k])
  }

  /** Edge `k` is the first to ship after the quiet poll `j`, less than a wrap above its floor. */
  ghost predicate AfterFloor(truth: seq<int>, polls: seq<Poll>, j: nat, k: nat)
    requires j < |polls| && k < |truth|
  {
    polls[j].quiet && polls[j].upTo == k && truth[k] - (polls[j].now - 4096) < 0x1_0000
  }

  /** Edge `k` ships in poll `i` less than a wrap after its predecessor, less than a wrap
      after the floor of a quiet poll between the two, or, first of all, less than a wrap
      before the first poll. */
  ghost predicate Timely(truth: seq<int>, polls: seq<Poll>, i: nat, k: nat)
    requires i < |polls| && k < |truth|
  {
    || (k > 0 && truth[k] - truth[k - 1] < 0x1_0000)
    || (exists j :: 0 <= j < i && AfterFloor(truth, polls, j, k))
    || (k == 0 && i == 0 && polls[0].now - truth[0] < 0x1_0000)
  }

  /** A quiet poll comes less than 2^31 - 1 ticks after the quiet poll before it, or its
      floor less than that after the edge before it. */
  ghost predicate Awake(truth: seq<int>, polls: seq<Poll>, i: nat)
    requires 0 < i < |polls|
  {
    polls[i].quiet ==>
      if polls[i - 1].quiet then polls[i].now - polls[i - 1].now < 0x7FFF_FFFF
      else 0 < polls[i].upTo <= |truth| ==> polls[i].now - 4096 - truth[polls[i].upTo - 1] < 0x7FFF_FFFF
  }

  ghost predicate Live(truth: seq<int>, polls: seq<Poll>) {
    && Windowed(truth, polls)
    && (forall i, k {:trigger Timely(truth, polls, i, k)} ::
          0 <= i < |polls| && Out(polls, i) <= k < polls[i].upTo && k < |truth| ==> Timely(truth, polls, i, k))
    && (forall i :: 0 < i < |polls| ==> Awake(truth, polls, i))
  }

  // ---------------------------------------------------------------------
  // Where the anchor stands
  // ---------------------------------------------------------------------

  /** What every drain keeps to: a quiet one ships nothing, and one before the first edge is quiet. */
  ghost predicate Steps(truth: seq<int>, polls: seq<Poll>, i: nat)
    requires i < |polls|
  {
    && Out(polls, i) <= polls[i].upTo <= |truth|
    && (polls[i].quiet ==> Out(polls, i) == polls[i].upTo)
    && (polls[i].upTo == 0 ==> polls[i].quiet)
  }

  /** The anchor `g` before poll `i` is the last edge out, or the last floor. */
  ghost predicate Stands(truth: seq<int>, polls: seq<Poll>, i: nat, g: int)
    requires 0 < i <= |polls|
  {
    var e := polls[i - 1].upTo;
    && g <= polls[i - 1].now
    && (e < |truth| ==> g <= truth[e])
    && (0 < e <= |truth| ==> truth[e - 1] <= g)
    && (e == 0 ==> polls[i - 1].quiet)
    && (forall j :: 0 <= j < i && polls[j].quiet && polls[j].upTo == e ==> polls[j].now - 4096 <= g)
  }

  ghost predicate Stood(truth: seq<int>, polls: seq<Poll>, i: nat, at: Option<int>)
    requires i <= |polls|
  {
    if i == 0 then at.None? else at.Some? && Stands(truth, polls, i, at.value)
  }

  /** The anchor after a poll. */
  ghost function Moved(truth: seq<int>, at: Option<int>, lo: nat, p: Poll): Option<int>
    requires p.upTo <= |truth|
  {
    if lo < p.upTo then Some(truth[p.upTo - 1])
    else if !p.quiet then at
    else Some(if at.Some? && p.now - 4096 < at.value then at.value else p.now - 4096)
  }

  lemma StoodNext(truth: seq<int>, polls: seq<Poll>, i: nat, at: Option<int>)
    requires i < |polls| && Windowed(truth, polls) && Stood(truth, polls, i, at) && Steps(truth, polls, i)
    ensures Stood(truth, polls, i + 1, Moved(truth, at, Out(polls, i), polls[i]))
  {
  }

  ghost predicate Near(at: Option<int>, floor: int) {
    at.Some? ==> -0x7FFF_FFFF < floor - at.value < 0x7FFF_FFFF
  }

  /** A quiet poll's floor is near enough to the anchor to be taken. */
  lemma FloorIsNear(truth: seq<int>, polls: seq<Poll>, i: nat, at: Option<int>)
    requires i < |polls| && Live(truth, polls) && Stood(truth, polls, i, at) && Steps(truth, polls, i)
    ensures polls[i].quiet ==> Near(at, polls[i].now - 4096)
  {
    if i > 0 {
      assert Awake(truth, polls, i);
    }
  }

  /** Edge `k` follows its predecessor by less than a wrap. */
  ghost predicate Close(truth: seq<int>, k: nat)
    requires 0 < k < |truth|
  {
    truth[k - 1] <= truth[k] < truth[k - 1] + 0x1_0000
  }

  lemma {:induction false} CloseIsPrompt(truth: seq<int>, now: int, lo: nat, hi: nat)
    requires 0 < lo <= hi <= |truth| && forall k :: lo <= k < hi ==> Close(truth, k)
    ensures Prompt(truth, Some(truth[lo - 1]), now, lo, hi)
    decreases hi - lo
  {
    if lo < hi {
      assert Close(truth, lo);
      CloseIsPrompt(truth, now, lo + 1, hi);
    }
  }

  /** The first edge of poll `i` is in reach of the anchor, or of the first poll. */
  ghost predicate Follows(at: Option<int>, now: int, x: int) {
    match at case None => now - 0x1_0000 < x <= now case Some(g) => g <= x < g + 0x1_0000
  }

  lemma FirstFollows(truth: seq<int>, polls: seq<Poll>, i: nat, at: Option<int>)
    requires i < |polls| && Live(truth, polls) && Stood(truth, polls, i, at) && Steps(truth, polls, i)
    requires Out(polls, i) < polls[i].upTo
    ensures Follows(at, polls[i].now, truth[Out(polls, i)])
  {
    assert Timely(truth, polls, i, Out(polls, i));
  }

  lemma RestIsClose(truth: seq<int>, polls: seq<Poll>, i: nat, k: nat)
    requires i < |polls| && Live(truth, polls)
    requires Out(polls, i) < k < polls[i].upTo && k < |truth|
    ensures Close(truth, k)
  {
    assert Timely(truth, polls, i, k);
  }

  lemma PollReaches(truth: seq<int>, polls: seq<Poll>, i: nat, at: Option<int>)
    requires i < |polls| && Live(truth, polls) && Stood(truth, polls, i, at) && Steps(truth, polls, i)
    ensures InReach(truth, at, polls[i].now, Out(polls, i), polls[i].upTo)
  {
    var lo, hi := Out(polls, i), polls[i].upTo;
    if lo < hi {
      FirstFollows(truth, polls, i, at);
      forall k | lo < k < hi ensures Close(truth, k) {
        RestIsClose(truth, polls, i, k);
      }
      CloseIsPrompt(truth, polls[i].now, lo + 1, hi);
    }
    PromptReaches(truth, at, polls[i].now, lo, hi);
  }

  // ---------------------------------------------------------------------
  // Schedules of drains
  // ---------------------------------------------------------------------

  /** What has been shipped when drain `i` is taken, when `c` was before the first. */
  ghost function Sent(c: Count, drains: seq<TrueDrain>, i: nat): Count
    requires i <= |drains|
  {
    if i == 0 then c else drains[i - 1].upTo
  }

  /** A drain is quiet when it brings nothing and no fall is waiting for its rise. */
  ghost predicate Quiet(c: Count, d: TrueDrain) {
    d.upTo == c && c.falls <= c.rises + 1
  }

  ghost function PollOf(c: Count, d: TrueDrain): Poll {
    Poll(d.now, Emitted(d.upTo), Quiet(c, d))
  }

  ghost function Polls(c: Count, drains: seq<TrueDrain>): (polls: seq<Poll>)
    ensures |polls| == |drains|
  {
    seq(|drains|, i requires 0 <= i < |drains| => PollOf(Sent(c, drains, i), drains[i]))
  }

  /** One drain of the schedule, as a poll. */
  lemma DrainIsPoll(truth: seq<int>, at: Option<int>, c: Count, d: TrueDrain, p: Poll)
    requires Advances(truth, c, d) && p == PollOf(c, d)
    ensures Emitted(c) <= p.upTo <= |truth|
    ensures (p.quiet ==> Emitted(c) == p.upTo) && (p.upTo == 0 ==> p.quiet)
    ensures (p.quiet ==> Near(at, d.now - 4096)) ==> AnchorAfter(truth, at, c, d) == Moved(truth, at, Emitted(c), p)
  {
    NearLift(at, d.now);
  }

  lemma PollStep(truth: seq<int>, polls: seq<Poll>, i: nat, at: Option<int>, c: Count, d: TrueDrain)
    requires i < |polls| && polls[i] == PollOf(c, d) && Out(polls, i) == Emitted(c)
    requires Advances(truth, c, d) && Live(truth, polls) && Stood(truth, polls, i, at)
    ensures Emitted(c) <= Emitted(d.upTo) <= |truth| && InReach(truth, at, d.now, Emitted(c), Emitted(d.upTo))
    ensures Stood(truth, polls, i + 1, AnchorAfter(truth, at, c, d))
  {
    DrainIsPoll(truth, at, c, d, polls[i]);
    FloorIsNear(truth, polls, i, at);
    StoodNext(truth, polls, i, at);
    PollReaches(truth, polls, i, at);
  }

  lemma ReachStep(truth: seq<int>, at: Option<int>, c: Count, drains: seq<TrueDrain>)
    requires LegalRun(truth, c, drains) && drains != []
    ensures var d := drains[0];
      && Advances(truth, c, d) && LegalRun(truth, d.upTo, drains[1..])
      && (RunInReach(truth, at, c, drains)
          <==> && InReach(truth, at, d.now, Emitted(c), Emitted(d.upTo))
               && RunInReach(truth, AnchorAfter(truth, at, c, d), d.upTo, drains[1..]))
  {
    assert LegalRun(truth, drains[0].upTo, drains[1..]);
  }

  lemma LiveStep(truth: seq<int>, polls: seq<Poll>, i: nat, at: Option<int>, c: Count, drains: seq<TrueDrain>)
    requires i < |polls| && drains != [] && LegalRun(truth, c, drains)
    requires polls[i] == PollOf(c, drains[0])
    requires Out(polls, i) == Emitted(c) && Live(truth, polls) && Stood(truth, polls, i, at)
    ensures var d := drains[0];
      && Legal(truth, d.upTo) && LegalRun(truth, d.upTo, drains[1..])
      && Out(polls, i + 1) == Emitted(d.upTo)
      && Stood(truth, polls, i + 1, AnchorAfter(truth, at, c, d))
      && (RunInReach(truth, AnchorAfter(truth, at, c, d), d.upTo, drains[1..]) ==> RunInReach(truth, at, c, drains))
  {
    ReachStep(truth, at, c, drains);
    PollStep(truth, polls, i, at, c, drains[0]);
  }

  /** The polls from `i` on are those of the drains that follow `c`. */
  ghost predicate Follow(polls: seq<Poll>, i: nat, c: Count, drains: seq<TrueDrain>)
    decreases |drains|
  {
    && i + |drains| == |polls|
    && (drains != [] ==>
          && polls[i] == PollOf(c, drains[0])
          && Follow(polls, i + 1, drains[0].upTo, drains[1..]))
  }

  lemma FollowStep(polls: seq<Poll>, i: nat, c: Count, d: TrueDrain, drains: seq<TrueDrain>)
    requires drains != [] && drains[0] == d && i < |polls| && polls[i] == PollOf(c, d)
    requires Follow(polls, i + 1, d.upTo, drains[1..])
    ensures Follow(polls, i, c, drains)
  {
  }

  lemma {:induction false} PollsFollow(c: Count, drains: seq<TrueDrain>, i: nat)
    requires i <= |drains|
    ensures Follow(Polls(c, drains), i, Sent(c, drains, i), drains[i..])
    decreases |drains| - i
  {
    if i < |drains| {
      PollsFollow(c, drains, i + 1);
      assert drains[i..][1..] == drains[i + 1..];
      FollowStep(Polls(c, drains), i, Sent(c, drains, i), drains[i], drains[i..]);
    }
  }

  lemma {:induction false} LiveReaches(truth: seq<int>, polls: seq<Poll>, i: nat, at: Option<int>,
                                       c: Count, drains: seq<TrueDrain>)
    requires LegalRun(truth, c, drains) && Follow(polls, i, c, drains) && Out(polls, i) == Emitted(c)
    requires Live(truth, polls) && Stood(truth, polls, i, at)
    ensures RunInReach(truth, at, c, drains)
    decreases |drains|
  {
    if drains != [] {
      LiveStep(truth, polls, i, at, c, drains);
      LiveReaches(truth, polls, i + 1, AnchorAfter(truth, at, c, drains[0]), drains[0].upTo, drains[1..]);
    }
  }

  /** From a reset, with `c` shipped before it, the output is the true timeline up to the
      last orderable edge. */
  ghost predicate ReadsTruth(truth: seq<int>, c: Count, drains: seq<TrueDrain>) {
    && LegalRun(truth, c, drains) && Emitted(c) <= Emitted(Last(c, drains)) <= |truth|
    && Run(RESET_ANCHOR, Shipped(truth, c, drains)).1 == TrueEdges(truth, Emitted(c), Emitted(Last(c, drains)))
  }

  lemma ReadExactly(truth: seq<int>, c: Count, drains: seq<TrueDrain>)
    requires Emitted(c) == 0 && LegalRun(truth, c, drains)
    ensures ReadsTruth(truth, c, drains) <==> RunInReach(truth, None, c, drains)
  {
    assert Tracks(RESET_ANCHOR, truth, None, c);
    TimelineRefined(truth, RESET_ANCHOR, None, c, drains);
  }

  lemma LiveInReach(truth: seq<int>, c: Count, drains: seq<TrueDrain>, polls: seq<Poll>)
    requires Emitted(c) == 0 && LegalRun(truth, c, drains) && polls == Polls(c, drains) && Live(truth, polls)
    ensures RunInReach(truth, None, c, drains)
  {
    PollsFollow(c, drains, 0);
    assert drains[0..] == drains;
    LiveReaches(truth, polls, 0, None, c, drains);
  }

  /** Polled live from a reset with nothing shipped, every edge is in reach and the host
      reads the true timeline. */
  lemma LivePollingReadsTruth(truth: seq<int>, c: Count, drains: seq<TrueDrain>)
    requires Emitted(c) == 0 && LegalRun(truth, c, drains) && Live(truth, Polls(c, drains))
    ensures RunInReach(truth, None, c, drains) && ReadsTruth(truth, c, drains)
  {
    LiveInReach(truth, c, drains, Polls(c, drains));
    ReadExactly(truth, c, drains);
  }

  /** The first fall missed an empty drain, then ships alone. */
  ghost predicate Missed(truth: seq<int>, c: Count, drains: seq<TrueDrain>) {
    && Emitted(c) == 0 && |truth| == 1 && |drains| == 2
    && drains[0].upTo == c && Emitted(drains[1].upTo) == 1 && LegalRun(truth, c, drains)
  }

  /** A last drain that ships one edge onto a floor. */
  lemma ShipsOnFloor(truth: seq<int>, floor: int, c: Count, drains: seq<TrueDrain>, k: nat)
    requires k < |truth| && k == Emitted(c) && |drains| == 1 && k + 1 == Emitted(drains[0].upTo)
    requires LegalRun(truth, c, drains) && -0x8000_0000 <= truth[k] - floor <= 0x8000_0000
    ensures RunInReach(truth, Some(floor), c, drains) <==> 0 <= truth[k] - floor < 0x1_0000
  {
    ReachStep(truth, Some(floor), c, drains);
    assert InReach(truth, Some(floor), drains[0].now, k, k + 1) <==> Reaches(Some(floor), drains[0].now, truth[k]);
    WordOfSmall(truth[k] - floor);
  }

  /** A first drain that brings nothing only sets the floor. */
  lemma EmptySetsFloor(truth: seq<int>, floor: Option<int>, c: Count, drains: seq<TrueDrain>)
    requires Emitted(c) == 0 && LegalRun(truth, c, drains) && drains != [] && drains[0].upTo == c
    requires floor == Some(drains[0].now - 4096)
    ensures LegalRun(truth, c, drains[1..])
    ensures RunInReach(truth, None, c, drains) <==> RunInReach(truth, floor, c, drains[1..])
  {
    ReachStep(truth, None, c, drains);
    assert AnchorAfter(truth, None, c, drains[0]) == floor;
  }

  /** The window is exact: such a fall is placed where it happened if and only if it is at
      most 4096 ticks older than the empty drain and less than a wrap newer than that. */
  lemma MissedEdgeExact(truth: seq<int>, c: Count, drains: seq<TrueDrain>)
    requires Missed(truth, c, drains) && -0x8000_0000 <= truth[0] - (drains[0].now - 4096) <= 0x8000_0000
    ensures ReadsTruth(truth, c, drains) <==> 0 <= truth[0] - (drains[0].now - 4096) < 0x1_0000
  {
    var floor := drains[0].now - 4096;
    EmptySetsFloor(truth, Some(floor), c, drains);
    ShipsOnFloor(truth, floor, c, drains[1..], 0);
    ReadExactly(truth, c, drains);
  }

  lemma MissedPolls(truth: seq<int>, c: Count, drains: seq<TrueDrain>)
    requires Missed(truth, c, drains)
    ensures Polls(c, drains) == [Poll(drains[0].now, 0, true), Poll(drains[1].now, 1, false)]
  {
    assert Polls(c, drains)[0] == PollOf(c, drains[0]);
    assert Polls(c, drains)[1] == PollOf(c, drains[1]);
  }

  /** Such a schedule is live when the fall is inside the window: a fall at 100000 that missed
      a drain latched at 100010 and ships at 101000 is one. */
  lemma MissedIsLive(truth: seq<int>, c: Count, drains: seq<TrueDrain>)
    requires Missed(truth, c, drains) && drains[0].now <= drains[1].now && truth[0] <= drains[1].now
    requires 0 <= truth[0] - (drains[0].now - 4096) < 0x1_0000
    ensures Live(truth, Polls(c, drains))
  {
    MissedPolls(truth, c, drains);
    TwoPollsLive(truth, Polls(c, drains));
  }

  lemma TwoPollsLive(truth: seq<int>, polls: seq<Poll>)
    requires |truth| == 1 && |polls| == 2 && polls[0].now <= polls[1].now && truth[0] <= polls[1].now
    requires polls[0].upTo == 0 && polls[0].quiet && polls[1].upTo == 1 && !polls[1].quiet
    requires 0 <= truth[0] - (polls[0].now - 4096) < 0x1_0000
    ensures Live(truth, polls)
  {
    assert AfterFloor(truth, polls, 0, 0);
  }
}
