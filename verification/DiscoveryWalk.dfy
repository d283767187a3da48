/** The ENUM discovery walk of client/src/mgmt.rs: a depth-first search of the UID
prefix tree, driven by probes that may lie.

The bus is a function of the probe count, the prefix length and the prefix, so it may
answer the same probe differently every time. */
module DiscoveryWalk {
  import opened Basics
  import opened UidPrefix
  import Bits

  datatype Found = Found(uid: Uid, id: nat)
  datatype Status = Status(ok: bool, id: nat, payload: seq<bv8>)
  datatype Reply = Reply(statuses: seq<Status>, garble: nat, trailing: bool)
  datatype Verdict = Candidate(node: Found) | Collision | Empty

  /** (probes so far, prefix) to the reply the engine collects. */
  type Bus = (nat, Prefix) -> Reply

  /** The verdict of one raw probe. */
  function Judge(reply: Reply, e: Prefix): Verdict {
    var clean := reply.garble == 0 && !reply.trailing;
    if reply.statuses == [] && clean then Empty
    else if |reply.statuses| == 1 && clean && reply.statuses[0].ok && |reply.statuses[0].payload| == UID_LEN then
      var s := reply.statuses[0];
      if MatchesPrefix(s.payload, e.bits, e.len) then Candidate(Found(s.payload, s.id)) else Collision
    else Collision
  }

  function Probe(bus: Bus, t: nat, e: Prefix): (v: Verdict)
    ensures v.Candidate? ==> Under(v.node.uid, e)
  {
    Judge(bus(t, e), e)
  }

  const EMPTY_RETRIES: nat := 2
  const FULL_DEPTH_RETRIES: nat := 3

  /** `probe_settled`: silence is believed only after `retries` more silences. */
  function Settle(bus: Bus, t: nat, e: Prefix, retries: nat): (r: (Verdict, nat))
    ensures r.0.Candidate? ==> Under(r.0.node.uid, e)
    ensures t < r.1 <= t + 1 + retries
    decreases retries
  {
    var v := Probe(bus, t, e);
    if v.Empty? && retries > 0 then Settle(bus, t + 1, e, retries - 1) else (v, t + 1)
  }

  function Settled(bus: Bus, t: nat, e: Prefix): (r: (Verdict, nat))
    ensures r.0.Candidate? ==> Under(r.0.node.uid, e)
  {
    Settle(bus, t, e, EMPTY_RETRIES)
  }

  /** The full-depth re-rolls after a collision verdict. */
  function Reroll(bus: Bus, t: nat, e: Prefix, tries: nat): (r: (Option<Found>, nat))
    ensures r.0.Some? ==> Under(r.0.value.uid, e)
    ensures r.0.Some? ==> r.1 > t && Probe(bus, r.1 - 1, e) == Candidate(r.0.value)
    decreases tries
  {
    if tries == 0 then (None, t)
    else
      var v := Probe(bus, t, e);
      if v.Candidate? then (Some(v.node), t + 1) else Reroll(bus, t + 1, e, tries - 1)
  }

  /** The walk's locals, with two counters: entries popped and settled probes made. */
  datatype Walk = Walk(stack: seq<Prefix>, found: seq<Found>, time: nat, pops: nat, probes: nat)

  function Start(t: nat): Walk {
    Walk([ROOT], [], t, 0, 0)
  }

  function Descend(rest: seq<Prefix>, e: Prefix): seq<Prefix>
    requires e.len < 128
  {
    rest + [Child(e, false), Child(e, true)]
  }

  /** One iteration of the walk's loop. */
  function Step(bus: Bus, w: Walk): Walk
    requires w.stack != []
  {
    var e := w.stack[|w.stack| - 1];
    var rest := w.stack[..|w.stack| - 1];
    var (v, t) := Settled(bus, w.time, e);
    var w1 := w.(stack := rest, time := t, pops := w.pops + 1, probes := w.probes + 1);
    match v
    case Empty => w1
    case Candidate(node) =>
      if e.len == FULL then w1.(found := w.found + [node])
      else
        var b := Bit(node.uid, e.len);
        var (own, t2) := Settled(bus, t, Child(e, b));
        var (sib, t3) := Settled(bus, t2, Child(e, !b));
        var w2 := w1.(time := t3, probes := w1.probes + 2);
        if own.Candidate? && sib.Empty? && own.node.uid == node.uid then w2.(found := w.found + [own.node])
        else w2.(stack := Descend(rest, e))
    case Collision =>
      if e.len == FULL then
        var (r, t2) := Reroll(bus, t, e, FULL_DEPTH_RETRIES);
        w1.(time := t2, found := if r.Some? then w.found + [r.value] else w.found)
      else w1.(stack := Descend(rest, e))
  }

  // ---------------------------------------------------------------------
  // Termination
  // ---------------------------------------------------------------------

  /** Nodes of the prefix tree still below the stack. */
  function Remaining(stack: seq<Prefix>): nat {
    if stack == [] then 0
    else Remaining(stack[..|stack| - 1]) + (Subtree(stack[|stack| - 1].len))
  }

  function Subtree(len: Len): nat {
    Bits.Pow2(129 - len) - 1
  }

  lemma SubtreeSplits(len: Len)
    ensures Subtree(len) > 0
    ensures len < 128 ==> Subtree(len) == 2 * Subtree(len + 1) + 1
  {
    assert Bits.Pow2(129 - len) == 2 * Bits.Pow2(128 - len);
  }

  lemma DescendRemains(rest: seq<Prefix>, e: Prefix)
    requires e.len < 128
    ensures Remaining(Descend(rest, e)) == Remaining(rest) + Subtree(e.len) - 1
  {
    SubtreeSplits(e.len);
    var a, b := Child(e, false), Child(e, true);
    var d := rest + [a, b];
    assert d[..|d| - 1] == rest + [a] && (rest + [a])[..|rest|] == rest;
  }

  lemma StepShrinks(bus: Bus, w: Walk)
    requires w.stack != []
    ensures Remaining(Step(bus, w).stack) < Remaining(w.stack)
    ensures Step(bus, w).pops == w.pops + 1
  {
    var e := w.stack[|w.stack| - 1];
    var rest := w.stack[..|w.stack| - 1];
    SubtreeSplits(e.len);
    if e.len < 128 { DescendRemains(rest, e); }
  }

  /** The whole loop.  It terminates whatever the bus answers. */
  function Finish(bus: Bus, w: Walk): (end: Walk)
    ensures end.stack == []
    decreases Remaining(w.stack)
  {
    if w.stack == [] then w
    else
      StepShrinks(bus, w);
      Finish(bus, Step(bus, w))
  }

  lemma FinishStep(bus: Bus, w: Walk, goal: Walk)
    requires w.stack != [] && goal == Finish(bus, w)
    ensures goal == Finish(bus, Step(bus, w))
  {
  }

  // ---------------------------------------------------------------------
  // Whatever the bus answers: entries stay apart, no UID is found twice
  // ---------------------------------------------------------------------

  ghost predicate Apart(w: Walk) {
    StackApart(w.stack) && FoundApart(w.found, w.stack) && UidsDistinct(w.found)
  }

  /** Entries are clean and no UID is under two of them. */
  ghost predicate StackApart(stack: seq<Prefix>) {
    && (forall i :: 0 <= i < |stack| ==> Clean(stack[i]))
    && (forall i, j, u: Uid :: 0 <= i < j < |stack| ==> !(Under(u, stack[i]) && Under(u, stack[j])))
  }

  ghost predicate FoundApart(found: seq<Found>, stack: seq<Prefix>) {
    forall i, f :: 0 <= i < |stack| && 0 <= f < |found| ==> !Under(found[f].uid, stack[i])
  }

  ghost predicate UidsDistinct(found: seq<Found>) {
    forall f, g :: 0 <= f < g < |found| ==> found[f].uid != found[g].uid
  }

  ghost function Top(w: Walk): Prefix
    requires w.stack != []
  {
    w.stack[|w.stack| - 1]
  }

  ghost function Rest(w: Walk): seq<Prefix>
    requires w.stack != []
  {
    w.stack[..|w.stack| - 1]
  }

  /** An iteration prunes its entry, finds a node under it, or descends. */
  lemma StepShape(bus: Bus, w: Walk)
    requires w.stack != []
    ensures var n := Step(bus, w);
      || (n.stack == Rest(w) && n.found == w.found)
      || (n.stack == Rest(w) && |n.found| == |w.found| + 1 && n.found[..|w.found|] == w.found
          && Under(n.found[|w.found|].uid, Top(w)))
      || (Top(w).len < 128 && n.stack == Descend(Rest(w), Top(w)) && n.found == w.found)
  {
    var e := Top(w);
    var (v, t) := Settled(bus, w.time, e);
  }

  lemma DescendApart(w: Walk, n: Walk)
    requires w.stack != [] && Apart(w) && Top(w).len < 128
    requires n.stack == Descend(Rest(w), Top(w)) && n.found == w.found
    ensures Apart(n)
  {
    var e := Top(w);
    ChildSplits(e, false);
    ChildSplits(e, true);
  }

  lemma FoundOneApart(found: seq<Found>, stack: seq<Prefix>, n: Found)
    requires stack != [] && StackApart(stack) && FoundApart(found, stack) && UidsDistinct(found)
    requires Under(n.uid, stack[|stack| - 1])
    ensures FoundApart(found + [n], stack[..|stack| - 1]) && UidsDistinct(found + [n])
  {
    var top := |stack| - 1;
    forall f | 0 <= f < |found| ensures found[f].uid != n.uid {
      assert !Under(found[f].uid, stack[top]);
    }
    forall i | 0 <= i < top ensures !Under(n.uid, stack[i]) {
      assert Under(n.uid, stack[top]);
    }
  }

  /** Popping an entry, whether or not a UID under it is found. */
  lemma PopApart(w: Walk, n: Walk)
    requires w.stack != [] && Apart(w) && n.stack == Rest(w)
    requires n.found == w.found || (|n.found| == |w.found| + 1 && n.found[..|w.found|] == w.found
                                    && Under(n.found[|w.found|].uid, Top(w)))
    ensures Apart(n)
  {
    if n.found != w.found {
      var last := n.found[|w.found|];
      assert n.found == w.found + [last];
      FoundOneApart(w.found, w.stack, last);
    }
  }

  lemma StepApart(bus: Bus, w: Walk)
    requires w.stack != [] && Apart(w)
    ensures Apart(Step(bus, w))
  {
    StepShape(bus, w);
    var n := Step(bus, w);
    if n.stack == Rest(w) {
      PopApart(w, n);
    } else {
      DescendApart(w, n);
    }
  }

  lemma {:induction false} FinishApart(bus: Bus, w: Walk)
    requires Apart(w)
    ensures Apart(Finish(bus, w))
    decreases Remaining(w.stack)
  {
    if w.stack != [] {
      StepShrinks(bus, w);
      StepApart(bus, w);
      FinishApart(bus, Step(bus, w));
    }
  }

  // ---------------------------------------------------------------------
  // The roster against the bus
  // ---------------------------------------------------------------------

  /** The servos on the bus: UID to bus id. */
  type Roster = map<Uid, nat>

  ghost predicate IsNode(roster: Roster, n: Found) {
    n.uid in roster && roster[n.uid] == n.id
  }

  ghost function Matchers(roster: Roster, e: Prefix): set<Uid> {
    set u | u in roster && Under(u, e)
  }

  /** A prefix with two or more matchers never reads back one UID both there and
      at a child: the superimposed twins that fool a probe do not fool its confirm. */
  ghost predicate NoEcho(bus: Bus, roster: Roster) {
    forall t: nat, t': nat, e, b ::
      Clean(e) && e.len < 128 && |Matchers(roster, Child(e, b))| >= 2 ==>
        var v, v' := Settled(bus, t, e).0, Settled(bus, t', Child(e, b)).0;
        v.Candidate? && v'.Candidate? ==> v.node.uid != v'.node.uid
  }

  /** A clean reply is never invented: with at most one matcher it is that matcher.
      Silence and garble are allowed anywhere. */
  ghost predicate Sound(bus: Bus, roster: Roster) {
    && (forall t: nat, e ::
          var v := Settled(bus, t, e).0;
          Clean(e) && |Matchers(roster, e)| <= 1 && v.Candidate? ==> IsNode(roster, v.node))
    && (forall t: nat, t': nat, e ::
          var v := Probe(bus, t', e);
          Clean(e) && e.len == 128 && Settled(bus, t, e).0.Collision? && v.Candidate? ==> IsNode(roster, v.node))
  }

  ghost predicate Phantomless(bus: Bus, roster: Roster) {
    NoEcho(bus, roster) && Sound(bus, roster)
  }

  /** The guard of the failing branch: twins superimposed at the popped entry read as a
      UID that is not on the bus, its own child, which holds two matchers or more,
      re-elects it, and the sibling is silent. */
  ghost predicate Fooled(bus: Bus, w: Walk, roster: Roster)
    requires w.stack != []
  {
    var e := Top(w);
    var (v, t) := Settled(bus, w.time, e);
    e.len < 128 && v.Candidate? &&
    var b := Bit(v.node.uid, e.len);
    var (own, t2) := Settled(bus, t, Child(e, b));
    && own.Candidate? && own.node.uid == v.node.uid && Settled(bus, t2, Child(e, !b)).0.Empty?
    && |Matchers(roster, Child(e, b))| >= 2 && !IsNode(roster, own.node)
  }

  /** Silence means nobody, one matcher reads clean, and several read as anything
      but silence: a collision, or a lie that its confirm probes do not echo. */
  ghost predicate Truthful(bus: Bus, roster: Roster) {
    && NoEcho(bus, roster)
    && forall t: nat, e ::
         var v := Settled(bus, t, e).0;
         Clean(e) ==>
           && (v.Empty? <==> Matchers(roster, e) == {})
           && (|Matchers(roster, e)| == 1 ==> v.Candidate? && IsNode(roster, v.node))
  }

  ghost predicate Real(w: Walk, roster: Roster) {
    forall f :: 0 <= f < |w.found| ==> IsNode(roster, w.found[f])
  }

  ghost predicate OnStack(w: Walk, u: Uid) {
    exists i :: 0 <= i < |w.stack| && Under(u, w.stack[i])
  }

  ghost predicate Covered(w: Walk, roster: Roster) {
    forall u :: u in roster ==> Found(u, roster[u]) in w.found || OnStack(w, u)
  }

  lemma AtMostOneIs(s: set<Uid>, u: Uid)
    requires u in s && |s| <= 1
    ensures s == {u}
  {
    assert |s - {u}| == |s| - 1;
  }

  lemma FullHasOne(roster: Roster, e: Prefix)
    requires e.len == 128
    ensures |Matchers(roster, e)| <= 1
  {
    forall u: Uid ensures Under(u, e) <==> u == e.bits { FullIsUnique(u, e.bits); }
    assert Matchers(roster, e) <= {e.bits};
    if e.bits in roster { assert Matchers(roster, e) == {e.bits}; } else { assert Matchers(roster, e) == {}; }
  }

  lemma TruthfulIsPhantomless(bus: Bus, roster: Roster)
    requires Truthful(bus, roster)
    ensures Phantomless(bus, roster)
  {
    forall t: nat, e | Clean(e) && |Matchers(roster, e)| <= 1 && Settled(bus, t, e).0.Candidate?
      ensures IsNode(roster, Settled(bus, t, e).0.node)
    {
      assert Matchers(roster, e) != {};
      assert |Matchers(roster, e)| == 1;
    }
    forall t: nat, e | Clean(e) && e.len == 128
      ensures !Settled(bus, t, e).0.Collision?
    {
      FullHasOne(roster, e);
      assert |Matchers(roster, e)| == 1 || Matchers(roster, e) == {};
    }
  }

  /** What an iteration adds to the roster. */
  ghost predicate AddsReal(bus: Bus, w: Walk, roster: Roster)
    requires w.stack != []
  {
    |Step(bus, w).found| > |w.found| ==> IsNode(roster, Step(bus, w).found[|w.found|])
  }

  lemma AddedIsReal(bus: Bus, w: Walk, roster: Roster)
    requires w.stack != [] && Real(w, roster)
    ensures Real(Step(bus, w), roster) <==> AddsReal(bus, w, roster)
  {
    StepShape(bus, w);
    var n := Step(bus, w);
    if AddsReal(bus, w, roster) {
      forall f | 0 <= f < |n.found| ensures IsNode(roster, n.found[f]) {
        assert f < |w.found| ==> n.found[f] == w.found[f];
      }
    }
  }

  lemma LeafIsReal(bus: Bus, w: Walk, roster: Roster)
    requires w.stack != [] && Clean(Top(w)) && Sound(bus, roster) && Top(w).len == 128
    ensures AddsReal(bus, w, roster)
  {
    var e := Top(w);
    var (v, t) := Settled(bus, w.time, e);
    FullHasOne(roster, e);
    if v.Collision? {
      var (r, t2) := Reroll(bus, t, e, FULL_DEPTH_RETRIES);
      if r.Some? { assert Probe(bus, t2 - 1, e) == Candidate(r.value); }
    }
  }

  /** An iteration records a phantom if and only if it is fooled, whatever is silenced
      or garbled. */
  lemma StepRealExact(bus: Bus, w: Walk, roster: Roster)
    requires w.stack != [] && Clean(Top(w)) && Sound(bus, roster) && Real(w, roster)
    ensures Real(Step(bus, w), roster) <==> !Fooled(bus, w, roster)
  {
    AddedIsReal(bus, w, roster);
    var e := Top(w);
    var (v, t) := Settled(bus, w.time, e);
    if e.len == 128 {
      LeafIsReal(bus, w, roster);
    } else if v.Candidate? {
      var b := Bit(v.node.uid, e.len);
      ChildSplits(e, b);
      var own := Settled(bus, t, Child(e, b)).0;
      assert own.Candidate? && |Matchers(roster, Child(e, b))| <= 1 ==> IsNode(roster, own.node);
    }
  }

  lemma NoEchoNotFooled(bus: Bus, w: Walk, roster: Roster)
    requires w.stack != [] && Clean(Top(w)) && NoEcho(bus, roster)
    ensures !Fooled(bus, w, roster)
  {
  }

  /** No servo is lost: each is found or still under an entry. */
  lemma StepCovers(bus: Bus, w: Walk, roster: Roster)
    requires w.stack != [] && Clean(Top(w)) && Truthful(bus, roster) && Covered(w, roster)
    ensures Covered(Step(bus, w), roster)
  {
    forall u | u in roster
      ensures Found(u, roster[u]) in Step(bus, w).found || OnStack(Step(bus, w), u)
    {
      StepCoversOne(bus, w, roster, u);
    }
  }

  lemma StepCoversOne(bus: Bus, w: Walk, roster: Roster, u: Uid)
    requires w.stack != [] && Clean(Top(w)) && Truthful(bus, roster) && u in roster
    requires Found(u, roster[u]) in w.found || OnStack(w, u)
    ensures Found(u, roster[u]) in Step(bus, w).found || OnStack(Step(bus, w), u)
  {
    if Found(u, roster[u]) in w.found {
      FoundStays(bus, w, Found(u, roster[u]));
    } else {
      var i :| 0 <= i < |w.stack| && Under(u, w.stack[i]);
      if i < |w.stack| - 1 {
        StackStays(bus, w, u, i);
      } else {
        TopCovers(bus, w, roster, u);
      }
    }
  }

  lemma FoundStays(bus: Bus, w: Walk, n: Found)
    requires w.stack != [] && n in w.found
    ensures n in Step(bus, w).found
  {
    StepShape(bus, w);
    var f :| 0 <= f < |w.found| && w.found[f] == n;
    assert Step(bus, w).found[f] == w.found[f];
  }

  lemma StackStays(bus: Bus, w: Walk, u: Uid, i: nat)
    requires i < |w.stack| - 1 && Under(u, w.stack[i])
    ensures OnStack(Step(bus, w), u)
  {
    StepShape(bus, w);
    assert Step(bus, w).stack[i] == w.stack[i];
  }

  /** A servo under the popped entry ends up found or under one of its children. */
  lemma TopCovers(bus: Bus, w: Walk, roster: Roster, u: Uid)
    requires w.stack != [] && Clean(Top(w)) && Truthful(bus, roster)
    requires u in roster && Under(u, Top(w))
    ensures Found(u, roster[u]) in Step(bus, w).found || OnStack(Step(bus, w), u)
  {
    var e := Top(w);
    var n := Step(bus, w);
    var (v, t) := Settled(bus, w.time, e);
    assert u in Matchers(roster, e);
    if e.len == 128 {
      FullHasOne(roster, e);
      OneMatcherFound(roster, e, u, v);
      assert n.found[|w.found|] == v.node;
    } else {
      var own' := Bit(u, e.len);
      ChildSplits(e, own');
      if n.stack == Descend(Rest(w), e) {
        assert n.stack[|Rest(w)| + (if own' then 1 else 0)] == Child(e, own');
      } else {
        assert v.Candidate?;
        var b := Bit(v.node.uid, e.len);
        var (own, t2) := Settled(bus, t, Child(e, b));
        var sib := Settled(bus, t2, Child(e, !b)).0;
        ChildSplits(e, !b);
        ChildSplits(e, b);
        assert Matchers(roster, Child(e, !b)) == {};
        assert u !in Matchers(roster, Child(e, !b));
        assert u in Matchers(roster, Child(e, b));
        assert |Matchers(roster, Child(e, b))| <= 1;
        OneMatcherFound(roster, Child(e, b), u, own);
        assert n.found[|w.found|] == own.node;
      }
    }
  }

  lemma OneMatcherFound(roster: Roster, e: Prefix, u: Uid, v: Verdict)
    requires u in Matchers(roster, e) && |Matchers(roster, e)| <= 1
    requires |Matchers(roster, e)| == 1 ==> v.Candidate? && IsNode(roster, v.node)
    requires v.Candidate? ==> Under(v.node.uid, e)
    ensures v == Candidate(Found(u, roster[u]))
  {
    AtMostOneIs(Matchers(roster, e), u);
    assert v.node.uid in Matchers(roster, e);
  }

  /** Some iteration of the walk is fooled. */
  ghost predicate EverFooled(bus: Bus, w: Walk, roster: Roster)
    decreases Remaining(w.stack)
  {
    w.stack != [] &&
    (StepShrinks(bus, w); Fooled(bus, w, roster) || EverFooled(bus, Step(bus, w), roster))
  }

  /** A phantom once recorded stays. */
  lemma {:induction false} PhantomStays(bus: Bus, w: Walk, roster: Roster)
    requires !Real(w, roster)
    ensures !Real(Finish(bus, w), roster)
    decreases Remaining(w.stack)
  {
    if w.stack != [] {
      var f :| 0 <= f < |w.found| && !IsNode(roster, w.found[f]);
      StepShrinks(bus, w);
      StepShape(bus, w);
      assert Step(bus, w).found[f] == w.found[f];
      PhantomStays(bus, Step(bus, w), roster);
    }
  }

  lemma {:induction false} FinishRealExact(bus: Bus, w: Walk, roster: Roster)
    requires Apart(w) && Sound(bus, roster) && Real(w, roster)
    ensures Real(Finish(bus, w), roster) <==> !EverFooled(bus, w, roster)
    decreases Remaining(w.stack)
  {
    if w.stack != [] {
      StepShrinks(bus, w);
      StepApart(bus, w);
      StepRealExact(bus, w, roster);
      if Fooled(bus, w, roster) {
        PhantomStays(bus, Step(bus, w), roster);
      } else {
        FinishRealExact(bus, Step(bus, w), roster);
      }
    }
  }

  lemma {:induction false} NeverFooled(bus: Bus, w: Walk, roster: Roster)
    requires Apart(w) && NoEcho(bus, roster)
    ensures !EverFooled(bus, w, roster)
    decreases Remaining(w.stack)
  {
    if w.stack != [] {
      StepShrinks(bus, w);
      StepApart(bus, w);
      NoEchoNotFooled(bus, w, roster);
      NeverFooled(bus, Step(bus, w), roster);
    }
  }

  lemma FinishReal(bus: Bus, w: Walk, roster: Roster)
    requires Apart(w) && Phantomless(bus, roster) && Real(w, roster)
    ensures Real(Finish(bus, w), roster)
  {
    FinishRealExact(bus, w, roster);
    NeverFooled(bus, w, roster);
  }

  // ---------------------------------------------------------------------
  // What a walk misses
  // ---------------------------------------------------------------------

  /** The popped entry is accepted as the servo its own child re-elects. */
  ghost predicate Accepts(bus: Bus, w: Walk)
    requires w.stack != []
  {
    var e := Top(w);
    var (v, t) := Settled(bus, w.time, e);
    e.len < 128 && v.Candidate? &&
    var b := Bit(v.node.uid, e.len);
    var (own, t2) := Settled(bus, t, Child(e, b));
    own.Candidate? && own.node.uid == v.node.uid && Settled(bus, t2, Child(e, !b)).0.Empty?
  }

  ghost function Accepted(bus: Bus, w: Walk): Found
    requires w.stack != [] && Accepts(bus, w)
  {
    var (v, t) := Settled(bus, w.time, Top(w));
    Settled(bus, t, Child(Top(w), Bit(v.node.uid, Top(w).len))).0.node
  }

  ghost predicate Unresolved(bus: Bus, w: Walk)
    requires w.stack != []
  {
    var (v, t) := Settled(bus, w.time, Top(w));
    Top(w).len == 128 && v.Collision? && Reroll(bus, t, Top(w), FULL_DEPTH_RETRIES).0.None?
  }

  /** The guards of the dropping branches: the entry above u is pruned as silent, taken
      for another servo, or skipped as a leaf that never resolves. */
  ghost predicate Drops(bus: Bus, w: Walk, roster: Roster, u: Uid)
    requires w.stack != [] && u in roster
  {
    && Under(u, Top(w))
    && (|| Settled(bus, w.time, Top(w)).0.Empty?
        || (Accepts(bus, w) && Accepted(bus, w) != Found(u, roster[u]))
        || Unresolved(bus, w))
  }

  /** u is found or still to come. */
  ghost predicate Kept(w: Walk, roster: Roster, u: Uid)
    requires u in roster
  {
    Found(u, roster[u]) in w.found || OnStack(w, u)
  }

  /** What an iteration leaves of its entry: the three dropping branches pop it. */
  lemma PoppedBy(bus: Bus, w: Walk)
    requires w.stack != []
    ensures var n := Step(bus, w);
      && (Settled(bus, w.time, Top(w)).0.Empty? ==> n.stack == Rest(w) && n.found == w.found)
      && (Unresolved(bus, w) ==> n.stack == Rest(w) && n.found == w.found)
      && (Accepts(bus, w) ==> n.stack == Rest(w) && n.found == w.found + [Accepted(bus, w)])
  {
  }

  /** The other branches descend, or find a full-length UID. */
  lemma KeptBy(bus: Bus, w: Walk)
    requires w.stack != [] && !Settled(bus, w.time, Top(w)).0.Empty? && !Unresolved(bus, w) && !Accepts(bus, w)
    ensures var n := Step(bus, w);
      if Top(w).len < 128 then n.stack == Descend(Rest(w), Top(w)) && n.found == w.found
      else |n.found| == |w.found| + 1 && n.found[..|w.found|] == w.found
  {
  }

  lemma LeafFinds(bus: Bus, w: Walk, roster: Roster, u: Uid)
    requires w.stack != [] && Clean(Top(w)) && Sound(bus, roster) && u in roster && Under(u, Top(w))
    requires Top(w).len == 128 && |Step(bus, w).found| == |w.found| + 1
    ensures Step(bus, w).found[|w.found|] == Found(u, roster[u])
  {
    LeafIsReal(bus, w, roster);
    StepShape(bus, w);
    var n := Step(bus, w).found[|w.found|];
    FullIsUnique(n.uid, Top(w).bits);
    FullIsUnique(u, Top(w).bits);
  }

  /** A servo that is neither found nor under an entry never will be. */
  lemma GoneStaysGone(bus: Bus, w: Walk, roster: Roster, u: Uid)
    requires w.stack != [] && StackApart(w.stack) && u in roster && !Kept(w, roster, u)
    ensures !Kept(Step(bus, w), roster, u)
  {
    StepShape(bus, w);
    var n, me := Step(bus, w), Found(u, roster[u]);
    assert !Under(u, Top(w));
    if n.stack != Rest(w) {
      ChildSplits(Top(w), false);
      ChildSplits(Top(w), true);
    }
    forall i | 0 <= i < |n.stack| ensures !Under(u, n.stack[i]) {
      if i < |Rest(w)| {
        assert n.stack[i] == w.stack[i];
      }
    }
    forall i | 0 <= i < |n.found| ensures n.found[i] != me {
      if i < |w.found| {
        assert n.found[i] == w.found[i] && w.found[i] in w.found;
      }
    }
  }

  /** Popping the entry above u takes it off the stack: no other entry is above it. */
  lemma PopForgets(w: Walk, n: Walk, u: Uid)
    requires w.stack != [] && StackApart(w.stack) && Under(u, Top(w)) && n.stack == Rest(w)
    ensures !OnStack(n, u)
  {
    var top := |w.stack| - 1;
    assert Under(u, w.stack[top]);
    forall i | 0 <= i < |n.stack| ensures !Under(u, n.stack[i]) {
      assert n.stack[i] == w.stack[i];
    }
  }

  /** An iteration keeps a servo on the way to the roster if and only if it does not drop
      the entry above it. */
  lemma StepKeepsExact(bus: Bus, w: Walk, roster: Roster, u: Uid)
    requires w.stack != [] && Apart(w) && Sound(bus, roster) && u in roster && Kept(w, roster, u)
    ensures Kept(Step(bus, w), roster, u) <==> !Drops(bus, w, roster, u)
  {
    var me := Found(u, roster[u]);
    if me in w.found {
      FoundStays(bus, w, me);
      FoundIsNotUnder(w, me);
    } else if !Under(u, Top(w)) {
      var i :| 0 <= i < |w.stack| && Under(u, w.stack[i]);
      StackStays(bus, w, u, i);
    } else if Drops(bus, w, roster, u) {
      PoppedBy(bus, w);
      PopForgets(w, Step(bus, w), u);
      assert me !in Step(bus, w).found;
    } else {
      NotDropped(bus, w, roster, u);
    }
  }

  lemma FoundIsNotUnder(w: Walk, n: Found)
    requires w.stack != [] && FoundApart(w.found, w.stack) && n in w.found
    ensures !Under(n.uid, Top(w))
  {
    var f :| 0 <= f < |w.found| && w.found[f] == n;
    assert !Under(w.found[f].uid, w.stack[|w.stack| - 1]);
  }

  lemma NotDropped(bus: Bus, w: Walk, roster: Roster, u: Uid)
    requires w.stack != [] && Apart(w) && Sound(bus, roster) && u in roster
    requires Under(u, Top(w)) && !Drops(bus, w, roster, u)
    ensures Kept(Step(bus, w), roster, u)
  {
    var n := Step(bus, w);
    if Accepts(bus, w) {
      PoppedBy(bus, w);
      assert n.found[|w.found|] == Found(u, roster[u]);
    } else {
      KeptBy(bus, w);
      if Top(w).len == 128 {
        LeafFinds(bus, w, roster, u);
      } else {
        var b := Bit(u, Top(w).len);
        ChildSplits(Top(w), b);
        assert n.stack[|Rest(w)| + (if b then 1 else 0)] == Child(Top(w), b);
      }
    }
  }

  /** Some iteration of the walk drops the entry above u. */
  ghost predicate EverDropped(bus: Bus, w: Walk, roster: Roster, u: Uid)
    requires u in roster
    decreases Remaining(w.stack)
  {
    w.stack != [] &&
    (StepShrinks(bus, w); Drops(bus, w, roster, u) || EverDropped(bus, Step(bus, w), roster, u))
  }

  lemma {:induction false} GoneIsMissing(bus: Bus, w: Walk, roster: Roster, u: Uid)
    requires Apart(w) && u in roster && !Kept(w, roster, u)
    ensures Found(u, roster[u]) !in Finish(bus, w).found
    decreases Remaining(w.stack)
  {
    if w.stack != [] {
      StepShrinks(bus, w);
      StepApart(bus, w);
      GoneStaysGone(bus, w, roster, u);
      GoneIsMissing(bus, Step(bus, w), roster, u);
    }
  }

  lemma {:induction false} FinishMissesExact(bus: Bus, w: Walk, roster: Roster, u: Uid)
    requires Apart(w) && Sound(bus, roster) && u in roster && Kept(w, roster, u)
    ensures Found(u, roster[u]) in Finish(bus, w).found <==> !EverDropped(bus, w, roster, u)
    decreases Remaining(w.stack)
  {
    if w.stack != [] {
      StepShrinks(bus, w);
      StepApart(bus, w);
      StepKeepsExact(bus, w, roster, u);
      if Drops(bus, w, roster, u) {
        GoneIsMissing(bus, Step(bus, w), roster, u);
      } else {
        FinishMissesExact(bus, Step(bus, w), roster, u);
      }
    }
  }

  lemma {:induction false} FinishCovers(bus: Bus, w: Walk, roster: Roster)
    requires Apart(w) && Truthful(bus, roster) && Covered(w, roster)
    ensures Covered(Finish(bus, w), roster)
    decreases Remaining(w.stack)
  {
    if w.stack != [] {
      StepShrinks(bus, w);
      StepApart(bus, w);
      StepCovers(bus, w, roster);
      FinishCovers(bus, Step(bus, w), roster);
    }
  }

  // ---------------------------------------------------------------------
  // Cost
  // ---------------------------------------------------------------------

  /** A truthful bus on which several matchers always collide. */
  ghost predicate Honest(bus: Bus, roster: Roster) {
    && Truthful(bus, roster)
    && forall t: nat, e :: Clean(e) && |Matchers(roster, e)| >= 2 ==> Settled(bus, t, e).0.Collision?
  }

  /** The reply of a bus without interference: silence, the one matcher, or garble. */
  ghost function TrueReply(roster: Roster, e: Prefix): Reply {
    var m := Matchers(roster, e);
    if m == {} then Reply([], 0, false)
    else if |m| == 1 then var u :| u in m; Reply([Status(true, roster[u], u)], 0, false)
    else Reply([], 1, false)
  }

  /** Every roster has an honest bus. */
  lemma HonestBusExists(roster: Roster, bus: Bus)
    requires forall t, e :: bus(t, e) == TrueReply(roster, e)
    ensures Honest(bus, roster)
  {
    forall t: nat, e: Prefix
      ensures var v, m := Settled(bus, t, e).0, Matchers(roster, e);
        && (v.Empty? <==> m == {}) && (|m| == 1 ==> v.Candidate? && IsNode(roster, v.node))
        && (|m| >= 2 ==> v.Collision?)
    {
      assert bus(t, e) == bus(t + 1, e) == bus(t + 2, e) == TrueReply(roster, e);
    }
  }

  ghost function Debt(roster: Roster, stack: seq<Prefix>): nat {
    if stack == [] then 0
    else
      var e := stack[|stack| - 1];
      Debt(roster, stack[..|stack| - 1]) + Cost(e.len, |Matchers(roster, e)|)
  }

  /** Pops an entry with m matchers can cost. */
  ghost function Cost(len: Len, m: nat): nat {
    1 + (128 - len) * m
  }

  lemma CostSplits(len: Len, m: nat, n: nat)
    requires len < 128 && m + n >= 2
    ensures Cost(len + 1, m) + Cost(len + 1, n) + 1 <= Cost(len, m + n)
  {
    var h := 127 - len;
    assert (h + 1) * (m + n) == h * m + h * n + m + n;
  }

  lemma MatchersSplit(roster: Roster, e: Prefix)
    requires Clean(e) && e.len < 128
    ensures |Matchers(roster, e)| == |Matchers(roster, Child(e, false))| + |Matchers(roster, Child(e, true))|
  {
    ChildSplits(e, false);
    ChildSplits(e, true);
    var a, b := Matchers(roster, Child(e, false)), Matchers(roster, Child(e, true));
    assert Matchers(roster, e) == a + b && a !! b;
  }

  lemma DebtOfDescend(roster: Roster, rest: seq<Prefix>, e: Prefix)
    requires Clean(e) && e.len < 128 && |Matchers(roster, e)| >= 2
    ensures Debt(roster, Descend(rest, e)) + 1 <= Debt(roster, rest) + Cost(e.len, |Matchers(roster, e)|)
  {
    MatchersSplit(roster, e);
    var f, t := Child(e, false), Child(e, true);
    var d := rest + [f, t];
    assert d[..|d| - 1] == rest + [f] && (rest + [f])[..|rest|] == rest;
    CostSplits(e.len, |Matchers(roster, f)|, |Matchers(roster, t)|);
  }

  /** A lone matcher's candidacy is confirmed by its own child and its sibling. */
  lemma LoneMatcherConfirms(bus: Bus, roster: Roster, e: Prefix, u: Uid, t: nat, t2: nat)
    requires Truthful(bus, roster) && Clean(e) && e.len < 128 && Matchers(roster, e) == {u}
    ensures var b := Bit(u, e.len);
      Settled(bus, t, Child(e, b)).0 == Candidate(Found(u, roster[u])) && Settled(bus, t2, Child(e, !b)).0.Empty?
  {
    assert u in Matchers(roster, e);
    var b := Bit(u, e.len);
    ChildSplits(e, b);
    ChildSplits(e, !b);
    forall x | x in roster ensures (Under(x, Child(e, b)) <==> x == u) && !Under(x, Child(e, !b)) {
      assert Under(x, e) <==> x in Matchers(roster, e);
    }
    assert Matchers(roster, Child(e, b)) == {u} && Matchers(roster, Child(e, !b)) == {};
    OneMatcherFound(roster, Child(e, b), u, Settled(bus, t, Child(e, b)).0);
  }

  /** An accepted candidate costs two confirm probes and is found. */
  lemma AcceptStep(bus: Bus, w: Walk)
    requires w.stack != [] && Top(w).len < 128
    requires var (v, t) := Settled(bus, w.time, Top(w));
      v.Candidate? &&
      var b := Bit(v.node.uid, Top(w).len);
      var (own, t2) := Settled(bus, t, Child(Top(w), b));
      own.Candidate? && own.node.uid == v.node.uid && Settled(bus, t2, Child(Top(w), !b)).0.Empty?
    ensures var n := Step(bus, w);
      n.stack == Rest(w) && |n.found| == |w.found| + 1 && n.probes == w.probes + 3
  {
  }

  /** Any other verdict costs nothing more, and only a collision descends. */
  lemma PlainStep(bus: Bus, w: Walk)
    requires w.stack != [] && (Top(w).len == 128 || !Settled(bus, w.time, Top(w)).0.Candidate?)
    ensures var n := Step(bus, w);
      && n.probes == w.probes + 1 && |n.found| >= |w.found|
      && (n.stack == Rest(w)
          || (Top(w).len < 128 && n.stack == Descend(Rest(w), Top(w)) && Settled(bus, w.time, Top(w)).0.Collision?))
  {
  }

  /** On an honest bus the verdict tells how many match. */
  lemma HonestVerdict(bus: Bus, roster: Roster, t: nat, e: Prefix)
    requires Honest(bus, roster) && Clean(e)
    ensures var v, m := Settled(bus, t, e).0, Matchers(roster, e);
      && (v.Collision? ==> |m| >= 2)
      && (v.Candidate? ==> m == {v.node.uid})
  {
    var v, m := Settled(bus, t, e).0, Matchers(roster, e);
    assert m == {} || |m| == 1 || |m| >= 2;
    if v.Candidate? {
      assert v.node.uid in m;
      AtMostOneIs(m, v.node.uid);
    }
  }

  /** On an honest bus an entry descends only over several matchers, and only a
      found servo costs confirm probes. */
  lemma HonestStep(bus: Bus, w: Walk, roster: Roster)
    requires w.stack != [] && Clean(Top(w)) && Honest(bus, roster)
    ensures var n := Step(bus, w);
      && (n.stack == Rest(w)
          || (Top(w).len < 128 && n.stack == Descend(Rest(w), Top(w)) && |Matchers(roster, Top(w))| >= 2))
      && n.probes + 2 * |w.found| <= w.probes + 1 + 2 * |n.found|
  {
    var e := Top(w);
    var (v, t) := Settled(bus, w.time, e);
    HonestVerdict(bus, roster, w.time, e);
    if e.len < 128 && v.Candidate? {
      var b := Bit(v.node.uid, e.len);
      LoneMatcherConfirms(bus, roster, e, v.node.uid, t, Settled(bus, t, Child(e, b)).1);
      AcceptStep(bus, w);
    } else {
      PlainStep(bus, w);
    }
  }

  lemma StepDebt(bus: Bus, w: Walk, roster: Roster)
    requires w.stack != [] && Clean(Top(w)) && Honest(bus, roster)
    ensures Debt(roster, Step(bus, w).stack) + 1 <= Debt(roster, w.stack)
  {
    HonestStep(bus, w, roster);
    var e, n := Top(w), Step(bus, w);
    if n.stack != Rest(w) { DebtOfDescend(roster, Rest(w), e); }
  }

  /** The walk pops at most 1 + 128 N entries for N servos, and makes at most two
      settled probes more per servo. */
  lemma {:induction false} FinishCost(bus: Bus, w: Walk, roster: Roster, bound: nat)
    requires Apart(w) && Honest(bus, roster)
    requires w.pops + Debt(roster, w.stack) <= bound && w.probes <= w.pops + 2 * |w.found|
    ensures Finish(bus, w).pops <= bound
    ensures Finish(bus, w).probes <= Finish(bus, w).pops + 2 * |Finish(bus, w).found|
    decreases Remaining(w.stack)
  {
    if w.stack != [] {
      var n := Step(bus, w);
      StepShrinks(bus, w);
      StepApart(bus, w);
      HonestStep(bus, w, roster);
      StepDebt(bus, w, roster);
      FinishCost(bus, n, roster, bound);
    }
  }

  // ---------------------------------------------------------------------
  // The sorted roster
  // ---------------------------------------------------------------------

  /** `[u8; 16]` compares byte by byte. */
  predicate Less(a: seq<bv8>, b: seq<bv8>) {
    if a == [] || b == [] then a == [] && b != []
    else a[0] < b[0] || (a[0] == b[0] && Less(a[1..], b[1..]))
  }

  lemma {:induction false} LessTotal(a: seq<bv8>, b: seq<bv8>)
    requires |a| == |b|
    ensures a == b || Less(a, b) || Less(b, a)
  {
    if a != [] {
      LessTotal(a[1..], b[1..]);
      assert a == [a[0]] + a[1..] && b == [b[0]] + b[1..];
    }
  }

  lemma {:induction false} LessTransitive(a: seq<bv8>, b: seq<bv8>, c: seq<bv8>)
    requires Less(a, b) && Less(b, c)
    ensures Less(a, c)
  {
    if a != [] && a[0] == b[0] && b[0] == c[0] {
      LessTransitive(a[1..], b[1..], c[1..]);
    }
  }

  predicate Ascending(s: seq<Found>) {
    forall i, j :: 0 <= i < j < |s| ==> Less(s[i].uid, s[j].uid)
  }

  /** Insert before the first greater UID, after equal ones: a stable insertion. */
  function Insert(s: seq<Found>, n: Found): seq<Found> {
    if s == [] || Less(n.uid, s[0].uid) then [n] + s else [s[0]] + Insert(s[1..], n)
  }

  function Sorted(s: seq<Found>): seq<Found> {
    if s == [] then [] else Insert(Sorted(s[..|s| - 1]), s[|s| - 1])
  }

  lemma {:induction false} InsertKeeps(s: seq<Found>, n: Found)
    ensures multiset(Insert(s, n)) == multiset(s) + multiset{n}
  {
    if s != [] && !Less(n.uid, s[0].uid) {
      InsertKeeps(s[1..], n);
      assert s == [s[0]] + s[1..];
    }
  }

  lemma {:induction false} InsertAscends(s: seq<Found>, n: Found)
    requires Ascending(s) && forall i :: 0 <= i < |s| ==> s[i].uid != n.uid
    ensures Ascending(Insert(s, n))
  {
    if s == [] {
    } else if Less(n.uid, s[0].uid) {
      forall j | 0 < j < |s| ensures Less(n.uid, s[j].uid) {
        LessTransitive(n.uid, s[0].uid, s[j].uid);
      }
    } else {
      LessTotal(n.uid, s[0].uid);
      InsertAscends(s[1..], n);
      InsertKeeps(s[1..], n);
      var t := Insert(s[1..], n);
      forall j | 0 <= j < |t| ensures Less(s[0].uid, t[j].uid) {
        assert t[j] in multiset(t);
        assert t[j] == n || t[j] in s[1..];
      }
    }
  }

  lemma LastCounts(s: seq<Found>)
    requires s != []
    ensures multiset(s) == multiset(s[..|s| - 1]) + multiset{s[|s| - 1]}
  {
    assert s == s[..|s| - 1] + [s[|s| - 1]];
  }

  lemma {:induction false} SortedKeeps(s: seq<Found>)
    ensures multiset(Sorted(s)) == multiset(s)
  {
    if s != [] {
      var p, n := s[..|s| - 1], s[|s| - 1];
      SortedKeeps(p);
      InsertKeeps(Sorted(p), n);
      LastCounts(s);
    }
  }

  lemma {:induction false} SortedAscends(s: seq<Found>)
    requires forall i, j :: 0 <= i < j < |s| ==> s[i].uid != s[j].uid
    ensures Ascending(Sorted(s))
  {
    if s != [] {
      var p, n := s[..|s| - 1], s[|s| - 1];
      SortedAscends(p);
      SortedKeeps(p);
      forall i | 0 <= i < |Sorted(p)| ensures Sorted(p)[i].uid != n.uid {
        assert Sorted(p)[i] in multiset(p);
        assert Sorted(p)[i] in p;
      }
      InsertAscends(Sorted(p), n);
    }
  }

  // ---------------------------------------------------------------------
  // walk and discover
  // ---------------------------------------------------------------------

  /** The roster one walk returns when `t` probes have been made before it. */
  function RosterOf(bus: Bus, t: nat): seq<Found> {
    Sorted(Finish(bus, Start(t)).found)
  }

  method ProbeSettled(bus: Bus, t: nat, e: Prefix) returns (verdict: Verdict, t': nat)
    ensures (verdict, t') == Settled(bus, t, e)
  {
    verdict, t' := Probe(bus, t, e), t + 1;
    for i := 0 to EMPTY_RETRIES
      invariant Settle(bus, t, e, EMPTY_RETRIES)
        == if verdict.Empty? && i < EMPTY_RETRIES then Settle(bus, t', e, EMPTY_RETRIES - i - 1) else (verdict, t')
    {
      if !verdict.Empty? {
        return;
      }
      verdict := Probe(bus, t', e);
      t' := t' + 1;
    }
  }

  /** The retry loop on a full-depth collision. */
  method ResolveLeaf(bus: Bus, t: nat, e: Prefix) returns (r: Option<Found>, t': nat)
    ensures (r, t') == Reroll(bus, t, e, FULL_DEPTH_RETRIES)
  {
    r, t' := None, t;
    var tries := FULL_DEPTH_RETRIES;
    while tries > 0
      invariant Reroll(bus, t, e, FULL_DEPTH_RETRIES) == Reroll(bus, t', e, tries) && r.None?
    {
      var v := Probe(bus, t', e);
      tries, t' := tries - 1, t' + 1;
      if v.Candidate? {
        r := Some(v.node);
        return;
      }
    }
  }

  /** The body of the walk's loop; `pops` and `probes` only count. */
  method WalkOnce(bus: Bus, w: Walk) returns (n: Walk)
    requires w.stack != []
    ensures n == Step(bus, w)
  {
    var stack, found, t := w.stack, w.found, w.time;
    var e := stack[|stack| - 1];
    stack := stack[..|stack| - 1];
    var verdict;
    verdict, t := ProbeSettled(bus, t, e);
    var probes := w.probes + 1;
    match verdict {
    case Empty =>
    case Candidate(node) =>
      if e.len == FULL {
        found := found + [node];
      } else {
        var b := Bit(node.uid, e.len);
        var own, sib;
        own, t := ProbeSettled(bus, t, Child(e, b));
        sib, t := ProbeSettled(bus, t, Child(e, !b));
        probes := probes + 2;
        if own.Candidate? && sib.Empty? && own.node.uid == node.uid {
          found := found + [own.node];
        } else {
          stack := stack + [Child(e, false), Child(e, true)];
        }
      }
    case Collision =>
      if e.len == FULL {
        var r;
        r, t := ResolveLeaf(bus, t, e);
        if r.Some? {
          found := found + [r.value];
        }
      } else {
        stack := stack + [Child(e, false), Child(e, true)];
      }
    }
    n := Walk(stack, found, t, w.pops + 1, probes);
  }

  method WalkBus(bus: Bus, t: nat) returns (roster: seq<Found>, t': nat)
    ensures roster == RosterOf(bus, t) && t' == Finish(bus, Start(t)).time
    ensures Ascending(roster)
  {
    var w := Start(t);
    ghost var goal := Finish(bus, w);
    while w.stack != []
      invariant goal == Finish(bus, w)
      decreases Remaining(w.stack)
    {
      StepShrinks(bus, w);
      FinishStep(bus, w, goal);
      w := WalkOnce(bus, w);
    }
    roster, t' := Sorted(w.found), w.time;
    RosterAscends(bus, t);
  }

  /** Whatever the bus answers, the roster is sorted and holds no UID twice. */
  lemma RosterAscends(bus: Bus, t: nat)
    ensures Ascending(RosterOf(bus, t))
  {
    RootIsClean();
    FinishApart(bus, Start(t));
    SortedAscends(Finish(bus, Start(t)).found);
  }

  /** With silence and garble allowed anywhere, a walk can only undercount, if and only
      if no iteration is fooled. */
  lemma PhantomExact(bus: Bus, t: nat, roster: Roster)
    requires Sound(bus, roster)
    ensures (forall n :: n in RosterOf(bus, t) ==> IsNode(roster, n)) <==> !EverFooled(bus, Start(t), roster)
  {
    RootIsClean();
    FinishRealExact(bus, Start(t), roster);
    RealMembers(Finish(bus, Start(t)).found, roster);
  }

  lemma RealMembers(found: seq<Found>, roster: Roster)
    ensures (forall n :: n in Sorted(found) ==> IsNode(roster, n))
       <==> (forall f :: 0 <= f < |found| ==> IsNode(roster, found[f]))
  {
    forall n ensures n in Sorted(found) <==> n in found {
      SortedMember(found, n);
    }
  }

  /** A bus that never echoes a superposition never fools a walk. */
  lemma WalkOnlyUndercounts(bus: Bus, t: nat, roster: Roster)
    requires Phantomless(bus, roster)
    ensures forall n :: n in RosterOf(bus, t) ==> IsNode(roster, n)
  {
    RootIsClean();
    PhantomExact(bus, t, roster);
    NeverFooled(bus, Start(t), roster);
  }

  /** On a sound bus a servo is missing from the roster if and only if some iteration
      pruned the entry above it as silent, took it for another servo, or skipped it as an
      unresolved leaf. */
  lemma MissingExact(bus: Bus, t: nat, roster: Roster, u: Uid)
    requires Sound(bus, roster) && u in roster
    ensures Found(u, roster[u]) in RosterOf(bus, t) <==> !EverDropped(bus, Start(t), roster, u)
  {
    RootIsClean();
    assert Under(u, Start(t).stack[0]);
    FinishMissesExact(bus, Start(t), roster, u);
    SortedMember(Finish(bus, Start(t)).found, Found(u, roster[u]));
  }

  lemma SortedMember(found: seq<Found>, n: Found)
    ensures n in Sorted(found) <==> n in found
  {
    SortedKeeps(found);
    assert n in Sorted(found) <==> n in multiset(Sorted(found));
    assert n in found <==> n in multiset(found);
  }

  /** The two together: on a sound bus a walk is right if and only if it is never fooled
      and never drops a servo. */
  lemma RosterExact(bus: Bus, t: nat, roster: Roster)
    requires Sound(bus, roster)
    ensures (forall n :: n in RosterOf(bus, t) <==> IsNode(roster, n))
       <==> !EverFooled(bus, Start(t), roster) && forall u :: u in roster ==> !EverDropped(bus, Start(t), roster, u)
  {
    PhantomExact(bus, t, roster);
    forall u | u in roster
      ensures Found(u, roster[u]) in RosterOf(bus, t) <==> !EverDropped(bus, Start(t), roster, u)
    {
      MissingExact(bus, t, roster, u);
    }
    if forall u :: u in roster ==> !EverDropped(bus, Start(t), roster, u) {
      forall n | IsNode(roster, n) ensures n in RosterOf(bus, t) {
        assert n == Found(n.uid, roster[n.uid]);
      }
    } else {
      var u :| u in roster && EverDropped(bus, Start(t), roster, u);
      assert IsNode(roster, Found(u, roster[u]));
    }
  }

  /** On a truthful bus a walk returns exactly the servos on it. */
  lemma WalkIsExact(bus: Bus, t: nat, roster: Roster)
    requires Truthful(bus, roster)
    ensures forall n :: n in RosterOf(bus, t) <==> IsNode(roster, n)
    ensures Ascending(RosterOf(bus, t))
  {
    TruthfulIsPhantomless(bus, roster);
    WalkOnlyUndercounts(bus, t, roster);
    RosterAscends(bus, t);
    RootIsClean();
    var start := Start(t);
    var end := Finish(bus, start);
    forall u | u in roster ensures OnStack(start, u) { assert Under(u, start.stack[0]); }
    FinishCovers(bus, start, roster);
    SortedKeeps(end.found);
    forall n | IsNode(roster, n) ensures n in RosterOf(bus, t) {
      assert Found(n.uid, roster[n.uid]) in end.found;
      assert n in multiset(end.found);
    }
  }

  /** On an honest bus of N servos a walk pops at most 1 + 128 N entries and makes
      at most two settled probes more per servo. */
  lemma WalkIsCheap(bus: Bus, t: nat, roster: Roster)
    requires Honest(bus, roster)
    ensures var end := Finish(bus, Start(t));
      end.pops <= 1 + 128 * |roster| && end.probes <= 1 + 130 * |roster|
  {
    RootIsClean();
    var start := Start(t);
    var end := Finish(bus, start);
    assert Matchers(roster, ROOT) == roster.Keys;
    assert start.stack[..0] == [];
    FinishCost(bus, start, roster, 1 + 128 * |roster|);
    TruthfulIsPhantomless(bus, roster);
    FinishReal(bus, start, roster);
    FinishApart(bus, start);
    DistinctInSet(end.found, roster.Keys);
  }

  lemma {:induction false} DistinctInSet(found: seq<Found>, keys: set<Uid>)
    requires forall f, g :: 0 <= f < g < |found| ==> found[f].uid != found[g].uid
    requires forall f :: 0 <= f < |found| ==> found[f].uid in keys
    ensures |found| <= |keys|
  {
    if found != [] {
      var last := |found| - 1;
      DistinctInSet(found[..last], keys - {found[last].uid});
    }
  }

  const TWIN_A: Uid := [6, 0, 0, 0, 0, 0, 0, 0, 0, 0, 0, 0, 0, 0, 0, 0]
  const TWIN_B: Uid := [10, 0, 0, 0, 0, 0, 0, 0, 0, 0, 0, 0, 0, 0, 0, 0]
  /** The wire-AND of the twins. */
  const PHANTOM: Uid := [2, 0, 0, 0, 0, 0, 0, 0, 0, 0, 0, 0, 0, 0, 0, 0]

  /** The twins answer together at the root and at the child they share, and their
      superposition reads as one clean frame; elsewhere the bus is silent. */
  function EchoReply(e: Prefix): Reply {
    if e.len == 0 || (e.len == 1 && !Bit(e.bits, 0)) then Reply([Status(true, 3, PHANTOM)], 0, false)
    else Reply([], 0, false)
  }

  lemma EchoVerdict(bus: Bus, t: nat, e: Prefix)
    requires forall t, e :: bus(t, e) == EchoReply(e)
    ensures Settled(bus, t, e).0 == Probe(bus, t, e)
      == if e.len == 0 || (e.len == 1 && !Bit(e.bits, 0)) then Candidate(Found(PHANTOM, 3)) else Empty
  {
    assert Probe(bus, t, e) == Probe(bus, t + 1, e) == Probe(bus, t + 2, e);
  }

  lemma EchoIsSound(bus: Bus, roster: Roster)
    requires (forall t, e :: bus(t, e) == EchoReply(e)) && roster == map[TWIN_A := 1, TWIN_B := 2]
    ensures Sound(bus, roster)
  {
    forall t: nat, e: Prefix
      ensures Settled(bus, t, e).0 == Probe(bus, t, e) && !Probe(bus, t, e).Collision?
      ensures Probe(bus, t, e).Candidate? ==> |Matchers(roster, e)| >= 2
    {
      EchoVerdict(bus, t, e);
      if Probe(bus, t, e).Candidate? {
        assert TWIN_A in Matchers(roster, e) && TWIN_B in Matchers(roster, e);
        assert TWIN_A[0] != TWIN_B[0];
        assert |Matchers(roster, e) - {TWIN_A}| >= 1 by { assert TWIN_B in Matchers(roster, e) - {TWIN_A}; }
      }
    }
  }

  lemma EchoStep(bus: Bus, w: Walk)
    requires (forall t, e :: bus(t, e) == EchoReply(e)) && w.stack == [ROOT] && w.found == []
    ensures Step(bus, w).stack == [] && Step(bus, w).found == [Found(PHANTOM, 3)]
  {
    assert !Bit(PHANTOM, 0);
    var own, sib := Child(ROOT, false), Child(ROOT, true);
    EchoVerdict(bus, w.time, ROOT);
    var t := Settled(bus, w.time, ROOT).1;
    EchoVerdict(bus, t, own);
    EchoVerdict(bus, Settled(bus, t, own).1, sib);
    WithBitAt(ROOT.bits, 0, true, 0);
    assert w.stack[..0] == [] && [] + [Found(PHANTOM, 3)] == [Found(PHANTOM, 3)];
  }

  lemma EchoWalk(bus: Bus, w: Walk)
    requires (forall t, e :: bus(t, e) == EchoReply(e)) && w.stack == [ROOT] && w.found == []
    ensures Finish(bus, w).found == [Found(PHANTOM, 3)]
  {
    EchoStep(bus, w);
    FinishStep(bus, w, Finish(bus, w));
  }

  lemma SortedOne(n: Found)
    ensures Sorted([n]) == [n]
  {
  }

  /** The comment's claim fails on a sound bus: two servos, and a walk that reports one
      servo that does not exist. */
  lemma EchoDeceives(bus: Bus, roster: Roster)
    requires (forall t, e :: bus(t, e) == EchoReply(e)) && roster == map[TWIN_A := 1, TWIN_B := 2]
    ensures Sound(bus, roster) && RosterOf(bus, 0) == [Found(PHANTOM, 3)] && PHANTOM !in roster
    ensures EverFooled(bus, Start(0), roster)
  {
    EchoIsSound(bus, roster);
    EchoWalk(bus, Start(0));
    SortedOne(Found(PHANTOM, 3));
    assert PHANTOM[0] != TWIN_A[0] && PHANTOM[0] != TWIN_B[0];
    assert Found(PHANTOM, 3) in RosterOf(bus, 0);
    PhantomExact(bus, 0, roster);
  }

  const WALKS_CAP: nat := 5

  /** Walk until two consecutive walks agree, at most `left` more times. */
  function Agree(bus: Bus, prev: seq<Found>, t: nat, left: nat): seq<Found>
    decreases left
  {
    if left == 0 then prev
    else
      var next := RosterOf(bus, t);
      if next == prev then next else Agree(bus, next, Finish(bus, Start(t)).time, left - 1)
  }

  function Discovered(bus: Bus): seq<Found> {
    Agree(bus, RosterOf(bus, 0), Finish(bus, Start(0)).time, WALKS_CAP - 1)
  }

  method Discover(bus: Bus) returns (roster: seq<Found>)
    ensures roster == Discovered(bus)
  {
    var prev, t := WalkBus(bus, 0);
    ghost var goal := Discovered(bus);
    for i := 1 to WALKS_CAP
      invariant goal == Agree(bus, prev, t, WALKS_CAP - i)
    {
      AgreeStep(bus, prev, t, WALKS_CAP - i, goal);
      var next;
      next, t := WalkBus(bus, t);
      if next == prev {
        return next;
      }
      prev := next;
    }
    return prev;
  }

  lemma AgreeStep(bus: Bus, prev: seq<Found>, t: nat, left: nat, goal: seq<Found>)
    requires left > 0 && goal == Agree(bus, prev, t, left)
    ensures if RosterOf(bus, t) == prev then goal == prev
            else goal == Agree(bus, RosterOf(bus, t), Finish(bus, Start(t)).time, left - 1)
  {
  }

  lemma {:induction false} AscendingIsUnique(s: seq<Found>, r: seq<Found>)
    requires Ascending(s) && Ascending(r) && forall n :: n in s <==> n in r
    ensures s == r
  {
    if s != [] || r != [] {
      assert s != [] ==> s[0] in r;
      assert r != [] ==> r[0] in s;
      HeadIsLeast(s, r);
      forall n ensures n in s[1..] <==> n in r[1..] {
        TailMembers(s, n);
        TailMembers(r, n);
      }
      AscendingIsUnique(s[1..], r[1..]);
      assert s == [s[0]] + s[1..] && r == [r[0]] + r[1..];
    }
  }

  lemma {:induction false} LessIrreflexive(a: seq<bv8>)
    ensures !Less(a, a)
  {
    if a != [] { LessIrreflexive(a[1..]); }
  }

  lemma HeadIsLeast(s: seq<Found>, r: seq<Found>)
    requires Ascending(s) && Ascending(r) && s != [] && r != [] && s[0] in r && r[0] in s
    ensures s[0] == r[0]
  {
    if s[0] != r[0] {
      LessTransitive(s[0].uid, r[0].uid, s[0].uid);
      LessIrreflexive(s[0].uid);
    }
  }

  lemma TailMembers(s: seq<Found>, n: Found)
    requires Ascending(s) && s != []
    ensures n in s[1..] <==> n in s && n != s[0]
  {
    LessIrreflexive(s[0].uid);
    if n in s && n != s[0] {
      var i :| 0 <= i < |s| && s[i] == n;
      assert s[1..][i - 1] == n;
    }
  }

  // ---------------------------------------------------------------------
  // Which walk discovery returns
  // ---------------------------------------------------------------------

  /** When walk `k` begins, if every walk is made: the walks follow each other. */
  function WalkAt(bus: Bus, k: nat): nat {
    if k == 0 then 0 else Finish(bus, Start(WalkAt(bus, k - 1))).time
  }

  /** The rosters of walks 0, 1, 2 and so on. */
  type Rosters = nat -> seq<Found>

  function Walks(bus: Bus): Rosters {
    (k: nat) => RosterOf(bus, WalkAt(bus, k))
  }

  ghost predicate Repeats(walks: Rosters, k: nat)
    requires 1 <= k
  {
    walks(k) == walks(k - 1)
  }

  /** Walk `k` is the first that agrees with the one before it, or the fifth of five that
      never agreed. */
  ghost predicate Stops(walks: Rosters, k: nat) {
    && 1 <= k <= 4
    && (k == 4 || Repeats(walks, k))
    && (forall j :: 1 <= j < k ==> !Repeats(walks, j))
  }

  lemma {:induction false} FirstStop(walks: Rosters, k: nat)
    requires 1 <= k <= 4 && forall j :: 1 <= j < k ==> !Repeats(walks, j)
    ensures exists m :: Stops(walks, m)
    decreases 4 - k
  {
    if k == 4 || Repeats(walks, k) {
      assert Stops(walks, k);
    } else {
      FirstStop(walks, k + 1);
    }
  }

  /** Walk `k` begins at `at(k)` and reads `walks(k)`. */
  ghost predicate Reads(bus: Bus, walks: Rosters, at: nat -> nat, k: nat) {
    walks(k) == RosterOf(bus, at(k)) && at(k + 1) == Finish(bus, Start(at(k))).time
  }

  lemma AgreeMoves(bus: Bus, walks: Rosters, at: nat -> nat, j: nat, left: nat, goal: seq<Found>)
    requires Reads(bus, walks, at, j + 1) && left > 0 && goal == Agree(bus, walks(j), at(j + 1), left)
    ensures if left == 1 || Repeats(walks, j + 1) then goal == walks(j + 1)
            else goal == Agree(bus, walks(j + 1), at(j + 2), left - 1)
  {
    AgreeStep(bus, walks(j), at(j + 1), left, goal);
  }

  lemma {:induction false} AgreeStops(bus: Bus, walks: Rosters, at: nat -> nat, j: nat, k: nat, goal: seq<Found>)
    requires (forall i: nat :: Reads(bus, walks, at, i)) && j < k && Stops(walks, k)
    requires goal == Agree(bus, walks(j), at(j + 1), 4 - j)
    ensures goal == walks(k)
    decreases k - j
  {
    AgreeMoves(bus, walks, at, j, 4 - j, goal);
    if j + 1 < k {
      AgreeStops(bus, walks, at, j + 1, k, goal);
    }
  }

  lemma WalksRead(bus: Bus, walks: Rosters, at: nat -> nat)
    requires walks == Walks(bus) && forall k: nat :: at(k) == WalkAt(bus, k)
    ensures forall i: nat :: Reads(bus, walks, at, i)
  {
    forall i: nat ensures Reads(bus, walks, at, i) {
      assert at(i + 1) == WalkAt(bus, i + 1);
    }
  }

  lemma DiscoveredStops(bus: Bus, at: nat -> nat, k: nat)
    requires (forall k: nat :: at(k) == WalkAt(bus, k)) && Stops(Walks(bus), k)
    ensures Discovered(bus) == Walks(bus)(k)
  {
    WalksRead(bus, Walks(bus), at);
    assert Reads(bus, Walks(bus), at, 0);
    AgreeStops(bus, Walks(bus), at, 0, k, Discovered(bus));
  }

  /** Discovery returns the walk it stops at, and there is one. */
  lemma DiscoveryStops(bus: Bus)
    ensures exists k :: Stops(Walks(bus), k)
    ensures forall k :: Stops(Walks(bus), k) ==> Discovered(bus) == RosterOf(bus, WalkAt(bus, k))
  {
    FirstStop(Walks(bus), 1);
    forall k | Stops(Walks(bus), k) ensures Discovered(bus) == RosterOf(bus, WalkAt(bus, k)) {
      DiscoveredStops(bus, (k: nat) => WalkAt(bus, k), k);
    }
  }

  ghost predicate Exact(roster: Roster, found: seq<Found>) {
    forall n :: n in found <==> IsNode(roster, n)
  }

  /** Two exact walks in a row, before any other two agree, make discovery exact, whatever
      the other walks read. */
  lemma AgreedWalksAreExact(bus: Bus, roster: Roster, k: nat)
    requires 1 <= k <= 4 && Exact(roster, Walks(bus)(k - 1)) && Exact(roster, Walks(bus)(k))
    requires forall j :: 1 <= j < k ==> !Repeats(Walks(bus), j)
    ensures Discovered(bus) == Walks(bus)(k) && Exact(roster, Discovered(bus))
  {
    RosterAscends(bus, WalkAt(bus, k - 1));
    RosterAscends(bus, WalkAt(bus, k));
    AscendingIsUnique(Walks(bus)(k - 1), Walks(bus)(k));
    assert Stops(Walks(bus), k);
    DiscoveryStops(bus);
  }

  /** Discovery reports a servo that is not there if and only if the walk it returns was
      fooled, and misses one if and only if that walk dropped it: agreement between walks
      does not help. */
  lemma DiscoveryPhantomExact(bus: Bus, roster: Roster, k: nat)
    requires Sound(bus, roster) && Stops(Walks(bus), k)
    ensures var walk := Start(WalkAt(bus, k));
      && ((forall n :: n in Discovered(bus) ==> IsNode(roster, n)) <==> !EverFooled(bus, walk, roster))
      && (forall u :: u in roster ==>
            (Found(u, roster[u]) in Discovered(bus) <==> !EverDropped(bus, walk, roster, u)))
  {
    DiscoveryStops(bus);
    PhantomExact(bus, WalkAt(bus, k), roster);
    forall u | u in roster
      ensures Found(u, roster[u]) in Discovered(bus)
         <==> !EverDropped(bus, Start(WalkAt(bus, k)), roster, u)
    {
      MissingExact(bus, WalkAt(bus, k), roster, u);
    }
  }

  /** A truthful bus is discovered exactly, and a phantom-free one never gains a
      servo it does not have. */
  lemma DiscoveryIsExact(bus: Bus, roster: Roster)
    requires Phantomless(bus, roster)
    ensures forall n :: n in Discovered(bus) ==> IsNode(roster, n)
    ensures Truthful(bus, roster) ==> Exact(roster, Discovered(bus))
  {
    DiscoveryStops(bus);
    var k :| Stops(Walks(bus), k);
    WalkOnlyUndercounts(bus, WalkAt(bus, k), roster);
    if Truthful(bus, roster) {
      WalkIsExact(bus, WalkAt(bus, k), roster);
    }
  }
}
