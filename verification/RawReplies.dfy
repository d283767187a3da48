/** What the discovery walk of client/src/mgmt.rs may assume of the raw replies.

`DiscoveryWalk` states its theorems on settled verdicts.  Here the verdicts are read off
the replies themselves, and assumptions on single replies give the ones on verdicts. */
module RawReplies {
  import opened Basics
  import opened UidPrefix
  import opened DiscoveryWalk

  /** Nothing was heard: no status, no garble, no trailing energy. */
  ghost predicate Silent(r: Reply) {
    r == Reply([], 0, false)
  }

  /** One clean status, Ok, with the full UID of `n`, which extends the probe's prefix. */
  ghost predicate Clear(r: Reply, e: Prefix, n: Found) {
    r == Reply([Status(true, n.id, n.uid)], 0, false) && Under(n.uid, e)
  }

  /** A probe is read as silence or as a servo exactly when the reply is that; anything
      else is a collision. */
  lemma JudgeExact(r: Reply, e: Prefix)
    ensures Judge(r, e).Empty? <==> Silent(r)
    ensures forall n :: Judge(r, e) == Candidate(n) <==> Clear(r, e, n)
  {
    if |r.statuses| == 1 {
      assert r.statuses == [r.statuses[0]];
    }
  }

  lemma SettleStep(bus: Bus, t: nat, e: Prefix, more: nat)
    ensures Settle(bus, t, e, more)
         == if Silent(bus(t, e)) && more > 0 then Settle(bus, t + 1, e, more - 1) else (Judge(bus(t, e), e), t + 1)
  {
    JudgeExact(bus(t, e), e);
  }

  /** A settled verdict is that of the first of three replies that is not silence, or of the third. */
  lemma SettledExact(bus: Bus, t: nat, e: Prefix)
    ensures var v := Settled(bus, t, e).0;
      && (v.Empty? <==> Silent(bus(t, e)) && Silent(bus(t + 1, e)) && Silent(bus(t + 2, e)))
      && v == Judge(if !Silent(bus(t, e)) then bus(t, e)
                    else if !Silent(bus(t + 1, e)) then bus(t + 1, e) else bus(t + 2, e), e)
  {
    SettleStep(bus, t, e, 2);
    SettleStep(bus, t + 1, e, 1);
    SettleStep(bus, t + 2, e, 0);
    JudgeExact(bus(t, e), e);
    JudgeExact(bus(t + 1, e), e);
    JudgeExact(bus(t + 2, e), e);
  }

  ghost predicate Readable(r: Reply, e: Prefix) {
    exists n :: Clear(r, e, n)
  }

  lemma RerollStep(bus: Bus, t: nat, e: Prefix, tries: nat)
    requires tries > 0
    ensures Reroll(bus, t, e, tries).0.None?
       <==> !Readable(bus(t, e), e) && Reroll(bus, t + 1, e, tries - 1).0.None?
  {
    JudgeExact(bus(t, e), e);
    var v := Probe(bus, t, e);
    assert v.Candidate? ==> Clear(bus(t, e), e, v.node);
  }

  /** A leaf that collided is given up exactly when none of three more replies is clear. */
  lemma RerollExact(bus: Bus, t: nat, e: Prefix)
    ensures Reroll(bus, t, e, FULL_DEPTH_RETRIES).0.None?
       <==> !Readable(bus(t, e), e) && !Readable(bus(t + 1, e), e) && !Readable(bus(t + 2, e), e)
  {
    RerollStep(bus, t, e, 3);
    RerollStep(bus, t + 1, e, 2);
    RerollStep(bus, t + 2, e, 1);
  }

  // ---------------------------------------------------------------------
  // Assumptions on single replies
  // ---------------------------------------------------------------------

  ghost predicate Differ(r: Reply, e: Prefix, r': Reply, e': Prefix) {
    forall n, n' :: Clear(r, e, n) && Clear(r', e', n') ==> n.uid != n'.uid
  }

  /** No UID is read clear both at a prefix and at a child of it with two matchers or more. */
  ghost predicate RawNoEcho(bus: Bus, roster: Roster) {
    forall t: nat, t': nat, e, b :: Clean(e) && e.len < 128 && |Matchers(roster, Child(e, b))| >= 2 ==>
      Differ(bus(t, e), e, bus(t', Child(e, b)), Child(e, b))
  }

  /** With at most one matcher, a clear reply is that matcher's. */
  ghost predicate RawSound(bus: Bus, roster: Roster) {
    forall t: nat, e, n :: Clean(e) && |Matchers(roster, e)| <= 1 && Clear(bus(t, e), e, n) ==> IsNode(roster, n)
  }

  /** Where nobody matches every reply is silence; where somebody does, no three replies in
      a row are; and one matcher alone is read clear or not at all. */
  ghost predicate RawTruthful(bus: Bus, roster: Roster) {
    && RawNoEcho(bus, roster)
    && forall t: nat, e :: Clean(e) ==> RawTruth(bus, roster, t, e)
  }

  ghost predicate RawTruth(bus: Bus, roster: Roster, t: nat, e: Prefix) {
    var m := Matchers(roster, e);
    && (m == {} ==> Silent(bus(t, e)))
    && (m != {} ==> !(Silent(bus(t, e)) && Silent(bus(t + 1, e)) && Silent(bus(t + 2, e))))
    && (|m| == 1 ==> Silent(bus(t, e)) || exists n :: Clear(bus(t, e), e, n) && IsNode(roster, n))
  }

  /** A settled candidate was clear in one of the replies. */
  lemma CandidateIsClear(bus: Bus, t: nat, e: Prefix, n: Found)
    requires Settled(bus, t, e).0 == Candidate(n)
    ensures Clear(bus(t, e), e, n) || Clear(bus(t + 1, e), e, n) || Clear(bus(t + 2, e), e, n)
  {
    SettledExact(bus, t, e);
    JudgeExact(bus(t, e), e);
    JudgeExact(bus(t + 1, e), e);
    JudgeExact(bus(t + 2, e), e);
  }

  lemma RawIsSound(bus: Bus, roster: Roster)
    requires RawSound(bus, roster)
    ensures Sound(bus, roster)
  {
    forall t: nat, e | Clean(e) && |Matchers(roster, e)| <= 1 && Settled(bus, t, e).0.Candidate?
      ensures IsNode(roster, Settled(bus, t, e).0.node)
    {
      CandidateIsClear(bus, t, e, Settled(bus, t, e).0.node);
    }
    forall t: nat, e | Clean(e) && e.len == 128 && Probe(bus, t, e).Candidate?
      ensures IsNode(roster, Probe(bus, t, e).node)
    {
      FullHasOne(roster, e);
      JudgeExact(bus(t, e), e);
    }
  }

  lemma SettledDiffer(bus: Bus, t: nat, e: Prefix, t': nat, e': Prefix)
    requires forall i: nat, j: nat :: Differ(bus(i, e), e, bus(j, e'), e')
    ensures var v, v' := Settled(bus, t, e).0, Settled(bus, t', e').0;
      v.Candidate? && v'.Candidate? ==> v.node.uid != v'.node.uid
  {
    var v, v' := Settled(bus, t, e).0, Settled(bus, t', e').0;
    if v.Candidate? && v'.Candidate? {
      CandidateIsClear(bus, t, e, v.node);
      CandidateIsClear(bus, t', e', v'.node);
    }
  }

  lemma RawIsNoEcho(bus: Bus, roster: Roster)
    requires RawNoEcho(bus, roster)
    ensures NoEcho(bus, roster)
  {
    forall t: nat, t': nat, e, b | Clean(e) && e.len < 128 && |Matchers(roster, Child(e, b))| >= 2
      ensures var v, v' := Settled(bus, t, e).0, Settled(bus, t', Child(e, b)).0;
        v.Candidate? && v'.Candidate? ==> v.node.uid != v'.node.uid
    {
      SettledDiffer(bus, t, e, t', Child(e, b));
    }
  }

  lemma RawVerdict(bus: Bus, roster: Roster, t: nat, e: Prefix)
    requires RawTruth(bus, roster, t, e) && RawTruth(bus, roster, t + 1, e) && RawTruth(bus, roster, t + 2, e)
    ensures var v := Settled(bus, t, e).0;
      && (v.Empty? <==> Matchers(roster, e) == {})
      && (|Matchers(roster, e)| == 1 ==> v.Candidate? && IsNode(roster, v.node))
  {
    SettledExact(bus, t, e);
    JudgeExact(bus(t, e), e);
    JudgeExact(bus(t + 1, e), e);
    JudgeExact(bus(t + 2, e), e);
  }

  lemma RawIsTruthful(bus: Bus, roster: Roster)
    requires RawTruthful(bus, roster)
    ensures Truthful(bus, roster)
  {
    RawIsNoEcho(bus, roster);
    forall t: nat, e | Clean(e)
      ensures var v := Settled(bus, t, e).0;
        && (v.Empty? <==> Matchers(roster, e) == {})
        && (|Matchers(roster, e)| == 1 ==> v.Candidate? && IsNode(roster, v.node))
    {
      assert RawTruth(bus, roster, t, e) && RawTruth(bus, roster, t + 1, e) && RawTruth(bus, roster, t + 2, e);
      RawVerdict(bus, roster, t, e);
    }
  }

  /** A bus without interference meets every assumption. */
  lemma QuietBusIsRaw(bus: Bus, roster: Roster)
    requires forall t, e :: bus(t, e) == TrueReply(roster, e)
    ensures RawTruthful(bus, roster) && RawSound(bus, roster)
  {
    forall t: nat, e, n | Clear(bus(t, e), e, n) ensures |Matchers(roster, e)| == 1 && IsNode(roster, n) {
    }
    forall t: nat, e ensures RawTruth(bus, roster, t, e) {
      if |Matchers(roster, e)| == 1 {
        var s := bus(t, e).statuses[0];
        assert Clear(bus(t, e), e, Found(s.payload, s.id));
      }
    }
  }

  /** The walk and the discovery, from the replies alone. */
  lemma RepliesDecide(bus: Bus, roster: Roster, t: nat)
    requires RawNoEcho(bus, roster) && RawSound(bus, roster)
    ensures forall n :: n in RosterOf(bus, t) || n in Discovered(bus) ==> IsNode(roster, n)
    ensures RawTruthful(bus, roster) ==> Exact(roster, RosterOf(bus, t)) && Exact(roster, Discovered(bus))
  {
    RawIsSound(bus, roster);
    RawIsNoEcho(bus, roster);
    WalkOnlyUndercounts(bus, t, roster);
    DiscoveryIsExact(bus, roster);
    if RawTruthful(bus, roster) {
      RawIsTruthful(bus, roster);
      WalkIsExact(bus, t, roster);
    }
  }
}
