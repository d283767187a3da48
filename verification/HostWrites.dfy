/** What the host writes is what the kernel gets: host writes to the shadow table,
followed by the commit of firmware-old/open-servo-kernel/src/kernel.rs. */
module HostWrites {
  import opened Basics
  import opened FixedPoint
  import opened Words
  import opened Kernel

  function Addresses(at: nat, n: nat): (s: set<nat>)
    ensures forall a: nat :: a in s <==> at <= a < at + n
    decreases n
  {
    if n == 0 then {} else Addresses(at, n - 1) + {at + n - 1}
  }

  /** A host write: the bytes, and their addresses marked dirty. */
  function Write(v: ViewValue, at: nat, data: seq<Byte>): (w: ViewValue)
    requires at + |data| <= |v.bytes|
    ensures |w.bytes| == |v.bytes| && w.bytes[at..at + |data|] == data
  {
    ViewValue(v.bytes[..at] + data + v.bytes[at + |data|..], v.dirty + Addresses(at, |data|))
  }

  lemma WriteElsewhere(v: ViewValue, at: nat, data: seq<Byte>, off: nat, len: nat)
    requires at + |data| <= |v.bytes| && (off + len <= at || at + |data| <= off)
    ensures IsDirty(Write(v, at, data), off, len) == IsDirty(v, off, len)
    ensures ReadRange(Write(v, at, data), off, len) == ReadRange(v, off, len)
  {
    var w := Write(v, at, data);
    if IsDirty(w, off, len) {
      var a :| off <= a < off + len && a in w.dirty;
      assert a in v.dirty;
    }
    if off + len <= |v.bytes| {
      assert w.bytes[off..off + len] == v.bytes[off..off + len];
    }
  }

  lemma WriteHere(v: ViewValue, at: nat, data: seq<Byte>)
    requires at + |data| <= |v.bytes| && data != []
    ensures IsDirty(Write(v, at, data), at, |data|) && Write(v, at, data).dirty != {}
    ensures ReadRange(Write(v, at, data), at, |data|) == Some(data)
  {
    assert at in Write(v, at, data).dirty;
  }

  ghost predicate Clear(at: nat, n: nat, off: nat, len: nat) {
    off + len <= at || at + n <= off
  }

  /** A write leaves alone the requests whose registers it does not touch. */
  lemma OthersKept(v: ViewValue, at: nat, data: seq<Byte>)
    requires at + |data| <= |v.bytes|
    ensures var w, n := Write(v, at, data), |data|;
      && (Clear(at, n, 582, 1) ==> ModeOf(w) == ModeOf(v))
      && (Clear(at, n, 64, 1) && Clear(at, n, 581, 1) ==> EngagedOf(w) == EngagedOf(v))
      && (Clear(at, n, 116, 4) && Clear(at, n, 512, 4) ==> GoalPosOf(w) == GoalPosOf(v))
      && (Clear(at, n, 100, 2) && Clear(at, n, 583, 2) ==> EffortOf(w) == EffortOf(v))
  {
    if Clear(at, |data|, 582, 1) { WriteElsewhere(v, at, data, 582, 1); }
    if Clear(at, |data|, 64, 1) { WriteElsewhere(v, at, data, 64, 1); }
    if Clear(at, |data|, 581, 1) { WriteElsewhere(v, at, data, 581, 1); }
    if Clear(at, |data|, 116, 4) { WriteElsewhere(v, at, data, 116, 4); }
    if Clear(at, |data|, 512, 4) { WriteElsewhere(v, at, data, 512, 4); }
    if Clear(at, |data|, 100, 2) { WriteElsewhere(v, at, data, 100, 2); }
    if Clear(at, |data|, 583, 2) { WriteElsewhere(v, at, data, 583, 2); }
  }

  /** A table that holds every register and no invalid mode. */
  ghost predicate Committable(v: ViewValue) {
    |v.bytes| >= 585 && !ModeOf(v).Invalid?
  }

  // ---------------------------------------------------------------------
  // Goal position
  // ---------------------------------------------------------------------

  /** Writing a goal position changes the committed setpoint and nothing else, unless a
      facade goal is waiting, which wins. */
  lemma GoalIsCommitted(k: KernelValue, v: ViewValue, goal: int)
    requires Committable(v) && IsI32(goal)
    ensures var w := Write(v, 512, SignedBytes32(goal));
      var was := Commit(k, v).0;
      && Commit(k, w).2 == Committed
      && Commit(k, w).0 == if IsDirty(v, 116, 4) then was else was.(st := was.st.(posSp := goal))
  {
    var data := SignedBytes32(goal);
    WriteHere(v, 512, data);
    WriteElsewhere(v, 512, data, 116, 4);
    OthersKept(v, 512, data);
  }

  /** A facade goal in pulses commits its centidegrees, whatever the vendor register
      holds. */
  lemma FacadeGoalWins(k: KernelValue, v: ViewValue, pulses: int)
    requires Committable(v) && IsI32(pulses)
    ensures var w := Write(v, 116, SignedBytes32(pulses));
      var was := Commit(k, v).0;
      Commit(k, w).2 == Committed && Commit(k, w).0 == was.(st := was.st.(posSp := PulsesToCdeg(pulses)))
  {
    var data := SignedBytes32(pulses);
    WriteHere(v, 116, data);
    OthersKept(v, 116, data);
  }

  // ---------------------------------------------------------------------
  // Torque
  // ---------------------------------------------------------------------

  /** The kernel `was`, engaged as told, its controller cleared if that disengages `k`. */
  ghost function Engaging(k: KernelValue, was: KernelValue, on: bool): KernelValue {
    was.(st := was.st.(engaged := on,
                       pid := if k.st.engaged && !on then k.st.pid.(integ := 0, prevError := 0, prevMeas := 0)
                              else k.st.pid))
  }

  /** A torque byte engages the servo when it is not zero and disengages it when it is,
      and changes nothing else; a facade torque byte that is waiting wins. */
  lemma TorqueIsCommitted(k: KernelValue, v: ViewValue, b: Byte)
    requires Committable(v)
    ensures var w := Write(v, 581, [b]);
      var was := Commit(k, v).0;
      && Commit(k, w).2 == Committed
      && Commit(k, w).0 == if IsDirty(v, 64, 1) then was else Engaging(k, was, b != 0)
  {
    WriteHere(v, 581, [b]);
    WriteElsewhere(v, 581, [b], 64, 1);
    OthersKept(v, 581, [b]);
  }

  lemma FacadeTorqueWins(k: KernelValue, v: ViewValue, b: Byte)
    requires Committable(v)
    ensures var w := Write(v, 64, [b]);
      Commit(k, w).2 == Committed && Commit(k, w).0 == Engaging(k, Commit(k, v).0, b != 0)
  {
    WriteHere(v, 64, [b]);
    OthersKept(v, 64, [b]);
  }

  // ---------------------------------------------------------------------
  // Mode and effort
  // ---------------------------------------------------------------------

  /** Mode byte 0 asks for position control and 1 for open loop, and changes nothing else;
      any other byte rejects the whole commit. */
  lemma ModeIsCommitted(k: KernelValue, v: ViewValue, b: Byte)
    requires |v.bytes| >= 585
    ensures var w := Write(v, 582, [b]);
      && (b > 1 ==> Commit(k, w) == (k, w, ValidationError(582)))
      && (b <= 1 ==> Commit(k, w).2 == Committed)
      && (b <= 1 && !ModeOf(v).Invalid? ==>
            Commit(k, w).0 == Commit(k, v).0.(pendingMode := Some(if b == 0 then Position else OpenLoop)))
  {
    WriteHere(v, 582, [b]);
    OthersKept(v, 582, [b]);
  }

  /** An i16 written to the PWM register becomes the open-loop effort, and changes nothing
      else; a facade PWM that is waiting wins. */
  lemma EffortIsCommitted(k: KernelValue, v: ViewValue, effort: int)
    requires Committable(v) && IsI16(effort)
    ensures var w := Write(v, 583, SignedBytes16(effort));
      var was := Commit(k, v).0;
      && Commit(k, w).2 == Committed
      && Commit(k, w).0 == if IsDirty(v, 100, 2) then was else was.(st := was.st.(openLoopEffort := effort))
  {
    var data := SignedBytes16(effort);
    WriteHere(v, 583, data);
    WriteElsewhere(v, 583, data, 100, 2);
    OthersKept(v, 583, data);
  }

  lemma FacadeEffortWins(k: KernelValue, v: ViewValue, effort: int)
    requires Committable(v) && IsI16(effort)
    ensures var w := Write(v, 100, SignedBytes16(effort));
      var was := Commit(k, v).0;
      Commit(k, w).2 == Committed && Commit(k, w).0 == was.(st := was.st.(openLoopEffort := effort))
  {
    var data := SignedBytes16(effort);
    WriteHere(v, 100, data);
    OthersKept(v, 100, data);
  }
}
