/** The servo kernel of firmware-old/open-servo-kernel/src/kernel.rs and state.rs:
gating, the position loop, deferred mode switching and the shadow commit. */
module Kernel {
  import opened Basics
  import opened FixedPoint
  import opened Pid
  import opened Words
  import Bits

  // ---------------------------------------------------------------------
  // Vocabulary
  // ---------------------------------------------------------------------

  datatype OperatingMode = Position | OpenLoop
  datatype DriveMode = Coast | Drive
  datatype MotorCommand = MotorCommand(driverEn: bool, drive: DriveMode, effort: int)
  const SAFE := MotorCommand(false, Coast, 0)

  datatype GateReason = GateOk | Disengaged | Faulted | DriverNotOk
  datatype ResetScope = Control | AllState
  datatype TickDomain = ControlFast | ControlMedium | ControlSlow | System

  datatype KernelOp =
    | ModeRequest(mode: OperatingMode) | FaultAck(id: nat) | FaultAckAll
    | CommitShadowOp | SoftReset(scope: ResetScope) | Ping
  datatype KernelResult = ResultOk | ResultBusy | FaultAckRefused

  datatype CommitResult = Committed | NothingToCommit | ValidationError(offset: nat)

  /** The part of a sensor frame the kernel acts on; an invalid reading has no position. */
  datatype Frame = Frame(driverOk: bool, pos: Option<int>)

  datatype Config = Config(kp: int, ki: int, kd: int, holdDeadband: int, effortLimit: int)

  datatype State = State(
    engaged: bool, mode: OperatingMode, faults: nat, posSp: int, openLoopEffort: int,
    frame: Frame, pos: int, lastCmd: MotorCommand, lastGate: GateReason, pid: PidState, lastDt: int)

  /** The whole kernel: live state plus what is deferred. */
  datatype KernelValue = KernelValue(st: State, pendingMode: Option<OperatingMode>, pendingReset: Option<ResetScope>)

  /** i16 `abs` leaves i16::MIN negative; the controller puts its limits in order. */
  function NewState(cfg: Config): State {
    var lim := if cfg.effortLimit < 0 then Wrap16(-cfg.effortLimit) else cfg.effortLimit;
    State(false, Position, 0, 0, 0, Frame(false, None), 0, SAFE, Disengaged,
          NewAutoAntiWindup(true, true, cfg.kp, cfg.ki, cfg.kd, OnMeasurement, -lim, lim), 0)
  }

  // ---------------------------------------------------------------------
  // The shadow table
  // ---------------------------------------------------------------------

  const DXL_TORQUE_ENABLE: nat := 64
  const DXL_GOAL_PWM: nat := 100
  const DXL_GOAL_POSITION: nat := 116
  const GOAL_POS_CDEG: nat := 512
  const TORQUE_ENABLE: nat := 581
  const OPERATING_MODE: nat := 582
  const GOAL_PWM: nat := 583

  /** A byte table and its dirty addresses. */
  datatype ViewValue = ViewValue(bytes: seq<Byte>, dirty: set<nat>)

  predicate IsDirty(v: ViewValue, off: nat, len: nat) {
    off + len <= |v.bytes| && exists a | off <= a < off + len :: a in v.dirty
  }

  function ReadRange(v: ViewValue, off: nat, len: nat): (r: Option<seq<Byte>>)
    ensures r.Some? ==> |r.value| == len
  {
    if off + len <= |v.bytes| then Some(v.bytes[off..off + len]) else None
  }

  function PulsesToCdeg(pulses: int): int {
    TruncDiv(Wrap32(Wrap32(pulses * 88) + (if pulses >= 0 then 5 else -5)), 10)
  }

  function ByteOf(r: Option<seq<Byte>>): Option<Byte>
    requires r.Some? ==> |r.value| == 1
  {
    if r.Some? then Some(r.value[0]) else None
  }

  /** Phase 1: a dirty mode register holds a mode, holds rubbish, or is clean. */
  datatype ModeField = Clean | Requested(mode: OperatingMode) | Invalid

  function ModeOf(v: ViewValue): ModeField {
    if !IsDirty(v, OPERATING_MODE, 1) then Clean
    else
      match ByteOf(ReadRange(v, OPERATING_MODE, 1))
      case None => Clean
      case Some(b) => if b == 0 then Requested(Position) else if b == 1 then Requested(OpenLoop) else Invalid
  }

  /** Phase 2: the facade register wins over the vendor one. */
  function EngagedOf(v: ViewValue): Option<bool> {
    var at := if IsDirty(v, DXL_TORQUE_ENABLE, 1) then DXL_TORQUE_ENABLE else TORQUE_ENABLE;
    if !IsDirty(v, at, 1) then None
    else match ReadRange(v, at, 1) case None => None case Some(b) => Some(b[0] != 0)
  }

  function GoalPosOf(v: ViewValue): Option<int> {
    if IsDirty(v, DXL_GOAL_POSITION, 4) then
      match ReadRange(v, DXL_GOAL_POSITION, 4) case None => None case Some(b) => Some(PulsesToCdeg(Signed32(b)))
    else if IsDirty(v, GOAL_POS_CDEG, 4) then
      match ReadRange(v, GOAL_POS_CDEG, 4) case None => None case Some(b) => Some(Signed32(b))
    else None
  }

  function EffortOf(v: ViewValue): Option<int> {
    var at := if IsDirty(v, DXL_GOAL_PWM, 2) then DXL_GOAL_PWM else GOAL_PWM;
    if !IsDirty(v, at, 2) then None
    else match ReadRange(v, at, 2) case None => None case Some(b) => Some(Signed16(b))
  }

  // ---------------------------------------------------------------------
  // What each entry point computes
  // ---------------------------------------------------------------------

  function Gate(st: State): GateReason {
    if !st.engaged then Disengaged
    else if !st.frame.driverOk then DriverNotOk
    else if st.faults != 0 then Faulted
    else GateOk
  }

  function FastTick(cfg: Config, st: State, dt: int): (State, MotorCommand) {
    var gate := Gate(st);
    if gate != GateOk then (st.(lastGate := gate, lastCmd := SAFE), SAFE)
    else
      var stepped := if st.mode.Position? then Step(st.pid, st.posSp, st.pos) else (st.pid, 0);
      var effort := if st.mode.Position? then Clamp(stepped.1, I16_MIN, I16_MAX) else st.openLoopEffort;
      var near := Abs32(Wrap32(st.posSp - st.pos)) <= cfg.holdDeadband;
      var cmd := if near then MotorCommand(true, Coast, 0) else MotorCommand(true, Drive, effort);
      (st.(lastGate := gate, lastCmd := cmd, pid := stepped.0,
           lastDt := if st.mode.Position? then dt else st.lastDt), cmd)
  }

  function SystemTick(k: KernelValue): KernelValue {
    var st := if k.pendingReset.Some? then k.st.(pid := Reset(k.st.pid)) else k.st;
    if k.pendingMode.Some? && !st.engaged then
      KernelValue(st.(mode := k.pendingMode.value, pid := Reset(st.pid)), None, None)
    else KernelValue(st, k.pendingMode, None)
  }

  /** Bits of the fault mask. */
  const FAULT_BITS: nat := 32

  function Cleared(faults: nat, id: nat): nat
    requires id < FAULT_BITS
  {
    Bits.PowBelow(id, FAULT_BITS);
    Bits.And(faults, Bits.Not(Bits.Pow2(id), FAULT_BITS))
  }

  function Apply(k: KernelValue, op: KernelOp): (KernelValue, KernelResult) {
    match op
    case ModeRequest(mode) =>
      if k.st.engaged then (k, ResultBusy) else (k.(pendingMode := Some(mode)), ResultOk)
    case FaultAck(id) =>
      if id < FAULT_BITS then (k.(st := k.st.(faults := Cleared(k.st.faults, id))), ResultOk) else (k, FaultAckRefused)
    case FaultAckAll => (k.(st := k.st.(faults := 0)), ResultOk)
    case CommitShadowOp => (k, ResultOk)
    case SoftReset(scope) => (k.(pendingReset := Some(scope)), ResultOk)
    case Ping => (k, ResultOk)
  }

  function Commit(k: KernelValue, v: ViewValue): (KernelValue, ViewValue, CommitResult) {
    if v.dirty == {} then (k, v, NothingToCommit)
    else if ModeOf(v).Invalid? then (k, v, ValidationError(OPERATING_MODE))
    else
      var engaged := match EngagedOf(v) case None => k.st.engaged case Some(b) => b;
      var st := k.st.(
        engaged := engaged,
        pid := if k.st.engaged && !engaged then Reset(k.st.pid) else k.st.pid,
        posSp := match GoalPosOf(v) case None => k.st.posSp case Some(p) => p,
        openLoopEffort := match EffortOf(v) case None => k.st.openLoopEffort case Some(e) => e);
      (k.(st := st, pendingMode := if ModeOf(v).Requested? then Some(ModeOf(v).mode) else k.pendingMode),
       v.(dirty := {}), Committed)
  }

  // ---------------------------------------------------------------------
  // The kernel object
  // ---------------------------------------------------------------------

  class View {
    var bytes: seq<Byte>
    var dirty: set<nat>

    function Value(): ViewValue reads this { ViewValue(bytes, dirty) }
  }

  class ServoKernel {
    const cfg: Config
    var st: State
    var pendingMode: Option<OperatingMode>
    var pendingReset: Option<ResetScope>

    ghost function Value(): KernelValue reads this { KernelValue(st, pendingMode, pendingReset) }

    constructor (cfg: Config)
      ensures this.cfg == cfg && Value() == Booted(cfg)
    {
      this.cfg, st, pendingMode, pendingReset := cfg, NewState(cfg), None, None;
    }

    method UpdateFrame(frame: Frame)
      modifies this`st
      ensures st == old(st).(frame := frame, pos := if frame.pos.Some? then frame.pos.value else old(st.pos))
    {
      st := st.(frame := frame);
      if frame.pos.Some? {
        st := st.(pos := frame.pos.value);
      }
    }

    method TickFast(dt: int) returns (cmd: MotorCommand)
      modifies this`st
      ensures (st, cmd) == FastTick(cfg, old(st), dt)
    {
      var gate := Gate(st);
      st := st.(lastGate := gate);
      if gate != GateOk {
        cmd := SAFE;
        st := st.(lastCmd := cmd);
        return;
      }
      var effort;
      match st.mode {
        case OpenLoop => effort := st.openLoopEffort;
        case Position => effort := PositionPid(dt);
      }
      var posErr := Wrap32(st.posSp - st.pos);
      var near := Abs32(posErr) <= cfg.holdDeadband;
      cmd := if near then MotorCommand(true, Coast, 0) else MotorCommand(true, Drive, effort);
      st := st.(lastCmd := cmd);
    }

    method PositionPid(dt: int) returns (effort: int)
      modifies this`st
      ensures st == old(st).(lastDt := dt, pid := Step(old(st.pid), old(st.posSp), old(st.pos)).0)
      ensures effort == Clamp(Step(old(st.pid), old(st.posSp), old(st.pos)).1, I16_MIN, I16_MAX)
    {
      st := st.(lastDt := dt);
      var stepped := Step(st.pid, st.posSp, st.pos);
      st := st.(pid := stepped.0);
      effort := Clamp(stepped.1, I16_MIN, I16_MAX);
    }

    method TickSystem()
      modifies this
      ensures Value() == SystemTick(old(Value()))
    {
      if pendingReset.Some? {
        pendingReset := None;
        st := st.(pid := Reset(st.pid));
      }
      if pendingMode.Some? {
        var m := pendingMode.value;
        pendingMode := None;
        if st.engaged {
          pendingMode := Some(m);
        } else {
          st := st.(mode := m);
          st := st.(pid := Reset(st.pid));
        }
      }
    }

    method ApplyOp(op: KernelOp) returns (result: KernelResult)
      modifies this
      ensures (Value(), result) == Apply(old(Value()), op)
    {
      match op {
        case ModeRequest(mode) =>
          if st.engaged {
            return ResultBusy;
          }
          pendingMode := Some(mode);
          return ResultOk;
        case FaultAck(id) =>
          if id >= FAULT_BITS {
            return FaultAckRefused;
          }
          st := st.(faults := Cleared(st.faults, id));
          return ResultOk;
        case FaultAckAll =>
          st := st.(faults := 0);
          return ResultOk;
        case CommitShadowOp => return ResultOk;
        case SoftReset(scope) =>
          pendingReset := Some(scope);
          return ResultOk;
        case Ping => return ResultOk;
      }
    }

    method CommitShadow(view: View) returns (result: CommitResult)
      modifies this, view`dirty
      ensures (Value(), view.Value(), result) == Commit(old(Value()), old(view.Value()))
    {
      if view.dirty == {} {
        return NothingToCommit;
      }
      var v := view.Value();
      var mode := ModeOf(v);
      if mode.Invalid? {
        return ValidationError(OPERATING_MODE);
      }
      var newEngaged := EngagedOf(v);
      var newGoalPos := GoalPosOf(v);
      var newEffort := EffortOf(v);
      if newEngaged.Some? {
        if st.engaged && !newEngaged.value {
          st := st.(pid := Reset(st.pid));
        }
        st := st.(engaged := newEngaged.value);
      }
      if mode.Requested? {
        pendingMode := Some(mode.mode);
      }
      if newGoalPos.Some? {
        st := st.(posSp := newGoalPos.value);
      }
      if newEffort.Some? {
        st := st.(openLoopEffort := newEffort.value);
      }
      view.dirty := {};
      return Committed;
    }
  }

  // ---------------------------------------------------------------------
  // Every run
  // ---------------------------------------------------------------------

  /** Everything that can reach the kernel; `Latch` is the fault source raising bits. */
  datatype Event =
    | NewFrame(frame: Frame) | Tick(domain: TickDomain, dt: int) | Op(op: KernelOp)
    | Shadow(view: ViewValue) | Latch(bits: nat)

  function After(cfg: Config, k: KernelValue, e: Event): KernelValue {
    match e
    case NewFrame(f) => k.(st := k.st.(frame := f, pos := if f.pos.Some? then f.pos.value else k.st.pos))
    case Tick(domain, dt) =>
      if domain.ControlFast? then k.(st := FastTick(cfg, k.st, dt).0) else if domain.System? then SystemTick(k) else k
    case Op(op) => Apply(k, op).0
    case Shadow(view) => Commit(k, view).0
    case Latch(bits) => k.(st := k.st.(faults := Bits.Or(k.st.faults, bits)))
  }

  function RunOn(cfg: Config, k: KernelValue, events: seq<Event>): KernelValue
    decreases |events|
  {
    if events == [] then k else RunOn(cfg, After(cfg, k, events[0]), events[1..])
  }

  function Booted(cfg: Config): KernelValue {
    KernelValue(NewState(cfg), None, None)
  }

  /** A fast tick enables the driver exactly when the servo is engaged, the driver
      is ok and no fault is latched; otherwise the command is the safe one, the controller
      does not step, and the reason kept is the first of those that fails. */
  lemma FastTickIsGated(cfg: Config, st: State, dt: int)
    ensures var (st', cmd) := FastTick(cfg, st, dt);
      && (cmd.driverEn <==> st.engaged && st.frame.driverOk && st.faults == 0)
      && (!cmd.driverEn ==> cmd == MotorCommand(false, Coast, 0) == st'.lastCmd && st'.pid == st.pid)
      && (st'.lastGate == GateOk <==> cmd.driverEn)
      && (st'.lastGate == Disengaged <==> !st.engaged)
      && (st'.lastGate == DriverNotOk <==> st.engaged && !st.frame.driverOk)
  {
  }

  /** An enabled driver coasts without effort inside the hold deadband and otherwise
      drives with the effort of the mode in force.  A gap of 2^31 or more wraps: it is
      taken for its distance to 2^32, and 2^31 itself always coasts. */
  lemma CoastsNearSetpoint(cfg: Config, st: State, dt: int)
    requires Gate(st) == GateOk && IsI32(st.posSp) && IsI32(st.pos) && IsI32(cfg.holdDeadband)
    ensures var (st', cmd) := FastTick(cfg, st, dt);
      var gap := if st.posSp >= st.pos then st.posSp - st.pos else st.pos - st.posSp;
      && (cmd.drive.Coast? <==>
            if gap <= I32_MAX then gap <= cfg.holdDeadband
            else gap == I32_MAX + 1 || I32_SPAN - gap <= cfg.holdDeadband)
      && (cmd.drive.Coast? ==> cmd.effort == 0)
      && (cmd.drive.Drive? && st.mode.OpenLoop? ==> cmd.effort == st.openLoopEffort && st'.pid == st.pid)
      && (st.mode.Position? && I16_MIN <= st.pid.outMin <= st.pid.outMax <= I16_MAX ==>
            (st'.pid, if cmd.drive.Drive? then cmd.effort else Step(st.pid, st.posSp, st.pos).1)
              == Step(st.pid, st.posSp, st.pos))
      && st'.lastCmd == cmd
  {
    GapWraps(st.posSp, st.pos);
  }

  lemma GapWraps(sp: int, pos: int)
    requires IsI32(sp) && IsI32(pos)
    ensures var gap := if sp >= pos then sp - pos else pos - sp;
      Abs32(Wrap32(sp - pos)) == if gap <= I32_MAX then gap else if gap == I32_MAX + 1 then I32_MIN else I32_SPAN - gap
  {
  }

  ghost predicate Limited(cfg: Config, k: KernelValue) {
    var lim := if cfg.effortLimit < 0 then -cfg.effortLimit else cfg.effortLimit;
    k.st.pid.outMin == -lim && k.st.pid.outMax == lim && k.st.pid.hasI
    && k.st.pid.integMin == -256 * lim && k.st.pid.integMax == 256 * lim
    && -256 * lim <= k.st.pid.integ <= 256 * lim
  }

  lemma AfterLimited(cfg: Config, k: KernelValue, e: Event)
    requires Limited(cfg, k)
    ensures Limited(cfg, After(cfg, k, e))
  {
    if e.Tick? && e.domain.ControlFast? {
      OutputAlwaysClamped(k.st.pid, k.st.posSp, k.st.pos);
    }
  }

  lemma {:induction false} RunLimited(cfg: Config, k: KernelValue, events: seq<Event>)
    requires Limited(cfg, k)
    ensures Limited(cfg, RunOn(cfg, k, events))
    decreases |events|
  {
    if events != [] {
      AfterLimited(cfg, k, events[0]);
      RunLimited(cfg, After(cfg, k, events[0]), events[1..]);
    }
  }

  /** In every run from boot, whatever setpoints, positions and overflows occur, a
      fast tick in position mode commands at most the configured effort. */
  lemma EffortStaysLimited(cfg: Config, events: seq<Event>, dt: int)
    requires IsI16(cfg.effortLimit)
    ensures var k := RunOn(cfg, Booted(cfg), events);
      var lim := if cfg.effortLimit < 0 then -cfg.effortLimit else cfg.effortLimit;
      k.st.mode.Position? ==> -lim <= FastTick(cfg, k.st, dt).1.effort <= lim
  {
    BootLimited(cfg);
    RunLimited(cfg, Booted(cfg), events);
    var k := RunOn(cfg, Booted(cfg), events);
    if k.st.mode.Position? {
      LimitedEffort(cfg, k, dt);
    }
  }

  lemma BootLimited(cfg: Config)
    requires IsI16(cfg.effortLimit)
    ensures Limited(cfg, Booted(cfg))
  {
  }

  lemma LimitedEffort(cfg: Config, k: KernelValue, dt: int)
    requires IsI16(cfg.effortLimit) && Limited(cfg, k) && k.st.mode.Position?
    ensures var lim := if cfg.effortLimit < 0 then -cfg.effortLimit else cfg.effortLimit;
      -lim <= FastTick(cfg, k.st, dt).1.effort <= lim
  {
    OutputAlwaysClamped(k.st.pid, k.st.posSp, k.st.pos);
  }

  /** The mode changes only at a System tick, only while disengaged, only to the
      pending mode, and always with the controller reset. */
  lemma ModeChangesOnlyAtSystemTick(cfg: Config, k: KernelValue, e: Event)
    requires After(cfg, k, e).st.mode != k.st.mode
    ensures e.Tick? && e.domain.System? && !k.st.engaged
    ensures k.pendingMode == Some(After(cfg, k, e).st.mode)
    ensures After(cfg, k, e).st.pid == k.st.pid.(integ := 0, prevError := 0, prevMeas := 0)
  {
  }

  /** A rejected commit changes neither the kernel nor the dirty bits, and a commit
      is rejected exactly when a dirty mode register holds no mode. */
  lemma CommitIsAllOrNothing(k: KernelValue, v: ViewValue)
    ensures var (k', v', r) := Commit(k, v);
      && (r != Committed ==> k' == k && v' == v)
      && (r == Committed ==> v' == v.(dirty := {}))
      && (r.ValidationError? <==>
            IsDirty(v, OPERATING_MODE, 1) && v.bytes[OPERATING_MODE] > 1)
  {
    if IsDirty(v, OPERATING_MODE, 1) {
      assert ReadRange(v, OPERATING_MODE, 1).value[0] == v.bytes[OPERATING_MODE];
    }
  }

  // ---------------------------------------------------------------------
  // Conversions, resets and acknowledgements
  // ---------------------------------------------------------------------

  /** 4096 pulses a turn: the conversion rounds 8.8 centidegrees a pulse to nearest if
      and only if the i32 product does not overflow, within about 5957 turns. */
  lemma PulsesRound(pulses: int)
    ensures -5 <= 10 * PulsesToCdeg(pulses) - 88 * pulses <= 5
       <==> IsI32(88 * pulses + (if pulses >= 0 then 5 else -5))
  {
    var sign := if pulses >= 0 then 5 else -5;
    var w := Wrap32(pulses * 88);
    var r := Wrap32(w + sign);
    var j := WrapTurns(pulses * 88, 0x8000_0000);
    var k := WrapTurns(w + sign, 0x8000_0000);
    assert pulses * 88 + sign == r + (j + k) * I32_SPAN;
    assert -9 <= r - 10 * TruncDiv(r, 10) <= 9;
  }

  /** A commit that disengages the servo resets its controller; one that does not
      leaves the controller alone. */
  lemma DisengageResets(k: KernelValue, v: ViewValue)
    ensures var n := Commit(k, v).0;
      n.st.pid == if k.st.engaged && !n.st.engaged then k.st.pid.(integ := 0, prevError := 0, prevMeas := 0)
                  else k.st.pid
  {
  }

  /** An acknowledge clears the bit it names and no other, and nothing else changes; an
      id of 32 or more is refused. */
  lemma AcknowledgeClears(k: KernelValue, id: nat, i: nat)
    requires i < 32
    ensures var (n, r) := Apply(k, FaultAck(id));
      && (r == ResultOk <==> id < 32) && (r != ResultOk ==> r == FaultAckRefused && n == k)
      && (Bits.Bit(n.st.faults, i) <==> Bits.Bit(k.st.faults, i) && i != id)
      && n == k.(st := k.st.(faults := n.st.faults))
  {
    if id < FAULT_BITS {
      Bits.PowBelow(id, FAULT_BITS);
      var mask := Bits.Not(Bits.Pow2(id), FAULT_BITS);
      Bits.BitAnd(k.st.faults, mask, i);
      Bits.BitNot(Bits.Pow2(id), FAULT_BITS, i);
      Bits.BitPow(id, i);
    }
  }

  /** Acknowledging all clears every bit; a latch sets the bits it names and clears none. */
  lemma LatchThenAcknowledge(cfg: Config, k: KernelValue, bits: nat, i: nat)
    ensures Bits.Bit(After(cfg, k, Latch(bits)).st.faults, i) <==> Bits.Bit(k.st.faults, i) || Bits.Bit(bits, i)
    ensures var (n, r) := Apply(k, FaultAckAll);
      r == ResultOk && !Bits.Bit(n.st.faults, i) && n == k.(st := k.st.(faults := 0))
  {
    Bits.BitOr(k.st.faults, bits, i);
    Bits.BitZero(i);
  }

  ghost predicate NoSystemTick(events: seq<Event>) {
    forall i :: 0 <= i < |events| ==> !(events[i].Tick? && events[i].domain.System?)
  }

  lemma {:induction false} ResetWaits(cfg: Config, k: KernelValue, events: seq<Event>)
    requires NoSystemTick(events)
    ensures k.pendingReset.Some? ==> RunOn(cfg, k, events).pendingReset.Some?
    decreases |events|
  {
    if events != [] {
      ResetWaits(cfg, After(cfg, k, events[0]), events[1..]);
    }
  }

  /** An accepted soft reset waits through any run without a System tick, and the next
      System tick clears the controller's history. */
  lemma SoftResetServed(cfg: Config, k: KernelValue, scope: ResetScope, events: seq<Event>, dt: int)
    requires NoSystemTick(events)
    ensures Apply(k, SoftReset(scope)).1 == ResultOk
    ensures var was := RunOn(cfg, Apply(k, SoftReset(scope)).0, events);
      var n := After(cfg, was, Tick(System, dt));
      n.pendingReset == None && n.st.pid == was.st.pid.(integ := 0, prevError := 0, prevMeas := 0)
  {
    ResetWaits(cfg, Apply(k, SoftReset(scope)).0, events);
  }

  // ---------------------------------------------------------------------
  // A mode request survives until it can be served
  // ---------------------------------------------------------------------

  /** The event asks for a mode, and is accepted. */
  predicate Requests(k: KernelValue, e: Event) {
    || (e.Op? && e.op.ModeRequest? && !k.st.engaged)
    || (e.Shadow? && ModeOf(e.view).Requested?)
  }

  predicate Serves(k: KernelValue, e: Event) {
    e.Tick? && e.domain.System? && !k.st.engaged
  }

  predicate Superseded(cfg: Config, k: KernelValue, events: seq<Event>)
    decreases |events|
  {
    events != [] && (Requests(k, events[0]) || Superseded(cfg, After(cfg, k, events[0]), events[1..]))
  }

  predicate Served(cfg: Config, k: KernelValue, events: seq<Event>)
    decreases |events|
  {
    events != [] && (Serves(k, events[0]) || Served(cfg, After(cfg, k, events[0]), events[1..]))
  }

  lemma {:induction false} SettledModeStays(cfg: Config, k: KernelValue, events: seq<Event>)
    requires k.pendingMode == None && !Superseded(cfg, k, events)
    ensures RunOn(cfg, k, events).st.mode == k.st.mode && RunOn(cfg, k, events).pendingMode == None
    decreases |events|
  {
    if events != [] {
      SettledModeStays(cfg, After(cfg, k, events[0]), events[1..]);
    }
  }

  /** A pending mode request is neither lost nor early: unless another request
      replaces it, it waits, and the first System tick that finds the servo
      disengaged puts it in force for good. */
  lemma {:induction false} PendingModeSurvives(cfg: Config, k: KernelValue, events: seq<Event>)
    requires k.pendingMode.Some? && !Superseded(cfg, k, events)
    ensures var end := RunOn(cfg, k, events);
      if Served(cfg, k, events) then end.st.mode == k.pendingMode.value && end.pendingMode == None
      else end.st.mode == k.st.mode && end.pendingMode == k.pendingMode
    decreases |events|
  {
    if events != [] {
      var n := After(cfg, k, events[0]);
      if Serves(k, events[0]) {
        SettledModeStays(cfg, n, events[1..]);
      } else {
        PendingModeSurvives(cfg, n, events[1..]);
      }
    }
  }

  /** A mode request is refused while engaged; otherwise, unless another one replaces it, the
      first System tick that finds the servo disengaged puts it in force. */
  lemma RequestedModeIsServed(cfg: Config, k: KernelValue, mode: OperatingMode, events: seq<Event>)
    ensures k.st.engaged ==> Apply(k, ModeRequest(mode)) == (k, ResultBusy)
    ensures !k.st.engaged ==>
      var (n, r) := Apply(k, ModeRequest(mode));
      && r == ResultOk && n == k.(pendingMode := Some(mode))
      && (!Superseded(cfg, n, events) && Served(cfg, n, events) ==> RunOn(cfg, n, events).st.mode == mode)
  {
    var n := Apply(k, ModeRequest(mode)).0;
    if !k.st.engaged && !Superseded(cfg, n, events) {
      PendingModeSurvives(cfg, n, events);
    }
  }
}
