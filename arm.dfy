/** The arm controller of the closed loop: once per loop step it records the error, resets the
    arm between trials, turns motor-cell spikes into four motor commands, moves the dummy arm or
    takes the musculoskeletal plant's reply, drives the proprioceptive cells from the joint angles
    and measures the distance from hand to target. */
module ArmControl {
  import opened ArmMath
  import SpikeRows

  datatype ArmKind = DummyArm | Musculoskeletal

  /** The simulation parameters the controller reads. */
  datatype ArmConfig = ArmConfig(
    kind: ArmKind,
    interval: real,          // loopstep, ms between arm updates
    RLinterval: real,        // ms between critic updates
    minRLerror: real,
    armLen: Joints,
    startAng: Joints,
    initArmMovement: real,   // ms before the arm may move
    cmdMaxRate: real,        // normalising value of the motor commands
    cmdTimeWin: real,        // spike window of a motor command, ms
    antagInh: real,          // antagonist inhibition gain, 0 = off
    pStart: int,             // gid of the first proprioceptive cell
    numPcells: int,
    minPval: real,
    maxPval: real,
    minPrate: real,
    maxPrate: real,
    trialReset: bool,
    testTime: real,          // ms per trial
    trialTargets: seq<int>)  // target id of every trial

  /** What setup needs to run to completion: a positive step, an even number of proprioceptive
      cells other than 2 (the range width divides by numPcells - 2 and cells come in pairs) and a
      non-zero normalising rate. */
  predicate ValidConfig(cfg: ArmConfig)
  {
    cfg.interval > 0.0 && cfg.numPcells >= 0 && cfg.numPcells != 2 && cfg.numPcells % 2 == 0 &&
    cfg.cmdMaxRate > 0.0
  }

  /** The reply of the plant to one command: the call raised, or it returned a list. */
  datatype PlantReply = Raised | Returned(vals: seq<real>)

  /** The reply arminterface produces once the packet budget is spent. */
  const SENTINEL: seq<real> := [-3.0, -3.0]

  /** The plant fallback as the controller writes it: a raised call, an empty reply or the reply
      [-3, 3] is replaced by the current angles; any other returned list comes through. */
  function PlantFallbackAsWritten(reply: PlantReply, ang: Joints): (r: seq<real>)
    ensures reply.Returned? && reply.vals != [] && reply.vals != [-3.0, 3.0] ==> r == reply.vals
    ensures reply.Raised? || reply.vals == [] || reply.vals == [-3.0, 3.0] ==> r == [ang.sh, ang.el]
  {
    match reply
    case Raised => [ang.sh, ang.el]
    case Returned(v) => if v == [] || v == [-3.0, 3.0] then [ang.sh, ang.el] else v
  }

  /** The plant fallback as intended: a raised call, an empty reply or the sentinel [-3, -3] is
      replaced by the current angles, so the sentinel never reaches the joints; any other
      returned list comes through. */
  function PlantFallback(reply: PlantReply, ang: Joints): (r: seq<real>)
    ensures reply.Returned? && reply.vals != [] && reply.vals != SENTINEL ==> r == reply.vals
    ensures reply.Raised? || reply.vals == [] || reply.vals == SENTINEL ==> r == [ang.sh, ang.el]
    ensures r != SENTINEL || ang == Joints(-3.0, -3.0)
  {
    match reply
    case Raised => [ang.sh, ang.el]
    case Returned(v) => if v == [] || v == SENTINEL then [ang.sh, ang.el] else v
  }

  /** The two fallbacks differ only on the replies [-3, 3] and [-3, -3]. */
  lemma FallbacksAgree(reply: PlantReply, ang: Joints)
    requires reply != Returned([-3.0, 3.0]) && reply != Returned(SENTINEL)
    ensures PlantFallbackAsWritten(reply, ang) == PlantFallback(reply, ang)
  {
  }

  /** The comparison with [-3, 3] lets the sentinel through: the arm would jump to -3 rad at both
      joints, while the intended fallback keeps the current angles. */
  lemma SentinelPassesFallback(ang: Joints)
    requires ang != Joints(-3.0, -3.0)
    ensures PlantFallbackAsWritten(Returned(SENTINEL), ang) == SENTINEL
    ensures PlantFallback(Returned(SENTINEL), ang) == [ang.sh, ang.el] != SENTINEL
  {
  }

  /** The mask x[(x < t) * (x > t - win)] of a command window. */
  function InWindow(t: real, win: real): real -> bool
  {
    (tm: real) => tm < t && tm > t - win
  }

  /** The spikes of one motor cell inside the open window (t - win, t). */
  function SpikesInWindow(x: seq<real>, t: real, win: real): (n: nat)
    ensures n <= |x|
  {
    |SpikeRows.Filter(x, InWindow(t, win))|
  }

  /** A single spike counts exactly when it lies inside the window. */
  lemma SpikesInWindowOne(tm: real, t: real, win: real)
    ensures SpikesInWindow([tm], t, win) == if t - win < tm < t then 1 else 0
  {
    assert [tm][1..] == [];
  }

  /** Window counts add up over concatenated spike trains. */
  lemma SpikesInWindowAppend(a: seq<real>, b: seq<real>, t: real, win: real)
    ensures SpikesInWindow(a + b, t, win) == SpikesInWindow(a, t, win) + SpikesInWindow(b, t, win)
  {
    SpikeRows.FilterAppend(a, b, InWindow(t, win));
  }

  /** An empty or negative window holds no spike. */
  lemma {:induction false} EmptyWindow(x: seq<real>, t: real, win: real)
    ensures win <= 0.0 ==> SpikesInWindow(x, t, win) == 0
  {
    var inWin := InWindow(t, win);
    SpikeRows.FilterCount(x, inWin);
    if win <= 0.0 && SpikeRows.Filter(x, inWin) != [] {
      assert SpikeRows.Filter(x, inWin)[0] in SpikeRows.Filter(x, inWin);
    }
  }

  /** The motor command of one muscle group before normalisation: the spikes of all its cells
      inside the command window. */
  function MotorCount(cmdVecs: seq<seq<real>>, t: real, win: real): (n: nat)
    ensures win <= 0.0 ==> n == 0
  {
    if cmdVecs == [] then 0
    else
      EmptyWindow(cmdVecs[|cmdVecs| - 1], t, win);
      MotorCount(cmdVecs[..|cmdVecs| - 1], t, win) + SpikesInWindow(cmdVecs[|cmdVecs| - 1], t, win)
  }

  /** The spike trains of a group's cells, one after the other. */
  function Flatten(cmdVecs: seq<seq<real>>): seq<real>
  {
    if cmdVecs == [] then [] else Flatten(cmdVecs[..|cmdVecs| - 1]) + cmdVecs[|cmdVecs| - 1]
  }

  /** The count of a group is the number of its spikes, over all its cells, that lie in the
      command window; so it never exceeds the group's recorded spikes. */
  lemma {:induction false} MotorCountIsGroupWindow(cmdVecs: seq<seq<real>>, t: real, win: real)
    ensures MotorCount(cmdVecs, t, win) == SpikesInWindow(Flatten(cmdVecs), t, win)
    ensures MotorCount(cmdVecs, t, win) <= |Flatten(cmdVecs)|
    decreases |cmdVecs|
  {
    if cmdVecs != [] {
      var init := cmdVecs[..|cmdVecs| - 1];
      MotorCountIsGroupWindow(init, t, win);
      SpikesInWindowAppend(Flatten(init), cmdVecs[|cmdVecs| - 1], t, win);
    }
  }

  /** The four motor counts, as reals. */
  function MotorCounts(cmdVecs: seq<seq<seq<real>>>, t: real, win: real): (r: seq<real>)
    ensures |r| == |cmdVecs|
    ensures forall i :: 0 <= i < |r| ==> r[i] >= 0.0
  {
    seq(|cmdVecs|, i requires 0 <= i < |cmdVecs| => MotorCount(cmdVecs[i], t, win) as real)
  }

  /** The firing interval that proprioceptive cell pStart + c is given for joint angles ang: the
      shoulder angle for even c, the elbow angle for odd c, against the range of c. */
  function ProprioInterval(cfg: ArmConfig, ang: Joints, c: int): Option<real>
    requires cfg.numPcells != 2
  {
    var a := if c % 2 == 0 then ang.sh else ang.el;
    var lo := RangeLow(cfg.minPval, cfg.maxPval, cfg.numPcells, c);
    CellInterval(a, lo, lo + AngInterval(cfg.minPval, cfg.maxPval, cfg.numPcells), cfg.minPrate, cfg.maxPrate)
  }

  /** Proprioceptive cell gid has a local cell (index below len) and gets a new interval. */
  predicate Driven(cfg: ArmConfig, ang: Joints, gidDic: map<int, nat>, gid: int, len: int)
    requires cfg.numPcells != 2
  {
    gid in gidDic && cfg.pStart <= gid < cfg.pStart + cfg.numPcells && gidDic[gid] < len &&
    ProprioInterval(cfg, ang, gid - cfg.pStart).Some?
  }

  /** gidDic maps different gids to different local cells. */
  predicate Injective(gidDic: map<int, nat>)
  {
    forall g1, g2 :: g1 in gidDic && g2 in gidDic && g1 != g2 ==> gidDic[g1] != gidDic[g2]
  }

  /** The drive loop has handled the cells below c: their local cells hold the new intervals,
      every other local cell its old value. */
  ghost predicate DriveProgress(cfg: ArmConfig, ang: Joints, gidDic: map<int, nat>, a: seq<real>, a0: seq<real>, c: int)
    requires cfg.numPcells != 2
  {
    |a| == |a0| &&
    (forall gid :: Driven(cfg, ang, gidDic, gid, |a|) && gid < cfg.pStart + c ==>
       a[gidDic[gid]] == ProprioInterval(cfg, ang, gid - cfg.pStart).value) &&
    (forall i :: 0 <= i < |a| && (forall gid :: Driven(cfg, ang, gidDic, gid, |a|) && gid < cfg.pStart + c ==> gidDic[gid] != i) ==>
       a[i] == a0[i])
  }

  lemma DriveProgressStep(cfg: ArmConfig, ang: Joints, gidDic: map<int, nat>, a: seq<real>, a0: seq<real>, b: seq<real>, c: int)
    requires cfg.numPcells != 2 && Injective(gidDic) && 0 <= c
    requires DriveProgress(cfg, ang, gidDic, a, a0, c)
    requires var gid := cfg.pStart + c;
             b == if Driven(cfg, ang, gidDic, gid, |a|) then a[gidDic[gid] := ProprioInterval(cfg, ang, c).value] else a
    ensures DriveProgress(cfg, ang, gidDic, b, a0, c + 1)
  {
  }

  lemma DriveProgressDone(cfg: ArmConfig, ang: Joints, gidDic: map<int, nat>, a: seq<real>, a0: seq<real>)
    requires cfg.numPcells != 2 && DriveProgress(cfg, ang, gidDic, a, a0, cfg.numPcells)
    ensures forall gid :: Driven(cfg, ang, gidDic, gid, |a|) ==> a[gidDic[gid]] == ProprioInterval(cfg, ang, gid - cfg.pStart).value
    ensures forall i :: (0 <= i < |a| && forall gid :: Driven(cfg, ang, gidDic, gid, |a|) ==> gidDic[gid] != i) ==> a[i] == a0[i]
  {
  }

  /** Fills the tuning table: row c holds [RangeLow(c), RangeLow(c) + width). */
  method SetupRanges(cfg: ArmConfig) returns (prange: array2<real>)
    requires ValidConfig(cfg)
    ensures fresh(prange)
    ensures prange.Length0 == cfg.numPcells && prange.Length1 == 2
    ensures RangesFilled(cfg, prange)
  {
    prange := new real[cfg.numPcells, 2];
    var w := AngInterval(cfg.minPval, cfg.maxPval, cfg.numPcells);
    var currentPval := cfg.minPval;
    var c := 0;
    while c < cfg.numPcells
      invariant 0 <= c <= cfg.numPcells && c % 2 == 0
      invariant currentPval == RangeLow(cfg.minPval, cfg.maxPval, cfg.numPcells, c)
      invariant forall k :: 0 <= k < c ==>
                  prange[k, 0] == RangeLow(cfg.minPval, cfg.maxPval, cfg.numPcells, k) &&
                  prange[k, 1] == RangeLow(cfg.minPval, cfg.maxPval, cfg.numPcells, k) + w
    {
      RangeLowStep(cfg.minPval, cfg.maxPval, cfg.numPcells, c);
      prange[c, 0] := currentPval;
      prange[c, 1] := currentPval + w;
      prange[c + 1, 0] := currentPval;
      prange[c + 1, 1] := currentPval + w;
      currentPval := currentPval + w;
      c := c + 2;
    }
  }

  ghost predicate RangesFilled(cfg: ArmConfig, prange: array2<real>)
    requires cfg.numPcells != 2
    reads prange
  {
    prange.Length0 == cfg.numPcells && prange.Length1 == 2 &&
    forall c :: 0 <= c < cfg.numPcells ==>
      prange[c, 0] == RangeLow(cfg.minPval, cfg.maxPval, cfg.numPcells, c) &&
      prange[c, 1] == RangeLow(cfg.minPval, cfg.maxPval, cfg.numPcells, c) + AngInterval(cfg.minPval, cfg.maxPval, cfg.numPcells)
  }

  class Arm {
    const cfg: ArmConfig
    const math: Math
    /** prange: the angle range encoded by each proprioceptive cell. */
    const prange: array2<real>

    var ang: Joints
    var angVel: Joints
    var handPos: Pos
    var motorCmd: seq<real>
    var error: real
    var critic: int
    var errorAll: seq<real>
    var trial: int
    var initArmMovement: real
    var timeOfLastReset: real
    var targetId: int
    var targetPos: Pos

    ghost predicate Valid()
      reads this, prange
    {
      ValidConfig(cfg) && RangesFilled(cfg, prange) && |motorCmd| == 4 && trial >= 0
    }

    /** setup: the arm at its start angles, at rest, with no command, error or critic, the target
        of the configured id, and the tuning table filled. */
    constructor (cfg: ArmConfig, math: Math, targetId: int, timeOfLastReset: real)
      requires ValidConfig(cfg) && 0 <= targetId <= 3
      ensures Valid() && fresh(prange)
      ensures this.cfg == cfg && this.math == math
      ensures ang == cfg.startAng && angVel == Joints(0.0, 0.0) && handPos == Pos(0.0, 0.0)
      ensures motorCmd == [0.0, 0.0, 0.0, 0.0] && error == 0.0 && critic == 0 && errorAll == []
      ensures trial == 0 && initArmMovement == Truncate(cfg.initArmMovement) as real
      ensures this.targetId == targetId && this.timeOfLastReset == timeOfLastReset
      ensures Some(targetPos) == SetTargetByID(math, targetId, cfg.startAng, cfg.armLen)
    {
      this.cfg := cfg;
      this.math := math;
      ang := cfg.startAng;
      angVel := Joints(0.0, 0.0);
      handPos := Pos(0.0, 0.0);
      motorCmd := [0.0, 0.0, 0.0, 0.0];
      error := 0.0;
      critic := 0;
      errorAll := [];
      trial := 0;
      initArmMovement := Truncate(cfg.initArmMovement) as real;
      this.timeOfLastReset := timeOfLastReset;
      this.targetId := targetId;
      targetPos := SetTargetByID(math, targetId, cfg.startAng, cfg.armLen).value;
      var p := SetupRanges(cfg);
      prange := p;
    }

    /** The history kept by run at every step: the error before this step. */
    method Record()
      requires Valid()
      modifies this`errorAll
      ensures Valid()
      ensures errorAll == old(errorAll) + [error]
    {
      errorAll := errorAll + [error];
    }

    /** resetArm: the next trial starts at t; the dummy arm goes back to its start angles at rest
        and the movement gate moves one trial length later. */
    method ResetArm(t: real)
      requires Valid()
      modifies this`trial, this`timeOfLastReset, this`ang, this`angVel, this`motorCmd, this`error,
               this`critic, this`initArmMovement
      ensures Valid()
      ensures trial == old(trial) + 1 && timeOfLastReset == t
      ensures cfg.kind == DummyArm ==>
                ang == cfg.startAng && angVel == Joints(0.0, 0.0) && motorCmd == [0.0, 0.0, 0.0, 0.0] &&
                error == 0.0 && critic == 0 && initArmMovement == old(initArmMovement) + cfg.testTime
      ensures cfg.kind != DummyArm ==>
                ang == old(ang) && angVel == old(angVel) && motorCmd == old(motorCmd) &&
                error == old(error) && critic == old(critic) && initArmMovement == old(initArmMovement)
    {
      trial := trial + 1;
      timeOfLastReset := t;
      if cfg.kind == DummyArm {
        ang := cfg.startAng;
        angVel := Joints(0.0, 0.0);
        motorCmd := [0.0, 0.0, 0.0, 0.0];
        error := 0.0;
        critic := 0;
        initArmMovement := initArmMovement + cfg.testTime;
      }
    }

    /** The trial reset of run: after more than testTime since the last reset, reset the arm and
        aim at the target of the new trial. ok is false where the source raises: the trial list is
        too short (IndexError) or the id is not 0..3 (the target is never assigned). */
    method MaybeReset(t: real) returns (ok: bool)
      requires Valid()
      modifies this`trial, this`timeOfLastReset, this`ang, this`angVel, this`motorCmd, this`error,
               this`critic, this`initArmMovement, this`targetId, this`targetPos
      ensures Valid()
      ensures !(cfg.trialReset && t - old(timeOfLastReset) > cfg.testTime) ==>
                ok && trial == old(trial) && timeOfLastReset == old(timeOfLastReset) &&
                targetId == old(targetId) && targetPos == old(targetPos) && ang == old(ang) &&
                angVel == old(angVel) && motorCmd == old(motorCmd) && error == old(error) &&
                critic == old(critic) && initArmMovement == old(initArmMovement)
      ensures cfg.trialReset && t - old(timeOfLastReset) > cfg.testTime && cfg.kind == DummyArm ==>
                ang == cfg.startAng && angVel == Joints(0.0, 0.0) && motorCmd == [0.0, 0.0, 0.0, 0.0] &&
                error == 0.0 && critic == 0 && initArmMovement == old(initArmMovement) + cfg.testTime
      ensures cfg.trialReset && t - old(timeOfLastReset) > cfg.testTime && cfg.kind != DummyArm ==>
                ang == old(ang) && angVel == old(angVel) && motorCmd == old(motorCmd) &&
                error == old(error) && critic == old(critic) && initArmMovement == old(initArmMovement)
      ensures cfg.trialReset && t - old(timeOfLastReset) > cfg.testTime ==>
                trial == old(trial) + 1 && timeOfLastReset == t &&
                (!(trial < |cfg.trialTargets|) ==> targetId == old(targetId) && targetPos == old(targetPos)) &&
                (trial < |cfg.trialTargets| && !ok ==> targetPos == old(targetPos)) &&
                (ok <==> trial < |cfg.trialTargets| && 0 <= cfg.trialTargets[trial] <= 3) &&
                (trial < |cfg.trialTargets| ==> targetId == cfg.trialTargets[trial]) &&
                (ok ==> Some(targetPos) == SetTargetByID(math, targetId, cfg.startAng, cfg.armLen))
    {
      ok := true;
      if cfg.trialReset && t - timeOfLastReset > cfg.testTime {
        ResetArm(t);
        if trial < |cfg.trialTargets| {
          targetId := cfg.trialTargets[trial];
          var target := SetTargetByID(math, targetId, cfg.startAng, cfg.armLen);
          if target.Some? {
            targetPos := target.value;
          } else {
            ok := false;
          }
        } else {
          ok := false;
        }
      }
    }

    /** The motor command of run: after the movement gate, the spike counts of the four muscle
        groups in the command window, normalised by cmdmaxrate and, when antagInh is non-zero,
        with antagonist inhibition; before the gate the command is kept. */
    method UpdateMotorCommand(t: real, cmdVecs: seq<seq<seq<real>>>)
      requires Valid() && |cmdVecs| == 4
      modifies this`motorCmd
      ensures Valid()
      ensures t > initArmMovement ==>
                motorCmd == Inhibit(Normalize(MotorCounts(cmdVecs, t, cfg.cmdTimeWin), cfg.cmdMaxRate), cfg.antagInh)
      ensures t <= initArmMovement ==> motorCmd == old(motorCmd)
    {
      if t > initArmMovement {
        var counts := MotorCounts(cmdVecs, t, cfg.cmdTimeWin);
        var cmd := Normalize(counts, cfg.cmdMaxRate);
        forall i | 0 <= i < 4 ensures cmd[i] >= 0.0 {
          DivFacts(counts[i], cfg.cmdMaxRate);
        }
        motorCmd := Inhibit(cmd, cfg.antagInh);
      }
    }

    /** RLcritic: the critic signal of time t from the latest error and the error history. */
    method RLCritic(t: real) returns (r: int)
      requires Valid()
      modifies this`critic
      ensures Valid()
      ensures critic == r == CriticSignal(t, initArmMovement, error, errorAll, cfg.RLinterval, cfg.interval, cfg.minRLerror)
    {
      critic := CriticSignal(t, initArmMovement, error, errorAll, cfg.RLinterval, cfg.interval, cfg.minRLerror);
      r := critic;
    }

    /** The dummy arm moves one step under the current motor command. */
    method RunDummyArm()
      requires Valid()
      modifies this`ang, this`angVel, this`handPos
      ensures Valid()
      ensures DummyState(ang, angVel, handPos) ==
              DummyStep(math, cfg.armLen, cfg.interval, cfg.minPval, cfg.maxPval, old(ang), old(angVel), motorCmd)
    {
      var s := DummyStep(math, cfg.armLen, cfg.interval, cfg.minPval, cfg.maxPval, ang, angVel, motorCmd);
      ang, angVel, handPos := s.ang, s.vel, s.hand;
    }

    /** The musculoskeletal plant's reply, after the fallback, becomes the joint angles; the hand
        follows by forward kinematics and the velocities are zero. A list of another length than
        two cannot be unpacked into the angles and raises (ok false, nothing changes). */
    method ApplyPlantReply(reply: PlantReply) returns (ok: bool)
      requires Valid()
      modifies this`ang, this`angVel, this`handPos
      ensures Valid()
      ensures var data := PlantFallback(reply, old(ang));
              ok == (|data| == 2) &&
              (ok ==> ang == Joints(data[0], data[1]) && handPos == Angles2Pos(math, ang, cfg.armLen) &&
                      angVel == Joints(0.0, 0.0)) &&
              (!ok ==> ang == old(ang) && angVel == old(angVel) && handPos == old(handPos))
    {
      var data := PlantFallback(reply, ang);
      ok := |data| == 2;
      if ok {
        ang := Joints(data[0], data[1]);
        handPos := Angles2Pos(math, ang, cfg.armLen);
        angVel := Joints(0.0, 0.0);
      }
    }

    /** The proprioceptive drive of run: for every pair of cells, the local cell of each gid gets
        interval 1000/maxPrate when its joint angle lies in the cell's range and 1000/minPrate
        otherwise. A gid without a local cell, an index past the cell list or a zero rate is
        skipped, as the source's bare except does. */
    method ProprioDrive(intervals: array<real>, gidDic: map<int, nat>)
      requires Valid() && Injective(gidDic)
      modifies intervals
      ensures forall gid :: Driven(cfg, ang, gidDic, gid, intervals.Length) ==>
                intervals[gidDic[gid]] == ProprioInterval(cfg, ang, gid - cfg.pStart).value
      ensures forall i ::
                (0 <= i < intervals.Length &&
                 forall gid :: Driven(cfg, ang, gidDic, gid, intervals.Length) ==> gidDic[gid] != i) ==>
                intervals[i] == old(intervals[i])
    {
      ghost var a0 := intervals[..];
      var c := 0;
      while c < cfg.numPcells
        invariant 0 <= c <= cfg.numPcells && c % 2 == 0
        invariant DriveProgress(cfg, ang, gidDic, intervals[..], a0, c)
      {
        ghost var before := intervals[..];
        DriveCell(intervals, gidDic, c);
        DriveProgressStep(cfg, ang, gidDic, before, a0, intervals[..], c);
        ghost var mid := intervals[..];
        DriveCell(intervals, gidDic, c + 1);
        DriveProgressStep(cfg, ang, gidDic, mid, a0, intervals[..], c + 1);
        c := c + 2;
      }
      DriveProgressDone(cfg, ang, gidDic, intervals[..], a0);
    }

    /** One cell of the proprioceptive drive. */
    method DriveCell(intervals: array<real>, gidDic: map<int, nat>, c: int)
      requires Valid() && Injective(gidDic) && 0 <= c < cfg.numPcells
      modifies intervals
      ensures var gid := cfg.pStart + c;
              if Driven(cfg, ang, gidDic, gid, intervals.Length) then
                intervals[..] == old(intervals[..])[gidDic[gid] := ProprioInterval(cfg, ang, c).value]
              else intervals[..] == old(intervals[..])
    {
      var gid := cfg.pStart + c;
      if gid in gidDic && gidDic[gid] < intervals.Length {
        var id := gidDic[gid];
        var a := if c % 2 == 0 then ang.sh else ang.el;
        var rate := if a >= prange[c, 0] && a < prange[c, 1] then cfg.maxPrate else cfg.minPrate;
        if rate != 0.0 {
          intervals[id] := 1000.0 / rate;
        }
      }
    }

    /** The error of run: the distance from hand to target, updated only while the movement gate
        is non-zero. */
    method ComputeError()
      requires Valid()
      modifies this`error
      ensures Valid()
      ensures initArmMovement != 0.0 ==> error == Distance(math, handPos, targetPos)
      ensures initArmMovement == 0.0 ==> error == old(error)
    {
      if initArmMovement != 0.0 {
        error := Distance(math, handPos, targetPos);
      }
    }

    /** One step of run on the worker that talks to the arm: record, reset between trials, motor
        command, arm update, proprioceptive drive, error. ok is false when a step raised; the
        steps after it are not run. */
    method Run(t: real, cmdVecs: seq<seq<seq<real>>>, reply: PlantReply,
               intervals: array<real>, gidDic: map<int, nat>) returns (ok: bool, r: int)
      requires Valid() && |cmdVecs| == 4 && Injective(gidDic)
      modifies this, intervals
      ensures Valid()
      ensures errorAll == old(errorAll) + [old(error)]
      ensures r == critic
      ensures ok && cfg.kind == Musculoskeletal ==>
                angVel == Joints(0.0, 0.0) && handPos == Angles2Pos(math, ang, cfg.armLen)
      ensures ok ==> forall gid :: Driven(cfg, ang, gidDic, gid, intervals.Length) ==>
                intervals[gidDic[gid]] == ProprioInterval(cfg, ang, gid - cfg.pStart).value
      ensures ok && initArmMovement != 0.0 ==> error == Distance(math, handPos, targetPos)
    {
      Record();
      ok := MaybeReset(t);
      if ok {
        UpdateMotorCommand(t, cmdVecs);
        if cfg.kind == Musculoskeletal {
          ok := ApplyPlantReply(reply);
        } else {
          RunDummyArm();
        }
        if ok {
          ProprioDrive(intervals, gidDic);
          ComputeError();
        }
      }
      r := critic;
    }
  }
}
