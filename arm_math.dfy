/** The arithmetic of the arm controller: forward kinematics, targets, the kinematic "dummy arm"
    step, motor-command normalisation and antagonist inhibition, the reinforcement critic and the
    proprioceptive tuning ranges. Trigonometry and the square root are parameters. */
module ArmMath {

  datatype Option<T> = None | Some(value: T)

  /** A shoulder/elbow pair: angles, angular velocities or segment lengths. */
  datatype Joints = Joints(sh: real, el: real)
  datatype Pos = Pos(x: real, y: real)

  /** cos, sin and sqrt of the numerical library, left uninterpreted. */
  datatype Math = Math(cos: real -> real, sin: real -> real, sqrt: real -> real)

  /** Indices of the four motor channels. */
  const SH_EXT: int := 0
  const SH_FLEX: int := 1
  const EL_EXT: int := 2
  const EL_FLEX: int := 3

  /** Offset of every target from the start hand position, in metres. */
  const TARGET_OFFSET: real := 0.15
  const FRICTION: real := 0.5

  /** angles2pos: the wrist position of a two-segment arm. */
  function Angles2Pos(m: Math, ang: Joints, len: Joints): Pos
  {
    var elbow := Pos(len.sh * m.cos(ang.sh), len.sh * m.sin(ang.sh));
    Pos(elbow.x + len.el * m.cos(ang.sh + ang.el), elbow.y + len.el * m.sin(ang.sh + ang.el))
  }

  /** The Euclidean distance between two points. */
  function Distance(m: Math, p: Pos, q: Pos): real
  {
    m.sqrt((p.x - q.x) * (p.x - q.x) + (p.y - q.y) * (p.y - q.y))
  }

  /** setTargetByID: targets 0..3 lie 0.15 m to the right, left, above and below the start hand
      position; any other id has no target (the source then fails on an unbound name). */
  function SetTargetByID(m: Math, id: int, startAng: Joints, len: Joints): (r: Option<Pos>)
    ensures r.Some? <==> 0 <= id <= 3
  {
    var start := Angles2Pos(m, startAng, len);
    if id == 0 then Some(Pos(start.x + TARGET_OFFSET, start.y + 0.0))
    else if id == 1 then Some(Pos(start.x - TARGET_OFFSET, start.y + 0.0))
    else if id == 2 then Some(Pos(start.x + 0.0, start.y + TARGET_OFFSET))
    else if id == 3 then Some(Pos(start.x + 0.0, start.y - TARGET_OFFSET))
    else None
  }

  /** Each target is displaced from the start by 0.15 m along exactly one axis, and the four
      targets are pairwise different. */
  lemma TargetGeometry(m: Math, startAng: Joints, len: Joints, i: int, j: int)
    requires 0 <= i <= 3 && 0 <= j <= 3
    ensures var start := Angles2Pos(m, startAng, len);
            var t := SetTargetByID(m, i, startAng, len).value;
            var dx := t.x - start.x;
            var dy := t.y - start.y;
            (dx == 0.0 && (dy == TARGET_OFFSET || dy == -TARGET_OFFSET))
            || (dy == 0.0 && (dx == TARGET_OFFSET || dx == -TARGET_OFFSET))
    ensures i != j ==> SetTargetByID(m, i, startAng, len) != SetTargetByID(m, j, startAng, len)
  {
  }

  /** The angle limits, applied in the source's order: first the lower one, then the upper one. */
  function Clamp(x: real, lo: real, hi: real): (r: real)
    ensures lo <= hi ==> lo <= r <= hi
    ensures lo <= x <= hi ==> r == x
    ensures lo <= hi && x < lo ==> r == lo
    ensures x > hi ==> r == hi
  {
    var a := if x < lo then lo else x;
    if a > hi then hi else a
  }

  /** The result of one dummy-arm step: angles, velocities and hand position. */
  datatype DummyState = DummyState(ang: Joints, vel: Joints, hand: Pos)

  /** runDummyArm: integrate the velocity over one interval (ms) and clamp; the new velocity adds
      the flexor-minus-extensor command and loses half of the old velocity to friction. */
  function DummyStep(m: Math, len: Joints, interval: real, minPval: real, maxPval: real,
                     ang: Joints, vel: Joints, cmd: seq<real>): DummyState
    requires |cmd| == 4
  {
    var sh := Clamp(ang.sh + vel.sh * interval / 1000.0, minPval, maxPval);
    var el := Clamp(ang.el + vel.el * interval / 1000.0, minPval, maxPval);
    var shvel := vel.sh + (cmd[SH_FLEX] - cmd[SH_EXT]) - FRICTION * vel.sh;
    var elvel := vel.el + (cmd[EL_FLEX] - cmd[EL_EXT]) - FRICTION * vel.el;
    DummyState(Joints(sh, el), Joints(shvel, elvel), Angles2Pos(m, Joints(sh, el), len))
  }

  /** The dummy arm never leaves the encoded angle range. */
  lemma DummyStepInRange(m: Math, len: Joints, interval: real, minPval: real, maxPval: real,
                         ang: Joints, vel: Joints, cmd: seq<real>)
    requires |cmd| == 4 && minPval <= maxPval
    ensures var s := DummyStep(m, len, interval, minPval, maxPval, ang, vel, cmd);
            minPval <= s.ang.sh <= maxPval && minPval <= s.ang.el <= maxPval
  {
  }

  /** With balanced commands the velocity halves at every step, whatever the angles; an arm at
      rest inside the range with balanced commands stays where it is. */
  lemma DummyStepBalanced(m: Math, len: Joints, interval: real, minPval: real, maxPval: real,
                          ang: Joints, vel: Joints, cmd: seq<real>)
    requires |cmd| == 4 && cmd[SH_FLEX] == cmd[SH_EXT] && cmd[EL_FLEX] == cmd[EL_EXT]
    ensures var s := DummyStep(m, len, interval, minPval, maxPval, ang, vel, cmd);
            s.vel == Joints(vel.sh / 2.0, vel.el / 2.0)
    ensures vel == Joints(0.0, 0.0) && minPval <= ang.sh <= maxPval && minPval <= ang.el <= maxPval ==>
            DummyStep(m, len, interval, minPval, maxPval, ang, vel, cmd).ang == ang
  {
  }

  /** Motor-command normalisation: every channel divided by cmdmaxrate. */
  function Normalize(counts: seq<real>, cmdMaxRate: real): (r: seq<real>)
    requires cmdMaxRate != 0.0
    ensures |r| == |counts|
    ensures forall i :: 0 <= i < |r| ==> r[i] * cmdMaxRate == counts[i]
  {
    seq(|counts|, i requires 0 <= i < |counts| => counts[i] / cmdMaxRate)
  }

  /** Antagonist inhibition of one extensor/flexor pair: the weaker channel becomes
      weaker^2 / stronger / gain; equal channels are left alone. */
  function InhibitPair(ext: real, flex: real, gain: real): (r: (real, real))
    requires ext >= 0.0 && flex >= 0.0 && gain != 0.0
  {
    if ext > flex then (ext, flex * flex / ext / gain)
    else if ext < flex then (ext * ext / flex / gain, flex)
    else (ext, flex)
  }

  /** The four commands after inhibition; a gain of 0 switches inhibition off. */
  function Inhibit(cmd: seq<real>, gain: real): (r: seq<real>)
    requires |cmd| == 4 && forall i :: 0 <= i < 4 ==> cmd[i] >= 0.0
    ensures |r| == 4
  {
    if gain == 0.0 then cmd
    else
      var sh := InhibitPair(cmd[SH_EXT], cmd[SH_FLEX], gain);
      var el := InhibitPair(cmd[EL_EXT], cmd[EL_FLEX], gain);
      [sh.0, sh.1, el.0, el.1]
  }

  lemma MulMono(a: real, b: real, k: real)
    requires a <= b && k >= 0.0
    ensures a * k <= b * k
  {
  }

  lemma MulStrict(a: real, b: real, k: real)
    requires a < b && k > 0.0
    ensures a * k < b * k
  {
  }

  /** If x / w lies in [i, i + 1) then x lies in [i * w, i * w + w). */
  lemma DivBetween(x: real, w: real, i: real)
    requires w > 0.0 && i <= x / w < i + 1.0
    ensures i * w <= x < i * w + w
  {
    if x < i * w {
      DivBelow(x, w, i);
    }
    assert (i + 1.0) * w == i * w + w;
    if x >= (i + 1.0) * w {
      DivAtLeast(x, w, i + 1.0);
    }
  }

  /** If x >= y * w then x / w >= y. */
  lemma DivAtLeast(x: real, w: real, y: real)
    requires w > 0.0 && x >= y * w
    ensures x / w >= y
  {
    var q := x / w;
    assert q * w == x;
    if q < y {
      MulStrict(q, y, w);
    }
  }

  /** If x < y * w then x / w < y. */
  lemma DivBelow(x: real, w: real, y: real)
    requires w > 0.0 && x < y * w
    ensures x / w < y
  {
    var q := x / w;
    assert q * w == x;
    if q >= y {
      MulMono(y, q, w);
    }
  }

  /** x / y is the real that y multiplies back to x; it has x's sign when y > 0. */
  lemma DivFacts(x: real, y: real)
    requires y > 0.0
    ensures (x / y) * y == x
    ensures x >= 0.0 ==> x / y >= 0.0
    ensures x > 0.0 ==> x / y > 0.0
  {
  }

  lemma DivideDown(small: real, big: real, gain: real)
    requires 0.0 <= small < big && gain >= 1.0
    ensures 0.0 <= small * small / big / gain <= small
  {
    var q := small * small / big;
    DivFacts(small * small, big);
    MulMono(small, big, small);
    MulMono(0.0, small, small);
    assert small * small >= 0.0;
    assert q >= 0.0;
    assert q * big == small * small <= small * big;
    if q > small {
      MulStrict(small, q, big);
      assert false;
    }
    var r := q / gain;
    DivFacts(q, gain);
    MulMono(1.0, gain, r);
    assert r >= 0.0;
    assert r <= r * gain == q;
  }

  /** With a gain of at least 1 the dominant channel of each pair is unchanged, the suppressed one
      does not grow, stays non-negative and stays at most the dominant one. */
  lemma InhibitPairSuppresses(ext: real, flex: real, gain: real)
    requires ext >= 0.0 && flex >= 0.0 && gain >= 1.0
    ensures var r := InhibitPair(ext, flex, gain);
            && (ext > flex ==> r.0 == ext && 0.0 <= r.1 <= flex && r.1 <= r.0)
            && (ext < flex ==> r.1 == flex && 0.0 <= r.0 <= ext && r.0 <= r.1)
            && (ext == flex ==> r == (ext, flex))
  {
    if ext > flex {
      DivideDown(flex, ext, gain);
    } else if ext < flex {
      DivideDown(ext, flex, gain);
    }
  }

  /** Inhibition with a gain of at least 1, for the shoulder and the elbow pair alike: no
      command grows or turns negative, the dominant command of each pair is unchanged, and the
      order within each pair is kept. */
  lemma InhibitSuppresses(cmd: seq<real>, gain: real)
    requires |cmd| == 4 && cmd[0] >= 0.0 && cmd[1] >= 0.0 && cmd[2] >= 0.0 && cmd[3] >= 0.0
    requires gain >= 1.0
    ensures var r := Inhibit(cmd, gain);
            forall i :: 0 <= i < 4 ==> 0.0 <= r[i] <= cmd[i]
    ensures var r := Inhibit(cmd, gain);
            && (cmd[SH_EXT] >= cmd[SH_FLEX] ==> r[SH_EXT] == cmd[SH_EXT])
            && (cmd[SH_FLEX] >= cmd[SH_EXT] ==> r[SH_FLEX] == cmd[SH_FLEX])
            && (cmd[EL_EXT] >= cmd[EL_FLEX] ==> r[EL_EXT] == cmd[EL_EXT])
            && (cmd[EL_FLEX] >= cmd[EL_EXT] ==> r[EL_FLEX] == cmd[EL_FLEX])
    ensures var r := Inhibit(cmd, gain);
            && (r[SH_EXT] <= r[SH_FLEX] <==> cmd[SH_EXT] <= cmd[SH_FLEX])
            && (r[EL_EXT] <= r[EL_FLEX] <==> cmd[EL_EXT] <= cmd[EL_FLEX])
  {
    InhibitPairSuppresses(cmd[SH_EXT], cmd[SH_FLEX], gain);
    InhibitPairSuppresses(cmd[EL_EXT], cmd[EL_FLEX], gain);
  }

  // ----- critic -----

  /** Python's int() on a real: truncation toward zero. */
  function Truncate(x: real): int
  {
    if x >= 0.0 then x.Floor else -((-x).Floor)
  }

  /** A slice bound as Python normalises it for a sequence of length n. */
  function SliceBound(n: int, i: int): int
  {
    if i < 0 then (if n + i < 0 then 0 else n + i) else (if i > n then n else i)
  }

  /** s[a:b] with Python's rules for negative and out-of-range bounds. */
  function PySlice(s: seq<real>, a: int, b: int): (r: seq<real>)
    ensures |r| <= |s|
  {
    var lo := SliceBound(|s|, a);
    var hi := SliceBound(|s|, b);
    if lo < hi then s[lo..hi] else []
  }

  function Sum(s: seq<real>): real
  {
    if s == [] then 0.0 else Sum(s[..|s| - 1]) + s[|s| - 1]
  }

  /** numpy's mean; the mean of nothing is NaN, which is None here. */
  function Mean(s: seq<real>): Option<real>
  {
    if s == [] then None else Some(Sum(s) / |s| as real)
  }

  /** RLsteps = int(RLinterval / interval). */
  function RLSteps(RLinterval: real, interval: real): int
    requires interval != 0.0
  {
    Truncate(RLinterval / interval)
  }

  /** RLcritic: 0 before the movement gate; afterwards the latest error is compared with the mean
      of errorAll[-RLsteps:-1] when the history is long enough (a difference of 0 otherwise):
      a drop beyond minRLerror rewards (1), a rise beyond it punishes (-1). A NaN difference
      (empty window) fails both comparisons and gives 0. */
  function CriticSignal(t: real, initArmMovement: real, error: real, errorAll: seq<real>,
                        RLinterval: real, interval: real, minRLerror: real): (r: int)
    requires interval != 0.0
    ensures -1 <= r <= 1
    ensures t <= initArmMovement ==> r == 0
  {
    if t > initArmMovement then
      var steps := RLSteps(RLinterval, interval);
      var diff := if |errorAll| >= steps then
                    (match Mean(PySlice(errorAll, -steps, -1))
                     case None => None
                     case Some(mean) => Some(error - mean))
                  else Some(0.0);
      match diff
      case None => 0
      case Some(d) => if d < -minRLerror then 1 else if d > minRLerror then -1 else 0
    else 0
  }

  /** The window errorAll[-k:-1] is the k - 1 samples before the latest one. */
  lemma CriticWindow(errorAll: seq<real>, k: int)
    requires 1 <= k <= |errorAll|
    ensures PySlice(errorAll, -k, -1) == errorAll[|errorAll| - k .. |errorAll| - 1]
  {
  }

  /** After the gate and with a window of at least one sample, the critic rewards exactly when the
      error fell more than minRLerror below the window mean, and punishes exactly when it rose more
      than minRLerror above it. */
  lemma CriticRule(t: real, initArmMovement: real, error: real, errorAll: seq<real>,
                   RLinterval: real, interval: real, minRLerror: real)
    requires interval != 0.0 && minRLerror >= 0.0 && t > initArmMovement
    requires 2 <= RLSteps(RLinterval, interval) <= |errorAll|
    ensures var k := RLSteps(RLinterval, interval);
            var w := errorAll[|errorAll| - k .. |errorAll| - 1];
            var mean := Sum(w) / (k - 1) as real;
            var r := CriticSignal(t, initArmMovement, error, errorAll, RLinterval, interval, minRLerror);
            && (r == 1 <==> error - mean < -minRLerror)
            && (r == -1 <==> error - mean > minRLerror)
  {
    var k := RLSteps(RLinterval, interval);
    CriticWindow(errorAll, k);
  }

  /** With a shorter history than the window the difference is taken as 0, so a non-negative
      threshold gives no critic signal. */
  lemma CriticShortHistory(t: real, initArmMovement: real, error: real, errorAll: seq<real>,
                           RLinterval: real, interval: real, minRLerror: real)
    requires interval != 0.0 && minRLerror >= 0.0
    requires |errorAll| < RLSteps(RLinterval, interval)
    ensures CriticSignal(t, initArmMovement, error, errorAll, RLinterval, interval, minRLerror) == 0
  {
  }

  lemma {:induction false} SumConst(n: nat, v: real)
    ensures Sum(seq(n, _ => v)) == n as real * v
  {
    if n > 0 {
      assert seq(n, _ => v)[..n - 1] == seq(n - 1, _ => v);
      SumConst(n - 1, v);
    }
  }

  /** Ten samples of 0.10 followed by an error of 0.05, with a 10-step window and a threshold of
      0.003, give a reward. */
  lemma CriticRewardExample()
    ensures CriticSignal(1000.0, 0.0, 0.05, seq(10, _ => 0.10), 50.0, 5.0, 0.003) == 1
  {
    var h := seq(10, _ => 0.10);
    assert RLSteps(50.0, 5.0) == 10;
    CriticWindow(h, 10);
    assert h[0..9] == seq(9, _ => 0.10);
    SumConst(9, 0.10);
  }

  // ----- proprioceptive ranges -----

  /** The width of every range: twice (maxPval - minPval) / (numPcells - 2), since shoulder and
      elbow cells alternate. */
  function AngInterval(minPval: real, maxPval: real, numPcells: int): real
    requires numPcells != 2
  {
    (maxPval - minPval) / (numPcells - 2) as real * 2.0
  }

  /** Lower bound of the range of cell c: cells 2i and 2i + 1 share range i. */
  function RangeLow(minPval: real, maxPval: real, numPcells: int, c: int): real
    requires numPcells != 2
  {
    minPval + (c / 2) as real * AngInterval(minPval, maxPval, numPcells)
  }

  /** Cells c and c + 1 share a range; the next pair starts one width higher. */
  lemma RangeLowStep(minPval: real, maxPval: real, numPcells: int, c: int)
    requires numPcells != 2 && 0 <= c && c % 2 == 0
    ensures RangeLow(minPval, maxPval, numPcells, c + 1) == RangeLow(minPval, maxPval, numPcells, c)
    ensures RangeLow(minPval, maxPval, numPcells, c + 2) ==
            RangeLow(minPval, maxPval, numPcells, c) + AngInterval(minPval, maxPval, numPcells)
  {
    assert (c + 1) / 2 == c / 2;
    assert (c + 2) / 2 == c / 2 + 1;
  }

  /** The ranges tile the line: each pair starts where the previous one ends, starting at minPval;
      the last upper bound is minPval + numPcells / 2 widths, which lies beyond maxPval. */
  lemma RangesTile(minPval: real, maxPval: real, numPcells: int, c: int)
    requires numPcells >= 4 && numPcells % 2 == 0 && 0 <= c && c % 2 == 0
    ensures RangeLow(minPval, maxPval, numPcells, 0) == minPval
    ensures RangeLow(minPval, maxPval, numPcells, c + 1) == RangeLow(minPval, maxPval, numPcells, c)
    ensures RangeLow(minPval, maxPval, numPcells, c + 2) ==
            RangeLow(minPval, maxPval, numPcells, c) + AngInterval(minPval, maxPval, numPcells)
    ensures minPval < maxPval ==>
            RangeLow(minPval, maxPval, numPcells, numPcells - 2) + AngInterval(minPval, maxPval, numPcells) > maxPval
  {
    assert (c + 1) / 2 == c / 2;
    assert (c + 2) / 2 == c / 2 + 1;
    if minPval < maxPval {
      var w := AngInterval(minPval, maxPval, numPcells);
      var n := numPcells as real;
      assert (numPcells - 2) / 2 == numPcells / 2 - 1;
      assert w * (n - 2.0) == (maxPval - minPval) * 2.0;
      assert ((numPcells - 2) / 2) as real * w + w == (numPcells / 2) as real * w;
      assert (numPcells / 2) as real * 2.0 == n;
      assert (numPcells / 2) as real * w * (n - 2.0) == n * (maxPval - minPval);
      assert (numPcells / 2) as real * w > maxPval - minPval by {
        assert n * (maxPval - minPval) > (n - 2.0) * (maxPval - minPval);
      }
    }
  }

  /** Shoulder cell c (c even) encodes angle a: a lies in [RangeLow(c), RangeLow(c) + width). */
  predicate Covers(minPval: real, maxPval: real, numPcells: int, c: int, a: real)
    requires numPcells != 2
  {
    0 <= c < numPcells && c % 2 == 0 &&
    RangeLow(minPval, maxPval, numPcells, c) <= a < RangeLow(minPval, maxPval, numPcells, c) + AngInterval(minPval, maxPval, numPcells)
  }

  lemma WidthPositive(minPval: real, maxPval: real, numPcells: int)
    requires numPcells >= 4 && minPval < maxPval
    ensures AngInterval(minPval, maxPval, numPcells) > 0.0
    ensures AngInterval(minPval, maxPval, numPcells) * (numPcells - 2) as real == (maxPval - minPval) * 2.0
  {
    DivFacts(maxPval - minPval, (numPcells - 2) as real);
  }

  /** The shoulder cell whose range holds a given angle in [minPval, maxPval). */
  lemma CoveringCell(minPval: real, maxPval: real, numPcells: int, a: real) returns (c: int)
    requires numPcells >= 4 && numPcells % 2 == 0 && minPval < maxPval && minPval <= a < maxPval
    ensures Covers(minPval, maxPval, numPcells, c, a)
  {
    var w := AngInterval(minPval, maxPval, numPcells);
    var h := (numPcells - 2) as real;
    WidthPositive(minPval, maxPval, numPcells);
    assert h / 2.0 * w == (w * h) / 2.0 == maxPval - minPval;
    DivBelow(a - minPval, w, h / 2.0);
    var q := (a - minPval) / w;
    DivFacts(a - minPval, w);
    var i := q.Floor;
    assert i as real <= q;
    assert i as real < h / 2.0;
    assert (2 * i) as real < h;
    assert 2 * i + 2 < numPcells;
    c := 2 * i;
    assert c / 2 == i;
    CoverFromQuotient(minPval, maxPval, numPcells, c, a);
  }

  lemma CoverFromQuotient(minPval: real, maxPval: real, numPcells: int, c: int, a: real)
    requires numPcells >= 4 && minPval < maxPval && 0 <= c < numPcells && c % 2 == 0
    requires AngInterval(minPval, maxPval, numPcells) > 0.0
    requires (c / 2) as real <= (a - minPval) / AngInterval(minPval, maxPval, numPcells) < (c / 2) as real + 1.0
    ensures Covers(minPval, maxPval, numPcells, c, a)
  {
    DivBetween(a - minPval, AngInterval(minPval, maxPval, numPcells), (c / 2) as real);
  }

  /** Ranges of later pairs start at or after the end of earlier ones. */
  lemma RangesApart(minPval: real, maxPval: real, numPcells: int, c1: int, c2: int)
    requires numPcells >= 4 && minPval < maxPval && c1 / 2 < c2 / 2
    ensures RangeLow(minPval, maxPval, numPcells, c1) + AngInterval(minPval, maxPval, numPcells)
            <= RangeLow(minPval, maxPval, numPcells, c2)
  {
    WidthPositive(minPval, maxPval, numPcells);
    MulMono((c1 / 2 + 1) as real, (c2 / 2) as real, AngInterval(minPval, maxPval, numPcells));
  }

  /** No angle lies in the ranges of two different shoulder cells. */
  lemma CoverUnique(minPval: real, maxPval: real, numPcells: int, c1: int, c2: int, a: real)
    requires numPcells >= 4 && minPval < maxPval
    requires Covers(minPval, maxPval, numPcells, c1, a) && Covers(minPval, maxPval, numPcells, c2, a)
    ensures c1 == c2
  {
    if c1 / 2 < c2 / 2 {
      RangesApart(minPval, maxPval, numPcells, c1, c2);
      assert false;
    } else if c2 / 2 < c1 / 2 {
      RangesApart(minPval, maxPval, numPcells, c2, c1);
      assert false;
    }
  }

  /** Every angle in [minPval, maxPval) falls in the range of exactly one shoulder cell (and of the
      elbow cell beside it). */
  lemma RangesCover(minPval: real, maxPval: real, numPcells: int, a: real)
    requires numPcells >= 4 && numPcells % 2 == 0 && minPval < maxPval && minPval <= a < maxPval
    ensures exists c :: Covers(minPval, maxPval, numPcells, c, a)
    ensures forall c1, c2 :: Covers(minPval, maxPval, numPcells, c1, a) && Covers(minPval, maxPval, numPcells, c2, a) ==> c1 == c2
  {
    var c := CoveringCell(minPval, maxPval, numPcells, a);
    forall c1, c2 | Covers(minPval, maxPval, numPcells, c1, a) && Covers(minPval, maxPval, numPcells, c2, a)
      ensures c1 == c2
    {
      CoverUnique(minPval, maxPval, numPcells, c1, c2, a);
    }
  }

  /** The firing interval of one proprioceptive cell: high rate inside its range, low rate
      outside; a zero rate raises in the source and the cell keeps its interval (None). */
  function CellInterval(ang: real, lo: real, hi: real, minPrate: real, maxPrate: real): (r: Option<real>)
    ensures r.Some? && lo <= ang < hi ==> maxPrate != 0.0 && r.value * maxPrate == 1000.0
    ensures r.Some? && !(lo <= ang < hi) ==> minPrate != 0.0 && r.value * minPrate == 1000.0
    ensures r.None? <==> (if lo <= ang < hi then maxPrate else minPrate) == 0.0
  {
    var rate := if lo <= ang && ang < hi then maxPrate else minPrate;
    if rate == 0.0 then None else Some(1000.0 / rate)
  }
}
