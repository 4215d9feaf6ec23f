/** Swept movement of a box against an arbitrary fixed set of solid points, over the reals. */
module MoveBox {
  datatype Vec = Vec(x: real, y: real)

  /** Which points are solid: the outcome of `CheckPoint` during one call. */
  type Solid = (real, real) -> bool

  /** The box hits something: one of its corners is solid. */
  predicate TestBox(solid: Solid, pos: Vec, size: Vec) {
    var hx, hy := size.x / 2.0, size.y / 2.0;
    || solid(pos.x - hx, pos.y - hy)
    || solid(pos.x + hx, pos.y - hy)
    || solid(pos.x - hx, pos.y + hy)
    || solid(pos.x + hx, pos.y + hy)
  }

  /** The value between -1 and 1 that is nearest to `e`. */
  function Clamp(e: real): (c: real)
    ensures -1.0 <= c <= 1.0
    ensures c == e || c == 1.0 < e || e < -1.0 == c
  {
    if e < -1.0 then -1.0 else if e > 1.0 then 1.0 else e
  }

  /** What a call works on besides the moving state. */
  datatype Setting = Setting(solid: Solid, size: Vec, ex: real, ey: real, fraction: real, track: bool)

  datatype Moving = Moving(pos: Vec, vel: Vec, grounded: bool)

  predicate Free(c: Setting, pos: Vec) {
    !TestBox(c.solid, pos, c.size)
  }

  function Target(c: Setting, s: Moving): Vec {
    Vec(s.pos.x + s.vel.x * c.fraction, s.pos.y + s.vel.y * c.fraction)
  }

  /** Is the movement stopped on the axis? Both axes are when neither alone is the cause. */
  predicate StopsY(c: Setting, s: Moving) {
    var t := Target(c, s);
    !Free(c, t) && (!Free(c, Vec(s.pos.x, t.y)) || Free(c, Vec(t.x, s.pos.y)))
  }

  predicate StopsX(c: Setting, s: Moving) {
    var t := Target(c, s);
    !Free(c, t) && (!Free(c, Vec(t.x, s.pos.y)) || Free(c, Vec(s.pos.x, t.y)))
  }

  /** The speed after a stop. */
  function Bounced(v: real, e: real): real {
    v * -e
  }

  /** One of the small steps: every axis moves on or bounces. */
  function Step(c: Setting, s: Moving): Moving {
    var t := Target(c, s);
    Moving(
      Vec(if StopsX(c, s) then s.pos.x else t.x, if StopsY(c, s) then s.pos.y else t.y),
      Vec(if StopsX(c, s) then Bounced(s.vel.x, c.ex) else s.vel.x,
          if StopsY(c, s) then Bounced(s.vel.y, c.ey) else s.vel.y),
      s.grounded || (c.track && c.ey > 0.0 && s.vel.y > 0.0 && StopsY(c, s)))
  }

  /** The state after `n` steps. */
  function Steps(c: Setting, s: Moving, n: nat): Moving {
    if n == 0 then s else Step(c, Steps(c, s, n - 1))
  }

  /** The movement, with the length of the velocity as an input. */
  method Move(solid: Solid, pos0: Vec, vel0: Vec, size: Vec, elasticity: Vec, track: bool, grounded0: bool,
              length: real)
    returns (pos: Vec, vel: Vec, grounded: bool)
    requires length >= 0.0 && length * length == vel0.x * vel0.x + vel0.y * vel0.y
    ensures
      var s := Moving(pos0, vel0, grounded0);
      Moving(pos, vel, grounded) ==
      if length > 0.00001 then Steps(SettingOf(solid, size, elasticity, track, length), s, length.Floor + 1) else s
  {
    hide Step, Target;
    pos, vel, grounded := pos0, vel0, grounded0;
    var max := length.Floor;
    if length > 0.00001 {
      var c := SettingOf(solid, size, elasticity, track, length);
      ghost var s := Moving(pos0, vel0, grounded0);
      var i := 0;
      while i <= max
        invariant 0 <= i <= max + 1
        invariant Moving(pos, vel, grounded) == Steps(c, s, i)
      {
        if vel == Vec(0.0, 0.0) {
          RestStays(c, s, i, max + 1);
          break;
        }
        if Target(c, Moving(pos, vel, grounded)) == pos {
          // over the reals this exit is the one before
          assert false by { NoMoveMeansRest(c, Moving(pos, vel, grounded)); }
          break;
        }
        pos, vel, grounded := SmallStep(c, pos, vel, grounded);
        i := i + 1;
      }
    }
  }

  /** The body of the loop. */
  method SmallStep(c: Setting, pos: Vec, vel: Vec, grounded: bool) returns (newPos: Vec, newVel: Vec, newGrounded: bool)
    ensures Moving(newPos, newVel, newGrounded) == Step(c, Moving(pos, vel, grounded))
  {
    hide TestBox, Target, Bounced;
    newPos := Target(c, Moving(pos, vel, grounded));
    newVel, newGrounded := vel, grounded;
    if TestBox(c.solid, newPos, c.size) {
      var hits := 0;
      if TestBox(c.solid, Vec(pos.x, newPos.y), c.size) {
        if c.track && c.ey > 0.0 && newVel.y > 0.0 {
          newGrounded := true;
        }
        newPos := newPos.(y := pos.y);
        newVel := newVel.(y := Bounced(newVel.y, c.ey));
        hits := hits + 1;
      }
      if TestBox(c.solid, Vec(newPos.x, pos.y), c.size) {
        newPos := newPos.(x := pos.x);
        newVel := newVel.(x := Bounced(newVel.x, c.ex));
        hits := hits + 1;
      }
      if hits == 0 {
        if c.track && c.ey > 0.0 && newVel.y > 0.0 {
          newGrounded := true;
        }
        newPos := newPos.(y := pos.y);
        newVel := newVel.(y := Bounced(newVel.y, c.ey));
        newPos := newPos.(x := pos.x);
        newVel := newVel.(x := Bounced(newVel.x, c.ex));
      }
    }
  }

  function SettingOf(solid: Solid, size: Vec, elasticity: Vec, track: bool, length: real): Setting
    requires length >= 0.0
  {
    Setting(solid, size, Clamp(elasticity.x), Clamp(elasticity.y), 1.0 / (length.Floor + 1) as real, track)
  }

  lemma NoMoveMeansRest(c: Setting, s: Moving)
    requires c.fraction > 0.0 && Target(c, s) == s.pos
    ensures s.vel == Vec(0.0, 0.0)
  {
    assert s.vel.x * c.fraction == 0.0 && s.vel.y * c.fraction == 0.0;
  }

  /** The early exits change nothing: without speed all further steps stay where they are. */
  lemma {:induction false} RestStays(c: Setting, s: Moving, k: nat, n: nat)
    requires k <= n && Steps(c, s, k).vel == Vec(0.0, 0.0)
    ensures Steps(c, s, n) == Steps(c, s, k)
    decreases n - k
  {
    hide Step;
    if k < n {
      RestStays(c, s, k, n - 1);
      RestStep(c, Steps(c, s, k));
    }
  }

  lemma RestStep(c: Setting, s: Moving)
    requires s.vel == Vec(0.0, 0.0)
    ensures Step(c, s) == s
  {
    hide TestBox;
    assert 0.0 * c.fraction == 0.0 && 0.0 * -c.ex == 0.0 && 0.0 * -c.ey == 0.0;
  }

  // ----- what the movement promises

  predicate Sensible(c: Setting) {
    -1.0 <= c.ex <= 1.0 && -1.0 <= c.ey <= 1.0
  }

  function Abs(x: real): real {
    if x < 0.0 then -x else x
  }

  /** A box that starts free is free after every step: it never enters anything solid. */
  lemma {:induction false} FreeAllTheWay(c: Setting, s: Moving, n: nat)
    requires Free(c, s.pos)
    ensures Free(c, Steps(c, s, n).pos)
  {
    if n > 0 {
      FreeAllTheWay(c, s, n - 1);
      StepStaysFree(c, Steps(c, s, n - 1));
    }
  }

  /** The tests along the single axes are enough for the position that is taken. */
  lemma StepStaysFree(c: Setting, s: Moving)
    requires Free(c, s.pos)
    ensures Free(c, Step(c, s).pos)
  {
    var t := Target(c, s);
    assert s.pos == Vec(s.pos.x, s.pos.y) && t == Vec(t.x, t.y);
  }

  // products of reals, under a name that keeps them apart

  function Times(a: real, b: real): real {
    a * b
  }

  lemma TimesAbs(a: real, b: real)
    ensures Abs(Times(a, b)) == Times(Abs(a), Abs(b))
  {
  }

  lemma TimesMonotone(a: real, b: real, c: real)
    requires a <= b && c >= 0.0
    ensures Times(a, c) <= Times(b, c) && Times(c, a) <= Times(c, b)
  {
  }

  lemma TimesStrict(a: real, b: real, c: real)
    requires a < b && c > 0.0
    ensures Times(a, c) < Times(b, c)
  {
  }

  lemma TimesSum(a: real, b: real, c: real)
    ensures Times(a, b + c) == Times(a, b) + Times(a, c)
  {
  }

  lemma TimesOne(a: real)
    ensures Times(a, 1.0) == a && Times(1.0, a) == a && Times(0.0, a) == 0.0
  {
  }

  lemma SquareOfTimes(a: real, b: real)
    ensures Times(Times(a, b), Times(a, b)) == Times(Times(b, b), Times(a, a))
    ensures Times(Abs(a), Abs(a)) == Times(a, a)
  {
  }

  lemma BounceShrinks(v: real, e: real)
    requires -1.0 <= e <= 1.0
    ensures Abs(Bounced(v, e)) <= Abs(v)
  {
    assert Abs(Times(v, -e)) <= Abs(v) by {
      hide Times;
      TimesAbs(v, -e);
      TimesMonotone(Abs(-e), 1.0, Abs(v));
      TimesOne(Abs(v));
    }
  }

  lemma StepSpeed(c: Setting, s: Moving)
    requires Sensible(c)
    ensures Abs(Step(c, s).vel.x) <= Abs(s.vel.x) && Abs(Step(c, s).vel.y) <= Abs(s.vel.y)
  {
    hide StopsX, StopsY, Target, Bounced, Abs;
    BounceShrinks(s.vel.x, c.ex);
    BounceShrinks(s.vel.y, c.ey);
  }

  /** The speed on each axis never grows. */
  lemma {:induction false} SpeedNeverGrows(c: Setting, s: Moving, k: nat, n: nat)
    requires Sensible(c) && k <= n
    ensures Abs(Steps(c, s, n).vel.x) <= Abs(Steps(c, s, k).vel.x)
    ensures Abs(Steps(c, s, n).vel.y) <= Abs(Steps(c, s, k).vel.y)
    decreases n - k
  {
    hide Step, Abs;
    if k < n {
      SpeedNeverGrows(c, s, k, n - 1);
      StepSpeed(c, Steps(c, s, n - 1));
    }
  }

  lemma StepMoves(c: Setting, s: Moving)
    ensures
      var q := Step(c, s).pos;
      && (q.x - s.pos.x == Times(s.vel.x, c.fraction) || q.x == s.pos.x)
      && (q.y - s.pos.y == Times(s.vel.y, c.fraction) || q.y == s.pos.y)
  {
    hide StopsX, StopsY;
  }

  /** Each axis moves at most the initial speed times the fraction in one step. */
  lemma StepLength(c: Setting, s: Moving, n: nat)
    requires Sensible(c) && c.fraction >= 0.0
    ensures
      var p, q := Steps(c, s, n).pos, Steps(c, s, n + 1).pos;
      && Abs(q.x - p.x) <= Times(Abs(s.vel.x), c.fraction)
      && Abs(q.y - p.y) <= Times(Abs(s.vel.y), c.fraction)
  {
    hide Step, Abs, Times;
    var v, p, q := Steps(c, s, n).vel, Steps(c, s, n).pos, Steps(c, s, n + 1).pos;
    SpeedNeverGrows(c, s, 0, n);
    StepMoves(c, Steps(c, s, n));
    MoveOnAxis(q.x - p.x, v.x, s.vel.x, c.fraction);
    MoveOnAxis(q.y - p.y, v.y, s.vel.y, c.fraction);
  }

  lemma MoveOnAxis(d: real, v: real, v0: real, f: real)
    requires (d == Times(v, f) || d == 0.0) && Abs(v) <= Abs(v0) && f >= 0.0
    ensures Abs(d) <= Times(Abs(v0), f)
  {
    hide Times;
    TimesAbs(v, f);
    TimesMonotone(Abs(v), Abs(v0), f);
    TimesMonotone(0.0, Abs(v0), f);
    TimesOne(f);
  }

  /** Each step is shorter than one unit. */
  lemma StepShorterThanOne(solid: Solid, size: Vec, elasticity: Vec, track: bool, length: real, s: Moving, n: nat)
    requires length >= 0.0 && length * length == s.vel.x * s.vel.x + s.vel.y * s.vel.y
    ensures
      var c := SettingOf(solid, size, elasticity, track, length);
      var p, q := Steps(c, s, n).pos, Steps(c, s, n + 1).pos;
      (q.x - p.x) * (q.x - p.x) + (q.y - p.y) * (q.y - p.y) < 1.0
  {
    hide Steps, SettingOf;
    StepSquare(solid, size, elasticity, track, length, s, n);
  }

  lemma StepSquare(solid: Solid, size: Vec, elasticity: Vec, track: bool, length: real, s: Moving, n: nat)
    requires length >= 0.0 && Times(length, length) == Times(s.vel.x, s.vel.x) + Times(s.vel.y, s.vel.y)
    ensures
      var c := SettingOf(solid, size, elasticity, track, length);
      var p, q := Steps(c, s, n).pos, Steps(c, s, n + 1).pos;
      Times(q.x - p.x, q.x - p.x) + Times(q.y - p.y, q.y - p.y) < 1.0
  {
    hide Steps, SettingOf, Abs, Times;
    var c := SettingOf(solid, size, elasticity, track, length);
    var p, q, f := Steps(c, s, n).pos, Steps(c, s, n + 1).pos, c.fraction;
    SettingFacts(solid, size, elasticity, track, length);
    StepLength(c, s, n);
    SquareBound(q.x - p.x, s.vel.x, f);
    SquareBound(q.y - p.y, s.vel.y, f);
    TimesSum(Times(f, f), Times(s.vel.x, s.vel.x), Times(s.vel.y, s.vel.y));
    SquareOfTimes(length, f);
    var r := Times(length, f);
    TimesMonotone(r, 1.0, r);
    TimesOne(r);
  }

  lemma SquareBound(d: real, v: real, f: real)
    requires f >= 0.0 && Abs(d) <= Times(Abs(v), f)
    ensures Times(d, d) <= Times(Times(f, f), Times(v, v))
  {
    var a, b := Abs(d), Times(Abs(v), f);
    hide Times;
    TimesMonotone(a, b, a);
    TimesMonotone(a, b, b);
    SquareOfTimes(d, f);
    SquareOfTimes(v, f);
    SquareOfTimes(Abs(v), f);
  }

  /** The small steps together are the whole movement, and each is a part below one unit. */
  lemma SettingFacts(solid: Solid, size: Vec, elasticity: Vec, track: bool, length: real)
    requires length >= 0.0
    ensures
      var c := SettingOf(solid, size, elasticity, track, length);
      && Sensible(c) && c.fraction > 0.0
      && Times((length.Floor + 1) as real, c.fraction) == 1.0
      && 0.0 <= Times(length, c.fraction) < 1.0
  {
    var m := (length.Floor + 1) as real;
    var f := 1.0 / m;
    assert Times(m, f) == 1.0;
    hide Times;
    TimesStrict(length, m, f);
    TimesMonotone(0.0, length, f);
    TimesOne(f);
  }

  /** In all, each axis moves at most the initial speed on that axis. */
  lemma TotalDisplacement(solid: Solid, size: Vec, elasticity: Vec, track: bool, length: real, s: Moving)
    requires length >= 0.0
    ensures
      var p := Steps(SettingOf(solid, size, elasticity, track, length), s, length.Floor + 1).pos;
      Abs(p.x - s.pos.x) <= Abs(s.vel.x) && Abs(p.y - s.pos.y) <= Abs(s.vel.y)
  {
    hide Steps, SettingOf, Abs, Times;
    var c, m := SettingOf(solid, size, elasticity, track, length), length.Floor + 1;
    SettingFacts(solid, size, elasticity, track, length);
    DisplacementSoFar(c, s, m);
    TimesOne(Abs(s.vel.x));
    TimesOne(Abs(s.vel.y));
  }

  /** The part of the movement that `n` steps make up. */
  function Part(c: Setting, n: nat): real {
    Times(n as real, c.fraction)
  }

  lemma PartNext(c: Setting, n: nat)
    ensures Part(c, n + 1) == Part(c, n) + c.fraction && Part(c, 0) == 0.0
  {
  }

  lemma {:induction false} DisplacementSoFar(c: Setting, s: Moving, n: nat)
    requires Sensible(c) && c.fraction >= 0.0
    ensures Abs(Steps(c, s, n).pos.x - s.pos.x) <= Times(Abs(s.vel.x), Part(c, n))
    ensures Abs(Steps(c, s, n).pos.y - s.pos.y) <= Times(Abs(s.vel.y), Part(c, n))
  {
    hide Step, Times, Part;
    PartNext(c, if n > 0 then n - 1 else 0);
    if n > 0 {
      DisplacementSoFar(c, s, n - 1);
      StepLength(c, s, n - 1);
      TimesSum(Abs(s.vel.x), Part(c, n - 1), c.fraction);
      TimesSum(Abs(s.vel.y), Part(c, n - 1), c.fraction);
    } else {
      TimesSum(Abs(s.vel.x), 0.0, 0.0);
      TimesSum(Abs(s.vel.y), 0.0, 0.0);
    }
  }

  /** Where nothing is in the way the box moves by exactly the velocity and keeps it. */
  lemma FreeFlight(solid: Solid, size: Vec, elasticity: Vec, track: bool, length: real, s: Moving)
    requires length >= 0.0
    requires
      var c := SettingOf(solid, size, elasticity, track, length);
      forall k: nat :: 1 <= k <= length.Floor + 1 ==> Free(c, Along(c, s, k))
    ensures
      Steps(SettingOf(solid, size, elasticity, track, length), s, length.Floor + 1)
      == s.(pos := Vec(s.pos.x + s.vel.x, s.pos.y + s.vel.y))
  {
    hide Steps, SettingOf, Free, Times;
    var c, m := SettingOf(solid, size, elasticity, track, length), length.Floor + 1;
    SettingFacts(solid, size, elasticity, track, length);
    FlightSoFar(c, s, m);
    TimesOne(s.vel.x);
    TimesOne(s.vel.y);
  }

  /** The point of the straight line after `k` steps. */
  function Along(c: Setting, s: Moving, k: nat): Vec {
    Vec(s.pos.x + Times(s.vel.x, Part(c, k)), s.pos.y + Times(s.vel.y, Part(c, k)))
  }

  lemma {:induction false} FlightSoFar(c: Setting, s: Moving, n: nat)
    requires forall k: nat :: 1 <= k <= n ==> Free(c, Along(c, s, k))
    ensures Steps(c, s, n) == s.(pos := Along(c, s, n))
  {
    hide Free, Step, Times, Part;
    PartNext(c, if n > 0 then n - 1 else 0);
    if n > 0 {
      FlightSoFar(c, s, n - 1);
      TimesSum(s.vel.x, Part(c, n - 1), c.fraction);
      TimesSum(s.vel.y, Part(c, n - 1), c.fraction);
      FreeStep(c, Steps(c, s, n - 1), Along(c, s, n));
    } else {
      TimesSum(s.vel.x, 0.0, 0.0);
      TimesSum(s.vel.y, 0.0, 0.0);
    }
  }

  lemma FreeStep(c: Setting, s: Moving, p: Vec)
    requires Free(c, p)
    requires p.x == s.pos.x + Times(s.vel.x, c.fraction) && p.y == s.pos.y + Times(s.vel.y, c.fraction)
    ensures Step(c, s) == s.(pos := p)
  {
    hide Free;
    assert Target(c, s) == p;
  }

  /** The box counts as grounded exactly if it did before or a movement downwards was stopped
      while the vertical elasticity is positive. */
  lemma {:induction false} GroundedIff(c: Setting, s: Moving, n: nat)
    ensures Steps(c, s, n).grounded <==> s.grounded || exists k: nat :: k < n && Lands(c, Steps(c, s, k))
  {
    hide StopsX, StopsY, Target;
    if n > 0 {
      GroundedIff(c, s, n - 1);
      if Lands(c, Steps(c, s, n - 1)) {
        assert n - 1 < n;
      }
    }
  }

  predicate Lands(c: Setting, s: Moving) {
    c.track && c.ey > 0.0 && s.vel.y > 0.0 && StopsY(c, s)
  }
}
