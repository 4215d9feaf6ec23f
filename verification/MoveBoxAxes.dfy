/** What the movement of a box does on each axis by itself. */
module MoveBoxAxes {
  import opened MoveBox

  /** One step, case by case: an axis that is blocked alone is the one that bounces, and both
      do where neither or each of them is. */
  lemma StepTable(c: Setting, s: Moving)
    ensures
      var x, y := s.pos.x + s.vel.x * c.fraction, s.pos.y + s.vel.y * c.fraction;
      var bounceX, bounceY := s.vel.x * -c.ex, s.vel.y * -c.ey;
      var xBlocked, yBlocked := !Free(c, Vec(x, s.pos.y)), !Free(c, Vec(s.pos.x, y));
      var r := Step(c, s);
      if Free(c, Vec(x, y)) then r.pos == Vec(x, y) && r.vel == s.vel
      else if yBlocked && !xBlocked then r.pos == Vec(x, s.pos.y) && r.vel == Vec(s.vel.x, bounceY)
      else if xBlocked && !yBlocked then r.pos == Vec(s.pos.x, y) && r.vel == Vec(bounceX, s.vel.y)
      else r.pos == s.pos && r.vel == Vec(bounceX, bounceY)
  {
    hide Free;
    assert Target(c, s) == Vec(s.pos.x + s.vel.x * c.fraction, s.pos.y + s.vel.y * c.fraction);
  }

  // ----- an axis that nothing blocks

  /** Floors and ceilings only. */
  ghost predicate FlatInX(solid: Solid) {
    forall x1, x2, y :: solid(x1, y) == solid(x2, y)
  }

  /** Walls only. */
  ghost predicate FlatInY(solid: Solid) {
    forall x, y1, y2 :: solid(x, y1) == solid(x, y2)
  }

  lemma FreeInX(c: Setting, x1: real, x2: real, y: real)
    requires FlatInX(c.solid)
    ensures Free(c, Vec(x1, y)) == Free(c, Vec(x2, y))
  {
    var hx, hy := c.size.x / 2.0, c.size.y / 2.0;
    assert c.solid(x1 - hx, y - hy) == c.solid(x2 - hx, y - hy) == c.solid(x1 + hx, y - hy) == c.solid(x2 + hx, y - hy);
    assert c.solid(x1 - hx, y + hy) == c.solid(x2 - hx, y + hy) == c.solid(x1 + hx, y + hy) == c.solid(x2 + hx, y + hy);
  }

  lemma FreeInY(c: Setting, x: real, y1: real, y2: real)
    requires FlatInY(c.solid)
    ensures Free(c, Vec(x, y1)) == Free(c, Vec(x, y2))
  {
    var hx, hy := c.size.x / 2.0, c.size.y / 2.0;
    assert c.solid(x - hx, y1 - hy) == c.solid(x - hx, y2 - hy) == c.solid(x - hx, y1 + hy) == c.solid(x - hx, y2 + hy);
    assert c.solid(x + hx, y1 - hy) == c.solid(x + hx, y2 - hy) == c.solid(x + hx, y1 + hy) == c.solid(x + hx, y2 + hy);
  }

  lemma {:induction false} SlidesInX(c: Setting, s: Moving, n: nat)
    requires FlatInX(c.solid) && Free(c, s.pos)
    ensures Steps(c, s, n).vel.x == s.vel.x
    ensures Steps(c, s, n).pos.x == s.pos.x + Times(s.vel.x, Part(c, n))
  {
    hide Free, Step, Times, Part, FlatInX;
    PartNext(c, if n > 0 then n - 1 else 0);
    if n > 0 {
      var v := Steps(c, s, n - 1);
      SlidesInX(c, s, n - 1);
      FreeAllTheWay(c, s, n - 1);
      TimesSum(s.vel.x, Part(c, n - 1), c.fraction);
      OneSlideInX(c, v);
    } else {
      TimesSum(s.vel.x, 0.0, 0.0);
    }
  }

  lemma OneSlideInX(c: Setting, s: Moving)
    requires FlatInX(c.solid) && Free(c, s.pos)
    ensures Step(c, s).vel.x == s.vel.x && Step(c, s).pos.x == s.pos.x + Times(s.vel.x, c.fraction)
  {
    hide Free, FlatInX;
    var t := Target(c, s);
    FreeInX(c, s.pos.x, t.x, t.y);
    FreeInX(c, s.pos.x, t.x, s.pos.y);
    assert s.pos == Vec(s.pos.x, s.pos.y) && t == Vec(t.x, t.y);
  }

  lemma {:induction false} SlidesInY(c: Setting, s: Moving, n: nat)
    requires FlatInY(c.solid) && Free(c, s.pos)
    ensures Steps(c, s, n).vel.y == s.vel.y
    ensures Steps(c, s, n).pos.y == s.pos.y + Times(s.vel.y, Part(c, n))
  {
    hide Free, Step, Times, Part, FlatInY;
    PartNext(c, if n > 0 then n - 1 else 0);
    if n > 0 {
      var v := Steps(c, s, n - 1);
      SlidesInY(c, s, n - 1);
      FreeAllTheWay(c, s, n - 1);
      TimesSum(s.vel.y, Part(c, n - 1), c.fraction);
      OneSlideInY(c, v);
    } else {
      TimesSum(s.vel.y, 0.0, 0.0);
    }
  }

  lemma OneSlideInY(c: Setting, s: Moving)
    requires FlatInY(c.solid) && Free(c, s.pos)
    ensures Step(c, s).vel.y == s.vel.y && Step(c, s).pos.y == s.pos.y + Times(s.vel.y, c.fraction)
  {
    hide Free, FlatInY;
    var t := Target(c, s);
    FreeInY(c, s.pos.x, s.pos.y, t.y);
    FreeInY(c, t.x, s.pos.y, t.y);
    assert s.pos == Vec(s.pos.x, s.pos.y) && t == Vec(t.x, t.y);
  }

  /** Where there are only floors and ceilings, a whole movement goes on in x with full speed
      whatever happens in y; and where there are only walls, in y whatever happens in x. */
  lemma AxesAreSeparate(solid: Solid, size: Vec, elasticity: Vec, track: bool, length: real, s: Moving)
    requires length >= 0.0 && !TestBox(solid, s.pos, size)
    ensures
      var r := Steps(SettingOf(solid, size, elasticity, track, length), s, length.Floor + 1);
      && (FlatInX(solid) ==> r.pos.x == s.pos.x + s.vel.x && r.vel.x == s.vel.x)
      && (FlatInY(solid) ==> r.pos.y == s.pos.y + s.vel.y && r.vel.y == s.vel.y)
  {
    var c, m := SettingOf(solid, size, elasticity, track, length), length.Floor + 1;
    assert Free(c, s.pos);
    hide Steps, SettingOf, Free, TestBox, Times, FlatInX, FlatInY;
    SettingFacts(solid, size, elasticity, track, length);
    assert c.solid == solid by { SettingSolid(solid, size, elasticity, track, length); }
    TimesOne(s.vel.x);
    TimesOne(s.vel.y);
    if FlatInX(solid) {
      SlidesInX(c, s, m);
    }
    if FlatInY(solid) {
      SlidesInY(c, s, m);
    }
  }

  lemma SettingSolid(solid: Solid, size: Vec, elasticity: Vec, track: bool, length: real)
    requires length >= 0.0
    ensures SettingOf(solid, size, elasticity, track, length).solid == solid
  {
  }

  // ----- the speed that is left

  function Power(b: real, k: nat): real {
    if k == 0 then 1.0 else Times(Power(b, k - 1), b)
  }

  /** Step `k` does not move the box on the axis as its speed would. */
  predicate HeldBackX(c: Setting, s: Moving, k: nat) {
    Steps(c, s, k + 1).pos.x != Steps(c, s, k).pos.x + Times(Steps(c, s, k).vel.x, c.fraction)
  }

  predicate HeldBackY(c: Setting, s: Moving, k: nat) {
    Steps(c, s, k + 1).pos.y != Steps(c, s, k).pos.y + Times(Steps(c, s, k).vel.y, c.fraction)
  }

  /** How often that happens in `n` steps. */
  function StopsInX(c: Setting, s: Moving, n: nat): nat {
    if n == 0 then 0 else StopsInX(c, s, n - 1) + if HeldBackX(c, s, n - 1) then 1 else 0
  }

  function StopsInY(c: Setting, s: Moving, n: nat): nat {
    if n == 0 then 0 else StopsInY(c, s, n - 1) + if HeldBackY(c, s, n - 1) then 1 else 0
  }

  lemma TimesAssociative(a: real, b: real, c: real)
    ensures Times(Times(a, b), c) == Times(a, Times(b, c))
  {
    assert a * b * c == a * (b * c);
  }

  lemma TimesZero(a: real, b: real)
    ensures Times(a, b) == 0.0 <==> a == 0.0 || b == 0.0
  {
  }

  /** One step on one axis: held back it bounces, otherwise the speed stays. */
  lemma StepOnAxis(c: Setting, s: Moving)
    requires c.fraction > 0.0
    ensures
      var r := Step(c, s);
      && r.vel.x == (if r.pos.x != s.pos.x + Times(s.vel.x, c.fraction) then Times(s.vel.x, -c.ex) else s.vel.x)
      && r.vel.y == (if r.pos.y != s.pos.y + Times(s.vel.y, c.fraction) then Times(s.vel.y, -c.ey) else s.vel.y)
  {
    hide StopsX, StopsY;
    TimesZero(s.vel.x, c.fraction);
    TimesZero(s.vel.y, c.fraction);
    TimesZero(s.vel.x, -c.ex);
    TimesZero(s.vel.y, -c.ey);
  }

  /** The speed left on an axis is the initial one, turned round and multiplied by the
      elasticity of that axis once for every stop. */
  lemma {:induction false} SpeedLeft(c: Setting, s: Moving, n: nat)
    requires c.fraction > 0.0
    ensures Steps(c, s, n).vel.x == Times(s.vel.x, Power(-c.ex, StopsInX(c, s, n)))
    ensures Steps(c, s, n).vel.y == Times(s.vel.y, Power(-c.ey, StopsInY(c, s, n)))
  {
    hide Step, Times;
    if n > 0 {
      SpeedLeft(c, s, n - 1);
      StepOnAxis(c, Steps(c, s, n - 1));
      TimesAssociative(s.vel.x, Power(-c.ex, StopsInX(c, s, n - 1)), -c.ex);
      TimesAssociative(s.vel.y, Power(-c.ey, StopsInY(c, s, n - 1)), -c.ey);
    } else {
      TimesOne(s.vel.x);
      TimesOne(s.vel.y);
    }
  }

  /** The same of a whole movement, with the elasticity of the call. */
  lemma SpeedLeftAfterMove(solid: Solid, size: Vec, elasticity: Vec, track: bool, length: real, s: Moving)
    requires length >= 0.0
    ensures
      var c, m := SettingOf(solid, size, elasticity, track, length), length.Floor + 1;
      var r := Steps(c, s, m);
      && (-1.0 <= elasticity.x <= 1.0 ==> r.vel.x == s.vel.x * Power(-elasticity.x, StopsInX(c, s, m)))
      && (-1.0 <= elasticity.y <= 1.0 ==> r.vel.y == s.vel.y * Power(-elasticity.y, StopsInY(c, s, m)))
  {
    hide Steps, StopsInX, StopsInY;
    SettingFacts(solid, size, elasticity, track, length);
    SpeedLeft(SettingOf(solid, size, elasticity, track, length), s, length.Floor + 1);
  }

  // ----- corners, and the number of steps

  /** No corner of any position the box takes is solid, if none was at the start. */
  lemma NoCornerIsSolid(solid: Solid, size: Vec, elasticity: Vec, track: bool, length: real, s: Moving, n: nat)
    requires length >= 0.0
    requires forall dx, dy :: IsCorner(size, dx, dy) ==> !solid(s.pos.x + dx, s.pos.y + dy)
    ensures
      var p := Steps(SettingOf(solid, size, elasticity, track, length), s, n).pos;
      forall dx, dy :: IsCorner(size, dx, dy) ==> !solid(p.x + dx, p.y + dy)
  {
    var c := SettingOf(solid, size, elasticity, track, length);
    hide Steps, Free, IsCorner;
    FreeCorners(c, s.pos);
    FreeAllTheWay(c, s, n);
    FreeCorners(c, Steps(c, s, n).pos);
  }

  /** A free box is one without a solid corner. */
  lemma FreeCorners(c: Setting, p: Vec)
    ensures Free(c, p) <==> forall dx, dy :: IsCorner(c.size, dx, dy) ==> !c.solid(p.x + dx, p.y + dy)
  {
    var hx, hy := c.size.x / 2.0, c.size.y / 2.0;
    assert IsCorner(c.size, hx, hy) && IsCorner(c.size, -hx, hy);
    assert IsCorner(c.size, hx, -hy) && IsCorner(c.size, -hx, -hy);
    assert p.x - hx == p.x + -hx && p.y - hy == p.y + -hy;
  }

  /** Half the size away on both axes. */
  predicate IsCorner(size: Vec, dx: real, dy: real) {
    (2.0 * dx == size.x || 2.0 * dx == -size.x) && (2.0 * dy == size.y || 2.0 * dy == -size.y)
  }

  /** With fewer steps a step in the open would not be shorter than one unit. */
  lemma FewestSteps(length: real, m: nat)
    requires length >= 0.0 && 1 <= m
    ensures length / m as real < 1.0 <==> m >= length.Floor + 1
  {
    var q := length / m as real;
    assert q * m as real == length;
    if q < 1.0 {
      assert length < m as real;
    } else {
      assert length >= m as real by { TimesMonotone(1.0, q, m as real); }
    }
  }
}
