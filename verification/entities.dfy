/** The physics entity of the platformer: the axis-separated collision
    resolver against the tile grid, facing, gravity, and the player's jump,
    wall-slide, air-time and dash counters. */
module Entities {
  import opened Geometry
  import opened Tilemap

  /** The four-way contact mask, reset at every update. */
  datatype Collisions = Collisions(up: bool, down: bool, right: bool, left: bool)

  const NoCollisions := Collisions(false, false, false, false)

  datatype Axis = Horizontal | Vertical

  /** The state of one axis pass over the candidate rectangles: the entity
      rectangle as clamped so far, whether a contact in the positive (right,
      down) or negative (left, up) direction was marked, and whether any
      candidate overlapped, in which case the source copies the rectangle's
      coordinate back into the entity position. */
  datatype Pass = Pass(rect: Rect, hitPos: bool, hitNeg: bool, touched: bool)

  /** The rectangle of an entity at `pos`: pygame truncates the float position. */
  function EntityRect(pos: (real, real), size: (nat, nat)): (r: Rect)
    ensures r.w == size.0 && r.h == size.1
    ensures Abs(pos.0 - r.x as real) < 1.0 && Abs(r.x as real) <= Abs(pos.0)
    ensures Abs(pos.1 - r.y as real) < 1.0 && Abs(r.y as real) <= Abs(pos.1)
  {
    Rect(Trunc(pos.0), Trunc(pos.1), size.0, size.1)
  }

  /** The entity's leading edge lies on the facing edge of `r`. */
  ghost predicate Against(er: Rect, r: Rect, d: real, axis: Axis) {
    match axis
    case Horizontal => (d > 0.0 ==> er.Right() == r.x) && (d < 0.0 ==> er.x == r.Right())
    case Vertical => (d > 0.0 ==> er.Bottom() == r.y) && (d < 0.0 ==> er.y == r.Bottom())
  }

  /** Moving by `d` along `axis` into overlapping `r`: put the leading edge
      of the entity against the facing edge of `r`. */
  function Clamp(er: Rect, r: Rect, d: real, axis: Axis): (c: Rect)
    ensures Against(c, r, d, axis)
    ensures c.w == er.w && c.h == er.h
    ensures axis == Horizontal ==> c.y == er.y
    ensures axis == Vertical ==> c.x == er.x
    ensures d == 0.0 ==> c == er
  {
    match axis
    case Horizontal =>
      if d > 0.0 then er.(x := r.x - er.w) else if d < 0.0 then er.(x := r.Right()) else er
    case Vertical =>
      if d > 0.0 then er.(y := r.y - er.h) else if d < 0.0 then er.(y := r.Bottom()) else er
  }

  /** One candidate of an axis pass: nothing happens unless the current
      entity rectangle overlaps it. */
  function Visit(p: Pass, r: Rect, d: real, axis: Axis): (q: Pass)
    ensures p.rect.Collides(r) ==> q.touched && Against(q.rect, r, d, axis)
    ensures p.rect.Collides(r) ==> (q.hitPos <==> p.hitPos || d > 0.0) && (q.hitNeg <==> p.hitNeg || d < 0.0)
    ensures !p.rect.Collides(r) ==> q == p
  {
    if p.rect.Collides(r) then
      Pass(Clamp(p.rect, r, d, axis), p.hitPos || d > 0.0, p.hitNeg || d < 0.0, true)
    else p
  }

  /** An axis pass over the candidates in order. The entity rectangle is
      carried from one candidate to the next, so a later overlap is tested
      against the rectangle as already clamped. */
  function Sweep(p: Pass, rs: seq<Rect>, d: real, axis: Axis): (q: Pass)
    ensures q.rect.w == p.rect.w && q.rect.h == p.rect.h
    ensures p.touched ==> q.touched
    ensures p.hitPos ==> q.hitPos
    ensures p.hitNeg ==> q.hitNeg
    decreases |rs|
  {
    if rs == [] then p else Sweep(Visit(p, rs[0], d, axis), rs[1..], d, axis)
  }

  /** The result of a whole resolver step: the new position and the mask. */
  datatype Outcome = Outcome(pos: (real, real), collisions: Collisions)

  /** `PhysicsEntity.update`'s position and mask for frame displacement `fm`:
      X first against the candidates around the position before the move,
      then Y against candidates queried afresh at the position after the X
      pass. Each coordinate ends either where the displacement takes it or,
      after an overlap, on a whole pixel. */
  function Resolve(grid: map<Cell, Tile>, ts: int, pos: (real, real), size: (nat, nat), fm: (real, real)): (o: Outcome)
    requires ts > 0
    ensures o.pos.0 == pos.0 + fm.0 || o.pos.0 == o.pos.0.Floor as real
    ensures o.pos.1 == pos.1 + fm.1 || o.pos.1 == o.pos.1.Floor as real
  {
    var movedX := (pos.0 + fm.0, pos.1);
    var px := Sweep(Pass(EntityRect(movedX, size), false, false, false), PhysicsRectsAt(grid, ts, pos, size), fm.0, Horizontal);
    var x := if px.touched then px.rect.x as real else movedX.0;
    var movedY := (x, pos.1 + fm.1);
    var py := Sweep(Pass(EntityRect(movedY, size), false, false, false), PhysicsRectsAt(grid, ts, movedY, size), fm.1, Vertical);
    var y := if py.touched then py.rect.y as real else movedY.1;
    Outcome((x, y), Collisions(py.hitNeg, py.hitPos, px.hitPos, px.hitNeg))
  }

  // ---------------------------------------------------------------------
  // Properties of an axis pass

  /** A pass marks a direction only when moving that way, keeps the
      rectangle's size, moves it only along its own axis, and marks a
      direction only after some overlap. */
  lemma {:induction false} SweepShape(p: Pass, rs: seq<Rect>, d: real, axis: Axis)
    ensures var q := Sweep(p, rs, d, axis);
      && (q.hitPos ==> p.hitPos || d > 0.0)
      && (q.hitNeg ==> p.hitNeg || d < 0.0)
      && ((q.hitPos && !p.hitPos) || (q.hitNeg && !p.hitNeg) ==> q.touched)
      && (p.touched ==> q.touched)
      && q.rect.w == p.rect.w && q.rect.h == p.rect.h
      && (axis == Horizontal ==> q.rect.y == p.rect.y)
      && (axis == Vertical ==> q.rect.x == p.rect.x)
    decreases |rs|
  {
    if rs != [] {
      SweepShape(Visit(p, rs[0], d, axis), rs[1..], d, axis);
    }
  }

  /** When no candidate overlaps the entity, a pass changes nothing. */
  lemma {:induction false} SweepFree(p: Pass, rs: seq<Rect>, d: real, axis: Axis)
    requires forall r :: r in rs ==> !p.rect.Collides(r)
    ensures Sweep(p, rs, d, axis) == p
  {
    if rs != [] {
      SweepFree(p, rs[1..], d, axis);
    }
  }

  /** A pass over `rs + [r]` is the pass over `rs` followed by `r`. */
  lemma {:induction false} SweepSnoc(p: Pass, rs: seq<Rect>, r: Rect, d: real, axis: Axis)
    ensures Sweep(p, rs + [r], d, axis) == Visit(Sweep(p, rs, d, axis), r, d, axis)
    decreases |rs|
  {
    if rs == [] {
      assert [r][1..] == [];
    } else {
      assert (rs + [r])[1..] == rs[1..] + [r];
      SweepSnoc(Visit(p, rs[0], d, axis), rs[1..], r, d, axis);
    }
  }

  /** The last overlapping candidate wins: if the rectangle as clamped by the
      earlier candidates overlaps `r`, the pass ends with the entity's
      leading edge on `r`'s facing edge; if it does not, `r` changes nothing. */
  lemma SweepLastWins(p: Pass, rs: seq<Rect>, r: Rect, d: real, axis: Axis)
    ensures var before := Sweep(p, rs, d, axis);
      var after := Sweep(p, rs + [r], d, axis);
      && (before.rect.Collides(r) ==> after.touched && Against(after.rect, r, d, axis))
      && (!before.rect.Collides(r) ==> after == before)
  {
    SweepSnoc(p, rs, r, d, axis);
  }

  /** A pass that overlapped anything ends against one of the candidates,
      or, if the entity was already placed before, possibly where it was. */
  lemma {:induction false} SweepEndsAgainst(p: Pass, rs: seq<Rect>, d: real, axis: Axis)
    ensures var q := Sweep(p, rs, d, axis);
      q.touched ==> (p.touched && q.rect == p.rect) || exists r :: r in rs && Against(q.rect, r, d, axis)
    decreases |rs|
  {
    if rs != [] {
      var p1 := Visit(p, rs[0], d, axis);
      SweepEndsAgainst(p1, rs[1..], d, axis);
      var q := Sweep(p, rs, d, axis);
      if q.touched && p1.touched && q.rect == p1.rect {
        if p.rect.Collides(rs[0]) {
          assert Against(q.rect, rs[0], d, axis);
        }
      }
    }
  }

  // ---------------------------------------------------------------------
  // Properties of a resolver step

  /** The mask never holds both horizontal or both vertical directions, and
      each direction is set only when the frame displacement goes that way. */
  lemma ResolveMask(grid: map<Cell, Tile>, ts: int, pos: (real, real), size: (nat, nat), fm: (real, real))
    requires ts > 0
    ensures var c := Resolve(grid, ts, pos, size, fm).collisions;
      && (c.right ==> fm.0 > 0.0) && (c.left ==> fm.0 < 0.0)
      && (c.down ==> fm.1 > 0.0) && (c.up ==> fm.1 < 0.0)
      && !(c.left && c.right) && !(c.up && c.down)
  {
    var movedX := (pos.0 + fm.0, pos.1);
    SweepShape(Pass(EntityRect(movedX, size), false, false, false), PhysicsRectsAt(grid, ts, pos, size), fm.0, Horizontal);
    var px := Sweep(Pass(EntityRect(movedX, size), false, false, false), PhysicsRectsAt(grid, ts, pos, size), fm.0, Horizontal);
    var movedY := (if px.touched then px.rect.x as real else movedX.0, pos.1 + fm.1);
    SweepShape(Pass(EntityRect(movedY, size), false, false, false), PhysicsRectsAt(grid, ts, movedY, size), fm.1, Vertical);
  }

  /** With no candidate overlapping on either pass, the entity moves by the
      whole frame displacement and the mask stays clear. */
  lemma ResolveFree(grid: map<Cell, Tile>, ts: int, pos: (real, real), size: (nat, nat), fm: (real, real))
    requires ts > 0
    requires forall r :: r in PhysicsRectsAt(grid, ts, pos, size) ==> !EntityRect((pos.0 + fm.0, pos.1), size).Collides(r)
    requires var target := (pos.0 + fm.0, pos.1 + fm.1);
      forall r :: r in PhysicsRectsAt(grid, ts, target, size) ==> !EntityRect(target, size).Collides(r)
    ensures Resolve(grid, ts, pos, size, fm) == Outcome((pos.0 + fm.0, pos.1 + fm.1), NoCollisions)
  {
    var movedX := (pos.0 + fm.0, pos.1);
    SweepFree(Pass(EntityRect(movedX, size), false, false, false), PhysicsRectsAt(grid, ts, pos, size), fm.0, Horizontal);
    var target := (pos.0 + fm.0, pos.1 + fm.1);
    SweepFree(Pass(EntityRect(target, size), false, false, false), PhysicsRectsAt(grid, ts, target, size), fm.1, Vertical);
  }

  /** A pass from a clear start that marks a direction ends with the entity
      against one of its candidates. */
  lemma PassContact(er: Rect, rs: seq<Rect>, d: real, axis: Axis)
    ensures var q := Sweep(Pass(er, false, false, false), rs, d, axis);
      && q.rect.w == er.w && q.rect.h == er.h
      && (q.hitPos ==> d > 0.0) && (q.hitNeg ==> d < 0.0)
      && (q.hitPos || q.hitNeg ==> q.touched && exists r :: r in rs && Against(q.rect, r, d, axis))
  {
    SweepShape(Pass(er, false, false, false), rs, d, axis);
    SweepEndsAgainst(Pass(er, false, false, false), rs, d, axis);
  }

  /** A marked contact leaves the entity's edge on the facing edge of one of
      that pass's candidates: right edge on a tile's left edge, left edge on
      a right edge, bottom on a top, top on a bottom. */
  lemma ResolveContact(grid: map<Cell, Tile>, ts: int, pos: (real, real), size: (nat, nat), fm: (real, real))
    requires ts > 0
    ensures var o := Resolve(grid, ts, pos, size, fm);
      var xs := PhysicsRectsAt(grid, ts, pos, size);
      var ys := PhysicsRectsAt(grid, ts, (o.pos.0, pos.1 + fm.1), size);
      && (o.collisions.right ==> exists r :: r in xs && o.pos.0 + size.0 as real == r.x as real)
      && (o.collisions.left ==> exists r :: r in xs && o.pos.0 == r.Right() as real)
      && (o.collisions.down ==> exists r :: r in ys && o.pos.1 + size.1 as real == r.y as real)
      && (o.collisions.up ==> exists r :: r in ys && o.pos.1 == r.Bottom() as real)
  {
    var o := Resolve(grid, ts, pos, size, fm);
    var movedX := (pos.0 + fm.0, pos.1);
    var xs := PhysicsRectsAt(grid, ts, pos, size);
    var px := Sweep(Pass(EntityRect(movedX, size), false, false, false), xs, fm.0, Horizontal);
    PassContact(EntityRect(movedX, size), xs, fm.0, Horizontal);
    var movedY := (if px.touched then px.rect.x as real else movedX.0, pos.1 + fm.1);
    var ys := PhysicsRectsAt(grid, ts, movedY, size);
    var py := Sweep(Pass(EntityRect(movedY, size), false, false, false), ys, fm.1, Vertical);
    PassContact(EntityRect(movedY, size), ys, fm.1, Vertical);
    assert o == Outcome((movedY.0, if py.touched then py.rect.y as real else movedY.1), Collisions(py.hitNeg, py.hitPos, px.hitPos, px.hitNeg));
    if o.collisions.right {
      var r :| r in xs && Against(px.rect, r, fm.0, Horizontal);
      assert o.pos.0 + size.0 as real == r.x as real;
    }
    if o.collisions.left {
      var r :| r in xs && Against(px.rect, r, fm.0, Horizontal);
      assert o.pos.0 == r.Right() as real;
    }
    if o.collisions.down {
      var r :| r in ys && Against(py.rect, r, fm.1, Vertical);
      assert o.pos.1 + size.1 as real == r.y as real;
    }
    if o.collisions.up {
      var r :| r in ys && Against(py.rect, r, fm.1, Vertical);
      assert o.pos.1 == r.Bottom() as real;
    }
  }

  /** The two halves of `update`, as their methods leave the state, make up
      one resolver step. */
  lemma ResolveByPasses(grid: map<Cell, Tile>, ts: int, start: (real, real), size: (nat, nat), fm: (real, real),
                        rects: seq<Rect>, afterX: (real, real), maskX: Collisions, final: (real, real), mask: Collisions)
    requires ts > 0 && rects == PhysicsRectsAt(grid, ts, start, size)
    requires var q := Sweep(Pass(EntityRect((start.0 + fm.0, start.1), size), false, false, false), rects, fm.0, Horizontal);
      && afterX == (if q.touched then q.rect.x as real else start.0 + fm.0, start.1)
      && maskX == Collisions(false, false, q.hitPos, q.hitNeg)
    requires var moved := (afterX.0, afterX.1 + fm.1);
      var q := Sweep(Pass(EntityRect(moved, size), false, false, false), PhysicsRectsAt(grid, ts, moved, size), fm.1, Vertical);
      && final == (afterX.0, if q.touched then q.rect.y as real else afterX.1 + fm.1)
      && mask == maskX.(up := q.hitNeg, down := q.hitPos)
    ensures Outcome(final, mask) == Resolve(grid, ts, start, size, fm)
  {
    var px := Sweep(Pass(EntityRect((start.0 + fm.0, start.1), size), false, false, false), rects, fm.0, Horizontal);
    assert afterX.1 == start.1;
    var movedY := (afterX.0, start.1 + fm.1);
    var py := Sweep(Pass(EntityRect(movedY, size), false, false, false), PhysicsRectsAt(grid, ts, movedY, size), fm.1, Vertical);
    assert final == (afterX.0, if py.touched then py.rect.y as real else movedY.1);
    assert mask == Collisions(py.hitNeg, py.hitPos, px.hitPos, px.hitNeg);
  }

  // ---------------------------------------------------------------------
  // Velocity rules

  /** Gravity: 0.1 more downward speed, at most 5, and none after a vertical
      contact. */
  function Gravity(vy: real, stopped: bool): (r: real)
    ensures r <= 5.0
    ensures stopped ==> r == 0.0
    ensures !stopped && vy < 5.0 ==> vy < r
    ensures !stopped ==> r == 5.0 || r == vy + 0.1
  {
    if stopped then 0.0 else Min(5.0, vy + 0.1)
  }

  /** The vertical speed after `k` updates without vertical contact. */
  function Falling(vy: real, k: nat): real {
    if k == 0 then vy else Gravity(Falling(vy, k - 1), false)
  }

  /** Falling freely, the speed grows by 0.1 per update until it reaches 5,
      and then stays there. */
  lemma {:induction false} FallingSpeed(vy: real, k: nat)
    requires vy <= 5.0
    ensures Falling(vy, k) == Min(5.0, vy + k as real * 0.1)
  {
    if k > 0 {
      FallingSpeed(vy, k - 1);
    }
  }

  /** Facing after a movement intent: right faces right, left faces left,
      none keeps the old facing (`flip` true means facing left). */
  function Facing(flip: bool, mx: real): (r: bool)
    ensures mx > 0.0 ==> !r
    ensures mx < 0.0 ==> r
    ensures mx == 0.0 ==> r == flip
  {
    if mx > 0.0 then false else if mx < 0.0 then true else flip
  }

  /** The dash timer one update later: one step toward zero, never past it. */
  function DashTick(d: int): (r: int)
    ensures d > 0 ==> 0 <= r == d - 1
    ensures d < 0 ==> 0 >= r == d + 1
    ensures d == 0 ==> r == 0
  {
    if d > 0 then MaxInt(0, d - 1)
    else if d < 0 then MinInt(0, d + 1)
    else 0
  }

  /** The dash timer after `k` updates. */
  function DashAfter(d: int, k: nat): int {
    if k == 0 then d else DashTick(DashAfter(d, k - 1))
  }

  /** A dash of length |d| counts down one per update and stops at zero:
      a dash started at 60 lasts exactly 60 updates. */
  lemma {:induction false} DashCountdown(d: int, k: nat)
    ensures d >= 0 ==> DashAfter(d, k) == MaxInt(0, d - k)
    ensures d <= 0 ==> DashAfter(d, k) == MinInt(0, d + k)
  {
    if k > 0 {
      DashCountdown(d, k - 1);
    }
  }

  /** The dash's horizontal speed: 8 pixels per update in the dash direction
      while more than 50 updates remain, cut to 0.8 on the last such update;
      otherwise the speed is left as it is. */
  function DashVelocity(d: int, vx: real): (r: real)
    ensures d > 51 ==> r == 8.0
    ensures d < -51 ==> r == -8.0
    ensures d == 51 ==> r == 0.8
    ensures d == -51 ==> r == -0.8
    ensures -50 <= d <= 50 ==> r == vx
  {
    if d > 50 || d < -50 then
      var v := if d > 0 then 8.0 else -8.0;
      if d == 51 || d == -51 then v * 0.1 else v
    else vx
  }

  /** Air friction: the horizontal speed moves 0.1 toward zero and never
      changes sign. */
  function Friction(vx: real): (r: real)
    ensures vx >= 0.0 ==> 0.0 <= r <= vx
    ensures vx <= 0.0 ==> vx <= r <= 0.0
    ensures Abs(r) == Max(Abs(vx) - 0.1, 0.0)
  {
    if vx > 0.0 then Max(vx - 0.1, 0.0) else Min(vx + 0.1, 0.0)
  }

  /** The player's animation choice. */
  datatype Action = Idle | Run | Jump | WallSlide

  /** Wall sliding takes precedence, then being in the air, then running. */
  function PlayerAction(wallSlide: bool, airTime: int, mx: real): (a: Action)
    ensures a == WallSlide <==> wallSlide
    ensures a == Jump <==> !wallSlide && airTime > 4
    ensures a == Run <==> !wallSlide && airTime <= 4 && mx != 0.0
  {
    if wallSlide then WallSlide
    else if airTime > 4 then Jump
    else if mx != 0.0 then Run
    else Idle
  }

  // ---------------------------------------------------------------------
  // Entities

  class PhysicsEntity {
    var pos: (real, real)
    const size: (nat, nat)
    var velocity: (real, real)
    var collisions: Collisions
    /** True when facing left. */
    var flip: bool
    var lastMovement: (real, real)

    constructor (pos: (real, real), size: (nat, nat))
      ensures this.pos == pos && this.size == size
      ensures velocity == (0.0, 0.0) && collisions == NoCollisions
      ensures !flip && lastMovement == (0.0, 0.0)
    {
      this.pos := pos;
      this.size := size;
      velocity := (0.0, 0.0);
      collisions := NoCollisions;
      flip := false;
      lastMovement := (0.0, 0.0);
    }

    /** `rect()`: the collision rectangle at the current position. */
    function CurrentRect(): (r: Rect)
      reads this
      ensures r.w == size.0 && r.h == size.1
      ensures Abs(pos.0 - r.x as real) < 1.0 && Abs(pos.1 - r.y as real) < 1.0
    {
      EntityRect(pos, size)
    }

    /** The X half of `update`: move by `dx`, then clamp against each
        overlapping candidate in turn; `rects` were queried before the move. */
    method PassX(rects: seq<Rect>, dx: real)
      requires collisions == NoCollisions
      modifies this`pos, this`collisions
      ensures var q := Sweep(Pass(EntityRect((old(pos).0 + dx, old(pos).1), size), false, false, false), rects, dx, Horizontal);
        && pos == (if q.touched then q.rect.x as real else old(pos).0 + dx, old(pos).1)
        && collisions == Collisions(false, false, q.hitPos, q.hitNeg)
    {
      pos := (pos.0 + dx, pos.1);
      var entityRect := EntityRect(pos, size);
      ghost var start := Pass(entityRect, false, false, false);
      ghost var touched := false;
      for i := 0 to |rects|
        invariant Sweep(start, rects, dx, Horizontal) ==
          Sweep(Pass(entityRect, collisions.right, collisions.left, touched), rects[i..], dx, Horizontal)
        invariant pos == (if touched then entityRect.x as real else old(pos).0 + dx, old(pos).1)
        invariant !collisions.up && !collisions.down
      {
        assert rects[i..][1..] == rects[i + 1..];
        if entityRect.Collides(rects[i]) {
          if dx > 0.0 {
            entityRect := entityRect.(x := rects[i].x - entityRect.w);
            collisions := collisions.(right := true);
          }
          if dx < 0.0 {
            entityRect := entityRect.(x := rects[i].Right());
            collisions := collisions.(left := true);
          }
          pos := (entityRect.x as real, pos.1);
          touched := true;
        }
      }
    }

    /** The Y half of `update`: move by `dy`, query the candidates afresh at
        the new position, and clamp against each overlapping one in turn. */
    method PassY(tm: Tilemap, dy: real)
      requires tm.Valid() && !collisions.up && !collisions.down
      modifies this`pos, this`collisions
      ensures var moved := (old(pos).0, old(pos).1 + dy);
        var q := Sweep(Pass(EntityRect(moved, size), false, false, false), PhysicsRectsAt(tm.grid, tm.tileSize, moved, size), dy, Vertical);
        && pos == (old(pos).0, if q.touched then q.rect.y as real else old(pos).1 + dy)
        && collisions == old(collisions).(up := q.hitNeg, down := q.hitPos)
    {
      pos := (pos.0, pos.1 + dy);
      var entityRect := EntityRect(pos, size);
      ghost var start := Pass(entityRect, false, false, false);
      ghost var touched := false;
      var rects := tm.PhysicsRectsAround(pos, size);
      for i := 0 to |rects|
        invariant Sweep(start, rects, dy, Vertical) ==
          Sweep(Pass(entityRect, collisions.down, collisions.up, touched), rects[i..], dy, Vertical)
        invariant pos == (old(pos).0, if touched then entityRect.y as real else old(pos).1 + dy)
        invariant collisions.right == old(collisions).right && collisions.left == old(collisions).left
      {
        assert rects[i..][1..] == rects[i + 1..];
        if entityRect.Collides(rects[i]) {
          if dy > 0.0 {
            entityRect := entityRect.(y := rects[i].y - entityRect.h);
            collisions := collisions.(down := true);
          }
          if dy < 0.0 {
            entityRect := entityRect.(y := rects[i].Bottom());
            collisions := collisions.(up := true);
          }
          pos := (pos.0, entityRect.y as real);
          touched := true;
        }
      }
    }

    /** The collision part of `update`: clear the mask and resolve the
        displacement `fm` on X and then on Y. */
    method Move(tm: Tilemap, fm: (real, real))
      requires tm.Valid()
      modifies this`pos, this`collisions
      ensures Outcome(pos, collisions) == Resolve(tm.grid, tm.tileSize, old(pos), size, fm)
    {
      ghost var start := pos;
      collisions := NoCollisions;
      var rects := tm.PhysicsRectsAround(pos, size);
      PassX(rects, fm.0);
      ghost var afterX := pos;
      ghost var maskX := collisions;
      PassY(tm, fm.1);
      ResolveByPasses(tm.grid, tm.tileSize, start, size, fm, rects, afterX, maskX, pos, collisions);
    }

    /** `update`: resolve the frame displacement (intent plus velocity) on X
        and then on Y, set facing, remember the intent, apply gravity. */
    method Update(tm: Tilemap, movement: (real, real))
      requires tm.Valid()
      modifies this
      ensures Outcome(pos, collisions) ==
        Resolve(tm.grid, tm.tileSize, old(pos), size, (movement.0 + old(velocity).0, movement.1 + old(velocity).1))
      ensures flip == Facing(old(flip), movement.0)
      ensures lastMovement == movement
      ensures velocity == (old(velocity).0, Gravity(old(velocity).1, collisions.up || collisions.down))
    {
      var fm := (movement.0 + velocity.0, movement.1 + velocity.1);
      Move(tm, fm);
      if movement.0 > 0.0 {
        flip := false;
      }
      if movement.0 < 0.0 {
        flip := true;
      }
      lastMovement := movement;
      velocity := (velocity.0, Min(5.0, velocity.1 + 0.1));
      if collisions.down || collisions.up {
        velocity := (velocity.0, 0.0);
      }
    }
  }

  class Player {
    /** The physics state the player shares with every entity. */
    const body: PhysicsEntity
    var airTime: int
    var jumps: int
    var wallSlide: bool
    var dashing: int
    var action: Action

    /** At most one jump is banked and a dash lasts at most 60 updates. */
    ghost predicate Valid()
      reads this
    {
      0 <= jumps <= 1 && -60 <= dashing <= 60
    }

    constructor (pos: (real, real), size: (nat, nat))
      ensures Valid() && fresh(body)
      ensures body.pos == pos && body.size == size && body.velocity == (0.0, 0.0)
      ensures !body.flip && body.collisions == NoCollisions && body.lastMovement == (0.0, 0.0)
      ensures airTime == 0 && jumps == 1 && !wallSlide && dashing == 0 && action == Idle
    {
      body := new PhysicsEntity(pos, size);
      airTime := 0;
      jumps := 1;
      wallSlide := false;
      dashing := 0;
      action := Idle;
    }

    /** `Player.update`: the physics step, then landing, wall slide,
        animation choice, the dash countdown and its burst of speed, and
        friction on the horizontal speed. */
    method Update(tm: Tilemap, movement: (real, real))
      requires Valid() && tm.Valid()
      modifies this, body
      ensures Valid()
      ensures Outcome(body.pos, body.collisions) ==
        Resolve(tm.grid, tm.tileSize, old(body.pos), body.size, (movement.0 + old(body.velocity).0, movement.1 + old(body.velocity).1))
      ensures body.lastMovement == movement
      ensures body.collisions.down ==> airTime == 0 && jumps == 1
      ensures !body.collisions.down ==> airTime == old(airTime) + 1 && jumps == old(jumps)
      ensures wallSlide <==> (body.collisions.right || body.collisions.left) && airTime > 4
      ensures var g := Gravity(old(body.velocity).1, body.collisions.up || body.collisions.down);
        body.velocity.1 == if wallSlide then Min(g, 0.5) else g
      ensures body.flip == if wallSlide then !body.collisions.right else Facing(old(body.flip), movement.0)
      ensures action == PlayerAction(wallSlide, airTime, movement.0)
      ensures dashing == DashTick(old(dashing))
      ensures body.velocity.0 == Friction(DashVelocity(dashing, old(body.velocity).0))
    {
      body.Update(tm, movement);
      Land();
      SlideOnWall(movement.0);
      DashStep();
    }

    /** Landing: the air-time counter grows each update and is reset, with
        the jump refilled, on ground contact. */
    method Land()
      modifies this`airTime, this`jumps
      ensures body.collisions.down ==> airTime == 0 && jumps == 1
      ensures !body.collisions.down ==> airTime == old(airTime) + 1 && jumps == old(jumps)
    {
      airTime := airTime + 1;
      if body.collisions.down {
        airTime := 0;
        jumps := 1;
      }
    }

    /** Wall slide: touching a wall after more than four updates in the air
        caps the fall at 0.5 and faces away from the wall; then the
        animation choice. */
    method SlideOnWall(mx: real)
      modifies this`wallSlide, this`action, body`velocity, body`flip
      ensures wallSlide <==> (body.collisions.right || body.collisions.left) && airTime > 4
      ensures body.velocity == (old(body.velocity).0, if wallSlide then Min(old(body.velocity).1, 0.5) else old(body.velocity).1)
      ensures body.flip == if wallSlide then !body.collisions.right else old(body.flip)
      ensures action == PlayerAction(wallSlide, airTime, mx)
    {
      wallSlide := false;
      if (body.collisions.right || body.collisions.left) && airTime > 4 {
        wallSlide := true;
        body.velocity := (body.velocity.0, Min(body.velocity.1, 0.5));
        if body.collisions.right {
          body.flip := false;
        } else {
          body.flip := true;
        }
        action := WallSlide;
      }
      if !wallSlide {
        if airTime > 4 {
          action := Action.Jump;
        } else if mx != 0.0 {
          action := Run;
        } else {
          action := Idle;
        }
      }
    }

    /** The dash: count the timer toward zero, drive the horizontal speed
        while the dash is in its first ten updates, then apply friction. */
    method DashStep()
      modifies this`dashing, body`velocity
      ensures dashing == DashTick(old(dashing))
      ensures body.velocity == (Friction(DashVelocity(dashing, old(body.velocity).0)), old(body.velocity).1)
    {
      if dashing > 0 {
        dashing := MaxInt(0, dashing - 1);
      }
      if dashing < 0 {
        dashing := MinInt(0, dashing + 1);
      }
      if dashing > 50 || dashing < -50 {
        body.velocity := (if dashing > 0 then 8.0 else -8.0, body.velocity.1);
        if dashing == 51 || dashing == -51 {
          body.velocity := (body.velocity.0 * 0.1, body.velocity.1);
        }
      }
      if body.velocity.0 > 0.0 {
        body.velocity := (Max(body.velocity.0 - 0.1, 0.0), body.velocity.1);
      } else {
        body.velocity := (Min(body.velocity.0 + 0.1, 0.0), body.velocity.1);
      }
    }

    /** `Player.jump`. Wall sliding, it only ever jumps off the wall, and only
        when the last intent pushed into the wall; otherwise it spends a
        banked jump. The result is true exactly for a wall jump. */
    method Jump() returns (wallJumped: bool)
      requires Valid()
      modifies this, body
      ensures Valid()
      ensures body.pos == old(body.pos) && body.collisions == old(body.collisions)
      ensures body.flip == old(body.flip) && body.lastMovement == old(body.lastMovement)
      ensures wallSlide == old(wallSlide) && dashing == old(dashing) && action == old(action)
      ensures wallJumped <==> (old(wallSlide) &&
        ((body.flip && body.lastMovement.0 < 0.0) || (!body.flip && body.lastMovement.0 > 0.0)))
      ensures wallJumped ==>
        && body.velocity == (if body.flip then 3.5 else -3.5, -2.5)
        && airTime == 5 && jumps == MaxInt(0, old(jumps) - 1)
      ensures !old(wallSlide) && old(jumps) != 0 ==>
        body.velocity == (old(body.velocity).0, -3.5) && jumps == old(jumps) - 1 && airTime == 5
      ensures !wallJumped && (old(wallSlide) || old(jumps) == 0) ==>
        body.velocity == old(body.velocity) && jumps == old(jumps) && airTime == old(airTime)
    {
      wallJumped := false;
      if wallSlide {
        if body.flip && body.lastMovement.0 < 0.0 {
          body.velocity := (3.5, -2.5);
          airTime := 5;
          jumps := MaxInt(0, jumps - 1);
          wallJumped := true;
        } else if !body.flip && body.lastMovement.0 > 0.0 {
          body.velocity := (-3.5, -2.5);
          airTime := 5;
          jumps := MaxInt(0, jumps - 1);
          wallJumped := true;
        }
      } else if jumps != 0 {
        body.velocity := (body.velocity.0, -3.5);
        jumps := jumps - 1;
        airTime := 5;
      }
    }

    /** `Player.dash`: start a 60-update dash in the facing direction, unless
        one is still running. */
    method Dash()
      requires Valid()
      modifies this
      ensures Valid()
      ensures old(dashing) == 0 ==> dashing == if body.flip then -60 else 60
      ensures old(dashing) != 0 ==> dashing == old(dashing)
      ensures airTime == old(airTime) && jumps == old(jumps) && wallSlide == old(wallSlide) && action == old(action)
    {
      if dashing == 0 {
        if body.flip {
          dashing := -60;
        } else {
          dashing := 60;
        }
      }
    }
  }
}
