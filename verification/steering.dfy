/** One bee's flocking step, shared by both revisions of the swarm
    (modules/Swarm.js `Bee` and swarm.js `Boid`), as functions on values.

    Numbers are `real`s. Math.sqrt, Math.asin, Math.cos, Math.sin and
    Math.PI are parameters (a `MathEnv`); Math.random() results are
    parameters too. The one piece of IEEE behaviour the step can reach is
    kept: dividing by a square root that came out 0 yields NaN, after which
    the bee's position, heading and velocity are all NaN. Such a bee is
    `lost`: every comparison with its coordinates is false, so no bee ever
    picks it as its nearest neighbour and it never finds one itself. */
module Steering {

  datatype Option<T> = None | Some(value: T)

  /** Swarm.TURN_SPEED, MIN_DIST, MAX_DIST and MOUSE_DIST */
  const TURN_SPEED: real := 0.05
  const MIN_DIST: real := 6.0
  const MAX_DIST: real := 30.0
  const MOUSE_DIST: real := 300.0

  datatype Vec = Vec(x: real, y: real)

  /** Math.sqrt, Math.asin, Math.cos, Math.sin and Math.PI */
  datatype MathEnv = MathEnv(sqrt: real -> real, asin: real -> real,
                             cos: real -> real, sin: real -> real, pi: real)

  /** The private fields of a bee: #x, #y, #angle, #vx, #vy, #size, #speed.
      `lost` means #x, #y, #angle, #vx and #vy hold NaN. */
  datatype BeeState = BeeState(x: real, y: real, angle: real, vx: real, vy: real,
                               size: real, speed: real, lost: bool)

  /** How `closest.x` and `closest.y` read: through getters of the live
      private position (modules/Swarm.js), or as the public properties that
      swarm.js's createBoids assigned once (None: never assigned). */
  datatype Readout = Live | Published(pos: seq<Option<Vec>>)

  /** `Math.random() * extent`: a random fraction of an extent. For a
      fraction in [0, 1), as Math.random() returns, the point lies in
      [0, extent). */
  function Scaled(fraction: real, extent: real): (r: real)
    ensures 0.0 <= fraction < 1.0 && 0.0 < extent ==> 0.0 <= r < extent
  {
    fraction * extent
  }

  // ---------------------------------------------------------------------
  // Nearest neighbour

  /** The quantity getClosest minimises: squared distance from `me` to `b`
      minus the square of b's size. */
  function Gap(me: BeeState, b: BeeState): real
  {
    var dx := b.x - me.x;
    var dy := b.y - me.y;
    dx * dx + dy * dy - b.size * b.size
  }

  /** Index k takes part in the search: it is not the searching bee itself
      (`mine[k]`), and neither bee has NaN coordinates. */
  predicate Eligible(me: BeeState, pool: seq<BeeState>, mine: seq<bool>, k: int)
    requires |mine| == |pool|
  {
    0 <= k < |pool| && !mine[k] && !pool[k].lost && !me.lost
  }

  /** The bee getClosest holds after scanning indices |pool|-1 down to j:
      a nearest eligible bee in [j, |pool|), and of several equally near
      ones the highest index, because only a strictly smaller gap replaces
      the current choice. */
  function ClosestFrom(me: BeeState, pool: seq<BeeState>, mine: seq<bool>, j: nat): (r: Option<nat>)
    requires |mine| == |pool| && j <= |pool|
    decreases |pool| - j
    ensures r.None? <==> forall k | j <= k < |pool| :: !Eligible(me, pool, mine, k)
    ensures r.Some? ==> j <= r.value && Eligible(me, pool, mine, r.value)
    ensures r.Some? ==> forall k | j <= k < |pool| && Eligible(me, pool, mine, k) ::
                          Gap(me, pool[r.value]) <= Gap(me, pool[k])
    ensures r.Some? ==> forall k | r.value < k < |pool| && Eligible(me, pool, mine, k) ::
                          Gap(me, pool[r.value]) < Gap(me, pool[k])
  {
    if j == |pool| then None
    else
      var rest := ClosestFrom(me, pool, mine, j + 1);
      if !Eligible(me, pool, mine, j) then rest
      else if rest.None? || Gap(me, pool[j]) < Gap(me, pool[rest.value]) then Some(j)
      else rest
  }

  function Closest(me: BeeState, pool: seq<BeeState>, mine: seq<bool>): Option<nat>
    requires |mine| == |pool|
  {
    ClosestFrom(me, pool, mine, 0)
  }

  /** The three properties of ClosestFrom's contract single out one index. */
  lemma ClosestIsUnique(me: BeeState, pool: seq<BeeState>, mine: seq<bool>, k: nat)
    requires |mine| == |pool| && Eligible(me, pool, mine, k)
    requires forall m | Eligible(me, pool, mine, m) :: Gap(me, pool[k]) <= Gap(me, pool[m])
    requires forall m | k < m < |pool| && Eligible(me, pool, mine, m) :: Gap(me, pool[k]) < Gap(me, pool[m])
    ensures Closest(me, pool, mine) == Some(k)
  {
  }

  /** The self-mask of a flock whose bees are distinct objects: only index
      `k` is the searching bee. */
  function Own(n: nat, k: nat): (mine: seq<bool>)
    ensures |mine| == n && forall j | 0 <= j < n :: mine[j] == (j == k)
  {
    seq(n, j => j == k)
  }

  // ---------------------------------------------------------------------
  // Desired direction

  /** The point the bee heads for: the shared target when both of its
      coordinates are non-zero (JavaScript truthiness), else the nearest
      bee's position as read through `.x`/`.y` (None: it reads undefined). */
  function GoalPoint(tx: real, ty: real, anchor: Option<Vec>): Option<Vec>
  {
    if tx != 0.0 && ty != 0.0 then Some(Vec(tx, ty)) else anchor
  }

  /** hx * hx + hy * hy: the square of the offset's length. */
  function SquaredLength(h: Vec): real
  {
    h.x * h.x + h.y * h.y
  }

  /** The heading vector toward offset `h`: random jitter in [-0.5, 0.5)²
      when the goal is farther than MOUSE_DIST, NaN (None) when the
      distance is 0, else h divided by its length. */
  function Heading(h: Vec, env: MathEnv, jitter: Vec): Option<Vec>
  {
    var dist := env.sqrt(SquaredLength(h));
    if dist > MOUSE_DIST then Some(Vec(jitter.x - 0.5, jitter.y - 0.5))
    else if dist == 0.0 then None
    else Some(Vec(h.x / dist, h.y / dist))
  }

  /** What Math.sqrt promises, up to rounding: the non-negative square root
      of a non-negative number. The last conjunct, that the root is 0 only
      at 0, follows from the other two; it is spelled out so that no proof
      below has to derive it. */
  ghost predicate SqrtIsRoot(env: MathEnv)
  {
    forall s: real :: s >= 0.0 ==>
      && env.sqrt(s) >= 0.0
      && env.sqrt(s) * env.sqrt(s) == s
      && (env.sqrt(s) == 0.0 <==> s == 0.0)
  }

  /** `distHeading > MOUSE_DIST` is the squared distance exceeding
      MOUSE_DIST², so no square root is needed to decide it. */
  lemma FarIffSquareFar(h: Vec, env: MathEnv)
    requires SqrtIsRoot(env)
    ensures env.sqrt(SquaredLength(h)) > MOUSE_DIST <==> SquaredLength(h) > MOUSE_DIST * MOUSE_DIST
  {
    var q := SquaredLength(h);
    assert h.x * h.x >= 0.0 && h.y * h.y >= 0.0;
    var d := env.sqrt(q);
    assert d >= 0.0 && d * d == q;
    if d > MOUSE_DIST {
      assert d * d > MOUSE_DIST * d;
    } else {
      assert d * d <= MOUSE_DIST * d;
    }
  }

  /** Beyond MOUSE_DIST the bee takes the random jitter as its heading. */
  lemma HeadingFar(h: Vec, env: MathEnv, jitter: Vec)
    requires SqrtIsRoot(env)
    requires SquaredLength(h) > MOUSE_DIST * MOUSE_DIST
    ensures Heading(h, env, jitter) == Some(Vec(jitter.x - 0.5, jitter.y - 0.5))
  {
    FarIffSquareFar(h, env);
  }

  /** At distance 0, the bee standing on its goal, the heading is NaN. */
  lemma HeadingAtGoal(h: Vec, env: MathEnv, jitter: Vec)
    requires SqrtIsRoot(env)
    ensures h == Vec(0.0, 0.0) ==> Heading(h, env, jitter) == None
  {
    if h == Vec(0.0, 0.0) {
      assert SquaredLength(h) == 0.0;
    }
  }

  /** Within MOUSE_DIST and off the goal, the heading is the offset divided
      by its length, which is positive and at most MOUSE_DIST. */
  lemma HeadingNear(h: Vec, env: MathEnv, jitter: Vec)
    requires SqrtIsRoot(env)
    requires 0.0 < SquaredLength(h) <= MOUSE_DIST * MOUSE_DIST
    ensures var d := env.sqrt(SquaredLength(h));
            0.0 < d <= MOUSE_DIST && Heading(h, env, jitter) == Some(Vec(h.x / d, h.y / d))
  {
    FarIffSquareFar(h, env);
  }

  /** Which vector the bee blends, given the neighbour gap (None: NaN). */
  datatype Steer = Cohere | Separate | Hold

  function SteerFor(gap: Option<real>): Steer
  {
    match gap
    case None => Hold
    case Some(g) => if g > MAX_DIST then Cohere else if g < MIN_DIST then Separate else Hold
  }

  /** `closest.size` as the source reads it. Neither Bee nor Boid exposes a
      `size` property (the field is private #size), so the read yields
      undefined and the neighbour gap `norm - undefined` is NaN. */
  const NEIGHBOUR_SIZE_READ: Option<real> := None

  /** distClosest: the distance to the neighbour minus its size as read. */
  function NeighbourGap(me: BeeState, anchor: Option<Vec>, env: MathEnv): Option<real>
  {
    match (anchor, NEIGHBOUR_SIZE_READ)
    case (Some(a), Some(size)) =>
      Some(env.sqrt((a.x - me.x) * (a.x - me.x) + (a.y - me.y) * (a.y - me.y)) - size)
    case _ => None
  }

  /** The unit vector toward the neighbour; None when it is NaN. */
  function TowardNeighbour(me: BeeState, anchor: Option<Vec>, env: MathEnv): Option<Vec>
  {
    match anchor
    case None => None
    case Some(a) =>
      var dx := a.x - me.x;
      var dy := a.y - me.y;
      var norm := env.sqrt(dx * dx + dy * dy);
      if norm == 0.0 then None else Some(Vec(dx / norm, dy / norm))
  }

  /** The separation/cohesion/heading choice. */
  function Blend(s: Steer, heading: Vec, toward: Option<Vec>): Option<Vec>
  {
    match s
    case Hold => Some(heading)
    case Cohere =>
      if toward.None? then None
      else Some(Vec(heading.x + toward.value.x, heading.y + toward.value.y))
    case Separate =>
      if toward.None? then None else Some(Vec(-toward.value.x, -toward.value.y))
  }

  /** v divided by its length; None (NaN) when the length is 0. */
  function Normalize(v: Vec, env: MathEnv): Option<Vec>
  {
    var norm := env.sqrt(v.x * v.x + v.y * v.y);
    if norm == 0.0 then None else Some(Vec(v.x / norm, v.y / norm))
  }

  /** The direction the bee wants to turn toward (vxAverage, vyAverage
      after normalising), or None once some division produced NaN. While
      the shared target is set, the nearest bee plays no part in it: the
      direction is the normalised heading toward the target. */
  function Desired(me: BeeState, anchor: Option<Vec>, tx: real, ty: real,
                   env: MathEnv, jitter: Vec): (r: Option<Vec>)
    ensures tx != 0.0 && ty != 0.0 ==>
              var heading := Heading(Vec(tx - me.x, ty - me.y), env, jitter);
              r == if heading.None? then None else Normalize(heading.value, env)
  {
    match GoalPoint(tx, ty, anchor)
    case None => None
    case Some(g) =>
      match Heading(Vec(g.x - me.x, g.y - me.y), env, jitter)
      case None => None
      case Some(heading) =>
        match Blend(SteerFor(NeighbourGap(me, anchor, env)), heading, TowardNeighbour(me, anchor, env))
        case None => None
        case Some(v) => Normalize(v, env)
  }

  /** The neighbour spacing rules never fire as written: the gap is NaN, so
      the blended vector is the heading vector alone. */
  lemma DesiredIsHeadingOnly(me: BeeState, anchor: Option<Vec>, tx: real, ty: real,
                             env: MathEnv, jitter: Vec)
    requires GoalPoint(tx, ty, anchor).Some?
    ensures var g := GoalPoint(tx, ty, anchor).value;
            var heading := Heading(Vec(g.x - me.x, g.y - me.y), env, jitter);
            Desired(me, anchor, tx, ty, env, jitter)
              == if heading.None? then None else Normalize(heading.value, env)
  {
    assert SteerFor(NeighbourGap(me, anchor, env)) == Hold;
  }

  // ---------------------------------------------------------------------
  // Turning and moving

  function Abs(r: real): real { if r < 0.0 then -r else r }

  /** angleDifference: asin of the cross product when the directions are
      less than a right angle apart, else PI minus it; always made
      non-negative. */
  function AngleDifference(cross: real, dot: real, env: MathEnv): (diff: real)
    ensures 0.0 <= diff
  {
    Abs(if dot > 0.0 then env.asin(cross) else env.pi - env.asin(cross))
  }

  function Cross(me: BeeState, d: Vec): real { me.vx * d.y - me.vy * d.x }

  function Dot(me: BeeState, d: Vec): real { me.vx * d.x + me.vy * d.y }

  /** The new heading: TURN_SPEED of the angular difference, toward the
      side the cross product points to. */
  function Turned(angle: real, cross: real, diff: real): (r: real)
    ensures Abs(r - angle) == TURN_SPEED * Abs(diff)
    ensures 0.0 <= diff && cross > 0.0 ==> angle <= r
    ensures 0.0 <= diff && cross <= 0.0 ==> r <= angle
  {
    if cross > 0.0 then angle + diff * TURN_SPEED else angle - diff * TURN_SPEED
  }

  /** The boundary wrap of one axis: more than `margin` sizes before the
      start moves the bee to the far edge, more than one size past the far
      edge moves it to one size before the start. */
  function Wrap(v: real, extent: real, size: real, margin: real): real
  {
    if v < -size * margin then extent
    else if v > extent + size then -size
    else v
  }

  /** Whatever the coordinate, the wrapped one lies in the band
      [-margin·size, extent + size], and inside the band Wrap changes
      nothing (so it is applied at most once). */
  lemma WrapIntoBand(v: real, extent: real, size: real, margin: real)
    requires 0.0 <= size && 1.0 <= margin && 0.0 <= extent
    ensures -size * margin <= Wrap(v, extent, size, margin) <= extent + size
    ensures -size * margin <= v <= extent + size ==> Wrap(v, extent, size, margin) == v
    ensures Wrap(Wrap(v, extent, size, margin), extent, size, margin) == Wrap(v, extent, size, margin)
  {
    assert size * margin >= size * 1.0;
  }

  /** Turn toward `d` by TURN_SPEED of the angle between heading and `d`,
      and recompute the velocity from the new heading. */
  function Turn(me: BeeState, d: Vec, env: MathEnv): BeeState
  {
    var angle := Turned(me.angle, Cross(me, d), AngleDifference(Cross(me, d), Dot(me, d), env));
    me.(angle := angle, vx := env.cos(angle), vy := env.sin(angle))
  }

  /** Move by velocity times speed and wrap each axis: x with margin 2,
      y with margin 3. Only the position changes. */
  function Moved(me: BeeState, width: real, height: real): (r: BeeState)
    ensures r.angle == me.angle && r.vx == me.vx && r.vy == me.vy
    ensures r.size == me.size && r.speed == me.speed && r.lost == me.lost
  {
    me.(x := Wrap(me.x + me.vx * me.speed, width, me.size, 2.0),
        y := Wrap(me.y + me.vy * me.speed, height, me.size, 3.0))
  }

  /** Turn toward `d`, then move: the velocity follows the new heading,
      and the bee keeps its size and speed. */
  function Advance(me: BeeState, d: Vec, width: real, height: real, env: MathEnv): (r: BeeState)
    ensures r.size == me.size && r.speed == me.speed && r.lost == me.lost
    ensures r.vx == env.cos(r.angle) && r.vy == env.sin(r.angle)
  {
    Moved(Turn(me, d, env), width, height)
  }

  /** One call of update() once the nearest bee and the desired direction
      are known: nothing happens without a nearest bee; otherwise the bee
      turns and moves toward the desired direction, or becomes lost when
      that direction came out NaN (None). */
  function Step(me: BeeState, found: bool, desired: Option<Vec>,
                width: real, height: real, env: MathEnv): (r: BeeState)
    ensures r.size == me.size && r.speed == me.speed
    ensures !found ==> r == me
    ensures found && desired.None? ==> r == me.(lost := true)
    ensures found && desired.Some? ==> r.lost == me.lost
  {
    if !found then me
    else match desired
      case None => me.(lost := true)
      case Some(d) => Advance(me, d, width, height, env)
  }

  /** A completed step turns by exactly TURN_SPEED times a non-negative
      angular difference, upward iff the cross product is positive, then
      takes vx, vy from the new angle. */
  lemma StepTurnsByFivePercent(me: BeeState, d: Vec, width: real, height: real, env: MathEnv)
    ensures var r := Step(me, true, Some(d), width, height, env);
            var diff := AngleDifference(Cross(me, d), Dot(me, d), env);
            && 0.0 <= diff
            && (Cross(me, d) > 0.0 ==> r.angle == me.angle + TURN_SPEED * diff)
            && (Cross(me, d) <= 0.0 ==> r.angle == me.angle - TURN_SPEED * diff)
            && r.vx == env.cos(r.angle) && r.vy == env.sin(r.angle)
  {
  }

  /** Each coordinate of a completed step is the advanced one while that
      stays in its band, and is reset to the matching edge once it leaves. */
  lemma StepWraps(me: BeeState, d: Vec, width: real, height: real, env: MathEnv, nx: real, ny: real)
    requires var r := Step(me, true, Some(d), width, height, env);
             nx == me.x + r.vx * me.speed && ny == me.y + r.vy * me.speed
    ensures var r := Step(me, true, Some(d), width, height, env);
            && (nx < -me.size * 2.0 ==> r.x == width)
            && (-me.size * 2.0 <= nx && nx > width + me.size ==> r.x == -me.size)
            && (-me.size * 2.0 <= nx <= width + me.size ==> r.x == nx)
            && (ny < -me.size * 3.0 ==> r.y == height)
            && (-me.size * 3.0 <= ny && ny > height + me.size ==> r.y == -me.size)
            && (-me.size * 3.0 <= ny <= height + me.size ==> r.y == ny)
  {
  }

  // ---------------------------------------------------------------------
  // A whole tick

  function AnchorOf(s: seq<BeeState>, readout: Readout, i: nat): Option<Vec>
    requires i < |s| && (readout.Published? ==> |readout.pos| == |s|)
  {
    match readout
    case Live => Some(Vec(s[i].x, s[i].y))
    case Published(pos) => pos[i]
  }

  /** Bee k's update against the flock as it stands: it keeps its size
      and speed, and a lost bee finds no neighbour and stays as it is. */
  function StepAt(s: seq<BeeState>, k: nat, readout: Readout, tx: real, ty: real,
                  width: real, height: real, env: MathEnv, jitter: Vec): (r: BeeState)
    requires k < |s| && (readout.Published? ==> |readout.pos| == |s|)
    ensures r.size == s[k].size && r.speed == s[k].speed
    ensures s[k].lost ==> r == s[k]
  {
    var c := Closest(s[k], s, Own(|s|, k));
    var anchor := if c.None? then None else AnchorOf(s, readout, c.value);
    Step(s[k], c.Some?, Desired(s[k], anchor, tx, ty, env, jitter), width, height, env)
  }

  /** Swarm.update's loop: bees n-1 down to 0 each update once, in that
      order, each seeing the bees already updated in this tick. A tick
      started at n leaves the bees at n and above as they were. */
  function TickFrom(s: seq<BeeState>, n: nat, readout: Readout, tx: real, ty: real,
                    width: real, height: real, env: MathEnv, jitter: seq<Vec>): (r: seq<BeeState>)
    requires n <= |s| && |jitter| == |s| && (readout.Published? ==> |readout.pos| == |s|)
    ensures |r| == |s| && forall k | n <= k < |s| :: r[k] == s[k]
    decreases n, 1
  {
    if n == 0 then s else TickRest(s, n, readout, tx, ty, width, height, env, jitter)
  }

  /** The tick from bee n-1 on: bee n-1 moves, then bees n-2 .. 0. */
  function TickRest(s: seq<BeeState>, n: nat, readout: Readout, tx: real, ty: real,
                    width: real, height: real, env: MathEnv, jitter: seq<Vec>): (r: seq<BeeState>)
    requires 0 < n <= |s| && |jitter| == |s| && (readout.Published? ==> |readout.pos| == |s|)
    ensures |r| == |s| && forall k | n <= k < |s| :: r[k] == s[k]
    decreases n, 0
  {
    TickFrom(s[n - 1 := StepAt(s, n - 1, readout, tx, ty, width, height, env, jitter[n - 1])],
             n - 1, readout, tx, ty, width, height, env, jitter)
  }

  /** One step of the tick: bee n-1 moves, then the rest of the tick runs. */
  lemma TickUnroll(s: seq<BeeState>, n: nat, readout: Readout, tx: real, ty: real,
                   width: real, height: real, env: MathEnv, jitter: seq<Vec>)
    requires 0 < n <= |s| && |jitter| == |s| && (readout.Published? ==> |readout.pos| == |s|)
    ensures TickFrom(s, n, readout, tx, ty, width, height, env, jitter)
            == TickFrom(s[n - 1 := StepAt(s, n - 1, readout, tx, ty, width, height, env, jitter[n - 1])],
                        n - 1, readout, tx, ty, width, height, env, jitter)
  {
  }

  /** With a single bee there is no nearest bee, so a tick changes nothing. */
  lemma LoneBeeStandsStill(b: BeeState, readout: Readout, tx: real, ty: real,
                           width: real, height: real, env: MathEnv, jitter: seq<Vec>)
    requires |jitter| == 1 && (readout.Published? ==> |readout.pos| == 1)
    ensures TickFrom([b], 1, readout, tx, ty, width, height, env, jitter) == [b]
  {
    assert Closest(b, [b], Own(1, 0)) == None;
    assert [b][0 := b] == [b];
  }

  /** A lost bee (NaN coordinates) is never moved again. */
  lemma {:induction false} LostBeesStayPut(s: seq<BeeState>, n: nat, readout: Readout,
                                           tx: real, ty: real, width: real, height: real,
                                           env: MathEnv, jitter: seq<Vec>, k: nat)
    requires n <= |s| && |jitter| == |s| && (readout.Published? ==> |readout.pos| == |s|)
    requires k < |s| && s[k].lost
    ensures TickFrom(s, n, readout, tx, ty, width, height, env, jitter)[k] == s[k]
    decreases n
  {
    if n > 0 {
      var s' := s[n - 1 := StepAt(s, n - 1, readout, tx, ty, width, height, env, jitter[n - 1])];
      if k == n - 1 {
        assert Closest(s[k], s, Own(|s|, k)) == None;
      }
      assert s'[k] == s[k];
      LostBeesStayPut(s', n - 1, readout, tx, ty, width, height, env, jitter, k);
    }
  }

  /** Inside its band: x in [-2·size, width + size], y in [-3·size, height + size]. */
  predicate InBand(b: BeeState, width: real, height: real)
  {
    -b.size * 2.0 <= b.x <= width + b.size && -b.size * 3.0 <= b.y <= height + b.size
  }

  /** One bee's step leaves it where it was, lost, or inside its band. */
  lemma StepLandsInBand(s: seq<BeeState>, k: nat, readout: Readout, tx: real, ty: real,
                        width: real, height: real, env: MathEnv, jitter: Vec)
    requires k < |s| && (readout.Published? ==> |readout.pos| == |s|)
    requires 0.0 <= width && 0.0 <= height && 0.0 <= s[k].size
    ensures var r := StepAt(s, k, readout, tx, ty, width, height, env, jitter);
            r == s[k] || r.lost || InBand(r, width, height)
  {
    var r := StepAt(s, k, readout, tx, ty, width, height, env, jitter);
    if r != s[k] && !r.lost {
      var b := s[k];
      WrapIntoBand(b.x + r.vx * b.speed, width, b.size, 2.0);
      WrapIntoBand(b.y + r.vy * b.speed, height, b.size, 3.0);
    }
  }

  /** After a tick every bee is where it was, lost, or inside its band. */
  lemma {:induction false} TickKeepsBeesInBand(s: seq<BeeState>, n: nat, readout: Readout,
                                               tx: real, ty: real, width: real, height: real,
                                               env: MathEnv, jitter: seq<Vec>, k: nat)
    requires n <= |s| && |jitter| == |s| && (readout.Published? ==> |readout.pos| == |s|)
    requires 0.0 <= width && 0.0 <= height && k < |s| && 0.0 <= s[k].size
    ensures var r := TickFrom(s, n, readout, tx, ty, width, height, env, jitter);
            r[k] == s[k] || r[k].lost || InBand(r[k], width, height)
    decreases n
  {
    if n > 0 {
      var s' := s[n - 1 := StepAt(s, n - 1, readout, tx, ty, width, height, env, jitter[n - 1])];
      if k == n - 1 {
        StepLandsInBand(s, k, readout, tx, ty, width, height, env, jitter[k]);
      } else {
        TickKeepsBeesInBand(s', n - 1, readout, tx, ty, width, height, env, jitter, k);
      }
    }
  }
}
