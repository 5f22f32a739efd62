/** The older swarm of swarm.js: the same flocking step (module Steering),
    driven by a `Swarm` with a fixed 9-second scatter/home period, a home
    point offset by (90, 55) from the home element's corner, a random
    scatter point, and a page-wide singleton (window._swarm) set up by
    bootstrap().

    A `Boid` has no getters for its private position, so `closest.x` and
    `closest.y` read the public properties that createBoids assigns once
    (`pub`), while its private position stays at the origin it was
    constructed with. */
module LegacyFlock {
  import opened Steering
  import opened Host

  datatype Result<T> = Ok(value: T) | Err(error: string)

  /** The fixed scatter/home period in ms. */
  const PHASE_MS: int := 9000
  /** bootstrap()'s createBoids(30, 10, 10, 3); Boid's default size 8. */
  const BOOT_COUNT: nat := 30
  const BOOT_SIDE: real := 10.0
  const BOOT_SPEED: real := 3.0
  const DEFAULT_SIZE: real := 8.0
  const NOT_BOOTSTRAPPED: string := "bootstrap() must be completed first!"

  class Boid {
    var x: real
    var y: real
    var angle: real
    var vx: real
    var vy: real
    var lost: bool
    const size: real
    const speed: real
    /** #closestBoid */
    var closest: Boid?
    /** The public `x`/`y` properties (None: never assigned). */
    var pub: Option<Vec>

    function State(): BeeState
      reads this
    {
      BeeState(x, y, angle, vx, vy, size, speed, lost)
    }

    /** A boid at the private origin, heading 0, at rest. The element's
        width and height only style the element. */
    constructor (width: real, height: real, speed: real, size: real)
      ensures State() == BeeState(0.0, 0.0, 0.0, 0.0, 0.0, size, speed, false)
      ensures closest == null && pub.None?
    {
      this.size := size;
      this.speed := speed;
      x, y, angle, vx, vy := 0.0, 0.0, 0.0, 0.0, 0.0;
      lost := false;
      closest := null;
      pub := None;
    }

    /** Assigning b.x and b.y from outside: public properties only. */
    method Publish(px: real, py: real)
      modifies this`pub
      ensures pub == Some(Vec(px, py))
    {
      pub := Some(Vec(px, py));
    }

    method GetClosest(boids: seq<Boid>) returns (find: Boid?)
      ensures var c := Closest(State(), States(boids), Mine(boids, this));
              && (find == null <==> c.None?)
              && (c.Some? ==> find == boids[c.value])
    {
      var me := State();
      ghost var pool := States(boids);
      ghost var mine := Mine(boids, this);
      var dist: Option<real> := None;  // None: Infinity
      find := null;
      ghost var at: Option<nat> := None;
      var i := |boids|;
      while i > 0
        invariant 0 <= i <= |boids|
        invariant at == ClosestFrom(me, pool, mine, i)
        invariant find == null <==> at.None?
        invariant at.Some? ==> find == boids[at.value] && dist == Some(Gap(me, pool[at.value]))
        invariant at.None? ==> dist.None?
      {
        i := i - 1;
        var b := boids[i];
        if b != this && !b.lost && !lost {
          var dx := b.x - x;
          var dy := b.y - y;
          var d := dx * dx + dy * dy - b.size * b.size;
          assert d == Gap(me, pool[i]);
          if dist.None? || d < dist.value {
            dist := Some(d);
            find := b;
            at := Some(i);
          }
        }
      }
    }

    method Move(width: real, height: real)
      modifies this`x, this`y
      ensures State() == Moved(old(State()), width, height)
    {
      ghost var goal := Moved(State(), width, height);
      x := x + vx * speed;
      y := y + vy * speed;
      if x < -size * 2.0 {
        x := width;
      } else if x > width + size {
        x := -size;
      }
      assert x == goal.x;
      if y < -size * 3.0 {
        y := height;
      } else if y > height + size {
        y := -size;
      }
      assert y == goal.y;
    }

    method TurnToward(d: Vec, width: real, height: real, env: MathEnv)
      modifies this`angle, this`vx, this`vy, this`x, this`y
      ensures State() == Advance(old(State()), d, width, height, env)
    {
      var me := State();
      var cross := Cross(me, d);
      angle := Turned(angle, cross, AngleDifference(cross, Dot(me, d), env));
      vx := env.cos(angle);
      vy := env.sin(angle);
      assert State() == Turn(me, d, env);
      Move(width, height);
    }

    /** One frame for boid k: the nearest boid is found by private
        position, but is steered toward through its public `x`/`y`. */
    method Update(swarm: Swarm, env: MathEnv, jitter: Vec, ghost k: nat)
      requires k < |swarm.boids| && swarm.boids[k] == this && Distinct(swarm.boids)
      modifies this`angle, this`vx, this`vy, this`x, this`y, this`lost, this`closest
      ensures State() == StepAt(old(States(swarm.boids)), k, Published(PublicPositions(swarm.boids)),
                                swarm.targetX, swarm.targetY, swarm.width, swarm.height, env, jitter)
      ensures States(swarm.boids) == old(States(swarm.boids))[k := State()]
      ensures PublicPositions(swarm.boids) == old(PublicPositions(swarm.boids))
    {
      ghost var s := States(swarm.boids);
      ghost var pub := PublicPositions(swarm.boids);
      assert Mine(swarm.boids, this) == Own(|s|, k);
      var find := GetClosest(swarm.boids);
      closest := find;
      ghost var c := Closest(s[k], s, Own(|s|, k));
      assert PublicPositions(swarm.boids) == pub;
      if find == null {
        return;
      }
      var anchor := find.pub;
      assert anchor == AnchorOf(s, Published(pub), c.value);
      var desired := Desired(State(), anchor, swarm.targetX, swarm.targetY, env, jitter);
      if desired.None? {
        lost := true;
      } else {
        TurnToward(desired.value, swarm.width, swarm.height, env);
      }
      assert State() == Step(s[k], true, desired, swarm.width, swarm.height, env);
      assert PublicPositions(swarm.boids) == pub;
    }
  }

  function States(boids: seq<Boid>): (s: seq<BeeState>)
    reads set b | b in boids
    ensures |s| == |boids|
  {
    seq(|boids|, i reads set b | b in boids requires 0 <= i < |boids| => boids[i].State())
  }

  /** What `closest.x`/`closest.y` read for each boid. */
  function PublicPositions(boids: seq<Boid>): (p: seq<Option<Vec>>)
    reads set b | b in boids
    ensures |p| == |boids|
  {
    seq(|boids|, i reads set b | b in boids requires 0 <= i < |boids| => boids[i].pub)
  }

  function Mine(boids: seq<Boid>, me: Boid): (mine: seq<bool>)
    ensures |mine| == |boids| && forall i | 0 <= i < |boids| :: mine[i] == (boids[i] == me)
  {
    seq(|boids|, i requires 0 <= i < |boids| => boids[i] == me)
  }

  predicate Distinct(boids: seq<Boid>)
  {
    forall i, j | 0 <= i < j < |boids| :: boids[i] != boids[j]
  }

  class Swarm {
    const host: Browser
    var boids: seq<Boid>
    var targetX: real
    var targetY: real
    var updateID: nat
    var scatterID: nat
    var visible: bool
    const width: real
    const height: real
    /** The home element's offsetLeft and offsetTop. */
    const homeLeft: real
    const homeTop: real

    ghost predicate FrameOwned()
      reads this, host
    {
      && (updateID != 0 ==> updateID in host.frames && host.frames[updateID] == SwarmUpdate)
      && (forall id | id in host.frames && host.frames[id] == SwarmUpdate :: id == updateID)
    }

    ghost predicate PhaseOwned()
      reads this, host
    {
      forall id | id in host.timeouts && host.timeouts[id].task.IsSwarmPhase() :: id == scatterID
    }

    ghost predicate PhasePending()
      reads this, host
    {
      scatterID != 0 ==> scatterID in host.timeouts && host.timeouts[scatterID].task.IsSwarmPhase()
    }

    ghost predicate Valid()
      reads this, host
    {
      && host.Valid()
      && Distinct(boids)
      && FrameOwned() && PhaseOwned() && PhasePending()
      && (visible <==> updateID != 0)
      && (host.pointerHandlers <==> updateID != 0)
      && (scatterID != 0 <==> updateID != 0)
      && (updateID == 0 ==> targetX == 0.0 && targetY == 0.0)
    }

    ghost predicate Running()
      reads this
    {
      updateID != 0
    }

    /** `new Swarm()` followed by a successful init(). */
    constructor (host: Browser, width: real, height: real, homeLeft: real, homeTop: real)
      requires host.Valid() && !host.pointerHandlers
      requires forall id | id in host.frames :: host.frames[id] != SwarmUpdate
      requires forall id | id in host.timeouts :: !host.timeouts[id].task.IsSwarmPhase()
      ensures Valid() && !Running() && boids == [] && !visible
      ensures this.host == host && this.width == width && this.height == height
      ensures this.homeLeft == homeLeft && this.homeTop == homeTop
    {
      this.host := host;
      this.width, this.height := width, height;
      this.homeLeft, this.homeTop := homeLeft, homeTop;
      boids := [];
      targetX, targetY := 0.0, 0.0;
      updateID, scatterID := 0, 0;
      visible := false;
    }

    method AddBoid(b: Boid)
      requires Valid() && b !in boids
      modifies this`boids
      ensures Valid() && boids == old(boids) + [b]
    {
      boids := boids + [b];
    }

    /** `total` boids of the default size at the private origin; boid j (in
        order of creation) gets public coordinates from rand[j] scaled to
        the container. */
    method CreateBoids(total: nat, boidWidth: real, boidHeight: real, speed: real,
                       rand: seq<(real, real)>)
      requires Valid() && |rand| == total
      modifies this`boids
      ensures Valid()
      ensures |boids| == |old(boids)| + total && boids[..|old(boids)|] == old(boids)
      ensures forall j | |old(boids)| <= j < |boids| :: fresh(boids[j])
      ensures forall k | |old(boids)| <= k < |boids| ::
                && boids[k].State() == BeeState(0.0, 0.0, 0.0, 0.0, 0.0, DEFAULT_SIZE, speed, false)
                && boids[k].pub == Some(Vec(Scaled(rand[k - |old(boids)|].0, width),
                                            Scaled(rand[k - |old(boids)|].1, height)))
    {
      var i := total;
      while i > 0
        invariant 0 <= i <= total
        invariant Valid()
        invariant |boids| == |old(boids)| + (total - i) && boids[..|old(boids)|] == old(boids)
        invariant forall k | |old(boids)| <= k < |boids| :: fresh(boids[k])
        invariant forall k | |old(boids)| <= k < |boids| ::
                    && boids[k].State() == BeeState(0.0, 0.0, 0.0, 0.0, 0.0, DEFAULT_SIZE, speed, false)
                    && boids[k].pub == Some(Vec(Scaled(rand[k - |old(boids)|].0, width),
                                                Scaled(rand[k - |old(boids)|].1, height)))
      {
        var r := rand[total - i];
        var b := new Boid(boidWidth, boidHeight, speed, DEFAULT_SIZE);
        b.Publish(Scaled(r.0, width), Scaled(r.1, height));
        AddBoid(b);
        i := i - 1;
      }
    }

    method Target(x: real, y: real)
      modifies this`targetX, this`targetY
      ensures targetX == x && targetY == y
    {
      targetX, targetY := x, y;
    }

    method PointerDown(pageX: real, pageY: real)
      requires Valid() && host.pointerHandlers
      modifies this`targetX, this`targetY
      ensures Valid() && targetX == pageX && targetY == pageY
    {
      Target(pageX, pageY);
    }

    /** Head for (offsetLeft + 90, offsetTop + 55) and scatter in 9 s. */
    method Home()
      requires host.Valid() && PhaseOwned()
      modifies this`targetX, this`targetY, this`scatterID, host`lastId, host`timeouts
      ensures host.Valid() && PhaseOwned() && PhasePending() && scatterID != 0
      ensures targetX == homeLeft + 90.0 && targetY == homeTop + 55.0
      ensures scatterID == host.lastId == old(host.lastId) + 1
      ensures host.timeouts == (old(host.timeouts) - {old(scatterID)})[scatterID := Timer(SwarmScatter, PHASE_MS)]
    {
      Target(homeLeft + 90.0, homeTop + 55.0);
      if scatterID != 0 {
        host.ClearTimeout(scatterID);
      }
      scatterID := host.SetTimeout(SwarmScatter, PHASE_MS);
    }

    /** Head for a random point of the container (Math.random() results
        rx, ry) and return home in 9 s. */
    method Scatter(rx: real, ry: real)
      requires host.Valid() && PhaseOwned()
      modifies this`targetX, this`targetY, this`scatterID, host`lastId, host`timeouts
      ensures host.Valid() && PhaseOwned() && PhasePending() && scatterID != 0
      ensures targetX == Scaled(rx, width) && targetY == Scaled(ry, height)
      ensures scatterID == host.lastId == old(host.lastId) + 1
      ensures host.timeouts == (old(host.timeouts) - {old(scatterID)})[scatterID := Timer(SwarmHome, PHASE_MS)]
    {
      Target(Scaled(rx, width), Scaled(ry, height));
      if scatterID != 0 {
        host.ClearTimeout(scatterID);
      }
      scatterID := host.SetTimeout(SwarmHome, PHASE_MS);
    }

    method Update(env: MathEnv, jitter: seq<Vec>)
      requires host.Valid() && Distinct(boids) && |jitter| == |boids|
      requires forall id | id in host.frames :: host.frames[id] != SwarmUpdate
      modifies this`updateID, host`lastId, host`frames, boids
      ensures host.Valid() && FrameOwned() && updateID != 0
      ensures updateID == host.lastId == old(host.lastId) + 1
      ensures host.frames == old(host.frames)[updateID := SwarmUpdate]
      ensures PublicPositions(boids) == old(PublicPositions(boids))
      ensures States(boids) == TickFrom(old(States(boids)), |boids|, Published(PublicPositions(boids)),
                                        targetX, targetY, width, height, env, jitter)
    {
      updateID := host.RequestAnimationFrame(SwarmUpdate);
      UpdateBoids(env, jitter);
    }

    /** The loop of update(): boids |boids|-1 down to 0, each once. */
    method UpdateBoids(env: MathEnv, jitter: seq<Vec>)
      requires Distinct(boids) && |jitter| == |boids|
      modifies boids
      ensures PublicPositions(boids) == old(PublicPositions(boids))
      ensures States(boids) == TickFrom(old(States(boids)), |boids|, Published(PublicPositions(boids)),
                                        targetX, targetY, width, height, env, jitter)
    {
      ghost var pub := PublicPositions(boids);
      ghost var goal := TickFrom(States(boids), |boids|, Published(pub), targetX, targetY, width, height, env, jitter);
      var i := |boids|;
      while i > 0
        invariant 0 <= i <= |boids|
        invariant PublicPositions(boids) == pub
        invariant TickFrom(States(boids), i, Published(pub), targetX, targetY, width, height, env, jitter) == goal
      {
        UpdateBoid(i - 1, env, jitter);
        i := i - 1;
      }
    }

    /** One pass of that loop: boid k updates, which leaves the rest of
        the tick to boids k-1 .. 0; the published positions stay put. */
    method UpdateBoid(k: nat, env: MathEnv, jitter: seq<Vec>)
      requires Distinct(boids) && k < |boids| && |jitter| == |boids|
      modifies boids
      ensures PublicPositions(boids) == old(PublicPositions(boids))
      ensures TickFrom(States(boids), k, Published(PublicPositions(boids)), targetX, targetY,
                       width, height, env, jitter)
              == TickFrom(old(States(boids)), k + 1, Published(PublicPositions(boids)), targetX, targetY,
                          width, height, env, jitter)
    {
      ghost var s := States(boids);
      ghost var pub := PublicPositions(boids);
      TickUnroll(s, k + 1, Published(pub), targetX, targetY, width, height, env, jitter);
      boids[k].Update(this, env, jitter[k], k);
      assert States(boids) == s[k := StepAt(s, k, Published(pub), targetX, targetY, width, height, env, jitter[k])];
    }

    method FrameFired(id: nat, env: MathEnv, jitter: seq<Vec>)
      requires Valid() && id in host.frames && host.frames[id] == SwarmUpdate
      requires |jitter| == |boids|
      modifies this`updateID, host`lastId, host`frames, boids
      ensures Valid() && Running()
      ensures updateID == host.lastId == old(host.lastId) + 1
      ensures host.frames == (old(host.frames) - {id})[updateID := SwarmUpdate]
      ensures States(boids) == TickFrom(old(States(boids)), |boids|, Published(PublicPositions(boids)),
                                        targetX, targetY, width, height, env, jitter)
    {
      var task := host.DispatchFrame(id);
      Update(env, jitter);
    }

    /** The pending scatter/home timeout fires; a scatter draws its point
        from rx, ry. */
    method TimeoutFired(id: nat, rx: real, ry: real)
      requires Valid() && id in host.timeouts && host.timeouts[id].task.IsSwarmPhase()
      modifies this`targetX, this`targetY, this`scatterID, host`lastId, host`timeouts
      ensures Valid() && Running()
      ensures old(host.timeouts[id].task) == SwarmHome ==>
                targetX == homeLeft + 90.0 && targetY == homeTop + 55.0
                && host.timeouts == (old(host.timeouts) - {id})[scatterID := Timer(SwarmScatter, PHASE_MS)]
      ensures old(host.timeouts[id].task) == SwarmScatter ==>
                targetX == Scaled(rx, width) && targetY == Scaled(ry, height)
                && host.timeouts == (old(host.timeouts) - {id})[scatterID := Timer(SwarmHome, PHASE_MS)]
    {
      var task := host.DispatchTimeout(id);
      if task == SwarmHome {
        Home();
      } else {
        Scatter(rx, ry);
      }
    }

    /** Pointer handlers, then home (target and a 9 s scatter timeout),
        then the first frame, then show. Does nothing while running. */
    method Start(env: MathEnv, jitter: seq<Vec>)
      requires Valid() && |jitter| == |boids|
      modifies this`updateID, this`scatterID, this`targetX, this`targetY, this`visible, boids,
               host`lastId, host`frames, host`timeouts, host`pointerHandlers
      ensures Valid() && Running()
      ensures old(updateID) != 0 ==>
                && unchanged(this) && unchanged(host)
                && States(boids) == old(States(boids))
      ensures old(updateID) == 0 ==>
                && visible && host.pointerHandlers
                && targetX == homeLeft + 90.0 && targetY == homeTop + 55.0
                && scatterID == old(host.lastId) + 1 && updateID == old(host.lastId) + 2
                && host.timeouts == old(host.timeouts)[scatterID := Timer(SwarmScatter, PHASE_MS)]
                && host.frames == old(host.frames)[updateID := SwarmUpdate]
                && States(boids) == TickFrom(old(States(boids)), |boids|, Published(old(PublicPositions(boids))),
                                             homeLeft + 90.0, homeTop + 55.0, width, height, env, jitter)
    {
      if updateID == 0 {
        Launch(env, jitter);
      }
    }

    /** start() past its guard. */
    method Launch(env: MathEnv, jitter: seq<Vec>)
      requires Valid() && !Running() && |jitter| == |boids|
      modifies this`updateID, this`scatterID, this`targetX, this`targetY, this`visible, boids,
               host`lastId, host`frames, host`timeouts, host`pointerHandlers
      ensures Valid() && Running()
      ensures visible && host.pointerHandlers
      ensures targetX == homeLeft + 90.0 && targetY == homeTop + 55.0
      ensures scatterID == old(host.lastId) + 1 && updateID == old(host.lastId) + 2
      ensures host.timeouts == old(host.timeouts)[scatterID := Timer(SwarmScatter, PHASE_MS)]
      ensures host.frames == old(host.frames)[updateID := SwarmUpdate]
      ensures States(boids) == TickFrom(old(States(boids)), |boids|, Published(old(PublicPositions(boids))),
                                        homeLeft + 90.0, homeTop + 55.0, width, height, env, jitter)
    {
      assert host.timeouts - {0} == host.timeouts;
      ghost var s0 := States(boids);
      ghost var pub := PublicPositions(boids);
      host.SetPointerHandlers(true);
      Home();
      assert States(boids) == s0 && PublicPositions(boids) == pub;
      assert forall id | id in host.frames :: host.frames[id] != SwarmUpdate;
      Update(env, jitter);
      visible := true;
    }

    method Stop()
      requires Valid()
      modifies this`updateID, this`scatterID, this`targetX, this`targetY, this`visible,
               host`frames, host`timeouts, host`pointerHandlers
      ensures Valid() && !Running() && !visible && !host.pointerHandlers
      ensures host.frames == old(host.frames) - {old(updateID)}
      ensures host.timeouts == old(host.timeouts) - {old(scatterID)}
      ensures forall id | id in host.frames :: host.frames[id] != SwarmUpdate
      ensures forall id | id in host.timeouts :: !host.timeouts[id].task.IsSwarmPhase()
      ensures !old(Running()) ==> unchanged(this) && unchanged(host)
    {
      if updateID != 0 {
        host.CancelAnimationFrame(updateID);
      }
      if scatterID != 0 {
        host.ClearTimeout(scatterID);
      }
      updateID, scatterID := 0, 0;
      host.SetPointerHandlers(false);
      targetX, targetY := 0.0, 0.0;
      visible := false;
    }

    method Toggle(env: MathEnv, jitter: seq<Vec>)
      requires Valid() && |jitter| == |boids|
      modifies this`updateID, this`scatterID, this`targetX, this`targetY, this`visible, boids,
               host`lastId, host`frames, host`timeouts, host`pointerHandlers
      ensures Valid() && visible == !old(visible) && Running() == visible
      ensures old(visible) ==>
                && !host.pointerHandlers && targetX == 0.0 && targetY == 0.0
                && updateID == 0 && scatterID == 0 && host.lastId == old(host.lastId)
                && host.frames == old(host.frames) - {old(updateID)}
                && host.timeouts == old(host.timeouts) - {old(scatterID)}
                && States(boids) == old(States(boids)) && PublicPositions(boids) == old(PublicPositions(boids))
      ensures !old(visible) ==>
                && host.pointerHandlers
                && targetX == homeLeft + 90.0 && targetY == homeTop + 55.0
                && scatterID == old(host.lastId) + 1 && updateID == old(host.lastId) + 2
                && host.timeouts == old(host.timeouts)[scatterID := Timer(SwarmScatter, PHASE_MS)]
                && host.frames == old(host.frames)[updateID := SwarmUpdate]
                && States(boids) == TickFrom(old(States(boids)), |boids|, Published(old(PublicPositions(boids))),
                                             homeLeft + 90.0, homeTop + 55.0, width, height, env, jitter)
    {
      if visible {
        Stop();
      } else {
        Start(env, jitter);
      }
    }
  }

  /** The window: window._swarm, the one swarm of the page. */
  class Page {
    const host: Browser
    var swarm: Swarm?

    ghost predicate Valid()
      reads this, host, swarm
    {
      && host.Valid()
      && (swarm == null ==>
            && !host.pointerHandlers
            && (forall id | id in host.frames :: host.frames[id] != SwarmUpdate)
            && (forall id | id in host.timeouts :: !host.timeouts[id].task.IsSwarmPhase()))
      && (swarm != null ==> swarm.host == host && swarm.Valid())
    }

    constructor (host: Browser)
      requires host.Valid() && !host.pointerHandlers
      requires forall id | id in host.frames :: host.frames[id] != SwarmUpdate
      requires forall id | id in host.timeouts :: !host.timeouts[id].task.IsSwarmPhase()
      ensures Valid() && swarm == null && this.host == host
    {
      this.host := host;
      swarm := null;
    }

    /** Swarm.the: the page's swarm, or the error thrown before bootstrap. */
    function The(): (r: Result<Swarm>)
      reads this
      ensures r.Ok? <==> swarm != null
      ensures r.Ok? ==> r.value == swarm
      ensures r.Err? ==> r.error == NOT_BOOTSTRAPPED
    {
      if swarm == null then Err(NOT_BOOTSTRAPPED) else Ok(swarm as Swarm)
    }

    /** Swarm.bootstrap: once per page, create the swarm with 30 boids of
        side 10 and speed 3. `home` is the #swarm-home element's offsetLeft
        and offsetTop (None: no such element) and `hasContainer` whether
        #swarm-container exists; without either, init() throws, the error
        is logged and window._swarm stays unset. */
    method Bootstrap(home: Option<(real, real)>, hasContainer: bool,
                     width: real, height: real, rand: seq<(real, real)>)
      requires Valid() && |rand| == BOOT_COUNT
      modifies this`swarm
      ensures Valid()
      ensures old(swarm) != null ==> swarm == old(swarm)
      ensures old(swarm) == null && (home.None? || !hasContainer) ==> swarm == null
      ensures old(swarm) == null && home.Some? && hasContainer ==>
                && swarm != null && fresh(swarm)
                && !swarm.Running() && |swarm.boids| == BOOT_COUNT
                && swarm.homeLeft == home.value.0 && swarm.homeTop == home.value.1
                && swarm.width == width && swarm.height == height
                && forall k | 0 <= k < BOOT_COUNT ::
                     && swarm.boids[k].State() == BeeState(0.0, 0.0, 0.0, 0.0, 0.0, DEFAULT_SIZE, BOOT_SPEED, false)
                     && swarm.boids[k].pub == Some(Vec(Scaled(rand[k].0, width), Scaled(rand[k].1, height)))
    {
      if swarm == null && home.Some? && hasContainer {
        var s := new Swarm(host, width, height, home.value.0, home.value.1);
        s.CreateBoids(BOOT_COUNT, BOOT_SIDE, BOOT_SIDE, BOOT_SPEED, rand);
        assert forall k | 0 <= k < BOOT_COUNT ::
                 && s.boids[k].State() == BeeState(0.0, 0.0, 0.0, 0.0, 0.0, DEFAULT_SIZE, BOOT_SPEED, false)
                 && s.boids[k].pub == Some(Vec(Scaled(rand[k].0, width), Scaled(rand[k].1, height)));
        swarm := s;
      }
    }
  }
}
