/** The swarm of modules/Swarm.js: a `Swarm` that owns its bees, drives
    them from an animation-frame loop, and oscillates its target between
    the home element's centre and the origin on a timer whose period
    depends on the window's area; and the `Bee` whose private fields each
    frame updates in place. */
module Flock {
  import opened Steering
  import opened Host

  // ---------------------------------------------------------------------
  // Scatter/home period

  /** Swarm.MIN_SECONDS, MAX_SECONDS and the low- and high-end screen
      sizes (LOW_END_WIDTH × LOW_END_HEIGHT, HIGH_END_WIDTH × HIGH_END_HEIGHT). */
  const MIN_SECONDS: int := 5
  const MAX_SECONDS: int := 15
  const MIN_AREA: int := 320 * 695
  const MAX_AREA: int := 2560 * 1245

  /** Math.round: the nearest integer, halves rounded up. */
  function Round(r: real): (n: int)
    ensures r - 0.5 < n as real <= r + 0.5
  {
    (r + 0.5).Floor
  }

  /** The area clamped into [MIN_AREA, MAX_AREA]. */
  function Clamp(area: int): (c: int)
    ensures MIN_AREA <= c <= MAX_AREA
    ensures MIN_AREA <= area <= MAX_AREA ==> c == area
    ensures area < MIN_AREA ==> c == MIN_AREA
    ensures area > MAX_AREA ==> c == MAX_AREA
  {
    if area < MIN_AREA then MIN_AREA else if area > MAX_AREA then MAX_AREA else area
  }

  /** The period in milliseconds: the clamped area mapped linearly from
      [MIN_AREA, MAX_AREA] onto [MIN_SECONDS, MAX_SECONDS], times 1000,
      rounded. */
  function DurationForArea(area: int): (ms: int)
    ensures MIN_SECONDS * 1000 <= ms <= MAX_SECONDS * 1000
  {
    var c := Clamp(area);
    var seconds := (c - MIN_AREA) as real / (MAX_AREA - MIN_AREA) as real
                   * (MAX_SECONDS - MIN_SECONDS) as real + MIN_SECONDS as real;
    Round(seconds * 1000.0)
  }

  /** Screens no larger than the low end get the shortest period. */
  lemma DurationAtLowEnd(area: int)
    requires area <= MIN_AREA
    ensures DurationForArea(area) == MIN_SECONDS * 1000
  {
  }

  /** Screens no smaller than the high end get the longest period. */
  lemma DurationAtHighEnd(area: int)
    requires MAX_AREA <= area
    ensures DurationForArea(area) == MAX_SECONDS * 1000
  {
  }

  /** Halfway between the two areas the period is 10 seconds. */
  lemma DurationHalfway()
    ensures DurationForArea((MIN_AREA + MAX_AREA) / 2) == 10000
  {
  }

  /** A larger screen never gets a shorter period. */
  lemma DurationMonotone(a: int, b: int)
    requires a <= b
    ensures DurationForArea(a) <= DurationForArea(b)
  {
    var ca, cb := Clamp(a), Clamp(b);
    var span := (MAX_AREA - MIN_AREA) as real;
    assert (ca - MIN_AREA) as real / span <= (cb - MIN_AREA) as real / span;
  }

  // ---------------------------------------------------------------------
  // Bees

  class Bee {
    var x: real
    var y: real
    var angle: real
    var vx: real
    var vy: real
    /** #x, #y, #angle, #vx and #vy hold NaN */
    var lost: bool
    const size: real
    const speed: real
    /** #closest */
    var closest: Bee?

    function State(): BeeState
      reads this
    {
      BeeState(x, y, angle, vx, vy, size, speed, lost)
    }

    /** A bee at rest: no velocity, size the larger of its two sides. */
    constructor (width: real, height: real, speed: real, x: real, y: real, angle: real)
      ensures State() == BeeState(x, y, angle, 0.0, 0.0, if width < height then height else width, speed, false)
      ensures closest == null
    {
      this.speed := speed;
      this.angle := angle;
      this.x, this.y := x, y;
      this.vx, this.vy := 0.0, 0.0;
      this.size := if width < height then height else width;
      this.lost := false;
      this.closest := null;
    }

    /** The nearest other bee by squared distance minus squared size,
        scanning from the last bee down; null when there is none. */
    method GetClosest(boids: seq<Bee>) returns (find: Bee?)
      ensures var c := Closest(State(), States(boids), Mine(boids, this));
              && (find == null <==> c.None?)
              && (c.Some? ==> find == boids[c.value])
    {
      var me := State();
      ghost var pool := States(boids);
      ghost var mine := Mine(boids, this);
      var dist: Option<real> := None;  // None: Infinity
      find := null;
      ghost var at: Option<nat> := None;
      var i := |boids|;
      while i > 0
        invariant 0 <= i <= |boids|
        invariant at == ClosestFrom(me, pool, mine, i)
        invariant find == null <==> at.None?
        invariant at.Some? ==> find == boids[at.value] && dist == Some(Gap(me, pool[at.value]))
        invariant at.None? ==> dist.None?
      {
        i := i - 1;
        var b := boids[i];
        if b != this && !b.lost && !lost {
          var dx := b.x - x;
          var dy := b.y - y;
          var dl := dx * dx + dy * dy - b.size * b.size;
          assert dl == Gap(me, pool[i]);
          if dist.None? || dl < dist.value {
            dist := Some(dl);
            find := b;
            at := Some(i);
          }
        }
      }
    }

    /** Position update and edge wrap: x may drift two sizes off the
        left edge and y three sizes off the top before reappearing at the
        opposite edge; one size past the right or bottom edge sends the
        bee to one size before the start. */
    method Move(width: real, height: real)
      modifies this`x, this`y
      ensures State() == Moved(old(State()), width, height)
    {
      ghost var goal := Moved(State(), width, height);
      x := x + vx * speed;
      y := y + vy * speed;
      if x < -size * 2.0 {
        x := width;
      } else if x > width + size {
        x := -size;
      }
      assert x == goal.x;
      if y < -size * 3.0 {
        y := height;
      } else if y > height + size {
        y := -size;
      }
      assert y == goal.y;
    }

    /** Turn toward the desired direction d, take the velocity from the
        new heading, and move. */
    method TurnToward(d: Vec, width: real, height: real, env: MathEnv)
      modifies this`angle, this`vx, this`vy, this`x, this`y
      ensures State() == Advance(old(State()), d, width, height, env)
    {
      var me := State();
      var cross := Cross(me, d);
      angle := Turned(angle, cross, AngleDifference(cross, Dot(me, d), env));
      vx := env.cos(angle);
      vy := env.sin(angle);
      assert State() == Turn(me, d, env);
      Move(width, height);
    }

    /** One frame for bee k of the swarm: the step StepAt computes from the
        flock as it stands, reading the neighbour's live position. Only
        this bee changes. */
    method Update(swarm: Swarm, env: MathEnv, jitter: Vec, ghost k: nat)
      requires k < |swarm.bees| && swarm.bees[k] == this && Distinct(swarm.bees)
      modifies this
      ensures State() == StepAt(old(States(swarm.bees)), k, Live, swarm.targetX, swarm.targetY,
                                swarm.width, swarm.height, env, jitter)
      ensures States(swarm.bees) == old(States(swarm.bees))[k := State()]
    {
      ghost var s := States(swarm.bees);
      assert Mine(swarm.bees, this) == Own(|s|, k);
      var find := GetClosest(swarm.bees);
      closest := find;
      ghost var c := Closest(s[k], s, Own(|s|, k));
      if find == null {
        return;
      }
      var anchor := Some(Vec(find.x, find.y));
      assert anchor == AnchorOf(s, Live, c.value);
      var desired := Desired(State(), anchor, swarm.targetX, swarm.targetY, env, jitter);
      if desired.None? {
        lost := true;
      } else {
        TurnToward(desired.value, swarm.width, swarm.height, env);
      }
      assert State() == Step(s[k], true, desired, swarm.width, swarm.height, env);
    }
  }

  /** Each bee's private state, in flock order. */
  function States(bees: seq<Bee>): (s: seq<BeeState>)
    reads set b | b in bees
    ensures |s| == |bees|
  {
    seq(|bees|, i reads set b | b in bees requires 0 <= i < |bees| => bees[i].State())
  }

  /** `this !== b` for each entry of the array. */
  function Mine(bees: seq<Bee>, me: Bee): (mine: seq<bool>)
    ensures |mine| == |bees| && forall i | 0 <= i < |bees| :: mine[i] == (bees[i] == me)
  {
    seq(|bees|, i requires 0 <= i < |bees| => bees[i] == me)
  }

  predicate Distinct(bees: seq<Bee>)
  {
    forall i, j | 0 <= i < j < |bees| :: bees[i] != bees[j]
  }

  // ---------------------------------------------------------------------
  // The swarm

  class Swarm {
    /** The window the swarm registers its callbacks with. */
    const host: Browser
    var bees: seq<Bee>
    var targetX: real
    var targetY: real
    /** #updateID and #scatterID; 0 means none. */
    var updateID: nat
    var scatterID: nat
    /** The container's style is SHOW (true) or HIDE (false); `animating`. */
    var visible: bool
    /** The container's offsetWidth and offsetHeight. */
    const width: real
    const height: real
    /** The home element's offsetLeft, offsetTop, offsetWidth, offsetHeight. */
    const homeLeft: real
    const homeTop: real
    const homeWidth: real
    const homeHeight: real

    /** The one animation frame the swarm may have pending is #updateID. */
    ghost predicate FrameOwned()
      reads this, host
    {
      && (updateID != 0 ==> updateID in host.frames && host.frames[updateID] == SwarmUpdate)
      && (forall id | id in host.frames && host.frames[id] == SwarmUpdate :: id == updateID)
    }

    /** The one scatter/home timeout the swarm may have pending is #scatterID. */
    ghost predicate PhaseOwned()
      reads this, host
    {
      forall id | id in host.timeouts && host.timeouts[id].task.IsSwarmPhase() :: id == scatterID
    }

    ghost predicate PhasePending()
      reads this, host
    {
      scatterID != 0 ==> scatterID in host.timeouts && host.timeouts[scatterID].task.IsSwarmPhase()
    }

    /** A swarm is either stopped — hidden, no frame, no timeout, no
        pointer handlers, target (0, 0) — or running with all of them. */
    ghost predicate Valid()
      reads this, host
    {
      && host.Valid()
      && Distinct(bees)
      && FrameOwned() && PhaseOwned() && PhasePending()
      && (visible <==> updateID != 0)
      && (host.pointerHandlers <==> updateID != 0)
      && (scatterID != 0 <==> updateID != 0)
      && (updateID == 0 ==> targetX == 0.0 && targetY == 0.0)
    }

    ghost predicate Running()
      reads this
    {
      updateID != 0
    }

    /** `new Swarm().init()`: an empty, hidden swarm in a container of the
        given size, homed on the given element. */
    constructor (host: Browser, width: real, height: real,
                 homeLeft: real, homeTop: real, homeWidth: real, homeHeight: real)
      requires host.Valid() && !host.pointerHandlers
      requires forall id | id in host.frames :: host.frames[id] != SwarmUpdate
      requires forall id | id in host.timeouts :: !host.timeouts[id].task.IsSwarmPhase()
      ensures Valid() && !Running() && bees == [] && !visible
      ensures this.host == host && this.width == width && this.height == height
      ensures this.homeLeft == homeLeft && this.homeTop == homeTop
      ensures this.homeWidth == homeWidth && this.homeHeight == homeHeight
    {
      this.host := host;
      this.width, this.height := width, height;
      this.homeLeft, this.homeTop, this.homeWidth, this.homeHeight := homeLeft, homeTop, homeWidth, homeHeight;
      bees := [];
      targetX, targetY := 0.0, 0.0;
      updateID, scatterID := 0, 0;
      visible := false;
    }

    method AddBee(b: Bee)
      requires Valid() && b !in bees
      modifies this`bees
      ensures Valid() && bees == old(bees) + [b]
    {
      bees := bees + [b];
    }

    /** `total` new bees of the given size and speed, each at a random point
        of the container with a random angle in [0, 360): bee j (in order of
        creation) takes its three Math.random() results from rand[j]. */
    method Create(total: nat, beeWidth: real, beeHeight: real, speed: real,
                  rand: seq<(real, real, real)>)
      requires Valid() && |rand| == total
      modifies this`bees
      ensures Valid()
      ensures |bees| == |old(bees)| + total && bees[..|old(bees)|] == old(bees)
      ensures forall j | |old(bees)| <= j < |bees| :: fresh(bees[j])
      ensures forall k | |old(bees)| <= k < |bees| ::
                var r := rand[k - |old(bees)|];
                bees[k].State()
                  == BeeState(Scaled(r.0, width), Scaled(r.1, height), Scaled(r.2, 360.0), 0.0, 0.0,
                              if beeWidth < beeHeight then beeHeight else beeWidth, speed, false)
    {
      var i := total;
      while i > 0
        invariant 0 <= i <= total
        invariant Valid()
        invariant |bees| == |old(bees)| + (total - i) && bees[..|old(bees)|] == old(bees)
        invariant forall j | |old(bees)| <= j < |bees| :: fresh(bees[j])
        invariant forall k | |old(bees)| <= k < |bees| ::
                    var r := rand[k - |old(bees)|];
                    bees[k].State()
                      == BeeState(Scaled(r.0, width), Scaled(r.1, height), Scaled(r.2, 360.0), 0.0, 0.0,
                                  if beeWidth < beeHeight then beeHeight else beeWidth, speed, false)
      {
        var r := rand[total - i];
        var b := new Bee(beeWidth, beeHeight, speed, Scaled(r.0, width), Scaled(r.1, height), Scaled(r.2, 360.0));
        AddBee(b);
        i := i - 1;
      }
    }

    /** The container's setting of the target point. */
    method Target(x: real, y: real)
      modifies this`targetX, this`targetY
      ensures targetX == x && targetY == y
    {
      targetX, targetY := x, y;
    }

    /** A mousedown or touchstart while running retargets the swarm to the
        pointer's page coordinates. */
    method PointerDown(pageX: real, pageY: real)
      requires Valid() && host.pointerHandlers
      modifies this`targetX, this`targetY
      ensures Valid() && targetX == pageX && targetY == pageY
    {
      Target(pageX, pageY);
    }

    /** The period the window's current size calls for. */
    function DurationForScreenSize(): (ms: int)
      reads host
      ensures MIN_SECONDS * 1000 <= ms <= MAX_SECONDS * 1000
    {
      DurationForArea(host.innerWidth * host.innerHeight)
    }

    /** Head for the centre of the home element, and scatter after one
        period: any earlier scatter/home timeout is replaced. */
    method Home()
      requires host.Valid() && PhaseOwned()
      modifies this`targetX, this`targetY, this`scatterID, host`lastId, host`timeouts
      ensures host.Valid() && PhaseOwned() && PhasePending() && scatterID != 0
      ensures targetX == homeLeft + homeWidth / 2.0 && targetY == homeTop + homeHeight / 2.0
      ensures scatterID == host.lastId == old(host.lastId) + 1
      ensures host.timeouts == (old(host.timeouts) - {old(scatterID)})
                                 [scatterID := Timer(SwarmScatter, DurationForScreenSize())]
    {
      Target(homeLeft + homeWidth / 2.0, homeTop + homeHeight / 2.0);
      if scatterID != 0 {
        host.ClearTimeout(scatterID);
      }
      scatterID := host.SetTimeout(SwarmScatter, DurationForScreenSize());
    }

    /** Head for the origin, and return home after one period: any earlier
        scatter/home timeout is replaced. */
    method Scatter()
      requires host.Valid() && PhaseOwned()
      modifies this`targetX, this`targetY, this`scatterID, host`lastId, host`timeouts
      ensures host.Valid() && PhaseOwned() && PhasePending() && scatterID != 0
      ensures targetX == 0.0 && targetY == 0.0
      ensures scatterID == host.lastId == old(host.lastId) + 1
      ensures host.timeouts == (old(host.timeouts) - {old(scatterID)})
                                 [scatterID := Timer(SwarmHome, DurationForScreenSize())]
    {
      Target(0.0, 0.0);
      if scatterID != 0 {
        host.ClearTimeout(scatterID);
      }
      scatterID := host.SetTimeout(SwarmHome, DurationForScreenSize());
    }

    /** Request the next frame, then update every bee from the last down
        to the first; bee i draws its random numbers from jitter[i]. */
    method Update(env: MathEnv, jitter: seq<Vec>)
      requires host.Valid() && Distinct(bees) && |jitter| == |bees|
      requires forall id | id in host.frames :: host.frames[id] != SwarmUpdate
      modifies this`updateID, host`lastId, host`frames, bees
      ensures host.Valid() && FrameOwned() && updateID != 0
      ensures updateID == host.lastId == old(host.lastId) + 1
      ensures host.frames == old(host.frames)[updateID := SwarmUpdate]
      ensures States(bees) == TickFrom(old(States(bees)), |bees|, Live, targetX, targetY,
                                       width, height, env, jitter)
    {
      updateID := host.RequestAnimationFrame(SwarmUpdate);
      UpdateBees(env, jitter);
    }

    /** The loop of update(): bees |bees|-1 down to 0, each once. */
    method UpdateBees(env: MathEnv, jitter: seq<Vec>)
      requires Distinct(bees) && |jitter| == |bees|
      modifies bees
      ensures States(bees) == TickFrom(old(States(bees)), |bees|, Live, targetX, targetY,
                                       width, height, env, jitter)
    {
      ghost var goal := TickFrom(States(bees), |bees|, Live, targetX, targetY, width, height, env, jitter);
      var i := |bees|;
      while i > 0
        invariant 0 <= i <= |bees|
        invariant TickFrom(States(bees), i, Live, targetX, targetY, width, height, env, jitter) == goal
      {
        UpdateBee(i - 1, env, jitter);
        i := i - 1;
      }
    }

    /** One pass of that loop: bee k updates, which leaves the rest of the
        tick to bees k-1 .. 0. */
    method UpdateBee(k: nat, env: MathEnv, jitter: seq<Vec>)
      requires Distinct(bees) && k < |bees| && |jitter| == |bees|
      modifies bees
      ensures TickFrom(States(bees), k, Live, targetX, targetY, width, height, env, jitter)
              == TickFrom(old(States(bees)), k + 1, Live, targetX, targetY, width, height, env, jitter)
    {
      ghost var s := States(bees);
      TickUnroll(s, k + 1, Live, targetX, targetY, width, height, env, jitter);
      bees[k].Update(this, env, jitter[k], k);
      assert States(bees) == s[k := StepAt(s, k, Live, targetX, targetY, width, height, env, jitter[k])];
    }

    /** The pending animation frame fires: the next frame of the loop. */
    method FrameFired(id: nat, env: MathEnv, jitter: seq<Vec>)
      requires Valid() && id in host.frames && host.frames[id] == SwarmUpdate
      requires |jitter| == |bees|
      modifies this`updateID, host`lastId, host`frames, bees
      ensures Valid() && Running()
      ensures updateID == host.lastId == old(host.lastId) + 1
      ensures host.frames == (old(host.frames) - {id})[updateID := SwarmUpdate]
      ensures States(bees) == TickFrom(old(States(bees)), |bees|, Live, targetX, targetY,
                                       width, height, env, jitter)
    {
      var task := host.DispatchFrame(id);
      Update(env, jitter);
    }

    /** The pending scatter/home timeout fires and runs its callback,
        which schedules the other one. */
    method TimeoutFired(id: nat)
      requires Valid() && id in host.timeouts && host.timeouts[id].task.IsSwarmPhase()
      modifies this`targetX, this`targetY, this`scatterID, host`lastId, host`timeouts
      ensures Valid() && Running()
      ensures old(host.timeouts[id].task) == SwarmHome ==>
                targetX == homeLeft + homeWidth / 2.0 && targetY == homeTop + homeHeight / 2.0
                && host.timeouts == (old(host.timeouts) - {id})[scatterID := Timer(SwarmScatter, DurationForScreenSize())]
      ensures old(host.timeouts[id].task) == SwarmScatter ==>
                targetX == 0.0 && targetY == 0.0
                && host.timeouts == (old(host.timeouts) - {id})[scatterID := Timer(SwarmHome, DurationForScreenSize())]
    {
      var task := host.DispatchTimeout(id);
      if task == SwarmHome {
        Home();
      } else {
        Scatter();
      }
    }

    /** Show the swarm and set it going: pointer handlers, the first frame
        (which also updates every bee once), then the scatter half of the
        cycle. Does nothing while it is already running. */
    method Start(env: MathEnv, jitter: seq<Vec>)
      requires Valid() && |jitter| == |bees|
      modifies this`updateID, this`scatterID, this`targetX, this`targetY, this`visible, bees,
               host`lastId, host`frames, host`timeouts, host`pointerHandlers
      ensures Valid() && Running()
      ensures old(updateID) != 0 ==>
                && unchanged(this) && unchanged(host)
                && States(bees) == old(States(bees))
      ensures old(updateID) == 0 ==>
                && visible && host.pointerHandlers && targetX == 0.0 && targetY == 0.0
                && updateID == old(host.lastId) + 1 && scatterID == old(host.lastId) + 2
                && host.frames == old(host.frames)[updateID := SwarmUpdate]
                && host.timeouts == old(host.timeouts)[scatterID := Timer(SwarmHome, DurationForScreenSize())]
                && States(bees) == TickFrom(old(States(bees)), |bees|, Live, 0.0, 0.0, width, height, env, jitter)
    {
      if updateID == 0 {
        Launch(env, jitter);
      }
    }

    /** start() past its guard. */
    method Launch(env: MathEnv, jitter: seq<Vec>)
      requires Valid() && !Running() && |jitter| == |bees|
      modifies this`updateID, this`scatterID, this`targetX, this`targetY, this`visible, bees,
               host`lastId, host`frames, host`timeouts, host`pointerHandlers
      ensures Valid() && Running()
      ensures visible && host.pointerHandlers && targetX == 0.0 && targetY == 0.0
      ensures updateID == old(host.lastId) + 1 && scatterID == old(host.lastId) + 2
      ensures host.frames == old(host.frames)[updateID := SwarmUpdate]
      ensures host.timeouts == old(host.timeouts)[scatterID := Timer(SwarmHome, DurationForScreenSize())]
      ensures States(bees) == TickFrom(old(States(bees)), |bees|, Live, 0.0, 0.0, width, height, env, jitter)
    {
      assert host.timeouts - {0} == host.timeouts;
      host.SetPointerHandlers(true);
      assert forall id | id in host.frames :: host.frames[id] != SwarmUpdate;
      Update(env, jitter);
      ghost var s1 := States(bees);
      Scatter();
      visible := true;
      assert States(bees) == s1;
    }

    /** Cancel the frame and the timeout, remove the pointer handlers,
        reset the target and hide the swarm. */
    method Stop()
      requires Valid()
      modifies this`updateID, this`scatterID, this`targetX, this`targetY, this`visible,
               host`frames, host`timeouts, host`pointerHandlers
      ensures Valid() && !Running() && !visible && !host.pointerHandlers
      ensures host.frames == old(host.frames) - {old(updateID)}
      ensures host.timeouts == old(host.timeouts) - {old(scatterID)}
      ensures forall id | id in host.frames :: host.frames[id] != SwarmUpdate
      ensures forall id | id in host.timeouts :: !host.timeouts[id].task.IsSwarmPhase()
      ensures !old(Running()) ==> unchanged(this) && unchanged(host)
    {
      if updateID != 0 {
        host.CancelAnimationFrame(updateID);
      }
      if scatterID != 0 {
        host.ClearTimeout(scatterID);
      }
      updateID, scatterID := 0, 0;
      host.SetPointerHandlers(false);
      targetX, targetY := 0.0, 0.0;
      visible := false;
    }

    /** A click on the home element: stop when animating, else start. */
    method Toggle(env: MathEnv, jitter: seq<Vec>)
      requires Valid() && |jitter| == |bees|
      modifies this`updateID, this`scatterID, this`targetX, this`targetY, this`visible, bees,
               host`lastId, host`frames, host`timeouts, host`pointerHandlers
      ensures Valid() && visible == !old(visible) && Running() == visible
      ensures old(visible) ==>
                && !host.pointerHandlers && targetX == 0.0 && targetY == 0.0
                && updateID == 0 && scatterID == 0 && host.lastId == old(host.lastId)
                && host.frames == old(host.frames) - {old(updateID)}
                && host.timeouts == old(host.timeouts) - {old(scatterID)}
                && States(bees) == old(States(bees))
      ensures !old(visible) ==>
                && host.pointerHandlers && targetX == 0.0 && targetY == 0.0
                && updateID == old(host.lastId) + 1 && scatterID == old(host.lastId) + 2
                && host.frames == old(host.frames)[updateID := SwarmUpdate]
                && host.timeouts == old(host.timeouts)[scatterID := Timer(SwarmHome, DurationForScreenSize())]
                && States(bees) == TickFrom(old(States(bees)), |bees|, Live, 0.0, 0.0, width, height, env, jitter)
    {
      if visible {
        Stop();
      } else {
        Start(env, jitter);
      }
    }
  }
}
