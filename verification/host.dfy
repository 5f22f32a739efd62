/** The browser facilities the core relies on, reduced to what the core can
    observe: callbacks registered with requestAnimationFrame, setTimeout and
    setInterval (each identified by a fresh positive id until it is cancelled
    or dispatched), the window's inner size, and whether the window/document
    pointer handlers are installed. There is no clock: a pending callback is
    an entry in a map, and "the callback fires" is a method a client calls. */
module Host {

  /** The callbacks the core registers. A carousel's nextSlide callback
      is bound to its own instance (`owner`), so the carousels of one page
      each hold their own interval. */
  datatype Task = SwarmUpdate | SwarmHome | SwarmScatter | CarouselNext(owner: nat)
  {
    /** The two callbacks of the swarm's scatter/home oscillation. */
    predicate IsSwarmPhase() { this == SwarmHome || this == SwarmScatter }
  }

  /** A pending timeout or interval: what it runs and after how many ms. */
  datatype Timer = Timer(task: Task, delay: int)

  class Browser {
    /** The last id handed out; each new id is the next integer, so ids
        are positive and 0 never names a pending callback. */
    var lastId: nat
    var frames: map<nat, Task>
    var timeouts: map<nat, Timer>
    var intervals: map<nat, Timer>
    /** window.innerWidth and window.innerHeight */
    var innerWidth: nat
    var innerHeight: nat
    /** window.onmousedown / document.ontouchstart hold the swarm's
        target-setting closures (true) or are null (false). */
    var pointerHandlers: bool
    /** How many carousels the page has created; each is known by its
        number, so a new one owns no pending interval yet. */
    var carousels: nat

    ghost predicate Valid()
      reads this
    {
      && 0 !in frames && 0 !in timeouts && 0 !in intervals
      && (forall id | id in intervals && intervals[id].task.CarouselNext? ::
            intervals[id].task.owner <= carousels)
    }

    constructor (width: nat, height: nat)
      ensures Valid()
      ensures lastId == 0 && frames == map[] && timeouts == map[] && intervals == map[]
      ensures innerWidth == width && innerHeight == height && !pointerHandlers && carousels == 0
    {
      lastId := 0;
      frames, timeouts, intervals := map[], map[], map[];
      innerWidth, innerHeight := width, height;
      pointerHandlers := false;
      carousels := 0;
    }

    method RequestAnimationFrame(task: Task) returns (id: nat)
      requires Valid()
      modifies this`lastId, this`frames
      ensures Valid()
      ensures id == old(lastId) + 1 == lastId
      ensures id != 0 && frames == old(frames)[id := task]
    {
      lastId := lastId + 1;
      id := lastId;
      frames := frames[id := task];
    }

    method CancelAnimationFrame(id: nat)
      requires Valid()
      modifies this`frames
      ensures Valid()
      ensures frames == old(frames) - {id}
    {
      frames := frames - {id};
    }

    method SetTimeout(task: Task, delay: int) returns (id: nat)
      requires Valid()
      modifies this`lastId, this`timeouts
      ensures Valid()
      ensures id == old(lastId) + 1 == lastId
      ensures id != 0 && timeouts == old(timeouts)[id := Timer(task, delay)]
    {
      lastId := lastId + 1;
      id := lastId;
      timeouts := timeouts[id := Timer(task, delay)];
    }

    /** Clearing an id that is not pending (already fired, or never issued)
        does nothing. */
    method ClearTimeout(id: nat)
      requires Valid()
      modifies this`timeouts
      ensures Valid()
      ensures timeouts == old(timeouts) - {id}
    {
      timeouts := timeouts - {id};
    }

    method SetInterval(task: Task, delay: int) returns (id: nat)
      requires Valid() && (task.CarouselNext? ==> task.owner <= carousels)
      modifies this`lastId, this`intervals
      ensures Valid()
      ensures id == old(lastId) + 1 == lastId
      ensures id != 0 && intervals == old(intervals)[id := Timer(task, delay)]
    {
      lastId := lastId + 1;
      id := lastId;
      intervals := intervals[id := Timer(task, delay)];
    }

    method ClearInterval(id: nat)
      requires Valid()
      modifies this`intervals
      ensures Valid()
      ensures intervals == old(intervals) - {id}
    {
      intervals := intervals - {id};
    }

    /** The host takes a due timeout off its list before running it. */
    method DispatchTimeout(id: nat) returns (task: Task)
      requires Valid() && id in timeouts
      modifies this`timeouts
      ensures Valid()
      ensures task == old(timeouts)[id].task && timeouts == old(timeouts) - {id}
    {
      task := timeouts[id].task;
      timeouts := timeouts - {id};
    }

    /** The host takes a due frame callback off its list before running it. */
    method DispatchFrame(id: nat) returns (task: Task)
      requires Valid() && id in frames
      modifies this`frames
      ensures Valid()
      ensures task == old(frames)[id] && frames == old(frames) - {id}
    {
      task := frames[id];
      frames := frames - {id};
    }

    /** A carousel is created: it is known by the next number. */
    method NewCarousel() returns (key: nat)
      requires Valid()
      modifies this`carousels
      ensures Valid()
      ensures key == old(carousels) + 1 == carousels
    {
      carousels := carousels + 1;
      key := carousels;
    }

    method SetPointerHandlers(installed: bool)
      requires Valid()
      modifies this`pointerHandlers
      ensures Valid() && pointerHandlers == installed
    {
      pointerHandlers := installed;
    }
  }
}
