# Swarm, carousel and contact form — a Dafny model

This project models the three parts of the swarmag marketing site that
have behaviour worth stating.

- **The bee swarm.** Two revisions are modelled: `modules/Swarm.js` and the
  older `swarm.js`. A `Swarm` owns an ordered list of bees and a shared
  target point. It also holds an animation-frame id and a timeout id.
  - `start`, `stop` and `toggle` run the animation. `home` and `scatter`
    alternate the target, each scheduling the other.
  - On every frame each bee does four things in turn. It finds its nearest
    other bee (an argmin scanned from the end of the list). It picks a goal
    and a heading. It turns by 5 % of the angle to the desired direction.
    Then it moves and wraps at the container's edges.
  - The current revision takes its scatter/home period from the window's
    area. The older one uses a fixed 9 s period.
  - The older revision also has a page-wide singleton set up by `bootstrap`.
- **The hero carousel.** Two copies are modelled: `modules/Carousel.js` and the
  `initCarousel` closures of `scripts/swarmag.js`. Both keep a slide index
  stepped modulo the number of slides. A bounds-checked jump sets it
  directly. An 8 s interval advances it, and a render pass translates the
  slides and marks the current indicator.
- **The contact-form validator.** There are four copies: `swarmag.js`,
  `scripts/swarmag.js`, `modules/contact.js` and `modules/page-contact.js`.
  - Each field is checked on its trimmed value by three ordered rules:
    required, then the email pattern `^[^\s@]+@[^\s@]+\.[^\s@]+$`, then
    `minlength`. The first failure is shown in the field's error element
    and gives it a red border.
  - The form validates its required fields in order and stops at the
    first failure.
  - Other parts: required labels get an asterisk, a field is re-checked on
    input while it shows the red border, and there is the submit button's
    text and the payload sent by email.

Files and modules:

- `host.dfy` (`Host`): the browser facilities the core uses.
  `requestAnimationFrame`, `setTimeout` and `setInterval` are maps from
  fresh positive ids to pending callbacks. The model also holds the
  window's inner size, whether the pointer handlers are installed, and how
  many carousels the page has created: each carousel's interval callback
  names its own carousel, so the galleries page can run one per gallery.
  Nothing runs by itself: a client calls the "fired" method of the swarm
  or carousel.
- `steering.dfy` (`Steering`): one bee's step as functions on values, and
  the whole tick as a fold. Both swarm revisions share it.
- `flock.dfy` (`Flock`): `modules/Swarm.js` as classes. `Bee` and `Swarm` are
  classes whose methods update their fields in place. Each method is
  proved against the `Steering` functions.
- `flock_legacy.dfy` (`LegacyFlock`): `swarm.js`, with `Boid`, `Swarm` and
  `Page` (`window._swarm`).
- `carousel.dfy` (`Carousels`): one `Carousel` class for both copies. The
  constant `guardedStart` is true for the class, whose `startCarousel`
  returns while an interval is held, and false for the closures, which
  always register one.
- `form_rules.dfy` (`FormRules`): the pure decisions. These are `trim()`, the
  email pattern, the rule order and messages, the border classes of the
  two stylings, the payload defaults and the upper-casing of bad news.
- `contact_form.dfy` (`ContactForms`): the form's fields, labels and submit
  button as objects. `validateField`, `validateForm` (both loop variants),
  `clearFormErrors`, the asterisks and the submit flow update them in place.
  A `Theme` constant selects between two stylings:
  - the Tailwind classes `border-red-500`/`border-gray-300`;
  - the short classes `border-red`/`border-gray` of `modules/page-contact.js`.

Numbers are exact `real`s. `Math.sqrt`, `asin`, `cos`, `sin` and `PI` are
function-valued parameters, and so are the results of `Math.random()`.
The lemmas about the heading's distance test assume of `Math.sqrt` only
what it promises over the reals (`Steering.SqrtIsRoot`): the non-negative
square root of a non-negative number.
One piece of IEEE behaviour decides what the code does, and it is kept:
NaN.

- `closest.size` reads a property neither `Bee` nor `Boid` has. The
  neighbour gap is therefore NaN, and the separation and cohesion rules
  never fire (`Steering.DesiredIsHeadingOnly`).
- A division by a zero square root makes a bee's coordinates NaN. That
  bee is `lost`: it is never chosen as a neighbour again and never moves
  again (`Steering.LostBeesStayPut`).
- In `swarm.js`, `closest.x`/`.y` read the public properties that
  `createBoids` assigned once. The private position the step moves stays
  behind, and the model keeps both.

Where the code and its design description disagree, the model follows the
code:

- the current `start()` begins with the scatter phase, not the home phase;
- a bee wrapped past the left or top edge lands exactly on the far edge,
  with no size offset;
- the size-based separation and cohesion rules are dead, as described
  above.

## Model

| member | source | states |
|---|---|---|
| Steering.Scaled | swarm.js:203-204 | a `Math.random()` fraction in [0, 1) of a positive extent lies in [0, extent) |
| Steering.ClosestFrom | modules/Swarm.js:486-504 | the nearest-bee scan finds nothing iff no other non-NaN bee exists; otherwise its choice is eligible, has the least gap dx²+dy²−size² among all candidates, and is strictly nearer than every higher index (ties go to the highest index) |
| Steering.ClosestIsUnique | modules/Swarm.js:486-504 | those three properties single out the scan's result: any index having them is the one getClosest returns |
| Steering.FarIffSquareFar | modules/Swarm.js:401-404 | the test `distHeading > MOUSE_DIST` holds iff hx² + hy² > 300², for a square root that is the non-negative root |
| Steering.HeadingFar | modules/Swarm.js:401-406 | for a square root that is the non-negative root, a goal more than 300 away (hx² + hy² > 300²) gives the jitter heading (random − 0.5 on each axis) |
| Steering.HeadingAtGoal | modules/Swarm.js:401-409 | a bee standing on its goal (hx = hy = 0) gets a NaN heading, since it divides by a distance of 0 |
| Steering.HeadingNear | modules/Swarm.js:401-409 | for a square root that is the non-negative root, a goal at a non-zero distance of at most 300 gives the offset divided by its length, and that length lies in (0, 300] |
| Steering.Desired | modules/Swarm.js:391-434 | while the shared target is set (both coordinates non-zero), the nearest bee plays no part: the desired direction is the normalised heading toward the target, or NaN when a length is 0 |
| Steering.DesiredIsHeadingOnly | modules/Swarm.js:412-429 | because `closest.size` is undefined, the desired direction is always the normalised heading vector: separation and cohesion never apply |
| Steering.AngleDifference | modules/Swarm.js:437 | the angular difference is never negative |
| Steering.Turned | modules/Swarm.js:439-443 | the heading moves by exactly 0.05 × the angular difference, upward when the cross product is positive and downward otherwise |
| Steering.Advance | modules/Swarm.js:436-448 | after turning and moving, vx and vy are the cosine and sine of the new angle, and size, speed and the NaN state are kept |
| Steering.Moved | modules/Swarm.js:458-474 | moving changes only the position: angle, velocity, size, speed and the NaN state are kept |
| Steering.Step | modules/Swarm.js:387-449 | without a nearest bee nothing changes; a NaN direction makes the bee lost; size and speed never change |
| Steering.StepTurnsByFivePercent | modules/Swarm.js:436-446 | a completed step changes the angle by exactly 0.05 × a non-negative difference, upward iff the cross product is positive, and takes vx, vy as cos and sin of the new angle |
| Steering.WrapIntoBand | modules/Swarm.js:465-474 | a wrapped coordinate always lies in [−margin·size, extent+size], a coordinate inside that band is left alone, and wrapping twice equals wrapping once |
| Steering.StepWraps | modules/Swarm.js:462-474 | each axis independently: below −2·size (x) or −3·size (y) goes to width/height, beyond extent+size goes to −size, otherwise the coordinate is position + velocity·speed |
| Steering.StepAt | modules/Swarm.js:387-389 | bee k keeps its size and speed, and a bee with NaN coordinates finds no neighbour and is left exactly as it was |
| Steering.TickFrom | modules/Swarm.js:204-210 | a tick keeps the flock's length, and a tick started at index n leaves the bees at n and above untouched, since the loop runs downward |
| Steering.LoneBeeStandsStill | modules/Swarm.js:388-389 | a flock of one bee is unchanged by a tick |
| Steering.LostBeesStayPut | modules/Swarm.js:486-504 | a bee with NaN coordinates keeps its state through every tick |
| Steering.StepLandsInBand | modules/Swarm.js:458-474 | after one step a bee is unchanged, lost, or inside its wrap band |
| Steering.TickKeepsBeesInBand | modules/Swarm.js:204-215 | after a whole tick every bee is unchanged, lost, or inside its wrap band |
| Flock.Round | modules/Swarm.js:297 | Math.round's result is within one half of its argument (halves round up) |
| Flock.Clamp | modules/Swarm.js:288 | the clamped area lies in [222400, 3187200], equals the area inside that range and the nearer bound outside it |
| Flock.DurationForArea | modules/Swarm.js:280-298 | the scatter/home period lies in [5000, 15000] ms |
| Flock.DurationAtLowEnd | modules/Swarm.js:280-298 | screens at or below the low-end area get 5000 ms |
| Flock.DurationAtHighEnd | modules/Swarm.js:280-298 | screens at or above the high-end area get 15000 ms |
| Flock.DurationHalfway | modules/Swarm.js:280-298 | the area halfway between the two ends gets 10000 ms |
| Flock.DurationMonotone | modules/Swarm.js:280-298 | a larger screen never gets a shorter period |
| Flock.Bee.constructor | modules/Swarm.js:369-379 | a new bee is at the given point and angle, at rest, with size the larger of width and height |
| Flock.Bee.GetClosest | modules/Swarm.js:486-504 | the downward loop returns null iff the specified argmin finds nothing, and otherwise the bee at the argmin's index |
| Flock.Bee.Move | modules/Swarm.js:458-478 | the bee's new state is the move-and-wrap of its old state |
| Flock.Bee.TurnToward | modules/Swarm.js:436-448 | the bee's new state is the 5 % turn toward the desired direction followed by the move |
| Flock.Bee.Update | modules/Swarm.js:387-449 | bee k's new state is the step computed from the flock as it stood, reading the neighbour's live position; no other bee changes |
| Flock.Swarm.constructor | modules/Swarm.js:118-128 | a new swarm is empty, hidden, stopped and keeps the invariant |
| Flock.Swarm.AddBee | modules/Swarm.js:134-137 | the bee is appended at the end of the list |
| Flock.Swarm.Create | modules/Swarm.js:146-154 | exactly `total` fresh bees are appended, bee j at its random point of the container with a random angle in [0, 360), at rest |
| Flock.Swarm.Target | modules/Swarm.js:161-164 | the target becomes the given point |
| Flock.Swarm.PointerDown | modules/Swarm.js:233-234 | a pointer press while running retargets the swarm to the page coordinates and keeps the invariant |
| Flock.Swarm.DurationForScreenSize | modules/Swarm.js:280-298 | the period for the current window lies in [5000, 15000] ms |
| Flock.Swarm.Home | modules/Swarm.js:170-182 | the target becomes the home element's centre; the old phase timeout is cleared and exactly one new one, running scatter after one period, is pending |
| Flock.Swarm.Scatter | modules/Swarm.js:188-197 | the target becomes (0, 0); the old phase timeout is cleared and exactly one new one, running home after one period, is pending |
| Flock.Swarm.Update | modules/Swarm.js:204-215 | the next frame is requested under a fresh id and every bee's new state is the specified tick of the old flock |
| Flock.Swarm.UpdateBees | modules/Swarm.js:208-210 | the downward loop over the bees computes the tick |
| Flock.Swarm.UpdateBee | modules/Swarm.js:209 | one pass of the loop takes the tick one bee further |
| Flock.Swarm.FrameFired | modules/Swarm.js:206 | the frame callback replaces itself with a fresh frame and runs one tick; the swarm stays valid and running |
| Flock.Swarm.TimeoutFired | modules/Swarm.js:178-181 | a firing home timeout targets the home centre and schedules scatter; a firing scatter timeout targets (0, 0) and schedules home |
| Flock.Swarm.Start | modules/Swarm.js:230-239 | a no-op while a frame id is held; otherwise the swarm shows, installs the handlers, runs one tick with the target reset to (0, 0) (so each bee heads for its nearest neighbour), holds one frame and one home timeout, and is running |
| Flock.Swarm.Launch | modules/Swarm.js:233-238 | start past its guard: handlers, first frame and tick, scatter phase, shown |
| Flock.Swarm.Stop | modules/Swarm.js:245-255 | cancels exactly the held frame and timeout, leaves no swarm callback pending, no handlers, target (0, 0), hidden and stopped; on a stopped swarm it changes nothing (stop;stop is stop) |
| Flock.Swarm.Toggle | modules/Swarm.js:221-223 | flips visibility, the visibility test and the frame-id test agreeing; a visible swarm ends exactly as Stop leaves it (frame and timeout cancelled, handlers removed, target reset, bees untouched), a hidden one exactly as Start leaves it (one frame, one home timeout, one tick) |
| LegacyFlock.Boid.constructor | swarm.js:22-29 | a new boid sits at the private origin with heading 0, at rest, with the given size and speed |
| LegacyFlock.Boid.Publish | swarm.js:203-204 | assigning b.x, b.y sets only the public properties |
| LegacyFlock.Boid.GetClosest | swarm.js:117-135 | null iff the argmin finds no other non-NaN boid, otherwise the boid at the argmin's index (least gap, ties to the highest index) |
| LegacyFlock.Boid.Move | swarm.js:95-115 | the new state is the move-and-wrap of the old one, with margins 2·size (x) and 3·size (y) |
| LegacyFlock.Boid.TurnToward | swarm.js:80-92 | the new state is the 5 % turn toward the desired direction followed by the move |
| LegacyFlock.Boid.Update | swarm.js:31-93 | boid k's new state is the step computed from the flock, reading neighbours' public x/y; no other boid and no public property changes |
| LegacyFlock.Swarm.constructor | swarm.js:185-193 | a new swarm is empty, hidden, stopped and keeps the invariant |
| LegacyFlock.Swarm.AddBoid | swarm.js:195-198 | the boid is appended at the end of the list |
| LegacyFlock.Swarm.CreateBoids | swarm.js:200-208 | exactly `total` fresh boids are appended, each with its private state at the origin and its public x/y at a random point of the container |
| LegacyFlock.Swarm.Target | swarm.js:210-213 | the target becomes the given point |
| LegacyFlock.Swarm.PointerDown | swarm.js:256-257 | a pointer press while running retargets the swarm and keeps the invariant |
| LegacyFlock.Swarm.Home | swarm.js:215-223 | the target becomes (offsetLeft + 90, offsetTop + 55); the old phase timeout is cleared and exactly one scatter timeout of 9000 ms is pending |
| LegacyFlock.Swarm.Scatter | swarm.js:225-233 | the target becomes a random point of the container; the old phase timeout is cleared and exactly one home timeout of 9000 ms is pending |
| LegacyFlock.Swarm.Update | swarm.js:235-247 | the next frame is requested under a fresh id and the boids' new states are the tick of the old flock read through the public positions, which stay as they were |
| LegacyFlock.Swarm.UpdateBoids | swarm.js:239-241 | the downward loop over the boids computes the tick |
| LegacyFlock.Swarm.UpdateBoid | swarm.js:240 | one pass of the loop takes the tick one boid further |
| LegacyFlock.Swarm.FrameFired | swarm.js:237 | the frame callback replaces itself with a fresh frame and runs one tick |
| LegacyFlock.Swarm.TimeoutFired | swarm.js:222 | a firing home timeout targets (offsetLeft + 90, offsetTop + 55) and schedules scatter; a firing scatter timeout targets the random point and schedules home |
| LegacyFlock.Swarm.Start | swarm.js:253-263 | a no-op while a frame id is held; otherwise home comes first (target and 9000 ms scatter timeout), then the first frame and tick, then the swarm shows |
| LegacyFlock.Swarm.Launch | swarm.js:256-262 | start past its guard, in the order home, update, show |
| LegacyFlock.Swarm.Stop | swarm.js:265-275 | cancels exactly the held frame and timeout, leaves no swarm callback pending, no handlers, target (0, 0), hidden and stopped; on a stopped swarm it changes nothing |
| LegacyFlock.Swarm.Toggle | swarm.js:249-251 | flips visibility; a visible swarm ends exactly as Stop leaves it (frame and timeout cancelled, handlers removed, target reset, boids untouched), a hidden one exactly as Start leaves it (home target, one scatter timeout, one frame, one tick on the published positions) |
| LegacyFlock.Page.The | swarm.js:277-280 | Swarm.the yields the page's swarm iff bootstrap has set one, and the "bootstrap() must be completed first!" error otherwise |
| LegacyFlock.Page.Bootstrap | swarm.js:282-297 | a second bootstrap leaves window._swarm as it was; a failing init leaves it unset; otherwise it holds a fresh stopped swarm of 30 boids of speed 3 and size 8 |
| Carousels.JsRem | modules/Carousel.js:64 | JavaScript `%`: NaN iff the divisor is 0; otherwise the dividend minus the remainder is a multiple of the divisor, the remainder is smaller than the divisor in magnitude, and a non-zero remainder has the dividend's sign |
| Carousels.NextIndex | modules/Carousel.js:64 | with slides, a step forward from a slide lands on a slide; without slides it gives NaN |
| Carousels.PrevIndex | modules/Carousel.js:71 | with slides, a step back from a slide lands on a slide; without slides it gives NaN |
| Carousels.NextWraps | modules/Carousel.js:64 | stepping forward goes to the next slide, and from the last slide to the first |
| Carousels.PrevWraps | modules/Carousel.js:71 | stepping back goes to the previous slide, and from the first slide to the last |
| Carousels.PrevUndoesNext | modules/Carousel.js:62-74 | prev after next, and next after prev, restore the index |
| Carousels.Advanced | modules/Carousel.js:86 | any number of forward steps from a slide stays on a slide; without slides any step gives NaN |
| Carousels.AdvancedWrapsOnce | modules/Carousel.js:86 | k ≤ total forward steps from slide n land on n + k, wrapped once past the last slide |
| Carousels.FullRoundReturns | modules/Carousel.js:86 | total forward steps come back to the same slide |
| Carousels.Carousel.constructor | modules/Carousel.js:22-40 | a new carousel takes the next carousel number of the page, so it may be created while other galleries' carousels tick; it is on slide 0, rendered, and holds exactly one fresh interval of its own |
| Carousels.Carousel.Render | modules/Carousel.js:42-60 | slide k is translated by (k − curr)·100 %, and exactly the indicator at curr is active with aria-current |
| Carousels.Carousel.Start | modules/Carousel.js:84-87 | the class never adds a second interval while one is held; otherwise exactly one new 8000 ms interval is registered; the unguarded closure copy of scripts/swarmag.js is only reached with no interval held |
| Carousels.Carousel.Stop | modules/Carousel.js:89-93 | clears exactly the held interval and nothing else; a no-op when none is held; afterwards none of this carousel's nextSlide intervals is pending, whatever other carousels hold |
| Carousels.Carousel.Next | modules/Carousel.js:62-67 | curr steps forward modulo total, the carousel is re-rendered, and exactly one fresh interval replaces the old one, in both copies, since the closure copy stops before its unguarded start |
| Carousels.Carousel.Prev | modules/Carousel.js:69-74 | curr steps back modulo total, the carousel is re-rendered, and exactly one fresh interval replaces the old one |
| Carousels.Carousel.ToSlide | modules/Carousel.js:76-82 | an index outside [0, total) changes nothing at all (in both copies); a valid one sets curr, re-renders and restarts the interval |
| Carousels.Carousel.IntervalFired | modules/Carousel.js:86 | the interval's callback is nextSlide, and the fired interval is replaced by a fresh one |
| Carousels.OneIntervalWhileTicking | modules/Carousel.js:84-93 | while a carousel ticks, exactly one of its own nextSlide intervals is pending: the one it holds; other carousels' intervals do not count |
| Carousels.CarouselsTickApart | modules/page-galleries.js:12-29 | two carousels of one page (one per gallery) hold different interval ids, each running its own nextSlide |
| Carousels.RenderedMarksOnlyCurrent | modules/Carousel.js:42-59 | after a render the current slide sits at offset 0, exactly one indicator has aria-current, and each indicator has exactly one of the two classes |
| FormRules.TrimStartDropsSpace | modules/contact.js:113 | trimming the front removes a run of white space and stops at the first other character |
| FormRules.TrimEndDropsSpace | modules/contact.js:113 | trimming the back removes a run of white space and stops at the last other character |
| FormRules.Trim | modules/contact.js:113 | trim() never lengthens the value, and what it keeps neither starts nor ends with white space |
| FormRules.TrimIsInfix | modules/contact.js:113 | trim() keeps one infix of the value, surrounded only by white space |
| FormRules.TrimEmptyIffAllSpace | modules/contact.js:113 | a trimmed value is empty iff the raw value is all white space |
| FormRules.TrimIdempotent | modules/contact.js:113 | trimming twice equals trimming once |
| FormRules.EmailPattern | modules/contact.js:140 | the pattern matches no text shorter than `a@b.c`, and none without an '@' and a '.' |
| FormRules.EmailTest | modules/contact.js:140-141 | the scan accepts no text shorter than `a@b.c`, and none without an '@' |
| FormRules.EmailTestImpliesPattern | modules/contact.js:140-141 | every value the scan accepts matches `^[^\s@]+@[^\s@]+\.[^\s@]+$` |
| FormRules.PatternImpliesEmailTest | modules/contact.js:140-141 | every value matching the pattern is accepted by the scan |
| FormRules.EmailTestMatchesPattern | modules/contact.js:140-141 | the scan accepts exactly the values the pattern matches |
| FormRules.EmailHasOneAt | modules/contact.js:140-141 | an accepted address has exactly one '@' and text before it |
| FormRules.EmailRejectsSpace | modules/contact.js:140-141 | an address with white space anywhere is rejected |
| FormRules.Message | modules/contact.js:132-151 | the email failure shows the fixed text; the required and minlength failures show a sentence that starts with the field's name |
| FormRules.MessagesDiffer | modules/contact.js:132-151 | the three error messages are pairwise different for every field name |
| FormRules.Verdict | modules/contact.js:112-154 | a field only ever fails a rule it carries (required, type="email", minlength), and a minlength failure names a positive minimum |
| FormRules.PassesIffAllRulesHold | modules/contact.js:112-154 | a field passes iff it is non-blank when required, an address when it is an email field with text, and at least minlength characters after trimming |
| FormRules.FirstFailureWins | modules/contact.js:132-151 | each failure is reported exactly when its rule is broken and every earlier rule holds (required, then email, then minlength) |
| FormRules.EmptyOptionalField | swarmag.js:105-123 | a blank optional field skips the required and email rules, fails when minlength is positive and passes otherwise |
| FormRules.VerdictIgnoresSurroundingSpace | modules/contact.js:113 | the verdict depends only on the trimmed value |
| FormRules.AllPass | modules/contact.js:105-110 | the let loop's result is true iff every required field passes |
| FormRules.Checked | modules/contact.js:105-110 | the let loop validates every field up to and including the first failure, and all of them when none fails |
| FormRules.ConstLoopOutcome | swarmag.js:76-82 | the const loop returns true with no required field, false when the first fails, and throws the TypeError when the first passes |
| FormRules.ConstLoopThrowsOnValidForm | swarmag.js:78 | a form whose single required field is valid makes the const loop throw where the let loop returns true |
| FormRules.ConstLoopAgreesOnlyBeforeFirstPass | scripts/swarmag.js:155-161 | the two loops agree exactly when there is no required field or the first one fails |
| FormRules.ThemeClassesDiffer | modules/page-contact.js:122-123 | in both stylings the error and neutral border classes differ, and the label star contains '*' |
| FormRules.OrDefault | modules/contact.js:35-37 | `get(key) or fallback` yields the fallback iff the entry is missing, empty or the fallback itself, and the entry otherwise |
| FormRules.MakePayload | modules/contact.js:31-38 | name, email and phone pass through; service and property default to "Not specified" and message to "No message provided" exactly when missing or empty |
| FormRules.Upper | modules/page-contact.js:26 | toUpperCase maps each lower-case ASCII letter to its capital (code point minus 32) and leaves every other character alone |
| FormRules.ToUpper | modules/page-contact.js:26 | upper-casing keeps the length and maps each character on its own |
| FormRules.Shown | modules/page-contact.js:25-27 | good news is shown as given; bad news is the upper-cased message, with no lower-case letter left |
| FormRules.ToUpperIdempotent | modules/page-contact.js:26 | upper-casing twice equals upper-casing once |
| FormRules.ShownFailure | modules/page-contact.js:62 | the failure notice reads "SEND FAILED - TRY AGAIN" |
| ContactForms.RequiredOf | modules/contact.js:15 | the required list holds exactly the form's fields that carry `required` |
| ContactForms.RequiredOfDistinct | modules/contact.js:15 | the required list never holds the same element twice |
| ContactForms.Field.constructor | modules/contact.js:112-124 | a field as the page ships it, at its default value, with or without an `<id>-error` element already present (its text and visibility as given) |
| ContactForms.Field.Check | modules/contact.js:112-154 | a field with none of required, type="email" and minlength always passes |
| ContactForms.Starred | modules/contact.js:84-89 | the starred label text always holds a '*', is unchanged when it already held one, and otherwise gains " *" (so starring is idempotent) |
| ContactForms.Entry | modules/contact.js:32-37 | FormData.get is missing iff no field has that name, and otherwise is the value of the first field with that name |
| ContactForms.FormPayload | modules/contact.js:30-38 | name, email and phone are the form's entries; service, property and message are never empty, and fall back to their defaults when the form has no such field |
| ContactForms.SubmitButton.ShowMessage | modules/page-contact.js:25-27 | the button shows good news as given and bad news upper-cased |
| ContactForms.SubmitButton.ClearMessage | modules/page-contact.js:29-31 | the button shows its text from before sending again |
| ContactForms.ContactForm.constructor | modules/contact.js:14-15 | the required fields are collected once, in document order, without repeats |
| ContactForms.ContactForm.ShowError | modules/contact.js:156-161 | the message is shown and the neutral border is replaced by the error border |
| ContactForms.ContactForm.ClearFieldError | modules/contact.js:115-130 | the error element exists, is empty and hidden, and the error border is replaced by the neutral one |
| ContactForms.ContactForm.ValidateField | modules/contact.js:112-154 | returns true iff the field's verdict is a pass; a pass shows an empty hidden error and only the neutral border, a failure shows its own message and only the error border; other classes are kept; with the short classes of modules/page-contact.js the field carries exactly one of `border-red` and `border-gray` |
| ContactForms.ContactForm.ValidateForm | modules/contact.js:105-110 | returns true iff every required field passes; on failure, the fields before the first failing one show a pass, that one shows its failure, and later fields are not touched (the same loop as in modules/page-contact.js) |
| ContactForms.ContactForm.ValidateRequired | modules/contact.js:107 | one turn of the loop validates the i-th required field and changes no other |
| ContactForms.ContactForm.ValidateFormConst | swarmag.js:76-82 | the const loop's outcome is ConstLoopOutcome of the fields' verdicts; only the first required field is validated (the same loop as in scripts/swarmag.js) |
| ContactForms.ContactForm.ClearFormErrors | swarmag.js:135-147 | every error element is empty and hidden, and every field has the neutral border and not the error border; values are kept |
| ContactForms.ContactForm.HideErrors | swarmag.js:136-140 | every existing error element is emptied and hidden, and nothing else changes |
| ContactForms.ContactForm.ResetBorders | swarmag.js:142-146 | every field's error border is replaced by the neutral one, and nothing else changes |
| ContactForms.ContactForm.MarkRequiredLabels | scripts/swarmag.js:133-139 | each required field's label gains the star once, and not when its text already holds a '*' |
| ContactForms.ContactForm.StarLabel | scripts/swarmag.js:136-138 | one label gains the star markup and " *" text unless it already holds a '*' |
| ContactForms.ContactForm.OnInput | swarmag.js:69-73 | a field is re-validated only while it carries the error border, and is left untouched otherwise |
| ContactForms.ContactForm.Submit | modules/page-contact.js:21-45 | a payload is produced iff every required field passes; the required fields then all show no error, and the button shows "Sending...", is disabled and remembers its old text; a failing form shows every field up to the first failure as passing and that one with its message and red border, leaves later fields and the button alone, and sends nothing |
| ContactForms.ContactForm.SendFailed | modules/page-contact.js:60-65 | the button shows the upper-cased failure notice and is enabled again |
| ContactForms.ContactForm.SendSucceeded | modules/page-contact.js:47-49 | the button shows "Message Sent!" |
| ContactForms.ContactForm.ResetAfterSuccess | modules/page-contact.js:51-57 | the button shows its old text and stays disabled; every field is back to its default value with no error shown |
| ContactForms.ContactForm.ResetAndEnable | modules/contact.js:46-54 | as ResetAfterSuccess, and the button is enabled again |
| ContactForms.ContactForm.SendRound | modules/page-contact.js:21-57 | a submit that sends, followed by the success and the reset, leaves the fields at their defaults and the button with its old text but still disabled |
| ContactForms.ContactForm.SendRoundReenabled | modules/contact.js:22-54 | the same round with the reset of modules/contact.js leaves the button with its old text and enabled |

## Left out

- Steering.Heading: it has no contract of its own; its distance cases are
  stated by `HeadingFar`, `HeadingAtGoal` and `HeadingNear`. That the
  heading within 300 is a unit vector is not proved: it needs nonlinear
  reasoning about a quotient by the square root that the solver does not
  close within its resource bound.
- `Math.sqrt`, `asin`, `cos`, `sin` and `PI` are parameters, not IEEE
  functions. Rounding of doubles is not modelled; NaN is modelled only where
  it comes from a zero divisor or the missing `size` property.
- The `translate3d`/`rotateZ` transform strings, the `STYLE`/`HIDE`/`SHOW`
  CSS text and the element creation are not modelled. Visibility is one
  boolean.
- Event wiring is reduced to the calls it makes:
  - `onclick` on the home element is `Toggle`;
  - mousedown and touchstart are `PointerDown`;
  - a blur runs `ValidateField`;
  - a carousel button click runs `Next`, `Prev` or `ToSlide`.
- The try/catch around a tick is not modelled. A NaN never throws in
  JavaScript, and no other exception can arise in the modelled step.
- Failures of `init()` are not modelled for the current swarm revision (a
  missing `#swarm-home` or `#swarm-container`). For `swarm.js` they are
  modelled only as `Bootstrap` leaving `window._swarm` unset.
- The container's size and the home element's offsets are fixed when a
  swarm is made (`width`, `height` and the `home…` constants). The source
  reads `offsetWidth`/`offsetHeight` on every access (modules/Swarm.js:98,
  104) and the home element's offsets on every `home()` (modules/Swarm.js:
  171-174), so a layout change between frames, which would move the wrap
  edges and the home point, is not modelled.
- Steering.Wrap has no contract of its own. Its band, identity and
  idempotence properties are stated by `Steering.WrapIntoBand`; stating them
  on the function makes every proof about a moved bee too costly.
- swarm.js: the public `angle` property that `createBoids` assigns is
  never read, so it is not modelled.
- Flock.Swarm.Create and LegacyFlock.Swarm.CreateBoids: random fractions
  are taken as given. The range of `Math.random()` is a hypothesis of
  `Steering.Scaled`'s contract, not a precondition.
- There are no real timers. Time does not pass, and callbacks fire only
  when a client calls `FrameFired`, `TimeoutFired` or `IntervalFired`.
  This covers:
  - the 1500 ms and 2000 ms timeouts of the simulated submit in `swarmag.js`
    and `scripts/swarmag.js`;
  - the 2000 ms and 3000 ms timeouts of `modules/contact.js` and
    `modules/page-contact.js`.
- `emailjs.init`/`send` and their promise callbacks are not modelled. A
  success or failure is a call of `SendSucceeded` or `SendFailed`.
- `form.reset()` is modelled as every field taking its default value.
- `FormData` is modelled as the first field with the key's name.
- ContactForms.ContactForm.Submit: the `swarmag.js` and `scripts/swarmag.js`
  copies build no payload.
- ContactForms.ContactForm.SendFailed and ResetAfterSuccess follow
  `modules/page-contact.js`. Two behaviours of the other copies are not
  modelled:
  - `modules/contact.js` shows the failure notice without upper-casing
    (modules/contact.js:58-63); the two `swarmag` copies only simulate the
    send with two timeouts and have no failure path;
  - `modules/contact.js` and the two `swarmag` copies re-enable the button
    and swap its `bg-green-*` classes on reset (`ResetAndEnable` models the
    re-enabling; see "## Findings").
- The 3000 ms `clearMessage` after a failure is not modelled. It is
  `SubmitButton.ClearMessage`.
- The `minlength` attribute is a `nat`. A non-numeric attribute, which
  compares as NaN in JavaScript and never fails, is not modelled.
- FormRules.Message: prints the `minlength` value as a decimal number, where the source prints
  the attribute's raw text (modules/contact.js:149): `minlength="05"` reads
  "05" on the page and "5" in the model.
- `value.length` counts Unicode code points, not UTF-16 code units.
- `toUpperCase` is modelled on ASCII letters only.
- The `[id$="-error"]` query of `clearFormErrors` is taken to match exactly
  the error elements that `validateField` created for the form's fields.
- The label lookup `label[for=<id>]` is a field's `fieldLabel`.
- A carousel is told apart from the page's other carousels by a number the
  page hands out when it is created (`Host.Browser.carousels`), standing for
  the JavaScript object its nextSlide closure is bound to.
- `Host.Browser`'s ids come from a single counter shared by frames,
  timeouts and intervals. Browsers may number them separately; only
  freshness and non-zero matter here.
- Out of scope:
  - `modules/Website.js`;
  - `modules/galleries.js`, `modules/page-galleries.js` (apart from building
    one carousel per gallery), `modules/PhotoCatalog.js` and `modules/utils.js`;
  - `modules/core.js`, `modules/handlers.js`, `modules/page-errors.js` and
    `modules/page-dynamics.js`;
  - the header, scroll and fade-in parts of `swarmag.js` and
    `scripts/swarmag.js`.

  These are DOM plumbing, static photo lists or a random shuffle with no
  specifiable result.

## Findings

| source | as written | input that shows it | evidently intended | confidence | as-written member | corrected member |
|---|---|---|---|---|---|---|
| swarmag.js:76-82 | `for (const i = 0; i < required.length; i++)`: after the first field passes, `i++` assigns to a constant and throws a TypeError out of the submit handler, so a valid form is never submitted | a form whose only required field holds a valid value (scripts/swarmag.js:155-161 has the same loop) | a `let` loop that returns true iff every required field passes, as in modules/contact.js:105-110 | not executed | FormRules.ConstLoopThrowsOnValidForm | ContactForms.ContactForm.ValidateForm |
| modules/page-contact.js:51-57 | the reset two seconds after a successful send restores the button's text but never sets `submit.disabled = false`, which the submit handler set at line 34 | a valid form sent successfully: after the reset the button is still disabled, so a second message cannot be sent until the page reloads | the reset re-enables the button, as modules/contact.js:49 and both `swarmag` copies do | not executed | ContactForms.ContactForm.SendRound | ContactForms.ContactForm.SendRoundReenabled |
