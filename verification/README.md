# pxl-pond simulation kernel in Dafny

A model of the simulation kernel of the pond program (`src/main.rs`): a
1024 × 1024 grid of droplets stored row-major, a square "finger" region
of cells (the epicenter) anchored at (100, 100) and 10 cells wide, ripples
that are spawned by pressing the Action button and age by one per frame
until they reach 500, and the per-frame ripple step of `render`.

Modules, one per component of the source file:

- `Wrappers` (`wrappers.dfy`): the `Option` type the source's partial functions return.
- `Grid` (`grid.dfy`): the constants, `Coordinate` (its datatype constructor is
  `Coordinate::new`), `InBounds`, `Index`, `Coord` and the round-trip facts.
- `Epicenter` (`epicenter.dfy`): `get_ripple_epicenter` as the same pipeline
  over sequences (rows outer, columns inner, filter, map), collected into a set.
- `Ripples` (`ripple.dfy`): `Ripple`, `Ripple::new`, `Ripple::tick`, the
  ripple-set step `TickAll` with a reference definition, and the loop
  `StepRipples` proved against it.
- `Events` (`events.dfy`): the event type and the effect of a batch on the ripples.
- `PondModel` (`pond.dfy`): the `Pond` class, whose `droplets` is an array
  and whose `ripples` is a sequence field reassigned by its methods. Its
  invariant `Valid` (one droplet per grid cell) is set up by the constructor
  and required and kept by every method.

Representation choices: `usize` is `nat` (every in-bounds index is below
2^20, so no wrap-around arises). `Ripple.age` is an `f64` in the source but
starts at 0.0 and only grows by 1.0, so it is a `nat`. Droplet heights are
`f32` values that are only ever assigned, so they are `real`.

Facts about the code that shape the model:

- `Ripple::tick` retires a ripple whose age is ≥ 500 (src/main.rs:69). A
  fresh ripple therefore survives 500 ticks, reaching age 500, and the 501st
  drops it (`Ripples.NewRippleLifetime`).
- `release` does nothing (src/main.rs:129-131), and `process_event` never
  calls it: that match arm is commented out (src/main.rs:115-118).
- `update_epicenter` has no caller. It is modelled as written, and what a
  touch followed by a release would do with it is stated as lemmas.
- The epicenter's anchor and width are the fixed constants FINGER_X,
  FINGER_Y and FINGER_WIDTH (src/main.rs:12-14).

## Model

| member | source | states |
|---|---|---|
| `Grid.Index` | src/main.rs:161-167 | an index is returned exactly when the point is in bounds, and it is below WIDTH·HEIGHT |
| `Grid.Coord` | src/main.rs:169-177 | None exactly when i ≥ WIDTH·HEIGHT; otherwise the coordinate is in bounds |
| `Grid.InBounds` | src/main.rs:179-181 | an in-bounds point has a linear position x + y·WIDTH inside the droplet storage |
| `Grid.CoordOfIndex` | src/main.rs:161-177 | round trip: `coord(index(x, y)) == Some((x, y))` for every in-bounds point |
| `Grid.IndexOfCoord` | src/main.rs:161-177 | round trip: `index(coord(i)) == Some(i)` for every i < WIDTH·HEIGHT |
| `Grid.IndexDeterminesCoord` | src/main.rs:161-177 | every cell whose index is i is the cell coord(i) gives back |
| `Grid.IndexInjective` | src/main.rs:161-167 | two in-bounds cells with the same index are the same cell |
| `Epicenter.RowPairs` | src/main.rs:155 | one row of the square holds the pairs (x0 + k, y) for k < x1 − x0, in order |
| `Epicenter.SquarePairs` | src/main.rs:154-155 | the flat_map over rows yields only pairs inside the rectangle of rows and columns |
| `Epicenter.KeepInBounds` | src/main.rs:156-157 | the filter/map keeps exactly the in-bounds pairs as Coordinates and never lengthens the sequence |
| `Epicenter.EpicenterSeq` | src/main.rs:153-158 | every coordinate get_ripple_epicenter yields is in bounds and inside the finger square |
| `Epicenter.RippleEpicenter` | src/main.rs:135 | the collected set holds only in-bounds cells of the finger square |
| `Epicenter.SquarePairsMembers` | src/main.rs:154-155 | the flat_map yields a pair exactly when it lies in the rectangle of rows and columns |
| `Epicenter.SquarePairsShape` | src/main.rs:154-155 | the flat_map yields (rows × columns) pairs, none twice |
| `Epicenter.KeepAllInBounds` | src/main.rs:156 | when every pair is in bounds the filter drops nothing and keeps the items distinct |
| `Epicenter.DistinctCardinality` | src/main.rs:135 | collecting a duplicate-free sequence into a set loses no element |
| `Epicenter.EpicenterMembership` | src/main.rs:153-158 | a cell is in the epicenter exactly when it is in bounds and inside the finger square |
| `Epicenter.EpicenterSize` | src/main.rs:153-158 | the epicenter has exactly FINGER_WIDTH² = 100 cells |
| `Ripples.NewRipple` | src/main.rs:52-61 | a new ripple has age 0 (below the maximum), is anchored at (FINGER_X, FINGER_Y), a cell of the epicenter, and has width FINGER_WIDTH |
| `Ripples.Tick` | src/main.rs:63-78 | None exactly when age ≥ 500; otherwise age + 1 with the same epicenter and width |
| `Ripples.TickTimesLifetime` | src/main.rs:63-78 | a ripple of age a ≤ 500 survives n ticks exactly when a + n ≤ 500, and then has age a + n and is otherwise unchanged |
| `Ripples.NewRippleLifetime` | src/main.rs:50-78 | a new ripple survives 500 ticks and the 501st retires it |
| `Ripples.TickAll` | src/main.rs:200 | the step never grows the ripple list |
| `Ripples.TickAllIsAgedActive` | src/main.rs:200 | the step equals the independent definition: the ripples with age < 500, in order, each aged by one |
| `Ripples.TickAllAppend` | src/main.rs:200 | the step distributes over concatenation, so relative order is kept |
| `Ripples.TickAllMembers` | src/main.rs:200 | a ripple is in the result exactly when it is an input ripple with age < 500 aged by one |
| `Ripples.StepRipples` | src/main.rs:200 | the loop returns exactly `TickAll` of its input |
| `Events.AfterEvent` | src/main.rs:109-126 | an event keeps the old ripples in place and adds one new ripple after them exactly when it is an Action press |
| `Events.AfterEvents` | src/main.rs:229-231 | a batch keeps the old ripples in front and grows the list by exactly the number of Action presses |
| `Events.AfterEventsConcat` | src/main.rs:229-231 | handling a batch is handling its first part and then the rest |
| `Events.AfterEventsSpawns` | src/main.rs:229-231 | a batch keeps the existing ripples and appends one new ripple per Action press, and nothing else |
| `PondModel.InEpicenterAt` | src/main.rs:139-148 | the filters select droplet i exactly when i is the index of some epicenter cell |
| `PondModel.Updated` | src/main.rs:134-150 | the update keeps the number of droplets |
| `PondModel.UpdatedSetsEpicenter` | src/main.rs:134-150 | in a full grid, the droplet at the index of every epicenter cell has the new height |
| `PondModel.UpdatedKeepsOthers` | src/main.rs:134-150 | a droplet that is not the index of any epicenter cell is unchanged |
| `PondModel.UpdatedLastWins` | src/main.rs:134-150 | two updates in a row equal the second alone |
| `PondModel.TouchReleaseRestores` | src/main.rs:134-150 | setting the epicenter to t and then back to d restores a grid whose epicenter was at d |
| `PondModel.Pond.constructor` | src/main.rs:96-106 | WIDTH·HEIGHT droplets (the invariant `Valid`), all at DEF_TEMP, and no ripples |
| `PondModel.Pond.Touch` | src/main.rs:124-126 | appends exactly one new ripple and leaves the droplets untouched |
| `PondModel.Pond.Release` | src/main.rs:129-131 | changes nothing |
| `PondModel.Pond.ProcessEvent` | src/main.rs:109-121 | only an Action press changes the pond, by one touch; every other event leaves it as it was |
| `PondModel.Pond.Tick` | src/main.rs:229-231 | the events are handled in order, the droplets are untouched, and the ripple count grows by the number of Action presses |
| `PondModel.Pond.UpdateEpicenter` | src/main.rs:134-150 | the droplets become `Updated` of the old droplets: epicenter cells at the new value, every other droplet as it was, same count |
| `PondModel.Pond.Render` | src/main.rs:198-200 | requires a pixel buffer as long as the droplets, so WIDTH·HEIGHT pixels; replaces the ripples with the survivors of one tick and leaves the droplets untouched |

## Left out

- `Coordinate::distance` (src/main.rs:30-34): square root of floating-point values.
- `Ripple::get_height` (src/main.rs:80-82): sine and division on `f64`; it also divides by zero at age 0 or distance 0.
- PondModel.Pond.Render: models only the length assertion and the ripple step. The compositing loop that follows (src/main.rs:211-223) sums `get_height` into a value it discards and then reaches `unimplemented!()`, which aborts the program at the first cell. The commented-out pixel mapping (lines 201-210) is dead code. No pixel is written.
- The host runtime: `pxl::Program` wiring, `dimensions`, `main` and `pxl::run`, window and timing. The host's `Event` type is reduced to Action or other button, pressed or released, or an unrelated event. `Pixel` is a plain record that is never written.
- The unused `curr_x`/`curr_y` fields of `Pond` (src/main.rs:90-92).
- f32/f64 rounding: heights are exact reals, and ages are whole numbers, which they are in the source as long as they stay below 2^53.
