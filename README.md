# Drop: a verified model of the raindrop-catching game

This project models the simulation core of "Drop", a small libGDX/KTX arcade
game. The player moves a bucket along the bottom of an 800 by 480 screen. A
raindrop appears at the top once a second and falls at 200 units per second.
A drop that falls off the screen is lost. A drop that overlaps the bucket is
removed and scores a point. Before play starts, a loading screen waits until
the assets are loaded and the screen is touched.

The model has four modules:

- `Geometry` (geometry.dfy): the rectangle record; the framework's
  rectangle overlap test, proved equal to "the interiors share a point"; the
  framework's clamp.
- `Clock` (clock.dfy): the game's timestamps are 64-bit nanosecond counts,
  and their subtraction wraps around in two's complement. This module proves
  that the spawn test still measures the true elapsed time across a
  wrap-around.
- `Rain` (rain.dfy): what the removal pass does to the list of drops, as
  functions on sequences:
  - `Moved`: every drop falls;
  - `Kept`: the drops that stay;
  - `Caught`: the drops that score;
  - `Lost`: the drops that fell off the screen.

  The lemmas prove the membership of each selection (both directions), that
  a miss and a catch never apply to the same drop, and that kept, caught and
  lost split the fallen drops exactly.
- `Game` (game.dfy): the play screen as a class. Its fields are the bucket,
  the list of drops, the last spawn time and the score. Its methods follow
  the source's control flow:
  - the initial state;
  - `SpawnRaindrop` and `Show`;
  - the frame (`Render`): input and clamp (`MoveBucket`), the timed spawn,
    then the in-place iterator loop (`FallAndRemove`);
  - `HandleRaindrop`: the body of that loop, which in the source is the
    lambda given to `iterate`.

  Each method is proved against the `Rain` functions. The module also holds
  the loading screen's frame (`LoadingRender`).

The framework's services become parameters:

- The touch position arrives already in world coordinates, with a flag
  saying whether the screen is touched.
- The arrow keys are two flags.
- Each reading of the nanosecond clock is a `Long` argument. `Render` takes
  two readings, because the source reads the clock once for the spawn test
  and once more inside `spawnRaindrop`.
- The random spawn position is an argument in [0, 736].
- Whether the assets have finished loading is a flag.

The source removes a drop through the iterator in two independent `if`s:
one for a miss, one for a catch. Removing twice would make the iterator step
back and delete the drop before it, or fail, on the first drop.
`HandleRaindrop` carries a ghost flag and proves that the second removal
never follows the first. The proof uses the bucket's bottom edge, fixed at
y = 20, and the drops' height of 64.

A drop counts as missed only once `y + 64 < 0` (`Rain.Missed`), so a drop
with `y` in [-64, 0) stays in the list unless it overlaps the bucket.

## Model

| member | source | states |
|---|---|---|
| Geometry.OverlapsIffSharePoint | core/src/main/kotlin/com/demoktx/game/DemoGame.kt:152 | For rectangles of positive size, the strict interval overlap test used for catching holds exactly when the two interiors have a common point. |
| Geometry.Clamp | core/src/main/kotlin/com/demoktx/game/DemoGame.kt:134 | The clamped value is the value itself, `lo` or `hi`. It lies in [lo, hi] when that interval is non-empty. It equals the value when that is already in range, equals `lo` when the value is below, and equals `hi` when the value is above. |
| Clock.Wrap | core/src/main/kotlin/com/demoktx/game/DemoGame.kt:137 | `Long` arithmetic: the result has the same residue modulo 2^64 as the exact result, and equals it when that is in range. |
| Clock.ElapsedSurvivesWrap | core/src/main/kotlin/com/demoktx/game/DemoGame.kt:137 | Subtracting two clock readings `e` nanoseconds apart gives `e` for any `e` below 2^63, even if the counter wrapped in between. |
| Clock.SpawnDueIffElapsed | core/src/main/kotlin/com/demoktx/game/DemoGame.kt:137-139 | The spawn test holds exactly when the true time since the last spawn is strictly more than one second. |
| Rain.Moved | core/src/main/kotlin/com/demoktx/game/DemoGame.kt:144-145 | The pass visits every drop once, in order: the result has the same length, and each element is that drop lowered by `200 * delta` with x and size unchanged. |
| Rain.KeptIff | core/src/main/kotlin/com/demoktx/game/DemoGame.kt:144-157 | A drop stays in the list if and only if it was in the fallen list and is neither below the screen nor overlapping the bucket. |
| Rain.CaughtIff | core/src/main/kotlin/com/demoktx/game/DemoGame.kt:152-155 | A drop scores if and only if it is a fallen drop that overlaps the bucket. |
| Rain.LostIff | core/src/main/kotlin/com/demoktx/game/DemoGame.kt:147-150 | A drop counts as lost if and only if it is a fallen drop whose top edge is below the bottom of the screen. |
| Rain.MissExcludesCatch | core/src/main/kotlin/com/demoktx/game/DemoGame.kt:147-156 | A drop at most 64 high that is below the screen cannot overlap a bucket whose bottom edge is at or above 0. So the two removals never apply to the same drop. |
| Rain.PassPartition | core/src/main/kotlin/com/demoktx/game/DemoGame.kt:144-157 | Kept, caught and lost drops together form exactly the multiset of fallen drops. Their counts add up to the number of drops. |
| Game.FrameConservation | core/src/main/kotlin/com/demoktx/game/DemoGame.kt:144-157 | In one frame, drops left plus points scored plus drops lost equals the drops that were falling. So the score rises by at most the number of drops. |
| Game.KeptDropsSafe | core/src/main/kotlin/com/demoktx/game/DemoGame.kt:144-157 | Every drop that survives a pass keeps its 64 by 64 shape and its x in [0, 736]. It is not below the screen and does not overlap the bucket. |
| Game.OppositeKeysCancel | core/src/main/kotlin/com/demoktx/game/DemoGame.kt:126-131 | Holding LEFT and RIGHT together moves the bucket as holding neither. |
| Game.TouchCentresBucket | core/src/main/kotlin/com/demoktx/game/DemoGame.kt:121-134 | A touch with no key held centres the bucket on the touch (`touchX - 32`). Near an edge, the bucket is put against that edge instead. |
| Game.GameScreen.constructor | core/src/main/kotlin/com/demoktx/game/DemoGame.kt:90-96 | The bucket starts at x = 368, y = 20, 64 by 64. There are no drops, the last spawn time is 0 and the score is 0. |
| Game.GameScreen.SpawnRaindrop | core/src/main/kotlin/com/demoktx/game/DemoGame.kt:98-101 | Appends exactly one drop, 64 by 64 at y = 480 with the given x, after the existing drops, which are unchanged. Sets the last spawn time to the clock reading. Bucket and score are unchanged. |
| Game.GameScreen.Show | core/src/main/kotlin/com/demoktx/game/DemoGame.kt:160-164 | Showing the screen spawns one drop at once. |
| Game.GameScreen.MoveBucket | core/src/main/kotlin/com/demoktx/game/DemoGame.kt:121-134 | Touch, LEFT and RIGHT applied in order, then the clamp, give the clamped closed form: touch position minus 32 (or the old x), plus or minus `200 * delta` per key. Only the bucket's x changes, and it stays in [0, 736]. |
| Game.GameScreen.HandleRaindrop | core/src/main/kotlin/com/demoktx/game/DemoGame.kt:145-156 | One drop falls by `200 * delta`. It is removed exactly when it is missed or caught, and never removed twice. The score rises by one exactly when it overlaps the bucket. The returned iterator index points at the next drop. |
| Game.GameScreen.FallAndRemove | core/src/main/kotlin/com/demoktx/game/DemoGame.kt:144-157 | The in-place iterator loop leaves exactly the kept fallen drops, in order. It adds the number of caught drops to the score. It leaves no drop below the screen or on the bucket. |
| Game.GameScreen.Render | core/src/main/kotlin/com/demoktx/game/DemoGame.kt:120-157 | One frame. The bucket's x is the clamped input target; its y and size are unchanged. A drop is spawned, and the spawn time updated, exactly when more than a second passed, and at most one drop per frame. The pass then runs over the old drops plus the new one. The score rises by exactly the number of catches. |
| Game.LoadingRender | core/src/main/kotlin/com/demoktx/game/DemoGame.kt:57-66 | The prompt depends only on whether the assets are loaded. The play screen is started exactly when the screen is touched and loading has finished. The new screen is in its initial state with its first drop spawned. |

## Left out

- Drawing (background, score text, bucket and drops), the camera and its projection matrix: they only read the state.
- `camera.unproject`: the touch x is taken as already in world coordinates.
- Sound and music playback: fire-and-forget calls. Each catch plays the sound once, so the number of sounds equals the number of catches.
- The asset manager (`load`, `update`, `get`): whether loading has finished is an input flag.
- The clock and the random number generator: they become arguments. The spawn position is required to lie in [0, 736], the range the generator is asked for.
- Logging, `dispose` and the framework's screen registry (`addScreen`, `setScreen`, `removeScreen`): lifecycle wiring.
- The window setup in `lwjgl3/src/main/kotlin/com/demoktx/game/lwjgl3/Lwjgl3Launcher.kt`.
- The welcome line "Welcome to Drop!!! ", which the loading screen draws in every frame whatever the input.
- The number of spawns over a time window: it depends on when the framework calls `render`. The model proves the per-frame rule it comes from: at most one spawn per frame, only after more than a second.
- Positions are reals, not 32-bit floats. The properties are about ordering, clamping and counting, not rounding.
- Game.GameScreen.Render: the score is unbounded here, while the source's `Int` would wrap after 2^31 - 1 catches.
- Game.GameScreen.FallAndRemove: the score is unbounded, for the same reason as in Render.
- Game.GameScreen.HandleRaindrop: the score is unbounded, for the same reason as in Render.
