/** The two screens of the game. The play screen owns the simulation state
    (the bucket, the falling drops, the time of the last spawn and the score)
    and updates it once per frame; the loading screen waits for the assets
    and a touch before handing over to it.

    The framework's services are parameters: the touch position arrives
    already in world coordinates, each clock reading is a `Long` argument,
    and the random spawn position is an argument in [0, 736]. */
module Game {
  import opened Geometry
  import opened Clock
  import opened Rain

  /** The bucket stands 20 units above the bottom edge of the screen. */
  const BUCKET_Y: real := 20.0

  /** Where the input of one frame puts the bucket, before clamping: a touch
      centres the bucket on the touch, then each held arrow key shifts it by
      `SPEED * delta` in its direction, so that opposite keys cancel. */
  function InputTarget(x: real, touched: bool, touchX: real, left: bool, right: bool, delta: real): (target: real)
  {
    (if touched then touchX - SIZE / 2.0 else x)
      + (if right then SPEED * delta else 0.0)
      - (if left then SPEED * delta else 0.0)
  }

  /** Holding both arrow keys moves the bucket as holding neither. */
  lemma OppositeKeysCancel(x: real, touched: bool, touchX: real, delta: real)
    ensures InputTarget(x, touched, touchX, true, true, delta) == InputTarget(x, touched, touchX, false, false, delta)
  {
  }

  /** With no arrow key held, a touch whose centred bucket fits on the screen
      puts the bucket's left edge 32 units left of the touch; a touch near an
      edge puts the bucket against that edge. */
  lemma TouchCentresBucket(x: real, touchX: real, delta: real)
    ensures var r := Clamp(InputTarget(x, true, touchX, false, false, delta), 0.0, MAX_X);
      (SIZE / 2.0 <= touchX <= MAX_X + SIZE / 2.0 ==> r == touchX - 32.0) &&
      (touchX < SIZE / 2.0 ==> r == 0.0) &&
      (touchX > MAX_X + SIZE / 2.0 ==> r == MAX_X)
  {
  }

  /** A drop as the game creates it: 64 by 64, fully within the screen width. */
  predicate DropShaped(d: Rect)
  {
    d.width == SIZE && d.height == SIZE && 0.0 <= d.x <= MAX_X
  }

  /** The drops waiting for the removal pass of a frame: those already
      falling, then the one spawned in this frame, if any. */
  function Pending(raindrops: seq<Rect>, spawned: bool, spawnX: real): (ds: seq<Rect>)
    ensures |ds| == |raindrops| + (if spawned then 1 else 0)
    ensures ds[..|raindrops|] == raindrops
    ensures spawned ==> ds[|raindrops|] == NewDrop(spawnX)
  {
    raindrops + (if spawned then [NewDrop(spawnX)] else [])
  }

  /** What one frame adds to the score: the drops that, after falling,
      overlap the bucket. It never exceeds the number of drops, and the
      drops that remain plus those caught plus those missed are all of them. */
  lemma FrameConservation(ds: seq<Rect>, bucket: Rect, delta: real)
    requires forall d :: d in ds ==> DropShaped(d)
    requires bucket.y == BUCKET_Y
    ensures |Kept(Moved(ds, delta), bucket)| + |Caught(Moved(ds, delta), bucket)| + |Lost(Moved(ds, delta))| == |ds|
    ensures |Caught(Moved(ds, delta), bucket)| <= |ds|
  {
    var ms := Moved(ds, delta);
    forall m | m in ms
      ensures m.height <= SIZE
    {
      var i :| 0 <= i < |ms| && ms[i] == m;
      assert ds[i] in ds;
    }
    PassPartition(ms, bucket);
  }

  /** The drops that survive a pass keep their shape, are on screen and do
      not overlap the bucket. */
  lemma KeptDropsSafe(ds: seq<Rect>, delta: real, bucket: Rect)
    requires forall d :: d in ds ==> DropShaped(d)
    ensures forall d :: d in Kept(Moved(ds, delta), bucket) ==>
      DropShaped(d) && !Missed(d) && !Overlaps(d, bucket)
  {
    var ms := Moved(ds, delta);
    forall d | d in Kept(ms, bucket)
      ensures DropShaped(d) && !Missed(d) && !Overlaps(d, bucket)
    {
      KeptIff(ms, bucket, d);
      var j :| 0 <= j < |ms| && ms[j] == d;
      assert ds[j] in ds;
    }
  }

  /** The suffix of `s` from `k` is its element at `k` followed by the rest. */
  lemma SliceCons<T>(s: seq<T>, k: nat)
    requires k < |s|
    ensures s[k..] == [s[k]] + s[k + 1..]
  {
  }

  /** The prefix of `s` up to `k + 1` is the prefix up to `k` and `s[k]`. */
  lemma SliceSnoc<T>(s: seq<T>, k: nat)
    requires k < |s|
    ensures s[..k + 1] == s[..k] + [s[k]]
  {
  }

  /** The parts around the middle element of `a + [x] + b`. */
  lemma SpliceParts<T>(s: seq<T>, a: seq<T>, x: T, b: seq<T>)
    requires s == a + [x] + b
    ensures |a| < |s| && s[..|a|] == a && s[|a|] == x && s[|a| + 1..] == b
  {
  }

  class GameScreen {
    var bucket: Rect
    var raindrops: seq<Rect>
    var lastDropTime: Long
    var dropsGathered: nat

    /** The bucket keeps its height, size and place on screen, and every drop
        keeps the shape it was created with. */
    ghost predicate Valid()
      reads this
    {
      bucket.y == BUCKET_Y && bucket.width == SIZE && bucket.height == SIZE &&
      0.0 <= bucket.x <= MAX_X &&
      forall d :: d in raindrops ==> DropShaped(d)
    }

    /** The bucket starts centred (x = 400 - 32 = 368), 20 units up; no drops
        yet, the last drop time at zero and the score at zero. */
    constructor ()
      ensures Valid()
      ensures bucket == Rect(368.0, 20.0, 64.0, 64.0)
      ensures raindrops == [] && lastDropTime == 0 && dropsGathered == 0
    {
      bucket := Rect(SCREEN_WIDTH / 2.0 - SIZE / 2.0, BUCKET_Y, SIZE, SIZE);
      raindrops := [];
      lastDropTime := 0;
      dropsGathered := 0;
    }

    /** Adds one new drop at the top of the screen at `x` (the random value
        the framework draws in [0, 736]) and records `now` as the time of the
        last spawn. The drops already falling are not touched. */
    method SpawnRaindrop(now: Long, x: real)
      requires Valid()
      requires 0.0 <= x <= MAX_X
      modifies this
      ensures Valid()
      ensures raindrops == old(raindrops) + [NewDrop(x)]
      ensures lastDropTime == now
      ensures bucket == old(bucket) && dropsGathered == old(dropsGathered)
    {
      raindrops := raindrops + [NewDrop(x)];
      lastDropTime := now;
    }

    /** Showing the screen spawns the first drop at once. */
    method Show(now: Long, spawnX: real)
      requires Valid()
      requires 0.0 <= spawnX <= MAX_X
      modifies this
      ensures Valid()
      ensures raindrops == old(raindrops) + [NewDrop(spawnX)]
      ensures lastDropTime == now
      ensures bucket == old(bucket) && dropsGathered == old(dropsGathered)
    {
      SpawnRaindrop(now, spawnX);
    }

    /** Steps 1 and 2 of a frame: the input moves the bucket, which is then
        clamped to the screen. Only the bucket's x changes. */
    method MoveBucket(delta: real, touched: bool, touchX: real, left: bool, right: bool)
      requires Valid()
      modifies this
      ensures Valid()
      ensures bucket == old(bucket).(x := Clamp(InputTarget(old(bucket.x), touched, touchX, left, right, delta), 0.0, MAX_X))
      ensures raindrops == old(raindrops) && lastDropTime == old(lastDropTime)
      ensures dropsGathered == old(dropsGathered)
    {
      if touched {
        bucket := bucket.(x := touchX - SIZE / 2.0);
      }
      if left {
        bucket := bucket.(x := bucket.x - SPEED * delta);
      }
      if right {
        bucket := bucket.(x := bucket.x + SPEED * delta);
      }
      bucket := bucket.(x := Clamp(bucket.x, 0.0, MAX_X));
    }

    /** The body of the removal pass for the drop at iterator index `i`: the
        drop falls by `SPEED * delta`; if it is below the screen it is
        removed; if it overlaps the bucket the score rises by one and it is
        removed. Returns the iterator index of the next drop. */
    method HandleRaindrop(i: nat, delta: real) returns (next: nat)
      requires i < |raindrops|
      requires raindrops[i].height <= SIZE && bucket.y >= 0.0
      modifies this
      ensures var m := Fall(old(raindrops)[i], delta);
        var gone := Missed(m) || Overlaps(m, bucket);
        raindrops == old(raindrops)[..i] + (if gone then [] else [m]) + old(raindrops)[i + 1..] &&
        next == (if gone then i else i + 1) &&
        dropsGathered == old(dropsGathered) + (if Overlaps(m, bucket) then 1 else 0)
      ensures bucket == old(bucket) && lastDropTime == old(lastDropTime)
    {
      next := i;
      var raindrop := raindrops[next];
      next := next + 1;
      raindrop := raindrop.(y := raindrop.y - SPEED * delta);
      raindrops := raindrops[next - 1 := raindrop];
      ghost var removed := false;
      if raindrop.y + 64.0 < 0.0 {
        next := next - 1;
        raindrops := raindrops[..next] + raindrops[next + 1..];
        removed := true;
      }
      if Overlaps(raindrop, bucket) {
        dropsGathered := dropsGathered + 1;
        // the iterator never removes the same drop twice
        assert !removed by {
          MissExcludesCatch(raindrop, bucket);
        }
        next := next - 1;
        raindrops := raindrops[..next] + raindrops[next + 1..];
      }
    }

    /** Step 4 of a frame: every drop falls by `SPEED * delta`; drops below
        the screen are removed, and drops overlapping the bucket are removed and
        each scores one point. The list is walked with an iterator that
        removes the current element in place. */
    method FallAndRemove(delta: real)
      requires Valid()
      modifies this
      ensures Valid()
      ensures raindrops == Kept(Moved(old(raindrops), delta), bucket)
      ensures dropsGathered == old(dropsGathered) + |Caught(Moved(old(raindrops), delta), bucket)|
      ensures bucket == old(bucket) && lastDropTime == old(lastDropTime)
      ensures forall d :: d in raindrops ==> !Missed(d) && !Overlaps(d, bucket)
    {
      ghost var ms := Moved(raindrops, delta);
      var i := 0;
      ghost var k := 0;
      while i < |raindrops|
        invariant 0 <= k <= |ms| && i == |Kept(ms[..k], bucket)|
        invariant raindrops == Kept(ms[..k], bucket) + old(raindrops)[k..]
        invariant dropsGathered == old(dropsGathered) + |Caught(ms[..k], bucket)|
        invariant bucket == old(bucket) && lastDropTime == old(lastDropTime)
        decreases |raindrops| - i
      {
        ghost var kept := Kept(ms[..k], bucket);
        SliceCons(old(raindrops), k);
        SpliceParts(raindrops, kept, old(raindrops)[k], old(raindrops)[k + 1..]);
        assert old(raindrops)[k] in old(raindrops);
        i := HandleRaindrop(i, delta);
        assert ms[k] == Fall(old(raindrops)[k], delta);
        SliceSnoc(ms, k);
        PassSnoc(ms[..k], ms[k], bucket);
        assert raindrops == Kept(ms[..k + 1], bucket) + old(raindrops)[k + 1..];
        k := k + 1;
      }
      assert ms[..k] == ms;
      KeptDropsSafe(old(raindrops), delta, bucket);
    }

    /** One frame of the simulation: the bucket follows the input and is
        clamped; a drop is spawned if more than a second has passed since the
        last one (`now` is the clock reading of that test, `spawnNow` the
        reading the spawn records); then every drop, including one just
        spawned, falls, and the missed and caught drops are removed. */
    method Render(delta: real, touched: bool, touchX: real, left: bool, right: bool,
                  now: Long, spawnNow: Long, spawnX: real)
      requires Valid()
      requires 0.0 <= spawnX <= MAX_X
      modifies this
      ensures Valid()
      ensures bucket == old(bucket).(x := Clamp(InputTarget(old(bucket.x), touched, touchX, left, right, delta), 0.0, MAX_X))
      ensures lastDropTime == if SpawnDue(old(lastDropTime), now) then spawnNow else old(lastDropTime)
      ensures var pending := Pending(old(raindrops), SpawnDue(old(lastDropTime), now), spawnX);
        raindrops == Kept(Moved(pending, delta), bucket) &&
        dropsGathered == old(dropsGathered) + |Caught(Moved(pending, delta), bucket)|
      ensures forall d :: d in raindrops ==> !Missed(d) && !Overlaps(d, bucket)
    {
      ghost var pending := Pending(raindrops, SpawnDue(lastDropTime, now), spawnX);
      MoveBucket(delta, touched, touchX, left, right);
      if Sub(now, lastDropTime) as int > SPAWN_INTERVAL {
        SpawnRaindrop(spawnNow, spawnX);
      }
      assert raindrops == pending;
      FallAndRemove(delta);
    }
  }

  /** The message the loading screen shows under its welcome line: it depends
      only on whether the assets have finished loading. */
  function LoadingPrompt(assetsFinished: bool): (prompt: string)
  {
    if assetsFinished then "Tap anywhere to begin!" else "Loading assets..."
  }

  /** The loading screen hands over to the play screen only when the screen
      is touched and the assets have finished loading. */
  predicate StartsGame(touched: bool, assetsFinished: bool)
  {
    touched && assetsFinished
  }

  /** One frame of the loading screen. It returns the prompt it shows and,
      when it hands over, the new play screen, already shown: its first drop
      spawned at `spawnX` at time `now`. */
  method LoadingRender(touched: bool, assetsFinished: bool, now: Long, spawnX: real)
    returns (prompt: string, next: GameScreen?)
    requires 0.0 <= spawnX <= MAX_X
    ensures prompt == LoadingPrompt(assetsFinished)
    ensures next != null <==> touched && assetsFinished
    ensures next != null ==>
              fresh(next) && next.Valid() &&
              next.bucket == Rect(368.0, 20.0, 64.0, 64.0) &&
              next.raindrops == [NewDrop(spawnX)] && next.lastDropTime == now && next.dropsGathered == 0
  {
    prompt := LoadingPrompt(assetsFinished);
    next := null;
    if StartsGame(touched, assetsFinished) {
      next := new GameScreen();
      next.Show(now, spawnX);
    }
  }
}
