/** What one frame does to the falling raindrops, as functions on sequences:
    every drop falls, then the drops that left the screen ("missed") and the
    drops that overlap the bucket ("caught") are taken out of the list. The
    game screen's in-place loop is proved against these functions. */
module Rain {
  import opened Geometry

  /** The world the camera shows: 800 by 480 units. */
  const SCREEN_WIDTH: real := 800.0
  const SCREEN_HEIGHT: real := 480.0
  /** Drops and the bucket are 64 by 64. */
  const SIZE: real := 64.0
  /** Drops fall, and arrow keys move the bucket, at 200 units per second. */
  const SPEED: real := 200.0
  /** The largest x at which a 64-wide rectangle still fits on the screen. */
  const MAX_X: real := SCREEN_WIDTH - SIZE

  /** A new drop: 64 by 64, its bottom edge at the top of the screen. */
  function NewDrop(x: real): (d: Rect)
  {
    Rect(x, SCREEN_HEIGHT, SIZE, SIZE)
  }

  /** A drop after falling for `delta` seconds. */
  function Fall(d: Rect, delta: real): (fallen: Rect)
  {
    d.(y := d.y - SPEED * delta)
  }

  /** The drop has fallen below the bottom edge of the screen. The game
      tests the literal height 64, not the rectangle's own height. */
  predicate Missed(d: Rect)
  {
    d.y + 64.0 < 0.0
  }

  /** Every drop of `ds` after falling, in the same order. */
  function Moved(ds: seq<Rect>, delta: real): (ms: seq<Rect>)
    ensures |ms| == |ds|
    ensures forall i :: 0 <= i < |ds| ==> ms[i] == Fall(ds[i], delta)
  {
    if ds == [] then []
    else Moved(ds[..|ds| - 1], delta) + [Fall(ds[|ds| - 1], delta)]
  }

  /** The drops of `ms` that stay in the list: neither missed nor caught. */
  function Kept(ms: seq<Rect>, bucket: Rect): (kept: seq<Rect>)
  {
    if ms == [] then []
    else
      var m := ms[|ms| - 1];
      Kept(ms[..|ms| - 1], bucket) + (if Missed(m) || Overlaps(m, bucket) then [] else [m])
  }

  /** The drops of `ms` that overlap the bucket; each one scores a point. */
  function Caught(ms: seq<Rect>, bucket: Rect): (caught: seq<Rect>)
  {
    if ms == [] then []
    else
      var m := ms[|ms| - 1];
      Caught(ms[..|ms| - 1], bucket) + (if Overlaps(m, bucket) then [m] else [])
  }

  /** The drops of `ms` that fell below the screen. */
  function Lost(ms: seq<Rect>): (lost: seq<Rect>)
  {
    if ms == [] then []
    else
      var m := ms[|ms| - 1];
      Lost(ms[..|ms| - 1]) + (if Missed(m) then [m] else [])
  }

  /** Appending one drop extends each of the three selections by that drop
      or by nothing, which is how the pass handles one drop at a time. */
  lemma PassSnoc(ms: seq<Rect>, m: Rect, bucket: Rect)
    ensures Kept(ms + [m], bucket) ==
      Kept(ms, bucket) + (if Missed(m) || Overlaps(m, bucket) then [] else [m])
    ensures Caught(ms + [m], bucket) == Caught(ms, bucket) + (if Overlaps(m, bucket) then [m] else [])
    ensures Lost(ms + [m]) == Lost(ms) + (if Missed(m) then [m] else [])
  {
    assert (ms + [m])[..|ms|] == ms;
  }

  /** A drop stays exactly when it is neither missed nor caught: nothing that
      should go survives, and nothing that should stay is lost. */
  lemma {:induction false} KeptIff(ms: seq<Rect>, bucket: Rect, r: Rect)
    ensures r in Kept(ms, bucket) <==> r in ms && !Missed(r) && !Overlaps(r, bucket)
  {
    if ms != [] {
      var init := ms[..|ms| - 1];
      KeptIff(init, bucket, r);
      assert ms == init + [ms[|ms| - 1]];
    }
  }

  /** The drops that score are exactly the drops that overlap the bucket. */
  lemma {:induction false} CaughtIff(ms: seq<Rect>, bucket: Rect, r: Rect)
    ensures r in Caught(ms, bucket) <==> r in ms && Overlaps(r, bucket)
  {
    if ms != [] {
      var init := ms[..|ms| - 1];
      CaughtIff(init, bucket, r);
      assert ms == init + [ms[|ms| - 1]];
    }
  }

  /** The drops counted as lost are exactly the fallen drops below the screen. */
  lemma {:induction false} LostIff(ms: seq<Rect>, r: Rect)
    ensures r in Lost(ms) <==> r in ms && Missed(r)
  {
    if ms != [] {
      var init := ms[..|ms| - 1];
      LostIff(init, r);
      assert ms == init + [ms[|ms| - 1]];
    }
  }

  /** A drop no taller than 64 that fell below the screen cannot overlap a
      bucket standing at or above the bottom edge, so the two removals of the
      pass never apply to the same drop. */
  lemma MissExcludesCatch(d: Rect, bucket: Rect)
    requires d.height <= SIZE && bucket.y >= 0.0
    ensures !(Missed(d) && Overlaps(d, bucket))
  {
  }

  /** With drops no taller than 64 and the bucket on the screen, the pass
      splits the fallen drops exactly: each one is kept, caught or missed,
      and only one of these. */
  lemma {:induction false} PassPartition(ms: seq<Rect>, bucket: Rect)
    requires forall m :: m in ms ==> m.height <= SIZE
    requires bucket.y >= 0.0
    ensures multiset(Kept(ms, bucket)) + multiset(Caught(ms, bucket)) + multiset(Lost(ms)) == multiset(ms)
    ensures |Kept(ms, bucket)| + |Caught(ms, bucket)| + |Lost(ms)| == |ms|
  {
    if ms != [] {
      var init := ms[..|ms| - 1];
      var m := ms[|ms| - 1];
      assert ms == init + [m];
      PassPartition(init, bucket);
      MissExcludesCatch(m, bucket);
    }
    assert |multiset(Kept(ms, bucket))| + |multiset(Caught(ms, bucket))| + |multiset(Lost(ms))| == |multiset(ms)|;
  }
}
