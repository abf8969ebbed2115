/** Timestamps of the game: 64-bit signed nanosecond counts (Kotlin `Long`),
    whose subtraction wraps around in two's complement. */
module Clock {

  const LONG_MIN: int := -0x8000_0000_0000_0000
  const LONG_MAX: int := 0x7fff_ffff_ffff_ffff
  const LONG_MODULUS: int := 0x1_0000_0000_0000_0000

  newtype Long = x: int | LONG_MIN <= x <= LONG_MAX

  /** One second in nanoseconds: the spawn interval of the game screen. */
  const SPAWN_INTERVAL: int := 1_000_000_000

  /** Reduction of a mathematical integer to the 64-bit value with the same
      residue modulo 2^64, as the JVM's `long` arithmetic does. */
  function Wrap(x: int): (r: Long)
    ensures (r as int - x) % LONG_MODULUS == 0
    ensures LONG_MIN <= x <= LONG_MAX ==> r as int == x
  {
    var m := (x - LONG_MIN) % LONG_MODULUS;
    assert x - LONG_MIN == LONG_MODULUS * ((x - LONG_MIN) / LONG_MODULUS) + m;
    (m + LONG_MIN) as Long
  }

  /** `a - b` on Kotlin `Long`. */
  function Sub(a: Long, b: Long): (d: Long)
  {
    Wrap(a as int - b as int)
  }

  /** `a + b` on Kotlin `Long`. */
  function Add(a: Long, b: Long): (s: Long)
  {
    Wrap(a as int + b as int)
  }

  /** A 64-bit value is determined by its residue modulo 2^64. */
  lemma WrapUnique(x: int, r: Long)
    requires (r as int - x) % LONG_MODULUS == 0
    ensures Wrap(x) == r
  {
    var w := Wrap(x);
    var d := w as int - r as int;
    assert (w as int - x) % LONG_MODULUS == 0;
    var q1 := (w as int - x) / LONG_MODULUS;
    var q2 := (r as int - x) / LONG_MODULUS;
    assert w as int - x == LONG_MODULUS * q1;
    assert r as int - x == LONG_MODULUS * q2;
    assert d == LONG_MODULUS * (q1 - q2);
    assert -LONG_MODULUS < d < LONG_MODULUS;
  }

  /** The difference of two clock readings is the true elapsed time even when
      the counter wrapped in between, as long as less than 2^63 ns passed:
      reading `t0`, letting `e` nanoseconds pass and reading again, then
      subtracting, gives back `e`. */
  lemma ElapsedSurvivesWrap(t0: Long, e: int)
    requires 0 <= e <= LONG_MAX
    ensures Sub(Add(t0, e as Long), t0) as int == e
  {
    var t1 := Add(t0, e as Long);
    var q := (t1 as int - (t0 as int + e)) / LONG_MODULUS;
    assert t1 as int - (t0 as int + e) == LONG_MODULUS * q;
    assert ((e as Long) as int - (t1 as int - t0 as int)) == -LONG_MODULUS * q;
    assert ((e as Long) as int - (t1 as int - t0 as int)) % LONG_MODULUS == 0;
    WrapUnique(t1 as int - t0 as int, e as Long);
  }

  /** The spawn condition of the game screen: strictly more than one second
      has passed since the last spawn, measured with `Long` subtraction. */
  predicate SpawnDue(lastDropTime: Long, now: Long)
  {
    Sub(now, lastDropTime) as int > SPAWN_INTERVAL
  }

  /** Whatever the clock values, a spawn is due exactly when the true elapsed
      time (below 2^63 ns) exceeds one second. */
  lemma SpawnDueIffElapsed(lastDropTime: Long, e: int)
    requires 0 <= e <= LONG_MAX
    ensures SpawnDue(lastDropTime, Add(lastDropTime, e as Long)) <==> e > SPAWN_INTERVAL
  {
    ElapsedSurvivesWrap(lastDropTime, e);
  }
}
