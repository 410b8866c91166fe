/**
 * Wall-clock instants as Ruby's `Time` holds them: whole seconds since the
 * epoch plus a sub-second part. Only `to_i` and adding whole seconds are used
 * by the queue.
 */
module Clock {
  type Nanos = n: int | 0 <= n < 1_000_000_000

  datatype Time = Time(seconds: int, nanos: Nanos)
  {
    /** `Time#to_i`: the instant rounded down to whole seconds. */
    function ToI(): int
    {
      seconds
    }

    /** `time + n` for a whole number of seconds `n`. */
    function Plus(n: int): (t: Time)
      ensures t.ToI() == ToI() + n
      ensures t.nanos == nanos
    {
      Time(seconds + n, nanos)
    }
  }

  /** `Time.at(0)`, also what an integer score `i` denotes when given as `At(i)`. */
  function At(i: int): (t: Time)
    ensures t.ToI() == i
  {
    Time(i, 0)
  }
}
