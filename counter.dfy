/** The `numColors` setting of the palette component: it starts at 5 and the
    two buttons move it by one, `+` only below 10 and `-` only above 2. */
module ColorCount {

  import opened JsBuiltins

  /** The value after `incrementColors`: a step up that saturates at 10 and
      never lowers the value. */
  function Increment(n: int): (m: int)
    ensures n <= 10 ==> m == Min(n + 1, 10)
    ensures n <= m <= Max(n, 10)
  {
    if n < 10 then n + 1 else n
  }

  /** The value after `decrementColors`: a step down that saturates at 2 and
      never raises the value. */
  function Decrement(n: int): (m: int)
    ensures n >= 2 ==> m == Max(n - 1, 2)
    ensures Min(n, 2) <= m <= n
  {
    if n > 2 then n - 1 else n
  }

  /** Neither button leaves [2, 10] once inside it. */
  lemma StaysInRange(n: int)
    requires 2 <= n <= 10
    ensures 2 <= Increment(n) <= 10 && 2 <= Decrement(n) <= 10
  {
  }

  /** Inside [2, 10], `-` undoes `+` below the maximum, and `+` undoes `-`
      above the minimum. */
  lemma Undo(n: int)
    requires 2 <= n <= 10
    ensures n < 10 ==> Decrement(Increment(n)) == n
    ensures n > 2 ==> Increment(Decrement(n)) == n
  {
  }

  /** Pressing `+` `k` times. */
  function IncrementTimes(n: int, k: nat): int
  {
    if k == 0 then n else Increment(IncrementTimes(n, k - 1))
  }

  /** Pressing `+` any number of times from a value in range saturates at 10. */
  lemma {:induction false} IncrementSaturates(n: int, k: nat)
    requires 2 <= n <= 10
    ensures IncrementTimes(n, k) == if n + k <= 10 then n + k else 10
  {
    if k > 0 {
      IncrementSaturates(n, k - 1);
    }
  }

  /** The component state holding the setting. */
  class Setting {
    var numColors: int

    ghost predicate Valid()
      reads this
    {
      2 <= numColors <= 10
    }

    /** `useState<number>(5)`. */
    constructor ()
      ensures numColors == 5 && Valid()
    {
      numColors := 5;
    }

    /** `incrementColors`. */
    method IncrementColors()
      requires Valid()
      modifies this
      ensures Valid()
      ensures numColors == Increment(old(numColors))
    {
      if numColors < 10 {
        numColors := numColors + 1;
      }
    }

    /** `decrementColors`. */
    method DecrementColors()
      requires Valid()
      modifies this
      ensures Valid()
      ensures numColors == Decrement(old(numColors))
    {
      if numColors > 2 {
        numColors := numColors - 1;
      }
    }
  }
}
