/** Binary logarithms of 32-bit numbers. */
module Bits {
  function Pow2(e: nat): (r: nat)
    ensures r >= 1
  {
    if e == 0 then 1 else 2 * Pow2(e - 1)
  }

  /** n >> k. */
  function ShiftRight(n: nat, k: nat): nat {
    if k == 0 then n else ShiftRight(n / 2, k - 1)
  }

  lemma {:induction false} ShiftTwice(n: nat, j: nat, k: nat)
    ensures ShiftRight(ShiftRight(n, j), k) == ShiftRight(n, j + k)
  {
    if j == 0 {
    } else {
      ShiftTwice(n / 2, j - 1, k);
    }
  }

  /** The bits that are left, and when there are none or just the leading one. */
  lemma {:induction false} ShiftBounds(n: nat, k: nat, m: nat)
    ensures ShiftRight(n, k) < Pow2(m) <==> n < Pow2(k + m)
    ensures ShiftRight(n, k) == 0 <==> n < Pow2(k)
    ensures ShiftRight(n, k) == 1 <==> Pow2(k) <= n < Pow2(k + 1)
  {
    if k == 0 {
    } else {
      ShiftBounds(n / 2, k - 1, m);
    }
  }

  /** The integer i such that 2^i <= n < 2^(i+1). */
  method Log2Floor(n: nat) returns (log: int)
    requires n < 0x1_0000_0000
    ensures n == 0 ==> log == -1
    ensures n != 0 ==> 0 <= log <= 31 && Pow2(log) <= n < Pow2(log + 1)
  {
    hide Pow2, ShiftRight;
    if n == 0 {
      return -1;
    }
    log := 0;
    var value := n;
    var i := 4;
    Pow2Values();
    assert value == ShiftRight(n, 0) by { ShiftNone(n); }
    while i >= 0
      invariant -1 <= i <= 4 && 0 <= log && log + Pow2(i + 1) <= 32
      invariant value == ShiftRight(n, log) && 1 <= value < Pow2(Pow2(i + 1))
    {
      var shift := Pow2(i);
      var x := ShiftRight(value, shift);
      Doubled(i);
      ShiftBounds(value, shift, shift);
      ShiftTwice(n, log, shift);
      if x != 0 {
        value := x;
        log := log + shift;
      }
      i := i - 1;
    }
    assert value == 1;
    ShiftBounds(n, log, 0);
  }

  lemma Doubled(i: nat)
    ensures Pow2(i + 1) == Pow2(i) + Pow2(i)
  {
  }

  lemma ShiftNone(n: nat)
    ensures ShiftRight(n, 0) == n
  {
  }

  lemma Pow2Values()
    ensures Pow2(0) == 1 && Pow2(1) == 2 && Pow2(5) == 32 && Pow2(32) == 0x1_0000_0000
  {
    assert Pow2(8) == 256 && Pow2(16) == 0x1_0000 && Pow2(24) == 0x100_0000;
  }

  /** The integer i such that 2^(i-1) < n <= 2^i. */
  method Log2Ceiling(n: nat) returns (log: int)
    requires n < 0x1_0000_0000
    ensures n == 0 ==> log == -1
    ensures n == 1 ==> log == 0
    ensures n > 1 ==> 1 <= log <= 32 && Pow2(log - 1) < n <= Pow2(log)
  {
    if n == 0 {
      return -1;
    }
    log := Log2Floor(n - 1);
    log := 1 + log;
  }

  lemma {:induction false} Pow2Monotone(i: nat, j: nat)
    requires i <= j
    ensures Pow2(i) <= Pow2(j)
  {
    if i < j {
      Pow2Monotone(i, j - 1);
    }
  }

  /** The bounds leave no choice, so the methods compute the two logarithms. */
  lemma LogarithmUnique(n: nat, i: nat, j: nat)
    requires Pow2(i) <= n < Pow2(i + 1) && Pow2(j) <= n < Pow2(j + 1)
    ensures i == j
  {
    if i < j {
      Pow2Monotone(i + 1, j);
    } else if j < i {
      Pow2Monotone(j + 1, i);
    }
  }
}
