/** The few facts about remainders that the wheel's cursor arithmetic rests on. */
module ModularArithmetic {

  lemma DivModUnique(a: int, n: int, q: int, r: int)
    requires a == q * n + r && 0 <= r < n
    ensures a / n == q && a % n == r
  {
    var d := a / n - q;
    MulBound(d, n);
    assert d * n == r - a % n;
  }

  lemma MulBound(d: int, n: nat)
    ensures d >= 1 ==> d * n >= n
    ensures d <= -1 ==> d * n <= 0 - n
  {
  }

  lemma MulSuccessor(r: int, n: int)
    ensures (r + 1) * n == r * n + n
  {
  }

  /** Circular distances, written without a remainder. */
  lemma Circular(cur: nat, n: nat, s: nat)
    requires cur < n && s < n
    ensures (s - cur) % n == if s >= cur then s - cur else s - cur + n
  {
    if s >= cur {
      DivModUnique(s - cur, n, 0, s - cur);
    } else {
      DivModUnique(s - cur, n, -1, s - cur + n);
    }
  }

  lemma Wrap(x: nat, n: nat)
    requires 0 < n && x < 2 * n
    ensures x % n == if x < n then x else x - n
  {
    if x < n {
      DivModUnique(x, n, 0, x);
    } else {
      DivModUnique(x, n, 1, x - n);
    }
  }

  /** A timer ticks slots ahead of the cursor sits at exactly one slot and rotation. */
  lemma SlotOfDistance(cur: nat, ticks: nat, n: nat, s: nat, r: nat)
    requires cur < n && s < n
    ensures s == (cur + ticks % n) % n && r == ticks / n <==> ticks == r * n + (s - cur) % n
  {
    Wrap(cur + ticks % n, n);
    Circular(cur, n, s);
    if ticks == r * n + (s - cur) % n {
      DivModUnique(ticks, n, r, (s - cur) % n);
    }
  }

  /** Advancing the cursor brings every other slot one closer, and sends the current one a full turn away. */
  lemma CursorAdvances(cur: nat, n: nat, s: nat)
    requires cur < n && s < n
    ensures (cur + 1) % n < n
    ensures (s - (cur + 1) % n) % n == if s == cur then n - 1 else (s - cur) % n - 1
    ensures (cur - cur) % n == 0
    ensures s != cur ==> (s - cur) % n > 0
  {
    Wrap(cur + 1, n);
    Circular(cur, n, s);
    Circular(cur, n, cur);
    Circular((cur + 1) % n, n, s);
  }

  lemma ZeroDistance(cur: nat, n: nat, s: nat, r: nat)
    requires cur < n && s < n && r * n + (s - cur) % n == 0
    ensures s == cur && r == 0
  {
    Circular(cur, n, s);
    MulBound(r, n);
  }

  // ----- positions in a ring of n cells

  lemma ModShift(a: nat, n: nat, k: nat)
    requires 0 < n
    ensures (a % n + k) % n == (a + k) % n
  {
    var b := a % n + k;
    assert a + k == (a / n + b / n) * n + b % n by {
      assert a == (a / n) * n + a % n;
      assert b == (b / n) * n + b % n;
    }
    DivModUnique(a + k, n, a / n + b / n, b % n);
  }

  lemma ModSuccessor(a: nat, n: nat)
    requires 0 < n
    ensures (a % n + 1) % n == (a + 1) % n
  {
    ModShift(a, n, 1);
  }

  /** Numbers less than a full turn apart fall on different cells. */
  lemma ModDiffers(a: nat, b: nat, n: nat)
    requires 0 < n && a < b < a + n
    ensures a % n != b % n
  {
    var d := b / n - a / n;
    MulBound(d, n);
    assert d * n == b - a - (b % n - a % n);
  }
}
