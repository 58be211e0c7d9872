/** The shape of a binary heap in an array: parents, subtrees and heights. */
module HeapShape {

  function Parent(i: nat): nat
    requires i > 0
  {
    (i - 1) / 2
  }

  /** Position i lies in the subtree that hangs from position h. */
  ghost predicate Under(h: nat, i: nat) {
    i == h || (i > h && Under(h, Parent(i)))
  }

  lemma {:induction false} AllUnderRoot(i: nat)
    ensures Under(0, i)
  {
    if i > 0 {
      AllUnderRoot(Parent(i));
    }
  }

  /** The number of steps from position i up to the root. */
  function Depth(i: nat): nat {
    if i == 0 then 0 else 1 + Depth(Parent(i))
  }

  /** Position i lies on the way from top down to bottom. */
  ghost predicate OnPath(top: nat, i: nat, bottom: nat) {
    Under(top, i) && Under(i, bottom)
  }

  /** Positions above one and the same position lie under each other. */
  lemma {:induction false} OneAboveOther(i: nat, j: nat, bottom: nat)
    requires Under(i, bottom) && Under(j, bottom) && i <= j
    ensures Under(i, j)
    decreases bottom
  {
    if j < bottom {
      OneAboveOther(i, j, Parent(bottom));
    }
  }

  lemma {:induction false} ParentAbove(i: nat, bottom: nat)
    requires Under(i, bottom) && i > 0
    ensures Under(Parent(i), bottom)
    decreases bottom
  {
    if i < bottom {
      ParentAbove(i, Parent(bottom));
    } else {
      assert Under(Parent(i), Parent(i));
    }
  }

  /** The way to a child is the way to its parent and the child. */
  lemma PathToChild(top: nat, i: nat, child: nat)
    requires child > top && Under(top, Parent(child))
    ensures OnPath(top, i, child) <==> OnPath(top, i, Parent(child)) || i == child
  {
  }

  /** The way from a parent is the parent and the way from its child. */
  lemma PathFromParent(top: nat, i: nat, bottom: nat)
    requires Under(top, bottom) && top > 0
    ensures OnPath(Parent(top), i, bottom) <==> OnPath(top, i, bottom) || i == Parent(top)
  {
    ParentAbove(top, bottom);
    if OnPath(Parent(top), i, bottom) {
      if i >= top {
        OneAboveOther(top, i, bottom);
      } else {
        OneAboveOther(i, top, bottom);
      }
    }
    if OnPath(top, i, bottom) {
      UnderTransitive(Parent(top), top, i);
    }
  }

  lemma {:induction false} UnderTransitive(h: nat, i: nat, j: nat)
    requires Under(h, i) && Under(i, j)
    ensures Under(h, j)
    decreases j
  {
    if i < j {
      UnderTransitive(h, i, Parent(j));
    }
  }

  // ----- heights; positions are counted from one here, so that the children of p are 2p and 2p + 1

  /** The number of levels below position p (counted from one) in a heap of n elements. */
  function Height(p: nat, n: nat): nat
    requires p > 0
    decreases n - p
  {
    if 2 * p > n then 0 else 1 + Height(2 * p, n)
  }

  function SumOfHeights(lo: nat, n: nat): nat
    decreases n - lo
  {
    if lo >= n then 0 else Height(lo + 1, n) + SumOfHeights(lo + 1, n)
  }

  lemma {:induction false} HeightHalves(p: nat, n: nat)
    requires p > 0
    ensures Height(2 * p, n) == Height(p, n / 2)
    decreases n - p
  {
    if 4 * p <= n {
      HeightHalves(2 * p, n);
    }
  }

  lemma {:induction false} HeightShrinks(p: nat, q: nat, n: nat)
    requires 0 < p <= q
    ensures Height(q, n) <= Height(p, n)
    decreases n - p
  {
    if 2 * q <= n {
      HeightShrinks(2 * p, 2 * q, n);
    }
  }

  function Log2(n: nat): nat
    requires n > 0
  {
    if n == 1 then 0 else 1 + Log2(n / 2)
  }

  function Pow2(k: nat): nat {
    if k == 0 then 1 else 2 * Pow2(k - 1)
  }

  /** Log2 rounds down. */
  lemma {:induction false} Log2Bounds(n: nat)
    requires n > 0
    ensures Pow2(Log2(n)) <= n < Pow2(Log2(n) + 1)
  {
    if n > 1 {
      Log2Bounds(n / 2);
    }
  }

  lemma {:induction false} DepthIsLog2(i: nat)
    ensures Depth(i) == Log2(i + 1)
  {
    if i > 0 {
      DepthIsLog2(Parent(i));
      assert (i + 1) / 2 == Parent(i) + 1;
    }
  }

  lemma {:induction false} RootHeight(n: nat)
    requires n > 0
    ensures Height(1, n) == Log2(n)
  {
    if n > 1 {
      HeightHalves(1, n);
      RootHeight(n / 2);
    }
  }

  /** Leaves have no height, and dropping the last level turns every other position's height down by one. */
  lemma {:induction false} HeightsFromHalf(lo: nat, n: nat)
    requires lo <= n / 2
    ensures SumOfHeights(lo, n) == n / 2 - lo + SumOfHeights(lo, n / 2)
    decreases n / 2 - lo
  {
    if lo == n / 2 {
      LeavesAreFlat(lo, n);
    } else {
      HeightsFromHalf(lo + 1, n);
      HeightHalves(lo + 1, n);
    }
  }

  lemma {:induction false} LeavesAreFlat(lo: nat, n: nat)
    requires lo >= n / 2
    ensures SumOfHeights(lo, n) == 0
    decreases n - lo
  {
    if lo < n {
      LeavesAreFlat(lo + 1, n);
    }
  }

  /** All heights of a heap add up to less than the number of its elements. */
  lemma {:induction false} SumOfHeightsBound(n: nat)
    requires n > 0
    ensures SumOfHeights(0, n) < n
  {
    HeightsFromHalf(0, n);
    if n == 1 {
      LeavesAreFlat(0, 0);
    } else {
      SumOfHeightsBound(n / 2);
    }
  }
}
