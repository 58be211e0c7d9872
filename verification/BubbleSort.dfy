/** Bubble sort in place, for any comparator: compare(x, y) says that x belongs behind y. */
module BubbleSort {
  type Comparator = (int, int) -> bool

  function AscendingCompare(a: int, b: int): bool {
    a > b
  }

  function DescendingCompare(a: int, b: int): bool {
    a < b
  }

  /** What a sensible comparator satisfies: a strict weak order. Ties between different values are allowed. */
  ghost predicate StrictWeak(compare: Comparator) {
    && (forall x, y :: compare(x, y) ==> !compare(y, x))
    && (forall x, y, z :: compare(x, z) ==> compare(x, y) || compare(y, z))
  }

  lemma Asymmetric(compare: Comparator, x: int, y: int)
    requires StrictWeak(compare) && compare(x, y)
    ensures !compare(y, x)
  {
  }

  lemma NotBehind(compare: Comparator, x: int, y: int, z: int)
    requires StrictWeak(compare) && !compare(x, y) && !compare(y, z)
    ensures !compare(x, z)
  {
  }

  lemma OwnComparatorsAreStrictWeak()
    ensures StrictWeak(AscendingCompare) && StrictWeak(DescendingCompare)
  {
  }

  ghost predicate Sorted(s: seq<int>, compare: Comparator) {
    forall p, q :: 0 <= p < q < |s| ==> !compare(s[p], s[q])
  }

  ghost predicate Ascending(s: seq<int>) {
    forall p, q :: 0 <= p < q < |s| ==> s[p] <= s[q]
  }

  ghost predicate Descending(s: seq<int>) {
    forall p, q :: 0 <= p < q < |s| ==> s[p] >= s[q]
  }

  /** Which way the two comparators sort. */
  lemma OwnDirections(s: seq<int>)
    ensures Sorted(s, AscendingCompare) <==> Ascending(s)
    ensures Sorted(s, DescendingCompare) <==> Descending(s)
  {
  }

  /** How many elements of s belong behind x. */
  function Behind(s: seq<int>, x: int, compare: Comparator): nat {
    if s == [] then 0
    else Behind(s[..|s| - 1], x, compare) + if compare(s[|s| - 1], x) then 1 else 0
  }

  /** The number of pairs that stand in the wrong order. */
  function Inversions(s: seq<int>, compare: Comparator): nat {
    if s == [] then 0
    else Inversions(s[..|s| - 1], compare) + Behind(s[..|s| - 1], s[|s| - 1], compare)
  }

  predicate Tied(x: int, y: int, compare: Comparator) {
    !compare(x, y) && !compare(y, x)
  }

  /** The elements of s that tie with x, in their order. */
  function Ties(s: seq<int>, x: int, compare: Comparator): seq<int> {
    if s == [] then []
    else Ties(s[..|s| - 1], x, compare) + if Tied(s[|s| - 1], x, compare) then [s[|s| - 1]] else []
  }

  /** t is s, with no two tied elements exchanged. */
  ghost predicate Stable(s: seq<int>, t: seq<int>, compare: Comparator) {
    forall x :: Ties(t, x, compare) == Ties(s, x, compare)
  }

  // ----- exchanging two neighbours

  function SwapAt(s: seq<int>, j: nat): (r: seq<int>)
    requires j + 1 < |s|
    ensures |r| == |s|
  {
    s[j := s[j + 1]][j + 1 := s[j]]
  }

  lemma SwapFront(s: seq<int>, j: nat)
    requires j + 1 < |s| - 1
    ensures SwapAt(s, j)[..|s| - 1] == SwapAt(s[..|s| - 1], j)
    ensures SwapAt(s, j)[|s| - 1] == s[|s| - 1]
  {
  }

  lemma SwapBack(s: seq<int>)
    requires |s| >= 2
    ensures var n, r := |s|, SwapAt(s, |s| - 2);
            && s[..n - 1][..n - 2] == s[..n - 2] && r[..n - 1][..n - 2] == s[..n - 2]
            && r[..n - 1][n - 2] == s[n - 1] && r[n - 1] == s[n - 2]
  {
  }

  lemma {:induction false} BehindSwap(s: seq<int>, j: nat, x: int, compare: Comparator)
    requires j + 1 < |s|
    ensures Behind(SwapAt(s, j), x, compare) == Behind(s, x, compare)
  {
    if j + 1 < |s| - 1 {
      SwapFront(s, j);
      BehindSwap(s[..|s| - 1], j, x, compare);
    } else {
      SwapBack(s);
    }
  }

  /** Exchanging two neighbours that stand in the wrong order removes that inversion and no other. */
  lemma {:induction false} InversionsSwap(s: seq<int>, j: nat, compare: Comparator)
    requires j + 1 < |s| && compare(s[j], s[j + 1]) && !compare(s[j + 1], s[j])
    ensures Inversions(SwapAt(s, j), compare) == Inversions(s, compare) - 1
  {
    var n := |s|;
    if j + 1 < n - 1 {
      SwapFront(s, j);
      InversionsSwap(s[..n - 1], j, compare);
      BehindSwap(s[..n - 1], j, s[n - 1], compare);
    } else {
      SwapBack(s);
    }
  }

  /** It does not exchange tied elements either. */
  lemma {:induction false} TiesSwap(s: seq<int>, j: nat, x: int, compare: Comparator)
    requires StrictWeak(compare) && j + 1 < |s| && compare(s[j], s[j + 1])
    ensures Ties(SwapAt(s, j), x, compare) == Ties(s, x, compare)
  {
    var n := |s|;
    if j + 1 < n - 1 {
      SwapFront(s, j);
      TiesSwap(s[..n - 1], j, x, compare);
    } else {
      SwapBack(s);
      assert !(Tied(s[j], x, compare) && Tied(s[j + 1], x, compare));
    }
  }

  lemma {:induction false} SortedHasNoInversions(s: seq<int>, compare: Comparator)
    requires Sorted(s, compare)
    ensures Inversions(s, compare) == 0
  {
    if s != [] {
      SortedHasNoInversions(s[..|s| - 1], compare);
      NoneBehind(s[..|s| - 1], s[|s| - 1], compare);
    }
  }

  lemma {:induction false} NoneBehind(s: seq<int>, x: int, compare: Comparator)
    requires forall i :: 0 <= i < |s| ==> !compare(s[i], x)
    ensures Behind(s, x, compare) == 0
  {
    if s != [] {
      NoneBehind(s[..|s| - 1], x, compare);
    }
  }

  // ----- the loops

  /** The cells from k on hold what they will hold in the end. */
  ghost predicate Settled(s: seq<int>, k: int, compare: Comparator) {
    forall p, q :: 0 <= p < q < |s| && k <= q ==> !compare(s[p], s[q])
  }

  /** No element before position j belongs behind the one at j. */
  ghost predicate Carries(s: seq<int>, j: nat, compare: Comparator) {
    j < |s| && forall p :: 0 <= p < j ==> !compare(s[p], s[j])
  }

  /** s came about from was by exchanging neighbours, swaps times. */
  ghost predicate Bubbled(was: seq<int>, s: seq<int>, swaps: nat, compare: Comparator) {
    && multiset(s) == multiset(was)
    && (StrictWeak(compare) ==>
          && Inversions(s, compare) + swaps == Inversions(was, compare)
          && Stable(was, s, compare))
  }

  lemma BubbleSwap(was: seq<int>, s: seq<int>, swaps: nat, j: nat, compare: Comparator)
    requires Bubbled(was, s, swaps, compare) && j + 1 < |s| && compare(s[j], s[j + 1])
    ensures Bubbled(was, SwapAt(s, j), swaps + 1, compare)
  {
    if StrictWeak(compare) {
      Asymmetric(compare, s[j], s[j + 1]);
      InversionsSwap(s, j, compare);
      forall x ensures Ties(SwapAt(s, j), x, compare) == Ties(was, x, compare) {
        TiesSwap(s, j, x, compare);
      }
    }
  }

  lemma CarryOn(s: seq<int>, j: nat, k: int, compare: Comparator)
    requires StrictWeak(compare) && j + 1 < |s| && j + 1 < k
    requires Carries(s, j, compare) && Settled(s, k, compare)
    ensures var r := if compare(s[j], s[j + 1]) then SwapAt(s, j) else s;
            Carries(r, j + 1, compare) && Settled(r, k, compare)
  {
    if compare(s[j], s[j + 1]) {
      Asymmetric(compare, s[j], s[j + 1]);
    } else {
      forall p | 0 <= p < j ensures !compare(s[p], s[j + 1]) {
        NotBehind(compare, s[p], s[j], s[j + 1]);
      }
    }
  }

  method Swap(arr: array<int>, i: nat, j: nat)
    requires i < arr.Length && j < arr.Length
    modifies arr
    ensures arr[..] == old(arr[..])[i := old(arr[j])][j := old(arr[i])]
  {
    var temp := arr[i];
    arr[i] := arr[j];
    arr[j] := temp;
  }

  /** Sorts the first n elements. Whatever the comparator, they are permuted and no others are touched; if it is
      a strict weak order, the result is sorted and stable, and takes one swap for each inversion. */
  method BubbleSort(arr: array<int>, n: int, compare: Comparator) returns (ghost swaps: nat)
    requires n <= arr.Length
    modifies arr
    ensures var m := if n < 0 then 0 else n;
            var was, now := old(arr[..m]), arr[..m];
            && arr[m..] == old(arr[m..])
            && multiset(now) == multiset(was)
            && (StrictWeak(compare) ==>
                  && Sorted(now, compare)
                  && Stable(was, now, compare)
                  && swaps == Inversions(was, compare))
  {
    swaps := 0;
    ghost var m: nat := if n < 0 then 0 else n;
    ghost var was, tail := arr[..m], arr[m..];
    var i := 0;
    while i < n - 1
      invariant 0 <= i && (i <= n - 1 || i == 0)
      invariant arr[m..] == tail && Bubbled(was, arr[..m], swaps, compare)
      invariant StrictWeak(compare) ==> Settled(arr[..m], n - i, compare)
    {
      swaps := Pass(arr, m, n - i - 1, was, tail, swaps, compare);
      i := i + 1;
    }
    if StrictWeak(compare) {
      assert Sorted(arr[..m], compare);
      SortedHasNoInversions(arr[..m], compare);
    }
  }

  method SortAscending(arr: array<int>, n: int)
    requires n <= arr.Length
    modifies arr
    ensures var m := if n < 0 then 0 else n;
            arr[m..] == old(arr[m..]) && multiset(arr[..m]) == multiset(old(arr[..m])) && Ascending(arr[..m])
  {
    OwnComparatorsAreStrictWeak();
    ghost var swaps := BubbleSort(arr, n, AscendingCompare);
    OwnDirections(arr[..if n < 0 then 0 else n]);
  }

  method SortDescending(arr: array<int>, n: int)
    requires n <= arr.Length
    modifies arr
    ensures var m := if n < 0 then 0 else n;
            arr[m..] == old(arr[m..]) && multiset(arr[..m]) == multiset(old(arr[..m])) && Descending(arr[..m])
  {
    OwnComparatorsAreStrictWeak();
    ghost var swaps := BubbleSort(arr, n, DescendingCompare);
    OwnDirections(arr[..if n < 0 then 0 else n]);
  }

  /** The inner loop: carries the last of the first last + 1 elements to its place. */
  method Pass(arr: array<int>, ghost n: nat, last: nat, ghost was: seq<int>, ghost tail: seq<int>,
              ghost before: nat, compare: Comparator)
    returns (ghost swaps: nat)
    requires last < n <= arr.Length
    requires arr[n..] == tail && Bubbled(was, arr[..n], before, compare)
    requires StrictWeak(compare) ==> Settled(arr[..n], last + 1, compare)
    modifies arr
    ensures arr[n..] == tail && Bubbled(was, arr[..n], swaps, compare)
    ensures StrictWeak(compare) ==> Settled(arr[..n], last, compare)
  {
    swaps := before;
    var j := 0;
    while j < last
      invariant j <= last
      invariant arr[n..] == tail && Bubbled(was, arr[..n], swaps, compare)
      invariant StrictWeak(compare) ==> Carries(arr[..n], j, compare) && Settled(arr[..n], last + 1, compare)
    {
      ghost var s := arr[..n];
      if StrictWeak(compare) {
        CarryOn(s, j, last + 1, compare);
      }
      if compare(arr[j], arr[j + 1]) {
        BubbleSwap(was, s, swaps, j, compare);
        Swap(arr, j, j + 1);
        assert arr[..n] == SwapAt(s, j);
        swaps := swaps + 1;
      }
      j := j + 1;
    }
  }

  // ----- what that means

  /** There is only one stable way to sort: the method's result is determined by its contract. */
  lemma {:induction false} StableSortIsUnique(s: seq<int>, t: seq<int>, compare: Comparator)
    requires StrictWeak(compare) && Sorted(s, compare) && Sorted(t, compare) && Stable(s, t, compare)
    ensures s == t
    decreases |s|
  {
    if s == [] {
      if t != [] {
        assert Ties(t, t[|t| - 1], compare) != [];
      }
    } else {
      LastAgrees(s, t, compare);
      var m, n := |s| - 1, |t| - 1;
      forall x ensures Ties(t[..n], x, compare) == Ties(s[..m], x, compare) {
        TiesFront(s, x, compare);
        TiesFront(t, x, compare);
        assert Ties(t, x, compare) == Ties(s, x, compare);
      }
      StableSortIsUnique(s[..m], t[..n], compare);
      assert s == s[..m] + [s[m]] && t == t[..n] + [t[n]];
    }
  }

  lemma TiesFront(s: seq<int>, x: int, compare: Comparator)
    requires s != []
    ensures var ties, last := Ties(s, x, compare), s[|s| - 1];
            Tied(last, x, compare) ==> |ties| > 0
    ensures var ties, last := Ties(s, x, compare), s[|s| - 1];
            Ties(s[..|s| - 1], x, compare) == if Tied(last, x, compare) then ties[..|ties| - 1] else ties
  {
  }

  lemma LastAgrees(s: seq<int>, t: seq<int>, compare: Comparator)
    requires StrictWeak(compare) && Sorted(s, compare) && Sorted(t, compare) && Stable(s, t, compare) && s != []
    ensures t != [] && t[|t| - 1] == s[|s| - 1]
  {
    var x := s[|s| - 1];
    assert Ties(s, x, compare) == Ties(t, x, compare);
    assert Ties(s, x, compare)[|Ties(s, x, compare)| - 1] == x;
    TiesMember(t, x, x, compare);
    var y := t[|t| - 1];
    TiesMember(s, y, y, compare);
    assert Ties(t, y, compare) == Ties(s, y, compare);
    assert Ties(t, y, compare)[|Ties(t, y, compare)| - 1] == y;
    assert Tied(x, y, compare);
  }

  lemma {:induction false} TiesMember(s: seq<int>, x: int, y: int, compare: Comparator)
    ensures y in Ties(s, x, compare) <==> y in s && Tied(y, x, compare)
  {
    if s != [] {
      TiesMember(s[..|s| - 1], x, y, compare);
      assert s == s[..|s| - 1] + [s[|s| - 1]];
    }
  }
}
