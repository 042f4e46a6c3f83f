/**
 * The quicksort of libs/libufdt/sysdeps/libufdt_sysdeps_vendor.c: three-way partition around a median, equal keys
 * parked at both ends and swapped to the middle, insertion sort for short or unswapped runs, iteration on the right
 * part.
 */
module Qsort {

  // ----- Order -----

  /** The comparator is a total preorder. */
  ghost predicate Preorder<T(!new)>(cmp: (T, T) -> int) {
    && (forall x, y :: cmp(x, y) < 0 <==> cmp(y, x) > 0)
    && (forall x, y, z :: cmp(x, y) <= 0 && cmp(y, z) <= 0 ==> cmp(x, z) <= 0)
  }

  ghost predicate Sorted<T>(s: seq<T>, lo: int, hi: int, cmp: (T, T) -> int)
    requires 0 <= lo <= hi <= |s|
  {
    forall i, j :: lo <= i < j < hi ==> cmp(s[i], s[j]) <= 0
  }

  /** Every element of s[lo..mid] is at most every element of s[mid..hi]. */
  ghost predicate Below<T>(s: seq<T>, lo: int, mid: int, hi: int, cmp: (T, T) -> int)
    requires 0 <= lo <= mid <= hi <= |s|
  {
    forall i, j :: lo <= i < mid <= j < hi ==> cmp(s[i], s[j]) <= 0
  }

  // ----- Permutation -----

  /** t is s with the elements of s[lo..hi] in some order. */
  ghost predicate Shuffled<T>(s: seq<T>, t: seq<T>, lo: int, hi: int) {
    && 0 <= lo <= hi <= |s| == |t|
    && s[..lo] == t[..lo] && s[hi..] == t[hi..] && multiset(s[lo..hi]) == multiset(t[lo..hi])
  }

  lemma ShuffledTrans<T>(s: seq<T>, t: seq<T>, u: seq<T>, lo: int, hi: int)
    requires Shuffled(s, t, lo, hi) && Shuffled(t, u, lo, hi)
    ensures Shuffled(s, u, lo, hi)
  {
  }

  lemma ShuffledWiden<T>(s: seq<T>, t: seq<T>, lo: int, hi: int, l: int, h: int)
    requires Shuffled(s, t, lo, hi) && 0 <= l <= lo && hi <= h <= |s|
    ensures Shuffled(s, t, l, h)
  {
    assert s[..l] == s[..lo][..l] && t[..l] == t[..lo][..l];
    assert s[h..] == s[hi..][h - hi..] && t[h..] == t[hi..][h - hi..];
    assert s[l..h] == s[..lo][l..] + s[lo..hi] + s[hi..][..h - hi];
    assert t[l..h] == t[..lo][l..] + t[lo..hi] + t[hi..][..h - hi];
  }

  lemma ShuffledOutside<T>(s: seq<T>, t: seq<T>, lo: int, hi: int, k: int)
    requires Shuffled(s, t, lo, hi) && (0 <= k < lo || hi <= k < |s|)
    ensures t[k] == s[k]
  {
    if k < lo {
      assert t[k] == t[..lo][k] && s[k] == s[..lo][k];
    } else {
      assert t[k] == t[hi..][k - hi] && s[k] == s[hi..][k - hi];
    }
  }

  /** Where the element that is now at k came from. */
  lemma ShuffledFrom<T>(s: seq<T>, t: seq<T>, lo: int, hi: int, k: int) returns (j: int)
    requires Shuffled(s, t, lo, hi) && lo <= k < hi
    ensures lo <= j < hi && t[k] == s[j]
  {
    assert t[k] == t[lo..hi][k - lo];
    assert t[k] in multiset(t[lo..hi]);
    assert t[k] in s[lo..hi];
    var i :| 0 <= i < |s[lo..hi]| && s[lo..hi][i] == t[k];
    j := lo + i;
  }

  function Swapped<T>(s: seq<T>, i: int, j: int): seq<T>
    requires 0 <= i < |s| && 0 <= j < |s|
  {
    s[i := s[j]][j := s[i]]
  }

  lemma SwappedShuffles<T>(s: seq<T>, i: int, j: int, lo: int, hi: int)
    requires 0 <= lo <= i < hi <= |s| && lo <= j < hi
    ensures Shuffled(s, Swapped(s, i, j), lo, hi)
  {
    var u := s[lo..hi];
    var t := Swapped(s, i, j);
    assert t[lo..hi] == u[i - lo := u[j - lo]][j - lo := u[i - lo]];
    assert t[..lo] == s[..lo] && t[hi..] == s[hi..];
  }

  method Swap<T>(a: array<T>, i: nat, j: nat)
    requires i < a.Length && j < a.Length
    modifies a
    ensures a[..] == Swapped(old(a[..]), i, j)
  {
    a[i], a[j] := a[j], a[i];
  }

  // ----- Median of three -----

  predicate Between<T>(x: T, m: T, y: T, cmp: (T, T) -> int) {
    (cmp(x, m) <= 0 && cmp(m, y) <= 0) || (cmp(y, m) <= 0 && cmp(m, x) <= 0)
  }

  method Med3<T(!new)>(a: array<T>, i: nat, j: nat, k: nat, cmp: (T, T) -> int) returns (m: nat)
    requires i < a.Length && j < a.Length && k < a.Length && Preorder(cmp)
    ensures (m == i && Between(a[j], a[i], a[k], cmp)) || (m == j && Between(a[i], a[j], a[k], cmp))
            || (m == k && Between(a[i], a[k], a[j], cmp))
  {
    if cmp(a[i], a[j]) < 0 {
      m := if cmp(a[j], a[k]) < 0 then j else if cmp(a[i], a[k]) < 0 then k else i;
    } else {
      m := if cmp(a[j], a[k]) > 0 then j else if cmp(a[i], a[k]) < 0 then i else k;
    }
  }

  /** The index of the pivot: the middle, or the median of three elements, or of three such medians. */
  method ChoosePivot<T(!new)>(a: array<T>, lo: nat, n: nat, cmp: (T, T) -> int) returns (pm: nat)
    requires 7 <= n && lo + n <= a.Length && Preorder(cmp)
    ensures lo <= pm < lo + n
  {
    pm := lo + n / 2;
    if n > 7 {
      var pl, pn := lo, lo + n - 1;
      if n > 40 {
        var d := n / 8;
        pl := Med3(a, pl, pl + d, pl + 2 * d, cmp);
        pm := Med3(a, pm - d, pm, pm + d, cmp);
        pn := Med3(a, pn - 2 * d, pn - d, pn, cmp);
      }
      pm := Med3(a, pl, pm, pn, cmp);
    }
  }

  // ----- Insertion sort -----

  /** s[lo..pm + 1] is sorted but for the element at pl, which is less than all after it. */
  ghost predicate Inserting<T>(s: seq<T>, lo: int, pl: int, pm: int, cmp: (T, T) -> int)
    requires 0 <= lo <= pl <= pm < |s|
  {
    forall i, j :: lo <= i < j <= pm && j != pl ==> cmp(s[i], s[j]) <= 0
  }

  lemma InsertStep<T(!new)>(s: seq<T>, lo: int, pl: int, pm: int, cmp: (T, T) -> int)
    requires 0 <= lo < pl <= pm < |s| && Preorder(cmp) && Inserting(s, lo, pl, pm, cmp) && cmp(s[pl - 1], s[pl]) > 0
    ensures Inserting(Swapped(s, pl, pl - 1), lo, pl - 1, pm, cmp)
  {
    var t := Swapped(s, pl, pl - 1);
    forall i, j | lo <= i < j <= pm && j != pl - 1
      ensures cmp(t[i], t[j]) <= 0
    {
      var k := if i == pl then pl - 1 else if i == pl - 1 then pl else i;
      assert t[i] == s[k];
      if j == pl {
        assert t[j] == s[pl - 1];
      } else {
        assert t[j] == s[j];
      }
    }
  }

  lemma InsertStart<T>(s: seq<T>, lo: int, pm: int, cmp: (T, T) -> int)
    requires 0 <= lo <= pm < |s| && Sorted(s, lo, pm, cmp)
    ensures Inserting(s, lo, pm, pm, cmp)
  {
  }

  lemma InsertEnd<T(!new)>(s: seq<T>, lo: int, pl: int, pm: int, cmp: (T, T) -> int)
    requires 0 <= lo <= pl <= pm < |s| && Preorder(cmp) && Inserting(s, lo, pl, pm, cmp)
             && (pl == lo || cmp(s[pl - 1], s[pl]) <= 0)
    ensures Sorted(s, lo, pm + 1, cmp)
  {
    forall i, j | lo <= i < j < pm + 1
      ensures cmp(s[i], s[j]) <= 0
    {
      if j == pl && i != pl - 1 {
        assert cmp(s[i], s[pl - 1]) <= 0;
      }
    }
  }

  /** The inner loop of the insertion sort: a[pm] moves down to its place. */
  method Insert<T(!new)>(a: array<T>, lo: nat, pm: nat, ghost hi: nat, cmp: (T, T) -> int)
    requires lo <= pm < hi <= a.Length && Preorder(cmp) && Sorted(a[..], lo, pm, cmp)
    modifies a
    ensures Sorted(a[..], lo, pm + 1, cmp) && Shuffled(old(a[..]), a[..], lo, hi)
  {
    hide Shuffled, Swapped, Sorted, Inserting, Preorder;
    ghost var s := a[..];
    ShuffledSelf(s, lo, hi);
    InsertStart(s, lo, pm, cmp);
    var pl := pm;
    while pl > lo && cmp(a[pl - 1], a[pl]) > 0
      invariant lo <= pl <= pm
      invariant Inserting(a[..], lo, pl, pm, cmp) && Shuffled(s, a[..], lo, hi)
    {
      ghost var t := a[..];
      InsertStep(t, lo, pl, pm, cmp);
      SwappedShuffles(t, pl, pl - 1, lo, hi);
      Swap(a, pl, pl - 1);
      ShuffledTrans(s, t, a[..], lo, hi);
      pl := pl - 1;
    }
    InsertEnd(a[..], lo, pl, pm, cmp);
  }

  method InsertionSort<T(!new)>(a: array<T>, lo: nat, n: nat, cmp: (T, T) -> int)
    requires lo + n <= a.Length && Preorder(cmp)
    modifies a
    ensures Sorted(a[..], lo, lo + n, cmp) && Shuffled(old(a[..]), a[..], lo, lo + n)
  {
    hide Shuffled, Sorted, Preorder;
    ghost var s := a[..];
    ShuffledSelf(s, lo, lo + n);
    SortedShort(s, lo, cmp);
    var pm := lo + 1;
    while pm < lo + n
      invariant lo < pm && (pm <= lo + n || n == 0)
      invariant if n > 0 then Sorted(a[..], lo, pm, cmp) else a[..] == s
      invariant Shuffled(s, a[..], lo, lo + n)
    {
      ghost var t := a[..];
      Insert(a, lo, pm, lo + n, cmp);
      ShuffledTrans(s, t, a[..], lo, lo + n);
      pm := pm + 1;
    }
  }

  lemma SortedShort<T>(s: seq<T>, lo: int, cmp: (T, T) -> int)
    requires 0 <= lo <= |s|
    ensures Sorted(s, lo, lo, cmp) && (lo < |s| ==> Sorted(s, lo, lo + 1, cmp))
  {
  }

  lemma ShuffledSelf<T>(s: seq<T>, lo: int, hi: int)
    requires 0 <= lo <= hi <= |s|
    ensures Shuffled(s, s, lo, hi)
  {
  }

  lemma SwappedIs<T>(s: seq<T>, t: seq<T>, i: int, j: int)
    requires 0 <= i < |s| && 0 <= j < |s| && t == Swapped(s, i, j)
    ensures |t| == |s| && t[i] == s[j] && t[j] == s[i] && forall k | 0 <= k < |s| && k != i && k != j :: t[k] == s[k]
  {
  }

  // ----- Partition -----

  /** Every element of s[i..j] compares with v as the sign says. */
  ghost predicate All<T>(s: seq<T>, i: int, j: int, v: T, sign: int, cmp: (T, T) -> int)
    requires 0 <= i && j <= |s|
  {
    forall k :: i <= k < j ==> (if sign < 0 then cmp(s[k], v) < 0 else if sign == 0 then cmp(s[k], v) == 0
      else cmp(s[k], v) > 0)
  }

  /**
   * Four regions around what has not been compared yet, s[pb..pc + 1]: equal, less, greater and equal to the pivot v.
   */
  ghost predicate Regions<T>(s: seq<T>, lo: int, pa: int, pb: int, pc: int, pd: int, hi: int, v: T,
      cmp: (T, T) -> int) {
    && 0 <= lo < pa <= pb <= pc + 1 <= pd + 1 <= hi <= |s| && s[lo] == v
    && All(s, lo, pa, v, 0, cmp) && All(s, pa, pb, v, -1, cmp) && All(s, pc + 1, pd + 1, v, 1, cmp)
       && All(s, pd + 1, hi, v, 0, cmp)
  }

  lemma RegionsStart<T(!new)>(s: seq<T>, lo: int, hi: int, cmp: (T, T) -> int)
    requires 0 <= lo < hi - 1 && hi <= |s| && Preorder(cmp)
    ensures Regions(s, lo, lo + 1, lo + 1, hi - 1, hi - 1, hi, s[lo], cmp)
  {
  }

  lemma EqualLeft<T>(s: seq<T>, lo: int, pa: int, pb: int, pc: int, pd: int, hi: int, v: T, cmp: (T, T) -> int)
    requires Regions(s, lo, pa, pb, pc, pd, hi, v, cmp) && pb <= pc && cmp(s[pb], v) == 0
    ensures Regions(Swapped(s, pa, pb), lo, pa + 1, pb + 1, pc, pd, hi, v, cmp)
  {
  }

  lemma EqualRight<T>(s: seq<T>, lo: int, pa: int, pb: int, pc: int, pd: int, hi: int, v: T, cmp: (T, T) -> int)
    requires Regions(s, lo, pa, pb, pc, pd, hi, v, cmp) && pb <= pc && cmp(s[pc], v) == 0
    ensures Regions(Swapped(s, pc, pd), lo, pa, pb, pc - 1, pd - 1, hi, v, cmp)
  {
  }

  lemma Exchange<T>(s: seq<T>, lo: int, pa: int, pb: int, pc: int, pd: int, hi: int, v: T, cmp: (T, T) -> int)
    requires Regions(s, lo, pa, pb, pc, pd, hi, v, cmp) && pb < pc && cmp(s[pb], v) > 0 && cmp(s[pc], v) < 0
    ensures Regions(Swapped(s, pb, pc), lo, pa, pb + 1, pc - 1, pd, hi, v, cmp)
  {
  }

  lemma Extend<T>(s: seq<T>, lo: int, pa: int, pb: int, pc: int, pd: int, hi: int, v: T, cmp: (T, T) -> int)
    requires Regions(s, lo, pa, pb, pc, pd, hi, v, cmp) && pb <= pc
    ensures cmp(s[pb], v) < 0 ==> Regions(s, lo, pa, pb + 1, pc, pd, hi, v, cmp)
    ensures cmp(s[pc], v) > 0 ==> Regions(s, lo, pa, pb, pc - 1, pd, hi, v, cmp)
  {
  }

  lemma RegionsBound<T>(s: seq<T>, lo: int, pa: int, pb: int, pc: int, pd: int, hi: int, v: T, cmp: (T, T) -> int)
    requires Regions(s, lo, pa, pb, pc, pd, hi, v, cmp)
    ensures 0 <= lo < pa <= pb <= pc + 1 <= pd + 1 <= hi <= |s| && s[lo] == v
  {
  }

  /** The loop that moves pb up past what is not greater than the pivot a[lo]. */
  method ScanUp<T(!new)>(a: array<T>, lo: nat, pa0: nat, pb0: nat, pc: int, pd: int, hi: nat, cmp: (T, T) -> int)
    returns (pa: nat, pb: nat, swapped: bool)
    requires hi <= a.Length && 0 <= lo < a.Length && Regions(a[..], lo, pa0, pb0, pc, pd, hi, a[lo], cmp)
    modifies a
    ensures Regions(a[..], lo, pa, pb, pc, pd, hi, old(a[lo]), cmp) && a[lo] == old(a[lo])
    ensures Shuffled(old(a[..]), a[..], lo, hi) && pb0 <= pb && (pb <= pc ==> cmp(a[pb], a[lo]) > 0)
  {
    hide Regions, Shuffled, Swapped;
    ghost var s, v := a[..], a[lo];
    pa, pb, swapped := pa0, pb0, false;
    RegionsBound(s, lo, pa, pb, pc, pd, hi, v, cmp);
    ShuffledSelf(s, lo, hi);
    while pb <= pc && cmp(a[pb], a[lo]) <= 0
      invariant pb0 <= pb <= pc + 1 <= hi && lo < pa && a[lo] == v
      invariant Regions(a[..], lo, pa, pb, pc, pd, hi, v, cmp) && Shuffled(s, a[..], lo, hi)
    {
      ghost var t := a[..];
      RegionsBound(t, lo, pa, pb, pc, pd, hi, v, cmp);
      if cmp(a[pb], a[lo]) == 0 {
        swapped := true;
        EqualLeft(t, lo, pa, pb, pc, pd, hi, v, cmp);
        SwappedShuffles(t, pa, pb, lo, hi);
        Swap(a, pa, pb);
        ShuffledTrans(s, t, a[..], lo, hi);
        pa := pa + 1;
      } else {
        Extend(t, lo, pa, pb, pc, pd, hi, v, cmp);
      }
      pb := pb + 1;
      RegionsBound(a[..], lo, pa, pb, pc, pd, hi, v, cmp);
    }
  }

  /** The loop that moves pc down past what is not less than the pivot a[lo]. */
  method ScanDown<T(!new)>(a: array<T>, lo: nat, pa: nat, pb: nat, pc0: int, pd0: int, hi: nat, cmp: (T, T) -> int)
    returns (pc: int, pd: int, swapped: bool)
    requires hi <= a.Length && 0 <= lo < a.Length && Regions(a[..], lo, pa, pb, pc0, pd0, hi, a[lo], cmp)
    requires pb <= pc0 ==> cmp(a[pb], a[lo]) > 0
    modifies a
    ensures Regions(a[..], lo, pa, pb, pc, pd, hi, old(a[lo]), cmp) && a[lo] == old(a[lo])
    ensures Shuffled(old(a[..]), a[..], lo, hi) && pc <= pc0
            && (pb <= pc ==> pb < pc && cmp(a[pb], a[lo]) > 0 && cmp(a[pc], a[lo]) < 0)
  {
    hide Regions, Shuffled, Swapped;
    ghost var s, v := a[..], a[lo];
    pc, pd, swapped := pc0, pd0, false;
    RegionsBound(s, lo, pa, pb, pc, pd, hi, v, cmp);
    ShuffledSelf(s, lo, hi);
    while pb <= pc && cmp(a[pc], a[lo]) >= 0
      invariant pb - 1 <= pc <= pc0 && pc <= pd < hi && a[lo] == v
      invariant pb <= pc ==> cmp(a[pb], v) > 0
      invariant Regions(a[..], lo, pa, pb, pc, pd, hi, v, cmp) && Shuffled(s, a[..], lo, hi)
    {
      ghost var t := a[..];
      RegionsBound(t, lo, pa, pb, pc, pd, hi, v, cmp);
      if cmp(a[pc], a[lo]) == 0 {
        swapped := true;
        EqualRight(t, lo, pa, pb, pc, pd, hi, v, cmp);
        SwappedShuffles(t, pc, pd, lo, hi);
        SwappedIs(t, Swapped(t, pc, pd), pc, pd);
        Swap(a, pc, pd);
        ShuffledTrans(s, t, a[..], lo, hi);
        pd := pd - 1;
      } else {
        Extend(t, lo, pa, pb, pc, pd, hi, v, cmp);
      }
      pc := pc - 1;
      RegionsBound(a[..], lo, pa, pb, pc, pd, hi, v, cmp);
    }
  }

  /** The main loop; swapped says whether it has moved anything. */
  method Partition<T(!new)>(a: array<T>, lo: nat, n: nat, cmp: (T, T) -> int)
    returns (pa: nat, pb: nat, pc: int, pd: int, swapped: bool)
    requires 2 <= n && lo + n <= a.Length && Preorder(cmp)
    modifies a
    ensures Regions(a[..], lo, pa, pb, pc, pd, lo + n, old(a[lo]), cmp) && pb == pc + 1
    ensures Shuffled(old(a[..]), a[..], lo, lo + n)
  {
    hide Regions, Shuffled, Swapped, Preorder;
    ghost var s, v, hi := a[..], a[lo], lo + n;
    RegionsStart(s, lo, hi, cmp);
    ShuffledSelf(s, lo, hi);
    pa, pb, pc, pd, swapped := lo + 1, lo + 1, lo + n - 1, lo + n - 1, false;
    while true
      invariant pb <= pc + 1 && a[lo] == v
      invariant Regions(a[..], lo, pa, pb, pc, pd, hi, v, cmp) && Shuffled(s, a[..], lo, hi)
      decreases pc - pb
    {
      ghost var t := a[..];
      var moved: bool;
      pa, pb, moved := ScanUp(a, lo, pa, pb, pc, pd, lo + n, cmp);
      swapped := swapped || moved;
      ShuffledTrans(s, t, a[..], lo, hi);
      t := a[..];
      pc, pd, moved := ScanDown(a, lo, pa, pb, pc, pd, lo + n, cmp);
      swapped := swapped || moved;
      ShuffledTrans(s, t, a[..], lo, hi);
      t := a[..];
      RegionsBound(t, lo, pa, pb, pc, pd, hi, v, cmp);
      if pb > pc {
        break;
      }
      Exchange(t, lo, pa, pb, pc, pd, hi, v, cmp);
      SwappedShuffles(t, pb, pc, lo, hi);
      Swap(a, pb, pc);
      ShuffledTrans(s, t, a[..], lo, hi);
      swapped := true;
      pb := pb + 1;
      pc := pc - 1;
      RegionsBound(a[..], lo, pa, pb, pc, pd, hi, v, cmp);
    }
  }

  // ----- Moving the equal elements to the middle -----

  /** The r elements at i and the r elements at j change places. */
  ghost predicate BlocksSwapped<T>(s: seq<T>, t: seq<T>, i: int, j: int, r: int) {
    && 0 <= i && 0 <= r && i + r <= j && j + r <= |s| == |t|
    && (forall k :: i <= k < i + r ==> t[k] == s[k - i + j])
    && (forall k :: j <= k < j + r ==> t[k] == s[k - j + i])
    && (forall k :: 0 <= k < |s| && !(i <= k < i + r) && !(j <= k < j + r) ==> t[k] == s[k])
  }

  lemma OneMore<T>(s: seq<T>, t: seq<T>, i: int, j: int, c: int, r: int)
    requires BlocksSwapped(s, t, i, j, c) && c < r && i + r <= j && j + r <= |s|
    ensures BlocksSwapped(s, Swapped(t, i + c, j + c), i, j, c + 1)
  {
    SwappedIs(t, Swapped(t, i + c, j + c), i + c, j + c);
  }

  lemma NoneSwapped<T>(s: seq<T>, i: int, j: int)
    requires 0 <= i <= j <= |s|
    ensures BlocksSwapped(s, s, i, j, 0)
  {
  }

  method VecSwap<T>(a: array<T>, i: nat, j: nat, r: nat, ghost lo: nat, ghost hi: nat)
    requires lo <= i && i + r <= j && j + r <= hi <= a.Length
    modifies a
    ensures BlocksSwapped(old(a[..]), a[..], i, j, r) && Shuffled(old(a[..]), a[..], lo, hi)
  {
    hide Shuffled, Swapped, BlocksSwapped;
    ghost var s := a[..];
    ShuffledSelf(s, lo, hi);
    NoneSwapped(s, i, j);
    var c := 0;
    while c < r
      invariant c <= r && BlocksSwapped(s, a[..], i, j, c) && Shuffled(s, a[..], lo, hi)
    {
      ghost var t := a[..];
      SwappedShuffles(t, i + c, j + c, lo, hi);
      OneMore(s, t, i, j, c, r);
      Swap(a, i + c, j + c);
      ShuffledTrans(s, t, a[..], lo, hi);
      c := c + 1;
    }
  }

  /** Less, equal and greater, one after the other. */
  ghost predicate Parts<T>(s: seq<T>, lo: int, m: int, k: int, hi: int, v: T, cmp: (T, T) -> int) {
    && 0 <= lo <= m <= k <= hi <= |s|
    && All(s, lo, m, v, -1, cmp) && All(s, m, k, v, 0, cmp) && All(s, k, hi, v, 1, cmp)
  }

  /** Swapping the shorter of two neighbouring regions with the far end of the other puts both in order. */
  lemma LeftInPlace<T>(s: seq<T>, t: seq<T>, lo: int, pa: int, pb: int, v: T, cmp: (T, T) -> int, r: int)
    requires 0 <= lo <= pa <= pb <= |s| && All(s, lo, pa, v, 0, cmp) && All(s, pa, pb, v, -1, cmp)
    requires r == (if pa - lo < pb - pa then pa - lo else pb - pa) && BlocksSwapped(s, t, lo, pb - r, r)
    ensures All(t, lo, lo + (pb - pa), v, -1, cmp) && All(t, lo + (pb - pa), pb, v, 0, cmp)
  {
  }

  lemma RightInPlace<T>(s: seq<T>, t: seq<T>, pb: int, pd: int, hi: int, v: T, cmp: (T, T) -> int, r: int)
    requires 0 <= pb <= pd + 1 <= hi <= |s| && All(s, pb, pd + 1, v, 1, cmp) && All(s, pd + 1, hi, v, 0, cmp)
    requires r == (if pd + 1 - pb < hi - pd - 1 then pd + 1 - pb else hi - pd - 1) && BlocksSwapped(s, t, pb, hi - r, r)
    ensures All(t, pb, hi - (pd + 1 - pb), v, 0, cmp) && All(t, hi - (pd + 1 - pb), hi, v, 1, cmp)
  {
  }

  lemma AllKept<T>(s: seq<T>, t: seq<T>, i: int, j: int, v: T, sign: int, cmp: (T, T) -> int, x: int, y: int, r: int)
    requires 0 <= i <= j <= |s| && All(s, i, j, v, sign, cmp) && BlocksSwapped(s, t, x, y, r) && (j <= x || y + r <= i)
    ensures All(t, i, j, v, sign, cmp)
  {
  }

  lemma BlocksLength<T>(s: seq<T>, t: seq<T>, i: int, j: int, r: int)
    requires BlocksSwapped(s, t, i, j, r)
    ensures |t| == |s|
  {
  }

  /** After both block swaps. */
  lemma InPlace<T>(s: seq<T>, t: seq<T>, u: seq<T>, lo: int, pa: int, pb: int, pd: int, hi: int, v: T,
      cmp: (T, T) -> int, r: int, q: int)
    requires Regions(s, lo, pa, pb, pb - 1, pd, hi, v, cmp)
    requires r == (if pa - lo < pb - pa then pa - lo else pb - pa) && BlocksSwapped(s, t, lo, pb - r, r)
    requires q == (if pd + 1 - pb < hi - pd - 1 then pd + 1 - pb else hi - pd - 1) && BlocksSwapped(t, u, pb, hi - q, q)
    ensures Parts(u, lo, lo + (pb - pa), hi - (pd + 1 - pb), hi, v, cmp)
  {
    hide All, BlocksSwapped;
    BlocksLength(s, t, lo, pb - r, r);
    BlocksLength(t, u, pb, hi - q, q);
    LeftInPlace(s, t, lo, pa, pb, v, cmp, r);
    AllKept(s, t, pb, pd + 1, v, 1, cmp, lo, pb - r, r);
    AllKept(s, t, pd + 1, hi, v, 0, cmp, lo, pb - r, r);
    RightInPlace(t, u, pb, pd, hi, v, cmp, q);
    AllKept(t, u, lo, lo + (pb - pa), v, -1, cmp, pb, hi - q, q);
    AllKept(t, u, lo + (pb - pa), pb, v, 0, cmp, pb, hi - q, q);
    AllJoin(u, lo + (pb - pa), pb, hi - (pd + 1 - pb), v, cmp);
  }

  lemma AllJoin<T>(s: seq<T>, i: int, j: int, k: int, v: T, cmp: (T, T) -> int)
    requires 0 <= i <= j <= k <= |s| && All(s, i, j, v, 0, cmp) && All(s, j, k, v, 0, cmp)
    ensures All(s, i, k, v, 0, cmp)
  {
  }

  // ----- Putting the parts together -----

  /** What comes before lo is sorted and not greater than anything from lo on. */
  ghost predicate Done<T>(s: seq<T>, lo0: int, lo: int, hi: int, cmp: (T, T) -> int) {
    0 <= lo0 <= lo <= hi <= |s| && Sorted(s, lo0, lo, cmp) && Below(s, lo0, lo, hi, cmp)
  }

  lemma DoneKept<T(!new)>(s: seq<T>, t: seq<T>, lo0: int, lo: int, hi: int, cmp: (T, T) -> int)
    requires Done(s, lo0, lo, hi, cmp) && Shuffled(s, t, lo, hi)
    ensures Done(t, lo0, lo, hi, cmp)
  {
    hide Shuffled;
    ShuffledLength(s, t, lo, hi);
    forall i | lo0 <= i < lo
      ensures t[i] == s[i]
    {
      ShuffledOutside(s, t, lo, hi, i);
    }
    forall i, j | lo0 <= i < lo <= j < hi
      ensures cmp(t[i], t[j]) <= 0
    {
      var k := ShuffledFrom(s, t, lo, hi, j);
    }
  }

  lemma PartsKept<T(!new)>(s: seq<T>, t: seq<T>, lo: int, m: int, k: int, hi: int, v: T, cmp: (T, T) -> int)
    requires Parts(s, lo, m, k, hi, v, cmp) && Shuffled(s, t, lo, m)
    ensures Parts(t, lo, m, k, hi, v, cmp)
  {
    hide Shuffled;
    ShuffledLength(s, t, lo, m);
    forall i | 0 <= i < |s|
      ensures i < lo || m <= i ==> t[i] == s[i]
      ensures lo <= i < m ==> cmp(t[i], v) < 0
    {
      if lo <= i < m {
        var j := ShuffledFrom(s, t, lo, m, i);
      } else {
        ShuffledOutside(s, t, lo, m, i);
      }
    }
  }

  lemma ShuffledLength<T>(s: seq<T>, t: seq<T>, lo: int, hi: int)
    requires Shuffled(s, t, lo, hi)
    ensures |t| == |s|
  {
  }

  lemma Assemble<T(!new)>(s: seq<T>, lo0: int, lo: int, m: int, k: int, hi: int, v: T, cmp: (T, T) -> int)
    requires Preorder(cmp) && Done(s, lo0, lo, hi, cmp) && Parts(s, lo, m, k, hi, v, cmp) && Sorted(s, lo, m, cmp)
    ensures Done(s, lo0, k, hi, cmp)
  {
    forall i, j | lo0 <= i < j < hi && i < k && (j < k || k <= j)
      ensures cmp(s[i], s[j]) <= 0
    {
      if lo <= i && m <= j {
        assert cmp(s[i], v) <= 0 && cmp(v, s[j]) <= 0;
      }
    }
  }

  lemma DoneAll<T>(s: seq<T>, lo0: int, lo: int, hi: int, cmp: (T, T) -> int)
    requires Done(s, lo0, lo, hi, cmp) && Sorted(s, lo, hi, cmp)
    ensures Sorted(s, lo0, hi, cmp)
  {
  }

  lemma DoneShort<T(!new)>(s: seq<T>, lo0: int, lo: int, hi: int, cmp: (T, T) -> int)
    requires Done(s, lo0, lo, hi, cmp) && hi <= lo + 1
    ensures Sorted(s, lo0, hi, cmp)
  {
  }

  lemma DoneStart<T>(s: seq<T>, lo: int, hi: int, cmp: (T, T) -> int)
    requires 0 <= lo <= hi <= |s|
    ensures Done(s, lo, lo, hi, cmp)
  {
  }

  /** One pass: the part a[lo..lo + n] split into less, equal and greater, unless nothing had to be moved. */
  method Split<T(!new)>(a: array<T>, lo: nat, n: nat, cmp: (T, T) -> int)
      returns (less: nat, greater: nat, swapped: bool, ghost v: T)
    requires 7 <= n && lo + n <= a.Length && Preorder(cmp)
    modifies a
    ensures Shuffled(old(a[..]), a[..], lo, lo + n) && less + greater < n
    ensures swapped ==> Parts(a[..], lo, lo + less, lo + n - greater, lo + n, v, cmp)
  {
    hide Shuffled, Swapped, Regions, Preorder, All, BlocksSwapped;
    ghost var s, hi := a[..], lo + n;
    var pm := ChoosePivot(a, lo, n, cmp);
    SwappedShuffles(s, lo, pm, lo, hi);
    Swap(a, lo, pm);
    ghost var t := a[..];
    v := a[lo];
    var pa, pb, pc, pd;
    pa, pb, pc, pd, swapped := Partition(a, lo, n, cmp);
    ShuffledTrans(s, t, a[..], lo, hi);
    RegionsBound(a[..], lo, pa, pb, pc, pd, hi, v, cmp);
    less, greater := pb - pa, pd - pc;
    if swapped {
      ghost var p := a[..];
      var r := if pa - lo < pb - pa then pa - lo else pb - pa;
      VecSwap(a, lo, pb - r, r, lo, lo + n);
      ghost var q := a[..];
      ShuffledTrans(s, p, q, lo, hi);
      var e := if pd - pc < lo + n - pd - 1 then pd - pc else lo + n - pd - 1;
      VecSwap(a, pb, lo + n - e, e, lo, lo + n);
      ShuffledTrans(s, q, a[..], lo, hi);
      InPlace(p, q, a[..], lo, pa, pb, pd, hi, v, cmp, r, e);
    }
  }

  /** qsort: the run of n elements from lo is sorted, and nothing is lost or changed. */
  method Sort<T(!new)>(a: array<T>, lo0: nat, n0: nat, cmp: (T, T) -> int)
    requires lo0 + n0 <= a.Length && Preorder(cmp)
    modifies a
    ensures Sorted(a[..], lo0, lo0 + n0, cmp)
    ensures Shuffled(old(a[..]), a[..], lo0, lo0 + n0)
    decreases n0
  {
    hide Shuffled, Sorted, Below, Parts, Done, Preorder;
    ghost var s, hi := a[..], lo0 + n0;
    var lo: nat, n: nat := lo0, n0;
    ShuffledSelf(s, lo0, hi);
    DoneStart(s, lo0, hi, cmp);
    while true
      invariant lo0 <= lo && lo + n == hi && n <= n0
      invariant Shuffled(s, a[..], lo0, hi) && Done(a[..], lo0, lo, hi, cmp)
      decreases n
    {
      ghost var t := a[..];
      if n < 7 {
        InsertionSort(a, lo, n, cmp);
        Finish(s, t, a[..], lo0, lo, hi, cmp);
        return;
      }
      var less, greater, swapped, v := Split(a, lo, n, cmp);
      ghost var u := a[..];
      ShuffledWiden(t, u, lo, hi, lo0, hi);
      ShuffledTrans(s, t, u, lo0, hi);
      DoneKept(t, u, lo0, lo, hi, cmp);
      if !swapped {
        InsertionSort(a, lo, n, cmp);
        Finish(s, u, a[..], lo0, lo, hi, cmp);
        return;
      }
      if less > 1 {
        Sort(a, lo, less, cmp);
      } else {
        ShuffledSelf(u, lo, lo + less);
        SortedShort(u, lo, cmp);
      }
      ghost var w := a[..];
      LeftDone(s, u, w, lo0, lo, lo + less, hi - greater, hi, v, cmp);
      lo, n := lo + n - greater, greater;
      if n <= 1 {
        DoneShort(w, lo0, lo, hi, cmp);
        return;
      }
    }
  }

  lemma Finish<T(!new)>(s: seq<T>, t: seq<T>, u: seq<T>, lo0: int, lo: int, hi: int, cmp: (T, T) -> int)
    requires Shuffled(s, t, lo0, hi) && Done(t, lo0, lo, hi, cmp) && Shuffled(t, u, lo, hi)
    requires 0 <= lo <= hi <= |u| && Sorted(u, lo, hi, cmp)
    ensures Shuffled(s, u, lo0, hi) && 0 <= lo0 <= hi && Sorted(u, lo0, hi, cmp)
  {
    hide Shuffled, Sorted, Below;
    ShuffledWiden(t, u, lo, hi, lo0, hi);
    ShuffledTrans(s, t, u, lo0, hi);
    DoneKept(t, u, lo0, lo, hi, cmp);
    DoneAll(u, lo0, lo, hi, cmp);
  }

  lemma LeftDone<T(!new)>(s: seq<T>, u: seq<T>, w: seq<T>, lo0: int, lo: int, m: int, k: int, hi: int, v: T,
      cmp: (T, T) -> int)
    requires Preorder(cmp) && Shuffled(s, u, lo0, hi) && Done(u, lo0, lo, hi, cmp) && Parts(u, lo, m, k, hi, v, cmp)
    requires Shuffled(u, w, lo, m) && 0 <= lo <= m <= |w| && Sorted(w, lo, m, cmp)
    ensures Shuffled(s, w, lo0, hi) && Done(w, lo0, k, hi, cmp)
  {
    hide Shuffled, Sorted, Below, All, Preorder;
    ShuffledWiden(u, w, lo, m, lo, hi);
    ShuffledWiden(u, w, lo, m, lo0, hi);
    ShuffledTrans(s, u, w, lo0, hi);
    DoneKept(u, w, lo0, lo, hi, cmp);
    PartsKept(u, w, lo, m, k, hi, v, cmp);
    Assemble(w, lo0, lo, m, k, hi, v, cmp);
  }

  /** dto_qsort: the array is sorted and holds what it held. */
  method Qsort<T(!new)>(a: array<T>, cmp: (T, T) -> int)
    requires Preorder(cmp)
    modifies a
    ensures forall i, j :: 0 <= i < j < a.Length ==> cmp(a[i], a[j]) <= 0
    ensures multiset(a[..]) == multiset(old(a[..]))
  {
    hide Preorder;
    ghost var s := a[..];
    Sort(a, 0, a.Length, cmp);
    assert s[0..a.Length] == s && a[..][0..a.Length] == a[..];
  }
}
