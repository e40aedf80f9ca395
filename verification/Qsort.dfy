/** The hybrid sort of lib/qsort.c on raw memory.  A pointer `base + k * qsz` is written as the
    record number k; only the byte loops that swap and rotate records use addresses. */
module Qsort {
  import opened Machine
  import opened Ordering
  import opened RecordView
  import opened Bits

  lemma OneLevel()
    ensures Pow2(2) == THRESH
  {
  }

  lemma OneLevelDeeper(nest: nat, depth: nat, part: nat, whole: nat)
    requires nest >= 1 && Pow2(nest + 1) <= whole && 2 * part <= whole
    requires depth > 0 ==> Pow2(depth + 1) <= part
    ensures Pow2(Max(nest, depth + 1) + 1) <= whole
  {
    if depth + 1 > nest {
      assert Pow2(depth + 2) == 2 * Pow2(depth + 1);
    }
  }

  /** x is one of a, b, c and lies between the other two. */
  ghost predicate IsMedian(cmp: Compare, x: Record, a: Record, b: Record, c: Record) {
    || (x == a && Between(cmp, b, a, c))
    || (x == b && Between(cmp, a, b, c))
    || (x == c && Between(cmp, a, c, b))
  }

  ghost predicate Between(cmp: Compare, l: Record, x: Record, r: Record) {
    (cmp(l, x) <= 0 && cmp(x, r) <= 0) || (cmp(r, x) <= 0 && cmp(x, l) <= 0)
  }

  /** One run of the sort: the statics `qcmp` and `qsz`, which `qsort` sets before anything else and
      which do not change during the run, and the memory that holds the records. */
  class Sorter {
    const mem: array<byte>
    const qcmp: Compare
    const qsz: nat
    const base: nat
    const n: nat
    // End of the last record.
    ghost const top: nat

    constructor (mem: array<byte>, base: nat, n: nat, size: nat, compar: Compare)
      requires size > 0 && Address(base, size, n) <= mem.Length && TotalPreorder(compar, size)
      ensures this.mem == mem && this.base == base && this.n == n && qsz == size && qcmp == compar
      ensures Valid()
    {
      this.mem, this.base, this.n := mem, base, n;
      qsz, qcmp := size, compar;
      top := Address(base, size, n);
    }

    ghost predicate Valid() {
      qsz > 0 && top == Address(base, qsz, n) <= mem.Length && TotalPreorder(qcmp, qsz)
    }

    ghost function Recs(): (s: seq<Record>)
      requires Valid()
      reads mem
      ensures |s| == n && Sized(s, qsz)
    {
      View(mem[..], base, qsz, n)
    }

    /** The bytes of record k, as handed to the comparison routine. */
    function At(k: nat): (r: Record)
      requires Valid() && k < n
      reads mem
      ensures r == Recs()[k]
    {
      ViewAt(mem[..], base, qsz, n, k);
      var a := Address(base, qsz, k);
      mem[a..a + qsz]
    }

    /** The byte loop that exchanges two records, written out three times in the source. */
    method SwapRecords(i: nat, j: nat)
      requires Valid() && i < n && j < n && i != j
      modifies mem
      ensures Recs() == Swapped(old(Recs()), i, j)
      ensures SameOutside(old(mem[..]), mem[..], base, top)
    {
      hide SwapState, View, Address, TotalPreorder;
      ghost var m0 := mem[..];
      ghost var m := m0;
      var p, q := Address(base, qsz, i), Address(base, qsz, j);
      var ii: nat := qsz;
      SwapStart(m0, base, qsz, n, i, j);
      while ii > 0
        invariant ii <= qsz
        invariant p == Address(base, qsz, i) + (qsz - ii) && q == Address(base, qsz, j) + (qsz - ii)
        invariant mem[..] == m && SwapState(m0, m, base, qsz, n, i, j, qsz - ii)
      {
        SwapStep(m0, m, base, qsz, n, i, j, qsz - ii);
        ghost var m1 := m[p := m[q]];
        ghost var m2 := m1[q := m[p]];
        var c := mem[p];
        mem[p] := mem[q];
        assert mem[..] == m1;
        p := p + 1;
        mem[q] := c;
        assert mem[..] == m2;
        q := q + 1;
        m := m2;
        ii := ii - 1;
      }
      SwapEnd(m0, m, base, qsz, n, i, j);
    }

    /** The strided byte loop of the insertion step: record k moves down to position h. */
    method RotateRecords(h: nat, k: nat)
      requires Valid() && h < k < n
      modifies mem
      ensures Recs() == Rotated(old(Recs()), h, k)
      ensures SameOutside(old(mem[..]), mem[..], base, top)
    {
      hide RotateState, ShiftState, View, Address, TotalPreorder;
      ghost var m0 := mem[..];
      ghost var m := m0;
      RotateStart(m0, base, qsz, n, h, k);
      var lo: nat := qsz;
      while lo > 0
        invariant lo <= qsz
        invariant mem[..] == m && RotateState(m0, m, base, qsz, n, h, k, lo)
      {
        lo := lo - 1;
        RotateBound(m0, m, base, qsz, n, h, k, lo + 1);
        ghost var m1 := m;
        ShiftStart(m1, base, qsz, n, h, k, lo);
        var i := Address(base, qsz, k) + lo;
        var c := mem[i];
        var r := k;
        while r > h
          invariant h <= r <= k
          invariant i == Address(base, qsz, r) + lo
          invariant mem[..] == m && ShiftState(m1, m, base, qsz, n, h, k, lo, r)
        {
          ShiftStep(m1, m, base, qsz, n, h, k, lo, r);
          var j := i - qsz;
          m := m[i := m[j]];
          mem[i] := mem[j];
          assert mem[..] == m;
          i := j;
          r := r - 1;
        }
        RotateStep(m0, m1, m, base, qsz, n, h, k, lo);
        m := m[i := c];
        mem[i] := c;
        assert mem[..] == m;
      }
      RotateEnd(m0, m, base, qsz, n, h, k);
    }

    /** Brings the median of the first, middle and last record to the middle. */
    method MedianToMiddle(lo: nat, mid: nat, hi: nat)
      requires Valid() && lo < mid < hi - 1 < n
      modifies mem
      ensures Recs() in {old(Recs()), Swapped(old(Recs()), mid, lo), Swapped(old(Recs()), mid, hi - 1)}
      ensures Rearranged(old(Recs()), Recs(), lo, hi)
      ensures SameOutside(old(mem[..]), mem[..], base, top)
      ensures IsMedian(qcmp, Recs()[mid], old(Recs()[lo]), old(Recs()[mid]), old(Recs()[hi - 1]))
    {
      hide At, View, Address;
      ghost var s := Recs();
      var jj, i, tmp := lo, mid, hi - 1;
      var j := if qcmp(At(jj), At(i)) > 0 then jj else i;
      if qcmp(At(j), At(tmp)) > 0 {
        j := if j == jj then i else jj;
        if qcmp(At(j), At(tmp)) < 0 {
          j := tmp;
        }
      }
      if j != i {
        SwapRearranges(s, i, j, lo, hi);
        SwapRecords(i, j);
      }
    }

    /** From i up to the first record above the pivot, or to the pivot. */
    method ScanUp(i: nat, mid: nat) returns (r: nat)
      requires Valid() && i <= mid < n
      ensures i <= r <= mid
      ensures forall k :: i <= k < r ==> qcmp(Recs()[k], Recs()[mid]) <= 0
      ensures r < mid ==> qcmp(Recs()[mid], Recs()[r]) <= 0
    {
      hide At, View, Address, Recs;
      r := i;
      while r < mid && qcmp(At(r), At(mid)) <= 0
        invariant i <= r <= mid
        invariant forall k :: i <= k < r ==> qcmp(Recs()[k], Recs()[mid]) <= 0
      {
        r := r + 1;
      }
      Flip(qcmp, qsz, Recs()[r], Recs()[mid]);
    }

    /** From j down to the first record below the pivot, or to the pivot. */
    method ScanDown(mid: nat, j: nat) returns (r: nat)
      requires Valid() && mid <= j < n
      ensures mid <= r <= j
      ensures forall k :: r < k <= j ==> qcmp(Recs()[mid], Recs()[k]) <= 0
      ensures mid < r ==> qcmp(Recs()[r], Recs()[mid]) <= 0
    {
      hide At, View, Address, Recs;
      r := j;
      while r > mid && qcmp(At(mid), At(r)) <= 0
        invariant mid <= r <= j
        invariant forall k :: r < k <= j ==> qcmp(Recs()[mid], Recs()[k]) <= 0
      {
        r := r - 1;
      }
      Flip(qcmp, qsz, Recs()[mid], Recs()[r]);
    }

    /** One partition pass.  The pivot starts at `start` and ends at the returned position. */
    method Partition(lo: nat, start: nat, hi: nat) returns (mid: nat)
      requires Valid() && lo <= start < hi <= n
      modifies mem
      ensures Rearranged(old(Recs()), Recs(), lo, hi)
      ensures SameOutside(old(mem[..]), mem[..], base, top)
      ensures lo <= mid < hi && Partitioned(qcmp, Recs(), lo, mid, hi)
      ensures Recs()[mid] == old(Recs()[start])
    {
      hide At, View, Address, Recs, TotalPreorder, Swapped, Rearranged, Pass, Partitioned, SameOutside;
      ghost var m0 := mem[..];
      ghost var m1 := m0;
      ghost var s0 := Recs();
      ghost var s := s0;
      var i: nat, j: nat := lo, hi - 1;
      mid := start;
      SameOutsideRefl(m0, base, top);
      RearrangedRefl(s0, lo, hi);
      PassStart(qcmp, s0, lo, mid, hi);
      var done := false;
      while !done
        invariant lo <= i <= mid <= j < hi && (done ==> i == mid == j)
        invariant s == Recs() && Pass(qcmp, s, lo, i, mid, j, hi)
        invariant Rearranged(s0, s, lo, hi)
        invariant m1 == mem[..] && SameOutside(m0, m1, base, top)
        invariant s[mid] == s0[start]
        decreases !done, j - i
      {
        ghost var i0, j0 := i, j;
        i := ScanUp(i, mid);
        j := ScanDown(mid, j);
        assert s == Recs();
        PassScanned(qcmp, s, lo, i0, i, mid, j, j0, hi);
        var jj: nat, tmp: nat := j, i + 1;
        if j > mid {
          if i == mid {
            // the new pivot position is j
            PivotMovesUp(qcmp, s, lo, mid, j, hi);
            mid := j;
          } else {
            SidesTrade(qcmp, s, lo, i, mid, j, hi);
            j := j - 1;
          }
        } else if i == mid {
          done := true;
        } else {
          // the new pivot position is i
          PivotMovesDown(qcmp, s, lo, i, mid, hi);
          jj := mid;
          mid := i;
          tmp := i;
          j := j - 1;
        }
        if !done {
          SwappedPlaces(s, i, jj, lo, hi);
          RearrangedTransitive(s0, s, Swapped(s, i, jj), lo, hi);
          SwapRecords(i, jj);
          SameOutsideTransitive(m0, m1, mem[..], base, top);
          m1 := mem[..];
          s := Swapped(s, i, jj);
          i := tmp;
        }
      }
      PassBounds(qcmp, s, lo, i, mid, j, hi);
    }

    /** Chooses the pivot of the window b..m and partitions the window around it. */
    method Split(b: nat, m: nat) returns (mid: nat)
      requires Valid() && b + THRESH <= m <= n
      modifies mem
      ensures Rearranged(old(Recs()), Recs(), b, m)
      ensures SameOutside(old(mem[..]), mem[..], base, top)
      ensures b <= mid < m && Partitioned(qcmp, Recs(), b, mid, m)
    {
      hide At, View, Address, Recs, Rearranged, Partitioned, TotalPreorder, IsMedian, SameOutside;
      ghost var m0 := mem[..];
      ghost var s0 := Recs();
      SameOutsideRefl(m0, base, top);
      RearrangedRefl(s0, b, m);
      var size := m - b;
      mid := b + size / 2;
      if size >= MTHRESH {
        MedianToMiddle(b, mid, m);
      }
      ghost var m1 := mem[..];
      ghost var s1 := Recs();
      assert Rearranged(s0, s1, b, m) && SameOutside(m0, m1, base, top);
      mid := Partition(b, mid, m);
      RearrangedTransitive(s0, s1, Recs(), b, m);
      SameOutsideTransitive(m0, m1, mem[..], base, top);
    }

    /** Quicksort down to partitions of fewer than THRESH records.  `nest` is the depth of nested
        activations: only the smaller partition is treated by a call, so it is at most log2 of
        the number of records. */
    method Qst(lo: nat, hi: nat) returns (ghost nest: nat)
      requires Valid() && lo + THRESH <= hi <= n
      modifies mem
      ensures Rearranged(old(Recs()), Recs(), lo, hi)
      ensures SameOutside(old(mem[..]), mem[..], base, top)
      ensures AlmostSorted(qcmp, Recs(), lo, hi)
      ensures nest >= 1 && Pow2(nest + 1) <= hi - lo
      decreases hi - lo, 0
    {
      hide At, View, Address, Recs, Rearranged, Frontier, Partitioned, AlmostSorted, TotalPreorder, SameOutside, Pow2, Sized, Max;
      ghost var m0, s0 := mem[..], Recs();
      ghost var m1, s := m0, s0;
      var b: nat, m: nat := lo, hi;
      var size: nat := m - b;
      nest := 1;
      OneLevel();
      SameOutsideRefl(m0, base, top);
      RearrangedRefl(s0, lo, hi);
      WholeFrontier(qcmp, s, lo, hi);
      while size >= THRESH
        invariant lo <= b <= m <= hi && size == m - b
        invariant s == Recs() && Rearranged(s0, s, lo, hi) && Frontier(qcmp, s, lo, b, m, hi)
        invariant m1 == mem[..] && SameOutside(m0, m1, base, top)
        invariant nest >= 1 && Pow2(nest + 1) <= hi - lo
        decreases size
      {
        var mid := Split(b, m);
        SameOutsideTransitive(m0, m1, mem[..], base, top);
        WindowRearranged(qcmp, s0, s, Recs(), lo, b, m, hi);
        m1, s := mem[..], Recs();
        var i: nat := mid + 1;
        var left: nat, right: nat := mid - b, m - i;
        ghost var d;
        if left <= right {
          d := QstIfLarge(b, mid);
          PartRearranged(qcmp, s0, s, Recs(), lo, b, b, mid, mid, m, hi);
          LeftDone(qcmp, qsz, Recs(), lo, b, mid, m, hi);
          b := i;
          size := right;
          assert Frontier(qcmp, Recs(), lo, b, m, hi);
        } else {
          d := QstIfLarge(i, m);
          PartRearranged(qcmp, s0, s, Recs(), lo, b, i, mid, m, m, hi);
          RightDone(qcmp, qsz, Recs(), lo, b, mid, m, hi);
          m := mid;
          size := left;
          assert Frontier(qcmp, Recs(), lo, b, m, hi);
        }
        OneLevelDeeper(nest, d, if left <= right then left else right, hi - lo);
        nest := Max(nest, d + 1);
        SameOutsideTransitive(m0, m1, mem[..], base, top);
        m1, s := mem[..], Recs();
      }
      FrontierClosed(qcmp, s, lo, b, m, hi);
    }

    /** The guarded recursive call on one partition. */
    method QstIfLarge(lo: nat, hi: nat) returns (ghost nest: nat)
      requires Valid() && lo <= hi <= n
      modifies mem
      ensures Rearranged(old(Recs()), Recs(), lo, hi)
      ensures SameOutside(old(mem[..]), mem[..], base, top)
      ensures AlmostSorted(qcmp, Recs(), lo, hi)
      ensures nest > 0 ==> Pow2(nest + 1) <= hi - lo
      decreases hi - lo, 1
    {
      nest := 0;
      if hi - lo >= THRESH {
        nest := Qst(lo, hi);
      }
    }

    /** The sentinel search: a least record among the first hi. */
    method FindLeast(hi: nat) returns (j: nat)
      requires Valid() && 0 < hi <= n
      ensures j < hi && forall k :: 0 <= k < hi ==> qcmp(Recs()[j], Recs()[k]) <= 0
    {
      hide At, View, Address, Recs, TotalPreorder;
      j := 0;
      Flip(qcmp, qsz, Recs()[0], Recs()[0]);
      var lo := 1;
      while lo < hi
        invariant j < lo <= hi
        invariant forall k :: 0 <= k < lo ==> qcmp(Recs()[j], Recs()[k]) <= 0
      {
        NewLeast(qcmp, qsz, Recs(), j, lo);
        if qcmp(At(j), At(lo)) > 0 {
          j := lo;
        }
        lo := lo + 1;
      }
    }

    /** The unguarded scan for the place of record k in the sorted records below it.  The sentinel
        at position 0 stops it, and so does the record THRESH - 1 places below k. */
    method InsertionPlace(k: nat) returns (h: nat, ghost comparisons: nat)
      requires Valid() && 0 < k < n
      requires AlmostSorted(qcmp, Recs(), 0, n)
      requires qcmp(Recs()[0], Recs()[k]) <= 0
      ensures 0 < h <= k && qcmp(Recs()[h-1], Recs()[k]) <= 0
      ensures forall i :: h <= i < k ==> qcmp(Recs()[i], Recs()[k]) > 0
      ensures 1 <= comparisons <= THRESH - 1
    {
      hide At, View, Address, Recs, TotalPreorder;
      var hi: nat := k - 1;
      comparisons := 1;
      while qcmp(At(hi), At(k)) > 0
        invariant hi < k && comparisons == k - hi <= THRESH - 1
        invariant forall i :: hi < i < k ==> qcmp(Recs()[i], Recs()[k]) > 0
        decreases hi
      {
        assert hi > 0;
        hi := hi - 1;
        comparisons := comparisons + 1;
      }
      h := hi + 1;
    }

    /** Inserts records 1, 2, ... into the sorted records before them. */
    method InsertionPass()
      requires Valid() && n > 0
      requires AlmostSorted(qcmp, Recs(), 0, n)
      requires forall k :: 0 <= k < n ==> qcmp(Recs()[0], Recs()[k]) <= 0
      modifies mem
      ensures Rearranged(old(Recs()), Recs(), 0, n)
      ensures SameOutside(old(mem[..]), mem[..], base, top)
      ensures Sorted(qcmp, Recs(), 0, n)
    {
      hide At, View, Address, Recs, Rearranged, AlmostSorted, Sorted, TotalPreorder, SameOutside, Rotated;
      ghost var m0, s0 := mem[..], Recs();
      ghost var m1, s := m0, s0;
      var min := 1;
      SameOutsideRefl(m0, base, top);
      RearrangedRefl(s0, 0, n);
      OneIsSorted(qcmp, s);
      while min < n
        invariant 1 <= min <= n
        invariant m1 == mem[..] && s == Recs() && |s| == n
        invariant SameOutside(m0, m1, base, top) && Rearranged(s0, s, 0, n)
        invariant Sorted(qcmp, s, 0, min) && AlmostSorted(qcmp, s, 0, n)
        invariant forall k :: 0 <= k < n ==> qcmp(s[0], s[k]) <= 0
      {
        ghost var comparisons;
        var hi;
        hi, comparisons := InsertionPlace(min);
        assert s == Recs();
        InsertionStep(qcmp, qsz, s, hi, min);
        RotationFacts(s0, s, hi, min);
        if hi != min {
          RotateRecords(hi, min);
          SameOutsideTransitive(m0, m1, mem[..], base, top);
        }
        s := Rotated(s, hi, min);
        m1 := mem[..];
        min := min + 1;
      }
    }

    /** Quicksort to almost sorted, plant the sentinel, insert. */
    method Run() returns (ghost nest: nat)
      requires Valid() && n > 1
      modifies mem
      ensures Rearranged(old(Recs()), Recs(), 0, n)
      ensures SameOutside(old(mem[..]), mem[..], base, top)
      ensures Sorted(qcmp, Recs(), 0, n)
      ensures if n >= THRESH then nest >= 1 && Pow2(nest + 1) <= n else nest == 0
    {
      hide At, View, Address, Recs, Rearranged, AlmostSorted, Sorted, TotalPreorder, SameOutside, Swapped;
      ghost var m0, s0 := mem[..], Recs();
      SameOutsideRefl(m0, base, top);
      RearrangedRefl(s0, 0, n);
      FewAreAlmostSorted(qcmp, s0, 0, n);
      nest := 0;
      var hi := n;
      if n >= THRESH {
        nest := Qst(0, n);
        hi := THRESH;
      }
      ghost var m1, s1 := mem[..], Recs();
      assert Rearranged(s0, s1, 0, n) && SameOutside(m0, m1, base, top) && AlmostSorted(qcmp, s1, 0, n);
      var j := FindLeast(hi);
      assert s1 == Recs();
      SentinelIsLeast(qcmp, qsz, s1, j);
      SentinelKeepsAlmostSorted(qcmp, s1, j);
      SwappedPlaces(s1, 0, j, 0, n);
      if j != 0 {
        SwapRecords(0, j);
      }
      ghost var m2, s2 := mem[..], Recs();
      assert s2 == Swapped(s1, 0, j);
      RearrangedTransitive(s0, s1, s2, 0, n);
      SameOutsideRefl(m1, base, top);
      SameOutsideTransitive(m0, m1, m2, base, top);
      InsertionPass();
      RearrangedTransitive(s0, s2, Recs(), 0, n);
      SameOutsideTransitive(m0, m2, mem[..], base, top);
    }
  }

  /** The library call: sorts the n records of `size` bytes at `base`, in place. */
  method Sort(mem: array<byte>, base: nat, n: int, size: nat, compar: Compare) returns (ghost nest: nat)
    requires n > 1 ==> size > 0 && Address(base, size, n) <= mem.Length && TotalPreorder(compar, size)
    modifies mem
    ensures n <= 1 ==> mem[..] == old(mem[..])
    ensures n > 1 ==>
      var s, t := View(old(mem[..]), base, size, n), View(mem[..], base, size, n);
      && Sorted(compar, t, 0, n)
      && multiset(t) == multiset(s)
      && SameOutside(old(mem[..]), mem[..], base, Address(base, size, n))
    ensures if n >= THRESH then nest >= 1 && Pow2(nest + 1) <= n else nest == 0
  {
    hide View, Address, Sorted, TotalPreorder, SameOutside, Pow2, Rearranged;
    nest := 0;
    if n <= 1 {
      return;
    }
    var sorter := new Sorter(mem, base, n, size, compar);
    nest := sorter.Run();
    WholeRearranged(View(old(mem[..]), base, size, n), View(mem[..], base, size, n));
  }
}
