/** Orderings and rearrangements of record sequences: the vocabulary in which the
    sort is specified.  A record is the block of `size` bytes the C code moves around;
    the comparison routine is any total preorder on records of that size. */
module Ordering {
  import opened Machine

  type Record = seq<byte>
  type Compare = (Record, Record) -> int

  // Partitions of fewer records than this are left to the insertion pass.
  const THRESH := 4
  // Partitions of at least this many records use the median of three.
  const MTHRESH := 6

  ghost predicate TotalPreorder(cmp: Compare, size: nat) {
    && (forall x, y {:trigger cmp(x, y)} :: |x| == |y| == size ==> (cmp(x, y) < 0 <==> cmp(y, x) > 0))
    && (forall x, y, z {:trigger cmp(x, y), cmp(y, z)} :: |x| == |y| == |z| == size && cmp(x, y) <= 0 && cmp(y, z) <= 0 ==> cmp(x, z) <= 0)
  }

  ghost predicate Sized(s: seq<Record>, size: nat) {
    forall k :: 0 <= k < |s| ==> |s[k]| == size
  }

  ghost predicate Sorted(cmp: Compare, s: seq<Record>, lo: nat, hi: nat)
    requires hi <= |s|
  {
    forall p, q :: lo <= p < q < hi ==> cmp(s[p], s[q]) <= 0
  }

  /** Records at least THRESH - 1 apart are in order. */
  ghost predicate AlmostSorted(cmp: Compare, s: seq<Record>, lo: nat, hi: nat)
    requires hi <= |s|
  {
    forall p, q :: lo <= p && p + THRESH - 1 <= q < hi ==> cmp(s[p], s[q]) <= 0
  }

  /** `t` is `s` with the records of lo..hi permuted and all others in place. */
  ghost predicate Rearranged(s: seq<Record>, t: seq<Record>, lo: nat, hi: nat)
    requires lo <= hi <= |s|
  {
    && |s| == |t|
    && s[..lo] == t[..lo]
    && s[hi..] == t[hi..]
    && multiset(s[lo..hi]) == multiset(t[lo..hi])
  }

  function Swapped(s: seq<Record>, i: nat, j: nat): (t: seq<Record>)
    requires i < |s| && j < |s|
  {
    s[i := s[j]][j := s[i]]
  }

  /** Record k moves down to position h; the records h..k-1 move up by one. */
  function Rotated(s: seq<Record>, h: nat, k: nat): (t: seq<Record>)
    requires h <= k < |s|
  {
    s[..h] + [s[k]] + s[h..k] + s[k+1..]
  }

  lemma RearrangedRefl(s: seq<Record>, lo: nat, hi: nat)
    requires lo <= hi <= |s|
    ensures Rearranged(s, s, lo, hi)
  {
  }

  lemma RearrangedTransitive(s: seq<Record>, t: seq<Record>, u: seq<Record>, lo: nat, hi: nat)
    requires lo <= hi <= |s| && Rearranged(s, t, lo, hi) && Rearranged(t, u, lo, hi)
    ensures Rearranged(s, u, lo, hi)
  {
  }

  lemma RearrangedWiden(s: seq<Record>, t: seq<Record>, lo: nat, lo': nat, hi': nat, hi: nat)
    requires lo <= lo' <= hi' <= hi <= |s| && Rearranged(s, t, lo', hi')
    ensures Rearranged(s, t, lo, hi)
  {
    assert s[..lo] == s[..lo'][..lo] && t[..lo] == t[..lo'][..lo];
    assert s[hi..] == s[hi'..][hi - hi'..] && t[hi..] == t[hi'..][hi - hi'..];
    assert s[lo..lo'] == s[..lo'][lo..] && t[lo..lo'] == t[..lo'][lo..];
    assert s[hi'..hi] == s[hi'..][..hi - hi'] && t[hi'..hi] == t[hi'..][..hi - hi'];
    assert s[lo..hi] == s[lo..lo'] + s[lo'..hi'] + s[hi'..hi];
    assert t[lo..hi] == t[lo..lo'] + t[lo'..hi'] + t[hi'..hi];
  }

  lemma SwapRearranges(s: seq<Record>, i: nat, j: nat, lo: nat, hi: nat)
    requires lo <= i < hi && lo <= j < hi && hi <= |s|
    ensures Rearranged(s, Swapped(s, i, j), lo, hi)
  {
    var part := s[lo..hi];
    assert Swapped(s, i, j)[lo..hi] == part[i - lo := part[j - lo]][j - lo := part[i - lo]];
    assert multiset(part[i - lo := part[j - lo]]) == multiset(part) - multiset{part[i - lo]} + multiset{part[j - lo]};
  }

  lemma SwappedPlaces(s: seq<Record>, i: nat, j: nat, lo: nat, hi: nat)
    requires lo <= i < hi && lo <= j < hi && hi <= |s|
    ensures Rearranged(s, Swapped(s, i, j), lo, hi)
    ensures |Swapped(s, i, j)| == |s| && Swapped(s, i, j)[i] == s[j] && Swapped(s, i, j)[j] == s[i]
    ensures forall k :: 0 <= k < |s| && k != i && k != j ==> Swapped(s, i, j)[k] == s[k]
  {
    SwapRearranges(s, i, j, lo, hi);
  }

  lemma RotateRearranges(s: seq<Record>, h: nat, k: nat, lo: nat, hi: nat)
    requires lo <= h <= k < hi <= |s|
    ensures Rearranged(s, Rotated(s, h, k), lo, hi)
  {
    var t := Rotated(s, h, k);
    assert s[h..k+1] == s[h..k] + [s[k]];
    assert t[h..k+1] == [s[k]] + s[h..k];
    assert Rearranged(s, t, h, k + 1);
    RearrangedWiden(s, t, lo, h, k + 1, hi);
  }

  /** Every record of the rearranged part was in that part before. */
  lemma RearrangedOrigin(s: seq<Record>, t: seq<Record>, lo: nat, hi: nat, q: nat) returns (p: nat)
    requires lo <= q < hi <= |s| && Rearranged(s, t, lo, hi)
    ensures lo <= p < hi && t[q] == s[p]
  {
    assert t[q] == t[lo..hi][q - lo];
    assert t[q] in multiset(t[lo..hi]);
    assert t[q] in multiset(s[lo..hi]);
    var i :| 0 <= i < hi - lo && s[lo..hi][i] == t[q];
    p := lo + i;
  }

  lemma RearrangedOutside(s: seq<Record>, t: seq<Record>, lo: nat, hi: nat, k: nat)
    requires lo <= hi <= |s| && Rearranged(s, t, lo, hi) && k < |s| && !(lo <= k < hi)
    ensures s[k] == t[k]
  {
    if k < lo {
      assert s[k] == s[..lo][k] && t[k] == t[..lo][k];
    } else {
      assert s[k] == s[hi..][k - hi] && t[k] == t[hi..][k - hi];
    }
  }

  // ---------- the state of a partition pass ----------

  /** Everything left of `mid` is at most the pivot and everything right of it at least the pivot. */
  ghost predicate Partitioned(cmp: Compare, s: seq<Record>, lo: nat, mid: nat, hi: nat)
    requires lo <= mid < hi <= |s|
  {
    && (forall k :: lo <= k < mid ==> cmp(s[k], s[mid]) <= 0)
    && (forall k :: mid < k < hi ==> cmp(s[mid], s[k]) <= 0)
  }

  /** The loop state of `qst` on lo..hi: only the window b..m is still to be treated,
      nothing left of the window exceeds anything in it or right of it, and the records
      outside the window are already almost sorted. */
  ghost predicate Frontier(cmp: Compare, s: seq<Record>, lo: nat, b: nat, m: nat, hi: nat)
    requires lo <= b <= m <= hi <= |s|
  {
    && (forall p, q :: lo <= p < b <= q < m ==> cmp(s[p], s[q]) <= 0)
    && (forall p, q :: b <= p < m <= q < hi ==> cmp(s[p], s[q]) <= 0)
    && (forall p, q :: lo <= p && p + THRESH - 1 <= q < hi && !(b <= p < m) && !(b <= q < m)
          ==> cmp(s[p], s[q]) <= 0)
  }

  lemma FrontierKept(cmp: Compare, s: seq<Record>, t: seq<Record>, lo: nat, b: nat, m: nat, hi: nat)
    requires lo <= b <= m <= hi <= |s| && Frontier(cmp, s, lo, b, m, hi) && Rearranged(s, t, b, m)
    ensures Frontier(cmp, t, lo, b, m, hi)
  {
    forall k | 0 <= k < |s| && !(b <= k < m) ensures s[k] == t[k] {
      RearrangedOutside(s, t, b, m, k);
    }
    forall q | b <= q < m ensures exists p :: b <= p < m && t[q] == s[p] {
      var p := RearrangedOrigin(s, t, b, m, q);
    }
  }

  lemma PartitionKept(cmp: Compare, s: seq<Record>, t: seq<Record>, lo: nat, mid: nat, hi: nat, b: nat, m: nat)
    requires lo <= mid < hi <= |s| && Partitioned(cmp, s, lo, mid, hi)
    requires (b == lo && m == mid) || (b == mid + 1 && m == hi)
    requires Rearranged(s, t, b, m)
    ensures Partitioned(cmp, t, lo, mid, hi)
  {
    forall k | 0 <= k < |s| && !(b <= k < m) ensures s[k] == t[k] {
      RearrangedOutside(s, t, b, m, k);
    }
    forall q | b <= q < m ensures exists p :: b <= p < m && t[q] == s[p] {
      var p := RearrangedOrigin(s, t, b, m, q);
    }
  }

  /** In a partitioned range nothing up to the pivot exceeds anything from the pivot on. */
  lemma PartitionSeparates(cmp: Compare, size: nat, s: seq<Record>, lo: nat, mid: nat, hi: nat)
    requires TotalPreorder(cmp, size) && Sized(s, size)
    requires lo <= mid < hi <= |s| && Partitioned(cmp, s, lo, mid, hi)
    ensures forall p, q :: lo <= p <= mid <= q < hi && p < q ==> cmp(s[p], s[q]) <= 0
  {
    forall p, q | lo <= p <= mid <= q < hi && p < q ensures cmp(s[p], s[q]) <= 0 {
      if p < mid < q {
        assert cmp(s[p], s[mid]) <= 0 && cmp(s[mid], s[q]) <= 0;
      }
    }
  }

  /** Once the left part is almost sorted, the window shrinks to the right part. */
  lemma LeftDone(cmp: Compare, size: nat, s: seq<Record>, lo: nat, b: nat, mid: nat, m: nat, hi: nat)
    requires TotalPreorder(cmp, size) && Sized(s, size)
    requires lo <= b <= mid < m <= hi <= |s| && Frontier(cmp, s, lo, b, m, hi)
    requires Partitioned(cmp, s, b, mid, m) && AlmostSorted(cmp, s, b, mid)
    ensures Frontier(cmp, s, lo, mid + 1, m, hi)
  {
    hide TotalPreorder, Partitioned, Sized;
    PartitionSeparates(cmp, size, s, b, mid, m);
  }

  /** Once the right part is almost sorted, the window shrinks to the left part. */
  lemma RightDone(cmp: Compare, size: nat, s: seq<Record>, lo: nat, b: nat, mid: nat, m: nat, hi: nat)
    requires TotalPreorder(cmp, size) && Sized(s, size)
    requires lo <= b <= mid < m <= hi <= |s| && Frontier(cmp, s, lo, b, m, hi)
    requires Partitioned(cmp, s, b, mid, m) && AlmostSorted(cmp, s, mid + 1, m)
    ensures Frontier(cmp, s, lo, b, mid, hi)
  {
    hide TotalPreorder, Partitioned, Sized;
    PartitionSeparates(cmp, size, s, b, mid, m);
  }

  lemma FrontierClosed(cmp: Compare, s: seq<Record>, lo: nat, b: nat, m: nat, hi: nat)
    requires lo <= b <= m <= hi <= |s| && m - b < THRESH && Frontier(cmp, s, lo, b, m, hi)
    ensures AlmostSorted(cmp, s, lo, hi)
  {
  }

  lemma WholeFrontier(cmp: Compare, s: seq<Record>, lo: nat, hi: nat)
    requires lo <= hi <= |s|
    ensures Frontier(cmp, s, lo, lo, hi, hi)
  {
  }

  lemma FewAreAlmostSorted(cmp: Compare, s: seq<Record>, lo: nat, hi: nat)
    requires hi <= |s|
    ensures hi < lo + THRESH ==> AlmostSorted(cmp, s, lo, hi)
  {
  }

  /** A step that only permutes the window keeps the loop state. */
  lemma WindowRearranged(cmp: Compare, s0: seq<Record>, s: seq<Record>, t: seq<Record>, lo: nat, b: nat, m: nat, hi: nat)
    requires lo <= b <= m <= hi <= |s0| && Rearranged(s0, s, lo, hi) && Rearranged(s, t, b, m)
    requires Frontier(cmp, s, lo, b, m, hi)
    ensures Rearranged(s0, t, lo, hi) && Frontier(cmp, t, lo, b, m, hi)
  {
    RearrangedWiden(s, t, lo, b, m, hi);
    RearrangedTransitive(s0, s, t, lo, hi);
    FrontierKept(cmp, s, t, lo, b, m, hi);
  }

  /** So does a step that only permutes one side p..q of the partition, which it leaves partitioned. */
  lemma PartRearranged(cmp: Compare, s0: seq<Record>, s: seq<Record>, t: seq<Record>,
                       lo: nat, b: nat, p: nat, mid: nat, q: nat, m: nat, hi: nat)
    requires lo <= b <= mid < m <= hi <= |s0| && Rearranged(s0, s, lo, hi)
    requires (p == b && q == mid) || (p == mid + 1 && q == m)
    requires Rearranged(s, t, p, q)
    requires Frontier(cmp, s, lo, b, m, hi) && Partitioned(cmp, s, b, mid, m)
    ensures Rearranged(s0, t, lo, hi) && Frontier(cmp, t, lo, b, m, hi) && Partitioned(cmp, t, b, mid, m)
  {
    PartitionKept(cmp, s, t, b, mid, m, p, q);
    RearrangedWiden(s, t, b, p, q, m);
    WindowRearranged(cmp, s0, s, t, lo, b, m, hi);
  }

  // ---------- inside one partition pass ----------

  /** The moving pointers i <= mid <= j of one partition pass over lo..hi. */
  ghost predicate Pass(cmp: Compare, s: seq<Record>, lo: nat, i: nat, mid: nat, j: nat, hi: nat) {
    && lo <= i <= mid <= j < hi <= |s|
    && (forall k :: lo <= k < i ==> cmp(s[k], s[mid]) <= 0)
    && (forall k :: j < k < hi ==> cmp(s[mid], s[k]) <= 0)
  }

  lemma PassStart(cmp: Compare, s: seq<Record>, lo: nat, mid: nat, hi: nat)
    requires lo <= mid < hi <= |s|
    ensures Pass(cmp, s, lo, lo, mid, hi - 1, hi)
  {
  }

  lemma PassBounds(cmp: Compare, s: seq<Record>, lo: nat, i: nat, mid: nat, j: nat, hi: nat)
    requires Pass(cmp, s, lo, i, mid, j, hi)
    ensures lo <= i <= mid <= j < hi <= |s|
    ensures i == mid == j ==> Partitioned(cmp, s, lo, mid, hi)
  {
  }

  /** Scanning past records that are on their right side of the pivot. */
  lemma PassScanned(cmp: Compare, s: seq<Record>, lo: nat, i: nat, i': nat, mid: nat, j': nat, j: nat, hi: nat)
    requires Pass(cmp, s, lo, i, mid, j, hi) && i <= i' <= mid <= j' <= j
    requires forall k :: i <= k < i' ==> cmp(s[k], s[mid]) <= 0
    requires forall k :: j' < k <= j ==> cmp(s[mid], s[k]) <= 0
    ensures Pass(cmp, s, lo, i', mid, j', hi)
  {
  }

  lemma Flip(cmp: Compare, size: nat, x: Record, y: Record)
    requires TotalPreorder(cmp, size) && |x| == |y| == size
    ensures cmp(x, y) > 0 <==> cmp(y, x) < 0
  {
  }

  /** The left scan has reached the pivot: a small record at j trades places with it. */
  lemma PivotMovesUp(cmp: Compare, s: seq<Record>, lo: nat, mid: nat, j: nat, hi: nat)
    requires Pass(cmp, s, lo, mid, mid, j, hi) && mid < j && cmp(s[j], s[mid]) <= 0
    ensures Pass(cmp, Swapped(s, mid, j), lo, mid + 1, j, j, hi)
  {
  }

  /** A large record on the left trades places with a small one on the right. */
  lemma SidesTrade(cmp: Compare, s: seq<Record>, lo: nat, i: nat, mid: nat, j: nat, hi: nat)
    requires Pass(cmp, s, lo, i, mid, j, hi) && i < mid < j
    requires cmp(s[mid], s[i]) <= 0 && cmp(s[j], s[mid]) <= 0
    ensures Pass(cmp, Swapped(s, i, j), lo, i + 1, mid, j - 1, hi)
  {
  }

  /** The right scan has reached the pivot: a large record at i trades places with it. */
  lemma PivotMovesDown(cmp: Compare, s: seq<Record>, lo: nat, i: nat, mid: nat, hi: nat)
    requires Pass(cmp, s, lo, i, mid, mid, hi) && i < mid && cmp(s[mid], s[i]) <= 0
    ensures Pass(cmp, Swapped(s, i, mid), lo, i, i, mid - 1, hi)
  {
  }

  // ---------- the sentinel and the insertion pass ----------

  /** In an almost sorted sequence a least record of the first THRESH is least of all. */
  lemma SentinelIsLeast(cmp: Compare, size: nat, s: seq<Record>, j: nat)
    requires TotalPreorder(cmp, size) && Sized(s, size) && AlmostSorted(cmp, s, 0, |s|)
    requires j < |s| && j < THRESH
    requires forall k :: 0 <= k < |s| && k < THRESH ==> cmp(s[j], s[k]) <= 0
    ensures forall k :: 0 <= k < |s| ==> cmp(s[j], s[k]) <= 0
  {
    forall k | 0 <= k < |s| ensures cmp(s[j], s[k]) <= 0 {
      if k >= THRESH {
        assert cmp(s[j], s[0]) <= 0 && cmp(s[0], s[k]) <= 0;
      }
    }
  }

  /** Bringing that record to the front keeps the sequence almost sorted. */
  lemma SentinelKeepsAlmostSorted(cmp: Compare, s: seq<Record>, j: nat)
    requires j < |s| && j < THRESH && AlmostSorted(cmp, s, 0, |s|)
    requires forall k :: 0 <= k < |s| ==> cmp(s[j], s[k]) <= 0
    ensures AlmostSorted(cmp, Swapped(s, 0, j), 0, |s|)
    ensures forall k :: 0 <= k < |s| ==> cmp(Swapped(s, 0, j)[0], Swapped(s, 0, j)[k]) <= 0
  {
  }

  /** One insertion: record k goes to its place h in the sorted prefix.  The prefix grows by one
      and the whole stays almost sorted, which is what bounds the next scan. */
  lemma InsertionStep(cmp: Compare, size: nat, s: seq<Record>, h: nat, k: nat)
    requires TotalPreorder(cmp, size) && Sized(s, size)
    requires h <= k < |s| && Sorted(cmp, s, 0, k) && AlmostSorted(cmp, s, 0, |s|)
    requires h > 0 ==> cmp(s[h-1], s[k]) <= 0
    requires forall i :: h <= i < k ==> cmp(s[i], s[k]) > 0
    ensures Sorted(cmp, Rotated(s, h, k), 0, k + 1)
    ensures AlmostSorted(cmp, Rotated(s, h, k), 0, |s|)
  {
    var t := Rotated(s, h, k);
    RotatedIsInsertion(s, h, k);
    InsertionPoint(cmp, size, s, h, k);
    InsertionKeepsOrder(cmp, s, t, h, k);
    InsertionKeepsDistance(cmp, size, s, t, h, k);
  }

  lemma InsertionPoint(cmp: Compare, size: nat, s: seq<Record>, h: nat, k: nat)
    requires TotalPreorder(cmp, size) && Sized(s, size)
    requires h <= k < |s| && Sorted(cmp, s, 0, k)
    requires h > 0 ==> cmp(s[h-1], s[k]) <= 0
    requires forall i :: h <= i < k ==> cmp(s[i], s[k]) > 0
    ensures forall i :: 0 <= i < h ==> cmp(s[i], s[k]) <= 0
    ensures forall i :: h <= i < k ==> cmp(s[k], s[i]) <= 0
  {
    forall i | 0 <= i < h ensures cmp(s[i], s[k]) <= 0 {
      if i < h - 1 {
        assert cmp(s[i], s[h-1]) <= 0 && cmp(s[h-1], s[k]) <= 0;
      }
    }
    forall i | h <= i < k ensures cmp(s[k], s[i]) <= 0 {
      assert cmp(s[i], s[k]) > 0;
    }
  }

  lemma RotatedIsInsertion(s: seq<Record>, h: nat, k: nat)
    requires h <= k < |s|
    ensures IsInsertion(s, Rotated(s, h, k), h, k)
  {
  }

  ghost predicate IsInsertion(s: seq<Record>, t: seq<Record>, h: nat, k: nat) {
    && h <= k < |s| == |t|
    && t[h] == s[k]
    && (forall i :: 0 <= i < h || k < i < |t| ==> t[i] == s[i])
    && (forall i :: h < i <= k ==> t[i] == s[i-1])
  }

  lemma InsertionKeepsOrder(cmp: Compare, s: seq<Record>, t: seq<Record>, h: nat, k: nat)
    requires IsInsertion(s, t, h, k) && Sorted(cmp, s, 0, k)
    requires forall i :: 0 <= i < h ==> cmp(s[i], s[k]) <= 0
    requires forall i :: h <= i < k ==> cmp(s[k], s[i]) <= 0
    ensures Sorted(cmp, t, 0, k + 1)
  {
  }

  lemma InsertionKeepsDistance(cmp: Compare, size: nat, s: seq<Record>, t: seq<Record>, h: nat, k: nat)
    requires TotalPreorder(cmp, size) && Sized(s, size)
    requires IsInsertion(s, t, h, k) && Sorted(cmp, t, 0, k + 1) && AlmostSorted(cmp, s, 0, |s|)
    requires forall i :: h <= i < k ==> cmp(s[k], s[i]) <= 0
    ensures AlmostSorted(cmp, t, 0, |t|)
  {
    forall p, q | 0 <= p && p + THRESH - 1 <= q < |t| ensures cmp(t[p], t[q]) <= 0 {
      if k < q {
        assert t[q] == s[q];
        if p == h < k {
          assert cmp(s[k], s[h]) <= 0 && cmp(s[h], s[q]) <= 0;
        }
      }
    }
  }

  lemma NewLeast(cmp: Compare, size: nat, s: seq<Record>, j: nat, k: nat)
    requires TotalPreorder(cmp, size) && Sized(s, size) && j < k < |s|
    requires forall i :: 0 <= i < k ==> cmp(s[j], s[i]) <= 0
    ensures cmp(s[j], s[k]) > 0 ==> forall i :: 0 <= i <= k ==> cmp(s[k], s[i]) <= 0
  {
    if cmp(s[j], s[k]) > 0 {
      Flip(cmp, size, s[j], s[k]);
      Flip(cmp, size, s[k], s[k]);
      forall i | 0 <= i <= k ensures cmp(s[k], s[i]) <= 0 {
        if i < k {
          assert cmp(s[k], s[j]) <= 0 && cmp(s[j], s[i]) <= 0;
        }
      }
    }
  }

  lemma OneIsSorted(cmp: Compare, s: seq<Record>)
    requires |s| > 0
    ensures Sorted(cmp, s, 0, 1)
  {
  }

  /** What the insertion pass keeps when record k goes to h > 0. */
  lemma RotationFacts(s0: seq<Record>, s: seq<Record>, h: nat, k: nat)
    requires 0 < h <= k < |s| == |s0| && Rearranged(s0, s, 0, |s|)
    ensures |Rotated(s, h, k)| == |s| && Rearranged(s0, Rotated(s, h, k), 0, |s|)
    ensures Rotated(s, h, k)[0] == s[0]
    ensures forall i :: 0 <= i < |s| ==> Rotated(s, h, k)[i] in s
    ensures Rotated(s, k, k) == s
  {
    RotatedIsInsertion(s, h, k);
    RotateRearranges(s, h, k, 0, |s|);
    RearrangedTransitive(s0, s, Rotated(s, h, k), 0, |s|);
  }

  lemma WholeRearranged(s: seq<Record>, t: seq<Record>)
    requires Rearranged(s, t, 0, |s|)
    ensures multiset(s) == multiset(t)
  {
    assert s[0..|s|] == s && t[0..|t|] == t;
  }
}
