/** Memory seen as a row of records: `n` blocks of `size` bytes from address `base`. */
module RecordView {
  import opened Machine
  import opened Ordering

  /** Address of record k, reached by stepping `size` bytes at a time from `base`. */
  function Address(base: nat, size: nat, k: nat): (a: nat)
    ensures a >= base
  {
    if k == 0 then base else Address(base, size, k - 1) + size
  }

  lemma {:induction false} AddressIsScaledIndex(base: nat, size: nat, k: nat)
    ensures Address(base, size, k) == base + k * size
  {
    if k > 0 {
      AddressIsScaledIndex(base, size, k - 1);
    }
  }

  lemma {:induction false} AddressOrder(base: nat, size: nat, j: nat, k: nat)
    requires j < k
    ensures Address(base, size, j) + size <= Address(base, size, k)
    decreases k
  {
    if j < k - 1 {
      AddressOrder(base, size, j, k - 1);
    }
  }

  function {:induction false} View(m: seq<byte>, base: nat, size: nat, n: nat): (s: seq<Record>)
    requires Address(base, size, n) <= |m|
    ensures |s| == n && Sized(s, size)
  {
    if n == 0 then []
    else View(m, base, size, n - 1) + [m[Address(base, size, n - 1)..Address(base, size, n)]]
  }

  lemma {:induction false} ViewAt(m: seq<byte>, base: nat, size: nat, n: nat, k: nat)
    requires Address(base, size, n) <= |m| && k < n
    ensures Address(base, size, k) + size <= Address(base, size, n)
    ensures View(m, base, size, n)[k] == m[Address(base, size, k)..Address(base, size, k) + size]
  {
    if k < n - 1 {
      ViewAt(m, base, size, n - 1, k);
    }
  }

  /** Only the bytes from `lo` up to `hi` may differ. */
  ghost predicate SameOutside(m: seq<byte>, m': seq<byte>, lo: nat, hi: nat)
  {
    |m| == |m'| && forall a :: 0 <= a < |m| && !(lo <= a < hi) ==> m'[a] == m[a]
  }

  lemma SameOutsideRefl(m: seq<byte>, lo: nat, hi: nat)
    ensures SameOutside(m, m, lo, hi)
  {
  }

  lemma SameOutsideLength(m: seq<byte>, m': seq<byte>, lo: nat, hi: nat)
    requires SameOutside(m, m', lo, hi)
    ensures |m'| == |m|
  {
  }

  lemma SameOutsideTransitive(m: seq<byte>, m1: seq<byte>, m2: seq<byte>, lo: nat, hi: nat)
    requires SameOutside(m, m1, lo, hi) && SameOutside(m1, m2, lo, hi)
    ensures SameOutside(m, m2, lo, hi)
  {
  }

  /** Byte x of record k set to v. */
  function Poked(s: seq<Record>, k: nat, x: nat, v: byte): (t: seq<Record>)
    requires k < |s| && x < |s[k]|
  {
    var r: Record := s[k];
    var r': Record := r[..x] + [v] + r[x + 1..];
    s[k := r']
  }

  /** Storing one byte changes one byte of one record and nothing outside the records. */
  lemma WriteByte(m: seq<byte>, base: nat, size: nat, n: nat, k: nat, x: nat, v: byte)
    requires Address(base, size, n) <= |m| && k < n && x < size
    ensures Address(base, size, k) + size <= Address(base, size, n)
    ensures var s := View(m, base, size, n);
      |s[k]| == size && View(m[Address(base, size, k) + x := v], base, size, n) == Poked(s, k, x, v)
    ensures SameOutside(m, m[Address(base, size, k) + x := v], base, Address(base, size, n))
  {
    ViewAt(m, base, size, n, k);
    var s, m' := View(m, base, size, n), m[Address(base, size, k) + x := v];
    forall r | 0 <= r < n ensures View(m', base, size, n)[r] == Poked(s, k, x, v)[r] {
      WriteByteAt(m, base, size, n, k, x, v, r);
    }
  }

  lemma WriteByteAt(m: seq<byte>, base: nat, size: nat, n: nat, k: nat, x: nat, v: byte, r: nat)
    requires Address(base, size, n) <= |m| && k < n && r < n && x < size
    requires Address(base, size, k) + size <= Address(base, size, n)
    ensures var m' := m[Address(base, size, k) + x := v];
      View(m', base, size, n)[r] == Poked(View(m, base, size, n), k, x, v)[r]
  {
    var m' := m[Address(base, size, k) + x := v];
    ViewAt(m, base, size, n, r);
    ViewAt(m', base, size, n, r);
    if r < k {
      AddressOrder(base, size, r, k);
    } else if k < r {
      AddressOrder(base, size, k, r);
    }
  }

  /** Records i and j after their first `done` bytes have been exchanged. */
  ghost function PartlySwapped(s: seq<Record>, size: nat, i: nat, j: nat, done: nat): (t: seq<Record>)
    requires Sized(s, size) && i < |s| && j < |s| && i != j && done <= size
    ensures |t| == |s| && Sized(t, size)
  {
    s[i := s[j][..done] + s[i][done..]][j := s[i][..done] + s[j][done..]]
  }

  lemma PartlySwappedEnds(s: seq<Record>, size: nat, i: nat, j: nat)
    requires Sized(s, size) && i < |s| && j < |s| && i != j
    ensures PartlySwapped(s, size, i, j, 0) == s
    ensures PartlySwapped(s, size, i, j, size) == Swapped(s, i, j)
  {
    assert s[j][..0] + s[i][0..] == s[i] && s[i][..0] + s[j][0..] == s[j];
    assert s[j][..size] + s[i][size..] == s[j] && s[i][..size] + s[j][size..] == s[i];
  }

  lemma PartlySwappedStep(s: seq<Record>, size: nat, i: nat, j: nat, done: nat)
    requires Sized(s, size) && i < |s| && j < |s| && i != j && done < size
    ensures var t := PartlySwapped(s, size, i, j, done);
      && t[i][done] == s[i][done] && t[j][done] == s[j][done]
      && Poked(Poked(t, i, done, s[j][done]), j, done, s[i][done]) == PartlySwapped(s, size, i, j, done + 1)
  {
    var t, t' := PartlySwapped(s, size, i, j, done), PartlySwapped(s, size, i, j, done + 1);
    var u := Poked(t, i, done, s[j][done]);
    assert u[i] == t'[i];
    assert Poked(u, j, done, s[i][done])[j] == t'[j];
  }

  /** The memory after `done` rounds of the exchange loop. */
  ghost predicate SwapState(m0: seq<byte>, m: seq<byte>, base: nat, size: nat, n: nat, i: nat, j: nat, done: nat) {
    && i < n && j < n && i != j && done <= size
    && Address(base, size, n) <= |m0| && SameOutside(m0, m, base, Address(base, size, n))
    && View(m, base, size, n) == PartlySwapped(View(m0, base, size, n), size, i, j, done)
  }

  lemma SwapStart(m: seq<byte>, base: nat, size: nat, n: nat, i: nat, j: nat)
    requires i < n && j < n && i != j && Address(base, size, n) <= |m|
    ensures SwapState(m, m, base, size, n, i, j, 0)
  {
    PartlySwappedEnds(View(m, base, size, n), size, i, j);
  }

  lemma SwapEnd(m0: seq<byte>, m: seq<byte>, base: nat, size: nat, n: nat, i: nat, j: nat)
    requires SwapState(m0, m, base, size, n, i, j, size)
    ensures Address(base, size, n) <= |m| && i < n && j < n && Address(base, size, n) <= |m0|
    ensures SameOutside(m0, m, base, Address(base, size, n))
    ensures View(m, base, size, n) == Swapped(View(m0, base, size, n), i, j)
  {
    PartlySwappedEnds(View(m0, base, size, n), size, i, j);
  }

  lemma SwapStep(m0: seq<byte>, m: seq<byte>, base: nat, size: nat, n: nat, i: nat, j: nat, done: nat)
    requires SwapState(m0, m, base, size, n, i, j, done) && done < size
    ensures var p, q := Address(base, size, i) + done, Address(base, size, j) + done;
      && p < |m| && q < |m| && p != q
      && SwapState(m0, m[p := m[q]][q := m[p]], base, size, n, i, j, done + 1)
  {
    hide View, Poked, PartlySwapped, Address, SameOutside;
    var s := View(m0, base, size, n);
    var p, q := Address(base, size, i) + done, Address(base, size, j) + done;
    SameOutsideLength(m0, m, base, Address(base, size, n));
    PartlySwappedStep(s, size, i, j, done);
    ViewAt(m, base, size, n, i);
    ViewAt(m, base, size, n, j);
    WriteByte(m, base, size, n, i, done, m[q]);
    WriteByte(m[p := m[q]], base, size, n, j, done, m[p]);
    SameOutsideTransitive(m0, m, m[p := m[q]], base, Address(base, size, n));
    SameOutsideTransitive(m0, m[p := m[q]], m[p := m[q]][q := m[p]], base, Address(base, size, n));
    if i < j {
      AddressOrder(base, size, i, j);
    } else {
      AddressOrder(base, size, j, i);
    }
  }

  /** Records h..k while byte lane x is being rotated from k downwards: the lane of record r is the
      next to be overwritten, and the lanes of r+1..k already hold their lower neighbours' bytes. */
  ghost predicate LaneShifted(s: seq<Record>, t: seq<Record>, size: nat, h: nat, k: nat, x: nat, r: nat) {
    && Sized(s, size) && Sized(t, size) && |s| == |t| && h <= r <= k < |s| && x < size
    && (forall i, y :: 0 <= i < |s| && 0 <= y < size && !(y == x && r < i <= k) ==> t[i][y] == s[i][y])
    && (forall i :: r < i <= k ==> t[i][x] == s[i-1][x])
  }

  /** All lanes from x on are rotated, the lanes below x not yet. */
  ghost predicate LanesRotated(s: seq<Record>, t: seq<Record>, size: nat, h: nat, k: nat, x: nat) {
    && Sized(s, size) && Sized(t, size) && |s| == |t| && h <= k < |s| && x <= size
    && (forall i, y :: 0 <= i < |s| && 0 <= y < x ==> t[i][y] == s[i][y])
    && (forall i, y :: 0 <= i < |s| && x <= y < size ==> t[i][y] == s[Source(h, k, i)][y])
  }

  /** Where the record at i comes from when k is moved down to h. */
  function Source(h: nat, k: nat, i: nat): nat
    requires h <= k
  {
    if i == h then k else if h < i <= k then i - 1 else i
  }

  lemma LaneShiftStep(s: seq<Record>, t: seq<Record>, size: nat, h: nat, k: nat, x: nat, r: nat)
    requires LaneShifted(s, t, size, h, k, x, r) && h < r
    ensures LaneShifted(s, Poked(t, r, x, t[r-1][x]), size, h, k, x, r - 1)
  {
  }

  lemma LaneDone(s: seq<Record>, t: seq<Record>, u: seq<Record>, size: nat, h: nat, k: nat, x: nat)
    requires x < size && LanesRotated(s, t, size, h, k, x + 1) && LaneShifted(t, u, size, h, k, x, h)
    ensures LanesRotated(s, Poked(u, h, x, t[k][x]), size, h, k, x)
  {
  }

  lemma LanesRotatedEnds(s: seq<Record>, t: seq<Record>, size: nat, h: nat, k: nat)
    requires h <= k < |s|
    ensures Sized(s, size) ==> LanesRotated(s, s, size, h, k, size)
    ensures LanesRotated(s, t, size, h, k, 0) ==> t == Rotated(s, h, k)
  {
    if LanesRotated(s, t, size, h, k, 0) {
      RotatedIsInsertion(s, h, k);
      forall i | 0 <= i < |s| ensures t[i] == Rotated(s, h, k)[i] {
        assert t[i] == s[Source(h, k, i)];
      }
    }
  }

  ghost predicate ShiftState(m0: seq<byte>, m: seq<byte>, base: nat, size: nat, n: nat, h: nat, k: nat, x: nat, r: nat) {
    && Address(base, size, n) <= |m0| && SameOutside(m0, m, base, Address(base, size, n))
    && LaneShifted(View(m0, base, size, n), View(m, base, size, n), size, h, k, x, r)
  }

  ghost predicate RotateState(m0: seq<byte>, m: seq<byte>, base: nat, size: nat, n: nat, h: nat, k: nat, x: nat) {
    && Address(base, size, n) <= |m0| && SameOutside(m0, m, base, Address(base, size, n))
    && LanesRotated(View(m0, base, size, n), View(m, base, size, n), size, h, k, x)
  }

  lemma RotateStart(m: seq<byte>, base: nat, size: nat, n: nat, h: nat, k: nat)
    requires Address(base, size, n) <= |m| && h <= k < n
    ensures RotateState(m, m, base, size, n, h, k, size)
  {
    LanesRotatedEnds(View(m, base, size, n), View(m, base, size, n), size, h, k);
  }

  lemma RotateBound(m0: seq<byte>, m: seq<byte>, base: nat, size: nat, n: nat, h: nat, k: nat, x: nat)
    requires RotateState(m0, m, base, size, n, h, k, x)
    ensures Address(base, size, n) <= |m|
  {
  }

  lemma ShiftStart(m: seq<byte>, base: nat, size: nat, n: nat, h: nat, k: nat, x: nat)
    requires Address(base, size, n) <= |m| && h <= k < n && x < size
    ensures ShiftState(m, m, base, size, n, h, k, x, k)
    ensures Address(base, size, k) + x < |m|
  {
    ViewAt(m, base, size, n, k);
  }

  lemma ShiftStep(m0: seq<byte>, m: seq<byte>, base: nat, size: nat, n: nat, h: nat, k: nat, x: nat, r: nat)
    requires ShiftState(m0, m, base, size, n, h, k, x, r) && h < r
    ensures var p, q := Address(base, size, r) + x, Address(base, size, r - 1) + x;
      && q + size == p < |m|
      && ShiftState(m0, m[p := m[q]], base, size, n, h, k, x, r - 1)
  {
    var p, q := Address(base, size, r) + x, Address(base, size, r - 1) + x;
    ViewAt(m, base, size, n, r - 1);
    ViewAt(m, base, size, n, r);
    WriteByte(m, base, size, n, r, x, m[q]);
    LaneShiftStep(View(m0, base, size, n), View(m, base, size, n), size, h, k, x, r);
  }

  lemma RotateStep(m0: seq<byte>, m1: seq<byte>, m: seq<byte>, base: nat, size: nat, n: nat, h: nat, k: nat, x: nat)
    requires RotateState(m0, m1, base, size, n, h, k, x + 1) && ShiftState(m1, m, base, size, n, h, k, x, h)
    ensures var p, q := Address(base, size, h) + x, Address(base, size, k) + x;
      && p < |m| && q < |m1|
      && RotateState(m0, m[p := m1[q]], base, size, n, h, k, x)
  {
    ViewAt(m, base, size, n, h);
    ViewAt(m1, base, size, n, k);
    WriteByte(m, base, size, n, h, x, m1[Address(base, size, k) + x]);
    LaneDone(View(m0, base, size, n), View(m1, base, size, n), View(m, base, size, n), size, h, k, x);
  }

  lemma RotateEnd(m0: seq<byte>, m: seq<byte>, base: nat, size: nat, n: nat, h: nat, k: nat)
    requires RotateState(m0, m, base, size, n, h, k, 0) && h <= k < n
    ensures Address(base, size, n) <= |m| && Address(base, size, n) <= |m0|
    ensures SameOutside(m0, m, base, Address(base, size, n))
    ensures View(m, base, size, n) == Rotated(View(m0, base, size, n), h, k)
  {
    LanesRotatedEnds(View(m0, base, size, n), View(m, base, size, n), size, h, k);
  }
}
