/** The bits of small words, and lists of those that are set. */
module Bits {
  import opened Machine

  function Pow2(k: nat): (p: nat)
    ensures p > 0
  {
    if k == 0 then 1 else 2 * Pow2(k - 1)
  }

  predicate Bit(p: nat, k: nat) {
    p / Pow2(k) % 2 == 1
  }

  /** The byte2msbit table. */
  function Byte2MsBit(p: byte): (k: nat)
    ensures k < 8
  {
    if p < 2 then 0 else if p < 4 then 1 else if p < 8 then 2 else if p < 16 then 3
    else if p < 32 then 4 else if p < 64 then 5 else if p < 128 then 6 else 7
  }

  /** The word with bit k inverted. */
  function FlipBit(p: nat, k: nat): (r: int) {
    if Bit(p, k) then p - Pow2(k) else p + Pow2(k)
  }

  lemma {:induction false} PowMono(i: nat, j: nat)
    requires i <= j
    ensures Pow2(i) <= Pow2(j)
  {
    if i < j {
      PowMono(i, j - 1);
    }
  }

  lemma {:induction false} PowSum(i: nat, j: nat)
    ensures Pow2(i + j) == Pow2(i) * Pow2(j)
  {
    if j > 0 {
      PowSum(i, j - 1);
      assert Pow2(i + j) == 2 * (Pow2(i) * Pow2(j - 1));
    }
  }

  lemma EightPowers()
    ensures Pow2(1) == 2 && Pow2(2) == 4 && Pow2(3) == 8 && Pow2(4) == 16
    ensures Pow2(5) == 32 && Pow2(6) == 64 && Pow2(7) == 128 && Pow2(8) == 256
  {
    assert Pow2(4) == 2 * Pow2(3);
    assert Pow2(8) == 2 * Pow2(7);
  }

  /** The most significant bit of a byte that is not 0. */
  lemma MsBitIs(p: byte)
    requires p > 0
    ensures var k := Byte2MsBit(p); Pow2(k) <= p < 2 * Pow2(k) && Bit(p, k)
  {
    EightPowers();
    var k := Byte2MsBit(p);
    QuotientIs(p, 1, p - Pow2(k), Pow2(k));
  }

  lemma SmallHasNoBit(p: nat, k: nat)
    requires p < Pow2(k)
    ensures !Bit(p, k)
  {
    QuotientIs(p, 0, p, Pow2(k));
  }

  /** Taking an even multiple of 2^k away leaves bit k alone. */
  lemma EvenMultiple(p: nat, c: nat, d: nat)
    requires d > 0 && 2 * (c * d) <= p
    ensures (p - 2 * (c * d)) / d % 2 == p / d % 2
  {
    var q := p / d;
    assert p == q * d + p % d;
    assert p - 2 * (c * d) == (q - 2 * c) * d + p % d;
    QuotientIs(p - 2 * (c * d), q - 2 * c, p % d, d);
  }

  lemma QuotientIs(x: int, q: int, r: nat, d: nat)
    requires x == q * d + r && r < d
    ensures x / d == q
  {
    var e := x / d - q;
    assert x == x / d * d + x % d;
    assert e * d == r - x % d;
    ProductOutside(e, d);
  }

  lemma ProductOutside(e: int, d: int)
    requires d >= 0
    ensures e >= 1 ==> e * d >= d
    ensures e <= -1 ==> e * d <= -d
  {
  }

  /** Taking a higher bit away leaves bit k alone. */
  lemma LowerBitKept(p: nat, m: nat, k: nat)
    requires k < m && Pow2(m) <= p
    ensures Bit(p - Pow2(m), k) <==> Bit(p, k)
  {
    PowSum(m - k - 1, k);
    EvenMultiple(p, Pow2(m - k - 1), Pow2(k));
  }

  /** The set bits in the order the dispatcher takes them: the most significant one first. */
  function Ones(p: byte): (ks: seq<nat>)
    decreases p
  {
    if p == 0 then []
    else
      MsBitIs(p);
      [Byte2MsBit(p)] + Ones(p - Pow2(Byte2MsBit(p)))
  }

  ghost predicate Descending(ks: seq<nat>) {
    forall i, j :: 0 <= i < j < |ks| ==> ks[i] > ks[j]
  }

  /** Each set bit once, from the highest to the lowest, and nothing else. */
  lemma {:induction false} OnesAreBits(p: byte)
    ensures Descending(Ones(p))
    ensures forall k :: k in Ones(p) <==> k < 8 && Bit(p, k)
    decreases p
  {
    if p == 0 {
      forall k: nat ensures !Bit(p, k) {
        SmallHasNoBit(p, k);
      }
    } else {
      var m := Byte2MsBit(p);
      MsBitIs(p);
      var rest: byte := p - Pow2(m);
      OnesAreBits(rest);
      forall k: nat ensures k in Ones(p) <==> k < 8 && Bit(p, k) {
        if k < m {
          LowerBitKept(p, m, k);
        } else {
          SmallerThanBit(rest, m, k);
          if k > m {
            SmallerThanBit(p, m + 1, k);
          }
        }
      }
      forall j | 0 <= j < |Ones(rest)| ensures m > Ones(rest)[j] {
        var k := Ones(rest)[j];
        assert k in Ones(rest);
        if k >= m {
          SmallerThanBit(rest, m, k);
        }
      }
    }
  }

  lemma SmallerThanBit(p: nat, m: nat, k: nat)
    requires p < Pow2(m) && m <= k
    ensures !Bit(p, k)
  {
    PowMono(m, k);
    SmallHasNoBit(p, k);
  }

  /** Bitwise and of the lowest n bits. */
  function And(a: nat, b: nat, n: nat): (r: nat)
    ensures r < Pow2(n)
  {
    if n == 0 then 0 else 2 * And(a / 2, b / 2, n - 1) + (a % 2) * (b % 2)
  }

  lemma {:induction false} HalfBit(p: nat, k: nat)
    ensures Bit(p, k + 1) <==> Bit(p / 2, k)
  {
    HalfQuotient(p, Pow2(k));
  }

  lemma HalfQuotient(p: nat, d: nat)
    requires d > 0
    ensures p / (2 * d) == p / 2 / d
  {
    var h := p / 2;
    var q, r := h / d, h % d;
    assert h == q * d + r;
    assert p == 2 * h + p % 2;
    assert p == q * (2 * d) + (2 * r + p % 2);
    QuotientIs(p, q, 2 * r + p % 2, 2 * d);
  }

  lemma OddAnd(x: nat, y: nat, a: nat, b: nat)
    requires y == 2 * x + (a % 2) * (b % 2)
    ensures y / 2 == x && (y % 2 == 1 <==> a % 2 == 1 && b % 2 == 1)
  {
    if a % 2 == 1 {
      assert (a % 2) * (b % 2) == b % 2;
    } else {
      assert (a % 2) * (b % 2) == 0;
    }
  }

  lemma {:induction false} AndBits(a: nat, b: nat, n: nat, k: nat)
    requires k < n
    ensures Bit(And(a, b, n), k) <==> Bit(a, k) && Bit(b, k)
  {
    var r := And(a, b, n);
    OddAnd(And(a / 2, b / 2, n - 1), r, a, b);
    if k == 0 {
      LowestBit(r);
      LowestBit(a);
      LowestBit(b);
    } else {
      hide Bit, And;
      HalfBit(r, k - 1);
      HalfBit(a, k - 1);
      HalfBit(b, k - 1);
      AndBits(a / 2, b / 2, n - 1, k - 1);
    }
  }

  lemma LowestBit(p: nat)
    ensures Bit(p, 0) <==> p % 2 == 1
  {
  }

  /** Bit k of byte j of a word is bit 8 j + k of the word. */
  lemma ByteBit(p: nat, j: nat, k: nat)
    requires k < 8
    ensures Bit(p / Pow2(8 * j) % 256, k) <==> Bit(p, 8 * j + k)
  {
    var d := Pow2(8 * j);
    var x := p / d;
    PowSum(8 * j, k);
    DivideTwice(p, d, Pow2(k));
    PowSum(8 - k - 1, k);
    EightPowers();
    var c := x / 256 * Pow2(8 - k - 1);
    assert Pow2(7) == Pow2(8 - k - 1) * Pow2(k);
    assert 2 * (c * Pow2(k)) == x / 256 * 256 by { Triple(x / 256, Pow2(8 - k - 1), Pow2(k)); }
    EvenMultiple(x, c, Pow2(k));
    assert x - x / 256 * 256 == x % 256;
  }

  lemma Triple(a: nat, b: nat, c: nat)
    ensures a * b * c == a * (b * c)
  {
  }

  lemma DivideTwice(p: nat, d: nat, e: nat)
    requires d > 0 && e > 0
    ensures d * e > 0 && p / (d * e) == p / d / e
  {
    var h := p / d;
    var q, r, s := h / e, h % e, p % d;
    Scale(1, d, e);
    DivideParts(p, h, q, r, s, d, e);
  }

  lemma DivideParts(p: nat, h: nat, q: nat, r: nat, s: nat, d: nat, e: nat)
    requires h == q * e + r && p == h * d + s && r < e && s < d && d * e > 0
    ensures p / (d * e) == q
  {
    Remainder(r, e, s, d);
    Expand(q, e, r, d);
    assert d * e == e * d;
    QuotientIs(p, q, r * d + s, d * e);
  }

  lemma Expand(q: nat, e: nat, r: nat, d: nat)
    ensures (q * e + r) * d == q * (d * e) + r * d
  {
  }

  lemma Remainder(r: nat, e: nat, s: nat, d: nat)
    requires r < e && s < d
    ensures r * d + s < e * d
  {
    assert (r + 1) * d == r * d + d;
    Scale(r + 1, e, d);
  }

  lemma Scale(a: nat, b: nat, d: nat)
    requires a <= b
    ensures a * d <= b * d
  {
  }
}
