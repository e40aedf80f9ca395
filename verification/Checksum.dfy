/** The Internet checksum of net/net.c, against the one's complement sum of RFC 1071. */
module Checksum {
  import opened Machine

  /** Addition with end-around carry. */
  function OnesAdd(a: uint16, b: uint16): uint16 {
    if a + b > 0xFFFF then a + b - 0xFFFF else a + b
  }

  /** One's complement sum of the words (RFC 1071, section 1). */
  function OnesSum(words: seq<uint16>): uint16 {
    if words == [] then 0 else OnesAdd(OnesSum(words[..|words| - 1]), words[|words| - 1])
  }

  function Sum(words: seq<uint16>): nat {
    if words == [] then 0 else Sum(words[..|words| - 1]) + words[|words| - 1]
  }

  function Complement(x: uint16): uint16 {
    0xFFFF - x
  }

  /** Both folds, in 32-bit arithmetic, and the cut to 16 bits. */
  function Fold(sum: uint32): uint16 {
    var once := sum / 0x1_0000 + sum % 0x1_0000;
    ((once + once / 0x1_0000) % WORD) % 0x1_0000
  }

  function Computed(words: seq<uint16>): uint16 {
    Complement(Fold(Sum(words) % WORD))
  }

  /** NET_checksum */
  method NetChecksum(pw: seq<uint16>) returns (checksum: uint16)
    ensures checksum == Computed(pw)
    ensures |pw| <= 65537 ==> checksum == Complement(OnesSum(pw))
  {
    hide Sum, OnesSum, Complement;
    var sum: uint32 := 0;
    var i := 0;
    NoWords();
    while i < |pw|
      invariant i <= |pw| && sum == Sum(pw[..i]) % WORD
    {
      OneMore(pw, i);
      sum := (sum + pw[i]) % WORD;
      i := i + 1;
    }
    assert pw[..i] == pw;
    sum := sum / 0x1_0000 + sum % 0x1_0000;
    sum := (sum + sum / 0x1_0000) % WORD;
    checksum := Complement(sum % 0x1_0000);
    if |pw| <= 65537 {
      ComputedIsOnesComplement(pw);
    }
  }

  lemma NoWords()
    ensures Sum([]) == 0
  {
  }

  lemma OneMore(words: seq<uint16>, i: nat)
    requires i < |words|
    ensures Sum(words[..i + 1]) % WORD == (Sum(words[..i]) % WORD + words[i]) % WORD
  {
    assert words[..i + 1][..i] == words[..i];
  }

  // ---------- sums modulo 0xFFFF ----------

  /** The sixteen-bit number that stands for a sum: congruent to it, and 0 only for 0. */
  predicate StandsFor(r: uint16, sum: nat) {
    r % 0xFFFF == sum % 0xFFFF && (r == 0 <==> sum == 0)
  }

  lemma StandsForOne(r: uint16, r': uint16, sum: nat)
    requires StandsFor(r, sum) && StandsFor(r', sum)
    ensures r == r'
  {
  }

  lemma {:induction false} OnesSumStands(words: seq<uint16>)
    ensures StandsFor(OnesSum(words), Sum(words))
  {
    if words != [] {
      OnesSumStands(words[..|words| - 1]);
    }
  }

  lemma {:induction false} SumBound(words: seq<uint16>)
    ensures Sum(words) <= |words| * 0xFFFF
  {
    if words != [] {
      SumBound(words[..|words| - 1]);
    }
  }

  lemma FoldCarries(sum: uint32)
    ensures var t := sum / 0x1_0000 + sum % 0x1_0000;
      Fold(sum) == if t > 0xFFFF then t - 0xFFFF else t
  {
    var t := sum / 0x1_0000 + sum % 0x1_0000;
    assert t <= 2 * 0xFFFF;
    if t > 0xFFFF {
      assert t / 0x1_0000 == 1;
    } else {
      assert t / 0x1_0000 == 0;
    }
  }

  lemma FoldStands(sum: uint32)
    ensures StandsFor(Fold(sum), sum)
  {
    hide Fold;
    FoldCarries(sum);
    var h, l := sum / 0x1_0000, sum % 0x1_0000;
    assert sum == (h + l) + 0xFFFF * h;
    ModMultiple(h + l, h);
  }

  /** Two folds are enough for up to 65537 words. */
  lemma ComputedIsOnesComplement(words: seq<uint16>)
    requires |words| <= 65537
    ensures Computed(words) == Complement(OnesSum(words))
  {
    hide Fold, StandsFor, OnesSum, Sum;
    SumBound(words);
    OnesSumStands(words);
    FoldStands(Sum(words));
    StandsForOne(Fold(Sum(words)), OnesSum(words), Sum(words));
  }

  /** For any number of words: the result is right exactly when the 32-bit sum did not overflow, or
      overflowed a multiple of 65535 times without coming out as zero. */
  lemma ComputedExactly(words: seq<uint16>)
    ensures Computed(words) == Complement(OnesSum(words)) <==>
            Sum(words) / WORD % 0xFFFF == 0 && (Sum(words) > 0 ==> Sum(words) % WORD > 0)
  {
    hide Fold, OnesSum, Sum, StandsFor;
    OnesSumStands(words);
    FoldStands(Sum(words) % WORD);
    SameExactly(OnesSum(words), Fold(Sum(words) % WORD), Sum(words));
  }

  lemma SameExactly(r: uint16, r': uint16, s: nat)
    requires StandsFor(r, s) && StandsFor(r', s % WORD)
    ensures r == r' <==> s / WORD % 0xFFFF == 0 && (s > 0 ==> s % WORD > 0)
  {
    var h := s / WORD;
    assert s == h * WORD + s % WORD;
    ModSum(h, s % WORD);
  }

  lemma {:induction false} SumOfOnes(words: seq<uint16>)
    requires forall i :: 0 <= i < |words| ==> words[i] == 0xFFFF
    ensures Sum(words) == |words| * 0xFFFF
  {
    if words != [] {
      SumOfOnes(words[..|words| - 1]);
    }
  }

  /** One word more is too many: the 32-bit sum of 65538 words of ones overflows, and the result is wrong. */
  lemma TooManyWords()
    ensures var words: seq<uint16> := seq(65538, _ => 0xFFFF); Computed(words) != Complement(OnesSum(words))
  {
    hide Computed, OnesSum, Sum, Complement;
    var words: seq<uint16> := seq(65538, _ => 0xFFFF);
    SumOfOnes(words);
    ComputedExactly(words);
    assert 65538 * 0xFFFF / WORD == 1;
  }

  lemma ModSum(h: nat, l: nat)
    ensures (h * WORD + l) % 0xFFFF == (h % 0xFFFF + l) % 0xFFFF
  {
    assert h * WORD + l == (h % 0xFFFF + l) + 0xFFFF * (65537 * h + h / 0xFFFF);
    ModMultiple(h % 0xFFFF + l, 65537 * h + h / 0xFFFF);
  }

  lemma {:induction false} ModMultiple(x: nat, k: nat)
    ensures (x + 0xFFFF * k) % 0xFFFF == x % 0xFFFF
  {
    if k > 0 {
      ModMultiple(x, k - 1);
      assert x + 0xFFFF * k == (x + 0xFFFF * (k - 1)) + 0xFFFF;
    }
  }

  // ---------- filling in and checking ----------

  lemma {:induction false} SumUpdate(words: seq<uint16>, k: nat, v: uint16)
    requires k < |words|
    ensures Sum(words[k := v]) == Sum(words) - words[k] + v
  {
    var n := |words| - 1;
    if k < n {
      SumUpdate(words[..n], k, v);
      assert words[k := v][..n] == words[..n][k := v];
    } else {
      assert words[k := v][..n] == words[..n];
    }
  }

  /** A segment whose checksum field was zero and has been filled in checks as 0. */
  lemma FilledChecks(words: seq<uint16>, k: nat)
    requires k < |words| <= 65537 && words[k] == 0
    ensures Computed(words[k := Computed(words)]) == 0
  {
    hide Fold, OnesSum, Sum, StandsFor, Complement;
    var c := Computed(words);
    SumUpdate(words, k, c);
    ComputedIsOnesComplement(words);
    ComputedIsOnesComplement(words[k := c]);
    OnesSumStands(words);
    OnesSumStands(words[k := c]);
    AddComplement(Sum(words), OnesSum(words));
    ZeroComplement(OnesSum(words[k := c]), Sum(words[k := c]));
  }

  lemma ZeroComplement(r: uint16, s: nat)
    requires StandsFor(r, s)
    ensures Complement(r) == 0 <==> s > 0 && s % 0xFFFF == 0
  {
  }

  lemma AddComplement(s: nat, r: uint16)
    requires StandsFor(r, s)
    ensures (s + Complement(r)) % 0xFFFF == 0 && s + Complement(r) > 0
  {
  }

  /** A segment checks as 0 exactly when its words add up to a positive multiple of 65535. */
  lemma ChecksExactly(words: seq<uint16>)
    requires |words| <= 65537
    ensures Computed(words) == 0 <==> Sum(words) > 0 && Sum(words) % 0xFFFF == 0
  {
    ComputedIsOnesComplement(words);
    OnesSumStands(words);
    ZeroComplement(OnesSum(words), Sum(words));
  }

  /** One changed word in a segment that checks is noticed, except 0 for 0xFFFF or the reverse next to
      other words that are not all 0. */
  lemma OneWordNoticed(words: seq<uint16>, k: nat, v: uint16)
    requires k < |words| <= 65537 && v != words[k] && Computed(words) == 0
    ensures Computed(words[k := v]) == 0 <==> {v, words[k]} == {0, 0xFFFF} && Sum(words[k := v]) > 0
  {
    ChecksExactly(words);
    ChecksExactly(words[k := v]);
    SumUpdate(words, k, v);
    SameRest(Sum(words), words[k], v);
  }

  lemma SameRest(s: nat, w: uint16, v: uint16)
    requires s % 0xFFFF == 0 && w <= s && v != w
    ensures (s - w + v) % 0xFFFF == 0 <==> {v, w} == {0, 0xFFFF}
  {
    if {v, w} == {0, 0xFFFF} {
      assert v in {v, w} && w in {v, w};
    }
  }

  // ---------- byte order ----------

  function SwapBytes(x: uint16): uint16 {
    x % 256 * 256 + x / 256
  }

  function BytesSwapped(words: seq<uint16>): seq<uint16> {
    seq(|words|, i requires 0 <= i < |words| => SwapBytes(words[i]))
  }

  lemma SwapIsTimes256(x: uint16)
    ensures SwapBytes(x) % 0xFFFF == x * 256 % 0xFFFF
  {
    assert x * 256 == SwapBytes(x) + 0xFFFF * (x / 256);
    ModMultiple(SwapBytes(x), x / 256);
  }

  lemma {:induction false} SumSwapped(words: seq<uint16>)
    ensures Sum(BytesSwapped(words)) % 0xFFFF == Sum(words) * 256 % 0xFFFF
    ensures Sum(BytesSwapped(words)) == 0 <==> Sum(words) == 0
  {
    if words != [] {
      var n := |words| - 1;
      SumSwapped(words[..n]);
      SwapIsTimes256(words[n]);
      assert BytesSwapped(words)[..n] == BytesSwapped(words[..n]);
      SwapStep(Sum(words[..n]), Sum(BytesSwapped(words[..n])), words[n], SwapBytes(words[n]));
    }
  }

  lemma SwapStep(s: nat, s': nat, x: nat, x': nat)
    requires s' % 0xFFFF == s * 256 % 0xFFFF && x' % 0xFFFF == x * 256 % 0xFFFF
    ensures (s' + x') % 0xFFFF == (s + x) * 256 % 0xFFFF
  {
    ModAdd(s', s * 256, x', x * 256);
    assert (s + x) * 256 == s * 256 + x * 256;
  }

  lemma ModAdd(a: nat, a': nat, b: nat, b': nat)
    requires a % 0xFFFF == a' % 0xFFFF && b % 0xFFFF == b' % 0xFFFF
    ensures (a + b) % 0xFFFF == (a' + b') % 0xFFFF
  {
    var r := a % 0xFFFF + b % 0xFFFF;
    ModMultiple(r, a / 0xFFFF + b / 0xFFFF);
    ModMultiple(r, a' / 0xFFFF + b' / 0xFFFF);
    assert a + b == r + 0xFFFF * (a / 0xFFFF + b / 0xFFFF);
    assert a' + b' == r + 0xFFFF * (a' / 0xFFFF + b' / 0xFFFF);
  }

  lemma SwapStands(r: uint16, s: nat, s': nat)
    requires StandsFor(r, s) && s' % 0xFFFF == s * 256 % 0xFFFF && (s' == 0 <==> s == 0)
    ensures StandsFor(SwapBytes(r), s') && SwapBytes(Complement(r)) == Complement(SwapBytes(r))
  {
    hide SwapBytes, Complement;
    SwapIsTimes256(r);
    Times256(r, s);
    SwapZero(r);
    SwapComplement(r);
  }

  lemma SwapZero(r: uint16)
    ensures SwapBytes(r) == 0 <==> r == 0
  {
  }

  lemma SwapComplement(r: uint16)
    ensures SwapBytes(Complement(r)) == Complement(SwapBytes(r))
  {
    var h, l := r / 256, r % 256;
    Halves(0xFFFF - r, 255 - h, 255 - l);
    Halves(0xFFFF - SwapBytes(r), 255 - l, 255 - h);
  }

  /** The high and the low byte of a word. */
  lemma Halves(x: nat, h: int, l: int)
    requires x == h * 256 + l && 0 <= l < 256
    ensures x / 256 == h && x % 256 == l
  {
  }

  /** Swapping the bytes of every word swaps the bytes of the result (RFC 1071, section 2 (B)). */
  lemma SwapCommutes(words: seq<uint16>)
    requires |words| <= 65537
    ensures Computed(BytesSwapped(words)) == SwapBytes(Computed(words))
  {
    hide Fold, StandsFor, OnesSum, Sum, SwapBytes, Complement, BytesSwapped, Computed;
    var r := OnesSum(words);
    ComputedIsOnesComplement(words);
    SwappedLength(words);
    ComputedIsOnesComplement(BytesSwapped(words));
    OnesSumStands(words);
    OnesSumStands(BytesSwapped(words));
    SumSwapped(words);
    SwapStands(r, Sum(words), Sum(BytesSwapped(words)));
    StandsForOne(SwapBytes(r), OnesSum(BytesSwapped(words)), Sum(BytesSwapped(words)));
  }

  lemma SwappedLength(words: seq<uint16>)
    ensures |BytesSwapped(words)| == |words|
  {
  }

  lemma Times256(a: nat, b: nat)
    requires a % 0xFFFF == b % 0xFFFF
    ensures a * 256 % 0xFFFF == b * 256 % 0xFFFF
  {
    ModMultiple(a % 0xFFFF * 256, a / 0xFFFF * 256);
    ModMultiple(b % 0xFFFF * 256, b / 0xFFFF * 256);
    assert a * 256 == a % 0xFFFF * 256 + 0xFFFF * (a / 0xFFFF * 256);
    assert b * 256 == b % 0xFFFF * 256 + 0xFFFF * (b / 0xFFFF * 256);
  }
}
