/** The unsigned machine arithmetic the tree code relies on, written out on natural numbers:
    shifts, exclusive or, masks, leading and trailing zeros, and the facts about them that make a
    leaf index usable as a path from a leaf to the root. */
module Bits {

  const TWO_32: nat := 0x1_0000_0000
  const TWO_64: nat := 0x1_0000_0000_0000_0000

  function Pow2(k: nat): (p: nat)
    ensures p >= 1
  {
    if k == 0 then 1 else 2 * Pow2(k - 1)
  }

  /** `i >> l` */
  function Shr(i: nat, l: nat): nat {
    if l == 0 then i else Shr(i, l - 1) / 2
  }

  /** The other child of the same parent: positions 2k and 2k+1 are siblings. */
  function Sib(k: nat): nat {
    if k % 2 == 0 then k + 1 else k - 1
  }

  /** `a ^ b` */
  function Xor(a: nat, b: nat): nat {
    if a == 0 && b == 0 then 0
    else 2 * Xor(a / 2, b / 2) + (if a % 2 == b % 2 then 0 else 1)
  }

  /** `a & b` */
  function And(a: nat, b: nat): nat {
    if a == 0 || b == 0 then 0
    else 2 * And(a / 2, b / 2) + (if a % 2 == 1 && b % 2 == 1 then 1 else 0)
  }

  /** `x << p` without a width */
  function Shl(x: nat, p: nat): nat {
    if p == 0 then x else 2 * Shl(x, p - 1)
  }

  /** `x << p` on u32: the bits pushed past bit 31 are dropped. */
  function Shl32(x: nat, p: nat): nat {
    Shl(x, p) % TWO_32
  }

  function BitLength(x: nat): nat {
    if x == 0 then 0 else 1 + BitLength(x / 2)
  }

  /** `x.leading_zeros()` on u32; negative only for an x that does not fit. */
  function LeadingZeros32(x: nat): int {
    32 - BitLength(x)
  }

  /** `x.trailing_zeros()` on u32 */
  function TrailingZeros32(x: nat): nat {
    if x == 0 then 32 else if x % 2 == 1 then 0 else 1 + TrailingZeros32(x / 2)
  }

  /** floor(log2(x)) */
  function Log2(x: nat): nat
    requires x > 0
  {
    if x == 1 then 0 else 1 + Log2(x / 2)
  }

  predicate IsPow2(n: nat) {
    n > 0 && And(n, n - 1) == 0
  }

  /** The low d bits of an index, `i % 2^d`: the leaf position it addresses in a tree of depth d. */
  function Low(i: nat, d: nat): (p: nat)
    ensures p < Pow2(d)
  {
    if d == 0 then 0 else 2 * Low(i / 2, d - 1) + i % 2
  }

  // ----- shifts

  lemma {:induction false} ShrHalf(i: nat, l: nat)
    requires l > 0
    ensures Shr(i, l) == Shr(i / 2, l - 1)
  {
    if l > 1 {
      ShrHalf(i, l - 1);
    }
  }

  lemma {:induction false} ShrBound(i: nat, d: nat, l: nat)
    requires i < Pow2(d) && l <= d
    ensures Shr(i, l) < Pow2(d - l)
  {
    if l > 0 {
      ShrBound(i, d, l - 1);
      assert Pow2(d - (l - 1)) == 2 * Pow2(d - l);
    }
  }

  lemma {:induction false} ShrMonotone(i: nat, j: nat, l: nat)
    requires i <= j
    ensures Shr(i, l) <= Shr(j, l)
  {
    if l > 0 {
      ShrMonotone(i, j, l - 1);
    }
  }

  lemma {:induction false} Pow2Add(a: nat, b: nat)
    ensures Pow2(a + b) == Pow2(a) * Pow2(b)
  {
    if a > 0 {
      Pow2Add(a - 1, b);
      assert a + b - 1 == (a - 1) + b;
    }
  }

  lemma {:induction false} Pow2Monotone(a: nat, b: nat)
    requires a <= b
    ensures Pow2(a) <= Pow2(b)
    decreases b - a
  {
    if a < b {
      Pow2Monotone(a + 1, b);
      assert Pow2(a + 1) == 2 * Pow2(a);
    }
  }

  lemma Pow2Known()
    ensures Pow2(30) == 0x4000_0000 && Pow2(31) == 0x8000_0000 && Pow2(32) == TWO_32
  {
    assert Pow2(8) == 256;
    assert Pow2(16) == 0x1_0000 by { Pow2Add(8, 8); }
    assert Pow2(32) == TWO_32 by { Pow2Add(16, 16); }
    assert Pow2(32) == 2 * Pow2(31);
    assert Pow2(31) == 2 * Pow2(30);
  }

  /** A 2^d on top of an index is shifted along with it. */
  lemma {:induction false} ShrAddPow2(i: nat, d: nat, l: nat)
    requires l <= d
    ensures Shr(Pow2(d) + i, l) == Pow2(d - l) + Shr(i, l)
  {
    if l > 0 {
      ShrAddPow2(i, d, l - 1);
      assert Pow2(d - (l - 1)) == 2 * Pow2(d - l);
    }
  }

  /** Below level d, an index and its low d bits have the same bits. */
  lemma {:induction false} LowBits(i: nat, d: nat, l: nat)
    requires l < d
    ensures Shr(i, l) % 2 == Shr(Low(i, d), l) % 2
  {
    if l > 0 {
      ShrHalf(i, l);
      ShrHalf(Low(i, d), l);
      LowBits(i / 2, d - 1, l - 1);
    }
  }

  lemma {:induction false} LowSmall(i: nat, d: nat)
    requires i < Pow2(d)
    ensures Low(i, d) == i
  {
    if d > 0 {
      LowSmall(i / 2, d - 1);
    }
  }

  lemma {:induction false} LowSplit(i: nat, d: nat) returns (q: nat)
    ensures i == q * Pow2(d) + Low(i, d)
  {
    if d == 0 {
      q := i;
    } else {
      q := LowSplit(i / 2, d - 1);
      assert q * Pow2(d) == 2 * (q * Pow2(d - 1));
    }
  }

  lemma DivMod(a: nat, m: nat) returns (q: nat, r: nat)
    requires m > 0
    ensures q == a / m && r == a % m
    ensures a == q * m + r && r < m
  {
    q, r := a / m, a % m;
  }

  lemma LowIsMod(i: nat, d: nat)
    ensures Low(i, d) == i % Pow2(d)
    ensures i == i / Pow2(d) * Pow2(d) + Low(i, d)
  {
    var q := LowSplit(i, d);
    ModUnique(i, Pow2(d), q, Low(i, d));
  }

  // ----- masks

  lemma {:induction false} AndMaskLow(a: nat, k: nat)
    ensures And(a, Pow2(k) - 1) == Low(a, k)
  {
    if k > 0 {
      assert (Pow2(k) - 1) / 2 == Pow2(k - 1) - 1;
      AndMaskLow(a / 2, k - 1);
      if a == 0 {
        LowSmall(0, k);
      }
    }
  }

  /** Masking with 2^k - 1 is reduction modulo 2^k. */
  lemma AndMask(a: nat, k: nat)
    ensures And(a, Pow2(k) - 1) == a % Pow2(k)
  {
    AndMaskLow(a, k);
    LowIsMod(a, k);
  }

  lemma AtLeastOneMultiple(a: nat, m: nat)
    requires a >= 1
    ensures a * m >= m
  {
  }

  lemma QuotientOrder(m: nat, q: nat, r: nat, q': nat, r': nat)
    requires r < m && r' < m && q * m + r == q' * m + r'
    ensures q <= q'
  {
    assert (q - q') * m == r' - r;
    if q > q' {
      AtLeastOneMultiple(q - q', m);
    }
  }

  lemma ModUnique(a: nat, m: nat, q: nat, r: nat)
    requires m > 0 && r < m && a == q * m + r
    ensures a % m == r && a / m == q
  {
    QuotientOrder(m, q, r, a / m, a % m);
    QuotientOrder(m, a / m, a % m, q, r);
  }

  /** x & (x - 1) == 0 recognises exactly the powers of two. */
  lemma {:induction false} IsPow2Exact(n: nat)
    requires n > 0
    ensures IsPow2(n) <==> n == Pow2(Log2(n))
  {
    if n > 1 {
      IsPow2Exact(n / 2);
      if n % 2 == 0 {
        assert (n - 1) / 2 == n / 2 - 1;
        assert And(n, n - 1) == 2 * And(n / 2, n / 2 - 1);
      } else {
        assert (n - 1) / 2 == n / 2;
        AndSelf(n / 2);
        assert And(n, n - 1) == 2 * And(n / 2, n / 2);
      }
    }
  }

  lemma IsPow2OfPow2(k: nat)
    ensures IsPow2(Pow2(k))
  {
    Log2Pow2(k);
    IsPow2Exact(Pow2(k));
  }

  lemma {:induction false} AndSelf(n: nat)
    ensures And(n, n) == n
  {
    if n > 0 {
      AndSelf(n / 2);
    }
  }

  lemma {:induction false} Log2Pow2(k: nat)
    ensures Log2(Pow2(k)) == k
  {
    if k > 0 {
      Log2Pow2(k - 1);
    }
  }

  lemma {:induction false} Log2Bounds(n: nat)
    requires n > 0
    ensures Pow2(Log2(n)) <= n < 2 * Pow2(Log2(n))
  {
    if n > 1 {
      Log2Bounds(n / 2);
    }
  }

  lemma {:induction false} Log2Unique(n: nat, k: nat)
    requires Pow2(k) <= n < Pow2(k + 1)
    ensures Log2(n) == k
  {
    if k > 0 {
      assert Pow2(k) == 2 * Pow2(k - 1);
      assert Pow2(k + 1) == 2 * Pow2(k);
      Log2Unique(n / 2, k - 1);
    }
  }

  lemma {:induction false} BitLengthLog2(n: nat)
    requires n > 0
    ensures BitLength(n) == Log2(n) + 1
  {
    if n > 1 {
      BitLengthLog2(n / 2);
    }
  }

  lemma {:induction false} TrailingZerosPow2(k: nat)
    ensures TrailingZeros32(Pow2(k)) == k
  {
    if k > 0 {
      TrailingZerosPow2(k - 1);
    }
  }

  // ----- critical bit

  /** `(D - 1) - ((a ^ b) << (32 - D)).leading_zeros()`, the level at which the paths of two leaves
      meet; negative when the low D bits of the indices agree. */
  function CritBit(a: nat, b: nat, d: nat): int
    requires d <= 32
  {
    d - 1 - LeadingZeros32(Shl32(Xor(a, b), 32 - d))
  }

  lemma {:induction false} BitLengthShift(x: nat, p: nat)
    ensures BitLength(Shl(x, p)) == if x == 0 then 0 else BitLength(x) + p
    ensures Shl(x, p) == 0 <==> x == 0
  {
    if p > 0 {
      BitLengthShift(x, p - 1);
    }
  }

  lemma {:induction false} LowOfShl(x: nat, d: nat, p: nat)
    ensures Low(Shl(x, p), d + p) == Shl(Low(x, d), p)
  {
    if p > 0 {
      LowOfShl(x, d, p - 1);
      LowUnfold(Shl(x, p), d + p);
    }
  }

  lemma ShlDropsHighBits(x: nat, d: nat)
    requires d <= 32
    ensures Shl32(x, 32 - d) == Shl(Low(x, d), 32 - d)
  {
    Pow2Known();
    LowOfShl(x, d, 32 - d);
    LowIsMod(Shl(x, 32 - d), 32);
  }

  lemma LowUnfold(a: nat, d: nat)
    requires d > 0
    ensures Low(a, d) / 2 == Low(a / 2, d - 1) && Low(a, d) % 2 == a % 2
  {
  }

  lemma XorHalves(a: nat, b: nat)
    ensures Xor(a, b) / 2 == Xor(a / 2, b / 2)
    ensures Xor(a, b) % 2 == if a % 2 == b % 2 then 0 else 1
  {
    XorUnfold(a, b);
  }

  lemma EqualByHalves(a: nat, b: nat)
    requires a / 2 == b / 2 && a % 2 == b % 2
    ensures a == b
  {
  }

  lemma {:induction false} XorLow(a: nat, b: nat, d: nat)
    ensures Low(Xor(a, b), d) == Xor(Low(a, d), Low(b, d))
  {
    if d > 0 {
      XorLow(a / 2, b / 2, d - 1);
      XorHalves(a, b);
      LowUnfold(a, d);
      LowUnfold(b, d);
      LowUnfold(Xor(a, b), d);
      XorHalves(Low(a, d), Low(b, d));
      EqualByHalves(Low(Xor(a, b), d), Xor(Low(a, d), Low(b, d)));
    }
  }

  lemma XorUnfold(a: nat, b: nat)
    ensures Xor(a, b) == 2 * Xor(a / 2, b / 2) + (if a % 2 == b % 2 then 0 else 1)
  {
  }

  lemma {:induction false} XorZero(a: nat, b: nat)
    ensures Xor(a, b) == 0 <==> a == b
  {
    if a != 0 || b != 0 {
      XorZero(a / 2, b / 2);
    }
  }

  /** Where two different positions' paths are siblings: exactly at the top differing bit. */
  lemma {:induction false} TopBitIsSiblingLevel(a: nat, b: nat, l: nat)
    requires a != b
    ensures BitLength(Xor(a, b)) >= 1
    ensures Shr(a, l) == Sib(Shr(b, l)) <==> l == BitLength(Xor(a, b)) - 1
    ensures l >= BitLength(Xor(a, b)) ==> Shr(a, l) == Shr(b, l)
    decreases a + b
  {
    XorZero(a, b);
    if a / 2 == b / 2 {
      XorZero(a / 2, b / 2);
      assert Xor(a, b) == 1;
      assert BitLength(1) == 1 + BitLength(0);
      if l > 0 {
        ShrHalf(a, l);
        ShrHalf(b, l);
      }
    } else {
      XorZero(a / 2, b / 2);
      XorUnfold(a, b);
      assert Xor(a, b) / 2 == Xor(a / 2, b / 2);
      assert BitLength(Xor(a, b)) == 1 + BitLength(Xor(a / 2, b / 2));
      if l > 0 {
        ShrHalf(a, l);
        ShrHalf(b, l);
        TopBitIsSiblingLevel(a / 2, b / 2, l - 1);
      } else {
        TopBitIsSiblingLevel(a / 2, b / 2, 0);
      }
    }
  }

  /** Shift and leading zeros together select the top differing bit of the low bits. */
  lemma CritBitIsTopBit(a: nat, b: nat, d: nat)
    requires d <= 32
    ensures Low(a, d) == Low(b, d) ==> CritBit(a, b, d) < 0
    ensures Low(a, d) != Low(b, d) ==> CritBit(a, b, d) == BitLength(Xor(Low(a, d), Low(b, d))) - 1
  {
    var x := Xor(a, b);
    XorLow(a, b, d);
    XorZero(Low(a, d), Low(b, d));
    ShlDropsHighBits(x, d);
    BitLengthShift(Low(x, d), 32 - d);
  }

  /** The patching level computed with shift and leading zeros is the one level where the path of
      one leaf runs through the proof of the other; on equal low bits there is none. */
  lemma CritBitExact(a: nat, b: nat, d: nat)
    requires d <= 32
    ensures Low(a, d) == Low(b, d) ==> CritBit(a, b, d) < 0
    ensures Low(a, d) != Low(b, d) ==> 0 <= CritBit(a, b, d) < d
    ensures Low(a, d) != Low(b, d) ==>
              forall l: nat :: Shr(Low(a, d), l) == Sib(Shr(Low(b, d), l)) <==> l == CritBit(a, b, d)
  {
    CritBitIsTopBit(a, b, d);
    if Low(a, d) != Low(b, d) {
      XorLow(a, b, d);
      BitLengthBound(Low(Xor(a, b), d), d);
      TopBitIsSiblingLevel(Low(a, d), Low(b, d), 0);
      forall l: nat
        ensures Shr(Low(a, d), l) == Sib(Shr(Low(b, d), l)) <==> l == CritBit(a, b, d)
      {
        TopBitIsSiblingLevel(Low(a, d), Low(b, d), l);
      }
    }
  }

  lemma {:induction false} BitLengthBound(x: nat, d: nat)
    requires x < Pow2(d)
    ensures BitLength(x) <= d
  {
    if d > 0 && x > 0 {
      BitLengthBound(x / 2, d - 1);
    }
  }

  // ----- predecessor of an index

  /** How the paths of n-1 and n run: side by side up to the lowest set bit of n, together above. */
  lemma {:induction false} PredecessorPath(n: nat, l: nat)
    requires n > 0
    ensures l < TrailingZeros32(n) ==> Shr(n, l) % 2 == 0 && Shr(n - 1, l) % 2 == 1
    ensures l == TrailingZeros32(n) ==> Shr(n, l) % 2 == 1 && Shr(n - 1, l) % 2 == 0
    ensures l <= TrailingZeros32(n) ==> Shr(n, l) == Shr(n - 1, l) + 1
    ensures l > TrailingZeros32(n) ==> Shr(n, l) == Shr(n - 1, l)
    decreases n
  {
    if l == 0 {
    } else {
      ShrHalf(n, l);
      ShrHalf(n - 1, l);
      if n % 2 == 1 {
        assert (n - 1) / 2 == n / 2;
        assert TrailingZeros32(n) == 0;
      } else {
        assert (n - 1) / 2 == n / 2 - 1;
        PredecessorPath(n / 2, l - 1);
      }
    }
  }
}
