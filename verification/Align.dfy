/** APR_ALIGN: rounding a size up with a bit mask, on unsigned machine words of any width w. */
module Align {

  function Pow2(k: nat): (p: nat)
    ensures p >= 1
  {
    if k == 0 then 1 else 2 * Pow2(k - 1)
  }

  /** Bitwise and, bit by bit. */
  function And(x: nat, y: nat): nat {
    if x == 0 || y == 0 then 0 else (if x % 2 == 1 && y % 2 == 1 then 1 else 0) + 2 * And(x / 2, y / 2)
  }

  /** Bitwise complement of the low w bits. */
  function Not(x: nat, w: nat): nat
    decreases w
  {
    if w == 0 then 0 else (1 - x % 2) + 2 * Not(x / 2, w - 1)
  }

  /** The macro: sum and difference wrap around as unsigned words do. */
  function AlignUp(size: nat, boundary: nat, w: nat): nat
    requires boundary > 0
  {
    And((size + (boundary - 1)) % Pow2(w), Not(boundary - 1, w))
  }

  function AlignDefault(size: nat, w: nat): nat {
    AlignUp(size, 8, w)
  }

  lemma {:induction false} Pow2Means(j: nat, k: nat)
    ensures Pow2(0) == 1 && Pow2(1) == 2 && Pow2(j + k) == Pow2(j) * Pow2(k)
  {
    if j == 0 {
    } else {
      Pow2Means(j - 1, k);
    }
  }

  // ---- Bit by bit ----

  /** Bit i of a number is bit i - 1 of its half. */
  lemma BitOfHalf(x: nat, i: nat)
    requires i > 0
    ensures x / Pow2(i) == (x / 2) / Pow2(i - 1)
  {
    var p := Pow2(i - 1);
    var q, r := (x / 2) / p, (x / 2) % p;
    assert x / 2 == p * q + r;
    assert x == q * (2 * p) + (2 * r + x % 2) by { assert x == 2 * (x / 2) + x % 2; }
    ModUnique(x, 2 * p, q, 2 * r + x % 2);
  }

  lemma AndHalves(x: nat, y: nat)
    ensures And(x, y) / 2 == And(x / 2, y / 2)
    ensures And(x, y) % 2 == if x % 2 == 1 && y % 2 == 1 then 1 else 0
  {
  }

  lemma {:induction false} AndBit(x: nat, y: nat, i: nat)
    ensures (And(x, y) / Pow2(i)) % 2 == if (x / Pow2(i)) % 2 == 1 && (y / Pow2(i)) % 2 == 1 then 1 else 0
    decreases i
  {
    AndHalves(x, y);
    if i == 0 {
    } else {
      AndBit(x / 2, y / 2, i - 1);
      BitOfHalf(x, i);
      BitOfHalf(y, i);
      BitOfHalf(And(x, y), i);
    }
  }

  lemma NotHalves(x: nat, w: nat)
    requires w > 0
    ensures Not(x, w) / 2 == Not(x / 2, w - 1)
    ensures Not(x, w) % 2 == 1 - x % 2
  {
  }

  lemma {:induction false} NotBit(x: nat, w: nat, i: nat)
    requires i < w
    ensures (Not(x, w) / Pow2(i)) % 2 == 1 - (x / Pow2(i)) % 2
    decreases i
  {
    NotHalves(x, w);
    if i == 0 {
    } else {
      NotBit(x / 2, w - 1, i - 1);
      BitOfHalf(x, i);
      BitOfHalf(Not(x, w), i);
    }
  }

  lemma {:induction false} AndBelow(x: nat, y: nat)
    ensures And(x, y) <= x
  {
    if x == 0 || y == 0 {
    } else {
      AndBelow(x / 2, y / 2);
    }
  }

  /** For any boundary, a power of two or not: of the sum, which wraps around, the result has those bits
      that the boundary less one does not have. */
  lemma AlignBit(size: nat, boundary: nat, w: nat, i: nat)
    requires boundary > 0 && i < w
    ensures var sum := (size + (boundary - 1)) % Pow2(w);
            && AlignUp(size, boundary, w) < Pow2(w)
            && (AlignUp(size, boundary, w) / Pow2(i)) % 2 ==
               if ((boundary - 1) / Pow2(i)) % 2 == 1 then 0 else (sum / Pow2(i)) % 2
  {
    var sum := (size + (boundary - 1)) % Pow2(w);
    AndBit(sum, Not(boundary - 1, w), i);
    NotBit(boundary - 1, w, i);
    AndBelow(sum, Not(boundary - 1, w));
  }

  lemma {:induction false} AndOnes(x: nat, w: nat)
    requires x < Pow2(w)
    ensures And(x, Not(0, w)) == x
  {
    if w == 0 || x == 0 {
    } else {
      AndOnes(x / 2, w - 1);
    }
  }

  lemma AtLeastOnce(m: nat, d: int)
    requires d >= 1
    ensures m * d >= m
  {
  }

  lemma NotPositive(m: nat, d: int)
    requires d <= 0
    ensures m * d <= 0
  {
  }

  lemma ModUnique(x: int, m: int, q: int, r: int)
    requires x == q * m + r && 0 <= r < m
    ensures x % m == r && x / m == q
  {
    var d := x / m - q;
    assert x == m * (x / m) + x % m;
    assert m * d == r - x % m;
    assert m * (-d) == -(m * d);
    if d >= 1 { AtLeastOnce(m, d); }
    if -d >= 1 { AtLeastOnce(m, -d); }
  }

  /** The low bit and the rest of a remainder by a power of two. */
  lemma ModHalves(x: nat, p: nat)
    requires p >= 1
    ensures x % (2 * p) == 2 * ((x / 2) % p) + x % 2
  {
    var q, r, b := (x / 2) / p, (x / 2) % p, x % 2;
    assert x / 2 == p * q + r;
    assert x == q * (2 * p) + (2 * r + b) by { assert x == 2 * (x / 2) + b; }
    ModUnique(x, 2 * p, q, 2 * r + b);
  }

  lemma NotOdd(k: nat, w: nat)
    requires 1 <= k <= w
    ensures Not(Pow2(k) - 1, w) == 2 * Not(Pow2(k - 1) - 1, w - 1)
  {
    var p := Pow2(k - 1);
    assert (2 * p - 1) % 2 == 1 && (2 * p - 1) / 2 == p - 1;
  }

  lemma AndEven(x: nat, n: nat)
    ensures And(x, 2 * n) == 2 * And(x / 2, n)
  {
    assert (2 * n) / 2 == n && (2 * n) % 2 == 0;
  }

  /** The bitwise complement of a word is its distance from the largest word. */
  lemma {:induction false} NotIsComplement(x: nat, w: nat)
    requires x < Pow2(w)
    ensures x + Not(x, w) == Pow2(w) - 1
  {
    if w == 0 {
    } else {
      NotIsComplement(x / 2, w - 1);
    }
  }

  /** x without its low k bits. */
  function High(x: nat, k: nat): nat {
    if k == 0 then x else 2 * High(x / 2, k - 1)
  }

  lemma {:induction false} MaskKeepsHigh(x: nat, k: nat, w: nat)
    requires x < Pow2(w) && k <= w
    ensures And(x, Not(Pow2(k) - 1, w)) == High(x, k)
  {
    if k == 0 {
      AndOnes(x, w);
    } else {
      NotOdd(k, w);
      MaskKeepsHigh(x / 2, k - 1, w - 1);
      AndEven(x, Not(Pow2(k - 1) - 1, w - 1));
    }
  }

  lemma {:induction false} HighIsRest(x: nat, k: nat)
    ensures High(x, k) == x - x % Pow2(k)
  {
    if k == 0 {
    } else {
      HighIsRest(x / 2, k - 1);
      ModHalves(x, Pow2(k - 1));
    }
  }

  /** Masking with ~(2^k - 1) takes off the remainder by 2^k. */
  lemma MaskClears(x: nat, k: nat, w: nat)
    requires x < Pow2(w) && k <= w
    ensures And(x, Not(Pow2(k) - 1, w)) == x - x % Pow2(k)
  {
    MaskKeepsHigh(x, k, w);
    HighIsRest(x, k);
  }

  lemma {:induction false} Pow2Grows(j: nat, k: nat)
    requires j <= k
    ensures Pow2(j) <= Pow2(k) && Pow2(k) % Pow2(j) == 0
  {
    if j < k {
      Pow2Grows(j, k - 1);
      var p, q := Pow2(j), Pow2(k - 1) / Pow2(j);
      assert 2 * Pow2(k - 1) == (2 * q) * p + 0 by { assert Pow2(k - 1) == p * q; }
      ModUnique(Pow2(k), p, 2 * q, 0);
    } else {
      ModUnique(Pow2(k), Pow2(j), 1, 0);
    }
  }

  /** A multiple of b below another one is at least b below it. */
  lemma NextMultiple(b: nat, m: nat, n: nat)
    requires b >= 1 && m % b == 0 && n % b == 0 && m < n
    ensures m + b <= n
  {
    var d := n / b - m / b;
    assert n == b * (n / b) && m == b * (m / b);
    assert n - m == b * d;
    if d <= 0 { NotPositive(b, d); }
    AtLeastOnce(b, d);
  }

  /** The addition wraps around. */
  ghost predicate Wraps(size: nat, k: nat, w: nat) {
    size + (Pow2(k) - 1) >= Pow2(w)
  }

  lemma AlignMasks(size: nat, k: nat, w: nat)
    requires k <= w && !Wraps(size, k, w)
    ensures var x := size + (Pow2(k) - 1); AlignUp(size, Pow2(k), w) == x - x % Pow2(k)
  {
    var x := size + (Pow2(k) - 1);
    ModUnique(x, Pow2(w), 0, x);
    MaskClears(x, k, w);
  }

  /** For a power of two and a size whose addition does not wrap, APR_ALIGN is the least multiple of
      the boundary that is not below the size. */
  lemma AlignIsLeast(size: nat, k: nat, w: nat)
    requires k <= w && size + (Pow2(k) - 1) < Pow2(w)
    ensures var r := AlignUp(size, Pow2(k), w);
            r % Pow2(k) == 0 && size <= r < size + Pow2(k) && r < Pow2(w) &&
            forall m: nat | m % Pow2(k) == 0 && size <= m :: r <= m
  {
    var r, b := AlignUp(size, Pow2(k), w), Pow2(k);
    AlignMasks(size, k, w);
    RoundUp(size, b);
    forall m: nat | m % b == 0 && size <= m ensures r <= m { NotAbove(size, b, m); }
  }

  lemma RoundUp(size: nat, b: nat)
    requires b >= 1
    ensures var x := size + (b - 1); var r := x - x % b; size <= r < size + b && r % b == 0
  {
    var x := size + (b - 1);
    assert x - x % b == (x / b) * b + 0;
    ModUnique(x - x % b, b, x / b, 0);
  }

  lemma NotAbove(size: nat, b: nat, m: nat)
    requires b >= 1 && m % b == 0 && size <= m
    ensures var x := size + (b - 1); x - x % b <= m
  {
    RoundUp(size, b);
    var x := size + (b - 1);
    if m < x - x % b { NextMultiple(b, m, x - x % b); }
  }

  lemma WrapsToZero(size: nat, k: nat, w: nat)
    requires k < w && size < Pow2(w) && Wraps(size, k, w)
    ensures AlignUp(size, Pow2(k), w) == 0 && size > 0
  {
    var b, p := Pow2(k), Pow2(w);
    Pow2Grows(k, w - 1);
    assert p == 2 * Pow2(w - 1);
    var x := size + (b - 1) - p;
    ModUnique(size + (b - 1), p, 1, x);
    MaskClears(x, k, w);
    ModUnique(x, b, 0, x);
  }

  /** When the addition wraps, the result is 0.  So it is at least the size exactly when nothing wraps. */
  lemma AlignWraps(size: nat, k: nat, w: nat)
    requires k < w && size < Pow2(w)
    ensures size + (Pow2(k) - 1) >= Pow2(w) ==> AlignUp(size, Pow2(k), w) == 0
    ensures AlignUp(size, Pow2(k), w) >= size <==> size + (Pow2(k) - 1) < Pow2(w)
  {
    if Wraps(size, k, w) { WrapsToZero(size, k, w); } else { AlignIsLeast(size, k, w); }
  }

  /** Aligned sizes stay, and aligning never wraps on its own result. */
  lemma AlignIdempotent(size: nat, k: nat, w: nat)
    requires k <= w && !Wraps(size, k, w)
    ensures var r := AlignUp(size, Pow2(k), w); !Wraps(r, k, w) && AlignUp(r, Pow2(k), w) == r
  {
    var r, b := AlignUp(size, Pow2(k), w), Pow2(k);
    AlignIsLeast(size, k, w);
    Pow2Grows(k, w);
    NextMultiple(b, r, Pow2(w));
    AlignIsLeast(r, k, w);
  }

  lemma AlignMonotone(size: nat, size': nat, k: nat, w: nat)
    requires k <= w && size <= size' && !Wraps(size', k, w)
    ensures AlignUp(size, Pow2(k), w) <= AlignUp(size', Pow2(k), w)
  {
    AlignIsLeast(size, k, w);
    AlignIsLeast(size', k, w);
  }

  /** Aligning to a smaller power of two first makes no difference. */
  lemma AlignTwice(size: nat, j: nat, k: nat, w: nat)
    requires j <= k <= w && !Wraps(size, k, w)
    ensures !Wraps(size, j, w) && !Wraps(AlignUp(size, Pow2(j), w), k, w)
    ensures AlignUp(AlignUp(size, Pow2(j), w), Pow2(k), w) == AlignUp(size, Pow2(k), w)
  {
    Pow2Grows(j, k);
    Pow2Grows(k, w);
    var r, s := AlignUp(size, Pow2(j), w), AlignUp(size, Pow2(k), w);
    AlignIsLeast(size, j, w);
    AlignIsLeast(size, k, w);
    MultipleOfMultiple(s, Pow2(k), Pow2(j));
    NextMultiple(Pow2(k), s, Pow2(w));
    AlignIsLeast(r, k, w);
  }

  lemma MultipleOfMultiple(x: nat, b: nat, a: nat)
    requires a >= 1 && b >= 1 && x % b == 0 && b % a == 0
    ensures x % a == 0
  {
    var q, r := x / b, b / a;
    assert x == b * q && b == a * r;
    assert x == (r * q) * a + 0;
    ModUnique(x, a, r * q, 0);
  }

  /** APR_ALIGN_DEFAULT rounds up to a multiple of 8. */
  lemma DefaultIsLeast(size: nat, w: nat)
    requires 3 <= w && size + 7 < Pow2(w)
    ensures var r := AlignDefault(size, w);
            r % 8 == 0 && size <= r < size + 8 && forall m: nat | m % 8 == 0 && size <= m :: r <= m
  {
    assert Pow2(3) == 8;
    AlignIsLeast(size, 3, w);
  }
}
