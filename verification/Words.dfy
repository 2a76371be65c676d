/** Bit arithmetic behind the bucket index: the BKDR hash and the power-of-two mask. */
module Words {
  import opened Base

  function Pow2(k: nat): (r: nat)
    ensures r > 0
  {
    if k == 0 then 1 else 2 * Pow2(k - 1)
  }

  function Pow(b: nat, e: nat): nat {
    if e == 0 then 1 else b * Pow(b, e - 1)
  }

  /** `x & y` on the bits of two naturals. */
  function BitAnd(x: nat, y: nat): nat {
    if x == 0 || y == 0 then 0
    else 2 * BitAnd(x / 2, y / 2) + (if x % 2 == 1 && y % 2 == 1 then 1 else 0)
  }

  /** `x | y` on the bits of two naturals. */
  function BitOr(x: nat, y: nat): nat {
    if x == 0 then y
    else if y == 0 then x
    else 2 * BitOr(x / 2, y / 2) + (if x % 2 == 1 || y % 2 == 1 then 1 else 0)
  }

  /** `x >> n`. */
  function Shr(x: nat, n: nat): nat {
    if n == 0 then x else Shr(x / 2, n - 1)
  }

  /** `h & mask` on two int32 values: the bit patterns are the residues modulo 2^32. */
  function And32(h: int32, mask: int32): int32 {
    Wrap32(BitAnd(h % 0x1_0000_0000, mask % 0x1_0000_0000))
  }

  function MaskOfNextPowOf2(cap: uint16): nat {
    if cap > 0 && BitAnd(cap, cap - 1) == 0 then cap - 1
    else
      var c1 := BitOr(cap, Shr(cap, 1));
      var c2 := BitOr(c1, Shr(c1, 2));
      var c4 := BitOr(c2, Shr(c2, 4));
      BitOr(c4, Shr(c4, 8))
  }

  /** The unbounded polynomial: the sum over i of s[i] * 131^(|s|-1-i). */
  function Poly(s: Key): nat {
    if s == [] then 0 else s[0] * Pow(131, |s| - 1) + Poly(s[1..])
  }

  /** The wrapping 32-bit hash, as the loop computes it. */
  method HashBKRD(s: Key) returns (hash: int32)
    ensures hash == Wrap32(Poly(s))
  {
    hash := 0;
    var i := 0;
    while i < |s|
      invariant 0 <= i <= |s|
      invariant hash == Wrap32(Poly(s[..i]))
    {
      Horner(s[..i], s[i]);
      assert s[..i] + [s[i]] == s[..i + 1];
      WrapStep(Poly(s[..i]), s[i]);
      hash := Wrap32(Wrap32(hash * 131) + s[i]);
      i := i + 1;
    }
    assert s[..|s|] == s;
  }

  lemma WrapShift(x: int, t: int)
    ensures Wrap32(x + t * 0x1_0000_0000) == Wrap32(x)
  {
    var y := x + 0x8000_0000;
    var q, r := y / 0x1_0000_0000, y % 0x1_0000_0000;
    assert y + t * 0x1_0000_0000 == (q + t) * 0x1_0000_0000 + r;
  }

  /** Wrapping after each operation is the same as wrapping once. */
  lemma WrapStep(x: int, b: Byte)
    ensures Wrap32(Wrap32(Wrap32(x) * 131) + b) == Wrap32(131 * x + b)
  {
    var t := (Wrap32(x) - x) / 0x1_0000_0000;
    assert Wrap32(x) == x + t * 0x1_0000_0000;
    var y := Wrap32(x) * 131;
    assert y == 131 * x + (131 * t) * 0x1_0000_0000;
    var u := (Wrap32(y) - y) / 0x1_0000_0000;
    assert Wrap32(y) == y + u * 0x1_0000_0000;
    WrapShift(131 * x + b, 131 * t + u);
  }

  /** Appending one byte multiplies the polynomial by 131 and adds the byte. */
  lemma {:induction false} Horner(s: Key, b: Byte)
    ensures Poly(s + [b]) == 131 * Poly(s) + b
  {
    if s == [] {
      assert [b][1..] == [];
      assert Pow(131, 0) == 1;
    } else {
      assert (s + [b])[1..] == s[1..] + [b];
      Horner(s[1..], b);
      var p := Pow(131, |s| - 1);
      assert Pow(131, |s|) == 131 * p;
      assert s[0] * (131 * p) == 131 * (s[0] * p);
    }
  }

  lemma {:induction false} Pow2Mono(i: nat, j: nat)
    requires i <= j
    ensures Pow2(i) <= Pow2(j)
    decreases j
  {
    if i < j { Pow2Mono(i, j - 1); }
  }

  lemma {:induction false} Pow2Add(i: nat, j: nat)
    ensures Pow2(i + j) == Pow2(i) * Pow2(j)
  {
    if i > 0 { Pow2Add(i - 1, j); }
  }

  lemma Pow2Sixteen()
    ensures Pow2(16) == 0x1_0000 && Pow2(32) == 0x1_0000_0000
  {
    assert Pow2(4) == 16;
    Pow2Add(4, 4);
    Pow2Add(8, 8);
    Pow2Add(16, 16);
  }

  /** The position of the highest one bit. */
  lemma {:induction false} HighBit(x: nat) returns (k: nat)
    requires x > 0
    ensures Pow2(k) <= x < Pow2(k + 1)
  {
    if x == 1 {
      k := 0;
    } else {
      k := HighBit(x / 2);
      k := k + 1;
    }
  }

  /** Masking with 2^k - 1 is the remainder modulo 2^k. */
  lemma {:induction false} AndMask(x: nat, k: nat, q: nat, r: nat)
    requires r < Pow2(k) && x == q * Pow2(k) + r
    ensures BitAnd(x, Pow2(k) - 1) == r
  {
    if k > 0 {
      var p := Pow2(k - 1);
      MulTwice(q, p);
      HalfOf(q * p, r);
      AndMask(x / 2, k - 1, q, r / 2);
      AndOnes(x, p);
    }
  }

  lemma AndOnes(x: nat, p: nat)
    requires p > 0
    ensures BitAnd(x, 2 * p - 1) == 2 * BitAnd(x / 2, p - 1) + x % 2
  {
    var y := 2 * p - 1;
    assert y / 2 == p - 1 && y % 2 == 1;
  }

  lemma {:induction false} MulStep(a: nat, b: nat, d: nat)
    requires a < b
    ensures a * d + d <= b * d
    decreases b
  {
    assert b * d == (b - 1) * d + d;
    if a < b - 1 { MulStep(a, b - 1, d); }
  }

  lemma DivUnique(x: nat, d: nat, q: nat, r: nat)
    requires d > 0 && r < d && x == q * d + r
    ensures x / d == q && x % d == r
  {
    var q', r' := x / d, x % d;
    assert q' * d + r' == q * d + r;
    if q' > q {
      MulStep(q, q', d);
    } else if q' < q {
      MulStep(q', q, d);
    }
  }

  /** `c & (c-1)` is zero exactly for the powers of two. */
  lemma {:induction false} PowerTest(c: nat, k: nat)
    requires Pow2(k) <= c < Pow2(k + 1)
    ensures BitAnd(c, c - 1) == 0 <==> c == Pow2(k)
    decreases c
  {
    if c > 1 {
      if c % 2 == 0 {
        assert (c - 1) / 2 == c / 2 - 1;
        PowerTest(c / 2, k - 1);
      } else {
        assert (c - 1) / 2 == c / 2;
        AndSelf(c / 2);
      }
    }
  }

  lemma {:induction false} AndSelf(x: nat)
    ensures BitAnd(x, x) == x
  {
    if x > 0 { AndSelf(x / 2); }
  }

  lemma {:induction false} OrHalf(x: nat, y: nat)
    ensures BitOr(x, y) / 2 == BitOr(x / 2, y / 2)
  {
  }

  lemma {:induction false} OrShr(x: nat, y: nat, n: nat)
    ensures Shr(BitOr(x, y), n) == BitOr(Shr(x, n), Shr(y, n))
    decreases n
  {
    if n > 0 {
      OrHalf(x, y);
      OrShr(x / 2, y / 2, n - 1);
    }
  }

  /** Shifting is division: the quotient of x by 2^n. */
  lemma {:induction false} ShrIs(x: nat, n: nat, q: nat, r: nat)
    requires r < Pow2(n) && x == q * Pow2(n) + r
    ensures Shr(x, n) == q
  {
    if n > 0 {
      var p := Pow2(n - 1);
      MulTwice(q, p);
      HalfOf(q * p, r);
      ShrIs(x / 2, n - 1, q, r / 2);
    }
  }

  lemma HalfOf(t: nat, r: nat)
    ensures (2 * t + r) / 2 == t + r / 2
  {
  }

  lemma {:induction false} ShrShr(x: nat, i: nat, j: nat)
    ensures Shr(Shr(x, i), j) == Shr(x, i + j)
  {
    if i > 0 { ShrShr(x / 2, i - 1, j); }
  }

  /** Filling the low j bits. */
  lemma {:induction false} OrLowOnes(x: nat, j: nat)
    ensures BitOr(x, Pow2(j) - 1) == Shr(x, j) * Pow2(j) + (Pow2(j) - 1)
  {
    if j == 0 {
      assert Pow2(0) == 1;
    } else if x == 0 {
      ShrOfZero(j);
    } else {
      OrLowOnes(x / 2, j - 1);
      var p, q := Pow2(j - 1), Shr(x, j);
      OrLowOnesStep(x, p, q * p);
      MulTwice(q, p);
    }
  }

  lemma OrLowOnesStep(x: nat, p: nat, t: nat)
    requires x > 0 && p > 0 && BitOr(x / 2, p - 1) == t + (p - 1)
    ensures BitOr(x, 2 * p - 1) == 2 * t + (2 * p - 1)
  {
    var y := 2 * p - 1;
    assert y / 2 == p - 1 && y % 2 == 1;
  }

  lemma MulTwice(q: int, p: int)
    ensures q * (2 * p) == 2 * (q * p)
  {
  }

  lemma {:induction false} OrBound(x: nat, y: nat, k: nat)
    requires x < Pow2(k) && y < Pow2(k)
    ensures BitOr(x, y) < Pow2(k)
    decreases k
  {
    if x > 0 && y > 0 {
      OrBound(x / 2, y / 2, k - 1);
    }
  }

  /** The number has w bits and its top j bits are ones. */
  ghost predicate TopOnes(x: nat, w: nat, j: nat)
    requires j <= w
  {
    x < Pow2(w) && Shr(x, w - j) == Pow2(j) - 1
  }

  /** One smearing step doubles the run of leading ones. */
  lemma Smear(x: nat, w: nat, j: nat)
    requires 0 < j <= w && TopOnes(x, w, j)
    ensures TopOnes(BitOr(x, Shr(x, j)), w, if 2 * j <= w then 2 * j else w)
  {
    ShrLe(x, j);
    OrBound(x, Shr(x, j), w);
    if 2 * j <= w {
      SmearInside(x, w - 2 * j, j);
    } else {
      SmearPast(x, w, j);
    }
  }

  /** The run of ones ends inside the word. */
  lemma SmearInside(x: nat, n: nat, j: nat)
    requires Shr(x, n + j) == Pow2(j) - 1
    ensures Shr(BitOr(x, Shr(x, j)), n) == Pow2(2 * j) - 1
  {
    OrShr(x, Shr(x, j), n);
    ShrShr(x, j, n);
    ShrShr(x, n, j);
    FillOnes(Shr(x, n), Shr(Shr(x, j), n), j, j, 2 * j);
  }

  /** The run of ones reaches the end of the word: the shifted number is all ones in its w - j bits. */
  lemma SmearPast(x: nat, w: nat, j: nat)
    requires 0 < j <= w < 2 * j && TopOnes(x, w, j)
    ensures BitOr(x, Shr(x, j)) == Pow2(w) - 1
  {
    AllOnesShr(x, w, j);
    FillOnes(x, Shr(x, j), j, w - j, w);
  }

  /** Filling the low j bits of a number whose other bits are i ones. */
  lemma FillOnes(x: nat, y: nat, i: nat, j: nat, w: nat)
    requires Shr(x, j) == Pow2(i) - 1 && y == Pow2(j) - 1 && w == i + j
    ensures BitOr(x, y) == Pow2(w) - 1
  {
    OrLowOnes(x, j);
    JoinOnes(Shr(x, j), i, j);
  }

  lemma JoinOnes(q: nat, i: nat, j: nat)
    requires q == Pow2(i) - 1
    ensures q * Pow2(j) + (Pow2(j) - 1) == Pow2(i + j) - 1
  {
    Pow2Add(i, j);
    OnesConcat(Pow2(i), Pow2(j));
  }

  /** A block of ones followed by a block of ones. */
  lemma OnesConcat(p: nat, q: nat)
    requires p > 0 && q > 0
    ensures (p - 1) * q + (q - 1) == p * q - 1
  {
  }

  lemma {:induction false} ShrLe(x: nat, j: nat)
    ensures Shr(x, j) <= x
  {
    if j > 0 { ShrLe(x / 2, j - 1); }
  }

  lemma {:induction false} ShrOfZero(j: nat)
    ensures Shr(0, j) == 0
  {
    if j > 0 { ShrOfZero(j - 1); }
  }

  /** When more than half of the leading bits are ones, shifting them down leaves only ones. */
  lemma AllOnesShr(x: nat, w: nat, j: nat)
    requires 0 < j <= w && w < 2 * j && TopOnes(x, w, j)
    ensures Shr(x, j) == Pow2(w - j) - 1
  {
    var d := 2 * j - w;
    ShrShr(x, w - j, d);
    assert w - j + d == j;
    Pow2Add(w - j, d);
    var p, q := Pow2(w - j), Pow2(d);
    OnesConcat(p, q);
    ShrIs(p * q - 1, d, p - 1, q - 1);
    assert Shr(x, w - j) == p * q - 1;
  }

  /** The mask is one below the least power of two that reaches cap. */
  lemma MaskIsLeastPower(cap: uint16) returns (k: nat)
    requires cap > 0
    ensures k <= 16 && MaskOfNextPowOf2(cap) == Pow2(k) - 1
    ensures cap <= Pow2(k)
    ensures forall j :: 0 <= j < k ==> Pow2(j) < cap
  {
    var h := HighBit(cap);
    PowerTest(cap, h);
    Pow2Sixteen();
    if h >= 16 { Pow2Mono(16, h); }
    if cap == Pow2(h) {
      k := h;
      forall j | 0 <= j < h ensures Pow2(j) < cap {
        Pow2Mono(j, h - 1);
      }
    } else {
      k := h + 1;
      forall j | 0 <= j < k ensures Pow2(j) < cap {
        Pow2Mono(j, h);
      }
      assert TopOnes(cap, k, 1) by {
        ShrIs(cap, h, 1, cap - Pow2(h));
        assert Pow2(1) == 2;
      }
      SmearAll(cap, k);
    }
  }

  lemma SmearAll(cap: uint16, w: nat)
    requires cap > 0 && 0 < w <= 16 && TopOnes(cap, w, 1) && BitAnd(cap, cap - 1) != 0
    ensures MaskOfNextPowOf2(cap) == Pow2(w) - 1
  {
    var c1 := SmearStep(cap, w, 1);
    var c2 := SmearStep(c1, w, 2);
    var c4 := SmearStep(c2, w, 4);
    var c8 := SmearStep(c4, w, 8);
    assert Pow2(0) == 1;
  }

  /** A smearing step by j, whether or not the run of ones already covers the word. */
  lemma SmearStep(x: nat, w: nat, j: nat) returns (y: nat)
    requires 0 < j && 0 < w && TopOnes(x, w, if j <= w then j else w)
    ensures y == BitOr(x, Shr(x, j))
    ensures TopOnes(y, w, if 2 * j <= w then 2 * j else w)
  {
    y := BitOr(x, Shr(x, j));
    if j <= w {
      Smear(x, w, j);
    } else {
      Pow2Mono(w, j);
      assert Shr(x, j) == 0 by { ShrIs(x, j, 0, x); }
    }
  }

  /** The bucket an int32 hash selects. */
  function IndexOfHash(h: int32, mask: nat): int
    requires mask < 0x1_0000
  {
    And32(h, mask)
  }

  /** Bucket arithmetic: the masked, wrapped hash is the unbounded polynomial modulo the number of buckets. */
  lemma BucketArithmetic(s: Key, bucketCount: uint16)
    requires bucketCount > 0
    ensures var mask := MaskOfNextPowOf2(bucketCount);
            mask < 0x1_0000 && IndexOfHash(Wrap32(Poly(s)), mask) == Poly(s) % (mask + 1)
  {
    var k := MaskIsLeastPower(bucketCount);
    Pow2Sixteen();
    Pow2Mono(k, 16);
    assert Pow2(k) <= 0x1_0000;
    MaskedIndex(Poly(s), k, MaskOfNextPowOf2(bucketCount));
  }

  lemma MaskedIndex(x: nat, k: nat, mask: nat)
    requires k <= 16 && Pow2(k) <= 0x1_0000 && mask == Pow2(k) - 1
    ensures mask < 0x1_0000 && IndexOfHash(Wrap32(x), mask) == x % (mask + 1)
  {
    MaskedResidue(x, k);
  }

  lemma MaskedResidue(x: nat, k: nat)
    requires k <= 16 && Pow2(k) <= 0x1_0000
    ensures And32(Wrap32(x), Pow2(k) - 1) == x % Pow2(k)
  {
    SplitWord(k);
    var v, w, r := NestedResidue(x, Pow2(k), Pow2(32 - k));
    AndMask(w, k, v, r);
    SmallResidue(Pow2(k) - 1);
    WrapSmall(r);
  }

  lemma SplitWord(k: nat)
    requires k <= 32
    ensures Pow2(k) * Pow2(32 - k) == 0x1_0000_0000
  {
    Pow2Sixteen();
    Pow2Add(k, 32 - k);
  }

  lemma WrapSmall(r: nat)
    requires r < 0x8000_0000
    ensures Wrap32(r) == r
  {
  }

  /** The residue modulo a divisor of 2^32 survives wrapping. */
  lemma NestedResidue(x: nat, p: nat, b: nat) returns (v: nat, w: nat, r: nat)
    requires p > 0 && p * b == 0x1_0000_0000
    ensures Wrap32(x) % 0x1_0000_0000 == w && w == v * p + r && r < p && x % p == r
  {
    var u;
    u, w := DivMod(x, 0x1_0000_0000);
    v, r := DivMod(w, p);
    WrapResidue(x, u, w);
    JoinQuotients(u, p, b, v, r);
    DivUnique(x, p, u * b + v, r);
  }

  lemma DivMod(x: nat, d: nat) returns (q: nat, r: nat)
    requires d > 0
    ensures x == q * d + r && r < d
  {
    q, r := x / d, x % d;
  }

  lemma JoinQuotients(u: nat, a: nat, b: nat, v: nat, r: nat)
    ensures u * (a * b) + v * a + r == (u * b + v) * a + r
  {
  }

  lemma SmallResidue(mask: nat)
    requires mask < 0x1_0000
    ensures mask % 0x1_0000_0000 == mask
  {
  }

  lemma WrapResidue(x: int, u: int, w: nat)
    requires x == u * 0x1_0000_0000 + w && w < 0x1_0000_0000
    ensures Wrap32(x) % 0x1_0000_0000 == w
  {
  }
}
