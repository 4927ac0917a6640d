/**
 * The content checksum of the guarded stack: a polynomial fold of the
 * element hashes modulo a prime, combined with the element count by
 * exclusive-or.  The fold is written exactly as the source computes it,
 * including the unsigned 64-bit addition that can wrap around.
 *
 * Values of C++ type `size_t` are integers below 2^64 (`U64`); their
 * exclusive-or is defined bit by bit on integers (`Xor`).
 */
module ContentChecksum {

  /** Multiplier of the polynomial fold. */
  const HASH_MUL: nat := 29
  /** Modulus of the polynomial fold (a prime below 2^30). */
  const HASH_MOD: nat := 1000000007
  /** 2^64: `size_t` and `unsigned long long` arithmetic wraps at this modulus. */
  const WORD: nat := 0x1_0000_0000_0000_0000

  /** A value of the C++ type `size_t`, which `std::hash` returns. */
  type U64 = x: int | 0 <= x < WORD

  /** A mathematical integer truncated to `size_t`, as C++ converts it. */
  function SizeT(x: int): (r: U64)
    ensures 0 <= x < WORD ==> r == x
  {
    x % WORD
  }

  function Pow2(k: nat): (r: nat)
    ensures r >= 1
  {
    if k == 0 then 1 else 2 * Pow2(k - 1)
  }

  lemma {:induction false} Pow2Add(i: nat, j: nat)
    ensures Pow2(i + j) == Pow2(i) * Pow2(j)
  {
    if i > 0 {
      Pow2Add(i - 1, j);
      assert Pow2(i + j) == 2 * Pow2(i - 1 + j);
    }
  }

  lemma Pow2Of16()
    ensures Pow2(16) == 0x1_0000
  {
    assert Pow2(2) == 4;
    Pow2Add(2, 2);
    Pow2Add(4, 4);
    Pow2Add(8, 8);
  }

  lemma Pow2Of64()
    ensures Pow2(64) == WORD
  {
    Pow2Of16();
    Pow2Add(16, 16);
    Pow2Add(32, 32);
  }

  lemma Pow2Of30()
    ensures Pow2(30) == 0x4000_0000
  {
    assert Pow2(5) == 32;
    Pow2Add(5, 5);
    Pow2Add(5, 10);
    Pow2Add(15, 15);
  }

  /** Bitwise exclusive-or of two naturals, least significant bit first. */
  function Xor(a: nat, b: nat): nat
    decreases a + b
  {
    if a == 0 && b == 0 then 0 else 2 * Xor(a / 2, b / 2) + (a % 2 + b % 2) % 2
  }

  /** Exclusive-or with the same value twice is the identity. */
  lemma {:induction false} XorCancel(a: nat, b: nat)
    ensures Xor(Xor(a, b), b) == a
    decreases a + b
  {
    if a != 0 || b != 0 {
      var c := Xor(a, b);
      XorHalves(a, b);
      XorCancel(a / 2, b / 2);
      assert c != 0 || b != 0;
      XorHalves(c, b);
      BitCancel(a % 2, b % 2);
      SameHalvesSame(Xor(c, b), a);
    }
  }

  /** Adding the same bit twice modulo 2 gives back the first bit. */
  lemma BitCancel(x: int, y: int)
    requires 0 <= x < 2 && 0 <= y < 2
    ensures ((x + y) % 2 + y) % 2 == x
  {
  }

  /** A natural is determined by its half and its lowest bit. */
  lemma SameHalvesSame(u: nat, v: nat)
    requires u / 2 == v / 2 && u % 2 == v % 2
    ensures u == v
  {
  }

  /** One unfolding of `Xor`: its halves and its lowest bit. */
  lemma XorHalves(a: nat, b: nat)
    requires a != 0 || b != 0
    ensures Xor(a, b) / 2 == Xor(a / 2, b / 2)
    ensures Xor(a, b) % 2 == (a % 2 + b % 2) % 2
  {
  }

  /** Exclusive-or does not depend on the order of its operands. */
  lemma {:induction false} XorCommutes(a: nat, b: nat)
    ensures Xor(a, b) == Xor(b, a)
    decreases a + b
  {
    if a != 0 || b != 0 {
      XorCommutes(a / 2, b / 2);
    }
  }

  /** Exclusive-or of two k-bit values is a k-bit value. */
  lemma {:induction false} XorBelow(a: nat, b: nat, k: nat)
    requires a < Pow2(k) && b < Pow2(k)
    ensures Xor(a, b) < Pow2(k)
  {
    if k > 0 && (a != 0 || b != 0) {
      XorBelow(a / 2, b / 2, k - 1);
    }
  }

  /** Exclusive-or with a value below 2^k leaves the bits from k upwards alone. */
  lemma {:induction false} XorHighBits(a: nat, b: nat, k: nat)
    requires a < Pow2(k)
    ensures Xor(a, b) / Pow2(k) == b / Pow2(k)
  {
    if k == 0 {
      XorZeroLeft(b);
    } else if a != 0 || b != 0 {
      XorHighBits(a / 2, b / 2, k - 1);
      HalveDiv(Xor(a / 2, b / 2), (a % 2 + b % 2) % 2, Pow2(k - 1));
      HalveDiv(b / 2, b % 2, Pow2(k - 1));
    }
  }

  lemma {:induction false} XorZeroLeft(b: nat)
    ensures Xor(0, b) == b
    decreases b
  {
    if b != 0 {
      XorZeroLeft(b / 2);
    }
  }

  /** Dividing 2x + r (r a bit) by 2p is dividing x by p. */
  lemma HalveDiv(x: nat, r: nat, p: nat)
    requires r < 2 && p >= 1
    ensures (2 * x + r) / (2 * p) == x / p
  {
    var q, s := x / p, x % p;
    assert x == q * p + s;
    assert 2 * x + r == q * (2 * p) + (2 * s + r);
    DivUnique(2 * x + r, 2 * p, q, 2 * s + r);
  }

  lemma DivUnique(n: nat, d: nat, q: nat, s: nat)
    requires d >= 1 && n == q * d + s && s < d
    ensures n / d == q
  {
    var q', s' := n / d, n % d;
    assert n == q' * d + s';
    assert (q' + 1) * d == q' * d + d;
    assert (q + 1) * d == q * d + d;
    if q' < q {
      MulMonotone(q' + 1, q, d);
    } else if q' > q {
      MulMonotone(q + 1, q', d);
    }
  }

  lemma MulMonotone(a: nat, b: nat, d: nat)
    requires a <= b
    ensures a * d <= b * d
  {
  }

  /**
   * One step of the fold: multiply the accumulator and reduce, then add the
   * element's hash in unsigned 64-bit arithmetic (which may wrap) and reduce.
   */
  function Step(acc: nat, h: U64): (r: nat)
    ensures r < HASH_MOD
  {
    SizeT(acc * HASH_MUL % HASH_MOD + h) % HASH_MOD
  }

  /** The accumulator after folding every element of `s`, in index order. */
  function Fold<T>(hash: T -> U64, s: seq<T>): (r: nat)
    ensures r < HASH_MOD
  {
    if s == [] then 0 else Step(Fold(hash, s[..|s| - 1]), hash(s[|s| - 1]))
  }

  /**
   * The checksum of a stack holding `s`: the fold, exclusive-or the size.
   * Exclusive-or with the size gives the fold back; the empty stack's
   * checksum is 0; and as the fold is below 2^30, the bits of the checksum
   * from 30 upwards are those of the size.
   */
  function Checksum<T>(hash: T -> U64, s: seq<T>): (r: U64)
    ensures Xor(r, SizeT(|s|)) == Fold(hash, s)
    ensures s == [] ==> r == 0
    ensures r / 0x4000_0000 == SizeT(|s|) / 0x4000_0000
  {
    var f, z := Fold(hash, s), SizeT(|s|);
    Pow2Of64();
    Pow2Add(30, 34);
    XorBelow(f, z, 64);
    XorCancel(f, z);
    Pow2Of30();
    XorHighBits(f, z, 30);
    Xor(f, z)
  }

  /** Folding one more element is one more step on the previous accumulator. */
  lemma FoldSnoc<T>(hash: T -> U64, s: seq<T>, x: T)
    ensures Fold(hash, s + [x]) == Step(Fold(hash, s), hash(x))
  {
    assert (s + [x])[..|s|] == s;
  }

  /**
   * For two contents of the same size the checksums agree exactly when the
   * folds agree: the size part cannot mask a difference in the fold.
   */
  lemma SameSizeChecksumIff<T>(hash: T -> U64, s: seq<T>, t: seq<T>)
    requires |s| == |t|
    ensures Checksum(hash, s) == Checksum(hash, t) <==> Fold(hash, s) == Fold(hash, t)
  {
  }

  /**
   * For two contents with the same fold and different sizes (below 2^64)
   * the checksums differ: truncating or extending the stack while keeping
   * the fold is always detected.
   */
  lemma SizeChangeDetected<T>(hash: T -> U64, s: seq<T>, t: seq<T>)
    requires Fold(hash, s) == Fold(hash, t)
    requires |s| < WORD && |t| < WORD && |s| != |t|
    ensures Checksum(hash, s) != Checksum(hash, t)
  {
    var f := Fold(hash, s);
    XorCommutes(f, |s|);
    XorCommutes(f, |t|);
    XorCancel(|s|, f);
    XorCancel(|t|, f);
  }

  /** The polynomial the fold is meant to compute: sum of hash(s[i]) * 29^(n-1-i). */
  function Poly<T>(hash: T -> U64, s: seq<T>): nat
  {
    if s == [] then 0 else Poly(hash, s[..|s| - 1]) * HASH_MUL + hash(s[|s| - 1])
  }

  /** No element hash is large enough to make the 64-bit addition wrap. */
  predicate NoWrap<T>(hash: T -> U64, s: seq<T>)
  {
    forall i :: 0 <= i < |s| ==> hash(s[i]) <= WORD - HASH_MOD
  }

  /** When no addition wraps, the step is the exact modular step. */
  lemma StepExact(acc: nat, h: U64)
    requires h <= WORD - HASH_MOD
    ensures Step(acc, h) == (acc * HASH_MUL + h) % HASH_MOD
  {
    var m := acc * HASH_MUL % HASH_MOD;
    assert m + h < WORD;
    ModAddMul(acc, h);
  }

  /** Reducing before multiplying by 29 and adding does not change the residue. */
  lemma ModAddMul(a: nat, h: nat)
    ensures (a * HASH_MUL % HASH_MOD + h) % HASH_MOD == (a * HASH_MUL + h) % HASH_MOD
  {
    var q := a * HASH_MUL / HASH_MOD;
    var r := a * HASH_MUL % HASH_MOD;
    assert a * HASH_MUL == q * HASH_MOD + r;
    assert a * HASH_MUL + h == q * HASH_MOD + (r + h);
    ModAddMultiple(q, r + h);
  }

  lemma ModAddMultiple(q: nat, x: nat)
    ensures (q * HASH_MOD + x) % HASH_MOD == x % HASH_MOD
  {
    var k := x / HASH_MOD;
    var m := x % HASH_MOD;
    assert q * HASH_MOD + x == (q + k) * HASH_MOD + m;
  }

  /** Reducing the previous value first does not change the polynomial's residue. */
  lemma ModPolyStep(p: nat, h: nat)
    ensures ((p % HASH_MOD) * HASH_MUL + h) % HASH_MOD == (p * HASH_MUL + h) % HASH_MOD
  {
    var q := p / HASH_MOD;
    var r := p % HASH_MOD;
    assert p * HASH_MUL + h == (q * HASH_MUL) * HASH_MOD + (r * HASH_MUL + h) by {
      assert p == q * HASH_MOD + r;
    }
    ModAddMultiple(q * HASH_MUL, r * HASH_MUL + h);
  }

  /**
   * When no element hash makes the addition wrap, the fold is the polynomial
   * of the hashes with base 29, reduced modulo 1000000007.
   */
  lemma {:induction false} FoldIsPolynomial<T>(hash: T -> U64, s: seq<T>)
    requires NoWrap(hash, s)
    ensures Fold(hash, s) == Poly(hash, s) % HASH_MOD
  {
    if s != [] {
      var p, x := s[..|s| - 1], s[|s| - 1];
      assert NoWrap(hash, p) by {
        forall i | 0 <= i < |p| ensures hash(p[i]) <= WORD - HASH_MOD {
          assert p[i] == s[i];
        }
      }
      FoldIsPolynomial(hash, p);
      StepExact(Fold(hash, p), hash(x));
      ModPolyStep(Poly(hash, p), hash(x));
    }
  }

  /**
   * Replacing the top element by one whose hash differs modulo 1000000007
   * (without a wrapping addition) always changes the checksum.
   */
  lemma TopReplacementDetected<T>(hash: T -> U64, p: seq<T>, x: T, y: T)
    requires hash(x) <= WORD - HASH_MOD && hash(y) <= WORD - HASH_MOD
    requires hash(x) % HASH_MOD != hash(y) % HASH_MOD
    ensures Checksum(hash, p + [x]) != Checksum(hash, p + [y])
  {
    FoldSnoc(hash, p, x);
    FoldSnoc(hash, p, y);
    var a := Fold(hash, p) * HASH_MUL % HASH_MOD;
    assert Step(Fold(hash, p), hash(x)) == (a + hash(x)) % HASH_MOD;
    assert Step(Fold(hash, p), hash(y)) == (a + hash(y)) % HASH_MOD;
    ResidueCancel(a, hash(x), hash(y));
    SameSizeChecksumIff(hash, p + [x], p + [y]);
  }

  /** Adding a common term keeps distinct residues distinct. */
  lemma ResidueCancel(a: nat, u: nat, v: nat)
    requires u % HASH_MOD != v % HASH_MOD
    ensures (a + u) % HASH_MOD != (a + v) % HASH_MOD
  {
  }

  /** 29^k. */
  function MulPow(k: nat): nat
  {
    if k == 0 then 1 else MulPow(k - 1) * HASH_MUL
  }

  /** The polynomial of `a + q` is that of `a` shifted by |q| places, plus that of `q`. */
  lemma {:induction false} PolyAppend<T>(hash: T -> U64, a: seq<T>, q: seq<T>)
    ensures Poly(hash, a + q) == Poly(hash, a) * MulPow(|q|) + Poly(hash, q)
    decreases |q|
  {
    if q == [] {
      assert a + q == a;
    } else {
      var q', z := q[..|q| - 1], q[|q| - 1];
      assert (a + q)[..|a + q| - 1] == a + q';
      assert (a + q)[|a + q| - 1] == z;
      PolyAppend(hash, a, q');
      calc {
        Poly(hash, a + q);
        Poly(hash, a + q') * HASH_MUL + hash(z);
        (Poly(hash, a) * MulPow(|q'|) + Poly(hash, q')) * HASH_MUL + hash(z);
        { MulAssoc(Poly(hash, a), MulPow(|q'|)); }
        Poly(hash, a) * MulPow(|q|) + Poly(hash, q);
      }
    }
  }

  lemma MulAssoc(a: nat, b: nat)
    ensures (a * b) * HASH_MUL == a * (b * HASH_MUL)
  {
  }

  /**
   * 29 is invertible modulo 1000000007 (29 * 758620695 = 22 * 1000000007 + 1),
   * so multiplying by 29 gives a multiple of 1000000007 exactly when the
   * multiplied value is one.
   */
  lemma MulByMulInvertible(d: int)
    ensures d * HASH_MUL % HASH_MOD == 0 <==> d % HASH_MOD == 0
  {
    if d * HASH_MUL % HASH_MOD == 0 {
      var q := d * HASH_MUL / HASH_MOD;
      InverseStep(d, q);
      MultipleHasNoResidue(q * 758620695 - d * 22);
    }
    if d % HASH_MOD == 0 {
      var k := d / HASH_MOD;
      assert d * HASH_MUL == HASH_MOD * (k * HASH_MUL);
      MultipleHasNoResidue(k * HASH_MUL);
    }
  }

  lemma InverseStep(d: int, q: int)
    requires d * HASH_MUL == HASH_MOD * q
    ensures d == HASH_MOD * (q * 758620695 - d * 22)
  {
  }

  lemma MultipleHasNoResidue(k: int)
    ensures (HASH_MOD * k) % HASH_MOD == 0
  {
  }

  /** A value that is not a multiple of 1000000007 stays so when multiplied by 29^k. */
  lemma {:induction false} MulPowStaysNonZero(d: int, k: nat)
    requires d % HASH_MOD != 0
    ensures d * MulPow(k) % HASH_MOD != 0
  {
    if k > 0 {
      MulPowStaysNonZero(d, k - 1);
      var e := d * MulPow(k - 1);
      MulByMulInvertible(e);
      assert d * MulPow(k) == e * HASH_MUL by {
        MulAssocInt(d, MulPow(k - 1));
      }
    }
  }

  lemma MulAssocInt(d: int, b: nat)
    ensures d * (b * HASH_MUL) == (d * b) * HASH_MUL
  {
  }

  lemma MulSubDistrib(u: int, v: int, w: int)
    ensures u * w - v * w == (u - v) * w
  {
  }

  /** Two values have the same residue exactly when their difference is a multiple. */
  lemma SameResidueIff(a: int, b: int)
    ensures a % HASH_MOD == b % HASH_MOD <==> (a - b) % HASH_MOD == 0
  {
    var qa, qb := a / HASH_MOD, b / HASH_MOD;
    assert a == HASH_MOD * qa + a % HASH_MOD;
    assert b == HASH_MOD * qb + b % HASH_MOD;
    assert a - b == HASH_MOD * (qa - qb) + (a % HASH_MOD - b % HASH_MOD);
  }

  /**
   * Replacing one live element, at any index, by one whose hash differs
   * modulo 1000000007 always changes the checksum, as long as no addition of
   * the fold wraps: the difference of the polynomials is the difference of
   * the two hashes times a power of 29, which is invertible modulo the prime.
   */
  lemma ElementReplacementDetected<T>(hash: T -> U64, p: seq<T>, x: T, y: T, q: seq<T>)
    requires NoWrap(hash, p + [x] + q) && NoWrap(hash, p + [y] + q)
    requires hash(x) % HASH_MOD != hash(y) % HASH_MOD
    ensures Checksum(hash, p + [x] + q) != Checksum(hash, p + [y] + q)
  {
    var s, t := p + [x] + q, p + [y] + q;
    FoldIsPolynomial(hash, s);
    FoldIsPolynomial(hash, t);
    PolyAppend(hash, p + [x], q);
    PolyAppend(hash, p + [y], q);
    assert (p + [x])[..|p|] == p && (p + [y])[..|p|] == p;
    var d := hash(x) - hash(y);
    assert Poly(hash, p + [x]) - Poly(hash, p + [y]) == d;
    MulSubDistrib(Poly(hash, p + [x]), Poly(hash, p + [y]), MulPow(|q|));
    assert Poly(hash, s) - Poly(hash, t) == d * MulPow(|q|);
    SameResidueIff(hash(x), hash(y));
    MulPowStaysNonZero(d, |q|);
    SameResidueIff(Poly(hash, s), Poly(hash, t));
    SameSizeChecksumIff(hash, s, t);
  }
}
