/** Unsigned words as numbers, with C's bitwise operators defined bit by bit. */
module BitWords {

  datatype Operator = AND | OR | XOR {
    predicate Holds(x: bool, y: bool) {
      match this
      case AND => x && y
      case OR => x || y
      case XOR => x != y
    }
  }

  function Power2(n: nat): (p: nat)
    ensures p >= 1
  {
    if n == 0 then 1 else 2 * Power2(n - 1)
  }

  lemma PowersOfTwo()
    ensures Power2(1) == 2 && Power2(8) == 0x100 && Power2(15) == 0x8000 && Power2(16) == 0x1_0000
    ensures Power2(32) == 0x1_0000_0000
  {
    assert Power2(4) == 16;
    assert Power2(12) == 0x1000;
    assert Power2(20) == 0x10_0000;
    assert Power2(24) == 0x100_0000;
    assert Power2(28) == 0x1000_0000;
  }

  /** The bit of weight 2^i. */
  predicate BitAt(c: nat, i: nat)
    decreases i
  {
    if i == 0 then c % 2 == 1 else BitAt(c / 2, i - 1)
  }

  /** The low `n` bits of a number, most significant first. */
  function BitsOf(c: nat, n: nat): (b: seq<bool>)
    ensures |b| == n
  {
    seq(n, i requires 0 <= i < n => BitAt(c, n - 1 - i))
  }

  /** The number with the given bits, most significant first. */
  function Value(b: seq<bool>): (v: nat)
    ensures v < Power2(|b|)
  {
    if b == [] then 0 else 2 * Value(b[..|b| - 1]) + if b[|b| - 1] then 1 else 0
  }

  /** The bitwise operator on the low `n` bits of two numbers. */
  function Bitwise(op: Operator, a: nat, b: nat, n: nat): (r: nat)
    ensures r < Power2(n)
  {
    Value(seq(n, i requires 0 <= i < n => op.Holds(BitAt(a, n - 1 - i), BitAt(b, n - 1 - i))))
  }

  lemma {:induction false} BitsOfValue(b: seq<bool>)
    ensures BitsOf(Value(b), |b|) == b
  {
    if b != [] {
      var n := |b|;
      BitsOfValue(b[..n - 1]);
      assert Value(b) / 2 == Value(b[..n - 1]) && (Value(b) % 2 == 1) == b[n - 1];
      forall i | 0 <= i < n ensures BitsOf(Value(b), n)[i] == b[i] {
        assert BitAt(Value(b), 0) == (Value(b) % 2 == 1);
        if i < n - 1 {
          assert BitAt(Value(b), n - 1 - i) == BitAt(Value(b[..n - 1]), n - 2 - i);
          assert BitsOf(Value(b[..n - 1]), n - 1)[i] == b[i];
        }
      }
    }
  }

  /** A word is determined by its bits. */
  lemma {:induction false} ValueOfBits(c: nat, n: nat)
    requires c < Power2(n)
    ensures Value(BitsOf(c, n)) == c
  {
    if n > 0 {
      ValueOfBits(c / 2, n - 1);
      forall i | 0 <= i < n - 1 ensures BitsOf(c, n)[i] == BitsOf(c / 2, n - 1)[i] {
        assert BitAt(c, n - 1 - i) == BitAt(c / 2, n - 2 - i);
      }
      assert BitAt(c, 0) == (c % 2 == 1);
      assert BitsOf(c, n)[..n - 1] == BitsOf(c / 2, n - 1) && BitsOf(c, n)[n - 1] == (c % 2 == 1);
    }
  }

  lemma {:induction false} BitsOfAllOnes(n: nat, i: nat)
    requires i < n
    ensures BitAt(Power2(n) - 1, i)
    decreases i
  {
    assert (Power2(n) - 1) / 2 == Power2(n - 1) - 1;
    if i > 0 {
      BitsOfAllOnes(n - 1, i - 1);
    }
  }

  lemma SameBits(c: nat, d: nat, n: nat)
    requires c < Power2(n) && d < Power2(n) && BitsOf(c, n) == BitsOf(d, n)
    ensures c == d
  {
    ValueOfBits(c, n);
    ValueOfBits(d, n);
  }

  lemma BitsOfBitwise(op: Operator, a: nat, b: nat, n: nat)
    ensures forall i :: 0 <= i < n ==>
      BitsOf(Bitwise(op, a, b, n), n)[i] == op.Holds(BitsOf(a, n)[i], BitsOf(b, n)[i])
  {
    BitsOfValue(seq(n, i requires 0 <= i < n => op.Holds(BitAt(a, n - 1 - i), BitAt(b, n - 1 - i))));
  }

  /** Reduction modulo 2^n keeps the low bits and clears the others. */
  lemma {:induction false} BitOfModulo(c: nat, n: nat, i: nat)
    ensures BitAt(c % Power2(n), i) == (i < n && BitAt(c, i))
    decreases i
  {
    if n > 0 {
      HalfOfModulo(c, Power2(n - 1));
      if i > 0 {
        BitOfModulo(c / 2, n - 1, i - 1);
      }
    } else {
      if i > 0 {
        BitOfModulo(0, 0, i - 1);
      }
    }
  }

  lemma BitsBeyond(c: nat, n: nat, i: nat)
    requires c < Power2(n) && n <= i
    ensures !BitAt(c, i)
  {
    BitOfModulo(c, n, i);
  }

  function Quotient(c: nat, p: nat): (q: nat)
    requires p >= 1
    ensures q == c / p && q <= c
  {
    DivisionShrinks(c, p);
    c / p
  }

  lemma DivisionShrinks(c: nat, p: nat)
    requires p >= 1
    ensures 0 <= c / p <= c
  {
    var q := c / p;
    assert c == q * p + c % p;
    if q <= -1 {
      ProductGrows(q, -1, p);
    } else {
      ProductGrows(1, p, q);
    }
  }

  lemma ProductGrows(a: int, b: int, p: nat)
    requires a <= b
    ensures a * p <= b * p
  {
  }

  lemma {:induction false} BitOfQuotient(c: nat, k: nat, i: nat)
    ensures BitAt(Quotient(c, Power2(k)), i) == BitAt(c, i + k)
    decreases k
  {
    if k > 0 {
      var p := Power2(k - 1);
      QuotientOfHalf(c, p);
      BitOfQuotient(c / 2, k - 1, i);
      assert Quotient(c, Power2(k)) == Quotient(c / 2, p);
      assert BitAt(c, i + k) == BitAt(c / 2, i + k - 1);
    }
  }

  lemma {:induction false} BitOfMultiple(c: nat, k: nat, i: nat)
    ensures BitAt(c * Power2(k), i) == (i >= k && BitAt(c, i - k))
    decreases k
  {
    if k > 0 {
      assert c * Power2(k) == 2 * (c * Power2(k - 1));
      if i > 0 {
        BitOfMultiple(c, k - 1, i - 1);
      }
    }
  }

  lemma HalfOfModulo(c: nat, p: nat)
    requires p >= 1
    ensures (c % (2 * p)) / 2 == (c / 2) % p && (c % (2 * p)) % 2 == c % 2
  {
    var q, r := c / 2 / p, c / 2 % p;
    assert 2 * (q * p) == q * (2 * p);
    ModuloUnique(c, 2 * p, q, 2 * r + c % 2);
  }

  lemma QuotientOfHalf(c: nat, p: nat)
    requires p >= 1
    ensures c / 2 / p == c / (2 * p)
  {
    var q, r := c / 2 / p, c / 2 % p;
    assert 2 * (q * p) == q * (2 * p);
    ModuloUnique(c, 2 * p, q, 2 * r + c % 2);
  }

  lemma ModuloUnique(c: int, m: int, q: int, r: int)
    requires m > 0 && c == q * m + r && 0 <= r < m
    ensures c % m == r && c / m == q
  {
    assert (q - c / m) * m == c % m - r;
    SmallMultiple(q - c / m, m);
  }

  lemma SmallMultiple(d: int, m: int)
    requires m > 0 && -m < d * m < m
    ensures d == 0
  {
  }
}
