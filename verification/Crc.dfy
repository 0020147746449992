/** CRC-16/CCITT as a shift register over bits: the polynomial division it computes and the damage it detects. */
module CrcMath {

  /** A 16-bit word, most significant bit first. */
  type Word = r: seq<bool> | |r| == 16 witness seq(16, _ => false)

  /** x^16 + x^12 + x^5 + 1 without its leading term: 0x1021. */
  const GENERATOR: Word :=
    [false, false, false, true, false, false, false, false, false, false, true, false, false, false, false, true]

  function Off(n: nat): (s: seq<bool>)
    ensures |s| == n
  {
    seq(n, _ => false)
  }

  function Xor(a: seq<bool>, b: seq<bool>): (d: seq<bool>)
    requires |a| == |b|
    ensures |d| == |a|
    ensures forall i :: 0 <= i < |a| ==> d[i] == (a[i] != b[i])
  {
    seq(|a|, i requires 0 <= i < |a| => a[i] != b[i])
  }

  /** One step of the register: shift left, and subtract the generator when the outgoing bit differs from the input. */
  function Feed(r: Word, bit: bool): (r': Word) {
    var s := r[1..] + [false];
    if r[0] != bit then Xor(s, GENERATOR) else s
  }

  function Register(r: Word, bits: seq<bool>): (r': Word)
    decreases |bits|
  {
    if bits == [] then r else Register(Feed(r, bits[0]), bits[1..])
  }

  // ---- Polynomial long division over bits ----

  /** The remainder of the polynomial with coefficients `d`, leading one first, on division by the generator. */
  function Remainder(d: seq<bool>): (r: Word)
    requires |d| >= 16
    decreases |d|
  {
    if |d| == 16 then d
    else if d[0] then Remainder(Xor(d[1..17], GENERATOR) + d[17..])
    else Remainder(d[1..])
  }

  /** The message shifted up by sixteen places, with `r` added to its leading terms. */
  function Dividend(r: Word, bits: seq<bool>): (d: seq<bool>)
    ensures |d| == |bits| + 16
  {
    var m := bits + Off(16);
    Xor(m[..16], r) + m[16..]
  }

  lemma DividendStep(r: Word, bits: seq<bool>, next: seq<bool>)
    requires bits != []
    requires var d := Dividend(r, bits); next == if d[0] then Xor(d[1..17], GENERATOR) + d[17..] else d[1..]
    ensures next == Dividend(Feed(r, bits[0]), bits[1..])
  {
    var d := Dividend(r, bits);
    var e := Dividend(Feed(r, bits[0]), bits[1..]);
    assert d[0] == (bits[0] != r[0]);
    forall i | 0 <= i < |next| ensures next[i] == e[i] {
      if i < 15 {
        assert d[i + 1] == ((bits + Off(16))[i + 1] != r[i + 1]);
      } else {
        assert d[i + 1] == (bits + Off(16))[i + 1];
      }
    }
  }

  /** The register computes the remainder: the bit-by-bit division. */
  lemma {:induction false} RegisterIsRemainder(r: Word, bits: seq<bool>)
    ensures Register(r, bits) == Remainder(Dividend(r, bits))
    decreases |bits|
  {
    var d := Dividend(r, bits);
    if bits == [] {
      assert d == r;
    } else {
      var next := if d[0] then Xor(d[1..17], GENERATOR) + d[17..] else d[1..];
      DividendStep(r, bits, next);
      RegisterIsRemainder(Feed(r, bits[0]), bits[1..]);
    }
  }

  // ---- The register as a linear bijection ----

  function Unfeed(r: Word, bit: bool): (r': Word) {
    if r[15] then [!bit] + Xor(r, GENERATOR)[..15] else [bit] + r[..15]
  }

  /** The register before `bits` were fed, recovered from the register after. */
  function Unregister(r: Word, bits: seq<bool>): (r': Word)
    decreases |bits|
  {
    if bits == [] then r else Unfeed(Unregister(r, bits[1..]), bits[0])
  }

  /** Feeding any fixed bits is a bijection on the 16-bit state. */
  lemma {:induction false} RegisterBijective(r: Word, bits: seq<bool>)
    ensures Unregister(Register(r, bits), bits) == r
    ensures Register(Unregister(r, bits), bits) == r
    decreases |bits|
  {
    if bits != [] {
      RegisterBijective(Feed(r, bits[0]), bits[1..]);
      assert Unfeed(Feed(r, bits[0]), bits[0]) == r;
      var u := Unregister(r, bits[1..]);
      assert Feed(Unfeed(u, bits[0]), bits[0]) == u;
      RegisterBijective(r, bits[1..]);
    }
  }

  /** The difference of two runs is the run of the differences. */
  lemma {:induction false} RegisterXor(r: Word, s: Word, a: seq<bool>, b: seq<bool>)
    requires |a| == |b|
    ensures Xor(Register(r, a), Register(s, b)) == Register(Xor(r, s), Xor(a, b))
    decreases |a|
  {
    if a != [] {
      assert Xor(Feed(r, a[0]), Feed(s, b[0])) == Feed(Xor(r, s), a[0] != b[0]);
      assert Xor(a, b)[1..] == Xor(a[1..], b[1..]);
      RegisterXor(Feed(r, a[0]), Feed(s, b[0]), a[1..], b[1..]);
    }
  }

  lemma {:induction false} RegisterConcat(r: Word, a: seq<bool>, b: seq<bool>)
    ensures Register(r, a + b) == Register(Register(r, a), b)
    decreases |a|
  {
    if a == [] {
      assert a + b == b;
    } else {
      assert (a + b)[1..] == a[1..] + b;
      RegisterConcat(Feed(r, a[0]), a[1..], b);
    }
  }

  /** Feeding at most sixteen bits is adding them to the leading places and feeding zeros. */
  lemma {:induction false} FeedingIsAdding(r: Word, bits: seq<bool>)
    requires |bits| <= 16
    ensures Register(r, bits) == Register(Xor(r, bits + Off(16 - |bits|)), Off(|bits|))
    decreases |bits|
  {
    hide Xor, Feed;
    if bits == [] {
      assert Xor(r, bits + Off(16)) == r;
    } else {
      var tail := bits[1..];
      FeedingIsAdding(Feed(r, bits[0]), tail);
      FeedAdded(r, bits);
      assert Off(|bits|)[1..] == Off(|tail|);
    }
  }

  lemma FeedAdded(r: Word, bits: seq<bool>)
    requires 0 < |bits| <= 16
    ensures Xor(Feed(r, bits[0]), bits[1..] + Off(17 - |bits|)) == Feed(Xor(r, bits + Off(16 - |bits|)), false)
  {
  }

  /** Zeros shift a word whose leading bits are clear without feedback. */
  lemma {:induction false} LeadingZeros(r: Word, n: nat)
    requires n <= 16 && forall i :: 0 <= i < n ==> !r[i]
    ensures Register(r, Off(n)) == r[n..] + Off(n)
    decreases n
  {
    if n == 0 {
      assert r[n..] + Off(n) == r;
    } else {
      var s := Feed(r, false);
      LeadingZeros(s, n - 1);
      assert Off(n)[1..] == Off(n - 1);
      assert s[n - 1..] + Off(n - 1) == r[n..] + Off(n);
    }
  }

  lemma Halves(r: Word, bits: seq<bool>)
    requires |bits| == 8
    ensures Xor(r, bits + Off(8)) == Xor(Off(8) + r[8..], Xor(r[..8], bits) + Off(8))
  {
    var high := Xor(r[..8], bits) + Off(8);
    var low := Off(8) + r[8..];
    forall i | 0 <= i < 16 ensures Xor(r, bits + Off(8))[i] == Xor(low, high)[i] {
      assert i < 8 ==> Xor(r[..8], bits)[i] == (r[i] != bits[i]);
    }
  }

  /** The table-driven step: eight bits at once are the low half shifted up plus a value that depends on eight bits. */
  lemma ByteStep(r: Word, bits: seq<bool>)
    requires |bits| == 8
    ensures Register(r, bits) == Xor(r[8..] + Off(8), Register(Xor(r[..8], bits) + Off(8), Off(8)))
  {
    FeedingIsAdding(r, bits);
    Halves(r, bits);
    AddHalves(Off(8) + r[8..], Xor(r[..8], bits) + Off(8));
    LowHalf(r);
  }

  lemma AddHalves(low: Word, high: Word)
    ensures Register(Xor(low, high), Off(8)) == Xor(Register(low, Off(8)), Register(high, Off(8)))
  {
    RegisterXor(low, high, Off(8), Off(8));
    assert Xor(Off(8), Off(8)) == Off(8);
  }

  lemma LowHalf(r: Word)
    ensures Register(Off(8) + r[8..], Off(8)) == r[8..] + Off(8)
  {
    LeadingZeros(Off(8) + r[8..], 8);
    assert (Off(8) + r[8..])[8..] == r[8..];
  }

  // ---- Detection ----

  lemma ZeroStays(n: nat)
    ensures Register(Off(16), Off(n)) == Off(16)
    decreases n
  {
    if n > 0 {
      assert Off(n)[1..] == Off(n - 1);
      assert Feed(Off(16), false) == Off(16);
      ZeroStays(n - 1);
    }
  }

  lemma NonzeroStays(r: Word, n: nat)
    requires r != Off(16)
    ensures Register(r, Off(n)) != Off(16)
  {
    ZeroStays(n);
    RegisterBijective(r, Off(n));
    RegisterBijective(Off(16), Off(n));
  }

  lemma XorZero(a: seq<bool>, b: seq<bool>)
    requires |a| == |b|
    ensures a == b <==> Xor(a, b) == Off(|a|)
  {
    if Xor(a, b) == Off(|a|) {
      forall i | 0 <= i < |a| ensures a[i] == b[i] {
        assert Xor(a, b)[i] == Off(|a|)[i];
      }
    }
    if a == b {
      assert Xor(a, b) == Off(|a|);
    }
  }

  /** At most sixteen bits, not all clear, leave a nonzero register. */
  lemma WindowLeavesNonzero(w: seq<bool>, i: nat)
    requires |w| <= 16 && i < |w| && w[i]
    ensures Register(Off(16), w) != Off(16)
  {
    hide Register;
    var x := Xor(Off(16), w + Off(16 - |w|));
    assert x[i] && !Off(16)[i];
    FeedingIsAdding(Off(16), w);
    NonzeroStays(x, |w|);
  }

  /** A nonzero window between zeros leaves a nonzero register. */
  lemma BurstLeavesNonzero(lo: nat, w: seq<bool>, hi: nat, i: nat)
    requires |w| <= 16 && i < |w| && w[i]
    ensures Register(Off(16), Off(lo) + w + Off(hi)) != Off(16)
  {
    RegisterConcat(Off(16), Off(lo) + w, Off(hi));
    RegisterConcat(Off(16), Off(lo), w);
    ZeroStays(lo);
    WindowLeavesNonzero(w, i);
    NonzeroStays(Register(Off(16), w), hi);
  }

  /** Two messages of equal length that differ, and only inside a window of sixteen bits, leave different registers. */
  lemma BurstDetected(r: Word, a: seq<bool>, b: seq<bool>, from: nat)
    requires |a| == |b| && a != b
    requires forall i :: 0 <= i < |a| && !(from <= i < from + 16) ==> a[i] == b[i]
    ensures Register(r, a) != Register(r, b)
  {
    var i :| 0 <= i < |a| && a[i] != b[i];
    WindowOf(Xor(a, b), from, i);
    RegisterXor(r, r, a, b);
    XorZero(r, r);
    XorZero(Register(r, a), Register(r, b));
  }

  lemma WindowOf(d: seq<bool>, from: nat, i: nat)
    requires i < |d| && d[i] && forall j :: 0 <= j < |d| && d[j] ==> from <= j < from + 16
    ensures Register(Off(16), d) != Off(16)
  {
    var hi := if from + 16 <= |d| then from + 16 else |d|;
    hide Register, Off;
    Padded(d, from, hi);
    assert d[from..hi][i - from] == d[i];
    BurstLeavesNonzero(from, d[from..hi], |d| - hi, i - from);
  }

  lemma Padded(d: seq<bool>, from: nat, hi: nat)
    requires from <= hi <= |d| && forall j :: 0 <= j < |d| && d[j] ==> from <= j < hi
    ensures d == Off(from) + d[from..hi] + Off(|d| - hi)
  {
  }
}

/** The table-driven checksum on 16-bit words. */
module Crc {
  import opened Words
  import opened BitWords
  import opened CrcMath

  /** The bits of a byte sequence, most significant bit of each byte first. */
  function Bits(s: bytes): (b: seq<bool>)
    ensures |b| == 8 * |s|
  {
    if s == [] then [] else Bits(s[..|s| - 1]) + BitsOf(s[|s| - 1], 8)
  }

  function Xor16(a: uint16, b: uint16): uint16 {
    PowersOfTwo();
    Bitwise(XOR, a, b, 16)
  }

  // ---- The checksum, bit by bit ----

  function Shift(c: uint16): uint16 {
    if c >= 0x8000 then Xor16(2 * c % 0x1_0000, 0x1021) else 2 * c
  }

  function Shifts(c: uint16, n: nat): uint16 {
    if n == 0 then c else Shift(Shifts(c, n - 1))
  }

  /** The register after the bits of `s`, eight shifts to a byte. */
  function CrcFrom(c: uint16, s: bytes): uint16
    decreases |s|
  {
    if s == [] then c
    else Shifts(Xor16(CrcFrom(c, s[..|s| - 1]), (s[|s| - 1] as int) * 0x100), 8)
  }

  /** The CRC-16 of a byte sequence. */
  function Checksum(s: bytes): uint16 {
    CrcFrom(0xFFFF, s)
  }

  // ---- What the word operations do to the bits ----

  function WordBits(c: uint16): Word {
    BitsOf(c, 16)
  }

  lemma BitsOfXor(a: uint16, b: uint16)
    ensures WordBits(Xor16(a, b)) == Xor(WordBits(a), WordBits(b))
  {
    BitsOfBitwise(XOR, a, b, 16);
  }

  lemma SameWordBits(a: uint16, b: uint16)
    requires WordBits(a) == WordBits(b)
    ensures a == b
  {
    PowersOfTwo();
    SameBits(a, b, 16);
  }

  lemma BitsOfDouble(c: uint16)
    ensures WordBits(2 * c % 0x1_0000) == WordBits(c)[1..] + [false]
    ensures WordBits(c)[0] == (c >= 0x8000)
  {
    hide Power2;
    PowersOfTwo();
    forall i | 0 <= i < 16 ensures WordBits(2 * c % 0x1_0000)[i] == (WordBits(c)[1..] + [false])[i] {
      BitOfModulo(2 * c, 16, 15 - i);
    }
    BitOfQuotient(c, 15, 0);
  }

  lemma BitsOfLow(c: uint16)
    ensures BitsOf(c % 0x100, 8) == WordBits(c)[8..]
  {
    hide Power2;
    PowersOfTwo();
    forall i | 0 <= i < 8 ensures BitsOf(c % 0x100, 8)[i] == WordBits(c)[8 + i] {
      BitOfModulo(c, 8, 7 - i);
    }
  }

  lemma BitsOfHigh(c: uint16)
    ensures BitsOf(c / 0x100, 8) == WordBits(c)[..8]
    ensures WordBits(c / 0x100) == Off(8) + WordBits(c)[..8]
  {
    hide Power2;
    PowersOfTwo();
    forall i | 0 <= i < 8
      ensures BitsOf(c / 0x100, 8)[i] == WordBits(c)[i]
      ensures !WordBits(c / 0x100)[i]
      ensures WordBits(c / 0x100)[8 + i] == WordBits(c)[i]
    {
      BitOfQuotient(c, 8, 7 - i);
      BitsBeyond(c / 0x100, 8, 15 - i);
    }
  }

  lemma BitsOfRaised(b: byte)
    ensures WordBits((b as int) * 0x100) == BitsOf(b, 8) + Off(8)
  {
    hide Power2;
    PowersOfTwo();
    forall i | 0 <= i < 16 ensures WordBits((b as int) * 0x100)[i] == (BitsOf(b, 8) + Off(8))[i] {
      BitOfMultiple(b, 8, 15 - i);
    }
  }

  lemma BitsOfShift(c: uint16)
    ensures WordBits(Shift(c)) == Feed(WordBits(c), false)
  {
    hide BitsOf, BitAt, Bitwise, Power2, Xor16;
    BitsOfDouble(c);
    BitsOfXor(2 * c % 0x1_0000, 0x1021);
    BitsOfGenerator();
  }

  lemma HighBitsOfGenerator(i: nat)
    requires i < 8
    ensures BitAt(0x1021, 8 + i) == (i == 4)
  {
    assert BitAt(0x10, 4);
    assert !BitAt(0x10, 0) && !BitAt(0x10, 1) && !BitAt(0x10, 2) && !BitAt(0x10, 3);
    assert !BitAt(0x10, 5) && !BitAt(0x10, 6) && !BitAt(0x10, 7);
    PowersOfTwo();
    BitOfQuotient(0x1021, 8, i);
  }

  lemma LowBitsOfGenerator(i: nat)
    requires i < 8
    ensures BitAt(0x1021, i) == (i == 0 || i == 5)
  {
    assert BitAt(0x21, 0) && BitAt(0x21, 5);
    assert !BitAt(0x21, 1) && !BitAt(0x21, 2) && !BitAt(0x21, 3) && !BitAt(0x21, 4);
    assert !BitAt(0x21, 6) && !BitAt(0x21, 7);
    PowersOfTwo();
    BitOfModulo(0x1021, 8, i);
  }

  lemma BitsOfGenerator()
    ensures WordBits(0x1021) == GENERATOR
  {
    forall i | 0 <= i < 16 ensures WordBits(0x1021)[i] == (i == 3 || i == 10 || i == 15) {
      if i < 8 {
        HighBitsOfGenerator(7 - i);
      } else {
        LowBitsOfGenerator(15 - i);
      }
    }
  }

  lemma BitsOfInitial()
    ensures WordBits(0xFFFF) == seq(16, _ => true)
  {
    hide Power2;
    PowersOfTwo();
    forall i | 0 <= i < 16 ensures WordBits(0xFFFF)[i] {
      BitsOfAllOnes(16, 15 - i);
    }
  }

  lemma {:induction false} BitsOfShifts(c: uint16, n: nat)
    ensures WordBits(Shifts(c, n)) == Register(WordBits(c), Off(n))
  {
    if n > 0 {
      BitsOfShifts(c, n - 1);
      BitsOfShift(Shifts(c, n - 1));
      RegisterConcat(WordBits(c), Off(n - 1), [false]);
      assert Off(n) == Off(n - 1) + [false];
    }
  }

  /** A byte folded into the register by eight shifts. */
  lemma BitsOfByteStep(c: uint16, b: byte)
    ensures WordBits(Shifts(Xor16(c, (b as int) * 0x100), 8)) == Register(WordBits(c), BitsOf(b, 8))
  {
    var x := Xor16(c, (b as int) * 0x100);
    BitsOfXor(c, (b as int) * 0x100);
    BitsOfRaised(b);
    BitsOfShifts(x, 8);
    FeedingIsAdding(WordBits(c), BitsOf(b, 8));
  }

  lemma {:induction false} BitsOfCrc(c: uint16, s: bytes)
    ensures WordBits(CrcFrom(c, s)) == Register(WordBits(c), Bits(s))
    decreases |s|
  {
    if s != [] {
      var init, last := s[..|s| - 1], s[|s| - 1];
      BitsOfCrc(c, init);
      BitsOfByteStep(CrcFrom(c, init), last);
      RegisterConcat(WordBits(c), Bits(init), BitsOf(last, 8));
    }
  }

  /** The checksum is the remainder, on division by x^16 + x^12 + x^5 + 1, of the message times x^16 with its
      first sixteen terms complemented. */
  lemma ChecksumIsRemainder(s: bytes)
    ensures WordBits(Checksum(s)) == Remainder(Dividend(seq(16, _ => true), Bits(s)))
  {
    BitsOfCrc(0xFFFF, s);
    BitsOfInitial();
    RegisterIsRemainder(WordBits(0xFFFF), Bits(s));
  }

  /** Damage confined to sixteen consecutive bits changes the checksum. */
  lemma ChecksumDetectsBurst(s: bytes, t: bytes, from: nat)
    requires |s| == |t| && s != t
    requires forall i {:trigger Bits(s)[i]} :: 0 <= i < 8 * |s| && !(from <= i < from + 16) ==> Bits(s)[i] == Bits(t)[i]
    ensures Checksum(s) != Checksum(t)
  {
    if Bits(s) == Bits(t) {
      BytesFromBits(s, t);
    }
    BurstDetected(WordBits(0xFFFF), Bits(s), Bits(t), from);
    BitsOfCrc(0xFFFF, s);
    BitsOfCrc(0xFFFF, t);
  }

  lemma {:induction false} BytesFromBits(s: bytes, t: bytes)
    requires |s| == |t| && Bits(s) == Bits(t)
    ensures s == t
  {
    if s != [] {
      var n := |s| - 1;
      assert Bits(s)[..8 * n] == Bits(s[..n]) && Bits(t)[..8 * n] == Bits(t[..n]);
      assert Bits(s)[8 * n..] == BitsOf(s[n], 8) && Bits(t)[8 * n..] == BitsOf(t[n], 8);
      BytesFromBits(s[..n], t[..n]);
      PowersOfTwo();
      SameBits(s[n], t[n], 8);
      assert s == s[..n] + [s[n]] && t == t[..n] + [t[n]];
    }
  }

  /** Folding in one more byte is a bijection of the checksum so far. */
  lemma ByteStepBijective(c: uint16, d: uint16, b: byte)
    ensures CrcFrom(c, [b]) == CrcFrom(d, [b]) <==> c == d
    ensures exists e: uint16 :: CrcFrom(e, [b]) == c
  {
    BitsOfCrc(c, [b]);
    BitsOfCrc(d, [b]);
    RegisterBijective(WordBits(c), Bits([b]));
    RegisterBijective(WordBits(d), Bits([b]));
    if CrcFrom(c, [b]) == CrcFrom(d, [b]) {
      SameWordBits(c, d);
    }
    ByteStepOnto(c, b);
  }

  lemma ByteStepOnto(c: uint16, b: byte)
    ensures exists e: uint16 :: CrcFrom(e, [b]) == c
  {
    hide Power2, Register, Unregister, BitsOf, Value, CrcFrom;
    PowersOfTwo();
    var before := Unregister(WordBits(c), Bits([b]));
    var e: uint16 := Value(before);
    BitsOfValue(before);
    BitsOfCrc(e, [b]);
    RegisterBijective(WordBits(c), Bits([b]));
    SameWordBits(CrcFrom(e, [b]), c);
  }

  // ---- The table ----

  /** One lookup does the work of eight steps of the register. */
  lemma TableStep(c: uint16, b: byte)
    ensures Xor16(c % 0x100 * 0x100, Shifts(Xor16(c / 0x100, b) % 0x100 * 0x100, 8))
         == Shifts(Xor16(c, (b as int) * 0x100), 8)
  {
    hide BitAt, BitsOf, Xor16, Register, Shifts;
    var x := Xor16(c / 0x100, b) % 0x100;
    var entry := Shifts(x * 0x100, 8);
    BitsOfTableIndex(c, b);
    BitsOfRaised(x);
    BitsOfShifts(x * 0x100, 8);
    BitsOfLow(c);
    BitsOfRaised(c % 0x100);
    BitsOfXor(c % 0x100 * 0x100, entry);
    ByteStep(WordBits(c), BitsOf(b, 8));
    BitsOfByteStep(c, b);
    SameWordBits(Xor16(c % 0x100 * 0x100, entry), Shifts(Xor16(c, (b as int) * 0x100), 8));
  }

  lemma BitsOfTableIndex(c: uint16, b: byte)
    ensures BitsOf(Xor16(c / 0x100, b) % 0x100, 8) == Xor(WordBits(c)[..8], BitsOf(b, 8))
  {
    hide BitAt, BitsOf, Xor16;
    BitsOfHigh(c);
    BitsOfLow(b);
    BitsOfXor(c / 0x100, b);
    BitsOfLow(Xor16(c / 0x100, b));
  }

  /** The lookup table, built at first use and cached. */
  class CrcTable {
    const table: array<uint16>
    var ready: bool

    ghost predicate Valid()
      reads this, table
    {
      && table.Length == 256
      && (ready ==> forall i :: 0 <= i < 256 ==> table[i] == Shifts(i * 0x100, 8))
    }

    constructor ()
      ensures Valid() && fresh(table)
    {
      table := new uint16[256];
      ready := false;
    }

    method BuildTable()
      requires Valid()
      modifies this, table
      ensures Valid() && ready
    {
      for i := 0 to 256
        invariant forall k :: 0 <= k < i ==> table[k] == Shifts(k * 0x100, 8)
      {
        var crc: uint16 := i * 0x100;
        for j := 0 to 8
          invariant crc == Shifts(i * 0x100, j)
        {
          if crc >= 0x8000 {
            crc := Xor16(2 * crc % 0x1_0000, 0x1021);
          } else {
            crc := 2 * crc;
          }
        }
        table[i] := crc;
      }
      ready := true;
    }

    /** The CRC-16 of a buffer by table lookup. */
    method Crc16(data: bytes) returns (crc: uint16)
      requires Valid()
      modifies this, table
      ensures Valid() && ready
      ensures crc == Checksum(data)
    {
      if !ready {
        BuildTable();
      }
      crc := 0xFFFF;
      for i := 0 to |data|
        invariant Valid() && ready
        invariant crc == CrcFrom(0xFFFF, data[..i])
      {
        TableStep(crc, data[i]);
        assert data[..i + 1][..i] == data[..i];
        crc := Xor16(crc % 0x100 * 0x100, table[Xor16(crc / 0x100, data[i]) % 0x100]);
      }
      assert data[..|data|] == data;
    }
  }
}
