/** The operations on words, which are defined on numbers, are those of 32-bit machine words. */
module MachineWords {
  import opened Words
  import opened BitWords
  import opened Sha1Standard

  // ---- The operations of the machine ----

  datatype Machine = Machine(bits: bv32)

  function Half(x: Machine): Machine { Machine(x.bits >> 1) }

  predicate Odd(x: Machine) { x.bits & 1 == 1 }

  function And(x: Machine, y: Machine): Machine { Machine(x.bits & y.bits) }

  function Or(x: Machine, y: Machine): Machine { Machine(x.bits | y.bits) }

  function Xor(x: Machine, y: Machine): Machine { Machine(x.bits ^ y.bits) }

  function Not(x: Machine): Machine { Machine(!x.bits) }

  function Turn1(x: Machine): Machine { Machine((x.bits << 1) | (x.bits >> 31)) }

  function Turn5(x: Machine): Machine { Machine((x.bits << 5) | (x.bits >> 27)) }

  function Turn30(x: Machine): Machine { Machine((x.bits << 30) | (x.bits >> 2)) }

  // ---- The number of a machine word ----

  /** The bit of weight 2^i of a machine word. */
  predicate Bit(x: Machine, i: nat)
    decreases i
  {
    if i == 0 then Odd(x) else Bit(Half(x), i - 1)
  }

  /** The number that the low `n` bits of a machine word stand for. */
  function Low(x: Machine, n: nat): nat
    decreases n
  {
    if n == 0 then 0 else (if Odd(x) then 1 else 0) + 2 * Low(Half(x), n - 1)
  }

  function Number(x: Machine): uint32 {
    LowBits(x, 32, 0);
    PowersOfTwo();
    Low(x, 32)
  }

  lemma {:induction false} LowBits(x: Machine, n: nat, i: nat)
    ensures Low(x, n) < Power2(n)
    ensures i < n ==> (BitAt(Low(x, n), i) <==> Bit(x, i))
    decreases n
  {
    hide Half, Odd;
    if n > 0 {
      LowBits(Half(x), n - 1, if i == 0 then 0 else i - 1);
      assert Low(x, n) / 2 == Low(Half(x), n - 1);
    }
  }

  /** The bits of a number are those of the machine word. */
  lemma BitOfNumber(x: Machine, i: nat)
    requires i < 32
    ensures BitAt(Number(x), i) <==> Bit(x, i)
  {
    hide Half, Odd, Bit, BitAt, Low;
    LowBits(x, 32, i);
  }

  /** Machine words with the same bits have the same number. */
  lemma SameNumber(a: uint32, x: Machine)
    requires forall i :: 0 <= i < 32 ==> BitAt(a, i) == Bit(x, i)
    ensures a == Number(x)
  {
    hide Number, Bit, BitAt;
    forall i | 0 <= i < 32 ensures BitAt(a, i) == BitAt(Number(x), i) {
      assert BitAt(a, i) == Bit(x, i);
      BitOfNumber(x, i);
    }
    SameWords(a, Number(x));
  }

  // ---- Reading the number off the digits ----

  function Digit(x: Machine): nat {
    (if x.bits & 8 == 8 then 8 else 0) + (if x.bits & 4 == 4 then 4 else 0) + (if x.bits & 2 == 2 then 2 else 0)
    + (if x.bits & 1 == 1 then 1 else 0)
  }

  function Next(x: Machine): Machine { Machine(x.bits >> 4) }

  lemma DigitBits(x: Machine)
    ensures Half(Half(Half(Half(x)))) == Next(x)
    ensures Odd(Half(x)) <==> x.bits & 2 == 2
    ensures Odd(Half(Half(x))) <==> x.bits & 4 == 4
    ensures Odd(Half(Half(Half(x)))) <==> x.bits & 8 == 8
  {
  }

  lemma DigitIs(x: Machine)
    ensures Half(Half(Half(Half(x)))) == Next(x)
    ensures Digit(x)
      == (if Odd(x) then 1 else 0) + 2 * (if Odd(Half(x)) then 1 else 0) + 4 * (if Odd(Half(Half(x))) then 1 else 0)
         + 8 * (if Odd(Half(Half(Half(x)))) then 1 else 0)
  {
    hide Half, Next;
    DigitBits(x);
  }

  lemma FourBits(x: Machine, n: nat)
    ensures Low(x, n + 4) == Digit(x) + 16 * Low(Next(x), n)
  {
    hide Half, Odd, Next, Digit, Low;
    DigitIs(x);
    LowStep(x, n + 4);
    LowStep(Half(x), n + 3);
    LowStep(Half(Half(x)), n + 2);
    LowStep(Half(Half(Half(x))), n + 1);
  }

  lemma LowStep(x: Machine, n: nat)
    requires n > 0
    ensures Low(x, n) == (if Odd(x) then 1 else 0) + 2 * Low(Half(x), n - 1)
  {
    hide Half, Odd;
  }

  lemma {:induction false} DigitsFrom(x: Machine, n: nat)
    ensures Low(x, 4 * n) == HexValue(x, n)
    decreases n
  {
    hide Digit, Half, Odd, Next;
    if n == 0 {
      LowNone(x);
    } else {
      FourBits(x, 4 * (n - 1));
      DigitsFrom(Next(x), n - 1);
    }
  }

  /** The number with the low `n` hexadecimal digits of a machine word. */
  function HexValue(x: Machine, n: nat): nat
    decreases n
  {
    if n == 0 then 0 else Digit(x) + 16 * HexValue(Next(x), n - 1)
  }

  lemma LowNone(x: Machine)
    ensures Low(x, 0) == 0
  {
  }

  /** A machine word read as eight hexadecimal digits. */
  lemma EightDigits(x: Machine)
    ensures var x1 := Next(x);
      var x2 := Next(x1);
      var x3 := Next(x2);
      var x4 := Next(x3);
      var x5 := Next(x4);
      var x6 := Next(x5);
      Number(x) == Digit(x) + 0x10 * Digit(x1) + 0x100 * Digit(x2) + 0x1000 * Digit(x3) + 0x1_0000 * Digit(x4)
         + 0x10_0000 * Digit(x5) + 0x100_0000 * Digit(x6) + 0x1000_0000 * Digit(Next(x6))
  {
    hide Digit, Half, Odd, Next, Low, Bit;
    DigitsFrom(x, 8);
  }

  // ---- Reading the number off the bits ----

  /** The weights of the bits of a machine word, added up. */
  function Weights(x: Machine): nat {
    (if x.bits & 1 == 1 then 1 else 0) + (if (x.bits >> 1) & 1 == 1 then 0x2 else 0)
    + (if (x.bits >> 2) & 1 == 1 then 0x4 else 0) + (if (x.bits >> 3) & 1 == 1 then 0x8 else 0)
    + (if (x.bits >> 4) & 1 == 1 then 0x10 else 0) + (if (x.bits >> 5) & 1 == 1 then 0x20 else 0)
    + (if (x.bits >> 6) & 1 == 1 then 0x40 else 0) + (if (x.bits >> 7) & 1 == 1 then 0x80 else 0)
    + (if (x.bits >> 8) & 1 == 1 then 0x100 else 0) + (if (x.bits >> 9) & 1 == 1 then 0x200 else 0)
    + (if (x.bits >> 10) & 1 == 1 then 0x400 else 0) + (if (x.bits >> 11) & 1 == 1 then 0x800 else 0)
    + (if (x.bits >> 12) & 1 == 1 then 0x1000 else 0) + (if (x.bits >> 13) & 1 == 1 then 0x2000 else 0)
    + (if (x.bits >> 14) & 1 == 1 then 0x4000 else 0) + (if (x.bits >> 15) & 1 == 1 then 0x8000 else 0)
    + (if (x.bits >> 16) & 1 == 1 then 0x1_0000 else 0) + (if (x.bits >> 17) & 1 == 1 then 0x2_0000 else 0)
    + (if (x.bits >> 18) & 1 == 1 then 0x4_0000 else 0) + (if (x.bits >> 19) & 1 == 1 then 0x8_0000 else 0)
    + (if (x.bits >> 20) & 1 == 1 then 0x10_0000 else 0) + (if (x.bits >> 21) & 1 == 1 then 0x20_0000 else 0)
    + (if (x.bits >> 22) & 1 == 1 then 0x40_0000 else 0) + (if (x.bits >> 23) & 1 == 1 then 0x80_0000 else 0)
    + (if (x.bits >> 24) & 1 == 1 then 0x100_0000 else 0) + (if (x.bits >> 25) & 1 == 1 then 0x200_0000 else 0)
    + (if (x.bits >> 26) & 1 == 1 then 0x400_0000 else 0) + (if (x.bits >> 27) & 1 == 1 then 0x800_0000 else 0)
    + (if (x.bits >> 28) & 1 == 1 then 0x1000_0000 else 0) + (if (x.bits >> 29) & 1 == 1 then 0x2000_0000 else 0)
    + (if (x.bits >> 30) & 1 == 1 then 0x4000_0000 else 0) + (if (x.bits >> 31) & 1 == 1 then 0x8000_0000 else 0)
  }

  lemma WeightsInFours(x: Machine)
    ensures Weights(x)
      == Weights0(x) + Weights1(x) + Weights2(x) + Weights3(x) + Weights4(x) + Weights5(x) + Weights6(x) + Weights7(x)
  {
  }

  function Weights0(x: Machine): nat {
    (if x.bits & 1 == 1 then 1 else 0) + (if (x.bits >> 1) & 1 == 1 then 0x2 else 0)
    + (if (x.bits >> 2) & 1 == 1 then 0x4 else 0) + (if (x.bits >> 3) & 1 == 1 then 0x8 else 0)
  }

  function Weights1(x: Machine): nat {
    (if (x.bits >> 4) & 1 == 1 then 0x10 else 0) + (if (x.bits >> 5) & 1 == 1 then 0x20 else 0)
    + (if (x.bits >> 6) & 1 == 1 then 0x40 else 0) + (if (x.bits >> 7) & 1 == 1 then 0x80 else 0)
  }

  function Weights2(x: Machine): nat {
    (if (x.bits >> 8) & 1 == 1 then 0x100 else 0) + (if (x.bits >> 9) & 1 == 1 then 0x200 else 0)
    + (if (x.bits >> 10) & 1 == 1 then 0x400 else 0) + (if (x.bits >> 11) & 1 == 1 then 0x800 else 0)
  }

  function Weights3(x: Machine): nat {
    (if (x.bits >> 12) & 1 == 1 then 0x1000 else 0) + (if (x.bits >> 13) & 1 == 1 then 0x2000 else 0)
    + (if (x.bits >> 14) & 1 == 1 then 0x4000 else 0) + (if (x.bits >> 15) & 1 == 1 then 0x8000 else 0)
  }

  function Weights4(x: Machine): nat {
    (if (x.bits >> 16) & 1 == 1 then 0x1_0000 else 0) + (if (x.bits >> 17) & 1 == 1 then 0x2_0000 else 0)
    + (if (x.bits >> 18) & 1 == 1 then 0x4_0000 else 0) + (if (x.bits >> 19) & 1 == 1 then 0x8_0000 else 0)
  }

  function Weights5(x: Machine): nat {
    (if (x.bits >> 20) & 1 == 1 then 0x10_0000 else 0) + (if (x.bits >> 21) & 1 == 1 then 0x20_0000 else 0)
    + (if (x.bits >> 22) & 1 == 1 then 0x40_0000 else 0) + (if (x.bits >> 23) & 1 == 1 then 0x80_0000 else 0)
  }

  function Weights6(x: Machine): nat {
    (if (x.bits >> 24) & 1 == 1 then 0x100_0000 else 0) + (if (x.bits >> 25) & 1 == 1 then 0x200_0000 else 0)
    + (if (x.bits >> 26) & 1 == 1 then 0x400_0000 else 0) + (if (x.bits >> 27) & 1 == 1 then 0x800_0000 else 0)
  }

  function Weights7(x: Machine): nat {
    (if (x.bits >> 28) & 1 == 1 then 0x1000_0000 else 0) + (if (x.bits >> 29) & 1 == 1 then 0x2000_0000 else 0)
    + (if (x.bits >> 30) & 1 == 1 then 0x4000_0000 else 0) + (if (x.bits >> 31) & 1 == 1 then 0x8000_0000 else 0)
  }

  lemma NumberIsWeights(x: Machine)
    ensures Number(x) == Weights(x)
  {
    hide Number, Weights, Digit, Next;
    EightDigits(x);
    DigitsAreWeights(x);
  }

  lemma DigitsAreWeights(x: Machine)
    ensures var x1 := Next(x);
      var x2 := Next(x1);
      var x3 := Next(x2);
      var x4 := Next(x3);
      var x5 := Next(x4);
      var x6 := Next(x5);
      Weights(x) == Digit(x) + 0x10 * Digit(x1) + 0x100 * Digit(x2) + 0x1000 * Digit(x3) + 0x1_0000 * Digit(x4)
         + 0x10_0000 * Digit(x5) + 0x100_0000 * Digit(x6) + 0x1000_0000 * Digit(Next(x6))
  {
    hide Digit, Next, Weights, Weights0, Weights1, Weights2, Weights3, Weights4, Weights5, Weights6, Weights7;
    WeightsInFours(x);
    Digit0(x);
    Digit1(x);
    Digit2(x);
    Digit3(x);
    Digit4(x);
    Digit5(x);
    Digit6(x);
    Digit7(x);
  }

  lemma Digit0(x: Machine)
    ensures Digit(x) == Weights0(x)
  {
  }

  lemma Digit1(x: Machine)
    ensures 0x10 * Digit(Next(x)) == Weights1(x)
  {
  }

  lemma Digit2(x: Machine)
    ensures 0x100 * Digit(Next(Next(x))) == Weights2(x)
  {
  }

  lemma Digit3(x: Machine)
    ensures 0x1000 * Digit(Next(Next(Next(x)))) == Weights3(x)
  {
  }

  lemma Digit4(x: Machine)
    ensures 0x1_0000 * Digit(Next(Next(Next(Next(x))))) == Weights4(x)
  {
  }

  lemma Digit5(x: Machine)
    ensures 0x10_0000 * Digit(Next(Next(Next(Next(Next(x)))))) == Weights5(x)
  {
  }

  lemma Digit6(x: Machine)
    ensures 0x100_0000 * Digit(Next(Next(Next(Next(Next(Next(x))))))) == Weights6(x)
  {
  }

  lemma Digit7(x: Machine)
    ensures 0x1000_0000 * Digit(Next(Next(Next(Next(Next(Next(Next(x)))))))) == Weights7(x)
  {
  }

  // ---- And, or, exclusive or, complement ----

  lemma HalfOfAnd(x: Machine, y: Machine)
    ensures Half(And(x, y)) == And(Half(x), Half(y))
  {
  }

  lemma HalfOfOr(x: Machine, y: Machine)
    ensures Half(Or(x, y)) == Or(Half(x), Half(y))
  {
  }

  lemma HalfOfXor(x: Machine, y: Machine)
    ensures Half(Xor(x, y)) == Xor(Half(x), Half(y))
  {
  }

  lemma OddOfAnd(x: Machine, y: Machine)
    ensures Odd(And(x, y)) <==> Odd(x) && Odd(y)
  {
  }

  lemma OddOfOr(x: Machine, y: Machine)
    ensures Odd(Or(x, y)) <==> Odd(x) || Odd(y)
  {
  }

  lemma OddOfXor(x: Machine, y: Machine)
    ensures Odd(Xor(x, y)) <==> Odd(x) != Odd(y)
  {
  }

  lemma {:induction false} BitOfOperators(x: Machine, y: Machine, i: nat)
    ensures Bit(And(x, y), i) <==> Bit(x, i) && Bit(y, i)
    ensures Bit(Or(x, y), i) <==> Bit(x, i) || Bit(y, i)
    ensures Bit(Xor(x, y), i) <==> Bit(x, i) != Bit(y, i)
    decreases i
  {
    hide Half, Odd, And, Or, Xor;
    OddOfAnd(x, y);
    OddOfOr(x, y);
    OddOfXor(x, y);
    if i > 0 {
      HalfOfAnd(x, y);
      HalfOfOr(x, y);
      HalfOfXor(x, y);
      BitOfOperators(Half(x), Half(y), i - 1);
    }
  }

  lemma WordIsMachine(x: Machine, y: Machine)
    ensures Word(AND, Number(x), Number(y)) == Number(And(x, y))
    ensures Word(OR, Number(x), Number(y)) == Number(Or(x, y))
    ensures Word(XOR, Number(x), Number(y)) == Number(Xor(x, y))
  {
    hide Word, Number, Bit, BitAt, And, Or, Xor;
    forall i | 0 <= i < 32
      ensures BitAt(Word(AND, Number(x), Number(y)), i) == Bit(And(x, y), i)
      ensures BitAt(Word(OR, Number(x), Number(y)), i) == Bit(Or(x, y), i)
      ensures BitAt(Word(XOR, Number(x), Number(y)), i) == Bit(Xor(x, y), i)
    {
      BitOfOperators(x, y, i);
      BitOfNumber(x, i);
      BitOfNumber(y, i);
      BitOfWord(AND, Number(x), Number(y), i);
      BitOfWord(OR, Number(x), Number(y), i);
      BitOfWord(XOR, Number(x), Number(y), i);
    }
    SameNumber(Word(AND, Number(x), Number(y)), And(x, y));
    SameNumber(Word(OR, Number(x), Number(y)), Or(x, y));
    SameNumber(Word(XOR, Number(x), Number(y)), Xor(x, y));
  }

  function Ones(): Machine { Machine(0xFFFF_FFFF) }

  /** All bits but the top one. */
  function Rest(): Machine { Machine(0x7FFF_FFFF) }

  lemma OnesNumber()
    ensures Number(Ones()) == 0xFFFF_FFFF && Number(Rest()) == 0x7FFF_FFFF
  {
    hide Number;
    EightDigits(Ones());
    EightDigits(Rest());
  }

  lemma AllOnes(i: nat)
    requires i < 32
    ensures Bit(Ones(), i)
    ensures i < 31 ==> Bit(Rest(), i)
  {
    hide Bit, Number, Ones, Rest;
    OnesNumber();
    PowersOfTwo();
    assert Power2(32) == 2 * Power2(31);
    BitsOfAllOnes(32, i);
    BitOfNumber(Ones(), i);
    if i < 31 {
      BitsOfAllOnes(31, i);
      BitOfNumber(Rest(), i);
    }
  }

  lemma NotIsXor(x: Machine)
    ensures Not(x) == Xor(x, Ones())
  {
  }

  lemma ComplementIsMachine(x: Machine)
    ensures Complement(Number(x)) == Number(Not(x))
  {
    hide Bit, Number, BitAt, Not, Xor, Ones;
    NotIsXor(x);
    forall i | 0 <= i < 32 ensures BitAt(Complement(Number(x)), i) == Bit(Not(x), i) {
      PowersOfTwo();
      BitOfComplement(Number(x), 32, i);
      BitOfNumber(x, i);
      BitOfOperators(x, Ones(), i);
      AllOnes(i);
    }
    SameNumber(Complement(Number(x)), Not(x));
  }

  // ---- Rotation ----

  /** Rotated by one bit `n` times. */
  function Turned(x: Machine, n: nat): Machine
    decreases n
  {
    if n == 0 then x else Turned(Turn1(x), n - 1)
  }

  function Top(x: Machine): Machine { Machine(x.bits >> 31) }

  lemma TopDigit(x: Machine)
    ensures Top(x) == Machine(1) <==> Digit(Next(Next(Next(Next(Next(Next(Next(x)))))))) >= 8
  {
  }

  lemma TopBit(x: Machine)
    ensures Bit(x, 31) <==> Top(x) == Machine(1)
  {
    hide Bit, Number, BitAt, Digit, Top, Next, Power2;
    BitOfNumber(x, 31);
    PowersOfTwo();
    Power31();
    BitOfQuotient(Number(x), 31, 0);
    TopDigit(x);
    EightDigits(x);
    LowestBit(Quotient(Number(x), Power2(31)));
    SmallDigits();
  }

  lemma Power31()
    ensures Power2(31) == 0x8000_0000
  {
    hide Power2;
    PowersOfTwo();
    DoublePower(31);
  }

  lemma DoublePower(n: nat)
    ensures Power2(n + 1) == 2 * Power2(n)
  {
  }

  lemma LowestBit(c: nat)
    ensures BitAt(c, 0) <==> c % 2 == 1
  {
  }

  lemma SmallDigits()
    ensures forall x :: Digit(x) <= 15
  {
  }

  lemma TurnedEnds(x: Machine)
    ensures Odd(Turn1(x)) <==> Top(x) == Machine(1)
    ensures Half(Turn1(x)) == And(x, Rest())
  {
    TurnedLowest(x.bits);
    TurnedOthers(x.bits);
  }

  lemma TurnedLowest(x: bv32)
    ensures ((x << 1) | (x >> 31)) & 1 == x >> 31
  {
  }

  lemma TurnedOthers(x: bv32)
    ensures ((x << 1) | (x >> 31)) >> 1 == x & 0x7FFF_FFFF
  {
  }

  lemma BitOfTurned(x: Machine, i: nat)
    requires i < 32
    ensures Bit(Turn1(x), i) <==> Bit(x, (i + 31) % 32)
  {
    hide Odd, Half, Turn1, And, Top, Rest;
    TurnedEnds(x);
    if i == 0 {
      TopBit(x);
    } else {
      AllOnes(i - 1);
      BitOfOperators(x, Rest(), i - 1);
      assert (i + 31) % 32 == i - 1;
    }
  }

  lemma RotateOne(x: Machine)
    ensures RotateLeft(Number(x), 1) == Number(Turn1(x))
  {
    hide Bit, Number, BitAt, RotateLeft, Turn1;
    forall i | 0 <= i < 32 ensures BitAt(RotateLeft(Number(x), 1), i) == Bit(Turn1(x), i) {
      BitOfRotated(Number(x), 1, i);
      BitOfTurned(x, i);
      BitOfNumber(x, (i + 31) % 32);
    }
    SameNumber(RotateLeft(Number(x), 1), Turn1(x));
  }

  lemma {:induction false} RotateIsTurned(x: Machine, n: nat)
    requires n < 32
    ensures RotateLeft(Number(x), n) == Number(Turned(x, n))
    decreases n
  {
    hide Number, RotateLeft, Turn1;
    if n == 0 {
      RotateNone(Number(x));
    } else {
      RotateOne(x);
      RotateIsTurned(Turn1(x), n - 1);
      RotateTwice(Number(x), n - 1);
    }
  }

  lemma FiveTurns(x: Machine)
    ensures Turned(x, 5) == Turn5(x)
  {
  }

  lemma {:induction false} TurnedMore(x: Machine, m: nat, n: nat)
    ensures Turned(x, m + n) == Turned(Turned(x, m), n)
    decreases m
  {
    hide Turn1;
    if m > 0 {
      TurnedMore(Turn1(x), m - 1, n);
    }
  }

  lemma SixTimesFive(x: Machine)
    ensures Turn5(Turn5(Turn5(Turn5(Turn5(Turn5(x)))))) == Turn30(x)
  {
  }

  lemma ThirtyTurns(x: Machine)
    ensures Turned(x, 30) == Turn30(x)
  {
    hide Turn1, Turn5, Turn30, Turned;
    var y := Turn5(x);
    FiveMore(x, 25);
    FiveMore(y, 20);
    FiveMore(Turn5(y), 15);
    FiveMore(Turn5(Turn5(y)), 10);
    FiveMore(Turn5(Turn5(Turn5(y))), 5);
    FiveTurns(Turn5(Turn5(Turn5(Turn5(y)))));
    SixTimesFive(x);
  }

  lemma FiveMore(x: Machine, n: nat)
    ensures Turned(x, n + 5) == Turned(Turn5(x), n)
  {
    hide Turn1, Turn5, Turned;
    TurnedMore(x, 5, n);
    FiveTurns(x);
  }

  lemma RotateIsMachine(x: Machine)
    ensures RotateLeft(Number(x), 1) == Number(Turn1(x))
    ensures RotateLeft(Number(x), 5) == Number(Turn5(x))
    ensures RotateLeft(Number(x), 30) == Number(Turn30(x))
  {
    hide Number, RotateLeft, Turn1, Turn5, Turn30, Turned;
    RotateOne(x);
    RotateIsTurned(x, 5);
    RotateIsTurned(x, 30);
    FiveTurns(x);
    ThirtyTurns(x);
  }
}
