/** The secure hash algorithm of FIPS 180-4, on whole messages. */
module Sha1Standard {
  import opened Words
  import opened BitWords

  const BLOCK := 64

  type Block = b: bytes | |b| == 64 witness Zeros(64)

  function Word(op: Operator, a: uint32, b: uint32): uint32 {
    PowersOfTwo();
    Bitwise(op, a, b, 32)
  }

  function Complement(a: uint32): uint32 {
    0xFFFF_FFFF - a
  }

  function Plus(a: uint32, b: uint32): uint32 {
    (a as int + b as int) % 0x1_0000_0000
  }

  /** Circular left shift (section 3.2). */
  function RotateLeft(x: uint32, n: nat): uint32
    requires n < 32
  {
    Word(OR, x * Power2(n) % 0x1_0000_0000, Quotient(x, Power2(32 - n)))
  }

  // ---- Functions and constants (sections 4.1.1 and 4.2.1) ----

  function Choose(x: uint32, y: uint32, z: uint32): uint32 {
    Word(XOR, Word(AND, x, y), Word(AND, Complement(x), z))
  }

  function Parity(x: uint32, y: uint32, z: uint32): uint32 {
    Word(XOR, Word(XOR, x, y), z)
  }

  function Majority(x: uint32, y: uint32, z: uint32): uint32 {
    Word(XOR, Word(XOR, Word(AND, x, y), Word(AND, x, z)), Word(AND, y, z))
  }

  function Mix(t: nat, x: uint32, y: uint32, z: uint32): uint32 {
    if t < 20 then Choose(x, y, z)
    else if 40 <= t < 60 then Majority(x, y, z)
    else Parity(x, y, z)
  }

  function Constant(t: nat): uint32 {
    if t < 20 then 0x5A82_7999 else if t < 40 then 0x6ED9_EBA1 else if t < 60 then 0x8F1B_BCDC else 0xCA62_C1D6
  }

  /** The constants are 2^30 times the square roots of 2, 3, 5 and 10, rounded down. */
  lemma ConstantIsRoot(t: nat)
    ensures var c, k := Constant(t) as int, if t < 20 then 2 else if t < 40 then 3 else if t < 60 then 5 else 10;
      c * c <= k * 0x1000_0000_0000_0000 < (c + 1) * (c + 1)
  {
  }

  // ---- Words and bytes, most significant first ----

  function BE32(v: uint32): (b: bytes)
    ensures |b| == 4
  {
    [v / 0x100_0000, v / 0x1_0000 % 0x100, v / 0x100 % 0x100, v % 0x100]
  }

  function UnBE32(b: bytes): uint32
    requires |b| == 4
  {
    HornerDigits(b[3], b[2], b[1], b[0]);
    Horner(b[3], b[2], b[1], b[0])
  }

  // ---- Padding (section 5.1.1) ----

  /** The number of zero bytes between the marker and the length: the least that ends the message on a block. */
  function ZeroBytes(n: nat): (z: nat)
    ensures z < BLOCK && (n + 1 + z + 8) % BLOCK == 0
  {
    (BLOCK + 55 - n % BLOCK) % BLOCK
  }

  function BE64(v: nat): (b: bytes)
    ensures |b| == 8
  {
    BE32(v / 0x1_0000_0000 % 0x1_0000_0000) + BE32(v % 0x1_0000_0000)
  }

  function Padded(m: bytes): (p: bytes)
    ensures |p| % BLOCK == 0
  {
    m + [0x80] + Zeros(ZeroBytes(|m|)) + BE64(8 * |m|)
  }

  // ---- Computation (section 6.1.2) ----

  datatype Chain = Chain(a: uint32, b: uint32, c: uint32, d: uint32, e: uint32)

  /** The initial hash value (section 5.3.1). */
  const INITIAL := Chain(0x6745_2301, 0xEFCD_AB89, 0x98BA_DCFE, 0x1032_5476, 0xC3D2_E1F0)

  function ScheduleWord(block: Block, t: nat): uint32
  {
    if t < 16 then UnBE32(block[4 * t..4 * t + 4])
    else RotateLeft(Word(XOR, Word(XOR, Word(XOR, ScheduleWord(block, t - 3), ScheduleWord(block, t - 8)),
                                   ScheduleWord(block, t - 14)), ScheduleWord(block, t - 16)), 1)
  }

  /** The message schedule. */
  function Schedule(block: Block): (w: seq<uint32>)
    ensures |w| == 80
  {
    seq(80, t requires 0 <= t < 80 => ScheduleWord(block, t))
  }

  function Round(v: Chain, t: nat, w: uint32): Chain {
    Chain(Plus(Plus(Plus(Plus(RotateLeft(v.a, 5), Mix(t, v.b, v.c, v.d)), v.e), Constant(t)), w),
          v.a, RotateLeft(v.b, 30), v.c, v.d)
  }

  function Rounds(v: Chain, w: seq<uint32>): Chain {
    if w == [] then v else Round(Rounds(v, w[..|w| - 1]), |w| - 1, w[|w| - 1])
  }

  function Compress(h: Chain, block: Block): Chain
  {
    var v := Rounds(h, Schedule(block));
    Chain(Plus(h.a, v.a), Plus(h.b, v.b), Plus(h.c, v.c), Plus(h.d, v.d), Plus(h.e, v.e))
  }

  /** The hash value after the blocks of a message that is a whole number of blocks. */
  function HashBlocks(m: bytes): Chain {
    if |m| < BLOCK then INITIAL else Compress(HashBlocks(m[..|m| - BLOCK]), m[|m| - BLOCK..])
  }

  function ChainBytes(h: Chain): (b: bytes)
    ensures |b| == 20
  {
    BE32(h.a) + BE32(h.b) + BE32(h.c) + BE32(h.d) + BE32(h.e)
  }

  function Digest(m: bytes): (d: bytes)
    ensures |d| == 20
  {
    ChainBytes(HashBlocks(Padded(m)))
  }

  // ---- The forms of the logical functions that the code uses ----

  lemma {:induction false} BitOfComplement(a: nat, n: nat, i: nat)
    requires a < Power2(n) && i < n
    ensures BitAt(Power2(n) - 1 - a, i) == !BitAt(a, i)
    decreases i
  {
    assert (Power2(n) - 1 - a) / 2 == Power2(n - 1) - 1 - a / 2;
    if i > 0 {
      BitOfComplement(a / 2, n - 1, i - 1);
    }
  }

  lemma BitOfWord(op: Operator, a: uint32, b: uint32, i: nat)
    requires i < 32
    ensures BitAt(Word(op, a, b), i) == op.Holds(BitAt(a, i), BitAt(b, i))
  {
    BitsOfBitwise(op, a, b, 32);
    assert BitsOf(Word(op, a, b), 32)[31 - i] == op.Holds(BitsOf(a, 32)[31 - i], BitsOf(b, 32)[31 - i]);
  }

  lemma SameWords(a: uint32, b: uint32)
    requires forall i :: 0 <= i < 32 ==> BitAt(a, i) == BitAt(b, i)
    ensures a == b
  {
    PowersOfTwo();
    assert BitsOf(a, 32) == BitsOf(b, 32);
    SameBits(a, b, 32);
  }

  /** A rotation moves every bit up by `n` places, and those that leave at the top come in at the bottom. */
  lemma BitOfRotated(x: uint32, n: nat, i: nat)
    requires n < 32 && i < 32
    ensures BitAt(RotateLeft(x, n), i) <==> BitAt(x, (i + 32 - n) % 32)
  {
    hide Word, BitAt, Power2;
    PowersOfTwo();
    BitOfWord(OR, x * Power2(n) % 0x1_0000_0000, Quotient(x, Power2(32 - n)), i);
    BitMovedUp(x, n, i);
    BitOfQuotient(x, 32 - n, i);
    if n <= i {
      BitsBeyond(x, 32, i + (32 - n));
      Around(i - n);
    } else {
      Around(i + 32 - n);
    }
  }

  lemma BitMovedUp(x: uint32, n: nat, i: nat)
    requires i < 32
    ensures BitAt(x * Power2(n) % 0x1_0000_0000, i) <==> n <= i && BitAt(x, i - n)
  {
    hide BitAt, Power2;
    PowersOfTwo();
    BitOfModulo(x * Power2(n), 32, i);
    BitOfMultiple(x, n, i);
  }

  lemma Around(i: nat)
    requires i < 32
    ensures i % 32 == (i + 32) % 32 == i
  {
  }

  lemma RotateNone(x: uint32)
    ensures RotateLeft(x, 0) == x
  {
    hide RotateLeft;
    forall i | 0 <= i < 32 ensures BitAt(RotateLeft(x, 0), i) == BitAt(x, i) {
      BitOfRotated(x, 0, i);
      assert (i + 32) % 32 == i;
    }
    SameWords(RotateLeft(x, 0), x);
  }

  lemma RotateTwice(x: uint32, n: nat)
    requires n < 31
    ensures RotateLeft(RotateLeft(x, 1), n) == RotateLeft(x, n + 1)
  {
    hide RotateLeft;
    forall i | 0 <= i < 32 ensures BitAt(RotateLeft(RotateLeft(x, 1), n), i) == BitAt(RotateLeft(x, n + 1), i) {
      BitOfRotated(x, n + 1, i);
      BitOfRotated(RotateLeft(x, 1), n, i);
      BitOfRotated(x, 1, (i + 32 - n) % 32);
    }
    SameWords(RotateLeft(RotateLeft(x, 1), n), RotateLeft(x, n + 1));
  }

  /** Selecting by "or" equals selecting by "exclusive or": the two parts never overlap. */
  lemma ChooseByOr(x: uint32, y: uint32, z: uint32)
    ensures Word(OR, Word(AND, x, y), Word(AND, Complement(x), z)) == Choose(x, y, z)
  {
    forall i | 0 <= i < 32
      ensures BitAt(Word(OR, Word(AND, x, y), Word(AND, Complement(x), z)), i) == BitAt(Choose(x, y, z), i)
    {
      PowersOfTwo();
      BitOfComplement(x, 32, i);
      BitOfWord(AND, x, y, i);
      BitOfWord(AND, Complement(x), z, i);
      BitOfWord(OR, Word(AND, x, y), Word(AND, Complement(x), z), i);
      BitOfWord(XOR, Word(AND, x, y), Word(AND, Complement(x), z), i);
    }
    SameWords(Word(OR, Word(AND, x, y), Word(AND, Complement(x), z)), Choose(x, y, z));
  }

  lemma MajorityByOr(x: uint32, y: uint32, z: uint32)
    ensures Word(OR, Word(OR, Word(AND, x, y), Word(AND, x, z)), Word(AND, y, z)) == Majority(x, y, z)
  {
    var p, q, r := Word(AND, x, y), Word(AND, x, z), Word(AND, y, z);
    forall i | 0 <= i < 32 ensures BitAt(Word(OR, Word(OR, p, q), r), i) == BitAt(Majority(x, y, z), i) {
      BitOfWord(AND, x, y, i);
      BitOfWord(AND, x, z, i);
      BitOfWord(AND, y, z, i);
      BitOfWord(OR, p, q, i);
      BitOfWord(XOR, p, q, i);
      BitOfWord(OR, Word(OR, p, q), r, i);
      BitOfWord(XOR, Word(XOR, p, q), r, i);
    }
    SameWords(Word(OR, Word(OR, p, q), r), Majority(x, y, z));
  }
}

/** The streaming form: a context that is fed pieces of a message and finally asked for the digest. */
module Sha1 {
  import opened Words
  import opened BitWords
  import opened Sha1Standard

  lemma HashOneMore(m: bytes, block: Block)
    ensures HashBlocks(m + block) == Compress(HashBlocks(m), block)
  {
    hide Compress;
    assert (m + block)[..|m + block| - BLOCK] == m;
    assert (m + block)[|m + block| - BLOCK..] == block;
  }

  /** The number of bits in `n` bytes as a 64-bit counter holds it. */
  function BitCount(n: nat): nat {
    8 * n % 0x1_0000_0000_0000_0000
  }

  /** The 64-bit count held in two words, with the carry found by comparing. */
  lemma CountAdds(c0: uint32, c1: uint32, n: nat, len: nat)
    requires c0 + 0x1_0000_0000 * c1 == 8 * n % 0x1_0000_0000_0000_0000
    ensures var bits := 8 * len % 0x1_0000_0000;
      var d0 := (c0 + bits) % 0x1_0000_0000;
      var d1 := (c1 + (if d0 < bits then 1 else 0) + len / 0x2000_0000) % 0x1_0000_0000;
      d0 + 0x1_0000_0000 * d1 == 8 * (n + len) % 0x1_0000_0000_0000_0000
  {
    var bits := 8 * len % 0x1_0000_0000;
    var d0 := (c0 + bits) % 0x1_0000_0000;
    var carry := if d0 < bits then 1 else 0;
    var high := c1 + carry + len / 0x2000_0000;
    assert 8 * len == bits + 0x1_0000_0000 * (len / 0x2000_0000);
    assert c0 + bits == d0 + 0x1_0000_0000 * carry;
    var q := 8 * n / 0x1_0000_0000_0000_0000;
    assert 8 * (n + len) == d0 + 0x1_0000_0000 * high + 0x1_0000_0000_0000_0000 * q;
    assert high == high % 0x1_0000_0000 + 0x1_0000_0000 * (high / 0x1_0000_0000);
    ModuloUnique(8 * (n + len), 0x1_0000_0000_0000_0000, q + high / 0x1_0000_0000,
                 d0 + 0x1_0000_0000 * (high % 0x1_0000_0000));
  }

  lemma PlusTwice(c: uint32, carry: uint32, y: nat)
    requires carry <= 1
    ensures Plus(Plus(c, carry), y % 0x1_0000_0000) == (c + carry + y) % 0x1_0000_0000
  {
    ModuloSum(c + carry, y);
  }

  lemma ModuloSum(a: nat, b: nat)
    ensures (a % 0x1_0000_0000 + b % 0x1_0000_0000) % 0x1_0000_0000 == (a + b) % 0x1_0000_0000
  {
    var m := 0x1_0000_0000;
    var s := a % m + b % m;
    ModuloUnique(a + b, m, a / m + b / m + s / m, s % m);
  }

  lemma BufferUse(c0: uint32, c1: uint32, whole: nat, rest: nat)
    requires (c0 as int) + 0x1_0000_0000 * (c1 as int) == BitCount(whole + rest)
    requires whole % BLOCK == 0 && rest < BLOCK
    ensures c0 / 8 % BLOCK == rest
  {
    var n := whole + rest;
    var q := 8 * n / 0x1_0000_0000_0000_0000;
    assert 8 * n == c0 + 0x1_0000_0000 * c1 + 0x1_0000_0000_0000_0000 * q;
    var k := 0x80_0000 * c1 + 0x80_0000_0000_0000 * q;
    Eighth(c0, k, n);
    ModuloUnique(c0 / 8, BLOCK, whole / BLOCK - k, rest);
  }

  lemma Eighth(c: nat, k: int, n: int)
    requires 8 * n == c + 512 * k
    ensures c / 8 == n - 64 * k
  {
  }

  lemma SplitCount(c0: uint32, c1: uint32, v: nat)
    requires c0 + 0x1_0000_0000 * c1 == v % 0x1_0000_0000_0000_0000
    ensures v / 0x1_0000_0000 % 0x1_0000_0000 == c1 && v % 0x1_0000_0000 == c0
  {
    var q := v / 0x1_0000_0000_0000_0000;
    ModuloUnique(v, 0x1_0000_0000, c1 + 0x1_0000_0000 * q, c0);
    ModuloUnique(v / 0x1_0000_0000, 0x1_0000_0000, q, c1);
  }

  lemma ThreePieces(p: bytes, data: bytes, i: nat, j: nat)
    requires i <= j <= |data|
    ensures ((p + data[..i]) + data[i..j]) + data[j..] == p + data
  {
  }

  lemma LengthField(c0: uint32, c1: uint32, n: nat)
    requires (c0 as int) + 0x1_0000_0000 * (c1 as int) == BitCount(n)
    ensures BE32(c1) + BE32(c0) == BE64(8 * n)
  {
    hide BE32;
    SplitCount(c0, c1, 8 * n);
  }

  lemma PadLength(n: nat, used: nat)
    requires used == n % BLOCK
    ensures (if used < 56 then 56 - used else 120 - used) == ZeroBytes(n) + 1
  {
  }

  lemma WholeMessage(absorbed: bytes, pending: bytes)
    requires |absorbed| % BLOCK == 0 && |pending| < BLOCK && |absorbed + pending| % BLOCK == 0
    ensures pending == [] && absorbed + pending == absorbed
  {
  }

  method StoreBE32(dst: array<byte>, at: nat, val: uint32)
    requires at + 4 <= dst.Length
    modifies dst
    ensures dst[..] == Splice(old(dst[..]), at, BE32(val))
    ensures dst[..at + 4] == old(dst[..at]) + BE32(val)
  {
    dst[at] := val / 0x100_0000;
    dst[at + 1] := val / 0x1_0000 % 0x100;
    dst[at + 2] := val / 0x100 % 0x100;
    dst[at + 3] := val % 0x100;
  }

  class Sha1Context {
    const state: array<uint32>
    const count: array<uint32>
    const buffer: array<byte>
    /** The whole blocks hashed so far, and what waits in the buffer for its block to fill. */
    ghost var absorbed: bytes
    ghost var pending: bytes

    /** Everything fed so far. */
    ghost function Fed(): bytes
      reads this
    {
      absorbed + pending
    }

    ghost predicate Shaped()
      reads this
    {
      state.Length == 5 && count.Length == 2 && buffer.Length == BLOCK && state != count && state as object != buffer
      && count as object != buffer
    }

    ghost function Hash(): Chain
      requires Shaped()
      reads this, state
    {
      Chain(state[0], state[1], state[2], state[3], state[4])
    }

    ghost function Count(): int
      requires Shaped()
      reads this, count
    {
      (count[0] as int) + 0x1_0000_0000 * (count[1] as int)
    }

    ghost predicate Buffered()
      reads this, state, buffer
    {
      && Shaped()
      && |absorbed| % BLOCK == 0 && |pending| < BLOCK
      && Hash() == HashBlocks(absorbed)
      && buffer[..|pending|] == pending
    }

    /** The count is eight times the bytes fed, modulo 2^64; whole blocks are hashed and the rest is in the buffer. */
    ghost predicate Valid()
      reads this, state, count, buffer
    {
      Buffered() && Count() == BitCount(|Fed()|)
    }

    /** Sha1Init. */
    constructor ()
      ensures Valid() && Fed() == [] && fresh(state) && fresh(count) && fresh(buffer)
    {
      state := new uint32[] [0x6745_2301, 0xEFCD_AB89, 0x98BA_DCFE, 0x1032_5476, 0xC3D2_E1F0];
      count := new uint32[] [0, 0];
      buffer := new byte[BLOCK];
      absorbed, pending := [], [];
    }

    method PrepareSchedule(block: Block) returns (w: array<uint32>)
      ensures fresh(w) && w.Length == 80 && w[..] == Schedule(block)
    {
      hide Word, RotateLeft, UnBE32;
      w := new uint32[80];
      for t := 0 to 16
        invariant forall i :: 0 <= i < t ==> w[i] == ScheduleWord(block, i)
      {
        w[t] := UnBE32(block[4 * t..4 * t + 4]);
      }
      for t := 16 to 80
        invariant forall i :: 0 <= i < t ==> w[i] == ScheduleWord(block, i)
      {
        w[t] := RotateLeft(Word(XOR, Word(XOR, Word(XOR, w[t - 3], w[t - 8]), w[t - 14]), w[t - 16]), 1);
      }
    }

    method SelectFunction(t: nat, b: uint32, c: uint32, d: uint32) returns (f: uint32, k: uint32)
      ensures f == Mix(t, b, c, d) && k == Constant(t)
    {
      if t < 20 {
        f, k := Word(OR, Word(AND, b, c), Word(AND, Complement(b), d)), 0x5A82_7999;
        ChooseByOr(b, c, d);
      } else if t < 40 {
        f, k := Word(XOR, Word(XOR, b, c), d), 0x6ED9_EBA1;
      } else if t < 60 {
        f, k := Word(OR, Word(OR, Word(AND, b, c), Word(AND, b, d)), Word(AND, c, d)), 0x8F1B_BCDC;
        MajorityByOr(b, c, d);
      } else {
        f, k := Word(XOR, Word(XOR, b, c), d), 0xCA62_C1D6;
      }
    }

    method ProcessBlock(block: Block)
      requires Shaped()
      modifies state
      ensures Hash() == Compress(old(Hash()), block)
    {
      hide Word, RotateLeft, Schedule, Plus, Mix, Constant;
      var schedule := PrepareSchedule(block);
      var a, b, c, d, e := state[0], state[1], state[2], state[3], state[4];
      ghost var w := schedule[..];
      for t := 0 to 80
        invariant schedule[..] == w && Hash() == old(Hash())
        invariant Chain(a, b, c, d, e) == Rounds(old(Hash()), w[..t])
      {
        var f, k := SelectFunction(t, b, c, d);
        assert w[..t + 1][..t] == w[..t];
        var temp := Plus(Plus(Plus(Plus(RotateLeft(a, 5), f), e), k), schedule[t]);
        e := d;
        d := c;
        c := RotateLeft(b, 30);
        b := a;
        a := temp;
      }
      assert w[..80] == w;
      state[0] := Plus(state[0], a);
      state[1] := Plus(state[1], b);
      state[2] := Plus(state[2], c);
      state[3] := Plus(state[3], d);
      state[4] := Plus(state[4], e);
    }

    /** The count update of Sha1Update. */
    method AddToCount(len: nat, ghost n: nat)
      requires Shaped() && Count() == BitCount(n)
      modifies count
      ensures Count() == BitCount(n + len)
    {
      hide HashBlocks;
      CountAdds(count[0], count[1], n, len);
      var bits: uint32 := 8 * len % 0x1_0000_0000;
      count[0] := Plus(count[0], bits);
      var carry := if count[0] < bits then 1 else 0;
      PlusTwice(count[1], carry, len / 0x2000_0000);
      count[1] := Plus(Plus(count[1], carry), len / 0x2000_0000 % 0x1_0000_0000);
    }

    /** Completes the buffered block with the first bytes of `data` and hashes it. */
    method FillBuffer(data: bytes, used: nat)
      requires Buffered() && used == |pending| && |data| == BLOCK - used
      modifies this, state, buffer
      ensures Buffered() && pending == [] && Fed() == old(Fed()) + data
    {
      hide HashBlocks, Compress;
      CopyInto(buffer, used, data);
      assert buffer[..] == pending + data;
      ProcessBlock(buffer[..]);
      HashOneMore(absorbed, buffer[..]);
      assert absorbed + (pending + data) == Fed() + data;
      absorbed, pending := absorbed + buffer[..], [];
    }

    /** Hashes the whole blocks of `data` from `start` on. */
    method AbsorbBlocks(data: bytes, start: nat) returns (pos: nat)
      requires Buffered() && start <= |data|
      requires |data| - start >= BLOCK ==> pending == []
      modifies this, state
      ensures start <= pos <= |data| && |data| - pos < BLOCK
      ensures Buffered() && pending == old(pending) && Fed() == old(Fed()) + data[start..pos]
    {
      hide HashBlocks, Compress;
      pos := start;
      while |data| - pos >= BLOCK
        invariant start <= pos <= |data|
        invariant Buffered() && pending == old(pending) && absorbed == old(absorbed) + data[start..pos]
      {
        var block := data[pos..pos + BLOCK];
        ProcessBlock(block);
        HashOneMore(absorbed, block);
        assert data[start..pos + BLOCK] == data[start..pos] + block;
        absorbed := absorbed + block;
        pos := pos + BLOCK;
      }
    }

    /** Keeps the bytes that do not fill a block. */
    method BufferRest(rest: bytes, used: nat)
      requires Buffered() && used == |pending| && used + |rest| < BLOCK
      modifies this, buffer
      ensures Buffered() && Fed() == old(Fed()) + rest
    {
      hide HashBlocks;
      if |rest| > 0 {
        CopyInto(buffer, used, rest);
      }
      pending := pending + rest;
      assert buffer[..|pending|] == pending;
    }

    /** The data movement of Sha1Update: completes the buffered block, hashes whole blocks, keeps the rest. */
    method Absorb(data: bytes, bufUsed: nat)
      requires Buffered() && bufUsed == |pending| && bufUsed < BLOCK
      modifies this, state, buffer
      ensures Buffered() && Fed() == old(Fed()) + data
    {
      hide HashBlocks, Hash, Buffered;
      var used, free := bufUsed, BLOCK - bufUsed;
      var pos := 0;
      if used > 0 && |data| >= free {
        FillBuffer(data[..free], used);
        pos := free;
        used := 0;
      }
      assert Fed() == old(Fed()) + data[..pos];
      ghost var start := pos;
      pos := AbsorbBlocks(data, pos);
      BufferRest(data[pos..], used);
      ThreePieces(old(Fed()), data, start, pos);
    }

    /** Feeding bytes appends them to the message, however the message is cut. */
    method Sha1Update(data: bytes)
      requires Valid()
      modifies this, state, count, buffer
      ensures Valid() && Fed() == old(Fed()) + data
    {
      hide HashBlocks, Hash, BitCount;
      if |data| == 0 {
        return;
      }
      BufferUse(count[0], count[1], |absorbed|, |pending|);
      var used := count[0] / 8 % BLOCK;
      AddToCount(|data|, |Fed()|);
      Absorb(data, used);
    }

    /** The bit count, most significant word first. */
    method StoredCount() returns (stored: bytes)
      requires Shaped()
      ensures stored == BE32(count[1]) + BE32(count[0])
    {
      hide BE32;
      var buf := new byte[8];
      StoreBE32(buf, 0, count[1]);
      StoreBE32(buf, 4, count[0]);
      stored := buf[..];
    }

    /** The 0x80 marker, the zeros and the length: what completes the message to whole blocks. */
    method Padding() returns (pad: bytes, lengthBytes: bytes)
      requires Valid()
      ensures 1 <= |pad| <= BLOCK
      ensures Fed() + pad + lengthBytes == Padded(Fed())
    {
      hide HashBlocks, BE32, BE64, BitCount, ZeroBytes, Hash;
      lengthBytes := StoredCount();
      LengthField(count[0], count[1], |Fed()|);
      BufferUse(count[0], count[1], |absorbed|, |pending|);
      var used := count[0] / 8 % BLOCK;
      var padLen := if used < 56 then 56 - used else 120 - used;
      PadLength(|Fed()|, used);
      pad := [0x80] + Zeros(padLen - 1);
    }

    /** The digest of everything fed. FIPS 180-4 defines it below 2^61 bytes; beyond, the length field wraps. */
    method Sha1Final() returns (digest: array<byte>)
      requires Valid()
      modifies this, state, count, buffer
      ensures fresh(digest) && digest[..] == Digest(old(Fed()))
    {
      hide HashBlocks, Hash, Padded;
      var pad, lengthBytes := Padding();
      Sha1Update(pad);
      Sha1Update(lengthBytes);
      assert Fed() == Padded(old(Fed()));
      WholeMessage(absorbed, pending);
      digest := Output();
    }

    method Output() returns (digest: array<byte>)
      requires Shaped()
      ensures fresh(digest) && digest[..] == ChainBytes(Hash())
    {
      hide BE32, Splice;
      digest := new byte[20];
      assert digest[..0] == [];
      StoreBE32(digest, 0, state[0]);
      StoreBE32(digest, 4, state[1]);
      StoreBE32(digest, 8, state[2]);
      StoreBE32(digest, 12, state[3]);
      StoreBE32(digest, 16, state[4]);
      assert digest[..20] == digest[..];
    }
  }

  /** Hashing a message in one piece. */
  method Sha1Hash(data: bytes) returns (digest: array<byte>)
    ensures digest[..] == Digest(data)
  {
    var context := new Sha1Context();
    context.Sha1Update(data);
    assert [] + data == data;
    digest := context.Sha1Final();
  }

  function Concat(pieces: seq<bytes>): bytes {
    if pieces == [] then [] else Concat(pieces[..|pieces| - 1]) + pieces[|pieces| - 1]
  }

  /** Hashing a message in pieces: any way of cutting it gives the digest of the whole. */
  method HashPieces(pieces: seq<bytes>) returns (digest: array<byte>)
    ensures digest[..] == Digest(Concat(pieces))
  {
    hide Digest;
    var context := new Sha1Context();
    for i := 0 to |pieces|
      invariant context.Valid() && context.Fed() == Concat(pieces[..i])
      invariant fresh(context) && fresh(context.state) && fresh(context.count) && fresh(context.buffer)
    {
      assert pieces[..i + 1][..i] == pieces[..i];
      context.Sha1Update(pieces[i]);
    }
    assert pieces[..|pieces|] == pieces;
    digest := context.Sha1Final();
  }
}
