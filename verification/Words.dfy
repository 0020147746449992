/** Fixed-width integers, byte orders and byte buffers shared by every on-disk format. */
module Words {

  type byte = x: int | 0 <= x < 0x100
  type uint16 = x: int | 0 <= x < 0x1_0000
  type uint32 = x: int | 0 <= x < 0x1_0000_0000
  type int32 = x: int | -0x8000_0000 <= x < 0x8000_0000
  type bytes = seq<byte>

  const INT32_MAX: int32 := 0x7FFF_FFFF

  datatype Option<+T> = None | Some(value: T)

  // ---- Little-endian words ----

  function LE16(v: uint16): (b: bytes)
    ensures |b| == 2
  {
    [v % 0x100, v / 0x100]
  }

  function UnLE16(b: bytes): uint16
    requires |b| == 2
  {
    (b[0] as int) + (b[1] as int) * 0x100
  }

  /** The two's complement bit pattern of a signed word, as an unsigned number. */
  function Unsigned(v: int32): uint32 {
    if v < 0 then v + 0x1_0000_0000 else v
  }

  function Signed(u: uint32): int32 {
    if u < 0x8000_0000 then u else u - 0x1_0000_0000
  }

  function LE32(v: int32): (b: bytes)
    ensures |b| == 4
  {
    var u := Unsigned(v);
    [u % 0x100, u / 0x100 % 0x100, u / 0x100 / 0x100 % 0x100, u / 0x100 / 0x100 / 0x100]
  }

  function UnLE32(b: bytes): int32
    requires |b| == 4
  {
    Signed(Horner(b[0], b[1], b[2], b[3]))
  }

  /** The unsigned number with the given base-256 digits, least significant first. */
  function Horner(d0: int, d1: int, d2: int, d3: int): int {
    d0 + 0x100 * (d1 + 0x100 * (d2 + 0x100 * d3))
  }

  lemma HornerDigits(d0: byte, d1: byte, d2: byte, d3: byte)
    ensures var u := Horner(d0, d1, d2, d3);
      && 0 <= u < 0x1_0000_0000
      && u % 0x100 == d0 && u / 0x100 % 0x100 == d1 && u / 0x100 / 0x100 % 0x100 == d2
         && u / 0x100 / 0x100 / 0x100 == d3
  {
    var u := Horner(d0, d1, d2, d3);
    assert u / 0x100 == d1 + 0x100 * (d2 + 0x100 * d3);
    assert u / 0x100 / 0x100 == d2 + 0x100 * d3;
  }

  /** Reading back a little-endian word gives the word, and every byte pattern is the pattern of what it reads as. */
  lemma LittleEndianInverse16(v: uint16, b: bytes)
    requires |b| == 2
    ensures UnLE16(LE16(v)) == v
    ensures LE16(UnLE16(b)) == b
  {
  }

  lemma LittleEndianInverse32(v: int32, b: bytes)
    requires |b| == 4
    ensures UnLE32(LE32(v)) == v
    ensures LE32(UnLE32(b)) == b
  {
    HornerDigits(b[0], b[1], b[2], b[3]);
    assert Unsigned(UnLE32(b)) == Horner(b[0], b[1], b[2], b[3]);
  }

  /** The bytes of a word, least significant first. Division rounds down, so that those of a negative number are the
      bytes of its two's complement. */
  lemma BytesOfWord(u: uint16, v: int32)
    ensures LE16(u) == [u % 256, u / 256]
    ensures LE32(v) == [v % 256, v / 256 % 256, v / 65536 % 256, v / 16777216 % 256]
  {
    var w: int := Unsigned(v);
    var q, r := w / 256, w / 256 / 256;
    var d := r / 256;
    ThreeQuotients(w, q, r, d);
    WordDigits(v, w % 256, q % 256, r % 256, if v < 0 then d - 256 else d);
  }

  lemma ThreeQuotients(w: uint32, q: int, r: int, d: int)
    requires q == w / 256 && r == q / 256 && d == r / 256
    ensures w == w % 256 + 256 * (q % 256) + 65536 * (r % 256) + 16777216 * d && 0 <= d < 256
  {
    assert w == 256 * q + w % 256 && q == 256 * r + q % 256 && r == 256 * d + r % 256;
  }

  lemma WordDigits(v: int, a: byte, b: byte, c: byte, d: int)
    requires v == a + 256 * b + 65536 * c + 16777216 * d && -256 <= d < 256
    ensures v % 256 == a && v / 256 % 256 == b && v / 65536 % 256 == c && v / 16777216 == d
  {
    Divided(v, b + 256 * (c as int) + 65536 * d, a);
    Divided(b + 256 * (c as int) + 65536 * d, c + 256 * d, b);
    Divided(c + 256 * d, d, c);
    DividedTwice(v, c + 256 * d, a + 256 * (b as int));
    DividedThrice(v, d, a + 256 * (b as int) + 65536 * (c as int));
  }

  lemma Divided(v: int, q: int, r: byte)
    requires v == 256 * q + r
    ensures v / 256 == q && v % 256 == r
  {
  }

  lemma DividedTwice(v: int, q: int, r: int)
    requires v == 65536 * q + r && 0 <= r < 65536
    ensures v / 65536 == q
  {
  }

  lemma DividedThrice(v: int, q: int, r: int)
    requires v == 16777216 * q + r && 0 <= r < 16777216
    ensures v / 16777216 == q
  {
  }

  /** A 16-bit word of a buffer. */
  predicate Word16At(b: bytes, at: nat, v: uint16)
    requires at + 2 <= |b|
  {
    b[at] == v % 256 && b[at + 1] == v / 256
  }

  /** A signed 32-bit word of a buffer. */
  predicate Word32At(b: bytes, at: nat, v: int32)
    requires at + 4 <= |b|
  {
    && b[at] == v % 256 && b[at + 1] == v / 256 % 256 && b[at + 2] == v / 65536 % 256
    && b[at + 3] == v / 16777216 % 256
  }

  lemma PlacedWords(b: bytes, at: nat, u: uint16, v: int32)
    ensures at + 2 <= |b| && b[at..at + 2] == LE16(u) ==> Word16At(b, at, u)
    ensures at + 4 <= |b| && b[at..at + 4] == LE32(v) ==> Word32At(b, at, v)
  {
    hide LE16, LE32;
    BytesOfWord(u, v);
    if at + 2 <= |b| && b[at..at + 2] == LE16(u) {
      assert b[at] == LE16(u)[0] && b[at + 1] == LE16(u)[1];
    }
    if at + 4 <= |b| && b[at..at + 4] == LE32(v) {
      assert b[at] == LE32(v)[0] && b[at + 1] == LE32(v)[1] && b[at + 2] == LE32(v)[2] && b[at + 3] == LE32(v)[3];
    }
  }

  // ---- Buffers ----

  function Zeros(n: nat): (b: bytes)
    ensures |b| == n
  {
    seq(n, _ => 0)
  }

  /** `s` with the elements from `at` on overwritten by `t`. */
  function Splice<T>(s: seq<T>, at: nat, t: seq<T>): (r: seq<T>)
    requires at + |t| <= |s|
    ensures |r| == |s|
    ensures forall k :: 0 <= k < |s| ==> r[k] == if at <= k < at + |t| then t[k - at] else s[k]
  {
    s[..at] + t + s[at + |t|..]
  }

  /** Copies `src` over the bytes of `dst` from `at` on (memcpy). */
  method CopyInto(dst: array<byte>, at: nat, src: bytes)
    requires at + |src| <= dst.Length
    modifies dst
    ensures dst[..] == Splice(old(dst[..]), at, src)
    ensures dst[..at + |src|] == old(dst[..at]) + src
    ensures forall k :: at + |src| <= k < dst.Length ==> dst[k] == old(dst[k])
  {
    for i := 0 to |src|
      invariant forall k :: 0 <= k < dst.Length ==>
        dst[k] == if at <= k < at + i then src[k - at] else old(dst[k])
    {
      dst[at + i] := src[i];
    }
  }

  method WriteUint16LE(buf: array<byte>, at: nat, val: uint16)
    requires at + 2 <= buf.Length
    modifies buf
    ensures buf[..at + 2] == old(buf[..at]) + LE16(val)
    ensures forall k :: at + 2 <= k < buf.Length ==> buf[k] == old(buf[k])
  {
    buf[at] := val % 0x100;
    buf[at + 1] := val / 0x100;
  }

  method WriteInt32LE(buf: array<byte>, at: nat, val: int32)
    requires at + 4 <= buf.Length
    modifies buf
    ensures buf[..at + 4] == old(buf[..at]) + LE32(val)
    ensures forall k :: at + 4 <= k < buf.Length ==> buf[k] == old(buf[k])
  {
    var u := Unsigned(val);
    buf[at] := u % 0x100;
    buf[at + 1] := u / 0x100 % 0x100;
    buf[at + 2] := u / 0x100 / 0x100 % 0x100;
    buf[at + 3] := u / 0x100 / 0x100 / 0x100;
  }
}
