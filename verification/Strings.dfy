/** Zero-terminated strings compared and hashed without regard to the case of letters. */
module Strings {
  import opened Words
  import Crc

  /** A character buffer that holds a terminated string. */
  predicate Terminated(buf: bytes) {
    0 in buf
  }

  /** The characters before the terminator. */
  function Text(buf: bytes): (s: bytes)
    requires Terminated(buf)
    ensures |s| < |buf| && s == buf[..|s|] && buf[|s|] == 0 && 0 !in s
  {
    if buf[0] == 0 then [] else [buf[0]] + Text(buf[1..])
  }

  function ToLowerChar(c: byte): byte {
    if 65 <= c <= 90 then c + 32 else c
  }

  function Lower(s: bytes): (r: bytes)
    ensures |r| == |s| && forall i :: 0 <= i < |s| ==> r[i] == ToLowerChar(s[i])
  {
    seq(|s|, i requires 0 <= i < |s| => ToLowerChar(s[i]))
  }

  /** The upper-case letters become the lower-case ones, and every other character stays. */
  lemma LowerLetters(c: byte, i: nat)
    requires i < 26
    ensures ToLowerChar('A' as int + i) == 'a' as int + i
    ensures !('A' as int <= c <= 'Z' as int) ==> ToLowerChar(c) == c
  {
  }

  /** The same character, or the two cases of one letter. */
  predicate SameLetter(c: byte, d: byte) {
    || c == d
    || ('A' as int <= c <= 'Z' as int && d - c == 'a' as int - 'A' as int)
    || ('A' as int <= d <= 'Z' as int && c - d == 'a' as int - 'A' as int)
  }

  predicate EqualButForCase(s: bytes, t: bytes) {
    |s| == |t| && forall i :: 0 <= i < |s| ==> SameLetter(s[i], t[i])
  }

  /** Two strings have one lower-case form exactly when they differ in the case of letters at most. */
  lemma LowerEqual(s: bytes, t: bytes)
    ensures Lower(s) == Lower(t) <==> EqualButForCase(s, t)
  {
    forall i | 0 <= i < |s| && i < |t|
      ensures Lower(s)[i] == Lower(t)[i] <==> SameLetter(s[i], t[i])
    {
    }
    if Lower(s) == Lower(t) {
      assert |s| == |Lower(s)| == |t|;
    }
  }

  /** Lexicographic order. */
  ghost predicate Before(a: bytes, b: bytes) {
    exists k :: 0 <= k <= |a| && BeforeAt(a, b, k)
  }

  predicate BeforeAt(a: bytes, b: bytes, k: nat)
    requires k <= |a|
  {
    k < |b| && a[..k] == b[..k] && (k == |a| || a[k] < b[k])
  }

  /** The first difference decides the order. */
  lemma FirstDifference(a: bytes, b: bytes, k: nat)
    requires k <= |a| && k <= |b| && a[..k] == b[..k]
    ensures k < |a| && k < |b| && a[k] != b[k] ==> (Before(a, b) <==> a[k] < b[k]) && a != b
    ensures k == |a| ==> (Before(a, b) <==> k < |b|) && (a == b <==> k == |b|)
    ensures k == |b| && k < |a| ==> !Before(a, b) && a != b
  {
    if Before(a, b) {
      var i :| 0 <= i <= |a| && BeforeAt(a, b, i);
      assert forall j :: 0 <= j < k ==> a[j] == a[..k][j] == b[j];
      assert forall j :: 0 <= j < i ==> a[j] == a[..i][j] == b[j];
    }
    if (k == |a| && k < |b|) || (k < |a| && k < |b| && a[k] < b[k]) {
      assert BeforeAt(a, b, k);
    }
    if k == |a| == |b| {
      assert a == a[..k] && b == b[..k];
    }
  }

  /** Compares two strings by their lower-case forms: zero for equal ones, negative when the first comes before. */
  method StrCompareI(a: bytes, b: bytes) returns (r: int)
    requires Terminated(a) && Terminated(b)
    ensures r == 0 <==> EqualButForCase(Text(a), Text(b))
    ensures r == 0 <==> Lower(Text(a)) == Lower(Text(b))
    ensures r < 0 <==> Before(Lower(Text(a)), Lower(Text(b)))
  {
    hide Before, EqualButForCase;
    LowerEqual(Text(a), Text(b));
    var i := 0;
    ghost var la, lb := Lower(Text(a)), Lower(Text(b));
    while a[i] != 0 && b[i] != 0
      invariant 0 <= i <= |Text(a)| && i <= |Text(b)| && la[..i] == lb[..i]
      decreases |a| - i
    {
      var ca, cb := ToLowerChar(a[i]), ToLowerChar(b[i]);
      assert la[i] == ca && lb[i] == cb;
      if ca != cb {
        FirstDifference(la, lb, i);
        return (ca as int) - (cb as int);
      }
      assert la[..i + 1] == la[..i] + [ca] && lb[..i + 1] == lb[..i] + [cb];
      i := i + 1;
    }
    AtTerminator(a, i);
    AtTerminator(b, i);
    FirstDifference(la, lb, i);
    return (ToLowerChar(a[i]) as int) - (ToLowerChar(b[i]) as int);
  }

  lemma AtTerminator(buf: bytes, i: nat)
    requires Terminated(buf) && i <= |Text(buf)|
    ensures buf[i] == 0 <==> i == |Text(buf)|
  {
    if i < |Text(buf)| {
      assert Text(buf)[i] in Text(buf);
    }
  }

  /** Copies the lower-case form of at most `maxLen - 1` characters and terminates it. */
  method StrToLower(dst: array<byte>, src: bytes, maxLen: nat)
    requires Terminated(src) && maxLen <= dst.Length
    modifies dst
    ensures maxLen > 0 ==>
      var n := if |Text(src)| < maxLen then |Text(src)| else maxLen - 1;
      && dst[..n] == Lower(Text(src)[..n]) && dst[n] == 0
      && forall i :: 0 <= i < n ==>
        dst[i] == if 'A' as int <= src[i] <= 'Z' as int then src[i] + ('a' as int - 'A' as int) else src[i]
  {
    if maxLen == 0 {
      return;
    }
    var i := 0;
    while i < maxLen - 1 && src[i] != 0
      invariant 0 <= i <= |Text(src)| && i <= maxLen - 1
      invariant dst[..i] == Lower(Text(src)[..i])
    {
      AtTerminator(src, i);
      dst[i] := ToLowerChar(src[i]);
      assert dst[..i + 1] == dst[..i] + [ToLowerChar(src[i])];
      assert dst[..i] == Lower(Text(src)[..i]);
      assert Lower(Text(src)[..i + 1]) == Lower(Text(src)[..i]) + [ToLowerChar(Text(src)[i])];
      i := i + 1;
    }
    AtTerminator(src, i);
    dst[i] := 0;
    assert dst[..i] == Lower(Text(src)[..i]);
    forall k | 0 <= k < i
      ensures dst[k] == if 'A' as int <= src[k] <= 'Z' as int then src[k] + ('a' as int - 'A' as int) else src[k]
    {
      assert dst[k] == dst[..i][k] && Text(src)[..i][k] == src[k];
    }
  }

  const KEY_LENGTH := 255

  function Head(s: bytes): bytes {
    if |s| < KEY_LENGTH then s else s[..KEY_LENGTH]
  }

  /** The index key of a string: the CRC-16 of the lower-case form of its first 255 characters. */
  function KeyOf(s: bytes): int32 {
    Crc.Checksum(Lower(Head(s)))
  }

  /** Strings that compare equal have equal keys. */
  lemma EqualStringsEqualKeys(u: bytes, v: bytes)
    requires EqualButForCase(u, v)
    ensures KeyOf(u) == KeyOf(v)
  {
    hide Crc.Checksum;
    LowerEqual(u, v);
    assert |u| == |v|;
    forall i | 0 <= i < |Head(u)| ensures Lower(Head(u))[i] == Lower(Head(v))[i] {
      assert Lower(u)[i] == Lower(v)[i];
    }
    assert Lower(Head(u)) == Lower(Head(v));
  }

  /** The key is the checksum of the first 255 characters, each with its upper-case letters as lower-case ones. */
  lemma KeyIsChecksum(s: bytes, t: bytes)
    requires |t| == if |s| <= 255 then |s| else 255
    requires forall i :: 0 <= i < |t| ==>
      t[i] == if 'A' as int <= s[i] <= 'Z' as int then s[i] + ('a' as int - 'A' as int) else s[i]
    ensures KeyOf(s) == Crc.Checksum(t)
  {
    hide Crc.Checksum;
    assert Lower(Head(s)) == t;
  }

  method StringKey(crc: Crc.CrcTable, s: bytes) returns (key: int32)
    requires crc.Valid() && Terminated(s)
    modifies crc, crc.table
    ensures crc.Valid() && key == KeyOf(Text(s))
  {
    hide Crc.Checksum, Lower;
    var lower := new byte[256];
    StrToLower(lower, s, 256);
    var n := Length(lower[..]);
    LowerLength(Text(s), lower[..]);
    key := crc.Crc16(lower[..n]);
  }

  /** The number of characters before the terminator (strlen). */
  method Length(buf: bytes) returns (n: nat)
    requires Terminated(buf)
    ensures n == |Text(buf)|
  {
    n := 0;
    while buf[n] != 0
      invariant n <= |Text(buf)|
      decreases |buf| - n
    {
      AtTerminator(buf, n);
      n := n + 1;
    }
    AtTerminator(buf, n);
  }

  /** A buffer filled with a lower-case form and terminated holds just that. */
  lemma LowerLength(s: bytes, buf: bytes)
    requires 0 !in s && |buf| == 256
    requires var n := if |s| < 256 then |s| else 255; buf[..n] == Lower(s[..n]) && buf[n] == 0
    ensures Terminated(buf) && Text(buf) == Lower(Head(s))
  {
    var n := if |s| < 256 then |s| else 255;
    assert Head(s) == s[..n];
    forall i | 0 <= i < n ensures buf[i] != 0 {
      assert buf[i] == buf[..n][i] == ToLowerChar(s[..n][i]);
      assert s[i] in s;
    }
    FirstZero(buf, n);
  }

  lemma FirstZero(buf: bytes, n: nat)
    requires n < |buf| && buf[n] == 0 && forall i :: 0 <= i < n ==> buf[i] != 0
    ensures Terminated(buf) && Text(buf) == buf[..n]
  {
    assert buf[n] in buf;
    assert |Text(buf)| >= n;
    AtTerminator(buf, n);
  }
}
