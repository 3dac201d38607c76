/** Bytes, 32-bit words and little-endian access to a byte memory, as the Cortex-M target lays them out.
    C's `uint32_t` arithmetic is written out with `U32`. */
module Bytes {

  type byte = b: int | 0 <= b < 0x100

  type word = w: int | 0 <= w < 0x1_0000_0000

  /** Unsigned 32-bit wrap-around. */
  function U32(x: int): word {
    x % 0x1_0000_0000
  }

  lemma {:induction false} U32Shift(x: int, k: int)
    ensures U32(x + 0x1_0000_0000 * k) == U32(x)
  {
    var q := x / 0x1_0000_0000;
    assert x + 0x1_0000_0000 * k == 0x1_0000_0000 * (q + k) + U32(x);
  }

  lemma {:induction false} U32Add(x: int, y: int)
    ensures U32(U32(x) + y) == U32(x + y)
  {
    var k := x / 0x1_0000_0000;
    assert x + y == U32(x) + y + 0x1_0000_0000 * k;
    U32Shift(U32(x) + y, k);
  }

  /** The four bytes of a word, least significant first. */
  function LittleEndian(w: word): (s: seq<byte>)
    ensures |s| == 4
  {
    [w % 0x100, w / 0x100 % 0x100, w / 0x1_0000 % 0x100, w / 0x100_0000]
  }

  /** One more than the largest number of `n` bytes. */
  function Limit(n: nat): nat {
    if n == 0 then 1 else if n == 1 then 0x100 else if n == 2 then 0x1_0000 else if n == 3 then 0x100_0000
    else 0x1_0000_0000
  }

  /** The unsigned number in the `n` bytes at address `a`, least significant byte first. */
  function Number(m: seq<byte>, a: nat, n: nat): (v: nat)
    requires n <= 4 && a + n <= |m|
    ensures v < Limit(n)
    decreases n
  {
    if n == 0 then 0 else m[a] as int + 0x100 * Number(m, a + 1, n - 1)
  }

  /** The word stored at address `a` of memory `m`. */
  function Word(m: seq<byte>, a: nat): word
    requires a + 4 <= |m|
  {
    Number(m, a, 4)
  }

  /** The unsigned 16-bit number stored at address `a`. */
  function Half(m: seq<byte>, a: nat): nat
    requires a + 2 <= |m|
  {
    Number(m, a, 2)
  }

  /** The C string at address `a`. */
  function CString(m: seq<byte>, a: nat): seq<byte>
    decreases |m| - a
  {
    if a >= |m| || m[a] == 0 then [] else [m[a]] + CString(m, a + 1)
  }

  function Zeros(n: nat): (s: seq<byte>)
    ensures |s| == n && forall i :: 0 <= i < n ==> s[i] == 0
  {
    seq(n, _ => 0)
  }

  /** Memory `m` with bytes `s` written at address `a`. */
  function Splice(m: seq<byte>, a: nat, s: seq<byte>): (r: seq<byte>)
    requires a + |s| <= |m|
    ensures |r| == |m|
    ensures forall i :: 0 <= i < |m| ==> r[i] == if a <= i < a + |s| then s[i - a] else m[i]
  {
    m[..a] + s + m[a + |s|..]
  }

  lemma WordOfBytes(w: word)
    ensures Word(LittleEndian(w), 0) == w
  {
    var s := LittleEndian(w);
    assert Number(s, 3, 1) == w / 0x100_0000;
    assert Number(s, 2, 2) == w / 0x1_0000 % 0x100 + 0x100 * (w / 0x100_0000) == w / 0x1_0000;
    assert Number(s, 1, 3) == w / 0x100 % 0x100 + 0x100 * (w / 0x1_0000) == w / 0x100;
  }

  /** A number depends on its own bytes only. */
  lemma {:induction false} NumberSame(m: seq<byte>, a: nat, m': seq<byte>, a': nat, n: nat)
    requires n <= 4 && a + n <= |m| && a' + n <= |m'|
    requires m[a..a + n] == m'[a'..a' + n]
    ensures Number(m, a, n) == Number(m', a', n)
    decreases n
  {
    if n > 0 {
      assert m[a] == m[a..a + n][0] == m'[a'..a' + n][0] == m'[a'];
      assert m[a + 1..a + n] == m[a..a + n][1..] == m'[a'..a' + n][1..] == m'[a' + 1..a' + n];
      NumberSame(m, a + 1, m', a' + 1, n - 1);
    }
  }

  /** A stored word reads back, and any word that does not overlap it is untouched. */
  lemma WordSpliced(m: seq<byte>, a: nat, w: word, b: nat)
    requires a + 4 <= |m| && b + 4 <= |m|
    requires a == b || a + 4 <= b || b + 4 <= a
    ensures Word(Splice(m, a, LittleEndian(w)), b) == if a == b then w else Word(m, b)
  {
    var m' := Splice(m, a, LittleEndian(w));
    if a == b {
      NumberSame(m', b, LittleEndian(w), 0, 4);
      WordOfBytes(w);
    } else {
      NumberSame(m', b, m, b, 4);
    }
  }

  /** Reading a slice is reading the whole memory. */
  lemma NumberOfSlice(m: seq<byte>, lo: nat, hi: nat, a: nat, n: nat)
    requires lo <= hi <= |m| && n <= 4 && a + n <= hi - lo
    ensures Number(m[lo..hi], a, n) == Number(m, lo + a, n)
  {
    NumberSame(m[lo..hi], a, m, lo + a, n);
  }

  lemma WordOfSlice(m: seq<byte>, lo: nat, hi: nat, a: nat)
    requires lo <= hi <= |m| && a + 4 <= hi - lo
    ensures Word(m[lo..hi], a) == Word(m, lo + a)
  {
    NumberOfSlice(m, lo, hi, a, 4);
  }
}
