// Disk blocks as byte sequences, and the two other ways the kernel reads them:
// as little-endian 32-bit words and as an array of bits.
module Bytes {
  const BSIZE: nat := 512          // bytes per block (fs.h)
  const WORDS: nat := 128          // 32-bit words per block
  const BPB: nat := 4096           // bits per block (fs.h)
  const U32: nat := 0x1_0000_0000  // range of uint

  // param.h
  const MAXOPBLOCKS: nat := 10     // blocks an operation may log
  const LOGSIZE: nat := 30         // MAXOPBLOCKS * 3
  const NBUF: nat := 30            // MAXOPBLOCKS * 3
  const FSSIZE: nat := 1000        // blocks of the disk mkfs makes

  type Byte = x: int | 0 <= x < 256
  type Block = b: seq<Byte> | |b| == BSIZE witness seq(BSIZE, _ => 0)
  type Uint = x: int | 0 <= x < U32

  function ZeroBlock(): (b: Block)
    ensures forall i | 0 <= i < BSIZE :: b[i] == 0
  {
    seq(BSIZE, _ => 0)
  }

  // ---- words -------------------------------------------------------------

  function Word(b: Block, i: nat): (w: Uint)
    requires i < WORDS
  {
    var x0: int, x1: int, x2: int, x3: int := b[4*i], b[4*i+1], b[4*i+2], b[4*i+3];
    x0 + 256 * x1 + 65536 * x2 + 16777216 * x3
  }

  function PutWord(b: Block, i: nat, w: Uint): (r: Block)
    requires i < WORDS
  {
    b[4*i := w % 256][4*i+1 := w / 256 % 256][4*i+2 := w / 65536 % 256][4*i+3 := w / 16777216]
  }

  lemma WordOfPut(b: Block, i: nat, w: Uint, j: nat)
    requires i < WORDS && j < WORDS
    ensures Word(PutWord(b, i, w), j) == if j == i then w else Word(b, j)
  {
    var r := PutWord(b, i, w);
    if j != i {
      assert 4*j+3 < 4*i || 4*i+3 < 4*j;
      assert r[4*j] == b[4*j] && r[4*j+1] == b[4*j+1] && r[4*j+2] == b[4*j+2] && r[4*j+3] == b[4*j+3];
    } else {
      assert r[4*i] == w % 256 && r[4*i+1] == w / 256 % 256;
      assert r[4*i+2] == w / 65536 % 256 && r[4*i+3] == w / 16777216;
      BytesSum(w);
    }
  }

  lemma BytesSum(w: Uint)
    ensures w % 256 + 256 * (w / 256 % 256) + 65536 * (w / 65536 % 256) + 16777216 * (w / 16777216) == w
  {
    Sliced(w, 256);
    Sliced(w, 65536);
  }

  lemma Sliced(w: nat, m: nat)
    requires m == 256 || m == 65536
    ensures w / m == 256 * (w / (256 * m)) + w / m % 256
  {
    assert w / (256 * m) == w / m / 256;
  }

  // A word is little-endian, read and stored.
  lemma WordBytes(b: Block, i: nat)
    requires i < WORDS
    ensures var w := Word(b, i);
      && b[4*i] == w % 256 && b[4*i+1] == w / 256 % 256 && b[4*i+2] == w / 65536 % 256 && b[4*i+3] == w / 16777216
  {
    var x0: int, x1: int, x2: int, x3: int := b[4*i], b[4*i+1], b[4*i+2], b[4*i+3];
    FourBytes(x0, x1, x2, x3);
  }

  lemma FourBytes(x0: int, x1: int, x2: int, x3: int)
    requires 0 <= x0 < 256 && 0 <= x1 < 256 && 0 <= x2 < 256 && 0 <= x3 < 256
    ensures var w := x0 + 256 * x1 + 65536 * x2 + 16777216 * x3;
      w % 256 == x0 && w / 256 % 256 == x1 && w / 65536 % 256 == x2 && w / 16777216 == x3
  {
    var z := x2 + 256 * x3;
    var y := x1 + 256 * z;
    var w := x0 + 256 * y;
    LastByte(w, x0, y);
    LastByte(y, x1, z);
    LastByte(z, x2, x3);
    Split(w);
  }

  lemma LastByte(w: int, x: int, y: int)
    requires w == x + 256 * y && 0 <= x < 256
    ensures w % 256 == x && w / 256 == y
  {
  }

  lemma Split(w: int)
    ensures w / 65536 == w / 256 / 256 && w / 16777216 == w / 256 / 256 / 256
  {
  }

  // The words vs stored from word k on, one at a time as a C loop would.
  function PutWords(b: Block, k: nat, vs: seq<Uint>): (r: Block)
    requires k + |vs| <= WORDS
  {
    if vs == [] then b
    else PutWord(PutWords(b, k, vs[..|vs|-1]), k + |vs| - 1, vs[|vs|-1])
  }

  lemma {:induction false} WordOfPuts(b: Block, k: nat, vs: seq<Uint>, j: nat)
    requires k + |vs| <= WORDS && j < WORDS
    ensures Word(PutWords(b, k, vs), j) == if k <= j < k + |vs| then vs[j-k] else Word(b, j)
  {
    if vs != [] {
      var m := |vs| - 1;
      WordOfPuts(b, k, vs[..m], j);
      WordOfPut(PutWords(b, k, vs[..m]), k + m, vs[m], j);
    }
  }

  lemma ZeroWords(i: nat)
    requires i < WORDS
    ensures Word(ZeroBlock(), i) == 0
  {
  }

  // ---- bits --------------------------------------------------------------

  // (x >> k) & 1
  predicate BitOf(x: nat, k: nat)
  {
    if k == 0 then x % 2 == 1 else BitOf(x / 2, k - 1)
  }

  // x | (1 << k) and x & ~(1 << k), on numbers of n bits
  function WithBit(x: nat, k: nat, on: bool, ghost n: nat): (r: nat)
    requires k < n && x < Pow2(n)
    ensures r < Pow2(n)
  {
    if k == 0 then x - x % 2 + (if on then 1 else 0)
    else x % 2 + 2 * WithBit(x / 2, k - 1, on, n - 1)
  }

  ghost function Pow2(n: nat): (p: nat)
    ensures p > 0 && (n > 0 ==> p % 2 == 0)
  {
    if n == 0 then 1 else 2 * Pow2(n - 1)
  }

  lemma {:induction false} BitOfWithBit(x: nat, k: nat, on: bool, n: nat, j: nat)
    requires k < n && x < Pow2(n)
    ensures BitOf(WithBit(x, k, on, n), j) == if j == k then on else BitOf(x, j)
  {
    var r := WithBit(x, k, on, n);
    if k == 0 {
      assert r / 2 == x / 2;
    } else {
      assert r / 2 == WithBit(x / 2, k - 1, on, n - 1);
      if j > 0 {
        BitOfWithBit(x / 2, k - 1, on, n - 1, j - 1);
      }
    }
  }

  lemma ByteIsPow2()
    ensures Pow2(8) == 256
  {
    assert Pow2(4) == 16;
    assert Pow2(6) == 64;
  }

  lemma {:induction false} BitOfPower(x: nat, k: nat)
    ensures BitOf(x, k) <==> x / Pow2(k) % 2 == 1
  {
    if k > 0 {
      BitOfPower(x / 2, k - 1);
      HalfPower(x, Pow2(k - 1));
    }
  }

  lemma HalfPower(x: nat, p: nat)
    requires p > 0
    ensures x / 2 / p == x / (2 * p)
  {
    var y, q := x / 2, x / 2 / p;
    assert y == q * p + y % p;
    assert x == 2 * y + x % 2;
    assert x == q * (2 * p) + (2 * (y % p) + x % 2);
    Quotient(x, 2 * p, q, 2 * (y % p) + x % 2);
  }

  lemma Quotient(x: nat, d: nat, q: nat, m: nat)
    requires x == q * d + m && m < d
    ensures x / d == q
  {
    var r := x / d;
    assert (r - q) * d == m - x % d by {
      assert x == r * d + x % d;
    }
    Multiple(r - q, d);
  }

  lemma Multiple(a: int, d: nat)
    ensures a != 0 ==> a * d >= d || a * d + d <= 0
  {
    if a > 0 {
      assert (a - 1) * d >= 0;
    } else if a < 0 {
      assert (-a - 1) * d >= 0;
    }
  }

  // Bit i of a block is bit i % 8 of byte i / 8, the lowest first.
  lemma BitPlace(b: Block, i: nat)
    requires i < BPB
    ensures Bit(b, i) <==> b[i / 8] / Pow2(i % 8) % 2 == 1
  {
    BitOfPower(b[i / 8], i % 8);
  }

  predicate Bit(b: Block, i: nat)
    requires i < BPB
  {
    BitOf(b[i / 8], i % 8)
  }

  // data[i/8] |= m and data[i/8] &= ~m, where m = 1 << (i % 8)
  function PutBit(b: Block, i: nat, on: bool): (r: Block)
    requires i < BPB
  {
    ByteIsPow2();
    b[i / 8 := WithBit(b[i / 8], i % 8, on, 8)]
  }

  lemma BitOfPut(b: Block, i: nat, on: bool, j: nat)
    requires i < BPB && j < BPB
    ensures Bit(PutBit(b, i, on), j) == if j == i then on else Bit(b, j)
  {
    ByteIsPow2();
    BitOfWithBit(b[i / 8], i % 8, on, 8, j % 8);
  }
}
