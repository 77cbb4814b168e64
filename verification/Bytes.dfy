/** Disk blocks as the code sees them: 4096 bytes, 1024 little-endian words
    (the u32* views of bh_buf) or 32768 bits (the bitmap blocks). */
module Bytes {

  const BLK_SIZE := 4096
  const NR_BLK_OBJS := 1024
  const BITS_PER_BLK := 32768
  const TWO_32 := 0x1_0000_0000

  type byte = x: int | 0 <= x < 256
  type u8 = x: int | 0 <= x < 256
  type u16 = x: int | 0 <= x < 0x1_0000
  type u32 = x: int | 0 <= x < TWO_32

  type Block = b: seq<byte> | |b| == BLK_SIZE witness ZeroBytes(BLK_SIZE)

  function ZeroBytes(n: nat): (b: seq<byte>)
    ensures |b| == n && forall i :: 0 <= i < n ==> b[i] == 0
  {
    seq(n, i => 0)
  }

  const ZERO_BLOCK: Block := ZeroBytes(BLK_SIZE)

  // ---- 32-bit words ----

  /** Word i of the block on a little-endian machine. */
  function Word(b: Block, i: nat): (w: u32)
    requires i < NR_BLK_OBJS
  {
    b[4*i] as int + 0x100 * b[4*i+1] as int + 0x1_0000 * b[4*i+2] as int + 0x100_0000 * b[4*i+3] as int
  }

  /** The block with w stored as its word i. */
  function SetWord(b: Block, i: nat, w: u32): (r: Block)
    requires i < NR_BLK_OBJS
  {
    b[4*i := w % 0x100]
     [4*i+1 := (w / 0x100) % 0x100]
     [4*i+2 := (w / 0x1_0000) % 0x100]
     [4*i+3 := w / 0x100_0000]
  }

  lemma SplitWord(w: u32)
    ensures w % 0x100 + 0x100 * ((w / 0x100) % 0x100) + 0x1_0000 * ((w / 0x1_0000) % 0x100)
         + 0x100_0000 * (w / 0x100_0000) == w
  {
    assert w / 0x1_0000 == (w / 0x100) / 0x100;
    assert w / 0x100_0000 == (w / 0x1_0000) / 0x100;
  }

  /** Storing a word and reading the block's words back: the stored word
      changed, the 1023 others did not. */
  lemma SetWordReadBack(b: Block, i: nat, w: u32, k: nat)
    requires i < NR_BLK_OBJS && k < NR_BLK_OBJS
    ensures Word(SetWord(b, i, w), k) == if k == i then w else Word(b, k)
  {
    SplitWord(w);
    if k != i {
      assert 4*k+3 < 4*i || 4*i+3 < 4*k;
    }
  }

  /** Little-endian: byte k % 4 of the word stands at k, and the other 4092 bytes are as before. */
  lemma StoredBytes(b: Block, i: nat, w: u32, k: nat)
    requires i < NR_BLK_OBJS && k < BLK_SIZE
    ensures k / 4 != i ==> SetWord(b, i, w)[k] == b[k]
    ensures k / 4 == i ==> SetWord(b, i, w)[k] == w / (if k % 4 == 0 then 1 else if k % 4 == 1 then 0x100
                                                       else if k % 4 == 2 then 0x1_0000 else 0x100_0000) % 0x100
  {
    assert k == 4 * (k / 4) + k % 4;
  }

  lemma ZeroBlockWords(k: nat)
    requires k < NR_BLK_OBJS
    ensures Word(ZERO_BLOCK, k) == 0
  {
    assert ZERO_BLOCK[4*k] == ZERO_BLOCK[4*k+1] == ZERO_BLOCK[4*k+2] == ZERO_BLOCK[4*k+3] == 0;
  }

  /** The block after the words ws were copied in from word at on. */
  function PutWords(b: Block, at: nat, ws: seq<u32>): (r: Block)
    requires at + |ws| <= NR_BLK_OBJS
    decreases |ws|
  {
    if ws == [] then b else PutWords(SetWord(b, at, ws[0]), at + 1, ws[1..])
  }

  lemma {:induction false} PutWordsReadBack(b: Block, at: nat, ws: seq<u32>, k: nat)
    requires at + |ws| <= NR_BLK_OBJS && k < NR_BLK_OBJS
    ensures Word(PutWords(b, at, ws), k) == if at <= k < at + |ws| then ws[k - at] else Word(b, k)
    decreases |ws|
  {
    if ws != [] {
      PutWordsReadBack(SetWord(b, at, ws[0]), at + 1, ws[1..], k);
      SetWordReadBack(b, at, ws[0], k);
    }
  }

  // ---- bits ----

  function Pow2(k: nat): (p: nat)
    ensures p >= 1
  {
    if k == 0 then 1 else 2 * Pow2(k - 1)
  }

  /** Bit k of x. */
  predicate BinBit(x: nat, k: nat) {
    if k == 0 then x % 2 == 1 else BinBit(x / 2, k - 1)
  }

  /** x with bit k set or cleared. */
  function BinSet(x: nat, k: nat, on: bool): (r: nat) {
    if k == 0 then x / 2 * 2 + (if on then 1 else 0) else x % 2 + 2 * BinSet(x / 2, k - 1, on)
  }

  lemma BinSetHalves(x: nat, k: nat, on: bool)
    ensures k == 0 ==> BinSet(x, k, on) / 2 == x / 2 && (BinSet(x, k, on) % 2 == 1 <==> on)
    ensures k != 0 ==> BinSet(x, k, on) / 2 == BinSet(x / 2, k - 1, on) && BinSet(x, k, on) % 2 == x % 2
  {
  }

  lemma {:induction false} BinSetReadBack(x: nat, k: nat, on: bool, j: nat)
    ensures BinBit(BinSet(x, k, on), j) == if j == k then on else BinBit(x, j)
  {
    hide BinSet;
    BinSetHalves(x, k, on);
    if k != 0 && j != 0 {
      BinSetReadBack(x / 2, k - 1, on, j - 1);
    }
  }

  lemma {:induction false} BinSetBound(x: nat, k: nat, on: bool, n: nat)
    requires k < n && x < Pow2(n)
    ensures BinSet(x, k, on) < Pow2(n)
  {
    assert Pow2(n) == 2 * Pow2(n - 1);
    assert x / 2 < Pow2(n - 1);
    if k != 0 {
      BinSetBound(x / 2, k - 1, on, n - 1);
      assert BinSet(x, k, on) == x % 2 + 2 * BinSet(x / 2, k - 1, on);
    } else {
      assert BinSet(x, k, on) <= 2 * (x / 2) + 1;
    }
  }

  ghost predicate LowBitsSet(x: nat, n: nat) {
    forall j: nat :: j < n ==> BinBit(x, j)
  }

  /** All n low bits set: exactly the number 2^n - 1. */
  lemma {:induction false} AllOnes(x: nat, n: nat)
    requires x < Pow2(n)
    ensures x == Pow2(n) - 1 <==> LowBitsSet(x, n)
  {
    if n != 0 {
      AllOnes(x / 2, n - 1);
      assert Pow2(n) == 2 * Pow2(n - 1);
      if x == Pow2(n) - 1 {
        assert x / 2 == Pow2(n - 1) - 1;
        forall j: nat | j < n ensures BinBit(x, j) {
          if j > 0 { assert BinBit(x / 2, j - 1); }
        }
      }
      if LowBitsSet(x, n) {
        assert BinBit(x, 0);
        forall j: nat | j < n - 1 ensures BinBit(x / 2, j) {
          assert BinBit(x, j + 1);
        }
        assert LowBitsSet(x / 2, n - 1);
      }
    }
  }

  lemma ByteIsPow8()
    ensures Pow2(8) == 256
  {
    assert Pow2(4) == 16 && Pow2(8) == 2 * (2 * (2 * (2 * Pow2(4))));
  }

  lemma FullByte(x: byte)
    ensures x == 0xFF <==> LowBitsSet(x, 8)
  {
    ByteIsPow8();
    AllOnes(x, 8);
  }

  /** Bit n of a bitmap block. */
  predicate Bit(b: Block, n: nat)
    requires n < BITS_PER_BLK
  {
    BinBit(b[n / 8], n % 8)
  }

  lemma NextBit(x: nat, k: nat)
    ensures BinBit(x, 0) <==> x % 2 == 1
    ensures BinBit(x, k + 1) <==> BinBit(x / 2, k)
  {
  }

  lemma TwoBits(x: nat, k: nat)
    ensures BinBit(x, k + 2) <==> BinBit(x / 4, k)
  {
    hide BinBit;
    NextBit(x, k + 1);
    NextBit(x / 2, k);
    assert x / 2 / 2 == x / 4;
  }

  lemma FourBits(x: nat, k: nat)
    ensures BinBit(x, k + 4) <==> BinBit(x / 16, k)
  {
    hide BinBit;
    TwoBits(x, k + 2);
    TwoBits(x / 4, k);
    assert x / 4 / 4 == x / 16;
  }

  lemma LowBits(x: nat)
    ensures (BinBit(x, 0) <==> x % 2 == 1) && (BinBit(x, 1) <==> x / 2 % 2 == 1)
    ensures (BinBit(x, 2) <==> x / 4 % 2 == 1) && (BinBit(x, 3) <==> x / 8 % 2 == 1)
  {
    hide BinBit;
    NextBit(x, 0);
    NextBit(x / 2, 0);
    TwoBits(x, 0);
    TwoBits(x, 1);
    NextBit(x / 4, 0);
    NextBit(x / 8, 0);
    assert x / 4 / 2 == x / 8;
  }

  /** Bit 8 * i + k of a bitmap block has weight 2^k in byte i. */
  lemma BitInByte(b: Block, i: nat, k: nat)
    requires i < BLK_SIZE && k < 8
    ensures Bit(b, 8 * i + k) <==> b[i] / [1, 2, 4, 8, 16, 32, 64, 128][k] % 2 == 1
  {
    hide BinBit;
    assert (8 * i + k) / 8 == i && (8 * i + k) % 8 == k;
    LowBits(b[i]);
    if k >= 4 {
      FourBits(b[i], k - 4);
      LowBits(b[i] / 16);
    }
  }

  function WithBit(b: Block, n: nat, on: bool): (r: Block)
    requires n < BITS_PER_BLK
  {
    ByteIsPow8();
    BinSetBound(b[n / 8], n % 8, on, 8);
    b[n / 8 := BinSet(b[n / 8], n % 8, on)]
  }

  /** Flipping one bit of a bitmap block leaves the 32767 others alone. */
  lemma WithBitReadBack(b: Block, n: nat, on: bool, k: nat)
    requires n < BITS_PER_BLK && k < BITS_PER_BLK
    ensures Bit(WithBit(b, n, on), k) == if k == n then on else Bit(b, k)
  {
    if k / 8 == n / 8 {
      BinSetReadBack(b[n / 8], n % 8, on, k % 8);
    }
  }
}
