/** The block and inode bitmaps of a mounted volume (fs/bmap.c), held pinned in
    the buffer cache by the in-memory super block. */
module Bitmaps {
  import opened Bytes
  import opened BufferCaches

  const NR_IMAP_BLKS := 8
  const NR_ZMAP_BLKS := 8

  /** The first byte from i on that is not 0xFF. */
  function FirstNonFull(p: Block, i: nat): (r: nat)
    requires i <= BLK_SIZE
    ensures i <= r <= BLK_SIZE
    ensures forall m :: i <= m < r ==> p[m] == 0xFF
    ensures r < BLK_SIZE ==> p[r] != 0xFF
    decreases BLK_SIZE - i
  {
    if i == BLK_SIZE || p[i] != 0xFF then i else FirstNonFull(p, i + 1)
  }

  /** The bits find_first_zero looks at when started at bitno: the bit offset
      inside the start byte is reused in the first byte that is not full. */
  ghost predicate Searched(p: Block, bitno: nat, n: nat)
    requires bitno < BITS_PER_BLK
  {
    bitno <= n < BITS_PER_BLK && !(n / 8 == FirstNonFull(p, bitno / 8) && n % 8 < bitno % 8)
  }

  /** n is the least clear bit among the searched ones; -1 when all are set. */
  ghost predicate FoundZero(p: Block, bitno: nat, n: int)
    requires bitno < BITS_PER_BLK
  {
    if n == -1 then forall k: nat :: Searched(p, bitno, k) ==> Bit(p, k)
    else 0 <= n < BITS_PER_BLK && Searched(p, bitno, n) && !Bit(p, n)
         && forall k: nat :: k < n && Searched(p, bitno, k) ==> Bit(p, k)
  }

  /** fs/bmap.c:27 */
  method FindFirstZero(p: Block, bitno: nat) returns (n: int)
    requires bitno < BITS_PER_BLK
    ensures FoundZero(p, bitno, n)
  {
    var i, j := bitno / 8, bitno % 8;
    ghost var first := FirstNonFull(p, bitno / 8);
    while i < BLK_SIZE
      invariant bitno / 8 <= i <= BLK_SIZE
      invariant if i <= first then j == bitno % 8 else j == 0
      invariant forall k: nat :: k < 8 * i && Searched(p, bitno, k) ==> Bit(p, k)
    {
      FullByte(p[i]);
      if p[i] != 0xFF {
        while j < 8
          invariant j <= 8
          invariant forall k: nat :: k < 8 * i + j && Searched(p, bitno, k) ==> Bit(p, k)
        {
          assert (8 * i + j) / 8 == i && (8 * i + j) % 8 == j;
          if !BinBit(p[i], j) {
            return 8 * i + j;
          }
          j := j + 1;
        }
        j := 0;
      }
      i := i + 1;
    }
    return -1;
  }

  ghost predicate LeastClear(p: Block, bitno: nat, n: int)
    requires bitno < BITS_PER_BLK
  {
    if n == -1 then forall k: nat :: bitno <= k < BITS_PER_BLK ==> Bit(p, k)
    else bitno <= n < BITS_PER_BLK && !Bit(p, n) && forall k: nat :: bitno <= k < n ==> Bit(p, k)
  }

  /** No clear bit hides behind the reused offset: the start is byte aligned, or
      its byte is not full, or the low bits of the first byte that is not full
      are all set. */
  ghost predicate SkipsNothing(p: Block, bitno: nat)
    requires bitno < BITS_PER_BLK
  {
    var first := FirstNonFull(p, bitno / 8);
    bitno % 8 == 0 || first == bitno / 8 || first == BLK_SIZE
    || forall j: nat :: j < bitno % 8 ==> BinBit(p[first], j)
  }

  /** Exactly when find_first_zero finds the least clear bit from bitno on. */
  lemma FindsLeastIff(p: Block, bitno: nat, n: int)
    requires bitno < BITS_PER_BLK && FoundZero(p, bitno, n)
    ensures LeastClear(p, bitno, n) <==> SkipsNothing(p, bitno)
  {
    var first := FirstNonFull(p, bitno / 8);
    if !SkipsNothing(p, bitno) {
      var j: nat :| j < bitno % 8 && !BinBit(p[first], j);
      var k := 8 * first + j;
      assert k / 8 == first && k % 8 == j && !Bit(p, k);
      forall m: nat | bitno <= m < 8 * first ensures Bit(p, m) {
        FullByte(p[m / 8]);
      }
    } else {
      forall m: nat | bitno <= m < BITS_PER_BLK && !Searched(p, bitno, m) ensures Bit(p, m) {
        assert m / 8 == first && m % 8 < bitno % 8;
      }
    }
  }

  /** A start that misses a clear bit: byte 0 full, bit 8 clear, start at bit 1. */
  lemma MissesClearBit()
    ensures exists p: Block :: FoundZero(p, 1, 9) && !LeastClear(p, 1, 9)
  {
    var p: Block := ZERO_BLOCK[0 := 0xFF];
    FullByte(0xFF);
    assert FirstNonFull(p, 0) == 1 by {
      assert FirstNonFull(p, 1) == 1;
    }
    assert !Bit(p, 8) && !Bit(p, 9);
    assert FoundZero(p, 1, 9) by {
      forall k: nat | k < 9 && Searched(p, 1, k) ensures Bit(p, k) {
        assert k < 8;
      }
    }
  }

  /** The layout the formatter writes: the maps cover the volume and lie below
      the data zone. */
  predicate GoodLayout(nzones: u32, imapBlocks: u32, zmapBlocks: u32, firstDatazone: u32) {
    && 0 < imapBlocks <= NR_IMAP_BLKS && 0 < zmapBlocks <= NR_ZMAP_BLKS
    && 2 + imapBlocks + zmapBlocks <= firstDatazone <= nzones
    && nzones - firstDatazone <= zmapBlocks * BITS_PER_BLK
    && firstDatazone + zmapBlocks * BITS_PER_BLK < TWO_32
  }

  /** The pins after n consecutive blocks from blk on were read. */
  ghost predicate MapHeld(m: map<Key, Pin>, m': map<Key, Pin>, dev: u16, blk: u32, n: nat, bhs: seq<int>)
    requires blk + n < TWO_32 && |bhs| == n
  {
    && (forall j: nat :: j < n ==> Holds(m', Key(dev, blk + j), bhs[j]))
    && (forall k: Key :: k.dev != dev || k.blk < blk || k.blk >= blk + n ==>
          (k in m' <==> k in m) && (k in m ==> m'[k] == m[k]))
  }

  lemma MapHeldNone(m: map<Key, Pin>, dev: u16, blk: u32)
    ensures MapHeld(m, m, dev, blk, 0, [])
  {
  }

  lemma MapHeldStep(m: map<Key, Pin>, m1: map<Key, Pin>, dev: u16, blk: u32, n: nat, bhs: seq<int>, p: int)
    requires blk + n + 1 < TWO_32 && |bhs| == n && MapHeld(m, m1, dev, blk, n, bhs)
    requires Key(dev, blk + n) in m1 ==> m1[Key(dev, blk + n)].cnt < 255
    ensures MapHeld(m, Plus(m1, Key(dev, blk + n), p, true), dev, blk, n + 1, bhs + [p])
  {
  }

  /** One of the two loops of read_ibmap (fs/super.c:26-35): n consecutive map
      blocks are read and stay pinned. */
  method ReadMap(cache: BufferCache, dev: u16, blk: u32, n: nat, ghost spare: nat) returns (bhs: seq<int>)
    requires dev != 0 && blk + n < TWO_32 && cache.Valid()
    requires Room(cache.pins, cache.bh.Length, n + spare)
    modifies cache.Repr()
    ensures cache.Valid() && cache.view == old(cache.view)
    ensures |bhs| == n && MapHeld(old(cache.pins), cache.pins, dev, blk, n, bhs)
    ensures Room(cache.pins, cache.bh.Length, spare)
  {
    hide BufferCache.Consistent, BufferCache.Fetched, MapHeld;
    MapHeldNone(cache.pins, dev, blk);
    bhs := [];
    for i := 0 to n
      invariant |bhs| == i && cache.Valid() && cache.view == old(cache.view)
      invariant MapHeld(old(cache.pins), cache.pins, dev, blk, i, bhs)
      invariant Room(cache.pins, cache.bh.Length, n - i + spare)
    {
      ghost var m := cache.pins;
      var p := cache.Bread(dev, blk + i);
      PlusRoom(m, cache.bh.Length, n - i - 1 + spare, Key(dev, blk + i), p, true);
      MapHeldStep(old(cache.pins), m, dev, blk, i, bhs, p);
      bhs := bhs + [p];
    }
  }

  class SuperBlock {
    const cache: BufferCache
    const dev: u16
    const nzones: u32
    const imapBlocks: u32
    const zmapBlocks: u32
    const firstDatazone: u32
    var pos: u32            // where the last block was found, in data zones
    var imapBh: seq<int>
    var zmapBh: seq<int>

    constructor (cache: BufferCache, dev: u16, nzones: u32, imapBlocks: u32, zmapBlocks: u32,
                 firstDatazone: u32, pos: u32, imapBh: seq<int>, zmapBh: seq<int>)
      ensures this.cache == cache && this.dev == dev && this.nzones == nzones
      ensures this.imapBlocks == imapBlocks && this.zmapBlocks == zmapBlocks
      ensures this.firstDatazone == firstDatazone && this.pos == pos
      ensures this.imapBh == imapBh && this.zmapBh == zmapBh && fresh(this)
    {
      this.cache := cache;
      this.dev := dev;
      this.nzones := nzones;
      this.imapBlocks := imapBlocks;
      this.zmapBlocks := zmapBlocks;
      this.firstDatazone := firstDatazone;
      this.pos := pos;
      this.imapBh, this.zmapBh := imapBh, zmapBh;
    }

    function ImapKey(j: nat): Key
      requires j < imapBlocks && 2 + imapBlocks < TWO_32
    {
      Key(dev, 2 + j)
    }

    function ZmapKey(j: nat): Key
      requires j < zmapBlocks && 2 + imapBlocks + zmapBlocks < TWO_32
    {
      Key(dev, 2 + imapBlocks + j)
    }

    predicate Layout() {
      dev != 0 && GoodLayout(nzones, imapBlocks, zmapBlocks, firstDatazone)
    }

    ghost predicate Valid()
      reads this, cache.Repr()
      ensures Valid() ==> Layout() && forall k :: k in cache.view
    {
      && this !in cache.Repr()
      && cache.Valid()
      && Layout()
      && pos < zmapBlocks * BITS_PER_BLK
      && MapsHeld(cache.pins)
      && (forall k: Key :: k.dev == dev && (IsDataZone(k.blk) || IsTableBlk(k.blk)) && k in cache.pins ==>
           cache.pins[k].valid)
    }

    ghost predicate MapsHeld(m: map<Key, Pin>)
      reads this
    {
      && Layout()
      && |imapBh| == imapBlocks && |zmapBh| == zmapBlocks
      && (forall j: nat :: j < imapBlocks ==> Holds(m, ImapKey(j), imapBh[j]))
      && (forall j: nat :: j < zmapBlocks ==> Holds(m, ZmapKey(j), zmapBh[j]))
    }

    /** Room for n more pins in the cache. */
    ghost predicate Roomy(n: nat)
      reads cache
    {
      Room(cache.pins, cache.bh.Length, n)
    }

    /** The zone bitmap as one long array of bits. */
    ghost predicate ZoneBit(v: imap<Key, Block>, n: nat)
      requires Layout() && n < zmapBlocks * BITS_PER_BLK && forall k :: k in v
    {
      Bit(v[ZmapKey(n / BITS_PER_BLK)], n % BITS_PER_BLK)
    }

    /** In raw bytes: bit n is in bitmap block n / 32768, which follows the inode bitmap. */
    lemma ZoneBitAt(v: imap<Key, Block>, n: nat)
      requires Layout() && n < zmapBlocks * BITS_PER_BLK && forall k :: k in v
      ensures ZoneBit(v, n) <==> v[Key(dev, 2 + imapBlocks + n / 0x8000)][n % 0x8000 / 8]
                                 / [1, 2, 4, 8, 16, 32, 64, 128][n % 8] % 2 == 1
    {
      hide Bit;
      BitInByte(v[ZmapKey(n / BITS_PER_BLK)], n % BITS_PER_BLK / 8, n % 8);
    }

    /** Bit n is clear, inside the volume, and among the bits new_block looks at
        when it starts at bit from. */
    ghost predicate Eligible(v: imap<Key, Block>, from: nat, n: nat)
      requires Layout() && from < zmapBlocks * BITS_PER_BLK && forall k :: k in v
    {
      && n < zmapBlocks * BITS_PER_BLK && n + firstDatazone < nzones
      && !ZoneBit(v, n)
      && (n / BITS_PER_BLK == from / BITS_PER_BLK ==>
            Searched(v[ZmapKey(n / BITS_PER_BLK)], from % BITS_PER_BLK, n % BITS_PER_BLK))
    }

    /** The search of new_block would come back empty. */
    ghost predicate Exhausted(v: imap<Key, Block>, from: nat)
      requires Layout() && from < zmapBlocks * BITS_PER_BLK && forall k :: k in v
    {
      forall n: nat :: !Eligible(v, from, n)
    }

    /** In raw bits: what is still clear inside the volume stands in the map block of the start, before it, or
        hides behind the reused bit offset. */
    lemma ExhaustedIff(v: imap<Key, Block>, from: nat)
      requires Layout() && from < zmapBlocks * BITS_PER_BLK && forall k :: k in v
      ensures Exhausted(v, from) <==>
              forall n: nat :: n < nzones - firstDatazone && !ZoneBit(v, n) ==>
                n / 0x8000 == from / 0x8000
                && (n < from || (n % 0x8000 / 8 == FirstNonFull(v[ZmapKey(from / 0x8000)], from % 0x8000 / 8)
                                 && n % 8 < from % 8))
    {
      hide ZoneBit;
      forall n: nat | n < nzones - firstDatazone && !ZoneBit(v, n)
        ensures Eligible(v, from, n) <==>
                !(n / 0x8000 == from / 0x8000
                  && (n < from || (n % 0x8000 / 8 == FirstNonFull(v[ZmapKey(from / 0x8000)], from % 0x8000 / 8)
                                   && n % 8 < from % 8)))
      {
        assert n % 0x8000 % 8 == n % 8 && from % 0x8000 % 8 == from % 8;
      }
    }

    ghost predicate NoneInBlock(v: imap<Key, Block>, from: nat, j: nat)
      requires Layout() && from < zmapBlocks * BITS_PER_BLK && forall k :: k in v
    {
      forall n: nat :: n / BITS_PER_BLK == j ==> !Eligible(v, from, n)
    }

    /** The least clear bit of a map block lies beyond the volume, or there is
        none: the block has nothing to offer. */
    lemma BlockExhausted(v: imap<Key, Block>, from: nat, j: nat, k: nat, l: int)
      requires Layout() && from < zmapBlocks * BITS_PER_BLK && forall q :: q in v
      requires j < zmapBlocks && k < BITS_PER_BLK
      requires k == 0 || (j == from / BITS_PER_BLK && k == from % BITS_PER_BLK)
      requires FoundZero(v[ZmapKey(j)], k, l)
      requires l == -1 || j * BITS_PER_BLK + l + firstDatazone >= nzones
      ensures NoneInBlock(v, from, j)
    {
      forall n: nat | n / BITS_PER_BLK == j && Eligible(v, from, n) ensures false {
        var m := n % BITS_PER_BLK;
        assert n == j * BITS_PER_BLK + m && !Bit(v[ZmapKey(j)], m);
        assert Searched(v[ZmapKey(j)], k, m);
      }
    }

    /** How far the search that starts at bit from has gone when it reaches bit n. */
    function Reach(from: nat, n: nat): int {
      (if n / BITS_PER_BLK >= from / BITS_PER_BLK then n else n + zmapBlocks * BITS_PER_BLK)
      - from / BITS_PER_BLK * BITS_PER_BLK
    }

    /** n is the first zone that the search from bit from can take. */
    ghost predicate FirstEligible(v: imap<Key, Block>, from: nat, n: nat)
      requires Layout() && from < zmapBlocks * BITS_PER_BLK && forall k :: k in v
    {
      Eligible(v, from, n) && forall m: nat :: Eligible(v, from, m) ==> Reach(from, n) <= Reach(from, m)
    }

    lemma FoundFirst(v: imap<Key, Block>, from: nat, j: nat, k: nat, l: int)
      requires Layout() && from < zmapBlocks * BITS_PER_BLK && forall q :: q in v
      requires j < zmapBlocks && k < BITS_PER_BLK && l != -1
      requires if j == from / BITS_PER_BLK then k == from % BITS_PER_BLK else k == 0
      requires FoundZero(v[ZmapKey(j)], k, l) && j * BITS_PER_BLK + l + firstDatazone < nzones
      requires forall x: nat ::
                 x < zmapBlocks
                   && Turn(x, from / BITS_PER_BLK - 1, zmapBlocks) < Turn(j, from / BITS_PER_BLK - 1, zmapBlocks)
                 ==> NoneInBlock(v, from, x)
      ensures FirstEligible(v, from, j * BITS_PER_BLK + l)
    {
      hide BinBit;
      FoundEligible(v, from, j, k, l);
      var n := j * BITS_PER_BLK + l;
      forall m: nat | Eligible(v, from, m) ensures Reach(from, n) <= Reach(from, m) {
        assert !NoneInBlock(v, from, m / BITS_PER_BLK);
        if m / BITS_PER_BLK == j {
          assert m == j * BITS_PER_BLK + m % BITS_PER_BLK;
          assert !Bit(v[ZmapKey(j)], m % BITS_PER_BLK) && Searched(v[ZmapKey(j)], k, m % BITS_PER_BLK);
        }
      }
    }

    /** The search loop of new_block (fs/bmap.c:75-85). */
    method FindZone(ghost v: imap<Key, Block>) returns (found: bool, j: nat, l: int)
      requires Valid() && v == cache.view
      ensures found ==> j < zmapBlocks && 0 <= l < BITS_PER_BLK && FirstEligible(v, pos, j * BITS_PER_BLK + l)
      ensures found ==> j * BITS_PER_BLK + l + firstDatazone < nzones && !ZoneBit(v, j * BITS_PER_BLK + l)
      ensures !found ==> forall n: nat :: !Eligible(v, pos, n)
    {
      hide BufferCache.Consistent, FoundZero, Eligible, FirstEligible, NoneInBlock;
      ghost var j0 := pos / BITS_PER_BLK;
      j := pos / BITS_PER_BLK;
      var k := pos % BITS_PER_BLK;
      l := -1;
      var i := 0;
      while i < zmapBlocks
        invariant i <= zmapBlocks && j < zmapBlocks
        invariant if i == 0 then j == j0 && k == pos % BITS_PER_BLK else k == 0
        invariant i < zmapBlocks ==> Turn(j, j0 - 1, zmapBlocks) == i
        invariant forall x: nat :: x < zmapBlocks && Turn(x, j0 - 1, zmapBlocks) < i ==> NoneInBlock(v, pos, x)
      {
        cache.Pointed(zmapBh[j], ZmapKey(j));
        var p := cache.bh[zmapBh[j]].data;
        l := FindFirstZero(p, k);
        if l != -1 && j * BITS_PER_BLK + l + firstDatazone < nzones {
          FoundEligible(v, pos, j, k, l);
          FoundFirst(v, pos, j, k, l);
          return true, j, l;
        }
        BlockExhausted(v, pos, j, k, l);
        k := 0;
        NextStop(j, j0, zmapBlocks);
        j := (j + 1) % zmapBlocks;
        i := i + 1;
      }
      NoneAnywhere(v, pos);
      return false, j, l;
    }

    lemma NoneAnywhere(v: imap<Key, Block>, from: nat)
      requires Layout() && from < zmapBlocks * BITS_PER_BLK && forall k :: k in v
      requires forall x: nat :: x < zmapBlocks ==> NoneInBlock(v, from, x)
      ensures forall n: nat :: !Eligible(v, from, n)
    {
      forall n: nat ensures !Eligible(v, from, n) {
        assert n / BITS_PER_BLK < zmapBlocks ==> NoneInBlock(v, from, n / BITS_PER_BLK);
      }
    }

    lemma FoundEligible(v: imap<Key, Block>, from: nat, j: nat, k: nat, l: int)
      requires Layout() && from < zmapBlocks * BITS_PER_BLK && forall q :: q in v
      requires j < zmapBlocks && k < BITS_PER_BLK && l != -1
      requires if j == from / BITS_PER_BLK then k == from % BITS_PER_BLK else k == 0
      requires FoundZero(v[ZmapKey(j)], k, l) && j * BITS_PER_BLK + l + firstDatazone < nzones
      ensures Eligible(v, from, j * BITS_PER_BLK + l) && !ZoneBit(v, j * BITS_PER_BLK + l)
    {
      var n := j * BITS_PER_BLK + l;
      assert n / BITS_PER_BLK == j && n % BITS_PER_BLK == l;
    }

    lemma NextStop(j: nat, j0: nat, n: nat)
      requires j < n && j0 < n
      ensures (j + 1) % n == if j + 1 == n then 0 else j + 1
      ensures Turn(j, j0 - 1, n) + 1 < n ==> Turn((j + 1) % n, j0 - 1, n) == Turn(j, j0 - 1, n) + 1
      ensures forall x: nat {:trigger Turn(x, j0 - 1, n)} :: x < n && Turn(x, j0 - 1, n) == Turn(j, j0 - 1, n) ==>
              x == j
    {
      if j + 1 < n {
        assert (j + 1) % n == j + 1;
      }
    }

    /** The inode bitmap as one long array of bits. */
    ghost predicate InodeBit(v: imap<Key, Block>, n: nat)
      requires Layout() && n < imapBlocks * BITS_PER_BLK && forall k :: k in v
    {
      Bit(v[ImapKey(n / BITS_PER_BLK)], n % BITS_PER_BLK)
    }

    /** In raw bytes: bit n is in bitmap block n / 32768, the first of which is block 2. */
    lemma InodeBitAt(v: imap<Key, Block>, n: nat)
      requires Layout() && n < imapBlocks * BITS_PER_BLK && forall k :: k in v
      ensures InodeBit(v, n) <==> v[Key(dev, 2 + n / 0x8000)][n % 0x8000 / 8]
                                  / [1, 2, 4, 8, 16, 32, 64, 128][n % 8] % 2 == 1
    {
      hide Bit;
      BitInByte(v[ImapKey(n / BITS_PER_BLK)], n % BITS_PER_BLK / 8, n % 8);
    }

    predicate IsImapKey(k: Key) {
      k.dev == dev && 2 <= k.blk < 2 + imapBlocks
    }

    lemma InodeBitPut(v: imap<Key, Block>, n: nat, on: bool)
      requires Layout() && n < imapBlocks * BITS_PER_BLK && forall k :: k in v
      ensures var k := ImapKey(n / BITS_PER_BLK);
              var v' := v[k := WithBit(v[k], n % BITS_PER_BLK, on)];
              forall m: nat :: m < imapBlocks * BITS_PER_BLK ==>
                InodeBit(v', m) == if m == n then on else InodeBit(v, m)
    {
      var k := ImapKey(n / BITS_PER_BLK);
      var v' := v[k := WithBit(v[k], n % BITS_PER_BLK, on)];
      forall m: nat | m < imapBlocks * BITS_PER_BLK
        ensures InodeBit(v', m) == if m == n then on else InodeBit(v, m)
      {
        WithBitReadBack(v[k], n % BITS_PER_BLK, on, m % BITS_PER_BLK);
      }
    }

    /** getbit (fs/inode.c:111) on bit n of the inode bitmap. */
    method TestInode(n: nat) returns (on: bool)
      requires Valid() && n < imapBlocks * BITS_PER_BLK
      ensures on == InodeBit(cache.view, n)
    {
      cache.Pointed(imapBh[n / BITS_PER_BLK], ImapKey(n / BITS_PER_BLK));
      on := Bit(cache.bh[imapBh[n / BITS_PER_BLK]].data, n % BITS_PER_BLK);
    }

    /** setb and clrb on bit n of the inode bitmap, with bh_dirt = true. */
    method PutInodeBit(n: nat, on: bool) returns (was: bool)
      requires Valid() && n < imapBlocks * BITS_PER_BLK
      modifies cache.bh, cache`view, cache`pins
      ensures Valid() && cache.pins == old(cache.pins)
      ensures was == InodeBit(old(cache.view), n)
      ensures forall m: nat :: m < imapBlocks * BITS_PER_BLK ==>
                InodeBit(cache.view, m) == if m == n then on else InodeBit(old(cache.view), m)
      ensures forall k :: !IsImapKey(k) ==> cache.view[k] == old(cache.view)[k]
    {
      hide BufferCache.Consistent, Bit, WithBit;
      ghost var v := cache.view;
      var j, l := n / BITS_PER_BLK, n % BITS_PER_BLK;
      cache.Pointed(imapBh[j], ImapKey(j));
      var p := cache.bh[imapBh[j]].data;
      was := Bit(p, l);
      cache.Modify(imapBh[j], ImapKey(j), WithBit(p, l, on));
      InodeBitPut(v, n, on);
    }

    /** The search loop of new_inode (fs/bmap.c:113-116): the least free inode
        number, or -1 when all are taken. */
    method FindInode() returns (num: int)
      requires Valid()
      ensures -1 <= num < imapBlocks * BITS_PER_BLK
      ensures num >= 0 ==> !InodeBit(cache.view, num)
      ensures forall m: nat :: m < (if num == -1 then imapBlocks * BITS_PER_BLK else num) ==> InodeBit(cache.view, m)
    {
      hide BufferCache.Consistent, FoundZero, Bit;
      for i := 0 to imapBlocks
        invariant forall m: nat :: m < i * BITS_PER_BLK ==> InodeBit(cache.view, m)
      {
        cache.Pointed(imapBh[i], ImapKey(i));
        var j := FindFirstZero(cache.bh[imapBh[i]].data, 0);
        ZeroFromStart(cache.view, i, j);
        if j != -1 {
          return i * BITS_PER_BLK + j;
        }
      }
      return -1;
    }

    /** new_inode takes the least free inode number. */
    method TakeInode() returns (num: int)
      requires Valid()
      modifies cache.bh, cache`view, cache`pins
      ensures Valid() && cache.pins == old(cache.pins) && -1 <= num < imapBlocks * BITS_PER_BLK
      ensures num == -1 ==> cache.view == old(cache.view)
      ensures num == -1 ==> forall m: nat :: m < imapBlocks * BITS_PER_BLK ==> InodeBit(cache.view, m)
      ensures num >= 0 ==> !InodeBit(old(cache.view), num) && forall m: nat :: m < num ==> InodeBit(old(cache.view), m)
      ensures num >= 0 ==> forall m: nat :: m < imapBlocks * BITS_PER_BLK ==>
                InodeBit(cache.view, m) == if m == num then true else InodeBit(old(cache.view), m)
      ensures forall k :: !IsImapKey(k) ==> cache.view[k] == old(cache.view)[k]
    {
      hide BufferCache.Consistent, InodeBit;
      num := FindInode();
      if num >= 0 {
        var busy := PutInodeBit(num, true);
        assert !busy;
      }
    }

    /** Searched from bit 0, a map block shows its least clear bit. */
    lemma ZeroFromStart(v: imap<Key, Block>, i: nat, j: int)
      requires Layout() && i < imapBlocks && (forall k :: k in v) && FoundZero(v[ImapKey(i)], 0, j)
      ensures -1 <= j < BITS_PER_BLK
      ensures forall m: nat :: i * BITS_PER_BLK <= m < i * BITS_PER_BLK + (if j == -1 then BITS_PER_BLK else j) ==>
              InodeBit(v, m)
      ensures j != -1 ==> !InodeBit(v, i * BITS_PER_BLK + j)
    {
      forall m: nat | i * BITS_PER_BLK <= m < i * BITS_PER_BLK + (if j == -1 then BITS_PER_BLK else j)
        ensures InodeBit(v, m) {
        assert m / BITS_PER_BLK == i && Searched(v[ImapKey(i)], 0, m % BITS_PER_BLK);
      }
      if j != -1 {
        assert (i * BITS_PER_BLK + j) / BITS_PER_BLK == i;
      }
    }

    predicate IsZmapKey(k: Key) {
      k.dev == dev && 2 + imapBlocks <= k.blk < 2 + imapBlocks + zmapBlocks
    }

    predicate IsDataZone(b: nat) {
      firstDatazone <= b < nzones
    }

    /** Neither file data nor the zone bitmap: boot and super block, inode bitmap,
        inode table, and other devices. */
    predicate IsMeta(k: Key) {
      k.dev != dev || !(IsDataZone(k.blk) || IsZmapKey(k))
    }

    /** Of the bitmap only the bit of block b changed, to on; of the contents only
        block b and the bitmap; the pins are as they were. */
    twostate predicate Flipped(b: u32, on: bool)
      requires old(Valid()) && Valid() && IsDataZone(b)
      reads this, cache.Repr()
    {
      && (forall n: nat :: n < zmapBlocks * BITS_PER_BLK ==>
            ZoneBit(cache.view, n) == if n == b - firstDatazone then on else ZoneBit(old(cache.view), n))
      && (forall k: Key :: k != Key(dev, b) && !IsZmapKey(k) ==> cache.view[k] == old(cache.view)[k])
      && cache.pins == old(cache.pins)
    }

    /** setb and clrb (fs/bmap.c:7-25) on bit n of the zone bitmap; its buffer becomes dirty. */
    method PutBit(n: nat, on: bool) returns (was: bool)
      requires Valid() && n < zmapBlocks * BITS_PER_BLK
      modifies cache.bh, cache`view, cache`pins
      ensures Valid() && cache.pins == old(cache.pins)
      ensures was == ZoneBit(old(cache.view), n)
      ensures forall m: nat :: m < zmapBlocks * BITS_PER_BLK ==>
                ZoneBit(cache.view, m) == if m == n then on else ZoneBit(old(cache.view), m)
      ensures forall k :: !IsZmapKey(k) ==> cache.view[k] == old(cache.view)[k]
    {
      hide BufferCache.Consistent, Bit, WithBit;
      ghost var v := cache.view;
      var j, l := n / BITS_PER_BLK, n % BITS_PER_BLK;
      cache.Pointed(zmapBh[j], ZmapKey(j));
      var p := cache.bh[zmapBh[j]].data;
      was := Bit(p, l);
      cache.Modify(zmapBh[j], ZmapKey(j), WithBit(p, l, on));
      ZoneBitPut(v, n, on);
    }

    lemma ZoneBitPut(v: imap<Key, Block>, n: nat, on: bool)
      requires Layout() && n < zmapBlocks * BITS_PER_BLK && forall k :: k in v
      ensures var k := ZmapKey(n / BITS_PER_BLK);
              var v' := v[k := WithBit(v[k], n % BITS_PER_BLK, on)];
              forall m: nat :: m < zmapBlocks * BITS_PER_BLK ==> ZoneBit(v', m) == if m == n then on else ZoneBit(v, m)
    {
      var k := ZmapKey(n / BITS_PER_BLK);
      var v' := v[k := WithBit(v[k], n % BITS_PER_BLK, on)];
      forall m: nat | m < zmapBlocks * BITS_PER_BLK ensures ZoneBit(v', m) == if m == n then on else ZoneBit(v, m) {
        WithBitReadBack(v[k], n % BITS_PER_BLK, on, m % BITS_PER_BLK);
      }
    }

    /** Contents outside the bitmap have no bearing on its bits. */
    lemma ZoneBitSame(v: imap<Key, Block>, v': imap<Key, Block>)
      requires Layout() && forall k :: k in v && k in v'
      requires forall k :: IsZmapKey(k) ==> v'[k] == v[k]
      ensures forall n: nat :: n < zmapBlocks * BITS_PER_BLK ==> ZoneBit(v', n) == ZoneBit(v, n)
    {
    }

    /** Contents outside the bitmap have no bearing on the search either. */
    lemma StillExhausted(v: imap<Key, Block>)
      requires Valid() && forall k :: k in v
      requires forall k :: IsZmapKey(k) ==> cache.view[k] == v[k]
      ensures pos < zmapBlocks * BITS_PER_BLK && (Exhausted(v, pos) ==> Exhausted(cache.view, pos))
    {
      hide Searched, Bit, BufferCache.Consistent;
      forall n: nat | Eligible(cache.view, pos, n) ensures Eligible(v, pos, n) {
        assert IsZmapKey(ZmapKey(n / BITS_PER_BLK));
      }
    }

    /** fs/bmap.c:95-99: block b is filled with zeros through its buffer. */
    method ZeroFill(b: u32)
      requires Valid() && Roomy(1) && IsDataZone(b)
      modifies cache.Repr()
      ensures Valid() && cache.pins == old(cache.pins)
      ensures cache.view == old(cache.view)[Key(dev, b) := ZERO_BLOCK]
    {
      hide BufferCache.Consistent, BufferCache.Fetched, BufferCache.Released;
      ghost var k, m := Key(dev, b), cache.pins;
      var p := cache.GetBlk(dev, b);
      cache.Fill(p, k, ZERO_BLOCK);
      PlusMinus(m, k, p, true);
      assert cache.pins == Plus(m, k, p, true);
      cache.Brelse(p, k);
    }

    /** fs/bmap.c:55-60: whatever block b holds in the cache is discarded. */
    method Discard(b: u32)
      requires Valid() && Roomy(1) && IsDataZone(b) && Key(dev, b) !in cache.pins
      modifies cache.Repr()
      ensures Valid() && cache.pins == old(cache.pins)
      ensures forall k :: k != Key(dev, b) ==> cache.view[k] == old(cache.view)[k]
      ensures cache.view[Key(dev, b)] == cache.disk(Key(dev, b))
    {
      hide BufferCache.Consistent, BufferCache.Fetched;
      ghost var k, m := Key(dev, b), cache.pins;
      var p := cache.GetBlk(dev, b);
      cache.Pointed(p, k);
      assert cache.bh[p].cnt == 1;
      cache.Invalidate(p, k);
      assert cache.pins == Plus(m, k, p, false);
      PlusMinus(m, k, p, false);
      cache.Brelse(p, k);
    }

    /** new_block once bit n was found clear (fs/bmap.c:86-100). */
    method TakeZone(n: nat) returns (b: u32)
      requires Valid() && Roomy(1) && n < zmapBlocks * BITS_PER_BLK && n + firstDatazone < nzones
      requires !ZoneBit(cache.view, n)
      modifies cache.Repr(), this`pos
      ensures Valid() && pos == n && b == n + firstDatazone && IsDataZone(b)
      ensures Flipped(b, true) && cache.view[Key(dev, b)] == ZERO_BLOCK
    {
      hide BufferCache.Consistent, ZoneBit;
      var busy := PutBit(n, true);
      assert !busy;
      pos := n;
      b := n + firstDatazone;
      ghost var v1 := cache.view;
      ZeroFill(b);
      ZoneBitSame(v1, cache.view);
    }

    /** Block b was the first eligible one and clear; now it is marked, zero-filled and where the next search starts. */
    twostate predicate NewlyTaken(b: u32)
      requires old(Valid()) && Valid()
      reads this, cache.Repr()
    {
      && IsDataZone(b) && FirstEligible(old(cache.view), old(pos), b - firstDatazone)
      && !ZoneBit(old(cache.view), b - firstDatazone)
      && Flipped(b, true) && cache.view[Key(dev, b)] == ZERO_BLOCK && pos == b - firstDatazone
    }

    /** fs/bmap.c:67. The new block was clear and is zero-filled; 0 means that no
        eligible zone is left. */
    method NewBlock() returns (b: u32)
      requires Valid() && Roomy(1)
      modifies cache.Repr(), this`pos
      ensures Valid()
      ensures b == 0 <==> Exhausted(old(cache.view), old(pos))
      ensures b == 0 ==> cache.view == old(cache.view) && pos == old(pos) && cache.pins == old(cache.pins)
      ensures b != 0 ==> NewlyTaken(b)
      ensures b != 0 ==> IsDataZone(b) && cache.view[Key(dev, b)] == ZERO_BLOCK && cache.pins == old(cache.pins)
      ensures b != 0 ==> forall n: nat :: n < zmapBlocks * BITS_PER_BLK ==>
                (ZoneBit(cache.view, n) <==> n == b - firstDatazone || ZoneBit(old(cache.view), n))
      ensures b != 0 ==> forall k: Key :: k != Key(dev, b) && !IsZmapKey(k) ==> cache.view[k] == old(cache.view)[k]
    {
      hide BufferCache.Consistent, Eligible, ZoneBit, Reach;
      ghost var v, from := cache.view, pos;
      var found, j, l := FindZone(v);
      if !found {
        return 0;
      }
      assert Eligible(v, from, j * BITS_PER_BLK + l);
      b := TakeZone(j * BITS_PER_BLK + l);
    }

    /** fs/bmap.c:46, on a marked block of the data zone that nobody holds. */
    method FreeBlock(b: u32)
      requires Valid() && Roomy(1)
      requires IsDataZone(b) && ZoneBit(cache.view, b - firstDatazone) && Key(dev, b) !in cache.pins
      modifies cache.Repr()
      ensures Valid() && Flipped(b, false) && cache.pins == old(cache.pins)
      ensures forall n: nat :: n < zmapBlocks * BITS_PER_BLK ==>
                (ZoneBit(cache.view, n) <==> n != b - firstDatazone && ZoneBit(old(cache.view), n))
      ensures cache.view[Key(dev, b)] == cache.disk(Key(dev, b))
      ensures forall k: Key :: k != Key(dev, b) && !IsZmapKey(k) ==> cache.view[k] == old(cache.view)[k]
    {
      hide BufferCache.Consistent, ZoneBit;
      ghost var v := cache.view;
      Discard(b);
      ZoneBitSame(v, cache.view);
      var n := b - firstDatazone;
      var busy := PutBit(n, false);
      assert busy;
    }

    /** A block of the inode table lies between the bitmaps and the data zone. */
    predicate IsTableBlk(b: nat) {
      2 + imapBlocks + zmapBlocks <= b < firstDatazone
    }

    /** bread, a copy out of the buffer, brelse, of a block of the inode table. */
    method ReadTable(b: u32) returns (d: Block)
      requires Valid() && Roomy(1) && IsTableBlk(b)
      modifies cache.Repr()
      ensures Valid() && cache.view == old(cache.view) && cache.pins == old(cache.pins)
      ensures d == cache.view[Key(dev, b)]
    {
      hide BufferCache.Consistent, BufferCache.Fetched, BufferCache.Released;
      ghost var k, m := Key(dev, b), cache.pins;
      var p := cache.Bread(dev, b);
      cache.Pointed(p, k);
      d := cache.bh[p].data;
      PlusMinus(m, k, p, true);
      cache.Brelse(p, k);
    }

    /** bread, a change of the buffer, bh_dirt, brelse, of a block of the inode table. */
    method WriteTable(b: u32, d: Block)
      requires Valid() && Roomy(1) && IsTableBlk(b)
      modifies cache.Repr()
      ensures Valid() && cache.pins == old(cache.pins) && cache.view == old(cache.view)[Key(dev, b) := d]
    {
      hide BufferCache.Consistent, BufferCache.Fetched, BufferCache.Released;
      ghost var k, m := Key(dev, b), cache.pins;
      var p := cache.Bread(dev, b);
      cache.Modify(p, k, d);
      PlusMinus(m, k, p, true);
      cache.Brelse(p, k);
    }

    /** bread of a block of the data zone. */
    method ReadZone(b: u32) returns (p: int)
      requires Valid() && Roomy(1) && IsDataZone(b)
      modifies cache.Repr()
      ensures Valid() && cache.view == old(cache.view)
      ensures Key(dev, b) in old(cache.pins) ==> 0 < old(cache.pins)[Key(dev, b)].cnt < 255
      ensures cache.pins == Plus(old(cache.pins), Key(dev, b), p, true)
      ensures Key(dev, b) in old(cache.pins) ==>
              old(cache.pins)[Key(dev, b)].slot == p && old(cache.pins)[Key(dev, b)].valid
      ensures Holds(cache.pins, Key(dev, b), p)
    {
      hide BufferCache.Consistent, BufferCache.Fetched;
      p := cache.Bread(dev, b);
    }

    /** The data behind a pointer. */
    lemma ZoneData(p: int, b: u32)
      requires Valid() && Holds(cache.pins, Key(dev, b), p)
      ensures 0 <= p < cache.bh.Length && cache.bh[p].data == cache.view[Key(dev, b)]
    {
      hide BufferCache.Consistent;
      cache.Pointed(p, Key(dev, b));
    }

    /** brelse of a block of the data zone. */
    method ReleaseZone(p: int, b: u32)
      requires Valid() && IsDataZone(b) && Holds(cache.pins, Key(dev, b), p)
      modifies cache.Repr()
      ensures Valid() && cache.view == old(cache.view)
      ensures cache.pins == Minus(old(cache.pins), Key(dev, b))
    {
      hide BufferCache.Consistent, BufferCache.Released;
      cache.Brelse(p, Key(dev, b));
    }

    /** Bytes of a data-zone block change through its buffer, which becomes dirty. */
    method StoreZone(p: int, b: u32, data: Block)
      requires Valid() && IsDataZone(b) && Holds(cache.pins, Key(dev, b), p)
      modifies cache.bh, cache`view, cache`pins
      ensures Valid() && cache.pins == old(cache.pins)
      ensures cache.view == old(cache.view)[Key(dev, b) := data]
      ensures forall n: nat :: n < zmapBlocks * BITS_PER_BLK ==> ZoneBit(cache.view, n) == ZoneBit(old(cache.view), n)
    {
      hide BufferCache.Consistent;
      ghost var v := cache.view;
      cache.Modify(p, Key(dev, b), data);
      ZoneBitSame(v, cache.view);
    }
  }

  /** Mounting: both maps are read and stay pinned (fs/super.c:21-36). */
  method Mount(cache: BufferCache, dev: u16, nzones: u32, imapBlocks: u32, zmapBlocks: u32,
               firstDatazone: u32, pos: u32, ghost spare: nat) returns (sb: SuperBlock)
    requires dev != 0 && GoodLayout(nzones, imapBlocks, zmapBlocks, firstDatazone)
    requires pos < zmapBlocks * BITS_PER_BLK
    requires cache.Valid() && Room(cache.pins, cache.bh.Length, imapBlocks + zmapBlocks + spare)
    requires forall k: Key :: k in cache.pins ==> k.dev != dev
    modifies cache.Repr()
    ensures fresh(sb) && sb.Valid() && sb.cache == cache && sb.dev == dev && sb.nzones == nzones
    ensures sb.imapBlocks == imapBlocks && sb.zmapBlocks == zmapBlocks
    ensures sb.firstDatazone == firstDatazone && sb.pos == pos
    ensures cache.view == old(cache.view) && Room(cache.pins, cache.bh.Length, spare)
    ensures forall k: Key :: k.dev != dev || k.blk < 2 || k.blk >= 2 + imapBlocks + zmapBlocks ==>
              (k in cache.pins <==> k in old(cache.pins)) && (k in cache.pins ==> cache.pins[k] == old(cache.pins)[k])
  {
    hide BufferCache.Consistent, Room;
    var ibhs := ReadMap(cache, dev, 2, imapBlocks, zmapBlocks + spare);
    var zbhs := ReadMap(cache, dev, 2 + imapBlocks, zmapBlocks, spare);
    sb := new SuperBlock(cache, dev, nzones, imapBlocks, zmapBlocks, firstDatazone, pos, ibhs, zbhs);
  }
}
