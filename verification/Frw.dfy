/** Byte-level file access over the block map (fs/frw.c). */
module FileRw {
  import opened Bytes
  import opened Rings
  import opened BufferCaches
  import opened Bitmaps
  import opened BlockTrees
  import opened Inodes

  const O_APPEND := 0x400
  const MAX_FILE_BYTES := NR_FILE_BLKS * BLK_SIZE

  /** A file_st: open flags and position. */
  class File {
    var flags: u16
    var pos: nat

    constructor (flags: u16)
      ensures this.flags == flags && pos == 0
    {
      this.flags, pos := flags, 0;
    }

    predicate Append()
      reads this
    {
      flags / O_APPEND % 2 == 1
    }
  }

  // ---- copying, one block at a time ----

  /** The byte loops of file_rd (fs/frw.c:37-46): n bytes of d from off on, or
      zeros for a hole. */
  method CopyOut(buf: array<byte>, at: nat, hole: bool, d: Block, off: nat, n: nat)
    requires at + n <= buf.Length && off + n <= BLK_SIZE
    modifies buf
    ensures forall i :: 0 <= i < buf.Length ==>
              buf[i] == if at <= i < at + n then (if hole then 0 else d[off + i - at]) else old(buf[i])
  {
    var i := 0;
    while i < n
      invariant i <= n
      invariant forall j :: 0 <= j < buf.Length ==>
                  buf[j] == if at <= j < at + i then (if hole then 0 else d[off + j - at]) else old(buf[j])
    {
      buf[at + i] := if hole then 0 else d[off + i];
      i := i + 1;
    }
  }

  /** The byte loop of file_wr (fs/frw.c:91-92). */
  method CopyIn(d: Block, off: nat, buf: array<byte>, at: nat, n: nat) returns (r: Block)
    requires at + n <= buf.Length && off + n <= BLK_SIZE
    ensures forall i :: 0 <= i < BLK_SIZE ==> r[i] == if off <= i < off + n then buf[at + i - off] else d[i]
  {
    r := d;
    var i := 0;
    while i < n
      invariant i <= n
      invariant forall j :: 0 <= j < BLK_SIZE ==> r[j] == if off <= j < off + i then buf[at + j - off] else d[j]
    {
      r := r[off + i := buf[at + i]];
      i := i + 1;
    }
  }

  /** Bytes pos .. pos + n of file f, all inside one block, come from that block. */
  lemma ChunkBytes(vol: Vol, f: nat, pos: nat, n: nat, b: u32)
    requires vol.Wf() && f in vol.zones && pos / BLK_SIZE < NR_FILE_BLKS && pos % BLK_SIZE + n <= BLK_SIZE
    requires b == vol.Ptr(PlaceOf(f, pos / BLK_SIZE))
    ensures forall k: nat :: pos <= k < pos + n ==>
              ByteAt(vol, f, k) == if b == 0 then 0 else vol.Blk(b)[pos % BLK_SIZE + (k - pos)]
  {
    forall k: nat | pos <= k < pos + n
      ensures ByteAt(vol, f, k) == if b == 0 then 0 else vol.Blk(b)[pos % BLK_SIZE + (k - pos)]
    {
      assert k / BLK_SIZE == pos / BLK_SIZE && k % BLK_SIZE == pos % BLK_SIZE + (k - pos);
    }
  }

  /** buf holds, from at on, the n bytes of file f from pos on. */
  ghost predicate Delivered(vol: Vol, f: nat, pos: nat, s: seq<byte>, at: nat, n: nat)
    requires vol.Wf() && f in vol.zones && at + n <= |s|
  {
    forall k: nat :: pos <= k < pos + n ==> s[at + (k - pos)] == ByteAt(vol, f, k)
  }

  /** bread, copy, brelse (fs/frw.c:27-46): n bytes of block b, or of a hole. */
  method ReadInto(sb: SuperBlock, b: u32, off: nat, buf: array<byte>, at: nat, n: nat)
    requires sb.Valid() && sb.Roomy(1) && (b == 0 || sb.IsDataZone(b))
    requires off + n <= BLK_SIZE && at + n <= buf.Length
    modifies sb.cache.Repr(), buf
    ensures sb.Valid() && sb.cache.view == old(sb.cache.view) && sb.cache.pins == old(sb.cache.pins)
    ensures forall i :: 0 <= i < buf.Length ==>
              buf[i] == if at <= i < at + n then (if b == 0 then 0 else sb.cache.view[Key(sb.dev, b)][off + i - at])
                        else old(buf[i])
  {
    hide SuperBlock.Valid;
    if b == 0 {
      CopyOut(buf, at, true, ZERO_BLOCK, off, n);
      return;
    }
    ghost var pins := sb.cache.pins;
    var p := sb.ReadZone(b);
    sb.ZoneData(p, b);
    CopyOut(buf, at, false, sb.cache.bh[p].data, off, n);
    PlusMinus(pins, Key(sb.dev, b), p, true);
    sb.ReleaseZone(p, b);
  }

  /** One round of file_rd: n bytes from position pos, inside one block. */
  method ReadChunk(vol: Volume, m: MemInode, pos: nat, buf: array<byte>, at: nat, n: nat)
    requires vol.Valid() && vol.Loaded(m) && vol.sb.Roomy(2)
    requires pos / BLK_SIZE < NR_FILE_BLKS && pos % BLK_SIZE + n <= BLK_SIZE && at + n <= buf.Length
    modifies vol.sb.cache.Repr(), vol.sb`pos, m`zone, m`dirt, vol`zones, vol`own, buf
    ensures vol.Valid() && vol.Loaded(m) && vol.Now() == old(vol.Now()) && vol.sb.cache.pins == old(vol.sb.cache.pins)
    ensures m.zone == old(m.zone) && m.dirt == old(m.dirt)
    ensures Delivered(old(vol.Now()), m.num, pos, buf[..], at, n)
    ensures forall i: nat :: i < buf.Length && !(at <= i < at + n) ==> buf[i] == old(buf[i])
    ensures m.zone == old(m.zone) && m.dirt == old(m.dirt)
  {
    hide SuperBlock.Valid, Forest, Mapped, Marked, SuperBlock.ZoneBit, ByteAt;
    ghost var now := vol.Now();
    var b := vol.Bmap(m, pos / BLK_SIZE);
    ChunkBytes(now, m.num, pos, n, b);
    Owned(now, vol.own, vol.sb.firstDatazone, vol.sb.nzones, PlaceOf(m.num, pos / BLK_SIZE));
    ReadInto(vol.sb, b, pos % BLK_SIZE, buf, at, n);
  }

  /** fs/frw.c:18. All bytes asked for are delivered; the position moves past them. */
  method FileRd(vol: Volume, m: MemInode, file: File, buf: array<byte>, count: int) returns (n: int)
    requires vol.Valid() && vol.Loaded(m) && vol.sb.Roomy(2)
    requires count <= buf.Length && file.pos + count <= MAX_FILE_BYTES
    modifies vol.sb.cache.Repr(), vol.sb`pos, m`zone, m`dirt, vol`zones, vol`own, buf, file`pos
    ensures vol.Valid() && vol.Loaded(m) && vol.Now() == old(vol.Now()) && vol.sb.cache.pins == old(vol.sb.cache.pins)
    ensures n == (if count <= 0 then 0 else count) && file.pos == old(file.pos) + n
    ensures Delivered(old(vol.Now()), m.num, old(file.pos), buf[..], 0, n)
    ensures forall i: nat :: i < buf.Length ==>
              buf[i] == if i < n then ByteAt(old(vol.Now()), m.num, old(file.pos) + i) else old(buf[i])
    ensures m.zone == old(m.zone) && m.dirt == old(m.dirt)
  {
    hide SuperBlock.Valid, Forest, Marked, ByteAt;
    if count <= 0 {
      return 0;
    }
    var left := count;
    ghost var now, pos := vol.Now(), file.pos;
    while left > 0
      invariant 0 <= left <= count && file.pos == pos + (count - left)
      invariant vol.Valid() && vol.Loaded(m) && vol.Now() == now && vol.sb.cache.pins == old(vol.sb.cache.pins)
      invariant m.zone == old(m.zone) && m.dirt == old(m.dirt)
      invariant Delivered(now, m.num, pos, buf[..], 0, count - left)
      invariant forall i :: count - left <= i < buf.Length ==> buf[i] == old(buf[i])
    {
      var off := file.pos % BLK_SIZE;
      var chars := BLK_SIZE - off;
      if chars > left {
        chars := left;
      }
      ghost var s := buf[..];
      ReadChunk(vol, m, file.pos, buf, count - left, chars);
      DeliveredMore(now, m.num, pos, s, buf[..], count - left, chars);
      file.pos := file.pos + chars;
      left := left - chars;
    }
    DeliveredBytes(now, m.num, pos, buf[..], count);
    return count - left;
  }

  lemma DeliveredBytes(vol: Vol, f: nat, pos: nat, s: seq<byte>, n: nat)
    requires vol.Wf() && f in vol.zones && n <= |s| && Delivered(vol, f, pos, s, 0, n)
    ensures forall i: nat :: i < n ==> s[i] == ByteAt(vol, f, pos + i)
  {
    hide ByteAt;
    forall i: nat | i < n ensures s[i] == ByteAt(vol, f, pos + i) {
      assert s[0 + (pos + i - pos)] == ByteAt(vol, f, pos + i);
    }
  }

  lemma DeliveredMore(vol: Vol, f: nat, pos: nat, s: seq<byte>, s': seq<byte>, n: nat, more: nat)
    requires vol.Wf() && f in vol.zones && |s'| == |s| && n + more <= |s|
    requires Delivered(vol, f, pos, s, 0, n) && Delivered(vol, f, pos + n, s', n, more)
    requires forall i: nat :: i < |s| && !(n <= i < n + more) ==> s'[i] == s[i]
    ensures Delivered(vol, f, pos, s', 0, n + more)
  {
  }

  // ---- writing ----

  /** From vol to vol' file f got n bytes of s at position pos; all else is as it was. */
  ghost predicate Patched(vol: Vol, vol': Vol, f: nat, pos: nat, s: seq<byte>, at: nat, n: nat)
    requires vol.Wf() && vol'.Wf() && f in vol.zones && at + n <= |s|
  {
    vol'.zones.Keys == vol.zones.Keys &&
    forall g: nat, k: nat :: g in vol.zones ==>
      ByteAt(vol', g, k) == if g == f && pos <= k < pos + n then s[at + (k - pos)] else ByteAt(vol, g, k)
  }

  /** bread, copy, bh_dirt, brelse (fs/frw.c:72-94). */
  method StoreInto(sb: SuperBlock, b: u32, off: nat, buf: array<byte>, at: nat, n: nat) returns (ghost d: Block)
    requires sb.Valid() && sb.Roomy(1) && sb.IsDataZone(b)
    requires off + n <= BLK_SIZE && at + n <= buf.Length
    modifies sb.cache.Repr()
    ensures sb.Valid() && sb.cache.pins == old(sb.cache.pins)
    ensures sb.cache.view == old(sb.cache.view)[Key(sb.dev, b) := d]
    ensures forall i :: 0 <= i < BLK_SIZE ==>
              d[i] == if off <= i < off + n then buf[at + i - off] else old(sb.cache.view)[Key(sb.dev, b)][i]
    ensures forall z: nat :: z < sb.zmapBlocks * BITS_PER_BLK ==>
            sb.ZoneBit(sb.cache.view, z) == sb.ZoneBit(old(sb.cache.view), z)
    ensures buf[..] == old(buf[..])
  {
    hide SuperBlock.Valid;
    ghost var pins := sb.cache.pins;
    var p := sb.ReadZone(b);
    sb.ZoneData(p, b);
    var r := CopyIn(sb.cache.bh[p].data, off, buf, at, n);
    sb.StoreZone(p, b, r);
    PlusMinus(pins, Key(sb.dev, b), p, true);
    sb.ReleaseZone(p, b);
    d := r;
  }

  /** Block blk of the file is there: its bytes are changed. */
  method WriteMapped(vol: Volume, ghost f: nat, ghost blk: nat, b: u32, off: nat, buf: array<byte>, at: nat, n: nat)
    requires vol.Valid() && f in vol.zones && vol.sb.Roomy(1) && blk < NR_FILE_BLKS
    requires b == vol.Now().Ptr(PlaceOf(f, blk)) != 0
    requires off + n <= BLK_SIZE && at + n <= buf.Length
    modifies vol.sb.cache.Repr()
    ensures vol.Valid() && vol.sb.cache.pins == old(vol.sb.cache.pins)
    ensures Patched(old(vol.Now()), vol.Now(), f, Pos(blk, off), buf[..], at, n)
    ensures OthersSame(old(vol.Now()), vol.Now(), f) && BlocksStay(old(vol.Now()), vol.Now())
    ensures forall k: Key :: vol.sb.IsMeta(k) ==> vol.sb.cache.view[k] == old(vol.sb.cache.view)[k]
    ensures buf[..] == old(buf[..])
  {
    hide SuperBlock.Valid, Forest, SuperBlock.ZoneBit, ByteAt;
    ghost var now := vol.Now();
    Owned(now, vol.own, vol.sb.firstDatazone, vol.sb.nzones, PlaceOf(f, blk));
    ghost var d := StoreInto(vol.sb, b, off, buf, at, n);
    StoreBytes(now, vol.own, vol.sb.firstDatazone, vol.sb.nzones, f, blk, d);
    ChunkStored(now, vol.Now(), f, blk, off, buf[..], at, n, b, d);
  }

  /** One round of file_wr: n bytes into block blk of the file, from offset off on. */
  method WriteChunk(vol: Volume, m: MemInode, blk: nat, off: nat, buf: array<byte>, at: nat, n: nat) returns (ok: bool)
    requires vol.Valid() && vol.Loaded(m) && vol.sb.Roomy(2)
    requires blk < NR_FILE_BLKS && off + n <= BLK_SIZE && at + n <= buf.Length
    modifies vol.sb.cache.Repr(), vol.sb`pos, m`zone, m`dirt, vol`zones, vol`own
    ensures vol.Valid() && vol.Loaded(m) && vol.sb.cache.pins == old(vol.sb.cache.pins)
    ensures vol.zones == old(vol.zones)[m.num := m.zone] && m.dirt == (old(m.dirt) || m.zone != old(m.zone))
    ensures Patched(old(vol.Now()), vol.Now(), m.num, Pos(blk, off), buf[..], at, if ok then n else 0)
    ensures !ok ==> vol.Full() && old(vol.Now()).Ptr(PlaceOf(m.num, blk)) == 0
    ensures OthersSame(old(vol.Now()), vol.Now(), m.num) && BlocksStay(old(vol.Now()), vol.Now())
    ensures forall k: Key :: vol.sb.IsMeta(k) ==> vol.sb.cache.view[k] == old(vol.sb.cache.view)[k]
    ensures buf[..] == old(buf[..])
  {
    hide SuperBlock.Valid, Forest, SuperBlock.ZoneBit, SuperBlock.Exhausted, Mapped, ByteAt, Marked, Patched,
         OthersSame;
    ghost var now, s, p := vol.Now(), buf[..], PlaceOf(m.num, blk);
    var b, created := vol.CreateBlock(m, blk);
    ghost var now1 := vol.Now();
    MappedOthers(now, now1, p);
    MappedStay(now, now1, p);
    OthersSelf(now1, m.num);
    ok := b != 0;
    if ok {
      WriteMapped(vol, m.num, blk, b, off, buf, at, n);
    } else {
      StoredNone(now1, m.num, Pos(blk, off), s, at);
    }
    BlocksStayTwice(now, now1, vol.Now());
    OthersSameTwice(now, now1, vol.Now(), m.num);
    MappedThenStored(now, now1, vol.Now(), p, Pos(blk, off), s, at, if ok then n else 0);
  }

  lemma StoredNone(vol: Vol, f: nat, pos: nat, s: seq<byte>, at: nat)
    requires vol.Wf() && f in vol.zones && at <= |s|
    ensures Patched(vol, vol, f, pos, s, at, 0)
  {
  }

  lemma MappedThenStored(vol: Vol, vol1: Vol, vol2: Vol, p: Place, pos: nat, s: seq<byte>, at: nat, n: nat)
    requires Mapped(vol, vol1, p) && vol2.Wf() && at + n <= |s| && Patched(vol1, vol2, p.f, pos, s, at, n)
    ensures Patched(vol, vol2, p.f, pos, s, at, n)
  {
    forall g: nat, k: nat | g in vol.zones ensures ByteAt(vol1, g, k) == ByteAt(vol, g, k) {}
  }

  /** Which bytes of the file are the n bytes of block blk from off on. */
  lemma InChunk(blk: nat, off: nat, n: nat, k: nat)
    requires off + n <= BLK_SIZE
    ensures Pos(blk, off) <= k < Pos(blk, off) + n <==> k / BLK_SIZE == blk && off <= k % BLK_SIZE < off + n
    ensures k / BLK_SIZE == blk ==> k - Pos(blk, off) == k % BLK_SIZE - off
  {
  }

  lemma ChunkStored(vol: Vol, vol2: Vol, f: nat, blk: nat, off: nat, s: seq<byte>, at: nat, n: nat, b: u32, d: Block)
    requires vol.Wf() && vol2.Wf() && vol2.zones.Keys == vol.zones.Keys
    requires f in vol.zones && at + n <= |s| && off + n <= BLK_SIZE && blk < NR_FILE_BLKS
    requires b == vol.Ptr(PlaceOf(f, blk)) != 0
    requires forall i :: 0 <= i < BLK_SIZE ==> d[i] == if off <= i < off + n then s[at + i - off] else vol.Blk(b)[i]
    requires forall g: nat, k: nat :: g in vol.zones ==>
               ByteAt(vol2, g, k) == if g == f && k / BLK_SIZE == blk then d[k % BLK_SIZE] else ByteAt(vol, g, k)
    ensures Patched(vol, vol2, f, Pos(blk, off), s, at, n)
  {
    var pos := Pos(blk, off);
    forall g: nat, k: nat | g in vol.zones
      ensures ByteAt(vol2, g, k) == if g == f && pos <= k < pos + n then s[at + (k - pos)] else ByteAt(vol, g, k)
    {
      if g == f {
        InChunk(blk, off, n, k);
      }
    }
  }

  // ---- where the bytes of one write go ----

  /** The file position byte i of a write is stored at: the block comes from the
      file position fpos, the offset in it from pos (fs/frw.c:70-78). */
  function Target(fpos: nat, pos: nat, i: nat): (t: nat) {
    var first := BLK_SIZE - pos % BLK_SIZE;
    if i < first then Pos(fpos / BLK_SIZE, pos % BLK_SIZE + i)
    else Pos((fpos + first + (i - first) / BLK_SIZE * BLK_SIZE) / BLK_SIZE, (i - first) % BLK_SIZE)
  }

  /** The last of the first n bytes that is stored at position k, or -1. */
  function LastTo(fpos: nat, pos: nat, n: nat, k: nat): (i: int)
    ensures -1 <= i < n
  {
    if n == 0 then -1
    else if Target(fpos, pos, n - 1) == k then n - 1
    else LastTo(fpos, pos, n - 1, k)
  }

  /** A byte keeps its offset within a block; its block is that of the file position which the rounds
      before have reached. */
  lemma TargetPlace(fpos: nat, pos: nat, i: nat)
    ensures Target(fpos, pos, i) % 0x1000 == (pos + i) % 0x1000
    ensures var started := if (pos + i) % 0x1000 <= i then i - (pos + i) % 0x1000 else 0;
            Target(fpos, pos, i) / 0x1000 == (fpos + started) / 0x1000
  {
    var first := BLK_SIZE - pos % BLK_SIZE;
    if i >= first {
      assert (pos + i) % BLK_SIZE == (i - first) % BLK_SIZE;
      assert i - (i - first) % BLK_SIZE == first + (i - first) / BLK_SIZE * BLK_SIZE;
    } else {
      assert (pos + i) % BLK_SIZE == pos % BLK_SIZE + i;
    }
  }

  lemma {:induction false} LastToIs(fpos: nat, pos: nat, n: nat, k: nat)
    ensures var i := LastTo(fpos, pos, n, k);
            && (i >= 0 ==> Target(fpos, pos, i) == k)
            && forall j: nat :: i < j < n ==> Target(fpos, pos, j) != k
  {
    if n > 0 && Target(fpos, pos, n - 1) != k {
      LastToIs(fpos, pos, n - 1, k);
    }
  }

  /** File f after the first n bytes of s went to their targets, in order; every
      other byte of every file is as before. */
  ghost predicate Overwritten(vol: Vol, vol': Vol, f: nat, fpos: nat, pos: nat, s: seq<byte>, n: nat)
    requires vol.Wf() && vol'.Wf() && f in vol.zones && n <= |s|
  {
    vol'.zones.Keys == vol.zones.Keys &&
    forall g: nat, k: nat :: g in vol.zones ==>
      ByteAt(vol', g, k) == (var i := LastTo(fpos, pos, n, k); if g == f && i >= 0 then s[i] else ByteAt(vol, g, k))
  }

  /** How many of left bytes a round moves from position pos on. */
  function Chunk(pos: nat, left: nat): (n: nat)
    ensures n <= left && (left > 0 ==> n > 0)
  {
    if BLK_SIZE - pos % BLK_SIZE > left then left else BLK_SIZE - pos % BLK_SIZE
  }

  /** A write from pos has stored n bytes in whole rounds. */
  predicate BetweenRounds(pos: nat, n: nat) {
    n == 0 || (n >= BLK_SIZE - pos % BLK_SIZE && (pos + n) % BLK_SIZE == 0)
  }

  lemma FirstRound(pos: nat)
    ensures BetweenRounds(pos, 0)
  {
  }

  lemma RoundDone(pos: nat, n: nat, left: nat)
    requires BetweenRounds(pos, n)
    ensures var c := Chunk(pos + n, left); c == left || BetweenRounds(pos, n + c)
    ensures (pos + n) % BLK_SIZE + Chunk(pos + n, left) <= BLK_SIZE
  {
    var c := Chunk(pos + n, left);
    if c != left {
      assert (pos + n) % BLK_SIZE + c == BLK_SIZE;
      assert (pos + n + c) % BLK_SIZE == 0;
    }
  }

  /** A round of the loop covers consecutive targets. */
  lemma RoundTargets(fpos: nat, pos: nat, n: nat, j: nat)
    requires BetweenRounds(pos, n) && (pos + n) % BLK_SIZE + j < BLK_SIZE
    ensures Target(fpos, pos, n + j) == Pos((fpos + n) / BLK_SIZE, (pos + n) % BLK_SIZE) + j
  {
    var first := BLK_SIZE - pos % BLK_SIZE;
    if n >= first {
      assert (n - first) % BLK_SIZE == 0;
      assert (n + j - first) / BLK_SIZE == (n - first) / BLK_SIZE && (n + j - first) % BLK_SIZE == j;
    }
  }

  lemma {:induction false} LastToRound(fpos: nat, pos: nat, n: nat, more: nat, k: nat)
    requires BetweenRounds(pos, n) && (pos + n) % BLK_SIZE + more <= BLK_SIZE
    ensures var t := Pos((fpos + n) / BLK_SIZE, (pos + n) % BLK_SIZE);
            LastTo(fpos, pos, n + more, k) == if t <= k < t + more then n + (k - t) else LastTo(fpos, pos, n, k)
  {
    if more > 0 {
      LastToRound(fpos, pos, n, more - 1, k);
      RoundTargets(fpos, pos, n, more - 1);
    }
  }

  /** Bytes land in order at pos exactly when the two positions name the same block
      and either the write stays inside it or fpos is not behind pos. */
  predicate InStep(fpos: nat, pos: nat, n: nat) {
    fpos / BLK_SIZE == pos / BLK_SIZE && (n <= BLK_SIZE - pos % BLK_SIZE || fpos >= pos)
  }

  lemma InStepIff(fpos: nat, pos: nat, n: nat)
    requires n > 0
    ensures (forall i: nat :: i < n ==> Target(fpos, pos, i) == pos + i) <==> InStep(fpos, pos, n)
  {
    var first := BLK_SIZE - pos % BLK_SIZE;
    assert Target(fpos, pos, 0) == Pos(fpos / BLK_SIZE, pos % BLK_SIZE);
    if n > first {
      assert Target(fpos, pos, first) == Pos((fpos + first) / BLK_SIZE, 0);
    }
    forall i: nat | i < n && InStep(fpos, pos, n) ensures Target(fpos, pos, i) == pos + i {
      if i >= first {
        TargetAhead(fpos, pos, i);
      }
    }
  }

  lemma TargetAhead(fpos: nat, pos: nat, i: nat)
    requires fpos / BLK_SIZE == pos / BLK_SIZE && fpos >= pos && i >= BLK_SIZE - pos % BLK_SIZE
    ensures Target(fpos, pos, i) == pos + i
  {
    var first := BLK_SIZE - pos % BLK_SIZE;
    var q := (i - first) / BLK_SIZE;
    assert (fpos + first) / BLK_SIZE == pos / BLK_SIZE + 1;
    assert (fpos + first + q * BLK_SIZE) / BLK_SIZE == pos / BLK_SIZE + 1 + q;
  }

  /** In step, the write is the byte array update one expects. */
  lemma {:induction false} InStepLast(fpos: nat, pos: nat, n: nat, m: nat, k: nat)
    requires InStep(fpos, pos, n) && m <= n
    ensures LastTo(fpos, pos, m, k) == if pos <= k < pos + m then k - pos else -1
  {
    if m > 0 {
      InStepLast(fpos, pos, n, m - 1, k);
      InStepIff(fpos, pos, n);
    }
  }

  /** The size and position updates of one round (fs/frw.c:83-90). */
  method Advance(m: MemInode, file: File, pos: nat, chars: nat)
    requires pos < TWO_32
    modifies m`size, m`dirt, file`pos
    ensures m.size == if pos > old(m.size) then pos else old(m.size)
    ensures m.dirt == (old(m.dirt) || pos > old(m.size))
    ensures file.pos == old(file.pos) + chars
  {
    if pos > m.size {
      m.size := pos;
      m.dirt := true;
    }
    file.pos := file.pos + chars;
  }

  /** One round of the loop (fs/frw.c:70-94). */
  method WriteRound(vol: Volume, m: MemInode, file: File, buf: array<byte>, at: nat, pos: nat, cnt: nat)
    returns (ok: bool, chars: nat)
    requires vol.Valid() && vol.Loaded(m) && vol.sb.Roomy(2)
    requires at < cnt <= buf.Length && file.pos + (cnt - at) <= MAX_FILE_BYTES && pos + (cnt - at) < TWO_32
    modifies vol.sb.cache.Repr(), vol.sb`pos, m`zone, m`dirt, m`size, vol`zones, vol`own, file`pos
    ensures vol.Valid() && vol.Loaded(m) && vol.sb.cache.pins == old(vol.sb.cache.pins)
    ensures vol.zones == old(vol.zones)[m.num := m.zone]
    ensures !ok ==> vol.Full() && Missing(old(vol.Now()), m.num, old(file.pos))
    ensures BlocksStay(old(vol.Now()), vol.Now())
    ensures chars == Chunk(pos, cnt - at)
    ensures Patched(old(vol.Now()), vol.Now(), m.num, Pos(old(file.pos) / BLK_SIZE, pos % BLK_SIZE),
                   buf[..], at, if ok then chars else 0)
    ensures m.size == if ok && pos + chars > old(m.size) then pos + chars else old(m.size)
    ensures file.pos == old(file.pos) + if ok then chars else 0
    ensures old(m.dirt) || m.zone != old(m.zone) || m.size != old(m.size) ==> m.dirt
    ensures OthersSame(old(vol.Now()), vol.Now(), m.num)
    ensures forall k: Key :: vol.sb.IsMeta(k) ==> vol.sb.cache.view[k] == old(vol.sb.cache.view)[k]
    ensures buf[..] == old(buf[..])
  {
    hide SuperBlock.Valid, Forest, SuperBlock.ZoneBit, SuperBlock.Exhausted, ByteAt, Marked, Patched, Pos, OthersSame,
         BlocksStay, Volume.Full;
    var off := pos % BLK_SIZE;
    chars := BLK_SIZE - off;
    if chars > cnt - at {
      chars := cnt - at;
    }
    ok := WriteChunk(vol, m, file.pos / BLK_SIZE, off, buf, at, chars);
    if ok {
      Advance(m, file, pos + chars, chars);
    }
  }

  /** The loop of file_wr (fs/frw.c:69-96), from position pos0 on. */
  method WriteLoop(vol: Volume, m: MemInode, file: File, buf: array<byte>, pos0: nat, cnt: nat) returns (written: nat)
    requires vol.Valid() && vol.Loaded(m) && vol.sb.Roomy(2)
    requires cnt <= buf.Length && file.pos + cnt <= MAX_FILE_BYTES && pos0 + cnt < TWO_32
    modifies vol.sb.cache.Repr(), vol.sb`pos, m`zone, m`dirt, m`size, vol`zones, vol`own, file`pos
    ensures vol.Valid() && vol.Loaded(m) && vol.sb.cache.pins == old(vol.sb.cache.pins)
    ensures vol.zones == old(vol.zones)[m.num := m.zone]
    ensures written <= cnt
    ensures written < cnt ==> vol.Full() && Missing(old(vol.Now()), m.num, old(file.pos) + written)
    ensures BlocksStay(old(vol.Now()), vol.Now())
    ensures Overwritten(old(vol.Now()), vol.Now(), m.num, old(file.pos), pos0, buf[..], written)
    ensures m.size == if pos0 + written > old(m.size) && written > 0 then pos0 + written else old(m.size)
    ensures file.pos == old(file.pos) + written
    ensures old(m.dirt) || m.zone != old(m.zone) || m.size != old(m.size) ==> m.dirt
    ensures OthersSame(old(vol.Now()), vol.Now(), m.num)
    ensures forall k: Key :: vol.sb.IsMeta(k) ==> vol.sb.cache.view[k] == old(vol.sb.cache.view)[k]
    ensures buf[..] == old(buf[..])
  {
    hide SuperBlock.Valid, Volume.Rooted, Volume.Full, ByteAt, Patched, Overwritten, LastTo, Pos, Chunk,
         BetweenRounds, OthersSame, BlocksStay, Missing;
    written := 0;
    ghost var now, s, fpos, size := vol.Now(), buf[..], file.pos, m.size;
    OverwrittenNone(now, m.num, fpos, pos0, s);
    OthersSelf(now, m.num);
    BlocksSelf(now);
    FirstRound(pos0);
    while written < cnt
      invariant 0 <= written <= cnt && file.pos == fpos + written
      invariant written == cnt || BetweenRounds(pos0, written)
      invariant vol.Valid() && vol.Loaded(m) && vol.sb.cache.pins == old(vol.sb.cache.pins)
      invariant vol.zones == old(vol.zones)[m.num := m.zone]
      invariant Overwritten(now, vol.Now(), m.num, fpos, pos0, s, written)
      invariant m.size == if pos0 + written > size && written > 0 then pos0 + written else size
      invariant old(m.dirt) || m.zone != old(m.zone) || m.size != size ==> m.dirt
      invariant OthersSame(now, vol.Now(), m.num) && BlocksStay(now, vol.Now())
      invariant forall k: Key :: vol.sb.IsMeta(k) ==> vol.sb.cache.view[k] == old(vol.sb.cache.view)[k]
      invariant buf[..] == s
    {
      ghost var vol1 := vol.Now();
      RoundDone(pos0, written, cnt - written);
      var ok, chars := WriteRound(vol, m, file, buf, written, pos0 + written, cnt);
      OthersSameTwice(now, vol1, vol.Now(), m.num);
      BlocksStayTwice(now, vol1, vol.Now());
      OverwrittenMore(now, vol1, vol.Now(), m.num, fpos, pos0, s, written, if ok then chars else 0);
      if !ok {
        StillMissing(now, vol1, m.num, fpos + written);
        break;
      }
      written := written + chars;
    }
  }

  /** fs/frw.c:52. Short only when the allocator finds no more zones. */
  method FileWr(vol: Volume, m: MemInode, file: File, buf: array<byte>, cnt: int) returns (written: nat)
    requires vol.Valid() && vol.Loaded(m) && vol.sb.Roomy(2)
    requires cnt <= buf.Length && file.pos + cnt <= MAX_FILE_BYTES
    requires (if file.Append() then m.size else file.pos) + cnt < TWO_32
    modifies vol.sb.cache.Repr(), vol.sb`pos, m`zone, m`dirt, m`size, vol`zones, vol`own, file`pos
    ensures vol.Valid() && vol.Loaded(m) && vol.sb.cache.pins == old(vol.sb.cache.pins)
    ensures vol.zones == old(vol.zones)[m.num := m.zone]
    ensures written <= buf.Length && (cnt <= 0 ==> written == 0) && (cnt > 0 ==> written <= cnt)
    ensures written < cnt ==>
              vol.Full() && old(vol.Now()).Ptr(PlaceOf(m.num, (old(file.pos) + written) / BLK_SIZE)) == 0
    ensures BlocksStay(old(vol.Now()), vol.Now())
    ensures var pos := if old(file.Append()) then old(m.size) else old(file.pos);
            && Overwritten(old(vol.Now()), vol.Now(), m.num, old(file.pos), pos, buf[..], written)
            && m.size == if pos + written > old(m.size) && written > 0 then pos + written else old(m.size)
    ensures !old(file.Append()) ==> forall f: nat, k: nat :: f in old(vol.zones) ==>
              ByteAt(vol.Now(), f, k) == if f == m.num && old(file.pos) <= k < old(file.pos) + written
                                         then buf[k - old(file.pos)] else ByteAt(old(vol.Now()), f, k)
    ensures file.pos == old(file.pos) + written
    ensures old(m.dirt) || m.zone != old(m.zone) || m.size != old(m.size) ==> m.dirt
    ensures OthersSame(old(vol.Now()), vol.Now(), m.num)
    ensures forall k: Key :: vol.sb.IsMeta(k) ==> vol.sb.cache.view[k] == old(vol.sb.cache.view)[k]
    ensures buf[..] == old(buf[..])
  {
    hide SuperBlock.Valid, Volume.Rooted, Volume.Full, ByteAt, Overwritten, LastTo, OthersSame, BlocksStay, PlaceOf;
    ghost var now, fpos := vol.Now(), file.pos;
    var pos := if file.Append() then m.size else file.pos;
    OverwrittenNone(vol.Now(), m.num, file.pos, pos, buf[..]);
    OthersSelf(vol.Now(), m.num);
    BlocksSelf(vol.Now());
    if cnt <= 0 {
      return 0;
    }
    written := WriteLoop(vol, m, file, buf, pos, cnt);
    if !file.Append() {
      PlainWrite(now, vol.Now(), m.num, fpos, pos, buf[..], written);
      file.pos := pos + written;
    }
  }

  lemma OverwrittenNone(vol: Vol, f: nat, fpos: nat, pos: nat, s: seq<byte>)
    requires vol.Wf() && f in vol.zones
    ensures Overwritten(vol, vol, f, fpos, pos, s, 0)
  {
  }

  lemma OverwrittenMore(vol: Vol, vol1: Vol, vol2: Vol, f: nat, fpos: nat, pos: nat, s: seq<byte>, n: nat, more: nat)
    requires vol.Wf() && vol1.Wf() && vol2.Wf() && f in vol.zones && n + more <= |s|
    requires BetweenRounds(pos, n) && (pos + n) % BLK_SIZE + more <= BLK_SIZE
    requires Overwritten(vol, vol1, f, fpos, pos, s, n)
    requires Patched(vol1, vol2, f, Pos((fpos + n) / BLK_SIZE, (pos + n) % BLK_SIZE), s, n, more)
    ensures Overwritten(vol, vol2, f, fpos, pos, s, n + more)
  {
    forall g: nat, k: nat | g in vol.zones
      ensures ByteAt(vol2, g, k) == (var i := LastTo(fpos, pos, n + more, k);
                                     if g == f && i >= 0 then s[i] else ByteAt(vol, g, k))
    {
      LastToRound(fpos, pos, n, more, k);
      assert ByteAt(vol1, g, k) == var i := LastTo(fpos, pos, n, k);
             if g == f && i >= 0 then s[i] else ByteAt(vol, g, k);
    }
  }

  /** A write in step is a plain byte-array update: exactly the n bytes from pos
      on change, in this and every other file. */
  lemma PlainWrite(vol: Vol, vol': Vol, f: nat, fpos: nat, pos: nat, s: seq<byte>, n: nat)
    requires vol.Wf() && vol'.Wf() && f in vol.zones && n <= |s|
    requires Overwritten(vol, vol', f, fpos, pos, s, n) && InStep(fpos, pos, n)
    ensures Patched(vol, vol', f, pos, s, 0, n)
  {
    forall g: nat, k: nat | g in vol.zones
      ensures ByteAt(vol', g, k) == if g == f && pos <= k < pos + n then s[k - pos] else ByteAt(vol, g, k)
    {
      InStepLast(fpos, pos, n, n, k);
    }
  }

  /** Without O_APPEND the two positions are one, so every write is in step; and
      what file_rd then delivers from there is what file_wr was given. */
  lemma WriteReadBack(vol: Vol, vol': Vol, f: nat, pos: nat, s: seq<byte>, n: nat, t: seq<byte>)
    requires vol.Wf() && vol'.Wf() && f in vol.zones && n <= |s| && n <= |t|
    requires Overwritten(vol, vol', f, pos, pos, s, n) && f in vol'.zones && Delivered(vol', f, pos, t, 0, n)
    ensures t[..n] == s[..n] && Patched(vol, vol', f, pos, s, 0, n)
  {
    PlainWrite(vol, vol', f, pos, pos, s, n);
    hide ByteAt, Overwritten;
    forall i | 0 <= i < n ensures t[i] == s[i] {
      assert t[0 + (pos + i - pos)] == ByteAt(vol', f, pos + i);
    }
  }

  /** O_APPEND on a freshly opened file of 5000 bytes: the first byte lands at 904. */
  lemma AppendMisplaces()
    ensures !InStep(0, 5000, 1) && Target(0, 5000, 0) == 904
  {
    assert 5000 % BLK_SIZE == 904;
  }
}
