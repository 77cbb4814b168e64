/** Formatting and mounting the root file system (fs/super.c): the state every run of
    the storage stack starts from. */
module RootFs {
  import opened Bytes
  import opened BufferCaches
  import opened Bitmaps
  import opened BlockTrees
  import opened Inodes
  import opened Directories
  import opened InodeTable
  import opened Namespaces

  const NR_ZONES: u32 := 0xFA00
  const NR_INODES: u32 := 0x4_0000
  const CASEY_MAGIC: u32 := 0x0520_1314
  const SIZEOF_DEV_INODE := 64
  const DOT: byte := 0x2E

  /** A DEV_SUPER_BLOCK. */
  datatype DevSuper = DevSuper(ninodes: u32, nzones: u32, imapBlocks: u32, zmapBlocks: u32, firstDatazone: u32,
                               logZoneSize: u32, maxSize: u32, magic: u32, pos: u32)
  {
    function Words(): (ws: seq<u32>)
      ensures |ws| == 9
    {
      [ninodes, nzones, imapBlocks, zmapBlocks, firstDatazone, logZoneSize, maxSize, magic, pos]
    }
  }

  function SuperIn(b: Block): DevSuper {
    DevSuper(Word(b, 0), Word(b, 1), Word(b, 2), Word(b, 3), Word(b, 4), Word(b, 5), Word(b, 6), Word(b, 7), Word(b, 8))
  }

  lemma SuperReadBack(s: DevSuper)
    ensures SuperIn(PutWords(ZERO_BLOCK, 0, s.Words())) == s
  {
    var b := PutWords(ZERO_BLOCK, 0, s.Words());
    forall k: nat | k < 9 ensures Word(b, k) == s.Words()[k] {
      PutWordsReadBack(ZERO_BLOCK, 0, s.Words(), k);
    }
  }

  /** The geometry format_rootfs sets up (fs/super.c:148-158). */
  const FORMATTED := DevSuper(NR_INODES, NR_ZONES, NR_IMAP_BLKS, NR_ZMAP_BLKS,
                              2 + NR_IMAP_BLKS + NR_ZMAP_BLKS + NR_INODES * SIZEOF_DEV_INODE / BLK_SIZE,
                              0, NR_ZMAP_BLKS * BITS_PER_BLK * BLK_SIZE, CASEY_MAGIC, 0)

  /** It covers the volume with its bitmaps, and its inode table has a record for each
      of its inodes: the layout the rest relies on. */
  lemma FormattedLayout()
    ensures GoodLayout(FORMATTED.nzones, FORMATTED.imapBlocks, FORMATTED.zmapBlocks, FORMATTED.firstDatazone)
    ensures FORMATTED.firstDatazone == 4114 && FORMATTED.maxSize == 0x4000_0000
    ensures FORMATTED.imapBlocks * BITS_PER_BLK == FORMATTED.ninodes
         == INODES_PER_BLK * (FORMATTED.firstDatazone - 2 - FORMATTED.imapBlocks - FORMATTED.zmapBlocks)
  {
  }

  /** Word for word, what a formatted disk has in block 1; a disk is taken for one by word 7 alone. */
  lemma FormattedWords(b: Block)
    requires SuperIn(b) == FORMATTED
    ensures Word(b, 0) == 0x4_0000 && Word(b, 1) == 0xFA00 && Word(b, 2) == 8 && Word(b, 3) == 8 && Word(b, 4) == 4114
    ensures Word(b, 5) == 0 && Word(b, 6) == 0x4000_0000 && Word(b, 7) == 0x0520_1314 && Word(b, 8) == 0
  {
    FormattedLayout();
  }

  /** Which words the mount code reads. */
  lemma SuperWords(b: Block)
    ensures var s := SuperIn(b);
            && s.nzones == Word(b, 1) && s.imapBlocks == Word(b, 2) && s.zmapBlocks == Word(b, 3)
            && s.firstDatazone == Word(b, 4) && s.magic == Word(b, 7) && s.pos == Word(b, 8)
  {
  }

  lemma {:induction false} ZeroBit(k: nat)
    ensures !BinBit(0, k)
  {
    if k > 0 { ZeroBit(k - 1); }
  }

  lemma ZeroBits(n: nat)
    requires n < BITS_PER_BLK
    ensures !Bit(ZERO_BLOCK, n)
  {
    ZeroBit(n % 8);
  }

  /** One of the two map loops of format_rootfs (fs/super.c:167-180): n consecutive blocks
      are read, zeroed, and stay pinned. */
  method ClearMap(cache: BufferCache, dev: u16, blk: u32, n: nat, ghost spare: nat) returns (bhs: seq<int>)
    requires dev != 0 && blk + n < TWO_32 && cache.Valid() && Room(cache.pins, cache.bh.Length, n + spare)
    modifies cache.Repr()
    ensures cache.Valid() && |bhs| == n && MapHeld(old(cache.pins), cache.pins, dev, blk, n, bhs)
    ensures Room(cache.pins, cache.bh.Length, spare)
    ensures forall k: Key ::
            cache.view[k] == if k.dev == dev && blk <= k.blk < blk + n then ZERO_BLOCK else old(cache.view)[k]
  {
    hide BufferCache.Consistent, BufferCache.Fetched, MapHeld, Room;
    MapHeldNone(cache.pins, dev, blk);
    bhs := [];
    for i := 0 to n
      invariant |bhs| == i && cache.Valid()
      invariant MapHeld(old(cache.pins), cache.pins, dev, blk, i, bhs)
      invariant Room(cache.pins, cache.bh.Length, n - i + spare)
      invariant forall k: Key ::
                cache.view[k] == if k.dev == dev && blk <= k.blk < blk + i then ZERO_BLOCK else old(cache.view)[k]
    {
      ghost var m, k := cache.pins, Key(dev, blk + i);
      RoomAt(m, cache.bh.Length, n - i + spare, k);
      var p := cache.Bread(dev, blk + i);
      cache.Modify(p, k, ZERO_BLOCK);
      PlusRoom(m, cache.bh.Length, n - i - 1 + spare, k, p, true);
      MapHeldStep(old(cache.pins), m, dev, blk, i, bhs, p);
      bhs := bhs + [p];
    }
  }

  lemma RoomAt(m: map<Key, Pin>, slots: nat, n: nat, k: Key)
    requires Room(m, slots, n) && n > 0
    ensures if k in m then m[k].cnt < 255 else |m| < slots
  {
  }

  /** Nobody holds a block of the device. */
  ghost predicate Unused(m: map<Key, Pin>, dev: u16) {
    forall k: Key :: k in m ==> k.dev != dev
  }

  /** fs/super.c:160-165: block 1 becomes the super block. */
  method WriteSuper(cache: BufferCache, dev: u16, s: DevSuper)
    requires dev != 0 && cache.Valid() && Unused(cache.pins, dev) && Room(cache.pins, cache.bh.Length, 1)
    modifies cache.Repr()
    ensures cache.Valid() && cache.pins == old(cache.pins)
    ensures cache.view == old(cache.view)[Key(dev, 1) := PutWords(ZERO_BLOCK, 0, s.Words())]
  {
    hide BufferCache.Consistent, BufferCache.Fetched, BufferCache.Released, PutWords;
    ghost var k, m := Key(dev, 1), cache.pins;
    var p := cache.Bread(dev, 1);
    cache.Modify(p, k, PutWords(ZERO_BLOCK, 0, s.Words()));
    PlusMinus(m, k, p, true);
    cache.Brelse(p, k);
  }

  /** bhs point to the n blocks from blk on. */
  ghost predicate HeldRun(m: map<Key, Pin>, dev: u16, blk: u32, n: nat, bhs: seq<int>) {
    blk + n < TWO_32 && |bhs| == n && forall j: nat :: j < n ==> Holds(m, Key(dev, blk + j), bhs[j])
  }

  /** The pins of a device in use only by its two bitmaps. */
  lemma MapsOnly(m: map<Key, Pin>, m1: map<Key, Pin>, m2: map<Key, Pin>, dev: u16, n: nat, l: nat, ibhs: seq<int>,
                 zbhs: seq<int>)
    requires Unused(m, dev) && 2 + n + l < TWO_32 && |ibhs| == n && |zbhs| == l
    requires MapHeld(m, m1, dev, 2, n, ibhs) && MapHeld(m1, m2, dev, 2 + n, l, zbhs)
    ensures forall k: Key :: k in m2 && k.dev == dev ==> 2 <= k.blk < 2 + n + l
    ensures HeldRun(m2, dev, 2, n, ibhs) && HeldRun(m2, dev, 2 + n, l, zbhs)
  {
  }

  /** Both map loops: the first n + l blocks after the super block are zeroed and held. */
  method ClearMaps(cache: BufferCache, dev: u16, n: nat, l: nat, ghost spare: nat)
    returns (ibhs: seq<int>, zbhs: seq<int>)
    requires dev != 0 && cache.Valid() && Unused(cache.pins, dev) && 2 + n + l < TWO_32
    requires Room(cache.pins, cache.bh.Length, n + l + spare)
    modifies cache.Repr()
    ensures cache.Valid() && |ibhs| == n && |zbhs| == l && Room(cache.pins, cache.bh.Length, spare)
    ensures forall k: Key ::
            cache.view[k] == if k.dev == dev && 2 <= k.blk < 2 + n + l then ZERO_BLOCK else old(cache.view)[k]
    ensures forall k: Key :: k in cache.pins && k.dev == dev ==> 2 <= k.blk < 2 + n + l
    ensures HeldRun(cache.pins, dev, 2, n, ibhs) && HeldRun(cache.pins, dev, 2 + n, l, zbhs)
  {
    hide BufferCache.Consistent, MapHeld, Room, Holds, HeldRun;
    ghost var m := cache.pins;
    ibhs := ClearMap(cache, dev, 2, n, l + spare);
    ghost var m1 := cache.pins;
    zbhs := ClearMap(cache, dev, 2 + n, l, spare);
    MapsOnly(m, m1, cache.pins, dev, n, l, ibhs, zbhs);
  }

  /** fs/super.c:142-180: the super block is written, both bitmaps are cleared and stay
      pinned. */
  method Format(cache: BufferCache, dev: u16, ghost spare: nat) returns (sb: SuperBlock)
    requires dev != 0 && cache.Valid() && Unused(cache.pins, dev)
    requires Room(cache.pins, cache.bh.Length, NR_IMAP_BLKS + NR_ZMAP_BLKS + spare)
    modifies cache.Repr()
    ensures Room(cache.pins, cache.bh.Length, spare)
    ensures fresh(sb) && sb.cache == cache && sb.dev == dev && sb.Valid() && sb.pos == 0
    ensures sb.nzones == FORMATTED.nzones && sb.imapBlocks == FORMATTED.imapBlocks
    ensures sb.zmapBlocks == FORMATTED.zmapBlocks && sb.firstDatazone == FORMATTED.firstDatazone
    ensures SuperIn(cache.view[Key(dev, 1)]) == FORMATTED
    ensures forall k: Key :: k.dev == dev && 2 <= k.blk < 2 + NR_IMAP_BLKS + NR_ZMAP_BLKS ==>
            cache.view[k] == ZERO_BLOCK
    ensures forall k: Key :: k in cache.pins && k.dev == dev ==> 2 <= k.blk < 2 + NR_IMAP_BLKS + NR_ZMAP_BLKS
  {
    hide BufferCache.Consistent, PutWords, SuperIn, Holds, Room;
    var s := FORMATTED;
    FormattedLayout();
    SuperReadBack(s);
    RoomLess(cache.pins, cache.bh.Length, NR_IMAP_BLKS + NR_ZMAP_BLKS + spare, 1);
    WriteSuper(cache, dev, s);
    var ibhs, zbhs := ClearMaps(cache, dev, s.imapBlocks, s.zmapBlocks, spare);
    sb := new SuperBlock(cache, dev, s.nzones, s.imapBlocks, s.zmapBlocks, s.firstDatazone, s.pos, ibhs, zbhs);
  }

  /** On cleared bitmaps nothing is marked. */
  lemma ClearedBits(sb: SuperBlock, v: imap<Key, Block>)
    requires sb.Layout() && forall k :: k in v
    requires forall k: Key :: sb.IsImapKey(k) || sb.IsZmapKey(k) ==> v[k] == ZERO_BLOCK
    ensures forall n: nat :: n < sb.zmapBlocks * BITS_PER_BLK ==> !sb.ZoneBit(v, n)
    ensures forall n: nat :: n < sb.imapBlocks * BITS_PER_BLK ==> !sb.InodeBit(v, n)
  {
    hide Bit;
    forall n: nat | n < sb.zmapBlocks * BITS_PER_BLK ensures !sb.ZoneBit(v, n) {
      ZeroBits(n % BITS_PER_BLK);
    }
    forall n: nat | n < sb.imapBlocks * BITS_PER_BLK ensures !sb.InodeBit(v, n) {
      ZeroBits(n % BITS_PER_BLK);
    }
  }

  /** The freshly formatted volume, before it has any inode. */
  method EmptyVolume(sb: SuperBlock) returns (ns: Namespace)
    requires sb.Valid() && TableFits(sb)
    requires forall k: Key :: sb.IsImapKey(k) || sb.IsZmapKey(k) ==> sb.cache.view[k] == ZERO_BLOCK
    requires forall k: Key :: k in sb.cache.pins && k.dev == sb.dev ==> !sb.IsDataZone(k.blk)
    ensures fresh(ns) && fresh(ns.vol) && ns.vol.sb == sb && ns.Valid(-1)
    ensures ns.links == map[] && ns.dirs == map[] && ns.ats == map[] && ns.sizes == map[] && ns.vol.zones == map[]
    ensures ns.boot == sb.cache.view[Key(sb.dev, 1)]
  {
    hide SuperBlock.Valid, SuperBlock.ZoneBit, SuperBlock.InodeBit;
    ClearedBits(sb, sb.cache.view);
    var vol := new Volume(sb);
    ns := new Namespace(vol, sb.cache.view[Key(sb.dev, 1)]);
  }

  // ---- the root directory ----

  const ROOT_NR: u32 := 0
  const ROOT_AT: map<Name, nat> := map[[DOT] := 0, [DOT, DOT] := 1]

  /** The first block of the root directory (fs/super.c:126-134): "." and "..", both of
      inode 0, and 62 vacant records. */
  function RootBlock(): (b: Block) {
    ZERO_BLOCK[4 := DOT][64 + 4 := DOT][64 + 5 := DOT]
  }

  lemma RootSlots(e: nat)
    requires e < ENTRIES_PER_BLK
    ensures Number(Slot(RootBlock(), e)) == ROOT_NR
    ensures if e == 0 then NameIn(Slot(RootBlock(), e)) == [DOT]
            else if e == 1 then NameIn(Slot(RootBlock(), e)) == [DOT, DOT]
            else Vacant(Slot(RootBlock(), e))
  {
    var b, r := RootBlock(), Slot(RootBlock(), e);
    assert forall k {:trigger r[k]} :: 0 <= k < 64 ==> r[k] == b[64 * e + k];
    if e == 0 {
      StrlenIs(r, 4, 1);
    } else if e == 1 {
      StrlenIs(r, 4, 2);
    }
  }

  /** A file whose one block, the first, holds the root block is a directory of "." and
      ".." alone. */
  lemma RootListed(vol: Vol, d: nat)
    requires vol.Wf() && d in vol.zones
    requires forall i: nat :: i < NR_FILE_BLKS ==> (vol.Ptr(PlaceOf(d, i)) != 0 <==> i < 1)
    requires vol.Ptr(PlaceOf(d, 0)) != 0 && vol.Blk(vol.Ptr(PlaceOf(d, 0))) == RootBlock()
    ensures Listed(vol, d, BLK_SIZE, ROOT_AT)
    ensures Listing(vol, d, ROOT_AT) == map[[DOT] := ROOT_NR, [DOT, DOT] := ROOT_NR]
  {
    hide RootBlock, Slot, NameIn, Number;
    forall e: nat | e < ENTRIES_PER_BLK ensures Entry(vol, d, e) == Slot(RootBlock(), e) {
      EntrySlot(vol, d, 0, e);
    }
    RootEntries(vol, d);
  }

  lemma RootEntries(vol: Vol, d: nat)
    requires vol.Wf() && d in vol.zones
    requires forall i: nat :: i < NR_FILE_BLKS ==> (vol.Ptr(PlaceOf(d, i)) != 0 <==> i < 1)
    requires forall e: nat :: e < ENTRIES_PER_BLK ==> Entry(vol, d, e) == Slot(RootBlock(), e)
    ensures Listed(vol, d, BLK_SIZE, ROOT_AT)
    ensures Listing(vol, d, ROOT_AT) == map[[DOT] := ROOT_NR, [DOT, DOT] := ROOT_NR]
  {
    hide RootBlock, Slot, NameIn, Number, Entry, PlaceOf;
    forall e: nat | e < ENTRIES_PER_BLK
      ensures RecordOk(Entry(vol, d, e)) && Number(Entry(vol, d, e)) == ROOT_NR
      ensures e >= 2 ==> Vacant(Entry(vol, d, e))
    {
      RootSlots(e);
    }
    RootSlots(0);
    RootSlots(1);
    NamedRecord(Entry(vol, d, 0));
    NamedRecord(Entry(vol, d, 1));
  }

  /** Bit 0 of a cleared zone bitmap can be allocated. */
  lemma FirstZoneFree(sb: SuperBlock, v: imap<Key, Block>)
    requires sb.Layout() && (forall k :: k in v) && sb.firstDatazone < sb.nzones
    requires forall n: nat :: n < sb.zmapBlocks * BITS_PER_BLK ==> !sb.ZoneBit(v, n)
    ensures !sb.Exhausted(v, 0)
  {
    assert sb.Eligible(v, 0, 0);
  }

  /** File d has exactly one block, the first, and it holds the root block. */
  ghost predicate RootOnly(vol: Vol, d: nat) {
    && vol.Wf() && d in vol.zones
    && (forall i: nat :: i < NR_FILE_BLKS ==> (vol.Ptr(PlaceOf(d, i)) != 0 <==> i < 1))
    && vol.Blk(vol.Ptr(PlaceOf(d, 0))) == RootBlock()
  }

  lemma OneBlock(vol: Vol, vol': Vol, vol2: Vol, d: nat, b: u32)
    requires vol.Wf() && d in vol.zones && vol.zones[d] == NO_ZONES && b != 0
    requires Grown(vol, vol', Zone(d, 0)) && vol'.Ptr(Zone(d, 0)) == b
    requires vol2.Wf() && vol2.zones.Keys == vol'.zones.Keys && vol2.v == vol'.v[Key(vol2.dev, b) := RootBlock()]
    requires forall p :: vol'.Has(p) ==> vol2.Ptr(p) == vol'.Ptr(p)
    ensures RootOnly(vol2, d)
  {
    hide RootBlock;
    forall i: nat | i < NR_FILE_BLKS ensures vol2.Ptr(PlaceOf(d, i)) != 0 <==> i < 1 {
      PtrOfEmpty(vol, PlaceOf(d, i));
    }
  }

  /** bread of the fresh zero block, the stores of the two entries, brelse. */
  method FillRoot(sb: SuperBlock, b: u32)
    requires sb.Valid() && sb.Roomy(1) && sb.IsDataZone(b) && sb.cache.view[Key(sb.dev, b)] == ZERO_BLOCK
    modifies sb.cache.Repr()
    ensures sb.Valid() && sb.cache.pins == old(sb.cache.pins)
    ensures sb.cache.view == old(sb.cache.view)[Key(sb.dev, b) := RootBlock()]
    ensures forall n: nat :: n < sb.zmapBlocks * BITS_PER_BLK ==>
            sb.ZoneBit(sb.cache.view, n) == sb.ZoneBit(old(sb.cache.view), n)
  {
    hide SuperBlock.Valid, SuperBlock.ZoneBit;
    ghost var pins := sb.cache.pins;
    var bh := sb.ReadZone(b);
    sb.ZoneData(bh, b);
    sb.StoreZone(bh, b, sb.cache.bh[bh].data[4 := DOT][64 + 4 := DOT][64 + 5 := DOT]);
    PlusMinus(pins, Key(sb.dev, b), bh, true);
    sb.ReleaseZone(bh, b);
  }

  /** Inode 0 is the only one with blocks, and has just one, in its first zone. */
  ghost predicate OneZone(zones: map<nat, seq<u32>>) {
    zones.Keys == {0} && |zones[0]| == 9 && forall i :: 1 <= i < 9 ==> zones[0][i] == 0
  }

  /** The block of the root directory is allocated and filled (fs/super.c:111-138). */
  method PlantRoot(vol: Volume, m: MemInode)
    requires vol.Valid() && vol.Loaded(m) && vol.zones == map[m.num := NO_ZONES] && vol.sb.Roomy(2) && !vol.Full()
    modifies vol.sb.cache.Repr(), vol.sb`pos, m`zone, vol`zones, vol`own
    ensures vol.Valid() && vol.Loaded(m) && vol.sb.cache.pins == old(vol.sb.cache.pins)
    ensures RootOnly(vol.Now(), m.num) && vol.zones.Keys == {m.num} && |m.zone| == 9
    ensures forall k: Key :: vol.sb.IsMeta(k) ==> vol.sb.cache.view[k] == old(vol.sb.cache.view)[k]
    ensures m.num == 0 ==> OneZone(vol.zones)
  {
    hide SuperBlock.Valid, SuperBlock.ZoneBit, SuperBlock.Exhausted, Forest, Grown, RootOnly, RootBlock;
    ghost var now := vol.Now();
    var b := vol.GrowZone(m, 0);
    ghost var now1 := vol.Now();
    FillRoot(vol.sb, b);
    assert PlaceOf(m.num, 0) == Zone(m.num, 0);
    StoreBytes(now1, vol.own, vol.sb.firstDatazone, vol.sb.nzones, m.num, 0, RootBlock());
    OneBlock(now, now1, vol.Now(), m.num, b);
  }

  /** What is known once the root directory is there: inode 0, "." and "..", two links. */
  ghost predicate RootReady(ns: Namespace)
    reads ns
  {
    && ns.links == map[0 := 2]
    && ns.dirs == map[0 := map[[DOT] := ROOT_NR, [DOT, DOT] := ROOT_NR]]
    && ns.ats == map[0 := ROOT_AT] && ns.sizes == map[0 := BLK_SIZE]
  }

  /** No record on disk is behind: every inode was put since it last changed. */
  ghost predicate Clean(ns: Namespace)
    reads ns`known
  {
    forall n :: n in ns.known ==> !ns.known[n].behind
  }

  /** The super block on disk has the volume's geometry. */
  ghost predicate Geometry(ns: Namespace) {
    var s, sb := SuperIn(ns.boot), ns.vol.sb;
    && s.magic == CASEY_MAGIC && Mountable(s)
    && sb.nzones == s.nzones && sb.imapBlocks == s.imapBlocks && sb.zmapBlocks == s.zmapBlocks
    && sb.firstDatazone == s.firstDatazone
  }

  /** A super block the mount code can work with. */
  predicate Mountable(s: DevSuper) {
    GoodLayout(s.nzones, s.imapBlocks, s.zmapBlocks, s.firstDatazone) && s.pos < s.zmapBlocks * BITS_PER_BLK
  }

  /** The root directory in the namespace's own terms. */
  lemma RootNames(vol: Vol)
    requires RootOnly(vol, 0)
    ensures AllListed(vol, map[0 := ROOT_AT], map[0 := BLK_SIZE],
            map[0 := map[[DOT] := ROOT_NR, [DOT, DOT] := ROOT_NR]])
    ensures Closed(map[0 := map[[DOT] := ROOT_NR, [DOT, DOT] := ROOT_NR]], map[0 := 2])
    ensures Counted(map[0 := map[[DOT] := ROOT_NR, [DOT, DOT] := ROOT_NR]], map[0 := 2], -1)
  {
    hide Listed, Listing;
    RootListed(vol, 0);
  }

  /** The inode of the root directory joins the volume. */
  method RootInode(ns: Namespace) returns (m: MemInode)
    requires ns.Valid(-1) && ns.links == map[] && ns.dirs == map[] && ns.vol.zones == map[]
    requires ns.vol.sb.pos == 0 && forall n: nat :: n < ns.vol.sb.zmapBlocks * BITS_PER_BLK ==>
             !ns.vol.sb.ZoneBit(ns.vol.sb.cache.view, n)
    requires ns.vol.sb.firstDatazone < ns.vol.sb.nzones
    modifies ns.vol.sb.cache.bh, ns.vol.sb.cache`view, ns.vol.sb.cache`pins, ns`links, ns`known, ns.vol`zones
    ensures Stored(m) == Namespace.FreshRecord()
    ensures fresh(m) && m.num == 0 && m.cnt == 1 && ns.vol.Valid() && ns.vol.Loaded(m) && ns.links == map[0 := 1]
    ensures ns.vol.sb.cache.pins == old(ns.vol.sb.cache.pins) && ns.vol.zones == map[0 := NO_ZONES] && !ns.vol.Full()
    ensures InodesMarked(ns.vol.sb, ns.vol.sb.cache.view, ns.links) && TableFits(ns.vol.sb) && ns.Quiet()
    ensures ns.vol.sb.cache.view[Key(ns.vol.sb.dev, 1)] == ns.boot
    ensures BootKept(old(ns.vol.sb.cache.view), ns.vol.sb.cache.view)
  {
    hide SuperBlock.Valid, SuperBlock.ZoneBit, SuperBlock.InodeBit, SuperBlock.Exhausted, Forest, AllListed, Counted,
         Closed, OthersSame, Refs;
    ghost var v, sb := ns.vol.sb.cache.view, ns.vol.sb;
    assert 0 < sb.imapBlocks * BITS_PER_BLK;
    var r := ns.NewInode();
    ghost var l := ns.links;
    assert r == null ==> 0 in l;
    assert r != null;
    m := r;
    assert 0 < m.num ==> 0 in l;
    ghost var now := ns.vol.Now();
    sb.ZoneBitSame(v, now.v);
    FirstZoneFree(sb, now.v);
    AdoptOthers(now, ns.vol.own, sb.firstDatazone, sb.nzones, 0);
    ns.vol.zones := ns.vol.zones[0 := NO_ZONES];
  }

  /** The fields of the root inode (fs/super.c:113-119, 136). */
  method SetRoot(m: MemInode)
    modifies m`size, m`mode, m`dirt, m`valid, m`nlinks
    ensures m.size == BLK_SIZE && m.mode == S_IFDIR && m.dirt && m.valid && m.nlinks == 2
  {
    m.size, m.mode, m.dirt, m.valid := BLK_SIZE, S_IFDIR, true, true;
    m.nlinks := 2;
  }

  /** The names the root directory stands for. */
  ghost method EnterRoot(ns: Namespace, rec: DevInode)
    requires ns.vol.Valid() && ns !in ns.vol.sb.cache.Repr() && TableFits(ns.vol.sb) && ns.Quiet()
    requires RootOnly(ns.vol.Now(), 0) && ns.vol.zones.Keys == {0}
    requires InodesMarked(ns.vol.sb, ns.vol.sb.cache.view, map[0 := 1])
    requires ns.vol.sb.cache.view[Key(ns.vol.sb.dev, 1)] == ns.boot && RootRecord(rec, ns.vol.zones)
    modifies ns
    ensures ns.Valid(-1) && RootReady(ns) && ns.known == map[0 := Known(rec, true)]
  {
    hide SuperBlock.Valid, SuperBlock.InodeBit, Volume.Rooted, AllListed, Counted, Closed, RootOnly, Recorded,
         RootRecord;
    RootRecorded(ns.vol.sb, ns.vol.sb.cache.view, ns.vol.zones, rec, ns.boot);
    RootNames(ns.vol.Now());
    RootMaps(ns, rec);
  }

  ghost method RootMaps(ns: Namespace, rec: DevInode)
    modifies ns
    ensures RootReady(ns) && ns.known == map[0 := Known(rec, true)]
  {
    ns.links := map[0 := 2];
    ns.dirs := map[0 := map[[DOT] := ROOT_NR, [DOT, DOT] := ROOT_NR]];
    ns.ats := map[0 := ROOT_AT];
    ns.sizes := map[0 := BLK_SIZE];
    ns.known := map[0 := Known(rec, true)];
  }

  /** The one record of the fresh volume. */
  lemma RootRecorded(sb: SuperBlock, v: imap<Key, Block>, zones: map<nat, seq<u32>>, rec: DevInode, boot: Block)
    requires (forall k :: k in v) && v[Key(sb.dev, 1)] == boot && zones.Keys == {0} && RootRecord(rec, zones)
    ensures Recorded(sb, v, map[0 := 2], zones, map[0 := BLK_SIZE],
                     map[0 := map[[DOT] := ROOT_NR, [DOT, DOT] := ROOT_NR]], map[0 := Known(rec, true)], boot)
  {
  }

  ghost predicate RootRecord(d: DevInode, zones: map<nat, seq<u32>>) {
    d.nlinks == 2 && |d.zone| == 9 && FileType(d.mode) == S_IFDIR && d.size == BLK_SIZE && 0 in zones
      && d.zone == zones[0]
  }

  method AdoptRoot(ns: Namespace, m: MemInode)
    requires ns.vol.Valid() && ns !in ns.vol.sb.cache.Repr() && TableFits(ns.vol.sb) && ns.Quiet()
    requires RootOnly(ns.vol.Now(), 0) && ns.vol.zones.Keys == {0} && ns.vol.Loaded(m) && m.num == 0 && |m.zone| == 9
    requires InodesMarked(ns.vol.sb, ns.vol.sb.cache.view, map[0 := 1])
    requires ns.vol.sb.cache.view[Key(ns.vol.sb.dev, 1)] == ns.boot
    modifies ns, m`size, m`mode, m`dirt, m`valid, m`nlinks
    ensures ns.Valid(-1) && RootReady(ns) && ns.Linked(m) && m.nlinks == 2
    ensures ns.known.Keys == {0} && m.dirt
            && Stored(m) == old(Stored(m)).(size := BLK_SIZE, mode := S_IFDIR, nlinks := 2, zone := m.zone)
  {
    hide SuperBlock.Valid, SuperBlock.InodeBit, Volume.Rooted, AllListed, Counted, Closed, RootOnly, InodesMarked;
    SetRoot(m);
    EnterRoot(ns, Stored(m));
  }

  /** The root directory's block, fields and names. */
  method BuildRoot(ns: Namespace, m: MemInode)
    requires ns.vol.Valid() && ns !in ns.vol.sb.cache.Repr() && TableFits(ns.vol.sb) && ns.Quiet()
    requires ns.vol.Loaded(m) && m.num == 0 && ns.vol.zones == map[0 := NO_ZONES] && ns.vol.sb.Roomy(2)
             && !ns.vol.Full()
    requires InodesMarked(ns.vol.sb, ns.vol.sb.cache.view, map[0 := 1])
    requires ns.vol.sb.cache.view[Key(ns.vol.sb.dev, 1)] == ns.boot
    modifies ns.vol.sb.cache.Repr(), ns.vol.sb`pos, ns.vol`zones, ns.vol`own, ns
    modifies m`zone, m`size, m`mode, m`dirt, m`valid, m`nlinks
    ensures ns.Valid(-1) && RootReady(ns) && ns.Linked(m) && m.nlinks == 2
    ensures ns.vol.sb.cache.pins == old(ns.vol.sb.cache.pins)
    ensures BootKept(old(ns.vol.sb.cache.view), ns.vol.sb.cache.view)
    ensures ns.known.Keys == {0} && m.dirt
            && Stored(m) == old(Stored(m)).(size := BLK_SIZE, mode := S_IFDIR, nlinks := 2, zone := m.zone)
    ensures OneZone(ns.vol.zones)
  {
    hide SuperBlock.Valid, SuperBlock.ZoneBit, SuperBlock.Exhausted, SuperBlock.InodeBit, Volume.Rooted, AllListed,
         Counted, Closed, RootOnly, Room, InodesMarked;
    ghost var v, d := ns.vol.sb.cache.view, Stored(m);
    PlantRoot(ns.vol, m);
    ghost var z := m.zone;
    assert Stored(m) == d.(zone := z);
    InodesKeptMeta(ns.vol.sb, v, ns.vol.sb.cache.view, map[0 := 1]);
    MetaBoot(ns.vol.sb, v, ns.vol.sb.cache.view);
    AdoptRoot(ns, m);
  }

  /** BuildRoot and the iput after it. */
  method SettleRoot(ns: Namespace, m: MemInode)
    requires ns.vol.Valid() && ns !in ns.vol.sb.cache.Repr() && TableFits(ns.vol.sb) && ns.Quiet()
    requires ns.vol.Loaded(m) && m.num == 0 && m.cnt == 1 && ns.vol.zones == map[0 := NO_ZONES] && ns.vol.sb.Roomy(3)
             && !ns.vol.Full()
    requires InodesMarked(ns.vol.sb, ns.vol.sb.cache.view, map[0 := 1])
    requires ns.vol.sb.cache.view[Key(ns.vol.sb.dev, 1)] == ns.boot
    modifies ns.vol.sb.cache.Repr(), ns.vol.sb`pos, ns.vol`zones, ns.vol`own, ns, m
    ensures ns.Valid(-1) && RootReady(ns) && ns.Linked(m) && m.cnt == 0
    ensures Clean(ns) && Stored(m) == old(Stored(m)).(size := BLK_SIZE, mode := S_IFDIR, nlinks := 2, zone := m.zone)
    ensures ns.vol.sb.cache.pins == old(ns.vol.sb.cache.pins)
    ensures BootKept(old(ns.vol.sb.cache.view), ns.vol.sb.cache.view)
    ensures OneZone(ns.vol.zones)
  {
    hide SuperBlock.Valid, SuperBlock.ZoneBit, SuperBlock.Exhausted, SuperBlock.InodeBit, Volume.Rooted, AllListed,
         Counted, Closed, OthersSame, Room, InodesMarked, BootKept, Namespace.Valid;
    RoomyLess(ns.vol.sb);
    ghost var v := ns.vol.sb.cache.view;
    BuildRoot(ns, m);
    ghost var v1 := ns.vol.sb.cache.view;
    ns.Unhold(m, -1);
    BootKeptTwice(v, v1, ns.vol.sb.cache.view);
  }

  /** fs/super.c:108: the first name space there is, with the root directory and nothing
      else. Every invariant of the stack holds from here on. */
  method CreatRooti(ns: Namespace) returns (root: MemInode)
    requires ns.Valid(-1) && ns.links == map[] && ns.dirs == map[] && ns.vol.zones == map[]
    requires ns.vol.sb.pos == 0 && forall n: nat :: n < ns.vol.sb.zmapBlocks * BITS_PER_BLK ==>
             !ns.vol.sb.ZoneBit(ns.vol.sb.cache.view, n)
    requires ns.vol.sb.firstDatazone < ns.vol.sb.nzones && ns.vol.sb.Roomy(3)
    modifies ns.vol.sb.cache.Repr(), ns.vol.sb`pos, ns.vol`zones, ns.vol`own, ns
    ensures ns.Valid(-1) && RootReady(ns) && fresh(root) && ns.Linked(root) && root.num == 0 && root.cnt == 0
    ensures Clean(ns) && Stored(root) == Namespace.FreshRecord().(size := BLK_SIZE, mode := S_IFDIR, nlinks := 2,
            zone := root.zone)
    ensures ns.vol.sb.cache.pins == old(ns.vol.sb.cache.pins)
    ensures BootKept(old(ns.vol.sb.cache.view), ns.vol.sb.cache.view)
    ensures OneZone(ns.vol.zones)
  {
    hide SuperBlock.Valid, SuperBlock.ZoneBit, SuperBlock.Exhausted, SuperBlock.InodeBit, Volume.Rooted, AllListed,
         Counted, Closed, OthersSame, Room, InodesMarked, BootKept, Namespace.Valid;
    ghost var v := ns.vol.sb.cache.view;
    root := RootInode(ns);
    ghost var v1 := ns.vol.sb.cache.view;
    SettleRoot(ns, root);
    BootKeptTwice(v, v1, ns.vol.sb.cache.view);
  }

  /** load_rootfs on a disk without the magic number: everything the other modules assume
      about a mounted volume is true of a freshly formatted one. */
  method FormatRootfs(cache: BufferCache, dev: u16) returns (ns: Namespace, root: MemInode)
    requires dev != 0 && cache.Valid() && Unused(cache.pins, dev)
    requires Room(cache.pins, cache.bh.Length, NR_IMAP_BLKS + NR_ZMAP_BLKS + 3)
    modifies cache.Repr()
    ensures fresh(ns) && fresh(root) && fresh(ns.vol.sb) && ns.vol.sb.cache == cache && ns.vol.sb.dev == dev
    ensures ns.Valid(-1) && RootReady(ns) && ns.Linked(root) && ns.vol.sb.Valid()
    ensures SuperIn(cache.view[Key(dev, 1)]) == FORMATTED
    ensures ns.vol.sb.nzones == FORMATTED.nzones && ns.vol.sb.imapBlocks == FORMATTED.imapBlocks
    ensures ns.vol.sb.zmapBlocks == FORMATTED.zmapBlocks && ns.vol.sb.firstDatazone == FORMATTED.firstDatazone
    ensures Clean(ns) && Geometry(ns)
    ensures forall k: Key :: k in cache.pins && k.dev == dev ==>
            2 <= k.blk < 2 + ns.vol.sb.imapBlocks + ns.vol.sb.zmapBlocks
    ensures OneZone(ns.vol.zones) && Stored(root) == Namespace.FreshRecord().(size := BLK_SIZE, mode := S_IFDIR,
            nlinks := 2, zone := root.zone)
    ensures root.num == 0 && root.cnt == 0 && ns.vol.sb.Roomy(3)
  {
    hide SuperBlock.Valid, SuperBlock.ZoneBit, SuperBlock.InodeBit, Volume.Rooted, AllListed, Counted, Closed,
         OthersSame, InodesMarked, Holds, Room;
    var sb := Format(cache, dev, 3);
    ns := EmptyVolume(sb);
    ClearedBits(sb, cache.view);
    FormattedLayout();
    root := CreatRooti(ns);
  }

  /** The super block half of get_sblk (fs/super.c:46-53). */
  method ReadSuper(cache: BufferCache, dev: u16) returns (s: DevSuper)
    requires dev != 0 && cache.Valid() && Unused(cache.pins, dev) && Room(cache.pins, cache.bh.Length, 1)
    modifies cache.Repr()
    ensures cache.Valid() && cache.pins == old(cache.pins) && cache.view == old(cache.view)
    ensures s == SuperIn(cache.view[Key(dev, 1)])
  {
    hide BufferCache.Consistent, BufferCache.Fetched, BufferCache.Released, SuperIn;
    ghost var k, m := Key(dev, 1), cache.pins;
    var p := cache.Bread(dev, 1);
    cache.Pointed(p, k);
    s := SuperIn(cache.bh[p].data);
    PlusMinus(m, k, p, true);
    cache.Brelse(p, k);
  }

  /** fs/super.c:185: a volume with the magic number is mounted as it says, any other one
      is formatted; either way the result can be mounted again. */
  method LoadRootfs(cache: BufferCache, dev: u16) returns (sb: SuperBlock, ghost made: Namespace?)
    requires dev != 0 && cache.Valid() && Unused(cache.pins, dev)
    requires Room(cache.pins, cache.bh.Length, NR_IMAP_BLKS + NR_ZMAP_BLKS + 3)
    requires SuperIn(cache.view[Key(dev, 1)]).magic == CASEY_MAGIC ==> Mountable(SuperIn(cache.view[Key(dev, 1)]))
    modifies cache.Repr()
    ensures fresh(sb) && sb.Valid() && sb.cache == cache && sb.dev == dev
    ensures if old(Word(cache.view[Key(dev, 1)], 7)) == 0x0520_1314 then cache.view == old(cache.view) && made == null
            else && made != null && fresh(made) && made.vol.sb == sb && made.Valid(-1) && RootReady(made) && Clean(made)
                 && OneZone(made.vol.zones) && SuperIn(cache.view[Key(dev, 1)]) == FORMATTED
    ensures var s := SuperIn(cache.view[Key(dev, 1)]);
            && s.magic == CASEY_MAGIC && Mountable(s)
            && sb.nzones == s.nzones && sb.imapBlocks == s.imapBlocks && sb.zmapBlocks == s.zmapBlocks
            && sb.firstDatazone == s.firstDatazone
    ensures forall k: Key :: k in cache.pins && k.dev == dev ==> 2 <= k.blk < 2 + sb.imapBlocks + sb.zmapBlocks
    ensures sb.Roomy(3)
  {
    hide BufferCache.Consistent, SuperBlock.Valid, Namespace.Valid, SuperIn, MapHeld, Room, RootReady, Namespace.Linked;
    RoomLess(cache.pins, cache.bh.Length, NR_IMAP_BLKS + NR_ZMAP_BLKS + 3, 1);
    made := null;
    var s := ReadSuper(cache, dev);
    SuperWords(cache.view[Key(dev, 1)]);
    if s.magic != CASEY_MAGIC {
      FormattedLayout();
      var ns, root := FormatRootfs(cache, dev);
      sb, made := ns.vol.sb, ns;
    } else {
      RoomLess(cache.pins, cache.bh.Length, NR_IMAP_BLKS + NR_ZMAP_BLKS + 3, s.imapBlocks + s.zmapBlocks + 3);
      sb := Mount(cache, dev, s.nzones, s.imapBlocks, s.zmapBlocks, s.firstDatazone, s.pos, 3);
    }
  }

  // ---- the disk carries everything ----

  /** Two mounts of a volume with the same geometry. */
  ghost predicate SameLayout(a: SuperBlock, b: SuperBlock) {
    && a.dev == b.dev && a.nzones == b.nzones && a.imapBlocks == b.imapBlocks && a.zmapBlocks == b.zmapBlocks
    && a.firstDatazone == b.firstDatazone
  }

  lemma InodesAlike(a: SuperBlock, b: SuperBlock, v: imap<Key, Block>, links: map<nat, u16>)
    requires SameLayout(a, b) && a.Layout() && (forall k :: k in v) && InodesMarked(a, v, links) && TableFits(a)
    ensures b.Layout() && InodesMarked(b, v, links) && TableFits(b)
  {
    forall n: nat | n < b.imapBlocks * BITS_PER_BLK ensures b.InodeBit(v, n) <==> n in links {
      assert a.InodeBit(v, n) <==> n in links;
    }
  }

  lemma ZonesAlike(a: SuperBlock, b: SuperBlock, v: imap<Key, Block>, own: map<u32, Place>)
    requires SameLayout(a, b) && a.Layout() && (forall k :: k in v) && Marked(a, v, own, 0)
    ensures b.Layout() && Marked(b, v, own, 0)
  {
    forall z: u32 | b.IsDataZone(z) && z != 0 ensures b.ZoneBit(v, z - b.firstDatazone) <==> z in own {
      assert a.IsDataZone(z) && (a.ZoneBit(v, z - a.firstDatazone) <==> z in own);
    }
  }

  lemma RecordsAlike(a: SuperBlock, b: SuperBlock, v: imap<Key, Block>, links: map<nat, u16>, zones: map<nat, seq<u32>>,
                     sizes: map<nat, u32>, dirs: map<nat, map<Name, u32>>, known: map<nat, Known>, boot: Block)
    requires SameLayout(a, b) && (forall k :: k in v) && Recorded(a, v, links, zones, sizes, dirs, known, boot)
    ensures Recorded(b, v, links, zones, sizes, dirs, known, boot)
  {
    hide Describes, InodeAt;
    forall n | n in known && !known[n].behind ensures InTableAs(b, v, n, known[n].rec) {
      assert InTableAs(a, v, n, known[n].rec);
    }
  }

  /** The files of ns on another mount of its volume. */
  method CarryVolume(ns: Namespace, sb: SuperBlock) returns (vol: Volume)
    requires ns.vol.Valid() && sb.Valid() && SameLayout(ns.vol.sb, sb) && sb.cache.view == ns.vol.sb.cache.view
    ensures fresh(vol) && vol.sb == sb && vol.Valid() && vol.Now() == ns.vol.Now() && vol.zones == ns.vol.zones
  {
    hide SuperBlock.Valid, SuperBlock.ZoneBit, Forest, Marked;
    ZonesAlike(ns.vol.sb, sb, sb.cache.view, ns.vol.own);
    vol := new Volume(sb);
    vol.zones, vol.own := ns.vol.zones, ns.vol.own;
  }

  /** The names as well. */
  method Carry(ns: Namespace, sb: SuperBlock) returns (ns': Namespace)
    requires ns.Valid(-1) && sb.Valid() && SameLayout(ns.vol.sb, sb) && sb.cache.view == ns.vol.sb.cache.view
    requires forall k: Key :: k in sb.cache.pins && k.dev == sb.dev ==> !sb.IsDataZone(k.blk)
    ensures fresh(ns') && fresh(ns'.vol) && ns'.vol.sb == sb && ns'.Valid(-1) && SameTree(ns, ns')
  {
    hide SuperBlock.Valid, Volume.Rooted, AllListed, Counted, Closed, InodesMarked, Recorded;
    ghost var v := sb.cache.view;
    InodesAlike(ns.vol.sb, sb, v, ns.links);
    RecordsAlike(ns.vol.sb, sb, v, ns.links, ns.vol.zones, ns.sizes, ns.dirs, ns.known, ns.boot);
    var vol := CarryVolume(ns, sb);
    ns' := CopyNames(ns, vol);
  }

  method CopyNames(ns: Namespace, vol: Volume) returns (ns': Namespace)
    ensures fresh(ns') && ns'.vol == vol && ns'.boot == ns.boot
    ensures ns'.links == ns.links && ns'.ats == ns.ats && ns'.sizes == ns.sizes && ns'.dirs == ns.dirs
    ensures ns'.known == ns.known
  {
    ns' := new Namespace(vol, ns.boot);
    ns'.links, ns'.ats, ns'.sizes, ns'.dirs, ns'.known := ns.links, ns.ats, ns.sizes, ns.dirs, ns.known;
  }

  /** The same files, byte for byte, the same names, counts and records. */
  ghost predicate SameTree(ns: Namespace, ns': Namespace)
    reads ns, ns.vol, ns.vol.sb.cache, ns', ns'.vol, ns'.vol.sb.cache
  {
    && ns'.vol.Now() == ns.vol.Now() && ns'.links == ns.links && ns'.dirs == ns.dirs && ns'.ats == ns.ats
    && ns'.sizes == ns.sizes && ns'.known == ns.known && ns'.boot == ns.boot
  }

  /** The slots of a cache are numbered in 32 bits. */
  lemma SlotsFit(cache: BufferCache)
    requires cache.Valid()
    ensures 0 < cache.bh.Length < TWO_32
  {
  }

  /** A fresh cache on a disk with a good super block. */
  method MountAgain(disk: Key -> Block, n: nat, dev: u16) returns (sb: SuperBlock)
    requires NR_IMAP_BLKS + NR_ZMAP_BLKS + 3 <= n < TWO_32 && dev != 0
    requires var s := SuperIn(disk(Key(dev, 1))); s.magic == CASEY_MAGIC && Mountable(s)
    ensures fresh(sb) && fresh(sb.cache) && fresh(sb.cache.Repr()) && sb.Valid() && sb.dev == dev
    ensures var s := SuperIn(disk(Key(dev, 1)));
            && sb.nzones == s.nzones && sb.imapBlocks == s.imapBlocks && sb.zmapBlocks == s.zmapBlocks
            && sb.firstDatazone == s.firstDatazone
    ensures forall k :: k in sb.cache.view && sb.cache.view[k] == disk(k)
    ensures forall k: Key :: k in sb.cache.pins && k.dev == dev ==> !sb.IsDataZone(k.blk)
    ensures sb.Roomy(3)
  {
    hide BufferCache.Consistent, SuperBlock.Valid, SuperIn;
    SuperWords(disk(Key(dev, 1)));
    var cache := new BufferCache(n, disk);
    ghost var made;
    sb, made := LoadRootfs(cache, dev);
  }

  /** When all inodes have been put and sync_blks has gone round, another cache on the same disk
      that mounts the volume again has the same files, names and counts. */
  method Remount(ns: Namespace, n: nat) returns (ns': Namespace)
    requires ns.Valid(-1) && Clean(ns) && Geometry(ns)
    requires NR_IMAP_BLKS + NR_ZMAP_BLKS + 3 <= n < TWO_32 && ns.vol.sb.dev != 0
    modifies ns.vol.sb.cache.Repr()
    ensures fresh(ns') && fresh(ns'.vol) && fresh(ns'.vol.sb) && fresh(ns'.vol.sb.cache.Repr())
    ensures ns'.Valid(-1) && SameTree(ns, ns') && ns.vol.Now() == old(ns.vol.Now())
    ensures forall m: nat :: m in ns'.known ==> ns'.Fetchable(null, m)
    ensures ns'.vol.sb.Roomy(3)
  {
    hide BufferCache.Consistent, SuperBlock.Valid, Volume.Rooted, AllListed, Counted, Closed, InodesMarked, Recorded,
         SuperIn, OnDisk;
    BootBlock(ns);
    WriteOut(ns);
    var sb := MountAgain(ns.vol.sb.cache.disk, n, ns.vol.sb.dev);
    SameView(sb.cache.view, ns.vol.sb.cache.view, ns.vol.sb.cache.disk);
    ns' := Carry(ns, sb);
  }

  lemma BootBlock(ns: Namespace)
    requires ns.Valid(-1)
    ensures ns.vol.sb.cache.view[Key(ns.vol.sb.dev, 1)] == ns.boot && (forall k :: k in ns.vol.sb.cache.view)
  {
  }

  lemma SameView(v: imap<Key, Block>, v': imap<Key, Block>, disk: Key -> Block)
    requires (forall k :: k in v && v[k] == disk(k)) && (forall k :: k in v' && disk(k) == v'[k])
    ensures v == v'
  {
  }

  /** sync_blks of everything: the disk is up to date and the names and files are as before. */
  method WriteOut(ns: Namespace)
    requires ns.Valid(-1)
    modifies ns.vol.sb.cache.Repr()
    ensures ns.Valid(-1) && ns.vol.Now() == old(ns.vol.Now()) && ns.vol.sb.cache.pins == old(ns.vol.sb.cache.pins)
    ensures forall k :: k in ns.vol.sb.cache.view && ns.vol.sb.cache.disk(k) == ns.vol.sb.cache.view[k]
  {
    hide BufferCache.Consistent, Forest, AllListed, Counted, Closed, InodesMarked, Recorded, Marked,
         SuperBlock.InodeBit;
    var cache := ns.vol.sb.cache;
    SlotsFit(cache);
    var n := cache.SyncBlks(cache.bh.Length);
  }
}
