/** Inodes in memory and the block map of their files (fs/inode.c:181-330). */
module Inodes {
  import opened Bytes
  import opened BufferCaches
  import opened Bitmaps
  import opened BlockTrees

  const S_IFREG := 0x8000
  const S_IFDIR := 0x4000

  /** The top four bits of a mode. */
  function FileType(mode: u16): u16 {
    mode / 0x1000 * 0x1000
  }

  class MemInode {
    var mode: u16
    var uid: u16
    var size: u32
    var mtime: u32
    var gid: u16
    var nlinks: u16
    var magic: u32
    var zone: seq<u32>
    var unused: (u32, u32)
    const num: u32
    const dev: u16
    var cnt: u16
    var dirt: bool
    var valid: bool

    constructor (dev: u16, num: u32)
      ensures this.dev == dev && this.num == num && fresh(this)
      ensures mode == 0 && size == 0 && nlinks == 0 && zone == NO_ZONES && cnt == 0 && !dirt && !valid
      ensures uid == 0 && mtime == 0 && gid == 0 && magic == 0 && unused == (0, 0)
    {
      this.dev, this.num := dev, num;
      mode, uid, size, mtime, gid, nlinks, magic, zone, unused := 0, 0, 0, 0, 0, 0, 0, NO_ZONES, (0, 0);
      cnt, dirt, valid := 0, false, false;
    }
  }

  /** A zone is marked in the bitmap iff some file points to it; block x may be
      marked on its way in or out. */
  ghost predicate Marked(sb: SuperBlock, v: imap<Key, Block>, own: map<u32, Place>, x: u32)
    requires sb.Layout() && forall k :: k in v
  {
    forall b: u32 :: sb.IsDataZone(b) && b != x ==> (sb.ZoneBit(v, b - sb.firstDatazone) <==> b in own)
  }

  lemma MarkedOne(sb: SuperBlock, v: imap<Key, Block>, own: map<u32, Place>, b: u32, p: Place)
    requires sb.Layout() && (forall k :: k in v) && Marked(sb, v, own, b) && sb.IsDataZone(b)
    requires sb.ZoneBit(v, b - sb.firstDatazone)
    ensures Marked(sb, v, own[b := p], 0)
  {
  }

  /** Of the blocks in use in contents v0 exactly those in gone are unmarked in v;
      the others, and everything that is not file data, read as before. */
  ghost predicate Shed(sb: SuperBlock, v0: imap<Key, Block>, v: imap<Key, Block>, own: map<u32, Place>, gone: set<u32>)
  {
    && sb.Layout() && (forall k :: k in v0) && (forall k :: k in v)
    && (forall b :: b in own && b !in gone ==> v[Key(sb.dev, b)] == v0[Key(sb.dev, b)])
    && (forall k: Key :: sb.IsMeta(k) ==> v[k] == v0[k])
    && (forall b: u32 :: sb.IsDataZone(b) ==> (sb.ZoneBit(v, b - sb.firstDatazone) <==> b in own && b !in gone))
  }

  lemma ShedNone(sb: SuperBlock, vol: Vol, own: map<u32, Place>)
    requires sb.Layout() && vol.Wf() && Marked(sb, vol.v, own, 0)
    ensures Shed(sb, vol.v, vol.v, own, {})
  {
  }

  lemma ShedRest(sb: SuperBlock, v0: imap<Key, Block>, v: imap<Key, Block>, own: map<u32, Place>, gone: set<u32>,
                 b: u32)
    requires Shed(sb, v0, v, own, gone) && b in own && b !in gone
    ensures Key(sb.dev, b) in v && Key(sb.dev, b) in v0 && v[Key(sb.dev, b)] == v0[Key(sb.dev, b)]
  {
  }

  /** File f between contents v0 and v, with its zones cleared: exactly its blocks
      were unmarked, it reads as zeros, and all other files read as before. */
  ghost predicate Shorn(sb: SuperBlock, vol: Vol, vol': Vol, own: map<u32, Place>, f: nat)
    requires sb.Layout() && vol.Wf() && vol'.Wf()
  {
    && vol'.zones.Keys == vol.zones.Keys
    && (forall p :: vol.Has(p) ==> vol'.Ptr(p) == if p.f == f then 0 else vol.Ptr(p))
    && (forall b: u32 :: sb.IsDataZone(b) ==>
          (sb.ZoneBit(vol'.v, b - sb.firstDatazone) <==>
           sb.ZoneBit(vol.v, b - sb.firstDatazone) && !(b in own && own[b].f == f)))
    && (forall k: Key :: sb.IsMeta(k) ==> vol'.v[k] == vol.v[k])
    && (forall g: nat, k: nat :: g in vol.zones ==> ByteAt(vol', g, k) == if g == f then 0 else ByteAt(vol, g, k))
  }

  lemma ShedAll(sb: SuperBlock, vol: Vol, v: imap<Key, Block>, own: map<u32, Place>, f: nat)
    requires sb.Layout() && vol.dev == sb.dev && f in vol.zones
    requires Forest(vol, own, sb.firstDatazone, sb.nzones) && Marked(sb, vol.v, own, 0)
    requires Shed(sb, vol.v, v, own, Spread(own, f, 9))
    ensures var vol' := Vol(sb.dev, vol.zones[f := NO_ZONES], v);
            && vol'.Wf() && Forest(vol', Without(own, f), sb.firstDatazone, sb.nzones)
            && Marked(sb, v, Without(own, f), 0) && Shorn(sb, vol, vol', own, f)
  {
    SpreadAll(vol, own, sb.firstDatazone, sb.nzones, f);
    hide SuperBlock.ZoneBit, Spread, ByteAt;
    var vol' := Vol(sb.dev, vol.zones[f := NO_ZONES], v);
    Prune(vol, own, sb.firstDatazone, sb.nzones, f, vol');
  }

  /** A mounted volume: its super block, the zones of all its block-mapped inodes
      (in memory or on disk) and the place that points to each block in use. */
  class Volume {
    const sb: SuperBlock
    ghost var zones: map<nat, seq<u32>>
    ghost var own: map<u32, Place>

    constructor (sb: SuperBlock)
      ensures this.sb == sb && zones == map[] && own == map[]
    {
      this.sb := sb;
      zones, own := map[], map[];
    }

    ghost function Now(): (vol: Vol)
      reads this, sb.cache
    {
      Vol(sb.dev, zones, sb.cache.view)
    }

    ghost predicate Rooted(x: u32)
      reads this, sb, sb.cache.Repr()
    {
      && this !in sb.cache.Repr()
      && sb.Valid()
      && Now().Wf() && Forest(Now(), own, sb.firstDatazone, sb.nzones)
      && Marked(sb, Now().v, own, x)
    }

    ghost predicate Valid()
      reads this, sb, sb.cache.Repr()
      ensures Valid() ==> sb.Valid() && Now().Wf() && this !in sb.cache.Repr()
    {
      Rooted(0)
    }

    ghost predicate Full()
      requires sb.Valid()
      reads this, sb, sb.cache.Repr()
    {
      sb.Exhausted(sb.cache.view, sb.pos)
    }

    /** m is a copy in memory, with its zones, of one of the volume's inodes. */
    ghost predicate Loaded(m: MemInode)
      reads this, m
    {
      m.num in zones && m.dev == sb.dev && m.valid && m.zone == zones[m.num]
    }

    /** The bitmap marks exactly the blocks that some place of some file points to, and no two places point to
        the same block. */
    lemma EachBlockOnce()
      requires Valid()
      ensures forall b: u32 :: sb.IsDataZone(b) ==>
                (sb.ZoneBit(sb.cache.view, b - sb.firstDatazone) <==> exists p :: Now().Has(p) && Now().Ptr(p) == b)
      ensures forall p, q :: Now().Has(p) && Now().Has(q) && Now().Ptr(p) == Now().Ptr(q) != 0 ==> p == q
      ensures forall p :: Now().Has(p) && Now().Ptr(p) != 0 ==> sb.firstDatazone <= Now().Ptr(p) < sb.nzones
    {
      hide SuperBlock.Valid, SuperBlock.ZoneBit, Vol.Ptr, Vol.Has;
      ghost var vol := Now();
      forall b: u32 | sb.IsDataZone(b)
        ensures sb.ZoneBit(sb.cache.view, b - sb.firstDatazone) <==> exists p :: vol.Has(p) && vol.Ptr(p) == b
      {
        if b in own {
          assert vol.Has(own[b]) && vol.Ptr(own[b]) == b;
        }
      }
    }

    /** new_block: a fresh block that no file points to yet. */
    method Claim() returns (b: u32)
      requires Rooted(0) && sb.Roomy(1)
      modifies sb.cache.Repr(), sb`pos
      ensures Rooted(b) && sb.cache.pins == old(sb.cache.pins)
      ensures b == 0 ==> sb.cache.view == old(sb.cache.view) && sb.pos == old(sb.pos) && Full()
      ensures b != 0 ==> b !in own && sb.IsDataZone(b) && Now().Blk(b) == ZERO_BLOCK
      ensures b != 0 ==> sb.ZoneBit(sb.cache.view, b - sb.firstDatazone)
      ensures forall c :: c in own ==> Now().Blk(c) == old(Now()).Blk(c)
      ensures forall k: Key :: sb.IsMeta(k) ==> sb.cache.view[k] == old(sb.cache.view)[k]
    {
      hide SuperBlock.Valid, SuperBlock.Eligible, SuperBlock.ZoneBit, SuperBlock.Exhausted, Forest;
      ghost var vol := Now();
      OwnRange(vol, own, sb.firstDatazone, sb.nzones);
      b := sb.NewBlock();
      if b != 0 {
        assert b !in own;
        assert forall c :: c in own ==> Now().Blk(c) == vol.Blk(c);
        ForestFrame(vol, own, sb.firstDatazone, sb.nzones, Now());
      }
    }

    /** A fresh block for an empty zone of the inode. */
    method GrowZone(m: MemInode, i: nat) returns (b: u32)
      requires Valid() && Loaded(m) && i < 9 && m.zone[i] == 0 && sb.Roomy(1)
      modifies sb.cache.Repr(), sb`pos, m`zone, this`zones, this`own
      ensures Valid() && Loaded(m) && sb.cache.pins == old(sb.cache.pins)
      ensures Grown(old(Now()), Now(), Zone(m.num, i)) && Now().Ptr(Zone(m.num, i)) == b
      ensures m.zone == old(m.zone)[i := b] && zones == old(zones)[m.num := m.zone]
      ensures b == 0 ==> Full() && sb.pos == old(sb.pos) && sb.cache.view == old(sb.cache.view)
      ensures b != 0 ==> sb.IsDataZone(b) && Now().Blk(b) == ZERO_BLOCK
      ensures forall k: Key :: sb.IsMeta(k) ==> sb.cache.view[k] == old(sb.cache.view)[k]
    {
      hide SuperBlock.Valid, SuperBlock.ZoneBit, SuperBlock.Exhausted, Forest, Grown;
      ghost var vol, p := Now(), Zone(m.num, i);
      var z := m.zone;
      b := Claim();
      if b == 0 {
        GrownSelf(vol, p);
        assert z[i := b] == z && zones[m.num := z] == zones;
        return;
      }
      Planted(vol, own, sb.firstDatazone, sb.nzones, Now(), p, b);
      m.zone := z[i := b];
      zones := zones[m.num := m.zone];
      own := own[b := p];
    }

    /** Place p is entry i of block c and empty; b is a zeroed block for it, marked already. */
    ghost predicate Plantable(c: u32, i: nat, b: u32, p: Place, vol: Vol)
      reads this, sb, sb.cache.Repr()
    {
      && Rooted(b) && b != 0 && b !in own && sb.IsDataZone(b) && Now().Blk(b) == ZERO_BLOCK
      && Marked(sb, Now().v, own[b := p], 0)
      && Forest(vol, own, sb.firstDatazone, sb.nzones) && vol == Vol(sb.dev, zones, vol.v)
      && (forall x :: x in own ==> Now().Blk(x) == vol.Blk(x))
      && vol.Has(p) && !p.Zone? && p.Index() == i && vol.Ptr(p.Parent()) == c != 0 && vol.Ptr(p) == 0
    }

    /** A fresh block number is stored in an empty entry of block c. */
    method PlantEntry(bh: int, c: u32, i: nat, b: u32, ghost p: Place, ghost vol: Vol)
      requires Plantable(c, i, b, p, vol)
      requires Holds(sb.cache.pins, Key(sb.dev, c), bh) && sb.IsDataZone(c)
      modifies sb.cache.bh, sb.cache`view, sb.cache`pins, this`own
      ensures Valid() && sb.cache.pins == old(sb.cache.pins)
      ensures Grown(vol, Now(), p) && Now().Ptr(p) == b
      ensures forall k: Key :: sb.IsMeta(k) ==> sb.cache.view[k] == old(sb.cache.view)[k]
    {
      hide SuperBlock.Valid, SuperBlock.ZoneBit, Forest, Grown;
      ghost var vol1 := Now();
      Planted(vol, own, sb.firstDatazone, sb.nzones, vol1, p, b);
      sb.ZoneData(bh, c);
      sb.StoreZone(bh, c, SetWord(sb.cache.bh[bh].data, i, b));
      own := own[b := p];
      assert Now() == vol1.Put(p, b);
    }

    /** A fresh block for an empty entry of the pointer block c. */
    method GrowEntry(bh: int, c: u32, i: nat, ghost p: Place) returns (b: u32)
      requires Valid() && Now().Has(p) && !p.Zone? && p.Index() == i
      requires Now().Ptr(p.Parent()) == c != 0 && Now().Ptr(p) == 0
      requires Holds(sb.cache.pins, Key(sb.dev, c), bh) && sb.Roomy(1)
      modifies sb.cache.Repr(), sb`pos, this`own
      ensures Valid() && sb.cache.pins == old(sb.cache.pins)
      ensures Grown(old(Now()), Now(), p) && Now().Ptr(p) == b && Now().Ptr(p.Parent()) == c
      ensures b == 0 ==> Full()
      ensures forall k: Key :: sb.IsMeta(k) ==> sb.cache.view[k] == old(sb.cache.view)[k]
    {
      hide SuperBlock.Valid, SuperBlock.ZoneBit, SuperBlock.Exhausted, Forest, Grown, Marked, Room;
      ghost var vol := Now();
      Owned(vol, own, sb.firstDatazone, sb.nzones, p.Parent());
      b := Claim();
      if b == 0 {
        GrownSelf(vol, p);
        return;
      }
      MarkedOne(sb, Now().v, own, b, p);
      PlantEntry(bh, c, i, b, p, vol);
      GrownParent(vol, Now(), p);
    }

    /** What _bmap promises for the place p of the block asked for: blk is what is
        now kept there; looking up changes nothing; creating changes no byte of any
        file and no other data block. */
    twostate predicate BmapDone(m: MemInode, p: Place, crt: bool, blk: u32, created: bool)
      reads this, sb, sb.cache.Repr(), m
    {
      && Valid() && Loaded(m) && sb.cache.pins == old(sb.cache.pins)
      && zones == old(zones)[m.num := m.zone]
      && Mapped(old(Now()), Now(), p) && Now().Has(p) && blk == Now().Ptr(p)
      && (!crt ==> Now() == old(Now()))
      && (created <==> crt && blk != 0 && old(Now()).Ptr(p) == 0)
      && m.dirt == (old(m.dirt) || m.zone != old(m.zone))
      && (crt && blk == 0 ==> Full())
      && (forall k: Key :: sb.IsMeta(k) ==> sb.cache.view[k] == old(sb.cache.view)[k])
    }

    /** The direct blocks (fs/inode.c:192-201). */
    method BmapDirect(m: MemInode, n: nat, crt: bool) returns (blk: u32, created: bool)
      requires Valid() && Loaded(m) && n < 7 && sb.Roomy(2)
      modifies sb.cache.Repr(), sb`pos, m`zone, m`dirt, this`zones, this`own
      ensures BmapDone(m, PlaceOf(m.num, n), crt, blk, created)
    {
      hide SuperBlock.Valid, SuperBlock.ZoneBit, SuperBlock.Exhausted, Forest, Grown, Mapped;
      created := false;
      ghost var vol, p := Now(), Zone(m.num, n);
      MappedSelf(vol, p);
      if crt && m.zone[n] == 0 {
        var b := GrowZone(m, n);
        if b != 0 {
          created := true;
          m.dirt := true;
        }
        GrownIsMapped(vol, Now(), p);
      }
      blk := m.zone[n];
    }

    /** One stage of the walk: read pointer block c, look up entry i, and when it
        is to be created and missing, allocate it (fs/inode.c:210-224). */
    method Entry(c: u32, i: nat, crt: bool, ghost p: Place) returns (blk: u32, made: bool)
      requires Valid() && Now().Has(p) && !p.Zone? && p.Index() == i
      requires Now().Ptr(p.Parent()) == c != 0 && sb.Roomy(2)
      modifies sb.cache.Repr(), sb`pos, this`own
      ensures Valid() && sb.cache.pins == old(sb.cache.pins)
      ensures Grown(old(Now()), Now(), p) && Now().Ptr(p) == blk && Now().Ptr(p.Parent()) == c
      ensures crt && blk == 0 ==> Full()
      ensures !crt || old(Now()).Ptr(p) != 0 ==> Now() == old(Now())
      ensures made <==> crt && blk != 0 && old(Now()).Ptr(p) == 0
      ensures forall k: Key :: sb.IsMeta(k) ==> sb.cache.view[k] == old(sb.cache.view)[k]
    {
      hide SuperBlock.Valid, SuperBlock.ZoneBit, SuperBlock.Exhausted, Forest, Grown;
      ghost var vol, m, k := Now(), sb.cache.pins, Key(sb.dev, c);
      Owned(vol, own, sb.firstDatazone, sb.nzones, p.Parent());
      GrownSelf(vol, p);
      var bh := sb.ReadZone(c);
      PlusRoom(m, sb.cache.bh.Length, 1, k, bh, true);
      sb.ZoneData(bh, c);
      blk, made := Word(sb.cache.bh[bh].data, i), false;
      if crt && blk == 0 {
        blk := GrowEntry(bh, c, i, p);
        made := blk != 0;
      }
      PlusMinus(m, k, bh, true);
      sb.ReleaseZone(bh, c);
    }

    /** The zone a walk starts from, created when asked for (fs/inode.c:204-209). */
    method Root(m: MemInode, i: nat, crt: bool) returns (c: u32)
      requires Valid() && Loaded(m) && 7 <= i < 9 && sb.Roomy(2)
      modifies sb.cache.Repr(), sb`pos, m`zone, m`dirt, this`zones, this`own
      ensures Valid() && Loaded(m) && sb.cache.pins == old(sb.cache.pins)
      ensures zones == old(zones)[m.num := m.zone]
      ensures Grown(old(Now()), Now(), Zone(m.num, i)) && Now().Ptr(Zone(m.num, i)) == c
      ensures !crt || old(Now()).Ptr(Zone(m.num, i)) != 0 ==> Now() == old(Now())
      ensures m.dirt == (old(m.dirt) || m.zone != old(m.zone))
      ensures crt && c == 0 ==> Full()
      ensures forall k: Key :: sb.IsMeta(k) ==> sb.cache.view[k] == old(sb.cache.view)[k]
    {
      hide SuperBlock.Valid, SuperBlock.ZoneBit, SuperBlock.Exhausted, Forest, Grown;
      GrownSelf(Now(), Zone(m.num, i));
      if crt && m.zone[i] == 0 {
        var b := GrowZone(m, i);
        if b != 0 {
          m.dirt := true;
        }
      }
      c := m.zone[i];
    }

    /** The indirect blocks (fs/inode.c:202-226). */
    method BmapInd(m: MemInode, n: nat, crt: bool) returns (blk: u32, created: bool)
      requires Valid() && Loaded(m) && n < NR_BLK_OBJS && sb.Roomy(2)
      modifies sb.cache.Repr(), sb`pos, m`zone, m`dirt, this`zones, this`own
      ensures BmapDone(m, Ind(m.num, n), crt, blk, created)
    {
      hide SuperBlock.Valid, SuperBlock.ZoneBit, SuperBlock.Exhausted, Forest, Grown, Mapped;
      blk, created := 0, false;
      ghost var vol, r, p := Now(), Zone(m.num, 7), Ind(m.num, n);
      var c := Root(m, 7, crt);
      ghost var vol1 := Now();
      MappedSelf(vol1, p);
      if c != 0 {
        blk, created := Entry(c, n, crt, p);
        GrownIsMapped(vol1, Now(), p);
      }
      GrownThenMapped(vol, vol1, Now(), r, p);
    }

    /** Both stages below double-indirect block c (fs/inode.c:236-257). */
    method Entry2(c: u32, i: nat, j: nat, crt: bool, ghost f: nat) returns (blk: u32, made: bool)
      requires Valid() && Now().Has(Leaf(f, i, j)) && Now().Ptr(Zone(f, 8)) == c != 0 && sb.Roomy(2)
      modifies sb.cache.Repr(), sb`pos, this`own
      ensures Valid() && sb.cache.pins == old(sb.cache.pins)
      ensures Mapped(old(Now()), Now(), Leaf(f, i, j)) && Now().Ptr(Leaf(f, i, j)) == blk
      ensures crt && blk == 0 ==> Full()
      ensures !crt ==> Now() == old(Now())
      ensures made <==> crt && blk != 0 && old(Now()).Ptr(Leaf(f, i, j)) == 0
      ensures forall k: Key :: sb.IsMeta(k) ==> sb.cache.view[k] == old(sb.cache.view)[k]
    {
      hide SuperBlock.Valid, SuperBlock.ZoneBit, SuperBlock.Exhausted, Forest, Grown, Mapped;
      blk, made := 0, false;
      ghost var vol, q, p := Now(), Tbl(f, i), Leaf(f, i, j);
      var t, tMade := Entry(c, i, crt, q);
      ghost var vol1 := Now();
      MappedSelf(vol1, p);
      if t != 0 {
        blk, made := Entry(t, j, crt, p);
        GrownIsMapped(vol1, Now(), p);
      }
      GrownThenMapped(vol, vol1, Now(), q, p);
    }

    /** The double-indirect blocks (fs/inode.c:227-257). */
    method BmapDind(m: MemInode, n: nat, crt: bool) returns (blk: u32, created: bool)
      requires Valid() && Loaded(m) && n < NR_BLK_OBJS * NR_BLK_OBJS && sb.Roomy(2)
      modifies sb.cache.Repr(), sb`pos, m`zone, m`dirt, this`zones, this`own
      ensures BmapDone(m, Leaf(m.num, n / NR_BLK_OBJS, n % NR_BLK_OBJS), crt, blk, created)
    {
      hide SuperBlock.Valid, SuperBlock.ZoneBit, SuperBlock.Exhausted, Forest, Grown, Mapped;
      blk, created := 0, false;
      ghost var vol, r, p := Now(), Zone(m.num, 8), Leaf(m.num, n / NR_BLK_OBJS, n % NR_BLK_OBJS);
      var c := Root(m, 8, crt);
      ghost var vol1 := Now();
      MappedSelf(vol1, p);
      if c != 0 {
        blk, created := Entry2(c, n / NR_BLK_OBJS, n % NR_BLK_OBJS, crt, m.num);
      }
      GrownThenMapped(vol, vol1, Now(), r, p);
    }

    /** fs/inode.c:181. The source stops the system on a block number beyond
        the map. */
    method BmapOrCreate(m: MemInode, n: nat, crt: bool) returns (blk: u32, created: bool)
      requires Valid() && Loaded(m) && n < NR_FILE_BLKS && sb.Roomy(2)
      modifies sb.cache.Repr(), sb`pos, m`zone, m`dirt, this`zones, this`own
      ensures BmapDone(m, PlaceOf(m.num, n), crt, blk, created)
    {
      hide BmapDone, Volume.Rooted, SuperBlock.Valid, SuperBlock.Roomy, Volume.Loaded, Vol.Ptr, Forest;
      if n < 7 {
        blk, created := BmapDirect(m, n, crt);
      } else if n - 7 < NR_BLK_OBJS {
        blk, created := BmapInd(m, n - 7, crt);
      } else {
        blk, created := BmapDind(m, n - 7 - NR_BLK_OBJS, crt);
      }
    }

    /** fs/inode.c:260 */
    method Bmap(m: MemInode, n: nat) returns (blk: u32)
      requires Valid() && Loaded(m) && n < NR_FILE_BLKS && sb.Roomy(2)
      modifies sb.cache.Repr(), sb`pos, m`zone, m`dirt, this`zones, this`own
      ensures BmapDone(m, PlaceOf(m.num, n), false, blk, false)
      ensures n < 7 ==> blk == zones[m.num][n]
      ensures 7 <= n < 1031 ==>
                blk == var c := zones[m.num][7]; if c == 0 then 0 else Word(sb.cache.view[Key(sb.dev, c)], n - 7)
      ensures n >= 1031 ==>
                blk == (var c := zones[m.num][8];
                        var t := if c == 0 then 0 else Word(sb.cache.view[Key(sb.dev, c)], (n - 1031) / 1024);
                        if t == 0 then 0 else Word(sb.cache.view[Key(sb.dev, t)], (n - 1031) % 1024))
    {
      var created;
      blk, created := BmapOrCreate(m, n, false);
      PtrWords(Now(), m.num, n);
    }

    /** fs/inode.c:266 */
    method CreateBlock(m: MemInode, n: nat) returns (blk: u32, created: bool)
      requires Valid() && Loaded(m) && n < NR_FILE_BLKS && sb.Roomy(2)
      modifies sb.cache.Repr(), sb`pos, m`zone, m`dirt, this`zones, this`own
      ensures BmapDone(m, PlaceOf(m.num, n), true, blk, created)
      ensures n < 7 ==> blk == zones[m.num][n]
      ensures 7 <= n < 1031 ==>
                blk == var c := zones[m.num][7]; if c == 0 then 0 else Word(sb.cache.view[Key(sb.dev, c)], n - 7)
      ensures n >= 1031 ==>
                blk == (var c := zones[m.num][8];
                        var t := if c == 0 then 0 else Word(sb.cache.view[Key(sb.dev, c)], (n - 1031) / 1024);
                        if t == 0 then 0 else Word(sb.cache.view[Key(sb.dev, t)], (n - 1031) % 1024))
    {
      blk, created := BmapOrCreate(m, n, true);
      PtrWords(Now(), m.num, n);
    }

    // ---- truncation ----

    /** While a file is being freed: of the blocks in use in the starting contents v0
        exactly those in gone are unmarked again, and the others read as then. */
    ghost predicate Shedding(v0: imap<Key, Block>, gone: set<u32>)
      reads this, sb, sb.cache.Repr()
      ensures Shedding(v0, gone) ==> sb.Valid() && this !in sb.cache.Repr()
    {
      && this !in sb.cache.Repr()
      && sb.Valid()
      && Forest(Vol(sb.dev, zones, v0), own, sb.firstDatazone, sb.nzones)
      && Shed(sb, v0, sb.cache.view, own, gone)
    }

    /** None of these blocks is held by anybody. */
    ghost predicate Unheld(s: set<u32>)
      reads sb.cache
    {
      forall b :: b in s ==> Key(sb.dev, b) !in sb.cache.pins
    }

    /** free_block of one more block in use. */
    method FreeOne(b: u32, ghost v0: imap<Key, Block>, ghost gone: set<u32>)
      requires Shedding(v0, gone) && b in own && b !in gone && Key(sb.dev, b) !in sb.cache.pins && sb.Roomy(1)
      modifies sb.cache.Repr()
      ensures Shedding(v0, gone + {b}) && sb.cache.pins == old(sb.cache.pins)
    {
      hide SuperBlock.Valid, SuperBlock.ZoneBit, Forest;
      OwnRange(Vol(sb.dev, zones, v0), own, sb.firstDatazone, sb.nzones);
      sb.FreeBlock(b);
    }

    /** The loop of free_ind over the entries of block c, which is held in slot bh
        (fs/inode.c:286-289). */
    method FreeEntries(bh: int, c: u32, ghost p: Place, ghost v0: imap<Key, Block>, ghost gone: set<u32>)
      requires Shedding(v0, gone) && sb.Roomy(1) && c != 0 && c !in gone
      requires Vol(sb.dev, zones, v0).Has(p) && Vol(sb.dev, zones, v0).Ptr(p) == c && (p == Zone(p.f, 7) || p.Tbl?)
      requires Holds(sb.cache.pins, Key(sb.dev, c), bh)
      requires Kids(own, p, NR_BLK_OBJS) !! gone && Unheld(Kids(own, p, NR_BLK_OBJS))
      modifies sb.cache.Repr()
      ensures Shedding(v0, gone + Kids(own, p, NR_BLK_OBJS)) && sb.cache.pins == old(sb.cache.pins)
    {
      hide SuperBlock.Valid, SuperBlock.ZoneBit, Forest, Kids, Shed, Room;
      ghost var vol, m, lo, hi := Vol(sb.dev, zones, v0), sb.cache.pins, sb.firstDatazone, sb.nzones;
      Owned(vol, own, lo, hi, p);
      KidsNone(own, p);
      assert gone + {} == gone;
      for i := 0 to NR_BLK_OBJS
        invariant Shedding(v0, gone + Kids(own, p, i)) && sb.cache.pins == m
      {
        KidsStep(vol, own, lo, hi, p, i);
        KidsIn(own, p, i, NR_BLK_OBJS);
        KidsNotParent(own, p, i, c);
        ShedRest(sb, v0, sb.cache.view, own, gone + Kids(own, p, i), c);
        sb.ZoneData(bh, c);
        var w := Word(sb.cache.bh[bh].data, i);
        if w != 0 {
          FreeOne(w, v0, gone + Kids(own, p, i));
        }
        assert gone + Kids(own, p, i + 1) == if w != 0 then gone + Kids(own, p, i) + {w} else gone + Kids(own, p, i);
      }
    }

    /** fs/inode.c:276, for the block that place p points to. */
    method FreeInd(c: u32, ghost p: Place, ghost v0: imap<Key, Block>, ghost gone: set<u32>)
      requires Shedding(v0, gone) && sb.Roomy(2)
      requires Vol(sb.dev, zones, v0).Has(p) && Vol(sb.dev, zones, v0).Ptr(p) == c && (p == Zone(p.f, 7) || p.Tbl?)
      requires BelowInd(own, p, c) !! gone && Unheld(BelowInd(own, p, c))
      modifies sb.cache.Repr()
      ensures Shedding(v0, gone + BelowInd(own, p, c)) && sb.cache.pins == old(sb.cache.pins)
      ensures c == 0 ==> sb.cache.view == old(sb.cache.view)
    {
      hide SuperBlock.Valid, SuperBlock.ZoneBit, Forest, Kids, Shed, Room;
      ghost var m, k := sb.cache.pins, Key(sb.dev, c);
      if c == 0 {
        assert gone + {} == gone;
        return;
      }
      RoomLess(m, sb.cache.bh.Length, 2, 1);
      Owned(Vol(sb.dev, zones, v0), own, sb.firstDatazone, sb.nzones, p);
      KidsNotParent(own, p, NR_BLK_OBJS, c);
      var bh := sb.ReadZone(c);
      PlusRoom(m, sb.cache.bh.Length, 1, k, bh, true);
      FreeEntries(bh, c, p, v0, gone);
      PlusMinus(m, k, bh, true);
      sb.ReleaseZone(bh, c);
      FreeOne(c, v0, gone + Kids(own, p, NR_BLK_OBJS));
      assert gone + Kids(own, p, NR_BLK_OBJS) + {c} == gone + BelowInd(own, p, c);
    }

    /** The loop of free_dind over the entries of block c, which is held in slot bh
        (fs/inode.c:304-307). */
    method FreeTables(bh: int, c: u32, ghost f: nat, ghost v0: imap<Key, Block>, ghost gone: set<u32>)
      requires Shedding(v0, gone) && sb.Roomy(2) && c != 0 && c !in gone
      requires f in zones && Vol(sb.dev, zones, v0).Ptr(Zone(f, 8)) == c
      requires Holds(sb.cache.pins, Key(sb.dev, c), bh)
      requires Grand(own, f, NR_BLK_OBJS) !! gone && Unheld(Grand(own, f, NR_BLK_OBJS))
      modifies sb.cache.Repr()
      ensures Shedding(v0, gone + Grand(own, f, NR_BLK_OBJS)) && sb.cache.pins == old(sb.cache.pins)
    {
      hide SuperBlock.Valid, SuperBlock.ZoneBit, Forest, Grand, Kids, Shed, Room;
      ghost var vol, m, p, lo, hi := Vol(sb.dev, zones, v0), sb.cache.pins, Zone(f, 8), sb.firstDatazone, sb.nzones;
      Owned(vol, own, lo, hi, p);
      GrandNone(own, f);
      assert gone + {} == gone;
      for i := 0 to NR_BLK_OBJS
        invariant Shedding(v0, gone + Grand(own, f, i)) && sb.cache.pins == m
      {
        GrandStep(vol, own, lo, hi, f, i);
        GrandIn(own, f, i, NR_BLK_OBJS);
        GrandNotParent(own, f, i, c);
        ShedRest(sb, v0, sb.cache.view, own, gone + Grand(own, f, i), c);
        sb.ZoneData(bh, c);
        var w := Word(sb.cache.bh[bh].data, i);
        assert w == vol.Ptr(Tbl(f, i));
        if w != 0 {
          FreeInd(w, Tbl(f, i), v0, gone + Grand(own, f, i));
        }
        ghost var below := BelowInd(own, Tbl(f, i), w);
        assert gone + Grand(own, f, i + 1)
            == if w != 0 then gone + Grand(own, f, i) + below else gone + Grand(own, f, i);
      }
    }

    /** fs/inode.c:294 */
    method FreeDind(c: u32, ghost f: nat, ghost v0: imap<Key, Block>, ghost gone: set<u32>)
      requires Shedding(v0, gone) && sb.Roomy(3)
      requires f in zones && Vol(sb.dev, zones, v0).Ptr(Zone(f, 8)) == c
      requires BelowDind(own, f, c) !! gone && Unheld(BelowDind(own, f, c))
      modifies sb.cache.Repr()
      ensures Shedding(v0, gone + BelowDind(own, f, c)) && sb.cache.pins == old(sb.cache.pins)
      ensures c == 0 ==> sb.cache.view == old(sb.cache.view)
    {
      hide SuperBlock.Valid, SuperBlock.ZoneBit, Forest, Grand, BelowDind, Shed;
      ghost var m, k := sb.cache.pins, Key(sb.dev, c);
      if c == 0 {
        DindNone(own, f, gone);
        return;
      }
      DindParts(own, f, c, gone);
      Owned(Vol(sb.dev, zones, v0), own, sb.firstDatazone, sb.nzones, Zone(f, 8));
      GrandNotParent(own, f, NR_BLK_OBJS, c);
      var bh := sb.ReadZone(c);
      PlusRoom(m, sb.cache.bh.Length, 2, k, bh, true);
      FreeTables(bh, c, f, v0, gone);
      PlusMinus(m, k, bh, true);
      sb.ReleaseZone(bh, c);
      FreeOne(c, v0, gone + Grand(own, f, NR_BLK_OBJS));
      DindWhole(own, f, c, gone);
    }

    /** The direct zones (fs/inode.c:319-324). */
    method FreeDirect(m: MemInode, ghost v0: imap<Key, Block>)
      requires Shedding(v0, {}) && Loaded(m) && sb.Roomy(1) && Unheld(Spread(own, m.num, 7))
      modifies sb.cache.Repr(), m`zone
      ensures Shedding(v0, Spread(own, m.num, 7)) && sb.cache.pins == old(sb.cache.pins)
      ensures |m.zone| == 9 && forall x: nat :: x < 9 ==> m.zone[x] == if x < 7 then 0 else zones[m.num][x]
      ensures old(m.zone) == NO_ZONES ==> sb.cache.view == old(sb.cache.view)
    {
      hide SuperBlock.Valid, SuperBlock.ZoneBit, Forest, Spread, Shed;
      ghost var vol, f, lo, hi := Vol(sb.dev, zones, v0), m.num, sb.firstDatazone, sb.nzones;
      SpreadAll(vol, own, lo, hi, f);
      for i := 0 to 7
        invariant Shedding(v0, Spread(own, f, i)) && sb.cache.pins == old(sb.cache.pins)
        invariant |m.zone| == 9 && forall x: nat :: x < 9 ==> m.zone[x] == if x < i then 0 else zones[f][x]
        invariant old(m.zone) == NO_ZONES ==> sb.cache.view == old(sb.cache.view)
      {
        SpreadStep(vol, own, lo, hi, f, i);
        SpreadIn(own, f, i, 7);
        assert vol.Ptr(Zone(f, i)) == m.zone[i];
        Owned(vol, own, lo, hi, Zone(f, i));
        ghost var t := m.zone[i];
        if m.zone[i] != 0 {
          FreeOne(m.zone[i], v0, Spread(own, f, i));
          m.zone := m.zone[i := 0];
        }
        assert Spread(own, f, i + 1) == if t != 0 then Spread(own, f, i) + {t} else Spread(own, f, i);
      }
    }

    /** The frees of clear_iblks (fs/inode.c:319-327). */
    method FreeTree(m: MemInode, ghost vol: Vol)
      requires vol == Vol(sb.dev, zones, vol.v) && Shedding(vol.v, {})
      requires Forest(vol, own, sb.firstDatazone, sb.nzones)
      requires Loaded(m) && sb.Roomy(3) && Unheld(Spread(own, m.num, 9))
      modifies sb.cache.Repr(), m`zone
      ensures Shedding(vol.v, Spread(own, m.num, 9)) && sb.cache.pins == old(sb.cache.pins)
      ensures m.zone == NO_ZONES && (old(m.zone) == NO_ZONES ==> sb.cache.view == old(sb.cache.view))
    {
      hide SuperBlock.Valid, SuperBlock.ZoneBit, Forest, Spread, Shed, Volume.Shedding, BelowInd, BelowDind;
      ghost var f, lo, hi := m.num, sb.firstDatazone, sb.nzones;
      SpreadAll(vol, own, lo, hi, f);
      SpreadIn(own, f, 7, 9);
      SpreadIn(own, f, 8, 9);
      SpreadStep(vol, own, lo, hi, f, 7);
      SpreadStep(vol, own, lo, hi, f, 8);
      FreeDirect(m, vol.v);
      FreeInd(m.zone[7], Zone(f, 7), vol.v, Spread(own, f, 7));
      FreeDind(m.zone[8], f, vol.v, Spread(own, f, 8));
      m.zone := m.zone[7 := 0][8 := 0];
    }

    /** fs/inode.c:311, on a file none of whose blocks is held: exactly its blocks are
        unmarked, and it becomes one hole. */
    method ClearIblks(m: MemInode)
      requires Valid() && sb.Roomy(3) && Unheld(Spread(own, m.num, 9))
      requires FileType(m.mode) == S_IFREG ==> Loaded(m)
      modifies sb.cache.Repr(), m`zone, m`size, this`zones, this`own
      ensures Valid() && (old(Loaded(m)) ==> Loaded(m)) && sb.cache.pins == old(sb.cache.pins)
      ensures if FileType(m.mode) != S_IFREG || FileType(m.mode) == S_IFDIR
              then Now() == old(Now()) && own == old(own) && m.size == old(m.size) && m.zone == old(m.zone)
              else && m.size == 0 && zones == old(zones)[m.num := NO_ZONES] && own == Without(old(own), m.num)
                   && Shorn(sb, old(Now()), Now(), old(own), m.num)
      ensures old(m.zone) == NO_ZONES ==> sb.cache.view == old(sb.cache.view)
    {
      hide SuperBlock.Valid, SuperBlock.ZoneBit, SuperBlock.Roomy, Unheld, Forest, Spread, Shed, Without, Marked, Shorn;
      if FileType(m.mode) != S_IFREG || FileType(m.mode) == S_IFDIR {
        return;
      }
      ghost var vol, f := Now(), m.num;
      ShedNone(sb, vol, own);
      FreeTree(m, vol);
      m.size := 0;
      ShedAll(sb, vol, sb.cache.view, own, f);
      zones := zones[f := NO_ZONES];
      own := Without(own, f);
    }
  }
}
