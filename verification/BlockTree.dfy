/** The block map of files on values: nine zone pointers per inode, seven direct,
    one to a block of pointers and one to a block of pointers to such blocks
    (fs/inode.c:181-258). */
module BlockTrees {
  import opened Bytes
  import opened BufferCaches

  const NR_DIRECT := 7
  const NR_FILE_BLKS := 7 + 1024 + 1024 * 1024

  /** A place where a block number is kept: a zone of inode f, an entry of its
      indirect block, of its double-indirect block, or of a block the latter
      points to. */
  datatype Place = Zone(f: nat, i: nat) | Ind(f: nat, i: nat) | Tbl(f: nat, i: nat) | Leaf(f: nat, i: nat, j: nat)
  {
    /** Places that hold file data rather than more pointers. */
    predicate Data() {
      (Zone? && i < NR_DIRECT) || Ind? || Leaf?
    }

    /** Where the block that contains this place is pointed to. */
    function Parent(): Place
      requires !Zone?
    {
      match this
      case Ind(f, _) => Zone(f, 7)
      case Tbl(f, _) => Zone(f, 8)
      case Leaf(f, i, _) => Tbl(f, i)
    }

    function Index(): nat {
      if Leaf? then j else i
    }
  }

  /** The zones of all inodes of a volume and the contents of its blocks. */
  datatype Vol = Vol(dev: u16, zones: map<nat, seq<u32>>, v: imap<Key, Block>)
  {
    ghost predicate Wf() {
      && (forall f :: f in zones ==> |zones[f]| == 9)
      && (forall k :: k in v)
    }

    ghost function Blk(b: u32): Block
      requires Wf()
    {
      v[Key(dev, b)]
    }

    predicate Has(p: Place) {
      p.f in zones &&
      match p
      case Zone(_, i) => i < 9
      case Ind(_, i) => i < NR_BLK_OBJS
      case Tbl(_, i) => i < NR_BLK_OBJS
      case Leaf(_, i, j) => i < NR_BLK_OBJS && j < NR_BLK_OBJS
    }

    /** The block number kept in place p; 0 also when p's own block is missing. */
    ghost function Ptr(p: Place): (b: u32)
      requires Wf() && Has(p)
      decreases if p.Zone? then 0 else if p.Leaf? then 2 else 1
    {
      if p.Zone? then zones[p.f][p.i]
      else var c := Ptr(p.Parent()); if c == 0 then 0 else Word(Blk(c), p.Index())
    }

    /** The volume after block number b is stored in place p. */
    ghost function Put(p: Place, b: u32): (r: Vol)
      requires Wf() && Has(p)
      ensures r.Wf() && r.dev == dev && r.zones.Keys == zones.Keys
    {
      if p.Zone? then var z: seq<u32> := zones[p.f][p.i := b]; this.(zones := zones[p.f := z])
      else var c := Ptr(p.Parent()); this.(v := v[Key(dev, c) := SetWord(Blk(c), p.Index(), b)])
    }
  }

  /** The place of block n of file f. */
  function PlaceOf(f: nat, n: nat): (p: Place)
    requires n < NR_FILE_BLKS
    ensures p.Data() && p.f == f
  {
    if n < 7 then Zone(f, n)
    else if n < 7 + 1024 then Ind(f, n - 7)
    else Leaf(f, (n - 1031) / 1024, (n - 1031) % 1024)
  }

  /** The file position of offset off in block blk. */
  function Pos(blk: nat, off: nat): (k: nat) {
    blk * BLK_SIZE + off
  }

  /** Different blocks of a file have different places. */
  lemma PlaceOfInjective(f: nat, n: nat, g: nat, m: nat)
    requires n < NR_FILE_BLKS && m < NR_FILE_BLKS && PlaceOf(f, n) == PlaceOf(g, m)
    ensures f == g && n == m
  {
  }

  /** Which words of which blocks lead to block n of file f. */
  lemma PtrWords(vol: Vol, f: nat, n: nat)
    requires vol.Wf() && f in vol.zones && n < NR_FILE_BLKS
    ensures n < 7 ==> vol.Ptr(PlaceOf(f, n)) == vol.zones[f][n]
    ensures 7 <= n < 1031 ==>
              vol.Ptr(PlaceOf(f, n)) == var c := vol.zones[f][7];
                if c == 0 then 0 else Word(vol.v[Key(vol.dev, c)], n - 7)
    ensures n >= 1031 ==>
              vol.Ptr(PlaceOf(f, n)) ==
                (var c := vol.zones[f][8];
                 var t := if c == 0 then 0 else Word(vol.v[Key(vol.dev, c)], (n - 1031) / 1024);
                 if t == 0 then 0 else Word(vol.v[Key(vol.dev, t)], (n - 1031) % 1024))
  {
    if n >= 1031 {
      assert vol.Ptr(Tbl(f, (n - 1031) / 1024)) ==
             var c := vol.zones[f][8]; if c == 0 then 0 else Word(vol.v[Key(vol.dev, c)], (n - 1031) / 1024);
    }
  }

  /** Byte k of file f; holes, and what lies beyond the map, read as zero. */
  ghost function ByteAt(vol: Vol, f: nat, k: nat): (x: byte)
    requires vol.Wf() && f in vol.zones
  {
    if k / BLK_SIZE >= NR_FILE_BLKS then 0 else
      var b := vol.Ptr(PlaceOf(f, k / BLK_SIZE));
      if b == 0 then 0 else vol.Blk(b)[k % BLK_SIZE]
  }

  /** Which byte of which block that is. */
  lemma ByteWords(vol: Vol, f: nat, k: nat)
    requires vol.Wf() && f in vol.zones
    ensures k >= 0x1000 * (7 + 0x400 + 0x10_0000) ==> ByteAt(vol, f, k) == 0
    ensures k < 0x1000 * (7 + 0x400 + 0x10_0000) ==>
              ByteAt(vol, f, k) ==
                (var n := k / 0x1000;
                 var c, d := vol.zones[f][7], vol.zones[f][8];
                 var t := if n < 1031 || d == 0 then 0 else Word(vol.v[Key(vol.dev, d)], (n - 1031) / 1024);
                 var b := if n < 7 then vol.zones[f][n]
                          else if n < 1031 then if c == 0 then 0 else Word(vol.v[Key(vol.dev, c)], n - 7)
                          else if t == 0 then 0 else Word(vol.v[Key(vol.dev, t)], (n - 1031) % 1024);
                 if b == 0 then 0 else vol.v[Key(vol.dev, b)][k % 0x1000])
  {
    if k / 0x1000 < NR_FILE_BLKS {
      PtrWords(vol, f, k / 0x1000);
    }
  }

  ghost predicate SameBytes(vol: Vol, vol': Vol)
    requires vol.Wf() && vol'.Wf()
  {
    vol'.zones.Keys == vol.zones.Keys &&
    forall f: nat, k: nat :: f in vol.zones ==> ByteAt(vol', f, k) == ByteAt(vol, f, k)
  }

  // ---- the forest invariant ----

  /** own finds the one place that points to a block: so all non-zero pointers of
      all files are different, and they lie in [lo, hi). */
  ghost predicate Forest(vol: Vol, own: map<u32, Place>, lo: nat, hi: nat) {
    && vol.Wf() && lo > 0
    && (forall p :: vol.Has(p) && vol.Ptr(p) != 0 ==> vol.Ptr(p) in own && own[vol.Ptr(p)] == p)
    && (forall b :: b in own ==> lo <= b < hi && vol.Has(own[b]) && vol.Ptr(own[b]) == b)
  }

  /** What no place points to has no bearing on the pointers. */
  lemma ForestFrame(vol: Vol, own: map<u32, Place>, lo: nat, hi: nat, vol': Vol)
    requires Forest(vol, own, lo, hi) && vol'.Wf() && vol'.dev == vol.dev && vol'.zones == vol.zones
    requires forall b :: b in own && !own[b].Data() ==> vol'.Blk(b) == vol.Blk(b)
    ensures Forest(vol', own, lo, hi)
    ensures forall p :: vol.Has(p) ==> vol'.Ptr(p) == vol.Ptr(p)
  {
    forall p | vol.Has(p) ensures vol'.Ptr(p) == vol.Ptr(p) {
      PtrFrame(vol, own, lo, hi, vol', p);
    }
  }

  lemma PtrFrame(vol: Vol, own: map<u32, Place>, lo: nat, hi: nat, vol': Vol, p: Place)
    requires Forest(vol, own, lo, hi) && vol'.Wf() && vol'.dev == vol.dev && vol'.zones == vol.zones
    requires forall b :: b in own && !own[b].Data() ==> vol'.Blk(b) == vol.Blk(b)
    requires vol.Has(p)
    ensures vol'.Ptr(p) == vol.Ptr(p)
    decreases if p.Zone? then 0 else if p.Leaf? then 2 else 1
  {
    if !p.Zone? {
      PtrFrame(vol, own, lo, hi, vol', p.Parent());
    }
  }

  /** Storing a fresh zero block in an empty place of an existing container gives
      that place its block and changes no other pointer. */
  lemma Graft(vol: Vol, own: map<u32, Place>, lo: nat, hi: nat, p: Place, b: u32)
    requires Forest(vol, own, lo, hi) && vol.Has(p) && vol.Ptr(p) == 0
    requires p.Zone? || vol.Ptr(p.Parent()) != 0
    requires b !in own && lo <= b < hi && vol.Blk(b) == ZERO_BLOCK
    ensures vol.Put(p, b).Ptr(p) == b
    ensures forall q :: vol.Has(q) && q != p ==> vol.Put(p, b).Ptr(q) == vol.Ptr(q)
    ensures Forest(vol.Put(p, b), own[b := p], lo, hi)
  {
    hide Vol.Ptr;
    forall q | vol.Has(q) ensures vol.Put(p, b).Ptr(q) == if q == p then b else vol.Ptr(q) {
      GraftPtr(vol, own, lo, hi, p, b, q);
    }
    GraftedForest(vol, own, lo, hi, p, b, vol.Put(p, b));
  }

  lemma GraftedForest(vol: Vol, own: map<u32, Place>, lo: nat, hi: nat, p: Place, b: u32, vol': Vol)
    requires Forest(vol, own, lo, hi) && vol.Has(p) && vol.Ptr(p) == 0 && b !in own && lo <= b < hi
    requires vol'.Wf() && forall q :: vol'.Has(q) <==> vol.Has(q)
    requires forall q :: vol.Has(q) ==> vol'.Ptr(q) == if q == p then b else vol.Ptr(q)
    ensures Forest(vol', own[b := p], lo, hi)
  {
    hide Vol.Ptr, Vol.Has;
  }

  lemma GraftPtr(vol: Vol, own: map<u32, Place>, lo: nat, hi: nat, p: Place, b: u32, q: Place)
    requires Forest(vol, own, lo, hi) && vol.Has(p) && vol.Ptr(p) == 0
    requires p.Zone? || vol.Ptr(p.Parent()) != 0
    requires b !in own && lo <= b < hi && vol.Blk(b) == ZERO_BLOCK
    requires vol.Has(q)
    ensures vol.Put(p, b).Ptr(q) == if q == p then b else vol.Ptr(q)
    decreases if q.Zone? then 0 else if q.Leaf? then 2 else 1
  {
    if !q.Zone? {
      GraftPtr(vol, own, lo, hi, p, b, q.Parent());
      var vol', c := vol.Put(p, b), vol.Ptr(q.Parent());
      if q.Parent() == p {
        ZeroBlockWords(q.Index());
      } else if c != 0 && !p.Zone? && q.Parent() == p.Parent() {
        SetWordReadBack(vol.Blk(c), p.Index(), b, q.Index());
      }
    }
  }

  // ---- file bytes ----

  /** Blocks that are not pointed to have no bearing on any byte. */
  lemma FrameBytes(vol: Vol, own: map<u32, Place>, lo: nat, hi: nat, vol': Vol)
    requires Forest(vol, own, lo, hi) && vol'.Wf() && vol'.dev == vol.dev && vol'.zones == vol.zones
    requires forall b :: b in own ==> vol'.Blk(b) == vol.Blk(b)
    ensures SameBytes(vol, vol')
  {
    ForestFrame(vol, own, lo, hi, vol');
    forall f: nat, k: nat | f in vol.zones ensures ByteAt(vol', f, k) == ByteAt(vol, f, k) {
      if k / BLK_SIZE < NR_FILE_BLKS { Owned(vol, own, lo, hi, PlaceOf(f, k / BLK_SIZE)); }
    }
  }

  lemma Owned(vol: Vol, own: map<u32, Place>, lo: nat, hi: nat, p: Place)
    requires Forest(vol, own, lo, hi) && vol.Has(p)
    ensures vol.Ptr(p) != 0 ==> vol.Ptr(p) in own && own[vol.Ptr(p)] == p && lo <= vol.Ptr(p) < hi
    ensures !p.Zone? && vol.Ptr(p) != 0 ==> vol.Ptr(p.Parent()) != 0
  {
  }

  /** A hole that becomes a zero block, or a new empty block of pointers: no file
      reads differently. */
  lemma GraftBytes(vol: Vol, own: map<u32, Place>, lo: nat, hi: nat, p: Place, b: u32)
    requires Forest(vol, own, lo, hi) && vol.Has(p) && vol.Ptr(p) == 0
    requires p.Zone? || vol.Ptr(p.Parent()) != 0
    requires b !in own && lo <= b < hi && vol.Blk(b) == ZERO_BLOCK
    ensures SameBytes(vol, vol.Put(p, b))
  {
    var vol' := vol.Put(p, b);
    Graft(vol, own, lo, hi, p, b);
    if !p.Zone? { Owned(vol, own, lo, hi, p.Parent()); }
    forall f: nat, k: nat | f in vol.zones ensures ByteAt(vol', f, k) == ByteAt(vol, f, k) {
      if k / BLK_SIZE < NR_FILE_BLKS {
        var q := PlaceOf(f, k / BLK_SIZE);
        Owned(vol, own, lo, hi, q);
        hide Forest;
        if q == p {
          assert vol'.Blk(b) == ZERO_BLOCK;
        } else if vol.Ptr(q) != 0 {
          assert vol'.Blk(vol.Ptr(q)) == vol.Blk(vol.Ptr(q));
        }
      }
    }
  }

  /** Storing d in the block of file f's block n changes those bytes and no other
      byte of any file. */
  lemma StoreBytes(vol: Vol, own: map<u32, Place>, lo: nat, hi: nat, f: nat, n: nat, d: Block)
    requires Forest(vol, own, lo, hi) && f in vol.zones && n < NR_FILE_BLKS && vol.Ptr(PlaceOf(f, n)) != 0
    ensures var vol' := vol.(v := vol.v[Key(vol.dev, vol.Ptr(PlaceOf(f, n))) := d]);
            && Forest(vol', own, lo, hi)
            && (forall p :: vol.Has(p) ==> vol'.Ptr(p) == vol.Ptr(p))
            && (forall g: nat, k: nat :: g in vol.zones ==>
                  ByteAt(vol', g, k) == if g == f && k / BLK_SIZE == n then d[k % BLK_SIZE] else ByteAt(vol, g, k))
  {
    var b := vol.Ptr(PlaceOf(f, n));
    var vol' := vol.(v := vol.v[Key(vol.dev, b) := d]);
    Owned(vol, own, lo, hi, PlaceOf(f, n));
    ForestFrame(vol, own, lo, hi, vol');
    forall g: nat, k: nat | g in vol.zones
      ensures ByteAt(vol', g, k) == if g == f && k / BLK_SIZE == n then d[k % BLK_SIZE] else ByteAt(vol, g, k)
    {
      if k / BLK_SIZE < NR_FILE_BLKS {
        Owned(vol, own, lo, hi, PlaceOf(g, k / BLK_SIZE));
        if PlaceOf(g, k / BLK_SIZE) == PlaceOf(f, n) {
          PlaceOfInjective(g, k / BLK_SIZE, f, n);
        }
      }
    }
  }

  /** From vol to vol' place p may have got a block; no other pointer changed and
      every file reads as before. */
  ghost predicate Grown(vol: Vol, vol': Vol, p: Place) {
    && vol.Wf() && vol'.Wf() && vol'.dev == vol.dev && vol'.zones.Keys == vol.zones.Keys && vol.Has(p)
    && (vol.Ptr(p) != 0 ==> vol'.Ptr(p) == vol.Ptr(p))
    && (forall q :: vol.Has(q) && q != p ==> vol'.Ptr(q) == vol.Ptr(q))
    && SameBytes(vol, vol')
  }

  /** The same when pointer blocks may have been added on the way to place p: the
      data blocks of all files stay, and so does what they read. */
  ghost predicate Mapped(vol: Vol, vol': Vol, p: Place) {
    && vol.Wf() && vol'.Wf() && vol'.dev == vol.dev && vol'.zones.Keys == vol.zones.Keys && vol.Has(p)
    && (vol.Ptr(p) != 0 ==> vol' == vol)
    && (forall q :: vol.Has(q) && q != p && q.Data() ==> vol'.Ptr(q) == vol.Ptr(q))
    && SameBytes(vol, vol')
  }

  /** No block of a file has been moved: where there was one it still is. */
  ghost predicate BlocksStay(vol: Vol, vol': Vol)
    requires vol.Wf() && vol'.Wf()
  {
    vol'.zones.Keys == vol.zones.Keys &&
    forall f: nat, n: nat :: f in vol.zones && n < NR_FILE_BLKS && vol.Ptr(PlaceOf(f, n)) != 0 ==>
      vol'.Ptr(PlaceOf(f, n)) == vol.Ptr(PlaceOf(f, n))
  }

  lemma MappedStay(vol: Vol, vol': Vol, p: Place)
    requires Mapped(vol, vol', p)
    ensures BlocksStay(vol, vol')
  {
    hide SameBytes;
  }

  /** The block of position k of file f is missing. */
  ghost predicate Missing(vol: Vol, f: nat, k: nat) {
    vol.Wf() && f in vol.zones && k / BLK_SIZE < NR_FILE_BLKS && vol.Ptr(PlaceOf(f, k / BLK_SIZE)) == 0
  }

  lemma StillMissing(vol: Vol, vol1: Vol, f: nat, k: nat)
    requires vol.Wf() && vol1.Wf() && BlocksStay(vol, vol1) && Missing(vol1, f, k)
    ensures Missing(vol, f, k)
  {
  }

  lemma BlocksSelf(vol: Vol)
    requires vol.Wf()
    ensures BlocksStay(vol, vol)
  {
  }

  lemma BlocksStayTwice(vol: Vol, vol1: Vol, vol2: Vol)
    requires vol.Wf() && vol1.Wf() && vol2.Wf() && BlocksStay(vol, vol1) && BlocksStay(vol1, vol2)
    ensures BlocksStay(vol, vol2)
  {
  }

  /** Every file but d has the same data blocks and the same bytes. */
  ghost predicate OthersSame(vol: Vol, vol': Vol, d: int)
    requires vol.Wf() && vol'.Wf()
  {
    && (forall g: nat :: g in vol.zones && g != d ==> g in vol'.zones)
    && (forall p :: vol.Has(p) && p.Data() && p.f != d ==> vol'.Ptr(p) == vol.Ptr(p))
    && (forall g: nat, k: nat :: g in vol.zones && g != d ==> ByteAt(vol', g, k) == ByteAt(vol, g, k))
  }

  lemma OthersSameTwice(vol: Vol, vol1: Vol, vol2: Vol, d: int)
    requires vol.Wf() && vol1.Wf() && vol2.Wf() && OthersSame(vol, vol1, d) && OthersSame(vol1, vol2, d)
    ensures OthersSame(vol, vol2, d)
  {
    hide ByteAt;
    forall p | vol.Has(p) && p.Data() && p.f != d ensures vol2.Ptr(p) == vol.Ptr(p) {
      assert vol1.Has(p) && vol1.Ptr(p) == vol.Ptr(p);
    }
    forall g: nat, k: nat | g in vol.zones && g != d ensures ByteAt(vol2, g, k) == ByteAt(vol, g, k) {
      assert ByteAt(vol1, g, k) == ByteAt(vol, g, k);
    }
  }

  /** So has every file but d and f. */
  ghost predicate RestSame(vol: Vol, vol': Vol, d: int, f: int)
    requires vol.Wf() && vol'.Wf()
  {
    && (forall g: nat :: g in vol.zones && g != d && g != f ==> g in vol'.zones)
    && (forall p :: vol.Has(p) && p.Data() && p.f != d && p.f != f ==> vol'.Ptr(p) == vol.Ptr(p))
    && (forall g: nat, k: nat :: g in vol.zones && g != d && g != f ==> ByteAt(vol', g, k) == ByteAt(vol, g, k))
  }

  /** First d changed, then f. */
  lemma OthersThenRest(vol: Vol, vol1: Vol, vol2: Vol, d: int, f: int)
    requires vol.Wf() && vol1.Wf() && vol2.Wf() && OthersSame(vol, vol1, d) && OthersSame(vol1, vol2, f)
    ensures RestSame(vol, vol2, d, f)
  {
    hide ByteAt;
    forall p | vol.Has(p) && p.Data() && p.f != d && p.f != f ensures vol2.Ptr(p) == vol.Ptr(p) {
      assert vol1.Has(p) && vol1.Ptr(p) == vol.Ptr(p);
    }
    forall g: nat, k: nat | g in vol.zones && g != d && g != f ensures ByteAt(vol2, g, k) == ByteAt(vol, g, k) {
      assert ByteAt(vol1, g, k) == ByteAt(vol, g, k);
    }
  }

  lemma RestWiden(vol: Vol, vol': Vol, d: int, f: int)
    requires vol.Wf() && vol'.Wf() && OthersSame(vol, vol', -1)
    ensures RestSame(vol, vol', d, f) && OthersSame(vol, vol', d)
  {
  }

  /** First nothing changed, then d and f. */
  lemma RestThen(vol: Vol, vol1: Vol, vol2: Vol, d: int, f: int)
    requires vol.Wf() && vol1.Wf() && vol2.Wf() && OthersSame(vol, vol1, -1) && RestSame(vol1, vol2, d, f)
    ensures RestSame(vol, vol2, d, f)
  {
    hide ByteAt;
    forall p | vol.Has(p) && p.Data() && p.f != d && p.f != f ensures vol2.Ptr(p) == vol.Ptr(p) {
      assert vol1.Has(p) && vol1.Ptr(p) == vol.Ptr(p);
    }
    forall g: nat, k: nat | g in vol.zones && g != d && g != f ensures ByteAt(vol2, g, k) == ByteAt(vol, g, k) {
      assert ByteAt(vol1, g, k) == ByteAt(vol, g, k);
    }
  }

  /** First d changed, then nothing, or the other way round. */
  lemma OthersAfter(vol: Vol, vol1: Vol, vol2: Vol, d: int)
    requires vol.Wf() && vol1.Wf() && vol2.Wf()
    requires (OthersSame(vol, vol1, d) && OthersSame(vol1, vol2, -1))
             || (OthersSame(vol, vol1, -1) && OthersSame(vol1, vol2, d))
    ensures OthersSame(vol, vol2, d)
  {
    hide OthersSame;
    if OthersSame(vol1, vol2, -1) {
      RestWiden(vol1, vol2, d, -1);
    }
    if OthersSame(vol, vol1, -1) {
      RestWiden(vol, vol1, d, -1);
    }
    OthersSameTwice(vol, vol1, vol2, d);
  }

  /** A file that was not there yet, or no file at all, is no exception. */
  lemma RestIsOthers(vol: Vol, vol': Vol, d: int, f: int)
    requires vol.Wf() && vol'.Wf() && RestSame(vol, vol', d, f)
    ensures f < 0 || f !in vol.zones || f == d ==> OthersSame(vol, vol', d)
  {
    hide ByteAt;
    if f < 0 || f !in vol.zones || f == d {
      forall p | vol.Has(p) && p.Data() && p.f != d ensures vol'.Ptr(p) == vol.Ptr(p) {
        assert p.f in vol.zones;
      }
    }
  }

  lemma MappedOthers(vol: Vol, vol': Vol, p: Place)
    requires Mapped(vol, vol', p)
    ensures OthersSame(vol, vol', p.f)
  {
  }

  lemma OthersSelf(vol: Vol, d: int)
    requires vol.Wf()
    ensures OthersSame(vol, vol, d)
  {
  }

  lemma MappedSelf(vol: Vol, p: Place)
    requires vol.Wf() && vol.Has(p)
    ensures Mapped(vol, vol, p)
  {
  }

  lemma GrownThenMapped(vol: Vol, vol1: Vol, vol2: Vol, r: Place, p: Place)
    requires Grown(vol, vol1, r) && Mapped(vol1, vol2, p) && !r.Data() && vol.Has(p) && p.Data()
    requires vol.Ptr(r) != 0 ==> vol1 == vol
    requires vol.Ptr(r) == 0 ==> vol.Ptr(p) == 0
    ensures Mapped(vol, vol2, p) && vol1.Has(p) && vol1.Ptr(p) == vol.Ptr(p)
  {
    forall q | vol.Has(q) && q != p && q.Data() ensures vol2.Ptr(q) == vol.Ptr(q) {
      assert vol1.Has(q) && vol1.Ptr(q) == vol.Ptr(q);
    }
    forall f: nat, k: nat | f in vol.zones ensures ByteAt(vol2, f, k) == ByteAt(vol, f, k) {
      assert ByteAt(vol1, f, k) == ByteAt(vol, f, k);
    }
  }

  lemma GrownIsMapped(vol: Vol, vol': Vol, p: Place)
    requires Grown(vol, vol', p) && p.Data() && (vol.Ptr(p) != 0 ==> vol' == vol)
    ensures Mapped(vol, vol', p)
  {
  }

  lemma GrownParent(vol: Vol, vol': Vol, p: Place)
    requires Grown(vol, vol', p) && !p.Zone?
    ensures vol'.Ptr(p.Parent()) == vol.Ptr(p.Parent())
  {
  }

  lemma GrownSelf(vol: Vol, p: Place)
    requires vol.Wf() && vol.Has(p)
    ensures Grown(vol, vol, p)
  {
  }

  lemma OwnRange(vol: Vol, own: map<u32, Place>, lo: nat, hi: nat)
    requires Forest(vol, own, lo, hi)
    ensures lo > 0 && forall b :: b in own ==> lo <= b < hi
  {
  }

  /** A block nobody points to was zeroed (vol1) and put into the empty place p. */
  lemma Planted(vol: Vol, own: map<u32, Place>, lo: nat, hi: nat, vol1: Vol, p: Place, b: u32)
    requires Forest(vol, own, lo, hi) && vol.Has(p) && vol.Ptr(p) == 0
    requires p.Zone? || vol.Ptr(p.Parent()) != 0
    requires vol1.Wf() && vol1.dev == vol.dev && vol1.zones == vol.zones
    requires forall c :: c in own ==> vol1.Blk(c) == vol.Blk(c)
    requires b !in own && lo <= b < hi && vol1.Blk(b) == ZERO_BLOCK
    ensures Forest(vol1.Put(p, b), own[b := p], lo, hi)
    ensures Grown(vol, vol1.Put(p, b), p) && vol1.Put(p, b).Ptr(p) == b
    ensures !p.Zone? ==> vol1.Ptr(p.Parent()) == vol.Ptr(p.Parent())
  {
    ForestFrame(vol, own, lo, hi, vol1);
    FrameBytes(vol, own, lo, hi, vol1);
    Graft(vol1, own, lo, hi, p, b);
    GraftBytes(vol1, own, lo, hi, p, b);
    hide Forest;
  }

  // ---- files that come and go ----

  /** Pointers depend on the file's own zones and the blocks. */
  lemma PtrOfFile(vol: Vol, vol': Vol, p: Place)
    requires vol.Wf() && vol'.Wf() && vol'.dev == vol.dev && vol'.v == vol.v
    requires vol.Has(p) && p.f in vol'.zones && vol'.zones[p.f] == vol.zones[p.f]
    ensures vol'.Ptr(p) == vol.Ptr(p)
    decreases if p.Zone? then 0 else if p.Leaf? then 2 else 1
  {
    if !p.Zone? { PtrOfFile(vol, vol', p.Parent()); }
  }

  lemma PtrOfEmpty(vol: Vol, p: Place)
    requires vol.Wf() && vol.Has(p) && vol.zones[p.f] == NO_ZONES
    ensures vol.Ptr(p) == 0
    decreases if p.Zone? then 0 else if p.Leaf? then 2 else 1
  {
    if !p.Zone? { PtrOfEmpty(vol, p.Parent()); }
  }

  /** A new empty file, one hole, joins the volume. */
  lemma Adopt(vol: Vol, own: map<u32, Place>, lo: nat, hi: nat, f: nat)
    requires Forest(vol, own, lo, hi) && f !in vol.zones
    ensures var vol' := vol.(zones := vol.zones[f := NO_ZONES]);
            && Forest(vol', own, lo, hi)
            && (forall p :: vol.Has(p) ==> vol'.Ptr(p) == vol.Ptr(p))
            && (forall g: nat, k: nat :: g in vol'.zones ==>
                 ByteAt(vol', g, k) == if g == f then 0 else ByteAt(vol, g, k))
  {
    var vol' := vol.(zones := vol.zones[f := NO_ZONES]);
    forall p | vol'.Has(p) ensures vol'.Ptr(p) == if p.f == f then 0 else vol.Ptr(p) {
      if p.f == f { PtrOfEmpty(vol', p); } else { PtrOfFile(vol, vol', p); }
    }
  }

  /** A file without blocks leaves the volume. */
  lemma Drop(vol: Vol, own: map<u32, Place>, lo: nat, hi: nat, f: nat)
    requires Forest(vol, own, lo, hi) && f in vol.zones && vol.zones[f] == NO_ZONES
    ensures var vol' := vol.(zones := vol.zones - {f});
            && Forest(vol', own, lo, hi)
            && (forall p :: vol.Has(p) && p.f != f ==> vol'.Ptr(p) == vol.Ptr(p))
            && (forall g: nat, k: nat :: g in vol'.zones ==> ByteAt(vol', g, k) == ByteAt(vol, g, k))
  {
    var vol' := vol.(zones := vol.zones - {f});
    forall p | vol'.Has(p) ensures vol'.Ptr(p) == vol.Ptr(p) {
      PtrOfFile(vol, vol', p);
    }
    forall b | b in own ensures own[b].f != f {
      if own[b].f == f { PtrOfEmpty(vol, own[b]); }
    }
  }

  const NO_ZONES: seq<u32> := [0, 0, 0, 0, 0, 0, 0, 0, 0]

  // ---- truncation ----

  function Without(own: map<u32, Place>, f: nat): map<u32, Place> {
    map b | b in own && own[b].f != f :: own[b]
  }

  /** With inode f's zones cleared, whatever became of its blocks: the rest is a
      forest without them, f is one hole, every other file reads as before. */
  lemma Prune(vol: Vol, own: map<u32, Place>, lo: nat, hi: nat, f: nat, vol': Vol)
    requires Forest(vol, own, lo, hi) && f in vol.zones
    requires vol'.Wf() && vol'.dev == vol.dev && vol'.zones == vol.zones[f := NO_ZONES]
    requires forall b :: b in own && own[b].f != f ==> vol'.Blk(b) == vol.Blk(b)
    ensures Forest(vol', Without(own, f), lo, hi)
    ensures forall p :: vol.Has(p) ==> vol'.Ptr(p) == if p.f == f then 0 else vol.Ptr(p)
    ensures forall g: nat, k: nat :: g in vol.zones ==>
              ByteAt(vol', g, k) == if g == f then 0 else ByteAt(vol, g, k)
  {
    forall p | vol.Has(p) ensures vol'.Ptr(p) == if p.f == f then 0 else vol.Ptr(p) {
      PrunePtr(vol, own, lo, hi, f, vol', p);
    }
    forall g: nat, k: nat | g in vol.zones
      ensures ByteAt(vol', g, k) == if g == f then 0 else ByteAt(vol, g, k)
    {
      if k / BLK_SIZE < NR_FILE_BLKS { Owned(vol, own, lo, hi, PlaceOf(g, k / BLK_SIZE)); }
    }
  }

  lemma PrunePtr(vol: Vol, own: map<u32, Place>, lo: nat, hi: nat, f: nat, vol': Vol, p: Place)
    requires Forest(vol, own, lo, hi) && f in vol.zones && vol.Has(p)
    requires vol'.Wf() && vol'.dev == vol.dev && vol'.zones == vol.zones[f := NO_ZONES]
    requires forall b :: b in own && own[b].f != f ==> vol'.Blk(b) == vol.Blk(b)
    ensures vol'.Ptr(p) == if p.f == f then 0 else vol.Ptr(p)
    decreases if p.Zone? then 0 else if p.Leaf? then 2 else 1
  {
    if !p.Zone? {
      PrunePtr(vol, own, lo, hi, f, vol', p.Parent());
      Owned(vol, own, lo, hi, p.Parent());
    }
  }

  /** The place of entry i in the block that place p points to. */
  function Child(p: Place, i: nat): (q: Place)
    requires p.Tbl? || (p.Zone? && (p.i == 7 || p.i == 8))
    ensures !q.Zone? && q.Parent() == p && q.Index() == i && q.f == p.f
  {
    if p.Tbl? then Leaf(p.f, p.i, i) else if p.i == 7 then Ind(p.f, i) else Tbl(p.f, i)
  }

  /** The blocks in the first n entries of the block that p points to. */
  ghost function Kids(own: map<u32, Place>, p: Place, n: nat): set<u32> {
    set b | b in own && !own[b].Zone? && own[b].Parent() == p && own[b].Index() < n
  }

  /** A block of pointers and the blocks it points to. */
  ghost function BelowInd(own: map<u32, Place>, p: Place, c: u32): set<u32> {
    if c == 0 then {} else {c} + Kids(own, p, NR_BLK_OBJS)
  }

  /** The same and the blocks below them, for the double-indirect block of f. */
  ghost function Grand(own: map<u32, Place>, f: nat, n: nat): set<u32> {
    set b | b in own && own[b].f == f && (own[b].Tbl? || own[b].Leaf?) && own[b].i < n
  }

  ghost function BelowDind(own: map<u32, Place>, f: nat, c: u32): set<u32> {
    if c == 0 then {} else {c} + Grand(own, f, NR_BLK_OBJS)
  }

  lemma DindNone(own: map<u32, Place>, f: nat, gone: set<u32>)
    ensures gone + BelowDind(own, f, 0) == gone
  {
  }

  lemma DindParts(own: map<u32, Place>, f: nat, c: u32, gone: set<u32>)
    requires c != 0 && BelowDind(own, f, c) !! gone
    ensures Grand(own, f, NR_BLK_OBJS) <= BelowDind(own, f, c) && Grand(own, f, NR_BLK_OBJS) !! gone
    ensures c in BelowDind(own, f, c) && c !in gone
  {
    hide Grand;
  }

  lemma DindWhole(own: map<u32, Place>, f: nat, c: u32, gone: set<u32>)
    requires c != 0
    ensures gone + Grand(own, f, NR_BLK_OBJS) + {c} == gone + BelowDind(own, f, c)
  {
    hide Grand;
  }

  /** The blocks that the first n zones of f lead to, at any depth. */
  ghost function Spread(own: map<u32, Place>, f: nat, n: nat): set<u32> {
    set b | b in own && own[b].f == f &&
            (if own[b].Zone? then own[b].i < n else if own[b].Ind? then 7 < n else 8 < n)
  }

  ghost function OneIf(b: u32): set<u32> {
    if b == 0 then {} else {b}
  }

  lemma KidsStep(vol: Vol, own: map<u32, Place>, lo: nat, hi: nat, p: Place, n: nat)
    requires Forest(vol, own, lo, hi) && vol.Has(p) && vol.Ptr(p) != 0 && n < NR_BLK_OBJS
    requires p.Tbl? || (p.Zone? && (p.i == 7 || p.i == 8))
    ensures var w := Word(vol.Blk(vol.Ptr(p)), n);
            && w == vol.Ptr(Child(p, n)) && Kids(own, p, n + 1) == Kids(own, p, n) + OneIf(w)
            && (w != 0 ==> w in own && own[w] == Child(p, n) && w !in Kids(own, p, n))
  {
    var q := Child(p, n);
    var w := vol.Ptr(q);
    assert vol.Has(q) && w == Word(vol.Blk(vol.Ptr(p)), n);
    forall b ensures b in Kids(own, p, n + 1) <==> b in Kids(own, p, n) + OneIf(w) {
      if b in own && !own[b].Zone? && own[b].Parent() == p && own[b].Index() == n {
        assert own[b] == q && vol.Ptr(own[b]) == b;
      }
    }
  }

  lemma KidsNone(own: map<u32, Place>, p: Place)
    ensures Kids(own, p, 0) == {}
  {
  }

  lemma KidsIn(own: map<u32, Place>, p: Place, n: nat, m: nat)
    requires n < m
    ensures Kids(own, p, n) <= Kids(own, p, n + 1) <= Kids(own, p, m)
  {
  }

  lemma KidsNotParent(own: map<u32, Place>, p: Place, n: nat, c: u32)
    requires c in own && own[c] == p
    ensures c !in Kids(own, p, n)
  {
  }

  lemma GrandNone(own: map<u32, Place>, f: nat)
    ensures Grand(own, f, 0) == {}
  {
  }

  lemma GrandIn(own: map<u32, Place>, f: nat, n: nat, m: nat)
    requires n < m
    ensures Grand(own, f, n) <= Grand(own, f, n + 1) <= Grand(own, f, m)
  {
  }

  lemma GrandNotParent(own: map<u32, Place>, f: nat, n: nat, c: u32)
    requires c in own && own[c].Zone?
    ensures c !in Grand(own, f, n)
  {
  }

  lemma GrandStep(vol: Vol, own: map<u32, Place>, lo: nat, hi: nat, f: nat, n: nat)
    requires Forest(vol, own, lo, hi) && f in vol.zones && n < NR_BLK_OBJS
    ensures vol.Wf() && vol.Has(Tbl(f, n))
    ensures var t := vol.Ptr(Tbl(f, n));
            && (vol.Ptr(Zone(f, 8)) != 0 ==> t == Word(vol.Blk(vol.Ptr(Zone(f, 8))), n))
            && Grand(own, f, n + 1) == Grand(own, f, n) + BelowInd(own, Tbl(f, n), t)
            && Grand(own, f, n) !! BelowInd(own, Tbl(f, n), t)
  {
    var q := Tbl(f, n);
    var t := vol.Ptr(q);
    assert vol.Has(q);
    forall b ensures b in Grand(own, f, n + 1) <==>
                     b in Grand(own, f, n) || (t != 0 && (b == t || b in Kids(own, q, NR_BLK_OBJS)))
    {
      if b in own { assert vol.Has(own[b]) && vol.Ptr(own[b]) == b; }
    }
  }

  lemma SpreadStep(vol: Vol, own: map<u32, Place>, lo: nat, hi: nat, f: nat, n: nat)
    requires Forest(vol, own, lo, hi) && f in vol.zones && n < 9
    ensures var t := vol.Ptr(Zone(f, n));
            var s := if n < 7 then OneIf(t) else if n == 7 then BelowInd(own, Zone(f, 7), t)
                     else BelowDind(own, f, t);
            Spread(own, f, n + 1) == Spread(own, f, n) + s && Spread(own, f, n) !! s
  {
    var q := Zone(f, n);
    var t := vol.Ptr(q);
    assert vol.Has(q);
    var s := if n < 7 then OneIf(t) else if n == 7 then BelowInd(own, Zone(f, 7), t) else BelowDind(own, f, t);
    forall b ensures b in Spread(own, f, n + 1) <==> b in Spread(own, f, n) || b in s {
      if b in own {
        assert vol.Has(own[b]) && vol.Ptr(own[b]) == b;
        if own[b].Leaf? { assert vol.Ptr(own[b].Parent()) != 0; }
      }
    }
  }

  lemma SpreadIn(own: map<u32, Place>, f: nat, n: nat, m: nat)
    requires n < m
    ensures Spread(own, f, n) <= Spread(own, f, n + 1) <= Spread(own, f, m)
  {
  }

  lemma SpreadAll(vol: Vol, own: map<u32, Place>, lo: nat, hi: nat, f: nat)
    requires Forest(vol, own, lo, hi)
    ensures vol.Wf() && Spread(own, f, 0) == {}
    ensures forall b :: b in Spread(own, f, 9) <==> b in own && own[b].f == f
  {
    forall b | b in own ensures vol.Has(own[b]) {}
  }
}
