/** Runs of several system calls on one volume (fs/namei.c, fs/frw.c, fs/inode.c): what one call
    leaves behind is what the next one needs, and what holds over the whole run. */
module Runs {
  import opened Bytes
  import opened BufferCaches
  import opened Bitmaps
  import opened BlockTrees
  import opened Inodes
  import opened Directories
  import opened InodeTable
  import opened FileRw
  import opened Namespaces
  import opened RootFs

  /** In vol inode n is marked, and if it is a file with blocks it reads as in vol0. */
  ghost predicate Alive(sb: SuperBlock, vol0: Vol, vol: Vol, n: nat) {
    && sb.Layout() && vol0.Wf() && vol.Wf() && (forall k :: k in vol.v) && n < sb.imapBlocks * BITS_PER_BLK
    && sb.InodeBit(vol.v, n)
    && (n in vol0.zones ==> n in vol.zones && forall k: nat :: ByteAt(vol, n, k) == ByteAt(vol0, n, k))
  }

  lemma StillAlive(ns: Namespace, vol0: Vol, n: nat, d: int, f: int)
    requires ns.Valid(-1) && n in ns.links && n != d && n != f && vol0.Wf() && RestSame(vol0, ns.vol.Now(), d, f)
    ensures Alive(ns.vol.sb, vol0, ns.vol.Now(), n)
  {
    hide SuperBlock.Valid, Forest, AllListed, Counted, Closed, ByteAt, SuperBlock.InodeBit, Recorded, Marked;
  }

  lemma MarkedIff(ns: Namespace, n: nat)
    requires ns.Valid(-1) && n < ns.vol.sb.imapBlocks * BITS_PER_BLK
    ensures ns.vol.sb.InodeBit(ns.vol.sb.cache.view, n) <==> n in ns.links
  {
    hide SuperBlock.Valid, Forest, AllListed, Counted, Closed, SuperBlock.InodeBit, Recorded, Marked;
  }

  // ---- unlink while open ----

  /** The name goes, the file stays. */
  method UnlinkHeldOpen(ns: Namespace, g: MemInode, dir: MemInode, path: seq<byte>, p: nat, len: nat)
    requires ns.Valid(-1) && ns.vol.sb.Roomy(3) && Component(path, p, len)
    requires ns.Linked(g) && g.num !in ns.dirs && g.nlinks == 1 && 0 < g.cnt < 0xFFFF
    requires ns.Linked(dir) && dir.num in ns.dirs && dir.cnt < 0xFFFE && dir.nlinks != 0
    requires Sought(path, p, len) in ns.dirs[dir.num] && ns.dirs[dir.num][Sought(path, p, len)] == g.num
    modifies ns.vol.sb.cache.Repr(), ns.vol.sb`pos, ns.vol`zones, ns.vol`own, ns, g, dir
    ensures ns.Valid(-1) && ns.vol.sb.cache.pins == old(ns.vol.sb.cache.pins)
    ensures ns.Linked(g) && g.nlinks == 0 && g.cnt == old(g.cnt) && ns.Linked(dir) && dir.cnt == old(dir.cnt)
    ensures dir.num in old(ns.dirs) && ns.dirs == WithoutEntry(old(ns.dirs), dir.num, Sought(path, p, len))
    ensures ns.links == old(ns.links)[g.num := 0] && g.num in old(ns.links)
    ensures Alive(ns.vol.sb, old(ns.vol.Now()), ns.vol.Now(), g.num) && g.num !in ns.dirs
    ensures RestSame(old(ns.vol.Now()), ns.vol.Now(), dir.num, -1)
  {
    hide SuperBlock.Valid, Volume.Rooted, AllListed, Counted, Closed, OthersSame, RestSame, InodesMarked, Room,
         Recorded, Namespace.Valid, Namespace.Sound, SuperBlock.InodeBit, ByteAt, Sought, Alive;
    ghost var vol0 := ns.vol.Now();
    var err := ns.DoUnhlink(g, dir, path, p, len);
    StillAlive(ns, vol0, g.num, dir.num, -1);
  }

  /** One of several references goes; with the last one the file does. */
  method PutUnlinked(ns: Namespace, g: MemInode)
    requires ns.Valid(-1) && ns.Linked(g) && g.num !in ns.dirs && g.nlinks == 0 && g.cnt > 0 && ns.vol.sb.Roomy(3)
    modifies ns.vol.sb.cache.Repr(), ns.vol`zones, ns.vol`own, ns`links, ns`known, g
    ensures ns.Valid(-1) && ns.vol.sb.cache.pins == old(ns.vol.sb.cache.pins)
    ensures old(g.cnt) > 1 ==> ns.Linked(g) && g.nlinks == 0 && g.cnt == old(g.cnt) - 1
                               && ns.links == old(ns.links) && ns.vol.Now() == old(ns.vol.Now())
    ensures old(g.cnt) == 1 ==> ns.links == old(ns.links) - {g.num} && g.num !in ns.vol.zones
                                && g.num < ns.vol.sb.imapBlocks * BITS_PER_BLK
                                && !ns.vol.sb.InodeBit(ns.vol.sb.cache.view, g.num)
    ensures KnownKept(old(ns.known), ns.known, g.num, g.num)
    ensures OthersSame(old(ns.vol.Now()), ns.vol.Now(), if old(g.cnt) == 1 then g.num else -1)
  {
    hide SuperBlock.Valid, Volume.Rooted, AllListed, Counted, Closed, OthersSame, InodesMarked, Room, Recorded,
         Namespace.Valid, Namespace.Sound, SuperBlock.InodeBit, BootKept;
    InBitmap(ns, g.num);
    ns.Iput(g, -1);
    MarkedIff(ns, g.num);
  }

  lemma InBitmap(ns: Namespace, n: nat)
    requires ns.Valid(-1) && n in ns.links
    ensures n < ns.vol.sb.imapBlocks * BITS_PER_BLK
  {
    hide SuperBlock.Valid, Forest, AllListed, Counted, Closed, SuperBlock.InodeBit, Recorded, Marked;
  }

  /** The last name of a file goes while references keep it open, then these go one by one. In every
      state before the last (kept) the inode is marked and its bytes are there; then both are gone, and
      no other file but the directory changed. */
  method UnlinkThenClose(ns: Namespace, g: MemInode, dir: MemInode, path: seq<byte>, p: nat, len: nat)
    returns (ghost kept: seq<Vol>)
    requires ns.Valid(-1) && ns.vol.sb.Roomy(3) && Component(path, p, len)
    requires ns.Linked(g) && g.num !in ns.dirs && g.nlinks == 1 && 0 < g.cnt < 0xFFFF
    requires ns.Linked(dir) && dir.num in ns.dirs && dir.cnt < 0xFFFE && dir.nlinks != 0
    requires Sought(path, p, len) in ns.dirs[dir.num] && ns.dirs[dir.num][Sought(path, p, len)] == g.num
    modifies ns.vol.sb.cache.Repr(), ns.vol.sb`pos, ns.vol`zones, ns.vol`own, ns, g, dir
    ensures ns.Valid(-1) && ns.vol.sb.cache.pins == old(ns.vol.sb.cache.pins)
    ensures |kept| == old(g.cnt)
    ensures forall i :: 0 <= i < |kept| ==> Alive(ns.vol.sb, old(ns.vol.Now()), kept[i], g.num)
    ensures ns.links == old(ns.links) - {g.num} && g.num !in ns.vol.zones
    ensures g.num < ns.vol.sb.imapBlocks * BITS_PER_BLK && !ns.vol.sb.InodeBit(ns.vol.sb.cache.view, g.num)
    ensures dir.num in old(ns.dirs) && ns.dirs == WithoutEntry(old(ns.dirs), dir.num, Sought(path, p, len))
    ensures RestSame(old(ns.vol.Now()), ns.vol.Now(), dir.num, g.num)
  {
    hide SuperBlock.Valid, Volume.Rooted, AllListed, Counted, Closed, OthersSame, RestSame, InodesMarked, Room,
         Recorded, Namespace.Valid, Namespace.Sound, SuperBlock.InodeBit, ByteAt, Sought, WithoutEntry, Alive,
         KnownKept;
    ghost var vol0, links0, l := ns.vol.Now(), ns.links, g.cnt;
    UnlinkHeldOpen(ns, g, dir, path, p, len);
    ghost var vol1, dirs1 := ns.vol.Now(), ns.dirs;
    kept := [vol1];
    while g.cnt > 1
      invariant ns.Valid(-1) && ns.vol.sb.cache.pins == old(ns.vol.sb.cache.pins)
      invariant ns.Linked(g) && g.nlinks == 0 && g.cnt > 0 && ns.links == links0[g.num := 0] && ns.dirs == dirs1
      invariant ns.vol.Now() == vol1 && |kept| + g.cnt == l + 1 && forall i :: 0 <= i < |kept| ==> kept[i] == vol1
      decreases g.cnt
    {
      PutUnlinked(ns, g);
      kept := kept + [vol1];
    }
    PutUnlinked(ns, g);
    assert links0[g.num := 0] - {g.num} == links0 - {g.num};
    RestOthers(vol0, vol1, ns.vol.Now(), dir.num, g.num);
  }

  /** First d changed, then f. */
  lemma RestOthers(vol: Vol, vol1: Vol, vol2: Vol, d: int, f: int)
    requires vol.Wf() && vol1.Wf() && vol2.Wf() && RestSame(vol, vol1, d, -1) && OthersSame(vol1, vol2, f)
    ensures RestSame(vol, vol2, d, f)
  {
    RestIsOthers(vol, vol1, d, -1);
    OthersThenRest(vol, vol1, vol2, d, f);
  }

  // ---- write, close, open, read ----

  /** File f has the first n bytes of s from pos on, and no other byte of any file changed. */
  ghost predicate Saved(vol: Vol, vol': Vol, f: nat, pos: nat, s: seq<byte>, n: nat)
    ensures Saved(vol, vol', f, pos, s, n) ==> vol'.Wf() && f in vol'.zones
  {
    && vol.Wf() && vol'.Wf() && f in vol.zones && f in vol'.zones && n <= |s|
    && Overwritten(vol, vol', f, pos, pos, s, n) && OthersSame(vol, vol', f)
  }

  lemma OverwrittenStays(vol: Vol, vol1: Vol, vol2: Vol, f: nat, pos: nat, s: seq<byte>, n: nat)
    requires vol.Wf() && vol1.Wf() && vol2.Wf() && f in vol.zones && n <= |s|
    requires Overwritten(vol, vol1, f, pos, pos, s, n) && OthersSame(vol, vol1, f) && OthersSame(vol1, vol2, -1)
    requires vol2.zones.Keys == vol1.zones.Keys
    ensures Saved(vol, vol2, f, pos, s, n)
  {
    hide ByteAt, LastTo;
    OthersAfter(vol, vol1, vol2, f);
    forall g: nat, k: nat | g in vol.zones ensures ByteAt(vol2, g, k) == ByteAt(vol1, g, k) {}
  }

  lemma DeliveredBefore(vol: Vol, vol1: Vol, f: nat, pos: nat, t: seq<byte>, n: nat)
    requires vol.Wf() && vol1.Wf() && f in vol.zones && f in vol1.zones && OthersSame(vol, vol1, -1)
    requires n <= |t| && Delivered(vol1, f, pos, t, 0, n)
    ensures Delivered(vol, f, pos, t, 0, n)
  {
    hide ByteAt;
  }

  /** file_wr without O_APPEND and the last iput of a file that has a name: the table has its record. */
  method WriteClose(ns: Namespace, m: MemInode, file: File, buf: array<byte>, cnt: int) returns (written: nat)
    requires ns.Valid(-1) && ns.vol.sb.Roomy(3) && ns.Linked(m) && m.num in ns.vol.zones && m.num !in ns.dirs
    requires m.cnt == 1 && m.nlinks != 0 && !file.Append()
    requires cnt <= buf.Length && file.pos + cnt <= MAX_FILE_BYTES && file.pos + cnt < TWO_32
    modifies ns.vol.sb.cache.Repr(), ns.vol.sb`pos, ns.vol`zones, ns.vol`own, ns`links, ns`known, m, file`pos
    ensures ns.Valid(-1) && ns.vol.sb.cache.pins == old(ns.vol.sb.cache.pins) && ns.links == old(ns.links)
    ensures ns.Linked(m) && m.cnt == 0 && !ns.known[m.num].behind && KnownKept(old(ns.known), ns.known, m.num, m.num)
    ensures Saved(old(ns.vol.Now()), ns.vol.Now(), m.num, old(file.pos), buf[..], written) && buf[..] == old(buf[..])
    ensures written <= if cnt < 0 then 0 else cnt
    ensures written < cnt ==> Missing(old(ns.vol.Now()), m.num, old(file.pos) + written)
  {
    hide SuperBlock.Valid, Volume.Rooted, Volume.Full, Missing, AllListed, Counted, Closed, OthersSame, InodesMarked,
         Room, Recorded, Namespace.Valid, Namespace.Sound, Overwritten, BootKept, SuperBlock.Exhausted;
    RoomyLess(ns.vol.sb);
    ghost var vol0, pos := ns.vol.Now(), file.pos;
    written := ns.WriteFile(m, file, buf, cnt);
    ghost var vol1 := ns.vol.Now();
    ns.Iput(m, -1);
    OverwrittenStays(vol0, vol1, ns.vol.Now(), m.num, pos, buf[..], written);
  }

  /** open_namei for reading and file_rd, whatever of the file is still in memory. */
  method OpenRead(ns: Namespace, dir: MemInode, path: seq<byte>, p: nat, len: nat, copy: MemInode?, pos: nat,
                  back: array<byte>, n: nat, ghost f: nat)
    requires ns.Valid(-1) && ns.vol.sb.Roomy(3) && Component(path, p, len) && len != NAME_LEN
    requires ns.Linked(dir) && dir.num in ns.dirs && dir.cnt < 0xFFFE && dir.nlinks != 0 && dir.size + BLK_SIZE < TWO_32
    requires Sought(path, p, len) in ns.dirs[dir.num] && ns.dirs[dir.num][Sought(path, p, len)] == f
    requires ns.Fetched(copy, dir, f) && f in ns.vol.zones && f !in ns.dirs
    requires n <= back.Length && pos + n <= MAX_FILE_BYTES
    modifies ns.vol.sb.cache.Repr(), ns.vol.sb`pos, ns.vol`zones, ns.vol`own, ns, dir, copy, back
    ensures ns.Valid(-1) && ns.vol.sb.cache.pins == old(ns.vol.sb.cache.pins)
    ensures ns.links == old(ns.links) && ns.dirs == old(ns.dirs) && OthersSame(old(ns.vol.Now()), ns.vol.Now(), -1)
    ensures f in old(ns.vol.zones) && Delivered(old(ns.vol.Now()), f, pos, back[..], 0, n)
  {
    hide SuperBlock.Valid, Volume.Rooted, AllListed, Counted, Closed, OthersSame, InodesMarked, Room, Sought,
         Recorded, Namespace.Valid, Namespace.Sound, Delivered, InTableAs, KnownKept, FileType;
    RoomyLess(ns.vol.sb);
    ghost var vol0 := ns.vol.Now();
    var err, r := ns.OpenNamei(dir, path, p, len, Access(false, false, false, false), 0, copy);
    ghost var vol1 := ns.vol.Now();
    StillThere(vol0, vol1, f);
    var file := new File(0);
    file.pos := pos;
    var got := ns.ReadFile(r, file, back, n);
    DeliveredBefore(vol0, vol1, f, pos, back[..], n);
  }

  lemma StillThere(vol: Vol, vol': Vol, f: nat)
    requires vol.Wf() && vol'.Wf() && OthersSame(vol, vol', -1) && f in vol.zones
    ensures f in vol'.zones
  {
  }

  /** What a process writes to a named file and closes is what the next one that opens the file by its
      name reads there, be the inode still in memory or not; no other byte of any file changes. */
  method WriteThenRead(ns: Namespace, m: MemInode, file: File, buf: array<byte>, cnt: nat, dir: MemInode,
                       path: seq<byte>, p: nat, len: nat, cached: bool, back: array<byte>) returns (n: nat)
    requires ns.Valid(-1) && ns.vol.sb.Roomy(3) && ns.Linked(m) && m.num in ns.vol.zones && m.num !in ns.dirs
    requires m.cnt == 1 && m.nlinks != 0 && !file.Append()
    requires cnt <= buf.Length && file.pos + cnt <= MAX_FILE_BYTES && file.pos + cnt < TWO_32
    requires ns.Linked(dir) && dir.num in ns.dirs && dir.cnt < 0xFFFE && dir.nlinks != 0 && dir.size + BLK_SIZE < TWO_32
    requires Component(path, p, len) && len != NAME_LEN
    requires Sought(path, p, len) in ns.dirs[dir.num] && ns.dirs[dir.num][Sought(path, p, len)] == m.num
    requires back != buf && cnt <= back.Length
    modifies ns.vol.sb.cache.Repr(), ns.vol.sb`pos, ns.vol`zones, ns.vol`own, ns, m, dir, file`pos, back
    ensures ns.Valid(-1) && ns.links == old(ns.links) && ns.dirs == old(ns.dirs)
    ensures n <= cnt && (n < cnt ==> Missing(old(ns.vol.Now()), m.num, old(file.pos) + n)) && back[..n] == buf[..n]
    ensures OthersSame(old(ns.vol.Now()), ns.vol.Now(), m.num)
  {
    hide SuperBlock.Valid, Volume.Rooted, Volume.Full, Missing, AllListed, Counted, Closed, OthersSame, InodesMarked,
         Room, Recorded, Namespace.Valid, Namespace.Sound, Overwritten, Component, Sought, Delivered;
    ghost var vol0, pos := ns.vol.Now(), file.pos;
    var at := file.pos;
    n := WriteClose(ns, m, file, buf, cnt);
    ghost var vol1 := ns.vol.Now();
    OpenRead(ns, dir, path, p, len, if cached then m else null, at, back, n, m.num);
    WriteReadBack(vol0, vol1, m.num, pos, buf[..], n, back[..]);
    OthersAfter(vol0, vol1, ns.vol.Now(), m.num);
  }

  /** Directory d of a volume that has just been mounted. */
  method FetchDir(ns: Namespace, d: u32) returns (dir: MemInode)
    requires ns.Valid(-1) && ns.vol.sb.Roomy(3) && d in ns.dirs && ns.Fetchable(null, d)
    modifies ns.vol.sb.cache.Repr()
    ensures fresh(dir) && ns.Valid(-1) && ns.vol.sb.cache.pins == old(ns.vol.sb.cache.pins)
    ensures ns.Linked(dir) && dir.num == d && dir.cnt == 1 && dir.nlinks != 0 && ns.vol.Now() == old(ns.vol.Now())
  {
    hide SuperBlock.Valid, Volume.Rooted, AllListed, Counted, OthersSame, InodesMarked, Room, Recorded;
    assert d in ns.links && ns.links[d] != 0;
    InBitmap(ns, d);
    RoomyOne(ns.vol.sb);
    var r := ns.Iget(d, null, -1);
    dir := r;
  }

  /** sync_blks, another mount of the disk, and the read of a file by its name there. */
  method RemountRead(ns: Namespace, d: u32, path: seq<byte>, p: nat, len: nat, slots: nat, pos: nat, back: array<byte>,
                     n: nat, ghost f: nat) returns (ns': Namespace)
    requires ns.Valid(-1) && Clean(ns) && Geometry(ns) && ns.vol.sb.dev != 0
    requires NR_IMAP_BLKS + NR_ZMAP_BLKS + 3 <= slots < TWO_32
    requires d in ns.dirs && d in ns.known && ns.known[d].rec.size + BLK_SIZE < TWO_32
    requires Component(path, p, len) && len != NAME_LEN && f in ns.known && f in ns.vol.zones && f !in ns.dirs
    requires Sought(path, p, len) in ns.dirs[d] && ns.dirs[d][Sought(path, p, len)] == f
    requires n <= back.Length && pos + n <= MAX_FILE_BYTES
    modifies ns.vol.sb.cache.Repr(), back
    ensures fresh(ns') && ns'.Valid(-1) && ns'.links == old(ns.links) && ns'.dirs == old(ns.dirs)
    ensures Delivered(old(ns.vol.Now()), f, pos, back[..], 0, n)
  {
    hide SuperBlock.Valid, Volume.Rooted, Volume.Full, AllListed, Counted, Closed, OthersSame, InodesMarked, Room,
         Recorded, Namespace.Valid, Namespace.Sound, Component, Sought, Delivered, Geometry, Clean;
    ns' := Remount(ns, slots);
    InKnown(ns', d);
    var dir := FetchDir(ns', d);
    OpenRead(ns', dir, path, p, len, null, pos, back, n, f);
  }

  lemma InKnown(ns: Namespace, d: nat)
    requires ns.Valid(-1) && d in ns.dirs
    ensures d in ns.known
  {
    hide SuperBlock.Valid, Volume.Rooted, AllListed, Counted, InodesMarked;
  }

  lemma SavedReadBack(vol: Vol, vol': Vol, f: nat, pos: nat, s: seq<byte>, n: nat, t: seq<byte>)
    requires Saved(vol, vol', f, pos, s, n) && n <= |t| && Delivered(vol', f, pos, t, 0, n)
    ensures t[..n] == s[..n]
  {
    WriteReadBack(vol, vol', f, pos, s, n, t);
  }

  /** When all other inodes were put before, the table is behind for nobody then. */
  method WriteCloseLast(ns: Namespace, m: MemInode, file: File, buf: array<byte>, cnt: nat, ghost d: nat)
    returns (n: nat)
    requires ns.Valid(-1) && ns.vol.sb.Roomy(3) && ns.Linked(m) && m.num in ns.vol.zones && m.num !in ns.dirs
    requires m.cnt == 1 && m.nlinks != 0 && !file.Append()
    requires cnt <= buf.Length && file.pos + cnt <= MAX_FILE_BYTES && file.pos + cnt < TWO_32
    requires forall x :: x in ns.known && x != m.num ==> !ns.known[x].behind
    requires d in ns.known && d != m.num
    modifies ns.vol.sb.cache.Repr(), ns.vol.sb`pos, ns.vol`zones, ns.vol`own, ns`links, ns`known, m, file`pos
    ensures ns.Valid(-1) && ns.links == old(ns.links) && Clean(ns) && m.num in ns.known
    ensures d in ns.known && ns.known[d] == old(ns.known)[d]
    ensures Saved(old(ns.vol.Now()), ns.vol.Now(), m.num, old(file.pos), buf[..], n) && buf[..] == old(buf[..])
    ensures n <= cnt && (n < cnt ==> Missing(old(ns.vol.Now()), m.num, old(file.pos) + n))
  {
    hide Saved, SuperBlock.Valid, Volume.Rooted, Volume.Full, Missing, AllListed, Counted, Closed, OthersSame,
         InodesMarked, Room, Recorded, Namespace.Valid, Namespace.Sound, Overwritten;
    ns.KnownKeys(-1);
    n := WriteClose(ns, m, file, buf, cnt);
    ns.KnownKeys(-1);
  }

  /** The same over a restart: when all other inodes were put before, what a process wrote and closed is
      there after sync_blks has gone round and the disk has been mounted again by another cache,
      under the same name. */
  method WriteThenRemount(ns: Namespace, m: MemInode, file: File, buf: array<byte>, cnt: nat, d: u32,
                          path: seq<byte>, p: nat, len: nat, slots: nat, back: array<byte>)
    returns (ns': Namespace, n: nat)
    requires ns.Valid(-1) && ns.vol.sb.Roomy(3) && ns.Linked(m) && m.num in ns.vol.zones && m.num !in ns.dirs
    requires m.cnt == 1 && m.nlinks != 0 && !file.Append()
    requires cnt <= buf.Length && file.pos + cnt <= MAX_FILE_BYTES && file.pos + cnt < TWO_32
    requires forall x :: x in ns.known && x != m.num ==> !ns.known[x].behind
    requires Geometry(ns) && ns.vol.sb.dev != 0 && NR_IMAP_BLKS + NR_ZMAP_BLKS + 3 <= slots < TWO_32
    requires d in ns.dirs && d in ns.known && ns.known[d].rec.size + BLK_SIZE < TWO_32
    requires Component(path, p, len) && len != NAME_LEN
    requires Sought(path, p, len) in ns.dirs[d] && ns.dirs[d][Sought(path, p, len)] == m.num
    requires back != buf && cnt <= back.Length
    modifies ns.vol.sb.cache.Repr(), ns.vol.sb`pos, ns.vol`zones, ns.vol`own, ns, m, file`pos, back
    ensures fresh(ns') && ns'.Valid(-1) && ns'.links == old(ns.links) && ns'.dirs == old(ns.dirs)
    ensures n <= cnt && (n < cnt ==> Missing(old(ns.vol.Now()), m.num, old(file.pos) + n)) && back[..n] == buf[..n]
  {
    hide Saved, SuperBlock.Valid, Volume.Rooted, Volume.Full, Missing, AllListed, Counted, Closed, OthersSame,
         InodesMarked, Room, Recorded, Clean, Namespace.Valid, Namespace.Sound, Overwritten, Component, Sought,
         Delivered, Geometry;
    ghost var vol0, pos := ns.vol.Now(), file.pos;
    var at := file.pos;
    n := WriteCloseLast(ns, m, file, buf, cnt, d);
    ghost var vol1 := ns.vol.Now();
    ns' := RemountRead(ns, d, path, p, len, slots, at, back, n, m.num);
    SavedReadBack(vol0, vol1, m.num, pos, buf[..], n, back[..]);
  }

  // ---- O_TRUNC and close ----

  /** A file nobody else has open is opened with O_TRUNC and closed again. Then the inode table says that
      it is empty exactly when its inode was dirty or it was empty before; otherwise the table
      keeps the old record, which names blocks that belong to no file. */
  method TruncateThenClose(ns: Namespace, dir: MemInode, path: seq<byte>, p: nat, len: nat, how: Access,
                           copy: MemInode?, ghost f: nat) returns (m: MemInode)
    requires ns.Valid(-1) && ns.vol.sb.Roomy(3) && Component(path, p, len) && len != NAME_LEN
    requires ns.Linked(dir) && dir.num in ns.dirs && dir.cnt < 0xFFFE && dir.nlinks != 0 && dir.size + BLK_SIZE < TWO_32
    requires Sought(path, p, len) in ns.dirs[dir.num] && ns.dirs[dir.num][Sought(path, p, len)] == f
    requires ns.Fetched(copy, dir, f) && (copy != null ==> copy.cnt == 0)
    requires f in ns.known && FileType(ns.known[f].rec.mode) == S_IFREG && how.truncate && !how.exclusive
    modifies ns.vol.sb.cache.Repr(), ns.vol.sb`pos, ns.vol`zones, ns.vol`own, ns, dir, copy
    ensures ns.Valid(-1) && ns.links == old(ns.links) && ns.dirs == old(ns.dirs)
    ensures OthersSame(old(ns.vol.Now()), ns.vol.Now(), f)
    ensures ns.Current(m) && m.num == f && m.cnt == 0 && f in old(ns.known)
    ensures Stored(m) == old(ns.known)[f].rec.(size := 0, zone := NO_ZONES)
    ensures ns.Written(f, Stored(m)) <==>
              (copy != null && old(copy.dirt)) || (var d := old(ns.known)[f].rec; d.size == 0 && d.zone == NO_ZONES)
    ensures !(copy != null && old(copy.dirt)) ==> ns.Written(f, old(ns.known)[f].rec) && ns.Freed(old(ns.known)[f].rec)
  {
    hide SuperBlock.Valid, Volume.Rooted, AllListed, Counted, Closed, OthersSame, InodesMarked, Room, Sought,
         Recorded, Namespace.Valid, Namespace.Sound, InTableAs, KnownKept, FileType, Namespace.Freed;
    ghost var vol0, k := ns.vol.Now(), ns.known[f];
    ns.Named(dir.num, Sought(path, p, len));
    ns.KindKnown(f, -1);
    var err, r := ns.OpenNamei(dir, path, p, len, how, 0, copy);
    ghost var vol1 := ns.vol.Now();
    m := r;
    ns.CloseEmptied(m, k, how);
    OthersAfter(vol0, vol1, ns.vol.Now(), f);
  }

  // ---- the first file ----

  lemma RootListed(ns: Namespace)
    requires RootReady(ns)
    ensures 0 in ns.dirs && |ns.dirs[0]| < BLK_SIZE / 64 && 1 !in ns.links
    ensures forall x :: x in ns.dirs[0] <==> x == [DOT] || x == [DOT, DOT]
  {
    assert ns.dirs[0].Keys == {[DOT], [DOT, DOT]};
    assert |ns.dirs[0]| == |ns.dirs[0].Keys|;
  }

  lemma ViewTotal(ns: Namespace)
    requires ns.Valid(-1)
    ensures ns.vol.sb.Valid() && ns.vol.sb.imapBlocks > 0 && forall b :: b in ns.vol.sb.cache.view
  {
    hide AllListed, Counted, Closed, InodesMarked, Recorded, Forest, Marked;
  }

  /** A file of that name is made in the root of a volume that has nothing else. */
  method MakeFirst(ns: Namespace, root: MemInode, path: seq<byte>, p: nat, len: nat, how: Access, mode: u16)
    returns (m: MemInode)
    requires ns.Valid(-1) && RootReady(ns) && ns.vol.sb.Roomy(3)
    requires ns.Linked(root) && root.num == 0 && root.cnt == 0 && root.nlinks == 2 && root.size == BLK_SIZE
    requires Component(path, p, len) && len != NAME_LEN && how.create
    requires Sought(path, p, len) != [DOT] && Sought(path, p, len) != [DOT, DOT]
    modifies ns.vol.sb.cache.Repr(), ns.vol.sb`pos, ns.vol`zones, ns.vol`own, ns, root
    ensures ns.Valid(-1) && ns.Linked(m) && m.cnt == 1 && m.num != 0 && ns.links == map[0 := 2, m.num := 1]
    ensures ns.dirs == map[0 := map[[DOT] := 0, [DOT, DOT] := 0, Sought(path, p, len) := m.num]]
    ensures m.size == 0 && m.mode >= 0x8000 && m.mode % 0x8000 == mode % 0x8000
  {
    hide SuperBlock.Valid, SuperBlock.Layout, Volume.Rooted, Volume.Full, AllListed, Counted, Closed, OthersSame,
         InodesMarked, Room, Recorded, Namespace.Valid, Namespace.Sound, Sought;
    ghost var name, dirs, links, known := Sought(path, p, len), ns.dirs, ns.links, ns.known;
    RootListed(ns);
    ViewTotal(ns);
    var err, r := ns.OpenNamei(root, path, p, len, how, mode, null);
    ViewTotal(ns);
    assert err != ENOSRC by {
      assert 1 < ns.vol.sb.imapBlocks * BITS_PER_BLK && 1 !in links;
    }
    ns.OpenedMeans(err, r, dirs, links, known, 0, name, how, mode);
    m := r;
    assert ns.dirs[0] == map[[DOT] := 0, [DOT, DOT] := 0, name := m.num];
  }

  /** On a freshly formatted volume an open with O_CREAT of any name but . and .. makes the file: it is empty,
      regular, open once, and the only other name of the root. */
  method FirstFile(cache: BufferCache, dev: u16, path: seq<byte>, p: nat, len: nat, how: Access, mode: u16)
    returns (ns: Namespace, m: MemInode)
    requires dev != 0 && cache.Valid() && Unused(cache.pins, dev)
    requires Room(cache.pins, cache.bh.Length, NR_IMAP_BLKS + NR_ZMAP_BLKS + 3)
    requires Component(path, p, len) && len != NAME_LEN && how.create
    requires Sought(path, p, len) != [DOT] && Sought(path, p, len) != [DOT, DOT]
    modifies cache.Repr()
    ensures fresh(ns) && ns.vol.sb.cache == cache && ns.Valid(-1) && ns.Linked(m) && m.cnt == 1
    ensures m.num != 0 && ns.links == map[0 := 2, m.num := 1]
    ensures ns.dirs == map[0 := map[[DOT] := 0, [DOT, DOT] := 0, Sought(path, p, len) := m.num]]
    ensures m.size == 0 && m.mode >= 0x8000 && m.mode % 0x8000 == mode % 0x8000
  {
    hide SuperBlock.Valid, Volume.Rooted, Volume.Full, AllListed, Counted, Closed, OthersSame, InodesMarked, Room,
         SuperIn, Recorded, Namespace.Valid, Namespace.Sound, SuperBlock.ZoneBit, OneZone, Geometry, InTableAs, Clean,
         Component, Sought, RootReady;
    var root;
    ns, root := FormatRootfs(cache, dev);
    m := MakeFirst(ns, root, path, p, len, how, mode);
  }

  // ---- a file that O_TRUNC leaves behind ----

  /** Only the first zone of inode 0 leads anywhere. */
  lemma OwnsOne(vol: Vol, own: map<u32, Place>, lo: nat, hi: nat, f: nat, p: Place)
    requires Forest(vol, own, lo, hi) && vol.zones.Keys == {0, f} && f != 0 && vol.Has(p)
    requires (forall i :: 1 <= i < 9 ==> vol.zones[0][i] == 0) && vol.zones[f] == NO_ZONES
    ensures p != Zone(0, 0) ==> vol.Ptr(p) == 0
    decreases if p.Zone? then 0 else if p.Leaf? then 2 else 1
  {
    if !p.Zone? { OwnsOne(vol, own, lo, hi, f, p.Parent()); }
  }

  lemma PosInside(sb: SuperBlock)
    requires sb.Valid()
    ensures sb.pos < sb.zmapBlocks * BITS_PER_BLK
  {
  }

  /** With one block in use there are free ones in more than one block of the bitmap. */
  lemma ZonesLeft(vol: Volume, f: nat)
    requires vol.Valid() && vol.zones.Keys == {0, f} && f != 0 && vol.zones[f] == NO_ZONES
    requires |vol.zones[0]| == 9 && forall i :: 1 <= i < 9 ==> vol.zones[0][i] == 0
    requires vol.sb.zmapBlocks >= 2 && vol.sb.firstDatazone + 0x8001 < vol.sb.nzones
    ensures !vol.Full()
  {
    hide SuperBlock.Valid, SuperBlock.ZoneBit, Searched;
    var sb, v := vol.sb, vol.sb.cache.view;
    var lo := if sb.pos < BITS_PER_BLK then BITS_PER_BLK else 0;
    var n := if vol.zones[0][0] == lo + sb.firstDatazone then lo + 1 else lo;
    var b: u32 := n + sb.firstDatazone;
    if b in vol.own {
      OwnsOne(vol.Now(), vol.own, sb.firstDatazone, sb.nzones, f, vol.own[b]);
      assert false;
    }
    PosInside(sb);
    assert sb.IsDataZone(b) && !sb.ZoneBit(v, b - sb.firstDatazone);
    assert sb.Eligible(v, sb.pos, n);
  }

  /** A new file gets its first block and the size 1. */
  method PlantFirst(ns: Namespace, m: MemInode)
    requires ns.Valid(m.num) && ns.Linked(m) && m.num in ns.vol.zones && m.num !in ns.dirs
    requires m.zone == NO_ZONES && ns.vol.sb.Roomy(1) && !ns.vol.Full()
    modifies ns.vol.sb.cache.Repr(), ns.vol.sb`pos, ns.vol`zones, ns.vol`own, m`zone, m`size
    ensures ns.vol.sb.cache.pins == old(ns.vol.sb.cache.pins)
    ensures ns.FileDue(m, m.num, old(ns.vol.sb.cache.view), old(Stored(m)), old(ns.vol.zones))
    ensures m.size == 1 && m.zone == NO_ZONES[0 := m.zone[0]] && ns.vol.sb.IsDataZone(m.zone[0])
    ensures m.zone[0] != 0
  {
    hide SuperBlock.Valid, Forest, AllListed, Counted, Closed, InodesMarked, Recorded, Marked, SuperBlock.InodeBit,
         Grown, OthersSame, SuperBlock.Exhausted, TableKept, SuperBlock.IsMeta, SuperBlock.Roomy, Describes;
    ns.Facts(m, m.num);
    ghost var now := ns.vol.Now();
    var b := ns.vol.GrowZone(m, 0);
    m.size := 1;
    GrownOthers(now, ns.vol.Now(), m.num);
    AllListedKept(now, ns.vol.Now(), m.num, ns.ats, ns.sizes, ns.dirs);
    InodesKeptMeta(ns.vol.sb, now.v, ns.vol.sb.cache.view, ns.links);
    TableKeptMeta(ns.vol.sb, now.v, ns.vol.sb.cache.view);
  }

  method FirstByte(ns: Namespace, m: MemInode)
    requires ns.Valid(m.num) && ns.Linked(m) && m.dirt && m.num in ns.vol.zones && m.num !in ns.dirs
    requires m.zone == NO_ZONES && ns.vol.sb.Roomy(1) && !ns.vol.Full()
    modifies ns.vol.sb.cache.Repr(), ns.vol.sb`pos, ns.vol`zones, ns.vol`own, ns`known, m`zone, m`size
    ensures ns.Valid(m.num) && ns.Linked(m) && ns.vol.sb.cache.pins == old(ns.vol.sb.cache.pins)
    ensures m.size == 1 && m.zone == NO_ZONES[0 := m.zone[0]] && ns.vol.sb.IsDataZone(m.zone[0])
    ensures m.zone[0] != 0 && KnownKept(old(ns.known), ns.known, m.num, m.num)
  {
    hide SuperBlock.Valid, Volume.Rooted, Namespace.Valid, Namespace.Sound, Recorded, Describes, Namespace.FileDue,
         SuperBlock.Exhausted, SuperBlock.Roomy;
    ghost var v, zones0, d0 := ns.vol.sb.cache.view, ns.vol.zones, Stored(m);
    PlantFirst(ns, m);
    ns.NoteFile(m, m.num, v, d0, zones0);
  }

  lemma GrownOthers(vol: Vol, vol': Vol, f: nat)
    requires vol.Wf() && f in vol.zones && vol.Ptr(Zone(f, 0)) == 0 && Grown(vol, vol', Zone(f, 0))
    ensures OthersSame(vol, vol', f)
  {
    GrownIsMapped(vol, vol', Zone(f, 0));
    MappedOthers(vol, vol', Zone(f, 0));
  }

  const PATH: seq<byte> := [0x61, 0]
  const NAME: Name := [0x61]

  /** The record of a regular file of one byte in one block of the data zone. */
  ghost predicate OneByte(d: DevInode, sb: SuperBlock) {
    && FileType(d.mode) == S_IFREG && d.size == 1 && |d.zone| == 9
    && d.zone[0] != 0 && sb.IsDataZone(d.zone[0])
  }

  /** The geometry has room for more than one file. */
  ghost predicate Spacious(sb: SuperBlock) {
    sb.zmapBlocks >= 2 && sb.firstDatazone + 0x8001 < sb.nzones && sb.imapBlocks > 0
  }

  /** A regular file without blocks and without a name. */
  method StartFile(ns: Namespace) returns (m: MemInode)
    requires ns.Valid(-1) && RootReady(ns) && OneZone(ns.vol.zones) && Spacious(ns.vol.sb)
    modifies ns.vol.sb.cache.Repr(), ns.vol`zones, ns`links, ns`known
    ensures fresh(m) && ns.Valid(m.num) && ns.Linked(m) && m.num !in ns.dirs && m.num != 0 && m.dirt
    ensures ns.vol.sb.cache.pins == old(ns.vol.sb.cache.pins)
    ensures ns.links == old(ns.links)[m.num := 1] && m.cnt == 1 && m.nlinks == 1 && Refs(ns.dirs, m.num) == {}
    ensures m.mode == S_IFREG && m.zone == NO_ZONES && ns.vol.zones == old(ns.vol.zones)[m.num := NO_ZONES]
    ensures KnownKept(old(ns.known), ns.known, m.num, m.num)
  {
    hide SuperBlock.Valid, Volume.Rooted, AllListed, Counted, Closed, OthersSame, InodesMarked, Room,
         Recorded, Namespace.Valid, Namespace.Sound, Refs, OneZone, SuperBlock.InodeBit, Volume.Full;
    ns.KnownKeys(-1);
    var r := ns.NewInode();
    ghost var l := ns.links;
    assert r == null ==> 1 in l;
    m := r;
    assert FileType(S_IFREG) == S_IFREG && FreshZones(S_IFREG, 0) == NO_ZONES;
    ns.SetMode(m, S_IFREG, 0, m.num);
  }

  /** One with one byte. */
  method NewFile(ns: Namespace) returns (m: MemInode)
    requires ns.Valid(-1) && RootReady(ns) && OneZone(ns.vol.zones) && Spacious(ns.vol.sb) && ns.vol.sb.Roomy(3)
    modifies ns.vol.sb.cache.Repr(), ns.vol.sb`pos, ns.vol`zones, ns.vol`own, ns`links, ns`known
    ensures fresh(m) && ns.Valid(m.num) && ns.Linked(m) && m.num !in ns.dirs && m.num != 0
    ensures ns.vol.sb.cache.pins == old(ns.vol.sb.cache.pins)
    ensures ns.links == old(ns.links)[m.num := 1] && m.cnt == 1 && m.nlinks == 1 && Refs(ns.dirs, m.num) == {}
    ensures m.mode == S_IFREG && m.size == 1 && m.zone == NO_ZONES[0 := m.zone[0]] && m.zone[0] != 0
    ensures ns.vol.sb.IsDataZone(m.zone[0])
    ensures KnownKept(old(ns.known), ns.known, m.num, m.num)
  {
    hide SuperBlock.Valid, Volume.Rooted, AllListed, Counted, Closed, OthersSame, InodesMarked, Room,
         Recorded, Namespace.Valid, Namespace.Sound, SuperBlock.Exhausted, TableKept, Refs;
    RoomyOne(ns.vol.sb);
    m := StartFile(ns);
    Usable(ns, m.num);
    ZonesLeft(ns.vol, m.num);
    FirstByte(ns, m);
  }

  lemma Usable(ns: Namespace, x: int)
    requires ns.Valid(x)
    ensures ns.vol.Valid()
  {
    hide SuperBlock.Valid, Volume.Rooted;
  }

  /** It gets a name in a directory with a record to spare. */
  method NameFile(ns: Namespace, m: MemInode, dir: MemInode, path: seq<byte>, p: nat, len: nat)
    requires ns.Valid(m.num) && ns.Linked(m) && ns.Linked(dir) && dir.num in ns.dirs && m.num !in ns.dirs
    requires m.nlinks == 1 && Refs(ns.dirs, m.num) == {} && dir.size + BLK_SIZE < TWO_32 && ns.vol.sb.Roomy(3)
    requires Component(path, p, len) && len != NAME_LEN && Sought(path, p, len) !in ns.dirs[dir.num]
    requires |ns.dirs[dir.num]| < dir.size / 64
    modifies ns.vol.sb.cache.Repr(), ns.vol.sb`pos, ns.vol`zones, ns.vol`own, ns, dir
    ensures ns.Valid(-1) && ns.Linked(dir) && ns.Linked(m) && ns.vol.sb.cache.pins == old(ns.vol.sb.cache.pins)
    ensures dir.cnt == old(dir.cnt) && dir.nlinks == old(dir.nlinks) && ns.links == old(ns.links)
    ensures dir.size == old(dir.size) && dir.num in old(ns.dirs)
    ensures ns.dirs == WithEntry(old(ns.dirs), dir.num, Sought(path, p, len), m.num)
    ensures KnownKept(old(ns.known), ns.known, dir.num, dir.num)
  {
    hide SuperBlock.Valid, Volume.Rooted, AllListed, Counted, Closed, OthersSame, InodesMarked, Room,
         Recorded, SuperBlock.Exhausted, TableKept, Refs, Component, Sought, WithEntry;
    var ok := ns.NameFirst(m, dir, path, p, len);
  }

  /** The root directory stays what it was meanwhile. */
  method NewBeside(ns: Namespace, root: MemInode) returns (m: MemInode)
    requires ns.Valid(-1) && RootReady(ns) && OneZone(ns.vol.zones) && Spacious(ns.vol.sb) && ns.vol.sb.Roomy(3)
    requires ns.Linked(root) && root.num == 0
    modifies ns.vol.sb.cache.Repr(), ns.vol.sb`pos, ns.vol`zones, ns.vol`own, ns`links, ns`known
    ensures fresh(m) && ns.Valid(m.num) && ns.Linked(m) && m.num !in ns.dirs && m.num != 0 && ns.Linked(root)
    ensures ns.vol.sb.cache.pins == old(ns.vol.sb.cache.pins)
    ensures m.cnt == 1 && m.nlinks == 1 && Refs(ns.dirs, m.num) == {} && OneByte(Stored(m), ns.vol.sb)
  {
    hide SuperBlock.Valid, Volume.Rooted, AllListed, Counted, Closed, OthersSame, InodesMarked, Room,
         Recorded, Namespace.Valid, Namespace.Sound, SuperBlock.Exhausted, Refs, OneZone;
    m := NewFile(ns);
  }

  lemma PathOfName()
    ensures Component(PATH, 0, 1) && Sought(PATH, 0, 1) == NAME
  {
  }

  /** On a freshly formatted volume: a file of one byte under a name, both inodes held. */
  method NamedFile(ns: Namespace, root: MemInode) returns (m: MemInode)
    requires ns.Valid(-1) && RootReady(ns) && OneZone(ns.vol.zones) && Spacious(ns.vol.sb) && ns.vol.sb.Roomy(3)
    requires ns.Linked(root) && root.num == 0 && root.cnt == 0 && root.nlinks == 2 && root.size == BLK_SIZE
    modifies ns.vol.sb.cache.Repr(), ns.vol.sb`pos, ns.vol`zones, ns.vol`own, ns, root
    ensures ns.Valid(-1) && ns.vol.sb.cache.pins == old(ns.vol.sb.cache.pins) && fresh(m) && m.num != root.num
    ensures ns.Linked(root) && root.cnt == 1 && root.nlinks == 2 && root.size == BLK_SIZE && root.num in ns.dirs
    ensures ns.Linked(m) && m.cnt == 1 && m.nlinks == 1 && OneByte(Stored(m), ns.vol.sb)
    ensures NAME in ns.dirs[root.num] && ns.dirs[root.num][NAME] == m.num
  {
    hide SuperBlock.Valid, Volume.Rooted, AllListed, Counted, Closed, OthersSame, InodesMarked, Room,
         Recorded, Namespace.Valid, Namespace.Sound, SuperBlock.Exhausted, Refs, OneZone, OneByte, Namespace.Linked,
         Namespace.Current, RootReady, Sought, Component;
    RootListed(ns);
    PathOfName();
    ns.Hold(root, -1);
    m := NewBeside(ns, root);
    NameFile(ns, m, root, PATH, 0, 1);
  }

  /** Then both are put: nobody has the file open and its record is in the table. */
  method OneByteFile(ns: Namespace, root: MemInode) returns (f: u32)
    requires ns.Valid(-1) && RootReady(ns) && OneZone(ns.vol.zones) && Spacious(ns.vol.sb) && ns.vol.sb.Roomy(3)
    requires ns.Linked(root) && root.num == 0 && root.cnt == 0
    modifies ns.vol.sb.cache.Repr(), ns.vol.sb`pos, ns.vol`zones, ns.vol`own, ns, root
    ensures ns.Valid(-1) && ns.vol.sb.cache.pins == old(ns.vol.sb.cache.pins)
    ensures ns.Linked(root) && root.num in ns.dirs && root.cnt == 0 && root.nlinks == 2 && root.size == BLK_SIZE
    ensures NAME in ns.dirs[root.num] && ns.dirs[root.num][NAME] == f
    ensures f in ns.known && OneByte(ns.known[f].rec, ns.vol.sb) && !ns.known[f].behind
  {
    hide SuperBlock.Valid, Volume.Rooted, AllListed, Counted, Closed, OthersSame, InodesMarked, Room,
         Recorded, Namespace.Valid, Namespace.Sound, SuperBlock.Exhausted, Refs, OneZone, FileType, OneByte;
    ns.Facts(root, -1);
    var m := NamedFile(ns, root);
    f := m.num;
    ns.PutBoth(root, m);
  }

  lemma Unmarked(vol: Volume, b: u32)
    requires vol.Valid() && vol.sb.IsDataZone(b) && b != 0 && b !in vol.own
    ensures !vol.sb.ZoneBit(vol.sb.cache.view, b - vol.sb.firstDatazone)
  {
    hide SuperBlock.Valid, Forest, SuperBlock.ZoneBit;
  }

  /** The table has record d of a file of one byte for inode m, which is empty now; the block that d
      names is clear in the bitmap. */
  ghost predicate LeftBehind(ns: Namespace, m: MemInode, d: DevInode)
    reads ns, ns.vol, ns.vol.sb, ns.vol.sb.cache.Repr(), m
  {
    && ns.Current(m) && m.size == 0 && m.zone == NO_ZONES && ns.vol.sb.Valid()
    && OneByte(d, ns.vol.sb) && ns.Written(m.num, d) && !ns.Written(m.num, Stored(m))
    && d.zone[0] !in ns.vol.own && !ns.vol.sb.ZoneBit(ns.vol.sb.cache.view, d.zone[0] - ns.vol.sb.firstDatazone)
  }

  /** A file of one byte is opened with O_TRUNC and closed. */
  method TruncateOneByte(ns: Namespace, root: MemInode, f: u32) returns (m: MemInode, ghost d: DevInode)
    requires ns.Valid(-1) && ns.vol.sb.Roomy(3)
    requires ns.Linked(root) && root.num in ns.dirs && root.cnt == 0 && root.nlinks == 2 && root.size == BLK_SIZE
    requires NAME in ns.dirs[root.num] && ns.dirs[root.num][NAME] == f
    requires f in ns.known && OneByte(ns.known[f].rec, ns.vol.sb) && !ns.known[f].behind
    modifies ns.vol.sb.cache.Repr(), ns.vol.sb`pos, ns.vol`zones, ns.vol`own, ns, root
    ensures ns.Valid(-1) && LeftBehind(ns, m, d)
  {
    hide SuperBlock.Valid, Volume.Rooted, AllListed, Counted, Closed, OthersSame, InodesMarked, Room, SuperIn,
         Recorded, Namespace.Valid, Namespace.Sound, SuperBlock.ZoneBit, InTableAs, Component, Sought;
    PathOfName();
    d := ns.known[f].rec;
    ns.KindKnown(f, -1);
    m := TruncateThenClose(ns, root, PATH, 0, 1, Access(true, false, false, true), null, f);
    Usable(ns, -1);
    Unmarked(ns.vol, d.zone[0]);
  }

  /** On a fresh disk: format it, make a file of one byte, put everything, open the file with O_TRUNC and
      close it. */
  method FormatAndTruncate(cache: BufferCache, dev: u16) returns (ns: Namespace, m: MemInode, ghost d: DevInode)
    requires dev != 0 && cache.Valid() && Unused(cache.pins, dev)
    requires Room(cache.pins, cache.bh.Length, NR_IMAP_BLKS + NR_ZMAP_BLKS + 3)
    modifies cache.Repr()
    ensures fresh(ns) && ns.vol.sb.cache == cache && ns.Valid(-1) && LeftBehind(ns, m, d)
    ensures ns.vol.sb.firstDatazone == 4114 <= d.zone[0]
  {
    hide SuperBlock.Valid, Volume.Rooted, AllListed, Counted, Closed, OthersSame, InodesMarked, Room, SuperIn,
         Recorded, Namespace.Valid, Namespace.Sound, SuperBlock.ZoneBit, OneZone, Geometry, InTableAs, Clean;
    FormattedLayout();
    var root;
    ns, root := FormatRootfs(cache, dev);
    var f := OneByteFile(ns, root);
    m, d := TruncateOneByte(ns, root, f);
  }
}
