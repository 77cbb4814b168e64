/** Link counts: creating, linking and unlinking names (fs/namei.c), with the inode
    numbers and reference counts behind them (fs/bmap.c:104-162, fs/inode.c:92-109). */
module Namespaces {
  import opened Bytes
  import opened BufferCaches
  import opened Bitmaps
  import opened BlockTrees
  import opened Inodes
  import opened Directories
  import opened InodeTable
  import opened FileRw

  datatype Errno = OK | ENOPATH | EDIR | EPDUP | ENOSRC

  /** What an open asks for: O_ACCMODE, O_CREAT, O_EXCL and O_TRUNC. */
  datatype Access = Access(write: bool, create: bool, exclusive: bool, truncate: bool)

  const S_IFCHR := 0x2000
  const S_IFBLK := 0x6000
  const I_MAGIC: u32 := 0xCCAA
  const UID: u16 := 0xCC
  const GID: u16 := 0xAA

  // ---- names and counts, on values ----

  /** The directory entries that name inode x. */
  ghost function Refs(dirs: map<nat, map<Name, u32>>, x: nat): set<(nat, Name)> {
    set d, n | d in dirs && n in dirs[d] && dirs[d][n] == x :: (d, n)
  }

  /** i_nlinks of every inode but x that is not a directory is the number of entries
      that name it. */
  ghost predicate Counted(dirs: map<nat, map<Name, u32>>, links: map<nat, u16>, x: int) {
    forall y :: y in links && y !in dirs && y != x ==> links[y] == |Refs(dirs, y)|
  }

  /** Every entry names an inode in use; directories have links. */
  ghost predicate Closed(dirs: map<nat, map<Name, u32>>, links: map<nat, u16>) {
    && (forall d :: d in dirs ==> d in links && links[d] != 0)
    && (forall d, n :: d in dirs && n in dirs[d] ==> dirs[d][n] in links)
  }

  ghost predicate AllListed(vol: Vol, ats: map<nat, map<Name, nat>>, sizes: map<nat, u32>,
                            dirs: map<nat, map<Name, u32>>) {
    && vol.Wf() && ats.Keys == sizes.Keys == dirs.Keys
    && (forall d :: d in ats ==> Listed(vol, d, sizes[d], ats[d]))
    && (forall d :: d in ats ==> dirs[d] == Listing(vol, d, ats[d]))
  }

  /** The inode bitmap marks exactly the inodes in use. */
  ghost predicate InodesMarked(sb: SuperBlock, v: imap<Key, Block>, links: map<nat, u16>)
    requires sb.Layout() && forall k :: k in v
  {
    && (forall n :: n in links ==> n < sb.imapBlocks * BITS_PER_BLK)
    && (forall n: nat :: n < sb.imapBlocks * BITS_PER_BLK ==> (sb.InodeBit(v, n) <==> n in links))
  }

  /** Each inode of the bitmap has its record in the inode table. */
  predicate TableFits(sb: SuperBlock) {
    sb.Layout() &&
    sb.imapBlocks * BITS_PER_BLK <= INODES_PER_BLK * (sb.firstDatazone - 2 - sb.imapBlocks - sb.zmapBlocks)
  }

  lemma InodesKept(sb: SuperBlock, v: imap<Key, Block>, v': imap<Key, Block>, links: map<nat, u16>)
    requires sb.Layout() && (forall k :: k in v && k in v') && InodesMarked(sb, v, links)
    requires forall k :: sb.IsImapKey(k) ==> v'[k] == v[k]
    ensures InodesMarked(sb, v', links)
  {
  }

  lemma InodesKeptMeta(sb: SuperBlock, v: imap<Key, Block>, v': imap<Key, Block>, links: map<nat, u16>)
    requires sb.Layout() && (forall k :: k in v && k in v') && InodesMarked(sb, v, links)
    requires forall k: Key :: sb.IsMeta(k) ==> v'[k] == v[k]
    ensures InodesMarked(sb, v', links)
  {
    InodesKept(sb, v, v', links);
  }

  lemma InTable(sb: SuperBlock, v: imap<Key, Block>, links: map<nat, u16>, n: nat)
    requires sb.Layout() && (forall k :: k in v) && TableFits(sb) && InodesMarked(sb, v, links) && n in links
    ensures n < sb.imapBlocks * BITS_PER_BLK && sb.IsTableBlk(TableBlk(sb, n))
  {
  }

  // ---- the records of the inodes ----

  /** What is known of an inode in use: its record as the copy in memory, if there is one, has
      it, and whether the record on disk is behind. */
  datatype Known = Known(rec: DevInode, behind: bool)

  /** Record d is that of inode n: its link count, its zones if it has blocks, and the size of a
      directory are what the rest of the state says. */
  ghost predicate Describes(d: DevInode, n: nat, links: map<nat, u16>, zones: map<nat, seq<u32>>,
                            sizes: map<nat, u32>, dirs: map<nat, map<Name, u32>>)
  {
    && n in links && d.nlinks == links[n] && |d.zone| == 9
    && (n in zones <==> FileType(d.mode) == S_IFREG || FileType(d.mode) == S_IFDIR)
    && (n in zones ==> d.zone == zones[n])
    && (n in dirs <==> FileType(d.mode) == S_IFDIR) && (n in dirs ==> n in sizes && d.size == sizes[n])
  }

  /** Every inode in use has its record, and the inode table on disk holds it unless it is
      behind; block 1 is the super block. */
  ghost predicate Recorded(sb: SuperBlock, v: imap<Key, Block>, links: map<nat, u16>, zones: map<nat, seq<u32>>,
                           sizes: map<nat, u32>, dirs: map<nat, map<Name, u32>>, known: map<nat, Known>, boot: Block)
    requires forall k :: k in v
  {
    && known.Keys == links.Keys && v[Key(sb.dev, 1)] == boot
    && (forall n :: n in known ==> Describes(known[n].rec, n, links, zones, sizes, dirs))
    && (forall n :: n in known && !known[n].behind ==> InTableAs(sb, v, n, known[n].rec))
  }

  ghost predicate InTableAs(sb: SuperBlock, v: imap<Key, Block>, n: nat, d: DevInode)
    requires forall k :: k in v
  {
    sb.IsTableBlk(TableBlk(sb, n)) && OnDisk(sb, v, n) == d
  }

  /** The inode table and the super block did not change. */
  ghost predicate TableKept(sb: SuperBlock, v: imap<Key, Block>, v': imap<Key, Block>)
    requires forall k :: k in v && k in v'
  {
    forall k: Key :: k.dev == sb.dev && (sb.IsTableBlk(k.blk) || k.blk == 1) ==> v'[k] == v[k]
  }

  lemma TableKeptMeta(sb: SuperBlock, v: imap<Key, Block>, v': imap<Key, Block>)
    requires sb.Layout() && (forall k :: k in v && k in v')
    requires (forall k: Key :: sb.IsMeta(k) ==> v'[k] == v[k]) || (forall k: Key :: !sb.IsImapKey(k) ==> v'[k] == v[k])
    ensures TableKept(sb, v, v')
  {
  }

  lemma SameTable(sb: SuperBlock, v: imap<Key, Block>)
    requires forall k :: k in v
    ensures TableKept(sb, v, v)
  {
  }

  lemma InTableKept(sb: SuperBlock, v: imap<Key, Block>, v': imap<Key, Block>, n: nat, d: DevInode)
    requires (forall k :: k in v && k in v') && TableKept(sb, v, v') && InTableAs(sb, v, n, d)
    ensures InTableAs(sb, v', n, d)
  {
    hide InodeAt;
  }

  /** All inodes but n are block-mapped, directories and sized as before. */
  ghost predicate ElsewhereSame(n: nat, zones: map<nat, seq<u32>>, zones': map<nat, seq<u32>>, sizes: map<nat, u32>,
                                sizes': map<nat, u32>, dirs: map<nat, map<Name, u32>>, dirs': map<nat, map<Name, u32>>)
  {
    && (forall y :: y != n ==> (y in zones' <==> y in zones) && (y in dirs' <==> y in dirs))
    && (forall y :: y != n && y in zones ==> zones'[y] == zones[y])
    && (forall y :: y != n && y in sizes ==> y in sizes' && sizes'[y] == sizes[y])
  }

  /** The record of inode n became k, be it old or new. */
  lemma RecordedStep(sb: SuperBlock, v: imap<Key, Block>, v': imap<Key, Block>, links: map<nat, u16>,
                     links': map<nat, u16>, zones: map<nat, seq<u32>>, zones': map<nat, seq<u32>>,
                     sizes: map<nat, u32>, sizes': map<nat, u32>, dirs: map<nat, map<Name, u32>>,
                     dirs': map<nat, map<Name, u32>>, known: map<nat, Known>, boot: Block, n: nat, k: Known)
    requires (forall k :: k in v && k in v') && Recorded(sb, v, links, zones, sizes, dirs, known, boot)
             && TableKept(sb, v, v')
    requires links' == links[n := k.rec.nlinks] && ElsewhereSame(n, zones, zones', sizes, sizes', dirs, dirs')
    requires Describes(k.rec, n, links', zones', sizes', dirs') && (k.behind || (n in known && known[n] == k))
    ensures Recorded(sb, v', links', zones', sizes', dirs', known[n := k], boot)
  {
    hide InTableAs, TableKept;
    BootBlockKept(sb, v, v');
    var known' := known[n := k];
    forall y | y in known' ensures Describes(known'[y].rec, y, links', zones', sizes', dirs') {
      if y != n { assert Describes(known[y].rec, y, links, zones, sizes, dirs); }
    }
    forall y | y in known' && !known'[y].behind ensures InTableAs(sb, v', y, known'[y].rec) {
      InTableKept(sb, v, v', y, known[y].rec);
    }
  }

  /** A directory got other zones, another size and other names. */
  lemma DescribesDir(n: nat, d0: DevInode, d: DevInode, links: map<nat, u16>, zones: map<nat, seq<u32>>,
                     zones': map<nat, seq<u32>>, sizes: map<nat, u32>, sizes': map<nat, u32>,
                     dirs: map<nat, map<Name, u32>>, dirs': map<nat, map<Name, u32>>)
    requires Describes(d0, n, links, zones, sizes, dirs) && n in dirs && dirs'.Keys == dirs.Keys && |d.zone| == 9
    requires d == d0.(zone := d.zone, size := d.size) && zones' == zones[n := d.zone] && sizes' == sizes[n := d.size]
    ensures Describes(d, n, links, zones', sizes', dirs') && ElsewhereSame(n, zones, zones', sizes, sizes', dirs, dirs')
  {
  }

  /** A file got other zones and another size. */
  lemma DescribesFile(n: nat, d0: DevInode, d: DevInode, links: map<nat, u16>, zones: map<nat, seq<u32>>,
                      zones': map<nat, seq<u32>>, sizes: map<nat, u32>, dirs: map<nat, map<Name, u32>>)
    requires Describes(d0, n, links, zones, sizes, dirs) && n in zones && n !in dirs && |d.zone| == 9
    requires d == d0.(zone := d.zone, size := d.size) && zones' == zones[n := d.zone]
    ensures Describes(d, n, links, zones', sizes, dirs) && ElsewhereSame(n, zones, zones', sizes, sizes, dirs, dirs)
  {
  }

  lemma BootBlockKept(sb: SuperBlock, v: imap<Key, Block>, v': imap<Key, Block>)
    requires (forall k :: k in v && k in v') && TableKept(sb, v, v')
    ensures v'[Key(sb.dev, 1)] == v[Key(sb.dev, 1)]
  {
  }

  lemma RecordedSame(sb: SuperBlock, v: imap<Key, Block>, v': imap<Key, Block>, links: map<nat, u16>,
                     zones: map<nat, seq<u32>>, sizes: map<nat, u32>, dirs: map<nat, map<Name, u32>>,
                     known: map<nat, Known>, boot: Block)
    requires (forall k :: k in v && k in v') && Recorded(sb, v, links, zones, sizes, dirs, known, boot)
             && TableKept(sb, v, v')
    ensures Recorded(sb, v', links, zones, sizes, dirs, known, boot)
  {
    hide InTableAs, TableKept, Describes;
    BootBlockKept(sb, v, v');
    forall y | y in known && !known[y].behind ensures InTableAs(sb, v', y, known[y].rec) {
      InTableKept(sb, v, v', y, known[y].rec);
    }
  }

  /** The record of inode n was written to the table. */
  lemma RecordedWritten(sb: SuperBlock, v: imap<Key, Block>, v': imap<Key, Block>, links: map<nat, u16>,
                        zones: map<nat, seq<u32>>, sizes: map<nat, u32>, dirs: map<nat, map<Name, u32>>,
                        known: map<nat, Known>, boot: Block, n: nat)
    requires (forall k :: k in v && k in v') && Recorded(sb, v, links, zones, sizes, dirs, known, boot)
    requires sb.Layout() && n in known && InTableAs(sb, v', n, known[n].rec)
    requires forall y: nat :: y != n && sb.IsTableBlk(TableBlk(sb, y)) ==> OnDisk(sb, v', y) == OnDisk(sb, v, y)
    requires forall k: Key :: k.dev != sb.dev || !sb.IsTableBlk(k.blk) ==> v'[k] == v[k]
    ensures Recorded(sb, v', links, zones, sizes, dirs, known[n := Known(known[n].rec, false)], boot)
  {
    hide Describes, OnDisk;
  }

  /** Inode n goes, with its record and its zones. */
  lemma RecordedGone(sb: SuperBlock, v: imap<Key, Block>, v': imap<Key, Block>, links: map<nat, u16>,
                     zones: map<nat, seq<u32>>, sizes: map<nat, u32>, dirs: map<nat, map<Name, u32>>,
                     known: map<nat, Known>, boot: Block, n: nat)
    requires (forall k :: k in v && k in v') && Recorded(sb, v, links, zones, sizes, dirs, known, boot)
             && TableKept(sb, v, v')
    ensures Recorded(sb, v', links - {n}, zones - {n}, sizes, dirs, known - {n}, boot)
  {
    hide InTableAs, TableKept;
    BootBlockKept(sb, v, v');
    forall y | y in known - {n} ensures Describes(known[y].rec, y, links - {n}, zones - {n}, sizes, dirs) {
      assert Describes(known[y].rec, y, links, zones, sizes, dirs);
    }
    forall y | y in known - {n} && !known[y].behind ensures InTableAs(sb, v', y, known[y].rec) {
      InTableKept(sb, v, v', y, known[y].rec);
    }
  }

  /** The record of inode n is as it was, and when the inode was last put it is on disk. */
  ghost predicate OnDiskNow(known: map<nat, Known>, known': map<nat, Known>, n: nat, last: bool) {
    n in known && n in known' && known'[n].rec == known[n].rec && (last ==> !known'[n].behind)
  }

  /** What is known of all inodes but x and y stays. */
  ghost predicate KnownKept(known: map<nat, Known>, known': map<nat, Known>, x: int, y: int) {
    forall n :: n in known && n != x && n != y ==> n in known' && known'[n] == known[n]
  }

  ghost function WithEntry(dirs: map<nat, map<Name, u32>>, d: nat, name: Name, nr: u32): map<nat, map<Name, u32>>
    requires d in dirs
  {
    var l: map<Name, u32> := dirs[d][name := nr];
    dirs[d := l]
  }

  ghost function WithoutEntry(dirs: map<nat, map<Name, u32>>, d: nat, name: Name): map<nat, map<Name, u32>>
    requires d in dirs
  {
    dirs[d := dirs[d] - {name}]
  }

  /** A device file keeps its device number in zone 0. */
  function FreshZones(mode: u16, rdev: u16): seq<u32> {
    if FileType(mode) == S_IFBLK || FileType(mode) == S_IFCHR then [rdev, 0, 0, 0, 0, 0, 0, 0, 0] else NO_ZONES
  }

  lemma FreshZonesAre(mode: u16, rdev: u16)
    ensures var z := FreshZones(mode, rdev);
            |z| == 9 && forall i: nat :: i < 9 ==>
              z[i] == if i == 0 && (mode / 0x1000 == 2 || mode / 0x1000 == 6) then rdev else 0
  {
  }

  /** One link more for x, whose count has 16 bits. */
  ghost function OneMore(links: map<nat, u16>, x: nat): map<nat, u16>
    requires x in links
  {
    links[x := (links[x] as int + 1) % 0x1_0000]
  }

  /** One link less for x, which goes away with its last link when nobody holds it. */
  ghost function OneLess(links: map<nat, u16>, x: nat, idle: bool): map<nat, u16>
    requires x in links
  {
    if links[x] <= 1 && idle then links - {x} else links[x := if links[x] == 0 then 0 else links[x] - 1]
  }

  /** The inode that name stands for in directory d, -1 if there is none. */
  ghost function NamedBy(dirs: map<nat, map<Name, u32>>, d: nat, name: Name): int
    requires d in dirs
  {
    if name in dirs[d] then dirs[d][name] else -1
  }

  /** The same if it is no longer in use. */
  ghost function GoneBy(dirs: map<nat, map<Name, u32>>, links: map<nat, u16>, d: nat, name: Name): int
    requires d in dirs
  {
    if NamedBy(dirs, d, name) in links then -1 else NamedBy(dirs, d, name)
  }

  /** Only this name of this directory is new. */
  lemma EntryAdded(dirs: map<nat, map<Name, u32>>, d: nat, name: Name, nr: u32)
    requires d in dirs
    ensures var dirs' := WithEntry(dirs, d, name, nr);
            && dirs'.Keys == dirs.Keys && name in dirs'[d] && dirs'[d][name] == nr
            && (forall x :: x in dirs'[d] <==> x == name || x in dirs[d])
            && (forall x :: x in dirs[d] && x != name ==> dirs'[d][x] == dirs[d][x])
            && forall y :: y in dirs && y != d ==> dirs'[y] == dirs[y]
  {
  }

  /** Only this name of this directory is gone. */
  lemma EntryRemoved(dirs: map<nat, map<Name, u32>>, d: nat, name: Name)
    requires d in dirs
    ensures var dirs' := WithoutEntry(dirs, d, name);
            && dirs'.Keys == dirs.Keys
            && (forall x :: x in dirs'[d] <==> x != name && x in dirs[d])
            && (forall x :: x in dirs[d] && x != name ==> dirs'[d][x] == dirs[d][x])
            && forall y :: y in dirs && y != d ==> dirs'[y] == dirs[y]
  {
  }

  /** A link more: the 16-bit count of x goes up, the inodes in use and the other counts stay. */
  lemma LinkAdded(links: map<nat, u16>, x: nat)
    requires x in links
    ensures var links' := OneMore(links, x);
            && links'.Keys == links.Keys
            && (links[x] < 65535 ==> links'[x] == links[x] + 1) && (links[x] == 65535 ==> links'[x] == 0)
            && forall y :: y in links && y != x ==> links'[y] == links[y]
  {
  }

  /** A link less: inode x goes out of use exactly when that was its last link and it is idle. */
  lemma LinkTaken(links: map<nat, u16>, x: nat, idle: bool)
    requires x in links && links[x] > 0
    ensures var links' := OneLess(links, x, idle);
            && (x in links' <==> links[x] > 1 || !idle) && (x in links' ==> links'[x] == links[x] - 1)
            && (forall y :: y != x ==> (y in links' <==> y in links))
            && forall y :: y in links && y != x ==> links'[y] == links[y]
  {
  }

  lemma RefsAdded(dirs: map<nat, map<Name, u32>>, d: nat, name: Name, nr: u32, x: nat)
    requires d in dirs && name !in dirs[d]
    ensures Refs(WithEntry(dirs, d, name, nr), x) == Refs(dirs, x) + if x == nr then {(d, name)} else {}
    ensures (d, name) !in Refs(dirs, x)
  {
  }

  lemma RefsRemoved(dirs: map<nat, map<Name, u32>>, d: nat, name: Name, x: nat)
    requires d in dirs && name in dirs[d]
    ensures Refs(WithoutEntry(dirs, d, name), x) == Refs(dirs, x) - {(d, name)}
    ensures (d, name) in Refs(dirs, x) <==> dirs[d][name] == x
  {
  }

  lemma RefsHas(dirs: map<nat, map<Name, u32>>, d: nat, n: Name)
    requires d in dirs && n in dirs[d]
    ensures (d, n) in Refs(dirs, dirs[d][n])
  {
  }

  /** What a name stands for has links: the repair branch of do_unhlink is never taken. */
  lemma NamedLinked(dirs: map<nat, map<Name, u32>>, links: map<nat, u16>, d: nat, name: Name)
    requires Closed(dirs, links) && Counted(dirs, links, -1) && d in dirs && name in dirs[d]
    ensures dirs[d][name] in links && links[dirs[d][name]] != 0
  {
    RefsHas(dirs, d, name);
    if Refs(dirs, dirs[d][name]) == {} { assert false; }
  }

  /** A new entry for x: one more reference to x, none to others. */
  lemma CountedAdd(dirs: map<nat, map<Name, u32>>, links: map<nat, u16>, d: nat, name: Name, x: u32)
    requires d in dirs && name !in dirs[d] && Closed(dirs, links) && x in links
    requires Counted(dirs, links, x)
    ensures var dirs' := WithEntry(dirs, d, name, x);
            Closed(dirs', links) && Counted(dirs', links, x) && |Refs(dirs', x)| == |Refs(dirs, x)| + 1
  {
    hide Refs;
    var dirs' := WithEntry(dirs, d, name, x);
    RefsAdded(dirs, d, name, x, x);
    forall y | y in links && y !in dirs' && y != x ensures links[y] == |Refs(dirs', y)| {
      RefsAdded(dirs, d, name, x, y);
      assert Refs(dirs', y) == Refs(dirs, y);
    }
  }

  lemma CountedRemove(dirs: map<nat, map<Name, u32>>, links: map<nat, u16>, d: nat, name: Name)
    requires d in dirs && name in dirs[d] && Closed(dirs, links) && Counted(dirs, links, -1)
    ensures var x, dirs' := dirs[d][name], WithoutEntry(dirs, d, name);
            Closed(dirs', links) && Counted(dirs', links, x) && |Refs(dirs', x)| == |Refs(dirs, x)| - 1
  {
    hide Refs;
    var x, dirs' := dirs[d][name], WithoutEntry(dirs, d, name);
    RefsRemoved(dirs, d, name, x);
    forall y | y in links && y !in dirs' && y != x ensures links[y] == |Refs(dirs', y)| {
      RefsRemoved(dirs, d, name, y);
      assert Refs(dirs', y) == Refs(dirs, y);
    }
  }

  /** The count of x is set right again. */
  lemma CountedSet(dirs: map<nat, map<Name, u32>>, links: map<nat, u16>, x: nat, n: u16)
    requires Closed(dirs, links) && Counted(dirs, links, x) && x in links && x !in dirs
    ensures Closed(dirs, links[x := n]) && Counted(dirs, links[x := n], x)
    ensures Counted(dirs, links[x := n], -1) <==> n == |Refs(dirs, x)|
  {
    forall y | y in links && y !in dirs && y != x ensures links[x := n][y] == |Refs(dirs, y)| {}
    if Counted(dirs, links[x := n], -1) {
      assert x in links[x := n] && links[x := n][x] == |Refs(dirs, x)|;
    }
  }

  lemma CountedWiden(dirs: map<nat, map<Name, u32>>, links: map<nat, u16>, x: int)
    requires Counted(dirs, links, -1)
    ensures Counted(dirs, links, x)
    ensures x in links && x !in dirs ==> links[x] == |Refs(dirs, x)|
  {
  }

  lemma RoomyOne(sb: SuperBlock)
    requires sb.Roomy(3)
    ensures sb.Roomy(1)
  {
  }

  lemma RoomyLess(sb: SuperBlock)
    requires sb.Roomy(3)
    ensures sb.Roomy(2)
  {
  }

  /** The 16-bit count survives a new entry exactly when it was not at its maximum. */
  lemma LinkCountsIff(dirs: map<nat, map<Name, u32>>, links: map<nat, u16>, d: nat, name: Name, x: u32)
    requires Closed(dirs, links) && Counted(dirs, links, -1) && x in links && x !in dirs
    requires d in dirs && name !in dirs[d]
    ensures Counted(WithEntry(dirs, d, name, x), OneMore(links, x), -1) <==> links[x] != 0xFFFF
  {
    hide Refs, Closed, Counted;
    CountedWiden(dirs, links, x);
    CountedAdd(dirs, links, d, name, x);
    CountedSet(WithEntry(dirs, d, name, x), links, x, (links[x] as int + 1) % 0x1_0000);
  }

  /** The i-th of 65536 names. */
  function NameOf(i: nat): Name
    requires i < 0x1_0000
  {
    [i / 256, i % 256]
  }

  /** A directory with n names for inode 5. */
  ghost function Names(n: nat): (l: map<Name, u32>)
    requires n <= 0x1_0000
    ensures forall k :: k in l ==> l[k] == 5 && |k| == 2 && k[0] as int * 256 + k[1] as int < n
  {
    if n == 0 then map[] else Names(n - 1)[NameOf(n - 1) := 5]
  }

  lemma {:induction false} NamesRefer(n: nat)
    requires n <= 0x1_0000
    ensures |Refs(map[0 := Names(n)], 5)| == n
  {
    hide Refs;
    if n == 0 {
      NoRefs();
    } else {
      NamesRefer(n - 1);
      var dirs: map<nat, map<Name, u32>> := map[0 := Names(n - 1)];
      RefsAdded(dirs, 0, NameOf(n - 1), 5, 5);
      assert WithEntry(dirs, 0, NameOf(n - 1), 5) == map[0 := Names(n)];
    }
  }

  lemma NoRefs()
    ensures Refs(map[0 := map[]], 5) == {}
  {
  }

  /** 65535 names for inode 5, and one more: the count is 0 then, with 65536 names. */
  lemma LinkCountWraps()
    ensures var dirs, links: map<nat, u16> := map[0 := Names(0xFFFF)], map[0 := 2, 5 := 0xFFFF];
            && Closed(dirs, links) && Counted(dirs, links, -1) && NameOf(0xFFFF) !in dirs[0]
            && OneMore(links, 5)[5] == 0 && !Counted(WithEntry(dirs, 0, NameOf(0xFFFF), 5), OneMore(links, 5), -1)
  {
    hide Refs, Names;
    var dirs: map<nat, map<Name, u32>>, links: map<nat, u16> := map[0 := Names(0xFFFF)], map[0 := 2, 5 := 0xFFFF];
    NamesRefer(0xFFFF);
    LinkCountsIff(dirs, links, 0, NameOf(0xFFFF), 5);
  }

  lemma CountedFirst(dirs: map<nat, map<Name, u32>>, links: map<nat, u16>, x: nat)
    requires Counted(dirs, links, x) && x in links && links[x] == |Refs(dirs, x)|
    ensures Counted(dirs, links, -1)
  {
  }

  lemma CountedNew(dirs: map<nat, map<Name, u32>>, links: map<nat, u16>, x: nat, n: u16)
    requires Closed(dirs, links) && Counted(dirs, links, -1) && x !in links
    ensures Closed(dirs, links[x := n]) && Counted(dirs, links[x := n], x) && Refs(dirs, x) == {} && x !in dirs
  {
  }

  /** An inode without entries and links goes away. */
  lemma CountedGone(dirs: map<nat, map<Name, u32>>, links: map<nat, u16>, x: nat, pending: int)
    requires Closed(dirs, links) && Counted(dirs, links, pending) && x in links && x !in dirs
    requires links[x] == 0 && x != pending
    ensures Closed(dirs, links - {x}) && Counted(dirs, links - {x}, pending) && Refs(dirs, x) == {}
  {
    assert |Refs(dirs, x)| == 0;
    assert Refs(dirs, x) == {};
    forall d, n | d in dirs && n in dirs[d] ensures dirs[d][n] in links - {x} {
      RefsHas(dirs, d, n);
    }
  }

  // ---- what a change of one file means for the directories ----

  lemma DirsKept(vol: Vol, vol': Vol, d: int, ats: map<nat, map<Name, nat>>, sizes: map<nat, u32>,
                 dirs: map<nat, map<Name, u32>>)
    requires AllListed(vol, ats, sizes, dirs) && vol'.Wf() && OthersSame(vol, vol', d)
    ensures forall g :: g in ats && g != d ==>
            Listed(vol', g, sizes[g], ats[g]) && g in vol'.zones && Listing(vol', g, ats[g]) == dirs[g]
  {
    hide Listed, Listing, OthersSame;
    forall g | g in ats && g != d
      ensures Listed(vol', g, sizes[g], ats[g]) && g in vol'.zones && Listing(vol', g, ats[g]) == dirs[g]
    {
      OtherListing(vol, vol', d, g, sizes[g], ats[g]);
      ListedIn(vol', g, sizes[g], ats[g]);
    }
  }

  lemma AllListedKept(vol: Vol, vol': Vol, d: int, ats: map<nat, map<Name, nat>>, sizes: map<nat, u32>,
                      dirs: map<nat, map<Name, u32>>)
    requires AllListed(vol, ats, sizes, dirs) && vol'.Wf() && OthersSame(vol, vol', d) && d !in dirs
    ensures AllListed(vol', ats, sizes, dirs)
  {
    hide Listed, Listing, OthersSame;
    DirsKept(vol, vol', d, ats, sizes, dirs);
  }

  /** Directory d changed to a new listing. */
  lemma AllListedPut(vol: Vol, vol': Vol, d: nat, ats: map<nat, map<Name, nat>>, sizes: map<nat, u32>,
                     dirs: map<nat, map<Name, u32>>, at: map<Name, nat>, size: u32)
    requires AllListed(vol, ats, sizes, dirs) && vol'.Wf() && OthersSame(vol, vol', d) && d in ats
    requires Listed(vol', d, size, at)
    ensures AllListed(vol', ats[d := at], sizes[d := size], dirs[d := Listing(vol', d, at)])
  {
    hide Listed, Listing, OthersSame;
    DirsKept(vol, vol', d, ats, sizes, dirs);
    ListedIn(vol', d, size, at);
  }

  lemma ListedIn(vol: Vol, d: nat, size: nat, at: map<Name, nat>)
    requires Listed(vol, d, size, at)
    ensures vol.Wf() && d in vol.zones
  {
  }

  /** Contents outside files and bitmaps have no bearing on files or on the bits. */
  lemma MetaChange(sb: SuperBlock, vol: Vol, own: map<u32, Place>, v: imap<Key, Block>)
    requires sb.Layout() && vol.dev == sb.dev && (forall k :: k in v) && vol.Wf()
    requires Forest(vol, own, sb.firstDatazone, sb.nzones) && Marked(sb, vol.v, own, 0)
    requires forall k: Key :: k.dev == sb.dev && (sb.IsDataZone(k.blk) || sb.IsZmapKey(k)) ==> v[k] == vol.v[k]
    ensures var vol' := vol.(v := v);
            && vol'.Wf() && Forest(vol', own, sb.firstDatazone, sb.nzones) && Marked(sb, v, own, 0)
            && OthersSame(vol, vol', -1)
  {
    hide SuperBlock.ZoneBit;
    var vol' := vol.(v := v);
    OwnRange(vol, own, sb.firstDatazone, sb.nzones);
    ForestFrame(vol, own, sb.firstDatazone, sb.nzones, vol');
    FrameBytes(vol, own, sb.firstDatazone, sb.nzones, vol');
    sb.ZoneBitSame(vol.v, v);
  }

  lemma DirListing(vol: Vol, ats: map<nat, map<Name, nat>>, sizes: map<nat, u32>, dirs: map<nat, map<Name, u32>>,
                   d: nat)
    requires AllListed(vol, ats, sizes, dirs) && d in dirs
    ensures d in ats && d in sizes && vol.Wf() && d in vol.zones && Listed(vol, d, sizes[d], ats[d])
    ensures dirs[d] == Listing(vol, d, ats[d]) && dirs[d].Keys == ats[d].Keys
  {
  }

  lemma AddedListing(vol: Vol, vol': Vol, d: nat, size: nat, at: map<Name, nat>, name: Name, nr: u32, e: nat, ok: bool)
    requires ok ==> Added(vol, vol', d, size, at, name, nr, e)
    ensures ok ==> vol.Wf() && vol'.Wf() && d in vol.zones && d in vol'.zones && vol'.zones.Keys == vol.zones.Keys
    ensures ok ==> OthersSame(vol, vol', d) && Listed(vol', d, size, at[name := e])
    ensures ok ==> Listing(vol', d, at[name := e]) == Listing(vol, d, at)[name := nr]
  {
  }

  lemma ShornOthers(sb: SuperBlock, vol: Vol, vol': Vol, own: map<u32, Place>, f: nat)
    requires sb.Layout() && vol.Wf() && vol'.Wf() && Shorn(sb, vol, vol', own, f)
    ensures OthersSame(vol, vol', f)
    ensures forall k: Key :: sb.IsMeta(k) ==> vol'.v[k] == vol.v[k]
  {
  }

  lemma OthersWiden(vol: Vol, vol': Vol, f: int)
    requires vol.Wf() && vol'.Wf() && OthersSame(vol, vol', -1)
    ensures OthersSame(vol, vol', f)
  {
  }

  lemma DropOthers(vol: Vol, own: map<u32, Place>, lo: nat, hi: nat, f: nat)
    requires Forest(vol, own, lo, hi) && f in vol.zones && vol.zones[f] == NO_ZONES
    ensures var vol' := vol.(zones := vol.zones - {f});
            Forest(vol', own, lo, hi) && vol'.Wf() && OthersSame(vol, vol', f)
  {
    Drop(vol, own, lo, hi, f);
  }

  lemma AdoptOthers(vol: Vol, own: map<u32, Place>, lo: nat, hi: nat, f: nat)
    requires Forest(vol, own, lo, hi) && f !in vol.zones
    ensures var vol' := vol.(zones := vol.zones[f := NO_ZONES]);
            Forest(vol', own, lo, hi) && vol'.Wf() && OthersSame(vol, vol', -1)
  {
    Adopt(vol, own, lo, hi, f);
  }

  /** The boot block and the super block stay as they are. */
  ghost predicate BootKept(v: imap<Key, Block>, v': imap<Key, Block>) {
    forall k: Key :: k in v && k in v' && k.blk < 2 ==> v'[k] == v[k]
  }

  lemma BootKeptTwice(v: imap<Key, Block>, v1: imap<Key, Block>, v2: imap<Key, Block>)
    requires (forall k :: k in v1) && BootKept(v, v1) && BootKept(v1, v2)
    ensures BootKept(v, v2)
  {
  }

  lemma BootSame(v: imap<Key, Block>)
    ensures BootKept(v, v)
  {
  }

  lemma MetaBoot(sb: SuperBlock, v: imap<Key, Block>, v': imap<Key, Block>)
    requires sb.Layout() && (forall k :: k in v && k in v') && forall k: Key :: sb.IsMeta(k) ==> v'[k] == v[k]
    ensures BootKept(v, v')
  {
  }

  /** What file_wr did to file f: the bytes went to their targets and no other byte of any file
      changed; the size is the larger of the old one and the end of the write. */
  ghost predicate Wrote(vol: Vol, vol': Vol, f: nat, fpos: nat, pos: nat, s: seq<byte>, n: nat, size: nat, size': nat)
    requires vol.Wf() && vol'.Wf() && f in vol.zones
  {
    && n <= |s| && Overwritten(vol, vol', f, fpos, pos, s, n) && OthersSame(vol, vol', f)
    && size' == if pos + n > size && n > 0 then pos + n else size
  }

  /** A mounted volume with its names: the link count of every inode in use, and what
      each directory lists. A MemInode stands for the current copy of its inode. */
  class Namespace {
    const vol: Volume
    ghost var links: map<nat, u16>
    ghost var ats: map<nat, map<Name, nat>>
    ghost var sizes: map<nat, u32>
    ghost var dirs: map<nat, map<Name, u32>>
    ghost var known: map<nat, Known>
    ghost const boot: Block          // the super block

    constructor (vol: Volume, ghost boot: Block)
      ensures this.vol == vol && this.boot == boot
      ensures links == map[] && ats == map[] && sizes == map[] && dirs == map[] && known == map[]
    {
      this.vol, this.boot := vol, boot;
      links, ats, sizes, dirs, known := map[], map[], map[], map[], map[];
    }

    /** Nobody holds a block of the data zone, as between two system calls. */
    ghost predicate Quiet()
      reads vol.sb.cache
    {
      forall k: Key :: k in vol.sb.cache.pins && k.dev == vol.sb.dev ==> !vol.sb.IsDataZone(k.blk)
    }

    /** The counts agree with the entries, but for inode x on its way in or out. */
    ghost predicate Sound(x: int)
      reads this`links, this`ats, this`sizes, this`dirs, vol, vol.sb, vol.sb.cache.Repr()
      ensures Sound(x) ==> vol.Valid() && this !in vol.sb.cache.Repr()
    {
      && this !in vol.sb.cache.Repr()
      && vol.Valid() && TableFits(vol.sb) && Quiet()
      && vol.zones.Keys <= links.Keys
      && AllListed(vol.Now(), ats, sizes, dirs)
      && Closed(dirs, links) && Counted(dirs, links, x)
      && InodesMarked(vol.sb, vol.sb.cache.view, links)
    }

    /** And the records of all inodes are known. */
    ghost predicate Valid(x: int)
      reads this, vol, vol.sb, vol.sb.cache.Repr()
      ensures Valid(x) ==> vol.Valid() && this !in vol.sb.cache.Repr()
    {
      && Sound(x)
      && Recorded(vol.sb, vol.sb.cache.view, links, vol.zones, sizes, dirs, known, boot)
    }

    /** m is the current copy of its inode. */
    ghost predicate Current(m: MemInode)
      reads this`links, this`known, m
    {
      && m.dev == vol.sb.dev && m.valid && m.num in links && m.nlinks == links[m.num]
      && m.num in known && known[m.num].rec == Stored(m)
    }

    /** And it is dirty whenever the record on disk is behind. */
    ghost predicate Linked(m: MemInode)
      reads this`links, this`known, m
    {
      Current(m) && (known[m.num].behind ==> m.dirt)
    }

    /** What a current copy says is what the rest of the state says. */
    lemma Facts(m: MemInode, x: int)
      requires Valid(x) && Current(m)
      ensures Describes(Stored(m), m.num, links, vol.zones, sizes, dirs)
      ensures Recorded(vol.sb, vol.sb.cache.view, links, vol.zones, sizes, dirs, known, boot)
      ensures m.num in vol.zones ==> vol.Loaded(m)
      ensures |m.zone| == 9
    {
      hide SuperBlock.Valid, Forest, AllListed, Counted, Closed, InodesMarked, InTableAs;
      assert Describes(known[m.num].rec, m.num, links, vol.zones, sizes, dirs);
    }

    /** What the invariant says of inode number n between two operations: its bit is set exactly when it is in
        use; its count is the number of names it has, unless it is a directory; its record has the count, and the
        zones of its file, and is in the inode table if it is not behind. */
    lemma WhatHolds(n: nat)
      requires Valid(-1) && n < vol.sb.imapBlocks * BITS_PER_BLK
      ensures vol.sb.InodeBit(vol.sb.cache.view, n) <==> n in links
      ensures n in links && n !in dirs ==>
                links[n] == |set d, x | d in dirs && x in dirs[d] && dirs[d][x] == n :: (d, x)|
      ensures n in known <==> n in links
      ensures n in links ==> known[n].rec.nlinks == links[n]
      ensures n in links ==> (n in dirs <==> known[n].rec.mode / 0x1000 == 4)
      ensures n in links ==> (n in vol.zones <==> known[n].rec.mode / 0x1000 == 4 || known[n].rec.mode / 0x1000 == 8)
      ensures n in vol.zones ==> n in links && known[n].rec.zone == vol.zones[n]
      ensures n in links && !known[n].behind ==> OnDisk(vol.sb, vol.sb.cache.view, n) == known[n].rec
      ensures n in dirs ==> n in links && links[n] > 0 && forall x :: x in dirs[n] ==> dirs[n][x] in links
    {
      hide SuperBlock.Valid, Forest, AllListed, SuperBlock.InodeBit, OnDisk, SuperBlock.IsTableBlk;
      assert n in known ==> Describes(known[n].rec, n, links, vol.zones, sizes, dirs);
      if n in links && n !in dirs {
        assert Refs(dirs, n) == set d, x | d in dirs && x in dirs[d] && dirs[d][x] == n :: (d, x);
      }
    }

    lemma KnownKeys(x: int)
      requires Valid(x)
      ensures known.Keys == links.Keys
    {
    }

    lemma FilesInUse(x: int)
      requires Valid(x)
      ensures vol.zones.Keys <= links.Keys
    {
    }

    lemma KindKnown(n: nat, x: int)
      requires Valid(x) && n in known
      ensures n in dirs <==> FileType(known[n].rec.mode) == S_IFDIR
      ensures n in vol.zones <==> FileType(known[n].rec.mode) == S_IFREG || FileType(known[n].rec.mode) == S_IFDIR
    {
      hide SuperBlock.Valid, Forest, AllListed, Counted, Closed, InodesMarked, InTableAs;
      assert Describes(known[n].rec, n, links, vol.zones, sizes, dirs);
    }

    lemma Kind(m: MemInode, x: int)
      requires Valid(x) && Current(m)
      ensures m.num in dirs <==> FileType(m.mode) == S_IFDIR
    {
      Facts(m, x);
    }

    /** From contents v and the state given, inode m changed to what it is now. */
    ghost method Note(m: MemInode, x: int, v: imap<Key, Block>, links0: map<nat, u16>, zones0: map<nat, seq<u32>>,
                      sizes0: map<nat, u32>, dirs0: map<nat, map<Name, u32>>, behind: bool)
      requires Sound(x) && (forall k :: k in v) && TableKept(vol.sb, v, vol.sb.cache.view)
      requires Recorded(vol.sb, v, links0, zones0, sizes0, dirs0, known, boot)
      requires links == links0[m.num := m.nlinks] && ElsewhereSame(m.num, zones0, vol.zones, sizes0, sizes, dirs0, dirs)
      requires Describes(Stored(m), m.num, links, vol.zones, sizes, dirs)
      requires behind || (m.num in known && known[m.num] == Known(Stored(m), false))
      modifies this`known
      ensures Valid(x) && known == old(known)[m.num := Known(Stored(m), behind)]
    {
      hide Sound, SuperBlock.Valid, Volume.Rooted, AllListed, Counted, Closed, InodesMarked, Recorded, TableKept,
           Describes, ElsewhereSame;
      RecordedStep(vol.sb, v, vol.sb.cache.view, links0, links, zones0, vol.zones, sizes0, sizes, dirs0, dirs, known,
        boot, m.num, Known(Stored(m), behind));
      known := known[m.num := Known(Stored(m), behind)];
    }

    /** Only what is known of directory m, which read d0 in contents v, is not up to date. */
    ghost predicate DirDue(m: MemInode, x: int, v: imap<Key, Block>, d0: DevInode, zones0: map<nat, seq<u32>>,
                           sizes0: map<nat, u32>, dirs0: map<nat, map<Name, u32>>)
      reads this, vol, vol.sb, vol.sb.cache.Repr(), m
    {
      && Sound(x) && (forall k :: k in v) && TableKept(vol.sb, v, vol.sb.cache.view) && m.dev == vol.sb.dev && m.valid
      && Recorded(vol.sb, v, links, zones0, sizes0, dirs0, known, boot)
           && Describes(d0, m.num, links, zones0, sizes0, dirs0)
      && m.num in dirs0 && dirs.Keys == dirs0.Keys && |m.zone| == 9 && Stored(m) == d0.(zone := m.zone, size := m.size)
      && vol.zones == zones0[m.num := m.zone] && sizes == sizes0[m.num := m.size]
      && m.num in known && known[m.num].rec == d0 && (known[m.num].behind || Stored(m) != d0 ==> m.dirt)
    }

    ghost method NoteDir(m: MemInode, x: int, v: imap<Key, Block>, d0: DevInode, zones0: map<nat, seq<u32>>,
                         sizes0: map<nat, u32>, dirs0: map<nat, map<Name, u32>>)
      requires DirDue(m, x, v, d0, zones0, sizes0, dirs0)
      modifies this`known
      ensures Valid(x) && Linked(m) && known == old(known)[m.num := Known(Stored(m), m.dirt)]
    {
      hide SuperBlock.Valid, Volume.Rooted, Recorded, TableKept, Sound, Describes, ElsewhereSame, Namespace.Valid;
      DescribesDir(m.num, d0, Stored(m), links, zones0, vol.zones, sizes0, sizes, dirs0, dirs);
      SameLinks(d0, m.num, zones0, sizes0, dirs0);
      Note(m, x, v, links, zones0, sizes0, dirs0, m.dirt);
    }

    /** Only what is known of file m, which read d0 in contents v, is not up to date. */
    ghost predicate FileDue(m: MemInode, x: int, v: imap<Key, Block>, d0: DevInode, zones0: map<nat, seq<u32>>)
      reads this, vol, vol.sb, vol.sb.cache.Repr(), m
    {
      && Sound(x) && (forall k :: k in v) && TableKept(vol.sb, v, vol.sb.cache.view) && m.dev == vol.sb.dev && m.valid
      && Recorded(vol.sb, v, links, zones0, sizes, dirs, known, boot)
           && Describes(d0, m.num, links, zones0, sizes, dirs)
      && m.num !in dirs && m.num in zones0 && |m.zone| == 9 && Stored(m) == d0.(zone := m.zone, size := m.size)
      && vol.zones == zones0[m.num := m.zone] && m.num in links && m.nlinks == links[m.num]
      && m.num in known && known[m.num].rec == d0
    }

    ghost method NoteFile(m: MemInode, x: int, v: imap<Key, Block>, d0: DevInode, zones0: map<nat, seq<u32>>)
      requires FileDue(m, x, v, d0, zones0)
      modifies this`known
      ensures Valid(x) && Current(m)
      ensures known == old(known)[m.num := Known(Stored(m), old(known)[m.num].behind || Stored(m) != d0)]
    {
      hide SuperBlock.Valid, Volume.Rooted, Recorded, TableKept, Sound, Describes, ElsewhereSame, Namespace.Valid;
      DescribesFile(m.num, d0, Stored(m), links, zones0, vol.zones, sizes, dirs);
      SameLinks(d0, m.num, zones0, sizes, dirs);
      Note(m, x, v, links, zones0, sizes, dirs, known[m.num].behind || Stored(m) != d0);
    }

    lemma SameLinks(d: DevInode, n: nat, zones: map<nat, seq<u32>>, sizes: map<nat, u32>,
                    dirs: map<nat, map<Name, u32>>)
      requires Describes(d, n, links, zones, sizes, dirs)
      ensures links[n := d.nlinks] == links
    {
    }

    /** The table gets the record of a dirty inode; nothing else on the volume changes. */
    method PutRecord(m: MemInode)
      requires vol.sb.Valid() && m.dirt && m.dev == vol.sb.dev && |m.zone| == 9 && vol.sb.Roomy(1)
      requires vol.sb.IsTableBlk(TableBlk(vol.sb, m.num))
      modifies vol.sb.cache.Repr(), m`dirt, m`valid
      ensures vol.sb.Valid() && vol.sb.cache.pins == old(vol.sb.cache.pins)
      ensures !m.dirt && m.valid && Stored(m) == old(Stored(m)) && OnDisk(vol.sb, vol.sb.cache.view, m.num) == Stored(m)
      ensures forall n: nat :: n != m.num && vol.sb.IsTableBlk(TableBlk(vol.sb, n)) ==>
                OnDisk(vol.sb, vol.sb.cache.view, n) == OnDisk(vol.sb, old(vol.sb.cache.view), n)
      ensures forall k: Key :: k.dev != vol.sb.dev || !vol.sb.IsTableBlk(k.blk) ==>
                vol.sb.cache.view[k] == old(vol.sb.cache.view)[k]
      ensures old(vol.Full()) ==> vol.Full()
    {
      hide SuperBlock.Valid, SuperBlock.Exhausted, InodeAt, SuperBlock.Roomy;
      ghost var v := vol.sb.cache.view;
      WriteDevInode(vol.sb, m);
      vol.sb.StillExhausted(v);
    }

    /** write_dev_inode of a dirty inode. */
    method WriteBack(m: MemInode, ghost x: int)
      requires Valid(x) && Linked(m) && m.dirt && vol.sb.Roomy(1)
      modifies vol.sb.cache.Repr(), this`known, m`dirt, m`valid
      ensures Valid(x) && Linked(m) && Stored(m) == old(Stored(m)) && vol.sb.cache.pins == old(vol.sb.cache.pins)
              && !m.dirt
      ensures known == old(known)[m.num := Known(Stored(m), false)]
      ensures BootKept(old(vol.sb.cache.view), vol.sb.cache.view)
      ensures vol.sb.IsTableBlk(TableBlk(vol.sb, m.num)) && OnDisk(vol.sb, vol.sb.cache.view, m.num) == Stored(m)
      ensures OthersSame(old(vol.Now()), vol.Now(), -1) && (old(vol.Full()) ==> vol.Full())
    {
      hide SuperBlock.Roomy, SuperBlock.Valid, Forest, AllListed, Counted, Closed, OthersSame, InodeAt, Marked,
           SuperBlock.InodeBit, Recorded, Volume.Full;
      Facts(m, x);
      ghost var now := vol.Now();
      InTable(vol.sb, vol.sb.cache.view, links, m.num);
      PutRecord(m);
      MetaChange(vol.sb, now, vol.own, vol.sb.cache.view);
      InodesKept(vol.sb, now.v, vol.sb.cache.view, links);
      AllListedKept(now, vol.Now(), -1, ats, sizes, dirs);
      RecordedWritten(vol.sb, now.v, vol.sb.cache.view, links, vol.zones, sizes, dirs, known, boot, m.num);
      known := known[m.num := Known(Stored(m), false)];
    }

    /** The blocks of an inode that is not a directory. */
    method ClearBlocks(m: MemInode, ghost x: int)
      requires Valid(x) && Current(m) && m.num !in dirs && vol.sb.Roomy(3)
      modifies vol.sb.cache.Repr(), vol`zones, vol`own, m`zone, m`size
      ensures Sound(x) && vol.sb.cache.pins == old(vol.sb.cache.pins)
      ensures BootKept(old(vol.sb.cache.view), vol.sb.cache.view)
              && TableKept(vol.sb, old(vol.sb.cache.view), vol.sb.cache.view)
      ensures vol.zones.Keys == old(vol.zones).Keys && vol.zones - {m.num} == old(vol.zones) - {m.num}
      ensures m.num in vol.zones ==> vol.zones[m.num] == NO_ZONES == m.zone && m.size == 0
      ensures m.num !in vol.zones ==> m.zone == old(m.zone) && m.size == old(m.size)
      ensures m.num in vol.zones ==> vol.own == Without(old(vol.own), m.num)
      ensures OthersSame(old(vol.Now()), vol.Now(), m.num)
      ensures m.num !in vol.zones || old(m.zone) == NO_ZONES ==> vol.sb.cache.view == old(vol.sb.cache.view)
    {
      hide SuperBlock.Valid, Forest, AllListed, Counted, Closed, OthersSame, Marked, SuperBlock.InodeBit, Spread,
           SuperBlock.ZoneBit, Recorded;
      Facts(m, x);
      ghost var now, own0 := vol.Now(), vol.own;
      UnheldOwn(vol, m.num);
      vol.ClearIblks(m);
      if FileType(m.mode) == S_IFREG {
        ShornOthers(vol.sb, now, vol.Now(), own0, m.num);
      } else {
        OthersSelf(now, m.num);
      }
      MetaBoot(vol.sb, now.v, vol.sb.cache.view);
      TableKeptMeta(vol.sb, now.v, vol.sb.cache.view);
      AllListedKept(now, vol.Now(), m.num, ats, sizes, dirs);
      InodesKept(vol.sb, now.v, vol.sb.cache.view, links);
    }

    /** clear_iblks on an inode that is not a directory, when the record may be left behind. */
    method ClearFile(m: MemInode, ghost x: int)
      requires Valid(x) && Current(m) && m.num !in dirs && vol.sb.Roomy(3)
      modifies vol.sb.cache.Repr(), vol`zones, vol`own, this`known, m`zone, m`size
      ensures known == old(known)[m.num := Known(Stored(m), true)]
      ensures Valid(x) && vol.sb.cache.pins == old(vol.sb.cache.pins)
      ensures BootKept(old(vol.sb.cache.view), vol.sb.cache.view)
      ensures vol.zones.Keys == old(vol.zones).Keys && vol.zones - {m.num} == old(vol.zones) - {m.num}
      ensures m.num in vol.zones ==> vol.zones[m.num] == NO_ZONES == m.zone && m.size == 0
      ensures m.num !in vol.zones ==> m.zone == old(m.zone) && m.size == old(m.size)
      ensures OthersSame(old(vol.Now()), vol.Now(), m.num)
      ensures (m.num !in vol.zones || old(m.zone) == NO_ZONES) && old(vol.Full()) ==> vol.Full()
    {
      hide SuperBlock.Valid, Volume.Rooted, AllListed, Counted, Closed, OthersSame, InodesMarked, SuperBlock.Roomy,
           Recorded, BootKept, TableKept, Sound, SuperBlock.Exhausted;
      Facts(m, x);
      ghost var v, zones := vol.sb.cache.view, vol.zones;
      ClearBlocks(m, x);
      assert forall y :: y in zones && y != m.num ==> y in vol.zones - {m.num} && vol.zones[y] == (zones - {m.num})[y];
      Note(m, x, v, links, zones, sizes, dirs, true);
    }

    /** Between system calls none of a file's blocks is held. */
    lemma UnheldOwn(v: Volume, f: nat)
      requires v.Valid() && v == vol && Quiet()
      ensures v.Unheld(Spread(v.own, f, 9))
    {
    }

    /** memset of an inode in memory. */
    method Wipe(m: MemInode)
      modifies m
      ensures !m.valid && !m.dirt && m.cnt == 0 && m.nlinks == 0
    {
      m.mode, m.uid, m.size, m.mtime, m.gid, m.nlinks, m.magic := 0, 0, 0, 0, 0, 0, 0;
      m.zone, m.unused, m.cnt, m.dirt, m.valid := NO_ZONES, (0, 0), 0, false, false;
    }

    /** A file without blocks leaves the volume. */
    ghost method Leave(f: nat)
      requires vol.Valid() && (f in vol.zones ==> vol.zones[f] == NO_ZONES)
      modifies vol`zones
      ensures vol.Valid() && vol.zones == old(vol.zones) - {f} && OthersSame(old(vol.Now()), vol.Now(), f)
    {
      hide SuperBlock.Valid, Forest, OthersSame, Marked;
      var now := vol.Now();
      if f in vol.zones {
        DropOthers(now, vol.own, vol.sb.firstDatazone, vol.sb.nzones, f);
        vol.zones := vol.zones - {f};
      } else {
        assert vol.zones == vol.zones - {f};
        OthersSelf(now, f);
      }
    }

    /** The clrb of free_inode (fs/bmap.c:157-159); the bit was set. */
    method ClearNumber(num: u32, ghost x: int)
      requires Valid(x) && num in links
      modifies vol.sb.cache.bh, vol.sb.cache`view, vol.sb.cache`pins
      ensures vol.Valid() && this !in vol.sb.cache.Repr() && vol.sb.cache.pins == old(vol.sb.cache.pins) && Quiet()
      ensures BootKept(old(vol.sb.cache.view), vol.sb.cache.view)
              && TableKept(vol.sb, old(vol.sb.cache.view), vol.sb.cache.view)
      ensures InodesMarked(vol.sb, vol.sb.cache.view, links - {num}) && OthersSame(old(vol.Now()), vol.Now(), -1)
      ensures old(vol.Full()) ==> vol.Full()
    {
      hide SuperBlock.Valid, Forest, AllListed, Counted, Closed, OthersSame, Marked, SuperBlock.InodeBit, Recorded,
           SuperBlock.Exhausted;
      ghost var now := vol.Now();
      var busy := vol.sb.PutInodeBit(num, false);
      assert busy;
      MetaChange(vol.sb, now, vol.own, vol.sb.cache.view);
      vol.sb.StillExhausted(now.v);
      TableKeptMeta(vol.sb, now.v, vol.sb.cache.view);
    }

    /** An inode without blocks or links leaves the bitmap and the volume. */
    method FreeNumber(num: u32, ghost x: int)
      requires Valid(x) && num in links && num !in dirs && links[num] == 0 && num != x
      requires num in vol.zones ==> vol.zones[num] == NO_ZONES
      modifies vol.sb.cache.bh, vol.sb.cache`view, vol.sb.cache`pins, vol`zones, this`links, this`known
      ensures Valid(x) && vol.sb.cache.pins == old(vol.sb.cache.pins)
      ensures BootKept(old(vol.sb.cache.view), vol.sb.cache.view)
      ensures links == old(links) - {num} && known == old(known) - {num} && OthersSame(old(vol.Now()), vol.Now(), num)
      ensures vol.zones == old(vol.zones) - {num} && (old(vol.Full()) ==> vol.Full())
    {
      hide SuperBlock.Valid, Volume.Rooted, AllListed, Counted, Closed, OthersSame, InodesMarked, Recorded, BootKept,
           TableKept, SuperBlock.Exhausted;
      ghost var now := vol.Now();
      ClearNumber(num, x);
      ghost var now1 := vol.Now();
      Leave(num);
      OthersWiden(now, now1, num);
      OthersSameTwice(now, now1, vol.Now(), num);
      AllListedKept(now, vol.Now(), num, ats, sizes, dirs);
      CountedGone(dirs, links, num, x);
      RecordedGone(vol.sb, now.v, vol.sb.cache.view, links, now.zones, sizes, dirs, known, boot, num);
      links, known := links - {num}, known - {num};
    }

    /** free_inode (fs/bmap.c:138), for an inode without blocks or links. */
    method FreeInode(m: MemInode, ghost x: int)
      requires Valid(x) && m.dev == vol.sb.dev && m.num in links && m.num !in dirs && links[m.num] == 0 && m.num != x
      requires m.num in vol.zones ==> vol.zones[m.num] == NO_ZONES
      modifies vol.sb.cache.bh, vol.sb.cache`view, vol.sb.cache`pins, vol`zones, this`links, this`known, m
      ensures Valid(x) && vol.sb.cache.pins == old(vol.sb.cache.pins)
      ensures BootKept(old(vol.sb.cache.view), vol.sb.cache.view) && vol.zones == old(vol.zones) - {m.num}
      ensures links == old(links) - {m.num} && known == old(known) - {m.num}
      ensures OthersSame(old(vol.Now()), vol.Now(), m.num) && (old(vol.Full()) ==> vol.Full())
    {
      hide SuperBlock.Valid, Volume.Rooted, AllListed, Counted, Closed, OthersSame, SuperBlock.InodeBit, InodesMarked,
           BootKept, Recorded, SuperBlock.Exhausted;
      FreeNumber(m.num, x);
      Wipe(m);
    }

    lemma NoDirectory(n: nat, x: int)
      requires Valid(x) && n in links && links[n] == 0
      ensures n !in dirs
    {
      hide SuperBlock.Valid, Volume.Rooted, AllListed, Counted, InodesMarked, Recorded;
    }

    /** The branch of iput for the last reference to an inode without links. */
    method Dispose(m: MemInode, ghost x: int)
      requires Valid(x) && Current(m) && m.num != x && m.nlinks == 0 && vol.sb.Roomy(3)
      modifies vol.sb.cache.Repr(), vol`zones, vol`own, this`links, this`known, m
      ensures Valid(x) && vol.sb.cache.pins == old(vol.sb.cache.pins)
      ensures BootKept(old(vol.sb.cache.view), vol.sb.cache.view)
      ensures links == old(links) - {m.num} && OthersSame(old(vol.Now()), vol.Now(), m.num)
      ensures known == old(known) - {m.num} && vol.zones == old(vol.zones) - {m.num}
      ensures (m.num !in old(vol.zones) || old(m.zone) == NO_ZONES) && old(vol.Full()) ==> vol.Full()
    {
      hide Namespace.Valid, Sound, SuperBlock.Valid, SuperBlock.Roomy, Volume.Rooted, AllListed, Counted, Closed,
           OthersSame, SuperBlock.InodeBit, InodesMarked, BootKept, FileType, Room, Recorded, Volume.Full;
      NoDirectory(m.num, x);
      ghost var now := vol.Now();
      ClearFile(m, x);
      ghost var now1 := vol.Now();
      FreeInode(m, x);
      BootKeptTwice(now.v, now1.v, vol.sb.cache.view);
      OthersSameTwice(now, now1, vol.Now(), m.num);
    }

    /** fs/inode.c:92: the inode is freed exactly when neither links nor references are
        left; the last reference to a linked one writes it back if it is dirty. */
    method Iput(m: MemInode, ghost x: int)
      requires Valid(x) && Current(m) && m.num != x && vol.sb.Roomy(3)
      modifies vol.sb.cache.Repr(), vol`zones, vol`own, this`links, this`known, m
      ensures Valid(x) && vol.sb.cache.pins == old(vol.sb.cache.pins)
      ensures BootKept(old(vol.sb.cache.view), vol.sb.cache.view)
      ensures OthersSame(old(vol.Now()), vol.Now(), if old(m.cnt) == 1 && old(m.nlinks) == 0 then m.num else -1)
      ensures old(m.cnt) != 1 || (old(m.nlinks) != 0 && !old(m.dirt)) ==> vol.Now() == old(vol.Now())
      ensures if old(m.cnt) == 1 && old(m.nlinks) == 0
              then links == old(links) - {m.num} && vol.zones == old(vol.zones) - {m.num}
              else && links == old(links) && Current(m) && Stored(m) == old(Stored(m))
                   && (old(Linked(m)) || (old(m.cnt) == 1 && old(m.dirt)) ==> Linked(m))
                   && m.cnt == (if old(m.cnt) == 0 then 0 else old(m.cnt) - 1)
                   && vol.zones == old(vol.zones) && vol.own == old(vol.own)
      ensures known == if old(m.cnt) == 1 && old(m.nlinks) == 0 then old(known) - {m.num}
                       else if old(m.cnt) == 1 && old(m.dirt) then old(known)[m.num := Known(old(Stored(m)), false)]
                       else old(known)
      ensures (old(m.nlinks) != 0 || m.num !in old(vol.zones) || old(m.zone) == NO_ZONES) && old(vol.Full()) ==>
                vol.Full()
    {
      hide Namespace.Valid, Sound, SuperBlock.Valid, SuperBlock.Roomy, SuperBlock.IsTableBlk, Volume.Rooted, AllListed,
           Counted, OthersSame, SuperBlock.InodeBit, InodesMarked, Closed, TableBlk, OnDisk, BootKept, Recorded,
           Volume.Full;
      ghost var now := vol.Now();
      BootSame(now.v);
      OthersSelf(now, -1);
      RoomyOne(vol.sb);
      if m.cnt == 0 {
        return;
      }
      m.cnt := m.cnt - 1;
      if m.cnt == 0 {
        if m.nlinks == 0 {
          Dispose(m, x);
        } else if m.dirt && m.valid {
          WriteBack(m, x);
        }
      }
    }

    /** A number that is not in use has no blocks and is no directory. */
    lemma NoFile(num: nat)
      requires Closed(dirs, links) && vol.zones.Keys <= links.Keys && num !in links
      ensures num !in vol.zones && num !in dirs
      ensures Describes(FreshRecord(), num, links[num := 1], vol.zones, sizes, dirs)
    {
    }

    /** What new_inode writes into an empty slot (fs/bmap.c:124-132). */
    static function FreshRecord(): DevInode {
      DevInode(0, UID, 0, 0, GID, 1, I_MAGIC, NO_ZONES, (0, 0))
    }

    /** Owner, group, link count and mark of a new inode; all else is 0. */
    static lemma FreshRecordIs()
      ensures FreshRecord() == DevInode(0, 0xCC, 0, 0, 0xAA, 1, 0xCCAA, NO_ZONES, (0, 0))
    {
    }

    /** The number half of new_inode (fs/bmap.c:109-121). */
    method TakeNumber() returns (num: int)
      requires Valid(-1)
      modifies vol.sb.cache.bh, vol.sb.cache`view, vol.sb.cache`pins, this`links, this`known
      ensures Valid(num) && vol.sb.cache.pins == old(vol.sb.cache.pins)
      ensures OthersSame(old(vol.Now()), vol.Now(), -1)
      ensures forall k :: !vol.sb.IsImapKey(k) ==> vol.sb.cache.view[k] == old(vol.sb.cache.view)[k]
      ensures num == -1 ==> links == old(links) && forall n: nat :: n < vol.sb.imapBlocks * BITS_PER_BLK ==> n in links
      ensures num != -1 ==> 0 <= num < TWO_32 && num !in old(links) && links == old(links)[num := 1]
      ensures known == if num == -1 then old(known) else old(known)[num := Known(FreshRecord(), true)]
      ensures num != -1 ==> num !in dirs && Refs(dirs, num) == {} && forall n: nat :: n < num ==> n in links
    {
      hide SuperBlock.Roomy, Volume.Full, SuperBlock.Valid, Forest, AllListed, Counted, Closed, OthersSame, Marked,
           SuperBlock.InodeBit, Refs, Recorded, TableKept, InodeAt;
      ghost var now := vol.Now();
      num := vol.sb.TakeInode();
      MetaChange(vol.sb, now, vol.own, vol.sb.cache.view);
      AllListedKept(now, vol.Now(), -1, ats, sizes, dirs);
      TableKeptMeta(vol.sb, now.v, vol.sb.cache.view);
      if num != -1 {
        CountedNew(dirs, links, num, 1);
        NoFile(num);
        RecordedStep(vol.sb, now.v, vol.sb.cache.view, links, links[num := 1], vol.zones, vol.zones, sizes, sizes, dirs,
          dirs, known, boot, num, Known(FreshRecord(), true));
        links, known := links[num := 1], known[num := Known(FreshRecord(), true)];
      } else {
        RecordedSame(vol.sb, now.v, vol.sb.cache.view, links, vol.zones, sizes, dirs, known, boot);
      }
    }

    static method FreshInode(dev: u16, num: u32) returns (m: MemInode)
      ensures fresh(m) && m.dev == dev && m.num == num && m.cnt == 1 && m.dirt && m.valid && Stored(m) == FreshRecord()
    {
      m := new MemInode(dev, num);
      m.cnt, m.dirt, m.valid, m.nlinks := 1, true, true, 1;
      m.magic, m.uid, m.gid := I_MAGIC, UID, GID;
    }

    /** new_inode (fs/bmap.c:104): the least free number, one link, one reference. */
    method NewInode() returns (m: MemInode?)
      requires Valid(-1)
      modifies vol.sb.cache.bh, vol.sb.cache`view, vol.sb.cache`pins, this`links, this`known
      ensures Valid(if m == null then -1 else m.num) && vol.sb.cache.pins == old(vol.sb.cache.pins)
      ensures OthersSame(old(vol.Now()), vol.Now(), -1)
      ensures forall k :: !vol.sb.IsImapKey(k) ==> vol.sb.cache.view[k] == old(vol.sb.cache.view)[k]
      ensures known == if m == null then old(known) else old(known)[m.num := Known(Stored(m), true)]
      ensures m == null ==> links == old(links) && forall n: nat :: n < vol.sb.imapBlocks * BITS_PER_BLK ==> n in links
      ensures m != null ==> fresh(m) && Linked(m) && m.cnt == 1 && m.dirt && Stored(m) == FreshRecord()
      ensures m != null ==> m.num !in old(links) && links == old(links)[m.num := 1] && m.nlinks == 1
      ensures m != null ==> m.num !in dirs && Refs(dirs, m.num) == {} && forall n: nat :: n < m.num ==> n in links
    {
      hide SuperBlock.Valid, Volume.Rooted, AllListed, Counted, Closed, OthersSame, SuperBlock.InodeBit, Refs,
           InodesMarked, Recorded, Sound, Namespace.Valid;
      var num := TakeNumber();
      if num == -1 {
        return null;
      }
      m := FreshInode(vol.sb.dev, num);
    }

    /** The copy of inode n in memory, if there is one; without one the record on disk is up to
        date. */
    ghost predicate Fetchable(copy: MemInode?, n: nat)
      reads this`links, this`known, copy
    {
      if copy == null then n in known ==> !known[n].behind else Linked(copy) && copy.num == n && copy.cnt < 0xFFFF
    }

    /** An inode that is in use and not in memory, read from its record. */
    method ReadInode(num: u32, ghost x: int) returns (m: MemInode)
      requires Valid(x) && vol.sb.Roomy(1) && num in links && Fetchable(null, num)
      modifies vol.sb.cache.Repr()
      ensures Valid(x) && vol.sb.cache.pins == old(vol.sb.cache.pins) && vol.Now() == old(vol.Now())
      ensures fresh(m) && Linked(m) && m.num == num && m.cnt == 1 && !m.dirt
    {
      hide SuperBlock.Valid, Forest, AllListed, Counted, Closed, OthersSame, Marked, InodesMarked,
           SuperBlock.InodeBit, InodeAt;
      m := new MemInode(vol.sb.dev, num);
      m.cnt := 1;
      assert Describes(known[num].rec, num, links, vol.zones, sizes, dirs)
             && InTableAs(vol.sb, vol.sb.cache.view, num, known[num].rec);
      ReadDevInode(vol.sb, m);
    }

    /** Whether the number's bit is set (fs/inode.c:127-134). */
    method Used(num: u32, ghost x: int) returns (used: bool)
      requires Valid(x) && num < vol.sb.imapBlocks * BITS_PER_BLK
      ensures used <==> num in links
    {
      hide SuperBlock.Valid, Volume.Rooted, AllListed, Counted, Closed, OthersSame, SuperBlock.InodeBit, Recorded;
      used := vol.sb.TestInode(num);
    }

    /** fs/inode.c:119: no inode exactly when the number is not in use, else a current copy with
        one more reference. */
    method Iget(num: u32, copy: MemInode?, ghost x: int) returns (m: MemInode?)
      requires Valid(x) && vol.sb.Roomy(1) && num < vol.sb.imapBlocks * BITS_PER_BLK && Fetchable(copy, num)
      modifies vol.sb.cache.Repr(), copy
      ensures Valid(x) && vol.sb.cache.pins == old(vol.sb.cache.pins) && vol.Now() == old(vol.Now())
      ensures m == null <==> num !in links
      ensures m != null ==> Linked(m) && m.num == num
      ensures m != null && copy == null ==> fresh(m) && m.cnt == 1 && !m.dirt
      ensures m != null && copy != null ==> m == copy && m.cnt == old(copy.cnt) + 1 && m.dirt == old(copy.dirt)
    {
      hide SuperBlock.Valid, Volume.Rooted, AllListed, Counted, Closed, OthersSame, SuperBlock.InodeBit, Recorded;
      var used := Used(num, x);
      if !used {
        return null;
      }
      if copy != null {
        Hold(copy, x);
        return copy;
      }
      m := ReadInode(num, x);
    }

    /** find_entry in a directory of the namespace. */
    method LookUp(m: MemInode, path: seq<byte>, p: nat, len: nat, ghost x: int) returns (found: bool, e: nat, nr: u32)
      requires Valid(x) && Linked(m) && m.num in dirs && Component(path, p, len) && vol.sb.Roomy(2)
      modifies vol.sb.cache.Repr(), vol.sb`pos, m`zone, m`dirt, vol`zones, vol`own
      ensures Valid(x) && Linked(m) && Stored(m) == old(Stored(m)) && m.dirt == old(m.dirt)
      ensures vol.Now() == old(vol.Now()) && vol.sb.cache.pins == old(vol.sb.cache.pins)
      ensures var name := Sought(path, p, len);
              && (found <==> name in dirs[m.num])
              && (found ==> m.num in ats && name in ats[m.num] && e == ats[m.num][name] && nr == dirs[m.num][name])
    {
      hide SuperBlock.Valid, Volume.Rooted, Counted, Closed, Listed, SuperBlock.InodeBit, Component, Sought, Recorded;
      Facts(m, x);
      assert m.num in ats;
      found, e, nr := FindEntry(vol, m, path, p, len, ats[m.num]);
    }

    /** The ghost state after directory d came to list at in the contents of now. */
    ghost method Relist(now: Vol, d: nat, at: map<Name, nat>, size: u32, l: map<Name, u32>, x: int)
      requires this !in vol.sb.cache.Repr() && vol.Valid() && AllListed(now, ats, sizes, dirs) && d in ats
      requires OthersSame(now, vol.Now(), d) && Listed(vol.Now(), d, size, at) && d in vol.zones
      requires l == Listing(vol.Now(), d, at)
      modifies this`ats, this`sizes, this`dirs
      ensures AllListed(vol.Now(), ats, sizes, dirs)
      ensures dirs == old(dirs)[d := l] && ats == old(ats)[d := at] && sizes == old(sizes)[d := size]
    {
      hide SuperBlock.Valid, Volume.Rooted, Listed, Listing, OthersSame, AllListed, Recorded;
      AllListedPut(now, vol.Now(), d, ats, sizes, dirs, at, size);
      ats := ats[d := at];
      sizes := sizes[d := size];
      dirs := dirs[d := l];
    }

    /** Where the names of directory d are after an attempt to add name at record e. */
    ghost function AtsWith(d: nat, name: Name, e: nat, ok: bool): map<Name, nat>
      requires d in ats
      reads this`ats
    {
      if ok then ats[d][name := e] else ats[d]
    }

    ghost function NamesWith(d: nat, name: Name, nr: u32, ok: bool): map<Name, u32>
      requires d in dirs
      reads this`dirs
    {
      if ok then dirs[d][name := nr] else dirs[d]
    }

    /** add_entry and the store of the inode number (fs/namei.c:604-610). */
    method EnterEntry(m: MemInode, path: seq<byte>, p: nat, len: nat, nr: u32) returns (ok: bool, ghost e: nat)
      requires Valid(nr) && Linked(m) && m.num in dirs && m.num in ats && Component(path, p, len) && len != NAME_LEN
      requires vol.sb.Roomy(2) && m.size + BLK_SIZE < TWO_32 && Sought(path, p, len) !in dirs[m.num]
      modifies vol.sb.cache.Repr(), vol.sb`pos, m`zone, m`dirt, m`size, vol`zones, vol`own
      ensures vol.Valid() && this !in vol.sb.cache.Repr() && vol.sb.cache.pins == old(vol.sb.cache.pins)
              && m.num in vol.zones
      ensures OthersSame(old(vol.Now()), vol.Now(), m.num) && vol.zones == old(vol.zones)[m.num := m.zone]
              && |m.zone| == 9
      ensures InodesMarked(vol.sb, vol.sb.cache.view, links)
              && TableKept(vol.sb, old(vol.sb.cache.view), vol.sb.cache.view)
      ensures Listed(vol.Now(), m.num, m.size, AtsWith(m.num, Sought(path, p, len), e, ok))
      ensures NamesWith(m.num, Sought(path, p, len), nr, ok) == Listing(vol.Now(), m.num,
              AtsWith(m.num, Sought(path, p, len), e, ok))
      ensures !ok ==> vol.Full()
      ensures old(m.dirt) || m.zone != old(m.zone) || m.size != old(m.size) ==> m.dirt
      ensures |dirs[m.num]| < old(m.size) / 64 ==> ok && m.size == old(m.size) && m.zone == old(m.zone)
    {
      hide SuperBlock.Valid, Volume.Rooted, Volume.Full, Counted, Closed, AllListed, InodesMarked, Listed, Listing,
           Sought, OthersSame, Refs, Added, SuperBlock.Roomy, SuperBlock.IsMeta, FileType, Recorded, TableKept;
      Facts(m, nr);
      ghost var now, d, name := vol.Now(), m.num, Sought(path, p, len);
      DirListing(now, ats, sizes, dirs, d);
      assert |dirs[d]| == |dirs[d].Keys| == |ats[d].Keys| == |ats[d]|;
      ok, e := AddEntry(vol, m, path, p, len, nr, ats[d]);
      AddedListing(now, vol.Now(), d, m.size, ats[d], name, nr, e, ok);
      TableKeptMeta(vol.sb, now.v, vol.sb.cache.view);
      InodesKeptMeta(vol.sb, now.v, vol.sb.cache.view, links);
    }

    /** Directory d lists the name now, if it could be added. */
    ghost method RelistName(now: Vol, d: nat, name: Name, e: nat, nr: u32, ok: bool, size: u32)
      requires this !in vol.sb.cache.Repr() && vol.Valid() && AllListed(now, ats, sizes, dirs) && d in ats && d in dirs
               && d in vol.zones
      requires OthersSame(now, vol.Now(), d) && Listed(vol.Now(), d, size, AtsWith(d, name, e, ok)) && name !in dirs[d]
      requires NamesWith(d, name, nr, ok) == Listing(vol.Now(), d, AtsWith(d, name, e, ok))
      requires Closed(dirs, links) && Counted(dirs, links, nr) && nr in links && nr !in dirs
      modifies this`ats, this`sizes, this`dirs
      ensures AllListed(vol.Now(), ats, sizes, dirs) && sizes == old(sizes)[d := size] && dirs.Keys == old(dirs).Keys
      ensures dirs == if ok then WithEntry(old(dirs), d, name, nr) else old(dirs)
      ensures Closed(dirs, links) && Counted(dirs, links, nr) && (ok ==> |Refs(dirs, nr)| == |Refs(old(dirs), nr)| + 1)
    {
      hide SuperBlock.Valid, Volume.Rooted, Counted, Closed, AllListed, Listed, Listing, OthersSame, Refs;
      var dirs0 := dirs;
      Relist(now, d, AtsWith(d, name, e, ok), size, NamesWith(d, name, nr, ok), nr);
      if ok {
        CountedAdd(dirs0, links, d, name, nr);
      } else {
        assert dirs0[d := dirs0[d]] == dirs0;
      }
    }

    /** Directory m lists the name as nr now, or the volume is full; no other file changed. With a
        record to spare the name goes in and the directory does not grow. */
    twostate predicate Entered(m: MemInode, name: Name, nr: u32, ok: bool)
      requires m.num in old(dirs)
      reads this`dirs, vol, vol.sb, vol.sb.cache.Repr(), m
    {
      && old(vol.Valid()) && vol.Valid() && vol.sb.cache.pins == old(vol.sb.cache.pins)
      && OthersSame(old(vol.Now()), vol.Now(), m.num) && vol.zones == old(vol.zones)[m.num := m.zone]
      && (if ok then dirs == WithEntry(old(dirs), m.num, name, nr) else dirs == old(dirs) && vol.Full())
      && (ok ==> |Refs(dirs, nr)| == |Refs(old(dirs), nr)| + 1)
      && (|old(dirs)[m.num]| < old(m.size) / 64 ==> ok && m.size == old(m.size) && m.zone == old(m.zone))
    }

    /** The same, with what the directory lists then. */
    method EnterCounted(m: MemInode, path: seq<byte>, p: nat, len: nat, nr: u32) returns (ok: bool)
      requires Valid(nr) && Linked(m) && m.num in dirs && Component(path, p, len) && len != NAME_LEN
      requires nr in links && nr !in dirs && vol.sb.Roomy(2) && m.size + BLK_SIZE < TWO_32
      requires Sought(path, p, len) !in dirs[m.num]
      modifies vol.sb.cache.Repr(), vol.sb`pos, m`zone, m`dirt, m`size, vol`zones, vol`own, this`ats, this`sizes,
               this`dirs
      ensures m.num in old(dirs) && Entered(m, Sought(path, p, len), nr, ok)
      ensures vol.zones == old(vol.zones)[m.num := m.zone]
      ensures Sound(nr) && TableKept(vol.sb, old(vol.sb.cache.view), vol.sb.cache.view)
              && sizes == old(sizes)[m.num := m.size]
      ensures |m.zone| == 9 && dirs.Keys == old(dirs).Keys
      ensures old(m.dirt) || m.zone != old(m.zone) || m.size != old(m.size) ==> m.dirt
    {
      hide SuperBlock.Valid, Volume.Rooted, Volume.Full, Counted, Closed, AllListed, InodesMarked, Listed, Listing,
           Sought, OthersSame, Refs, SuperBlock.Roomy, FileType, Recorded, TableKept, WithEntry, Describes;
      Facts(m, nr);
      ghost var now, d, name := vol.Now(), m.num, Sought(path, p, len);
      DirListing(now, ats, sizes, dirs, d);
      ghost var e;
      ok, e := EnterEntry(m, path, p, len, nr);
      RelistName(now, d, name, e, nr, ok, m.size);
    }

    /** And only what is known of the directory is not up to date then. */
    method EnterName(m: MemInode, path: seq<byte>, p: nat, len: nat, nr: u32) returns (ok: bool)
      requires Valid(nr) && Linked(m) && m.num in dirs && Component(path, p, len) && len != NAME_LEN
      requires nr in links && nr !in dirs && vol.sb.Roomy(2) && m.size + BLK_SIZE < TWO_32
      requires Sought(path, p, len) !in dirs[m.num]
      modifies vol.sb.cache.Repr(), vol.sb`pos, m`zone, m`dirt, m`size, vol`zones, vol`own, this`ats, this`sizes,
               this`dirs
      ensures m.num in old(dirs) && Entered(m, Sought(path, p, len), nr, ok)
      ensures DirDue(m, nr, old(vol.sb.cache.view), old(Stored(m)), old(vol.zones), old(sizes), old(dirs))
      ensures old(m.dirt) ==> m.dirt
    {
      hide SuperBlock.Valid, Volume.Rooted, Volume.Full, Refs, Sought, SuperBlock.Roomy, OthersSame, FileType,
           Recorded, TableKept, Sound, WithEntry, Describes, Namespace.Valid, Entered;
      Facts(m, nr);
      ok := EnterCounted(m, path, p, len, nr);
    }

    /** A new name, for an inode that is not a directory. */
    method AddName(m: MemInode, path: seq<byte>, p: nat, len: nat, nr: u32) returns (ok: bool)
      requires Valid(nr) && Linked(m) && m.num in dirs && Component(path, p, len) && len != NAME_LEN
      requires nr in links && nr !in dirs && vol.sb.Roomy(2) && m.size + BLK_SIZE < TWO_32
      requires Sought(path, p, len) !in dirs[m.num]
      modifies vol.sb.cache.Repr(), vol.sb`pos, m`zone, m`dirt, m`size, vol`zones, vol`own, this`ats, this`sizes,
               this`dirs, this`known
      ensures Valid(nr) && Linked(m) && vol.sb.cache.pins == old(vol.sb.cache.pins)
      ensures OthersSame(old(vol.Now()), vol.Now(), m.num) && vol.zones == old(vol.zones)[m.num := m.zone]
      ensures if ok then dirs == WithEntry(old(dirs), m.num, Sought(path, p, len), nr)
              else dirs == old(dirs) && vol.Full()
      ensures ok ==> |Refs(dirs, nr)| == |Refs(old(dirs), nr)| + 1
      ensures known == old(known)[m.num := Known(Stored(m), m.dirt)] && (old(m.dirt) ==> m.dirt)
      ensures |old(dirs)[m.num]| < old(m.size) / 64 ==> ok && m.size == old(m.size) && m.zone == old(m.zone)
    {
      hide SuperBlock.Valid, Volume.Rooted, Volume.Full, Counted, Closed, AllListed, InodesMarked, Component, Sought,
           OthersSame, Refs, SuperBlock.Roomy, FileType, Recorded, TableKept, Sound, WithEntry, Describes,
             ElsewhereSame, Namespace.Valid, DirDue;
      ghost var v, zones0, sizes0, dirs0 := vol.sb.cache.view, vol.zones, sizes, dirs;
      ghost var d0 := Stored(m);
      ok := EnterName(m, path, p, len, nr);
      NoteDir(m, nr, v, d0, zones0, sizes0, dirs0);
    }

    /** The erasing of a directory entry that find_entry returned. */
    method EraseName(m: MemInode, e: nat, ghost name: Name)
      requires Valid(-1) && Linked(m) && m.num in dirs && name in dirs[m.num] && vol.sb.Roomy(2)
      requires m.num in ats && name in ats[m.num] && e == ats[m.num][name]
      modifies vol.sb.cache.Repr(), vol.sb`pos, m`zone, m`dirt, vol`zones, vol`own, this`ats, this`sizes, this`dirs
      ensures Sound(old(dirs)[m.num][name]) && vol.sb.cache.pins == old(vol.sb.cache.pins)
      ensures OthersSame(old(vol.Now()), vol.Now(), m.num) && vol.zones == old(vol.zones)
      ensures Stored(m) == old(Stored(m)) && dirs == WithoutEntry(old(dirs), m.num, name)
      ensures var x := old(dirs)[m.num][name]; |Refs(dirs, x)| == |Refs(old(dirs), x)| - 1
      ensures TableKept(vol.sb, old(vol.sb.cache.view), vol.sb.cache.view) && sizes == old(sizes)
              && m.dirt == old(m.dirt)
    {
      hide Volume.Full, SuperBlock.Valid, Volume.Rooted, Counted, Closed, AllListed, InodesMarked, Listed, Listing,
           OthersSame, Refs, SuperBlock.Roomy, SuperBlock.IsMeta, FileType, Recorded, TableKept;
      Facts(m, -1);
      ghost var now, d, dirs0 := vol.Now(), m.num, dirs;
      DirListing(now, ats, sizes, dirs, d);
      ghost var at := ats[d];
      EraseEntry(vol, m, e, name, at);
      TableKeptMeta(vol.sb, now.v, vol.sb.cache.view);
      InodesKeptMeta(vol.sb, now.v, vol.sb.cache.view, links);
      Relist(now, d, at - {name}, m.size, dirs[d] - {name}, -1);
      CountedRemove(dirs0, links, d, name);
    }

    /** A name goes. */
    method RemoveName(m: MemInode, e: nat, ghost name: Name)
      requires Valid(-1) && Linked(m) && m.num in dirs && name in dirs[m.num] && vol.sb.Roomy(2)
      requires m.num in ats && name in ats[m.num] && e == ats[m.num][name]
      modifies vol.sb.cache.Repr(), vol.sb`pos, m`zone, m`dirt, vol`zones, vol`own, this`ats, this`sizes, this`dirs,
               this`known
      ensures Valid(old(dirs)[m.num][name]) && Linked(m) && vol.sb.cache.pins == old(vol.sb.cache.pins)
      ensures OthersSame(old(vol.Now()), vol.Now(), m.num) && vol.zones == old(vol.zones)
      ensures Stored(m) == old(Stored(m)) && dirs == WithoutEntry(old(dirs), m.num, name)
      ensures var x := old(dirs)[m.num][name]; |Refs(dirs, x)| == |Refs(old(dirs), x)| - 1
      ensures known == old(known) && m.dirt == old(m.dirt)
    {
      hide SuperBlock.Valid, Volume.Rooted, Counted, Closed, AllListed, InodesMarked, OthersSame, Refs,
           SuperBlock.Roomy, FileType, Recorded, TableKept, Sound;
      Facts(m, -1);
      ghost var v, zones0, sizes0, dirs0, known0 := vol.sb.cache.view, vol.zones, sizes, dirs, known;
      EraseName(m, e, name);
      assert known0[m.num := known0[m.num]] == known0;
      Note(m, dirs0[m.num][name], v, links, zones0, sizes0, dirs0, known[m.num].behind);
    }

    /** The count of inode f is set, which makes it right again or not. */
    ghost method Relink(f: nat, n: u16)
      requires Sound(f) && f in links && f !in dirs
      modifies this`links
      ensures Sound(f) && links == old(links)[f := n] && (Sound(-1) <==> n == |Refs(dirs, f)|)
    {
      hide SuperBlock.Valid, Volume.Rooted, Counted, Closed, AllListed, Refs;
      CountedSet(dirs, links, f, n);
      links := links[f := n];
    }

    /** i_nlinks is set and i_dirt raised, which makes the count right again. */
    method SetLinks(m: MemInode, n: u16)
      requires Valid(m.num) && Linked(m) && m.num !in dirs
      modifies m`nlinks, m`dirt, this`links, this`known
      ensures Linked(m) && links == old(links)[m.num := n] && m.nlinks == n && m.dirt
      ensures known == old(known)[m.num := Known(Stored(m), true)]
      ensures Valid(-1) <==> n == |Refs(dirs, m.num)|
    {
      hide Sound, SuperBlock.Valid, Volume.Rooted, Refs, Recorded, TableKept;
      Facts(m, m.num);
      ghost var v, links0 := vol.sb.cache.view, links;
      m.nlinks := n;
      m.dirt := true;
      Relink(m.num, n);
      SameTable(vol.sb, v);
      Note(m, m.num, v, links0, vol.zones, sizes, dirs, true);
    }

    /** The reference that iget or namei hands out. */
    method Hold(m: MemInode, ghost x: int)
      requires Valid(x) && Linked(m) && m.cnt < 0xFFFF
      modifies m`cnt
      ensures Valid(x) && Linked(m) && m.cnt == old(m.cnt) + 1 && Stored(m) == old(Stored(m))
    {
      hide SuperBlock.Valid, Volume.Rooted, Counted, Closed, AllListed, InodesMarked, Recorded;
      m.cnt := m.cnt + 1;
    }

    /** iput of an inode that has links: only the reference goes. */
    method Unhold(m: MemInode, ghost x: int)
      requires Valid(x) && Linked(m) && m.num != x && m.nlinks != 0 && m.cnt > 0 && vol.sb.Roomy(3)
      modifies vol.sb.cache.Repr(), vol`zones, vol`own, this`links, this`known, m
      ensures Valid(x) && Linked(m) && vol.sb.cache.pins == old(vol.sb.cache.pins)
      ensures BootKept(old(vol.sb.cache.view), vol.sb.cache.view)
      ensures links == old(links) && vol.zones == old(vol.zones) && OthersSame(old(vol.Now()), vol.Now(), -1)
      ensures m.cnt == old(m.cnt) - 1 && Stored(m) == old(Stored(m))
      ensures known == if old(m.cnt) == 1 && old(m.dirt) then old(known)[m.num := Known(Stored(m), false)]
              else old(known)
      ensures old(vol.Full()) ==> vol.Full()
    {
      hide SuperBlock.Valid, Volume.Rooted, AllListed, Counted, Closed, OthersSame, SuperBlock.InodeBit, InodesMarked,
           SuperBlock.Roomy, TableBlk, Namespace.Valid, BootKept, Recorded, Volume.Full;
      Iput(m, x);
    }

    /** The count goes up and the inode is put. */
    method RaiseLink(m: MemInode)
      requires Valid(m.num) && Linked(m) && m.num !in dirs && m.cnt > 0 && m.nlinks < 0xFFFF
      requires |Refs(dirs, m.num)| == m.nlinks + 1 && vol.sb.Roomy(3)
      modifies vol.sb.cache.Repr(), vol`zones, vol`own, this`links, this`known, m
      ensures Valid(-1) && vol.sb.cache.pins == old(vol.sb.cache.pins)
      ensures Linked(m) && m.cnt == old(m.cnt) - 1 && links == old(links)[m.num := old(m.nlinks) + 1]
      ensures KnownKept(old(known), known, m.num, m.num) && (old(m.cnt) == 1 ==> m.num in known && !known[m.num].behind)
      ensures OthersSame(old(vol.Now()), vol.Now(), -1)
    {
      hide SuperBlock.Valid, Volume.Rooted, AllListed, Counted, Closed, OthersSame, InodesMarked, Refs, Room,
           TableFits, Recorded, Namespace.Valid, Sound;
      SetLinks(m, m.nlinks + 1);
      Unhold(m, -1);
    }

    /** The end of do_hlink: the directory is put, the count goes up, the inode is put. */
    method LinkDone(m: MemInode, dir: MemInode)
      requires Valid(m.num) && Linked(m) && Linked(dir) && dir.num in dirs && m.num !in dirs
      requires m.cnt > 0 && dir.cnt > 0 && m.nlinks < 0xFFFF && dir.nlinks != 0
      requires |Refs(dirs, m.num)| == m.nlinks + 1 && vol.sb.Roomy(3)
      modifies vol.sb.cache.Repr(), vol`zones, vol`own, this`links, this`known, m, dir
      ensures Valid(-1) && vol.sb.cache.pins == old(vol.sb.cache.pins)
      ensures Linked(dir) && Linked(m) && dir.cnt == old(dir.cnt) - 1 && m.cnt == old(m.cnt) - 1
      ensures links == OneMore(old(links), m.num)
      ensures KnownKept(old(known), known, m.num, dir.num)
      ensures OthersSame(old(vol.Now()), vol.Now(), -1)
    {
      hide Volume.Full, BootKept, SuperBlock.Valid, Volume.Rooted, AllListed, Counted, Closed, OthersSame,
           InodesMarked, Refs, Room, TableFits, Recorded, Namespace.Valid, Sound;
      ghost var now := vol.Now();
      Unhold(dir, m.num);
      ghost var now1 := vol.Now();
      RaiseLink(m);
      OthersSameTwice(now, now1, vol.Now(), -1);
    }

    /** Both references given back, nothing else done. */
    method PutBoth(a: MemInode, b: MemInode)
      requires Valid(-1) && Linked(a) && Linked(b) && a.num != b.num
      requires a.cnt > 0 && b.cnt > 0 && a.nlinks != 0 && b.nlinks != 0 && vol.sb.Roomy(3)
      modifies vol.sb.cache.Repr(), vol`zones, vol`own, this`links, this`known, a, b
      ensures Valid(-1) && vol.sb.cache.pins == old(vol.sb.cache.pins)
      ensures Linked(b) && Linked(a) && b.cnt == old(b.cnt) - 1 && a.cnt == old(a.cnt) - 1
      ensures links == old(links)
      ensures KnownKept(old(known), known, a.num, b.num)
      ensures OnDiskNow(old(known), known, a.num, old(a.cnt) == 1)
              && OnDiskNow(old(known), known, b.num, old(b.cnt) == 1)
      ensures OthersSame(old(vol.Now()), vol.Now(), -1) && (old(vol.Full()) ==> vol.Full())
    {
      hide SuperBlock.Valid, Volume.Rooted, AllListed, Counted, Closed, OthersSame, InodesMarked, Refs, Room,
           TableFits, Recorded, Namespace.Valid, Sound, Volume.Full;
      ghost var now := vol.Now();
      Unhold(a, -1);
      ghost var now1 := vol.Now();
      Unhold(b, -1);
      OthersSameTwice(now, now1, vol.Now(), -1);
    }

    /** The new name of an inode that has one. */
    method NameAgain(m: MemInode, dir: MemInode, path: seq<byte>, p: nat, len: nat) returns (ok: bool)
      requires Valid(-1) && Linked(m) && Linked(dir) && dir.num in dirs && m.num !in dirs
      requires Component(path, p, len) && len != NAME_LEN && Sought(path, p, len) !in dirs[dir.num]
      requires dir.size + BLK_SIZE < TWO_32 && vol.sb.Roomy(3) && m.nlinks != 0
      modifies vol.sb.cache.Repr(), vol.sb`pos, vol`zones, vol`own, this`ats, this`sizes, this`dirs, this`known, dir
      ensures Valid(if ok then m.num else -1) && Linked(dir) && Linked(m) && vol.sb.cache.pins == old(vol.sb.cache.pins)
      ensures dir.cnt == old(dir.cnt) && dir.nlinks == old(dir.nlinks) && (ok ==> |Refs(dirs, m.num)| == m.nlinks + 1)
      ensures dirs == if ok then WithEntry(old(dirs), dir.num, Sought(path, p, len), m.num) else old(dirs)
      ensures !ok ==> vol.Full() && |old(dirs)[dir.num]| >= old(dir.size) / 64
      ensures KnownKept(old(known), known, dir.num, dir.num)
      ensures OthersSame(old(vol.Now()), vol.Now(), dir.num)
    {
      hide SuperBlock.Valid, Volume.Rooted, Volume.Full, AllListed, Counted, Closed, OthersSame, InodesMarked, Refs,
           Sought, Room, TableFits, Recorded, WithEntry;
      RoomyLess(vol.sb);
      CountedWiden(dirs, links, m.num);
      ok := AddName(dir, path, p, len, m.num);
    }

    /** do_hlink from the addition of the entry on (fs/namei.c:604-618). */
    method LinkTail(m: MemInode, dir: MemInode, path: seq<byte>, p: nat, len: nat) returns (ok: bool)
      requires Valid(-1) && Linked(m) && Linked(dir) && dir.num in dirs && m.num !in dirs
      requires m.cnt > 0 && dir.cnt > 0 && 0 < m.nlinks < 0xFFFF && dir.nlinks != 0
      requires Component(path, p, len) && len != NAME_LEN && Sought(path, p, len) !in dirs[dir.num]
      requires dir.size + BLK_SIZE < TWO_32 && vol.sb.Roomy(3)
      modifies vol.sb.cache.Repr(), vol.sb`pos, vol`zones, vol`own, this, m, dir
      ensures Valid(-1) && vol.sb.cache.pins == old(vol.sb.cache.pins)
      ensures Linked(dir) && Linked(m) && dir.cnt == old(dir.cnt) - 1 && m.cnt == old(m.cnt) - 1
      ensures dirs == if ok then WithEntry(old(dirs), dir.num, Sought(path, p, len), m.num) else old(dirs)
      ensures links == if ok then OneMore(old(links), m.num) else old(links)
      ensures !ok ==> vol.Full() && |old(dirs)[dir.num]| >= old(dir.size) / 64
      ensures KnownKept(old(known), known, m.num, dir.num)
      ensures OthersSame(old(vol.Now()), vol.Now(), dir.num)
    {
      hide OneMore, SuperBlock.Valid, Volume.Rooted, Volume.Full, AllListed, Counted, Closed, OthersSame,
           InodesMarked, Refs, Sought, Room, TableFits, Recorded, Namespace.Valid, Sound;
      ghost var now := vol.Now();
      ok := NameAgain(m, dir, path, p, len);
      ghost var now1 := vol.Now();
      if ok {
        LinkDone(m, dir);
      } else {
        PutBoth(m, dir);
      }
      OthersAfter(now, now1, vol.Now(), dir.num);
    }

    /** do_hlink once both references are held (fs/namei.c:587-618). */
    method LinkHeld(m: MemInode, dir: MemInode, path: seq<byte>, p: nat, len: nat) returns (err: Errno)
      requires Valid(-1) && Linked(m) && Linked(dir) && dir.num in dirs && m.num !in dirs
      requires m.cnt > 0 && dir.cnt > 0 && 0 < m.nlinks < 0xFFFF && dir.nlinks != 0
      requires (len == 0 || Component(path, p, len)) && len != NAME_LEN
      requires dir.size + BLK_SIZE < TWO_32 && vol.sb.Roomy(3)
      modifies vol.sb.cache.Repr(), vol.sb`pos, vol`zones, vol`own, this, m, dir
      ensures Valid(-1) && vol.sb.cache.pins == old(vol.sb.cache.pins)
      ensures Linked(dir) && Linked(m) && dir.cnt == old(dir.cnt) - 1 && m.cnt == old(m.cnt) - 1
      ensures err == EPDUP <==> len != 0 && Sought(path, p, len) in old(dirs)[dir.num]
      ensures err == ENOPATH <==> len == 0
      ensures err == OK || err == ENOPATH || err == EPDUP || err == ENOSRC
      ensures dirs == if err == OK then WithEntry(old(dirs), dir.num, Sought(path, p, len), m.num) else old(dirs)
      ensures links == if err == OK then OneMore(old(links), m.num) else old(links)
      ensures err == ENOSRC ==> vol.Full() && |old(dirs)[dir.num]| >= old(dir.size) / 64
      ensures KnownKept(old(known), known, m.num, dir.num)
      ensures OthersSame(old(vol.Now()), vol.Now(), dir.num)
    {
      hide WithEntry, OneMore, SuperBlock.Valid, Volume.Rooted, Volume.Full, AllListed, Counted, Closed, OthersSame,
           InodesMarked, Refs, Sought, Room, TableFits, Recorded, Namespace.Valid, Sound;
      ghost var now := vol.Now();
      if len == 0 {
        PutBoth(m, dir);
        RestWiden(now, vol.Now(), dir.num, -1);
        return ENOPATH;
      }
      RoomyLess(vol.sb);
      var found, e, nr := LookUp(dir, path, p, len, -1);
      if found {
        PutBoth(m, dir);
        RestWiden(now, vol.Now(), dir.num, -1);
        return EPDUP;
      }
      var ok := LinkTail(m, dir, path, p, len);
      err := if ok then OK else ENOSRC;
    }

    /** do_hlink with the old inode held (fs/namei.c:579-618). */
    method LinkFrom(m: MemInode, dir: MemInode?, path: seq<byte>, p: nat, len: nat) returns (err: Errno)
      requires Valid(-1) && vol.sb.Roomy(3) && Linked(m) && 0 < m.nlinks < 0xFFFF && 0 < m.cnt
      requires m.num in dirs <==> FileType(m.mode) == S_IFDIR
      requires dir != null ==>
               Linked(dir) && dir.num in dirs && dir.nlinks != 0 && dir.cnt < 0xFFFF && dir.size + BLK_SIZE < TWO_32
      requires (len == 0 || Component(path, p, len)) && len != NAME_LEN
      modifies vol.sb.cache.Repr(), vol.sb`pos, vol`zones, vol`own, this, m, dir
      ensures Valid(-1) && vol.sb.cache.pins == old(vol.sb.cache.pins)
      ensures Linked(m) && m.cnt == old(m.cnt) - 1
              && (dir != null && dir != m ==> Linked(dir) && dir.cnt == old(dir.cnt))
      ensures err == EDIR <==> FileType(old(m.mode)) == S_IFDIR
      ensures err != EDIR ==> (err == ENOPATH <==> dir == null || len == 0)
      ensures dir != null && len != 0 && err != EDIR ==>
                && p + len < |path| && dir.num in old(dirs) && (err == OK || err == EPDUP || err == ENOSRC)
                && (err == EPDUP <==> Sought(path, p, len) in old(dirs)[dir.num])
                && (err == ENOSRC ==> vol.Full() && |old(dirs)[dir.num]| >= old(dir.size) / 64)
      ensures err != OK ==> dirs == old(dirs) && links == old(links)
      ensures err == OK ==> dir != null && p + len < |path| && m.num in old(links) && dir.num in old(dirs)
                            && Sought(path, p, len) !in old(dirs)[dir.num]
                            && dirs == WithEntry(old(dirs), dir.num, Sought(path, p, len), m.num)
                            && links == OneMore(old(links), m.num)
      ensures KnownKept(old(known), known, m.num, if dir == null then -1 else dir.num)
      ensures OthersSame(old(vol.Now()), vol.Now(), if dir == null then -1 else dir.num)
    {
      hide WithEntry, OneMore, SuperBlock.Valid, Volume.Rooted, AllListed, Counted, Closed, OthersSame, InodesMarked,
           Refs, Sought, Room, TableFits, FileType, Recorded, Namespace.Valid, Sound,
           Volume.Full;
      ghost var now, d := vol.Now(), if dir == null then -1 else dir.num;
      if FileType(m.mode) == S_IFDIR {
        Unhold(m, -1);
        RestWiden(now, vol.Now(), d, -1);
        return EDIR;
      }
      if dir == null {
        Unhold(m, -1);
        return ENOPATH;
      }
      Hold(dir, -1);
      err := LinkHeld(m, dir, path, p, len);
    }

    /** fs/namei.c:569, for the inode m that the old path leads to and the directory dir of
        the new one, if they exist; both stand on one volume. Every path gives back the
        references it took. */
    method DoHlink(m: MemInode?, dir: MemInode?, path: seq<byte>, p: nat, len: nat) returns (err: Errno)
      requires Valid(-1) && vol.sb.Roomy(3)
      requires m != null ==> Linked(m) && 0 < m.nlinks < 0xFFFF && m.cnt < 0xFFFE
      requires dir != null ==>
               Linked(dir) && dir.num in dirs && dir.nlinks != 0 && dir.cnt < 0xFFFF && dir.size + BLK_SIZE < TWO_32
      requires (len == 0 || Component(path, p, len)) && len != NAME_LEN
      modifies vol.sb.cache.Repr(), vol.sb`pos, vol`zones, vol`own, this, m, dir
      ensures Valid(-1) && vol.sb.cache.pins == old(vol.sb.cache.pins)
      ensures m != null ==> Linked(m) && m.cnt == old(m.cnt)
      ensures dir != null && dir != m ==> Linked(dir) && dir.cnt == old(dir.cnt)
      ensures err == EDIR <==> m != null && FileType(old(m.mode)) == S_IFDIR
      ensures err != EDIR ==> (err == ENOPATH <==> m == null || dir == null || len == 0)
      ensures m != null && dir != null && len != 0 && err != EDIR ==>
                && p + len < |path| && dir.num in old(dirs) && (err == OK || err == EPDUP || err == ENOSRC)
                && (err == EPDUP <==> Sought(path, p, len) in old(dirs)[dir.num])
                && (err == ENOSRC ==> vol.Full() && |old(dirs)[dir.num]| >= old(dir.size) / 64)
      ensures err != OK ==> dirs == old(dirs) && links == old(links)
      ensures err == OK ==> m != null && dir != null && p + len < |path| && m.num in old(links) && dir.num in old(dirs)
                            && Sought(path, p, len) !in old(dirs)[dir.num]
                            && dirs == WithEntry(old(dirs), dir.num, Sought(path, p, len), m.num)
                            && links == OneMore(old(links), m.num)
      ensures KnownKept(old(known), known, if m == null then -1 else m.num, if dir == null then -1 else dir.num)
      ensures OthersSame(old(vol.Now()), vol.Now(), if dir == null then -1 else dir.num)
    {
      hide WithEntry, OneMore, SuperBlock.Valid, Volume.Rooted, AllListed, Counted, Closed, OthersSame, InodesMarked,
           Refs, Sought, Room, TableFits, FileType, Recorded, Namespace.Valid, Sound, Volume.Full;
      if m == null {
        OthersSelf(vol.Now(), if dir == null then -1 else dir.num);
        return ENOPATH;
      }
      Kind(m, -1);
      Hold(m, -1);
      err := LinkFrom(m, dir, path, p, len);
    }

    /** The count goes down and the inode is put: it goes away exactly with its last link
        and its last reference. */
    method DropLink(m: MemInode)
      requires Valid(m.num) && Linked(m) && m.num !in dirs && vol.sb.Roomy(3)
      requires m.cnt > 0 && m.nlinks > 0 && |Refs(dirs, m.num)| == m.nlinks - 1
      modifies vol.sb.cache.Repr(), vol`zones, vol`own, this`links, this`known, m
      ensures Valid(-1) && vol.sb.cache.pins == old(vol.sb.cache.pins)
      ensures links == OneLess(old(links), m.num, old(m.cnt) == 1)
      ensures if m.num in links then Linked(m) && m.cnt == old(m.cnt) - 1 && vol.zones == old(vol.zones)
              else vol.zones == old(vol.zones) - {m.num}
      ensures KnownKept(old(known), known, m.num, m.num)
      ensures OthersSame(old(vol.Now()), vol.Now(), if m.num in links then -1 else m.num)
      ensures old(m.cnt) == 1 && m.num in links ==> m.num in known && !known[m.num].behind
    {
      hide SuperBlock.Valid, Volume.Rooted, AllListed, Counted, Closed, OthersSame, InodesMarked, Room, TableFits,
           Refs, FileType, TableBlk, SuperBlock.IsTableBlk, Recorded, Namespace.Valid, Sound;
      ghost var l := links;
      SetLinks(m, m.nlinks - 1);
      ghost var n := m.nlinks;
      assert l[m.num := n] - {m.num} == l - {m.num};
      Iput(m, -1);
    }

    /** The end of do_unhlink. */
    method UnlinkDone(m: MemInode, dir: MemInode)
      requires Valid(m.num) && Linked(m) && Linked(dir) && dir.num in dirs && m.num !in dirs && vol.sb.Roomy(3)
      requires m.cnt > 0 && dir.cnt > 0 && dir.nlinks != 0 && m.nlinks > 0 && |Refs(dirs, m.num)| == m.nlinks - 1
      modifies vol.sb.cache.Repr(), vol`zones, vol`own, this`links, this`known, m, dir
      ensures Valid(-1) && vol.sb.cache.pins == old(vol.sb.cache.pins)
      ensures Linked(dir) && dir.cnt == old(dir.cnt) - 1
      ensures links == OneLess(old(links), m.num, old(m.cnt) == 1)
      ensures m.num in links ==> Linked(m) && m.cnt == old(m.cnt) - 1
      ensures KnownKept(old(known), known, m.num, dir.num)
      ensures OthersSame(old(vol.Now()), vol.Now(), if m.num in links then -1 else m.num)
      ensures old(m.cnt) == 1 && m.num in links ==> m.num in known && !known[m.num].behind
    {
      hide Volume.Full, BootKept, SuperBlock.Valid, Volume.Rooted, AllListed, Counted, Closed, OthersSame,
           InodesMarked, Room, TableFits, Refs, FileType, Recorded, Namespace.Valid, Sound;
      ghost var now := vol.Now();
      DropLink(m);
      ghost var now1 := vol.Now();
      Unhold(dir, -1);
      OthersAfter(now, now1, vol.Now(), if m.num in links then -1 else m.num);
    }

    /** do_unhlink from the erasing of the entry on (fs/namei.c:656-664). */
    method UnlinkHeld(m: MemInode, dir: MemInode, e: nat, ghost name: Name)
      requires Valid(-1) && Linked(m) && Linked(dir) && dir.num in dirs && m.num !in dirs && vol.sb.Roomy(3)
      requires m.cnt > 0 && dir.cnt > 0 && dir.nlinks != 0
      requires name in dirs[dir.num] && dirs[dir.num][name] == m.num
      requires dir.num in ats && name in ats[dir.num] && e == ats[dir.num][name]
      modifies vol.sb.cache.Repr(), vol.sb`pos, vol`zones, vol`own, this, m, dir
      ensures Valid(-1) && vol.sb.cache.pins == old(vol.sb.cache.pins)
      ensures Linked(dir) && dir.cnt == old(dir.cnt) - 1
      ensures old(m.nlinks) > 0 && dirs == WithoutEntry(old(dirs), dir.num, name)
      ensures links == OneLess(old(links), m.num, old(m.cnt) == 1)
      ensures m.num in links ==> Linked(m) && m.cnt == old(m.cnt) - 1
      ensures KnownKept(old(known), known, m.num, dir.num)
      ensures RestSame(old(vol.Now()), vol.Now(), dir.num, if m.num in links then -1 else m.num)
      ensures old(m.cnt) == 1 && m.num in links ==> m.num in known && !known[m.num].behind
    {
      hide OneLess, SuperBlock.Valid, Volume.Rooted, AllListed, Counted, Closed, OthersSame, InodesMarked, Room,
           TableFits, Refs, FileType, Recorded;
      RoomyLess(vol.sb);
      CountedWiden(dirs, links, m.num);
      ghost var now := vol.Now();
      RemoveName(dir, e, name);
      ghost var now1 := vol.Now();
      UnlinkDone(m, dir);
      OthersThenRest(now, now1, vol.Now(), dir.num, if m.num in links then -1 else m.num);
    }

    /** What a name of a directory stands for is in use, within the bitmap, and has links. */
    lemma Named(d: nat, name: Name)
      requires Valid(-1) && d in dirs && name in dirs[d]
      ensures dirs[d][name] in links && links[dirs[d][name]] != 0 && dirs[d][name] < vol.sb.imapBlocks * BITS_PER_BLK
    {
      hide SuperBlock.Valid, Volume.Rooted, AllListed, Refs, Recorded;
      NamedLinked(dirs, links, d, name);
    }

    /** Two references to directories given back, perhaps of the same one. */
    method PutDirs(m: MemInode, dir: MemInode)
      requires Valid(-1) && Linked(m) && Linked(dir) && vol.sb.Roomy(3) && (m.num == dir.num ==> m == dir)
      requires m.cnt > 0 && dir.cnt > 0 && dir.nlinks != 0 && m.nlinks != 0 && (m == dir ==> m.cnt > 1)
      modifies vol.sb.cache.Repr(), vol`zones, vol`own, this`links, this`known, m, dir
      ensures Valid(-1) && vol.sb.cache.pins == old(vol.sb.cache.pins) && links == old(links)
      ensures Linked(dir) && dir.cnt == old(dir.cnt) - if m == dir then 2 else 1
      ensures KnownKept(old(known), known, m.num, dir.num) && Linked(m) && (m != dir ==> m.cnt == old(m.cnt) - 1)
      ensures OthersSame(old(vol.Now()), vol.Now(), -1)
      ensures m != dir && old(m.cnt) == 1 ==> m.num in known && !known[m.num].behind
    {
      hide Volume.Full, SuperBlock.Valid, Volume.Rooted, AllListed, Counted, Closed, OthersSame, InodesMarked, Room,
           TableFits, Refs, Sought, Recorded, Namespace.Valid, Sound;
      ghost var now := vol.Now();
      Unhold(m, -1);
      ghost var now1 := vol.Now();
      Unhold(dir, -1);
      OthersSameTwice(now, now1, vol.Now(), -1);
    }

    /** do_unhlink once iget has found the inode (fs/namei.c:645-665). */
    method UnlinkGot(m: MemInode, dir: MemInode, e: nat, ghost name: Name) returns (err: Errno)
      requires Valid(-1) && Linked(m) && Linked(dir) && dir.num in dirs && vol.sb.Roomy(3)
      requires m.cnt > 0 && dir.cnt > 0 && dir.nlinks != 0 && m.nlinks != 0 && (m == dir ==> m.cnt > 1)
      requires name in dirs[dir.num] && dirs[dir.num][name] == m.num && (m.num == dir.num ==> m == dir)
      requires dir.num in ats && name in ats[dir.num] && e == ats[dir.num][name]
      modifies vol.sb.cache.Repr(), vol.sb`pos, vol`zones, vol`own, this, m, dir
      ensures Valid(-1) && vol.sb.cache.pins == old(vol.sb.cache.pins)
      ensures Linked(dir) && dir.cnt == old(dir.cnt) - if m == dir then 2 else 1
      ensures if m.num in old(dirs) then err == EDIR && dirs == old(dirs) && links == old(links)
              else && err == OK && dirs == WithoutEntry(old(dirs), dir.num, name)
                   && links == OneLess(old(links), m.num, old(m.cnt) == 1)
      ensures KnownKept(old(known), known, m.num, dir.num)
      ensures m.num in links ==> Linked(m) && (m != dir ==> m.cnt == old(m.cnt) - 1)
      ensures RestSame(old(vol.Now()), vol.Now(), dir.num, if m.num in links then -1 else m.num)
      ensures m != dir && old(m.cnt) == 1 && m.num in links ==> m.num in known && !known[m.num].behind
    {
      hide SuperBlock.Valid, Volume.Rooted, AllListed, Counted, Closed, OthersSame, InodesMarked, Room, TableFits,
           Refs, Sought, Recorded, Namespace.Valid, Sound, WithoutEntry, OneLess;
      Kind(m, -1);
      if FileType(m.mode) == S_IFDIR {
        ghost var now := vol.Now();
        PutDirs(m, dir);
        RestWiden(now, vol.Now(), dir.num, -1);
        return EDIR;
      }
      UnlinkHeld(m, dir, e, name);
      return OK;
    }

    /** do_unhlink with the directory held (fs/namei.c:636-665). copy is what iget finds in memory
        for the number the name stands for. */
    method UnlinkFound(copy: MemInode?, dir: MemInode, path: seq<byte>, p: nat, len: nat) returns (err: Errno)
      requires Valid(-1) && Linked(dir) && dir.num in dirs && vol.sb.Roomy(3) && Component(path, p, len)
      requires dir.cnt > 0 && dir.nlinks != 0
      requires Sought(path, p, len) in dirs[dir.num] ==> Fetched(copy, dir, dirs[dir.num][Sought(path, p, len)])
      modifies vol.sb.cache.Repr(), vol.sb`pos, vol`zones, vol`own, this, copy, dir
      ensures Valid(-1) && vol.sb.cache.pins == old(vol.sb.cache.pins)
      ensures Linked(dir) && dir.cnt == old(dir.cnt) - 1
      ensures Unlinked(err, old(dirs), dirs, old(links), links, dir.num, Sought(path, p, len), copy == null
              || old(copy.cnt) == 0)
      ensures err != ENOPATH && copy != null && copy.num in links ==>
              Linked(copy) && (copy != dir ==> copy.cnt == old(copy.cnt))
      ensures KnownKept(old(known), known, NamedBy(old(dirs), dir.num, Sought(path, p, len)), dir.num)
      ensures RestSame(old(vol.Now()), vol.Now(), dir.num, GoneBy(old(dirs), links, dir.num, Sought(path, p, len)))
      ensures copy == null && Sought(path, p, len) in old(dirs)[dir.num]
              && old(dirs)[dir.num][Sought(path, p, len)] in links ==>
                Fetchable(null, old(dirs)[dir.num][Sought(path, p, len)])
    {
      hide SuperBlock.Valid, Volume.Rooted, AllListed, Counted, Closed, OthersSame, InodesMarked, Room, TableFits,
           Refs, Sought, Recorded, Namespace.Valid, Sound, WithoutEntry, OneLess;
      ghost var name := Sought(path, p, len);
      RoomyLess(vol.sb);
      var found, e, nr := LookUp(dir, path, p, len, -1);
      if !found {
        ghost var now := vol.Now();
        Unhold(dir, -1);
        RestWiden(now, vol.Now(), dir.num, -1);
        return ENOPATH;
      }
      Named(dir.num, name);
      RoomyOne(vol.sb);
      var m := Iget(nr, copy, -1);
      err := UnlinkGot(m, dir, e, name);
    }

    /** copy is what there is in memory of inode n, be it the directory itself. */
    ghost predicate Fetched(copy: MemInode?, dir: MemInode, n: nat)
      reads this`links, this`known, copy
    {
      Fetchable(copy, n) && (n == dir.num ==> copy == dir)
    }

    /** What do_unhlink did to names and counts. */
    ghost predicate Unlinked(err: Errno, dirs0: map<nat, map<Name, u32>>, dirs1: map<nat, map<Name, u32>>,
                             links0: map<nat, u16>, links1: map<nat, u16>, d: nat, name: Name, idle: bool)
      requires d in dirs0
    {
      if name !in dirs0[d] then err == ENOPATH && dirs1 == dirs0 && links1 == links0
      else if dirs0[d][name] in dirs0 then err == EDIR && dirs1 == dirs0 && links1 == links0
      else && err == OK && dirs1 == WithoutEntry(dirs0, d, name) && dirs0[d][name] in links0
           && links0[dirs0[d][name]] > 0
           && links1 == OneLess(links0, dirs0[d][name], idle)
    }

    /** The error says why, and then nothing has changed; otherwise only the name has gone, and its inode exactly
        when that was the last link and it was idle. */
    lemma UnlinkedMeans(err: Errno, dirs0: map<nat, map<Name, u32>>, dirs1: map<nat, map<Name, u32>>,
                        links0: map<nat, u16>, links1: map<nat, u16>, d: nat, name: Name, idle: bool)
      requires d in dirs0 && Unlinked(err, dirs0, dirs1, links0, links1, d, name, idle)
      ensures err == ENOPATH <==> name !in dirs0[d]
      ensures err == EDIR <==> name in dirs0[d] && dirs0[d][name] in dirs0
      ensures err == OK <==> name in dirs0[d] && dirs0[d][name] !in dirs0
      ensures err != OK ==> dirs1 == dirs0 && links1 == links0
      ensures err == OK ==>
                && dirs1.Keys == dirs0.Keys
                && (forall x :: x in dirs1[d] <==> x != name && x in dirs0[d])
                && (forall x :: x in dirs0[d] && x != name ==> dirs1[d][x] == dirs0[d][x])
                && (forall y :: y in dirs0 && y != d ==> dirs1[y] == dirs0[y])
      ensures err == OK ==> var f := dirs0[d][name];
                && f in links0 && (f in links1 <==> links0[f] > 1 || !idle)
                && (f in links1 ==> links1[f] == links0[f] - 1)
                && (forall y :: y != f ==> (y in links1 <==> y in links0))
                && (forall y :: y in links0 && y != f ==> links1[y] == links0[y])
    {
      hide WithoutEntry, OneLess;
      if err == OK {
        EntryRemoved(dirs0, d, name);
        LinkTaken(links0, dirs0[d][name], idle);
      }
    }

    /** fs/namei.c:622. The name goes; its inode goes with it when that was the last link
        and nobody has the file open. copy is the inode's copy in memory, if there is one. */
    method DoUnhlink(copy: MemInode?, dir: MemInode?, path: seq<byte>, p: nat, len: nat) returns (err: Errno)
      requires Valid(-1) && vol.sb.Roomy(3) && (len == 0 || Component(path, p, len))
      requires dir != null ==> Linked(dir) && dir.num in dirs && dir.cnt < 0xFFFE && dir.nlinks != 0
      requires dir != null && len != 0 && Sought(path, p, len) in dirs[dir.num] ==>
                 Fetched(copy, dir, dirs[dir.num][Sought(path, p, len)])
      modifies vol.sb.cache.Repr(), vol.sb`pos, vol`zones, vol`own, this, copy, dir
      ensures Valid(-1) && vol.sb.cache.pins == old(vol.sb.cache.pins)
      ensures dir != null ==> Linked(dir) && dir.cnt == old(dir.cnt)
      ensures dir == null || len == 0 ==> err == ENOPATH && dirs == old(dirs) && links == old(links)
      ensures dir != null && len != 0 ==>
                dir.num in old(dirs) && p + len < |path| &&
                Unlinked(err, old(dirs), dirs, old(links), links, dir.num, Sought(path, p, len), copy == null
                  || old(copy.cnt) == 0)
                && KnownKept(old(known), known, NamedBy(old(dirs), dir.num, Sought(path, p, len)), dir.num)
                && RestSame(old(vol.Now()), vol.Now(), dir.num,
                            GoneBy(old(dirs), links, dir.num, Sought(path, p, len)))
                && (copy == null && Sought(path, p, len) in old(dirs)[dir.num]
                    && old(dirs)[dir.num][Sought(path, p, len)] in links ==>
                      Fetchable(null, old(dirs)[dir.num][Sought(path, p, len)]))
      ensures dir == null ==> known == old(known)
      ensures dir != null && len == 0 ==> KnownKept(old(known), known, -1, dir.num)
      ensures dir == null || len == 0 ==> OthersSame(old(vol.Now()), vol.Now(), -1)
      ensures err != ENOPATH && copy != null && copy.num in links ==>
                Linked(copy) && (copy != dir ==> copy.cnt == old(copy.cnt))
    {
      hide SuperBlock.Valid, Volume.Rooted, AllListed, Counted, Closed, OthersSame, InodesMarked, Room, TableFits,
           Refs, Sought, Recorded, Namespace.Valid, Sound, WithoutEntry, OneLess;
      if dir == null {
        OthersSelf(vol.Now(), -1);
        return ENOPATH;
      }
      Hold(dir, -1);
      if len == 0 {
        Unhold(dir, -1);
        return ENOPATH;
      }
      err := UnlinkFound(copy, dir, path, p, len);
    }

    /** There is no inode number left, or no block for a directory of this size with so many names. */
    ghost predicate Starved(links0: map<nat, u16>, names: nat, size: nat)
      requires vol.sb.Valid()
      reads vol, vol.sb, vol.sb.cache.Repr()
    {
      || (forall n: nat :: n < vol.sb.imapBlocks * BITS_PER_BLK ==> n in links0)
      || (vol.Full() && names >= size / 64)
    }

    /** The stores of do_mknod and open_namei into a fresh inode (fs/namei.c:692-696). */
    static method StoreMode(m: MemInode, mode: u16, rdev: u16)
      requires m.zone == NO_ZONES
      modifies m`mode, m`zone, m`dirt
      ensures m.mode == mode && m.dirt && m.zone == FreshZones(mode, rdev)
    {
      m.mode := mode;
      m.dirt := true;
      if FileType(mode) == S_IFBLK || FileType(mode) == S_IFCHR {
        m.zone := m.zone[0 := rdev];
      }
    }

    /** A regular file joins the block-mapped ones, with no blocks. */
    ghost method Join(f: nat, x: int)
      requires Valid(x) && f in links && f !in dirs && f !in vol.zones
      modifies vol`zones
      ensures Sound(x) && vol.zones == old(vol.zones)[f := NO_ZONES]
      ensures OthersSame(old(vol.Now()), vol.Now(), -1)
    {
      hide SuperBlock.Valid, Forest, AllListed, Counted, Closed, OthersSame, Marked, InodesMarked, SuperBlock.Roomy,
           Recorded;
      var now := vol.Now();
      AdoptOthers(now, vol.own, vol.sb.firstDatazone, vol.sb.nzones, f);
      vol.zones := vol.zones[f := NO_ZONES];
      AllListedKept(now, vol.Now(), -1, ats, sizes, dirs);
    }

    /** The mode of a fresh inode; only a regular file joins the block-mapped ones, and a
        device file keeps its device number in zone 0. */
    method SetMode(m: MemInode, mode: u16, rdev: u16, ghost x: int)
      requires Valid(x) && Linked(m) && m.mode == 0 && m.zone == NO_ZONES && m.num !in dirs && FileType(mode) != S_IFDIR
      modifies m`mode, m`zone, m`dirt, vol`zones, this`known
      ensures Valid(x) && Linked(m) && m.dirt
      ensures Stored(m) == old(Stored(m)).(mode := mode, zone := FreshZones(mode, rdev))
      ensures known == old(known)[m.num := Known(Stored(m), true)]
      ensures vol.zones == if FileType(mode) == S_IFREG then old(vol.zones)[m.num := NO_ZONES] else old(vol.zones)
      ensures OthersSame(old(vol.Now()), vol.Now(), -1)
    {
      hide Volume.Full, SuperBlock.Valid, Volume.Rooted, AllListed, Counted, Closed, InodesMarked, Recorded,
           TableKept, Sound;
      Facts(m, x);
      ghost var v, zones0 := vol.sb.cache.view, vol.zones;
      ghost var now := vol.Now();
      StoreMode(m, mode, rdev);
      OthersSelf(now, -1);
      if FileType(mode) == S_IFREG {
        Join(m.num, x);
      }
      SameTable(vol.sb, v);
      Note(m, x, v, links, zones0, sizes, dirs, true);
    }

    /** A new inode whose name could not be added is given back. */
    method GiveBack(m: MemInode)
      requires m.num in vol.zones ==> m.zone == NO_ZONES
      requires Valid(m.num) && Linked(m) && m.num !in dirs && Refs(dirs, m.num) == {} && m.cnt == 1 && vol.sb.Roomy(3)
      modifies vol.sb.cache.Repr(), vol`zones, vol`own, this`links, this`known, m
      ensures Valid(-1) && vol.sb.cache.pins == old(vol.sb.cache.pins)
      ensures links == old(links) - {m.num} && vol.zones == old(vol.zones) - {m.num}
      ensures KnownKept(old(known), known, m.num, m.num)
      ensures OthersSame(old(vol.Now()), vol.Now(), m.num) && (old(vol.Full()) ==> vol.Full())
    {
      hide SuperBlock.Valid, Volume.Rooted, AllListed, Counted, Closed, OthersSame, InodesMarked, Room, TableFits,
           Refs, FileType, TableBlk, SuperBlock.IsTableBlk, Recorded, Namespace.Valid, Sound,
           Volume.Full;
      ghost var l := links;
      SetLinks(m, 0);
      assert l[m.num := 0] - {m.num} == l - {m.num};
      Iput(m, -1);
    }

    /** A new inode gets its name, which makes its count right, or not. */
    method NameFirst(m: MemInode, dir: MemInode, path: seq<byte>, p: nat, len: nat) returns (ok: bool)
      requires Valid(m.num) && Linked(m) && Linked(dir) && dir.num in dirs && m.num !in dirs && vol.sb.Roomy(3)
      requires m.nlinks == 1 && Refs(dirs, m.num) == {} && dir.size + BLK_SIZE < TWO_32
      requires Component(path, p, len) && len != NAME_LEN && Sought(path, p, len) !in dirs[dir.num]
      modifies vol.sb.cache.Repr(), vol.sb`pos, vol`zones, vol`own, this`ats, this`sizes, this`dirs, this`known, dir
      ensures Valid(if ok then -1 else m.num) && Linked(dir) && Linked(m) && vol.sb.cache.pins == old(vol.sb.cache.pins)
      ensures dir.cnt == old(dir.cnt) && dir.nlinks == old(dir.nlinks)
      ensures dirs == if ok then WithEntry(old(dirs), dir.num, Sought(path, p, len), m.num) else old(dirs)
      ensures |old(dirs)[dir.num]| < old(dir.size) / 64 ==> ok && dir.size == old(dir.size)
      ensures (!ok ==> vol.Full()) && vol.zones == old(vol.zones)[dir.num := dir.zone]
      ensures KnownKept(old(known), known, dir.num, dir.num)
      ensures OthersSame(old(vol.Now()), vol.Now(), dir.num)
    {
      hide SuperBlock.Valid, Volume.Rooted, Volume.Full, AllListed, Counted, Closed, OthersSame, InodesMarked, Refs,
           Sought, Room, TableFits, FileType, Recorded;
      RoomyLess(vol.sb);
      ok := AddName(dir, path, p, len, m.num);
      if ok {
        CountedFirst(dirs, links, m.num);
      }
    }

    /** add_entry for a new inode, which goes away again when that fails. */
    method NameNew(m: MemInode, dir: MemInode, path: seq<byte>, p: nat, len: nat) returns (ok: bool)
      requires Valid(m.num) && Linked(m) && Linked(dir) && dir.num in dirs && m.num !in dirs && vol.sb.Roomy(3)
      requires m.cnt == 1 && m.nlinks == 1 && Refs(dirs, m.num) == {} && dir.size + BLK_SIZE < TWO_32
      requires m.num in vol.zones ==> m.zone == NO_ZONES
      requires Component(path, p, len) && len != NAME_LEN && Sought(path, p, len) !in dirs[dir.num]
      modifies vol.sb.cache.Repr(), vol.sb`pos, vol`zones, vol`own, this, dir, m
      ensures Valid(-1) && Linked(dir) && vol.sb.cache.pins == old(vol.sb.cache.pins) && dir.cnt == old(dir.cnt)
      ensures dirs == if ok then WithEntry(old(dirs), dir.num, Sought(path, p, len), m.num) else old(dirs)
      ensures if ok then Linked(m) && m.cnt == 1 && Stored(m) == old(Stored(m)) && links == old(links)
              else links == old(links) - {m.num} && vol.Full() && |old(dirs)[dir.num]| >= old(dir.size) / 64
      ensures KnownKept(old(known), known, m.num, dir.num)
      ensures RestSame(old(vol.Now()), vol.Now(), dir.num, m.num)
    {
      hide SuperBlock.Valid, Volume.Rooted, Volume.Full, AllListed, Counted, Closed, OthersSame, InodesMarked, Refs,
           Sought, Room, TableFits, FileType, Recorded, Namespace.Valid, Sound;
      ghost var now := vol.Now();
      ok := NameFirst(m, dir, path, p, len);
      ghost var now1 := vol.Now();
      if ok {
        OthersSelf(now1, m.num);
      } else {
        ghost var k := known[dir.num];
        GiveBack(m);
        assert known[dir.num] == k && links[dir.num] == dir.nlinks;
      }
      OthersThenRest(now, now1, vol.Now(), dir.num, m.num);
    }

    lemma Starve(links0: map<nat, u16>, names: nat, size: nat)
      requires vol.sb.Valid()
      requires (forall n: nat :: n < vol.sb.imapBlocks * BITS_PER_BLK ==> n in links0)
               || (vol.Full() && names >= size / 64)
      ensures Starved(links0, names, size)
    {
      hide Volume.Full;
    }

    lemma NoZonesOf(m: MemInode, mode: u16, rdev: u16)
      requires Valid(m.num) && Current(m) && m.mode == mode && m.zone == FreshZones(mode, rdev)
      ensures m.num in vol.zones ==> m.zone == NO_ZONES
    {
      hide SuperBlock.Valid, Volume.Rooted, AllListed, Counted, Closed, InodesMarked, Recorded;
      KindKnown(m.num, m.num);
    }

    /** A new inode of this mode, which has no name yet. */
    method MoldInode(mode: u16, rdev: u16) returns (m: MemInode?)
      requires Valid(-1) && FileType(mode) != S_IFDIR
      modifies vol.sb.cache.bh, vol.sb.cache`view, vol.sb.cache`pins, vol`zones, this`links, this`known
      ensures Valid(if m == null then -1 else m.num) && vol.sb.cache.pins == old(vol.sb.cache.pins)
      ensures OthersSame(old(vol.Now()), vol.Now(), -1)
      ensures m == null ==> links == old(links)
      ensures m == null ==> forall n: nat :: n < vol.sb.imapBlocks * BITS_PER_BLK ==> n in links
      ensures m != null ==> links == old(links)[m.num := 1]
      ensures m != null ==> m.num !in old(links) && m.num !in old(vol.zones) && m.num !in dirs
      ensures m != null ==> Refs(dirs, m.num) == {}
      ensures m != null ==> fresh(m) && Linked(m) && m.cnt == 1
      ensures m != null ==> Stored(m) == FreshRecord().(mode := mode, zone := FreshZones(mode, rdev))
      ensures m != null ==> m.num in vol.zones ==> m.zone == NO_ZONES
      ensures KnownKept(old(known), known, -1, -1)
    {
      hide SuperBlock.Valid, Volume.Rooted, AllListed, Counted, Closed, OthersSame, InodesMarked, Refs, FileType,
           FreshZones, SuperBlock.InodeBit, Recorded, Namespace.Valid, Sound;
      KnownKeys(-1);
      FilesInUse(-1);
      ghost var now := vol.Now();
      m := NewInode();
      ghost var now1 := vol.Now();
      if m != null {
        SetMode(m, mode, rdev, m.num);
        NoZonesOf(m, mode, rdev);
        OthersSameTwice(now, now1, vol.Now(), -1);
      }
    }

    /** What open_namei with O_CREAT and do_mknod share: a new inode under a new name, or
        nothing at all. */
    method MakeInode(dir: MemInode, path: seq<byte>, p: nat, len: nat, mode: u16, rdev: u16) returns (m: MemInode?)
      requires Valid(-1) && Linked(dir) && dir.num in dirs && vol.sb.Roomy(3) && FileType(mode) != S_IFDIR
      requires Component(path, p, len) && len != NAME_LEN && Sought(path, p, len) !in dirs[dir.num]
      requires dir.size + BLK_SIZE < TWO_32
      modifies vol.sb.cache.Repr(), vol.sb`pos, vol`zones, vol`own, this, dir
      ensures Valid(-1) && Linked(dir) && vol.sb.cache.pins == old(vol.sb.cache.pins) && dir.cnt == old(dir.cnt)
      ensures m == null ==> dirs == old(dirs) && links == old(links)
                            && Starved(links, |dirs[dir.num]|, old(dir.size))
      ensures m != null ==> fresh(m) && Linked(m) && m.num !in old(links) && m.cnt == 1
      ensures m != null ==> Stored(m) == FreshRecord().(mode := mode, zone := FreshZones(mode, rdev))
      ensures m != null ==> links == old(links)[m.num := 1]
      ensures m != null ==> dirs == WithEntry(old(dirs), dir.num, Sought(path, p, len), m.num)
      ensures KnownKept(old(known), known, dir.num, if m == null then -1 else m.num)
      ensures OthersSame(old(vol.Now()), vol.Now(), dir.num)
    {
      hide WithEntry, SuperBlock.Valid, Volume.Rooted, Volume.Full, AllListed, Counted, Closed, OthersSame,
           InodesMarked, Refs, Sought, Room, TableFits, FileType, FreshZones, SuperBlock.InodeBit, Recorded,
             Namespace.Valid, Sound, Starved;
      ghost var links0, size := links, dir.size;
      KnownKeys(-1);
      ghost var now := vol.Now();
      m := MoldInode(mode, rdev);
      ghost var now1 := vol.Now();
      if m == null {
        Starve(links0, |dirs[dir.num]|, dir.size);
        RestWiden(now, now1, dir.num, -1);
        return;
      }
      ghost var num := m.num;
      var ok := NameNew(m, dir, path, p, len);
      RestThen(now, now1, vol.Now(), dir.num, num);
      RestIsOthers(now, vol.Now(), dir.num, num);
      if !ok {
        Starve(links0, |dirs[dir.num]|, size);
        assert links == links0;
        m := null;
      }
    }

    /** do_mknod of a name that is not there yet (fs/namei.c:688-709); num is the new inode. */
    method MknodNew(dir: MemInode, path: seq<byte>, p: nat, len: nat, mode: u16, rdev: u16)
      returns (ok: bool, num: u32)
      requires Valid(-1) && vol.sb.Roomy(3) && FileType(mode) != S_IFDIR && Component(path, p, len) && len != NAME_LEN
      requires Linked(dir) && dir.num in dirs && dir.cnt > 0 && dir.nlinks != 0 && dir.size + BLK_SIZE < TWO_32
      requires Sought(path, p, len) !in dirs[dir.num]
      modifies vol.sb.cache.Repr(), vol.sb`pos, vol`zones, vol`own, this, dir
      ensures Valid(-1) && vol.sb.cache.pins == old(vol.sb.cache.pins)
      ensures Linked(dir) && dir.cnt == old(dir.cnt) - 1
      ensures !ok ==> dirs == old(dirs) && links == old(links) && Starved(links, |dirs[dir.num]|, old(dir.size))
      ensures ok ==> num !in old(links) && links == old(links)[num := 1]
                     && dirs == WithEntry(old(dirs), dir.num, Sought(path, p, len), num)
      ensures KnownKept(old(known), known, dir.num, if ok then num else -1)
      ensures ok ==> num in known && !known[num].behind
                     && known[num].rec == FreshRecord().(mode := mode, zone := FreshZones(mode, rdev))
      ensures OthersSame(old(vol.Now()), vol.Now(), dir.num)
    {
      hide WithEntry, SuperBlock.Valid, Volume.Rooted, AllListed, Counted, Closed, OthersSame, InodesMarked, Refs,
           Sought, Room, TableFits, FileType, FreshZones, Namespace.Valid, Recorded, Sound,
           Volume.Full;
      ghost var now, links0, size := vol.Now(), links, dir.size;
      var m := MakeInode(dir, path, p, len, mode, rdev);
      ghost var now1 := vol.Now();
      if m == null {
        Unhold(dir, -1);
        Starve(links0, |dirs[dir.num]|, size);
        OthersAfter(now, now1, vol.Now(), dir.num);
        return false, 0;
      }
      num := m.num;
      PutBoth(dir, m);
      OthersAfter(now, now1, vol.Now(), dir.num);
      return true, num;
    }

    /** do_mknod with the directory held (fs/namei.c:683-709); num is the new inode. */
    method MknodHeld(dir: MemInode, path: seq<byte>, p: nat, len: nat, mode: u16, rdev: u16)
      returns (err: Errno, num: u32)
      requires Valid(-1) && vol.sb.Roomy(3) && FileType(mode) != S_IFDIR && Component(path, p, len) && len != NAME_LEN
      requires Linked(dir) && dir.num in dirs && dir.cnt > 0 && dir.nlinks != 0 && dir.size + BLK_SIZE < TWO_32
      modifies vol.sb.cache.Repr(), vol.sb`pos, vol`zones, vol`own, this, dir
      ensures Valid(-1) && vol.sb.cache.pins == old(vol.sb.cache.pins)
      ensures Linked(dir) && dir.cnt == old(dir.cnt) - 1
      ensures err == EPDUP <==> Sought(path, p, len) in old(dirs)[dir.num]
      ensures err == OK || err == EPDUP || err == ENOSRC
      ensures err != OK ==> dirs == old(dirs) && links == old(links)
      ensures err == ENOSRC ==> Starved(links, |dirs[dir.num]|, old(dir.size))
      ensures err == OK ==> num !in old(links) && links == old(links)[num := 1]
                            && dirs == WithEntry(old(dirs), dir.num, Sought(path, p, len), num)
      ensures KnownKept(old(known), known, dir.num, if err == OK then num else -1)
      ensures err == OK ==> num in known && !known[num].behind
                            && known[num].rec == FreshRecord().(mode := mode, zone := FreshZones(mode, rdev))
      ensures OthersSame(old(vol.Now()), vol.Now(), dir.num)
    {
      hide WithEntry, SuperBlock.Valid, Volume.Rooted, AllListed, Counted, Closed, OthersSame, InodesMarked, Refs,
           Sought, Room, TableFits, FileType, FreshZones, Namespace.Valid, Recorded, Sound,
           Starved;
      RoomyLess(vol.sb);
      var found, e, nr := LookUp(dir, path, p, len, -1);
      if found {
        ghost var now := vol.Now();
        Unhold(dir, -1);
        RestWiden(now, vol.Now(), dir.num, -1);
        return EPDUP, 0;
      }
      var ok;
      ok, num := MknodNew(dir, path, p, len, mode, rdev);
      err := if ok then OK else ENOSRC;
    }

    /** fs/namei.c:669 */
    method DoMknod(dir: MemInode?, path: seq<byte>, p: nat, len: nat, mode: u16, rdev: u16)
      returns (err: Errno, num: u32)
      requires Valid(-1) && vol.sb.Roomy(3) && FileType(mode) != S_IFDIR
      requires dir != null ==>
               Linked(dir) && dir.num in dirs && dir.cnt < 0xFFFF && dir.nlinks != 0 && dir.size + BLK_SIZE < TWO_32
      requires (len == 0 || Component(path, p, len)) && len != NAME_LEN
      modifies vol.sb.cache.Repr(), vol.sb`pos, vol`zones, vol`own, this, dir
      ensures Valid(-1) && vol.sb.cache.pins == old(vol.sb.cache.pins)
      ensures dir != null ==> Linked(dir) && dir.cnt == old(dir.cnt)
      ensures err == ENOPATH <==> dir == null || len == 0
      ensures dir != null && len != 0 ==>
                && p + len < |path| && dir.num in old(dirs) && (err == OK || err == EPDUP || err == ENOSRC)
                && (err == EPDUP <==> Sought(path, p, len) in old(dirs)[dir.num])
                && (err == ENOSRC ==>
                      || (forall n: nat :: n < vol.sb.imapBlocks * BITS_PER_BLK ==> n in old(links))
                      || (vol.Full() && |old(dirs)[dir.num]| >= old(dir.size) / 64))
      ensures err != OK ==> dirs == old(dirs) && links == old(links)
      ensures err == OK ==> dir != null && p + len < |path| && dir.num in old(dirs) && num !in old(links)
                            && links == old(links)[num := 1]
                            && dirs == WithEntry(old(dirs), dir.num, Sought(path, p, len), num)
      ensures dir != null ==> KnownKept(old(known), known, dir.num, if err == OK then num else -1)
      ensures err == OK ==>
                && num in known && Fetchable(null, num)
                && known[num].rec == FreshRecord().(mode := mode, zone := known[num].rec.zone)
                && |known[num].rec.zone| == 9
                && forall i: nat :: i < 9 ==>
                     known[num].rec.zone[i] == if i == 0 && (mode / 0x1000 == 2 || mode / 0x1000 == 6) then rdev else 0
      ensures OthersSame(old(vol.Now()), vol.Now(), if dir == null then -1 else dir.num)
    {
      hide WithEntry, SuperBlock.Valid, Volume.Rooted, AllListed, Counted, Closed, OthersSame, InodesMarked, Refs,
           Sought, Room, TableFits, FileType, Recorded, Namespace.Valid, Sound, Volume.Full, FreshZones;
      if dir == null {
        OthersSelf(vol.Now(), -1);
        return ENOPATH, 0;
      }
      Hold(dir, -1);
      if len == 0 {
        ghost var now := vol.Now();
        Unhold(dir, -1);
        RestWiden(now, vol.Now(), dir.num, -1);
        return ENOPATH, 0;
      }
      FreshZonesAre(mode, rdev);
      err, num := MknodHeld(dir, path, p, len, mode, rdev);
    }

    /** mode | I_REGULAR */
    static function AsRegular(mode: u16): (r: u16) {
      if mode < 0x8000 then mode + 0x8000 else mode
    }

    lemma RegularZones(mode: u16)
      ensures FreshZones(AsRegular(mode), 0) == NO_ZONES
    {
    }

    lemma RegularMode(mode: u16)
      ensures FileType(AsRegular(mode)) != S_IFDIR
      ensures AsRegular(mode) % 0x8000 == mode % 0x8000 && AsRegular(mode) >= 0x8000
    {
    }

    /** The creation itself (fs/namei.c:523-544). */
    method CreateNew(dir: MemInode, path: seq<byte>, p: nat, len: nat, mode: u16) returns (m: MemInode?)
      requires Valid(-1) && vol.sb.Roomy(3) && Component(path, p, len) && len != NAME_LEN
      requires Linked(dir) && dir.num in dirs && dir.cnt > 0 && dir.nlinks != 0 && dir.size + BLK_SIZE < TWO_32
      requires Sought(path, p, len) !in dirs[dir.num]
      modifies vol.sb.cache.Repr(), vol.sb`pos, vol`zones, vol`own, this, dir
      ensures Valid(-1) && vol.sb.cache.pins == old(vol.sb.cache.pins)
      ensures Linked(dir) && dir.cnt == old(dir.cnt) - 1
      ensures m == null ==> dirs == old(dirs) && links == old(links)
                            && Starved(links, |dirs[dir.num]|, old(dir.size))
      ensures m != null ==> fresh(m) && Linked(m) && m.cnt == 1 && m.num !in old(links)
      ensures m != null ==> Stored(m) == FreshRecord().(mode := AsRegular(mode))
      ensures m != null ==> links == old(links)[m.num := 1]
      ensures m != null ==> dirs == WithEntry(old(dirs), dir.num, Sought(path, p, len), m.num)
      ensures KnownKept(old(known), known, dir.num, if m == null then -1 else m.num)
      ensures OthersSame(old(vol.Now()), vol.Now(), dir.num)
    {
      hide WithEntry, SuperBlock.Valid, Volume.Rooted, AllListed, Counted, Closed, OthersSame, InodesMarked, Refs,
           Sought, Room, TableFits, FreshZones, Recorded, Namespace.Valid, Sound, FileType, AsRegular,
           Volume.Full;
      RegularMode(mode);
      RegularZones(mode);
      ghost var now, links0, size := vol.Now(), links, dir.size;
      m := MakeInode(dir, path, p, len, AsRegular(mode), 0);
      ghost var now1 := vol.Now();
      Unhold(dir, -1);
      if m == null {
        Starve(links0, |dirs[dir.num]|, size);
      }
      OthersAfter(now, now1, vol.Now(), dir.num);
    }

    // ---- opening ----

    /** What clear_iblks left of inode m: for a regular file its zones are empty, their blocks
        unmarked and it reads as one hole; any other inode stays. */
    twostate predicate Emptied(m: MemInode)
      reads vol, vol.sb, vol.sb.cache.Repr(), m
    {
      && old(vol.Valid()) && vol.Valid() && OthersSame(old(vol.Now()), vol.Now(), m.num)
      && Stored(m) == (if FileType(m.mode) == S_IFREG then old(Stored(m)).(size := 0, zone := NO_ZONES)
                       else old(Stored(m)))
      && |old(m.zone)| == 9
      && (FileType(m.mode) == S_IFREG ==> forall i: nat :: i < 9 && old(m.zone)[i] != 0 ==> old(m.zone)[i] !in vol.own)
    }

    /** The inode table holds record d for inode n. */
    ghost predicate Written(n: nat, d: DevInode)
      reads vol, vol.sb, vol.sb.cache
    {
      (forall k :: k in vol.sb.cache.view) && InTableAs(vol.sb, vol.sb.cache.view, n, d)
    }

    /** An inode whose record is up to date is in the table as it is known. */
    lemma TableHas(n: nat, x: int)
      requires Valid(x) && n in known && !known[n].behind
      ensures InTableAs(vol.sb, vol.sb.cache.view, n, known[n].rec)
    {
    }

    /** The blocks the zones of a file name are its own. */
    lemma ZonesOwn(f: nat)
      requires vol.Valid() && f in vol.zones && |vol.zones[f]| == 9
      ensures forall i: nat :: i < 9 && vol.zones[f][i] != 0 ==> vol.zones[f][i] !in Without(vol.own, f)
    {
      hide SuperBlock.Valid, Marked, Forest;
      forall i: nat | i < 9 && vol.zones[f][i] != 0 ensures vol.zones[f][i] !in Without(vol.own, f) {
        Owned(vol.Now(), vol.own, vol.sb.firstDatazone, vol.sb.nzones, Zone(f, i));
      }
    }

    method CutFile(m: MemInode)
      requires Valid(-1) && Linked(m) && m.num !in dirs && vol.sb.Roomy(3)
      modifies vol.sb.cache.Repr(), vol`zones, vol`own, m`zone, m`size
      ensures Sound(-1) && vol.sb.cache.pins == old(vol.sb.cache.pins) && Emptied(m)
      ensures TableKept(vol.sb, old(vol.sb.cache.view), vol.sb.cache.view)
      ensures ElsewhereSame(m.num, old(vol.zones), vol.zones, sizes, sizes, dirs, dirs)
      ensures Describes(Stored(m), m.num, links, vol.zones, sizes, dirs)
    {
      hide SuperBlock.Valid, Volume.Rooted, AllListed, Counted, Closed, OthersSame, InodesMarked, SuperBlock.Roomy,
           Recorded, BootKept, TableKept, Sound, Without;
      Facts(m, -1);
      ghost var zones := vol.zones;
      if m.num in vol.zones {
        ZonesOwn(m.num);
      }
      ClearBlocks(m, -1);
      assert forall y :: y in zones && y != m.num ==> y in vol.zones - {m.num} && vol.zones[y] == (zones - {m.num})[y];
      assert forall y :: y in vol.zones <==> y in zones;
    }

    twostate lemma NotEmptied(m: MemInode)
      requires old(vol.Valid()) && vol.Valid() && vol.Now() == old(vol.Now()) && vol.own == old(vol.own)
      requires Stored(m) == old(Stored(m)) && FileType(m.mode) == S_IFDIR && |m.zone| == 9
      ensures Emptied(m)
    {
      hide Volume.Valid;
      OthersSelf(vol.Now(), m.num);
    }

    method TruncateFile(m: MemInode)
      requires Valid(-1) && Linked(m) && m.num !in dirs && vol.sb.Roomy(3)
      modifies vol.sb.cache.Repr(), vol`zones, vol`own, this`known, m`zone, m`size
      ensures Valid(-1) && vol.sb.cache.pins == old(vol.sb.cache.pins) && Emptied(m)
      ensures known == old(known)[m.num := Known(Stored(m), old(known)[m.num].behind || Stored(m) != old(Stored(m)))]
      ensures !old(known)[m.num].behind ==> InTableAs(vol.sb, vol.sb.cache.view, m.num, old(Stored(m)))
    {
      hide SuperBlock.Valid, Volume.Rooted, AllListed, Counted, Closed, OthersSame, InodesMarked, SuperBlock.Roomy,
           Recorded, BootKept, TableKept, Sound, FileType, InTableAs, Describes, ElsewhereSame, Emptied,
           Namespace.Valid;
      ghost var v, zones, d0, k0 := vol.sb.cache.view, vol.zones, Stored(m), known[m.num];
      Facts(m, -1);
      if !k0.behind {
        TableHas(m.num, -1);
      }
      CutFile(m);
      if !k0.behind {
        InTableKept(vol.sb, v, vol.sb.cache.view, m.num, d0);
      }
      SameLinks(Stored(m), m.num, vol.zones, sizes, dirs);
      Note(m, -1, v, links, zones, sizes, dirs, k0.behind || Stored(m) != d0);
    }

    /** clear_iblks of a file that stays (fs/namei.c:561). It does not raise i_dirt: the copy is still
        a current one, which iput writes back when it is last put, exactly when it was dirty
        already or the file was empty. Otherwise the table keeps the record of before. */
    method Truncate(m: MemInode)
      requires Valid(-1) && Linked(m) && vol.sb.Roomy(3)
      modifies vol.sb.cache.Repr(), vol`zones, vol`own, this`known, m`zone, m`size
      ensures Valid(-1) && vol.sb.cache.pins == old(vol.sb.cache.pins) && Emptied(m)
      ensures Linked(m) <==> m.dirt || Stored(m) == old(Stored(m))
      ensures known == old(known)[m.num := Known(Stored(m), old(known)[m.num].behind || Stored(m) != old(Stored(m)))]
      ensures Current(m)
      ensures !old(known)[m.num].behind ==> InTableAs(vol.sb, vol.sb.cache.view, m.num, old(Stored(m)))
    {
      hide SuperBlock.Valid, Volume.Rooted, AllListed, Counted, Closed, OthersSame, InodesMarked, SuperBlock.Roomy,
           Recorded, BootKept, TableKept, Sound, FileType, InTableAs, Describes, Emptied, Namespace.Valid;
      Kind(m, -1);
      if FileType(m.mode) == S_IFDIR {
        Facts(m, -1);
        if !known[m.num].behind {
          TableHas(m.num, -1);
        }
        NotEmptied(m);
        assert known[m.num := known[m.num]] == known;
        return;
      }
      TruncateFile(m);
    }

    /** No block that the zones of record d name belongs to a file. */
    ghost predicate Freed(d: DevInode)
      reads vol
    {
      |d.zone| == 9 && forall i: nat :: i < 9 && d.zone[i] != 0 ==> d.zone[i] !in vol.own
    }

    /** How open_namei hands out an inode of which k was known: with its record as it was, or as that
        of an emptied file; the table still has what it had. */
    ghost predicate Opened(m: MemInode, k: Known, how: Access)
      requires forall b :: b in vol.sb.cache.view
      reads this`links, this`known, m, vol, vol.sb, vol.sb.cache
    {
      && Current(m) && (Stored(m) != k.rec ==> known[m.num].behind)
      && (known[m.num].behind ==> m.dirt || (!k.behind && Stored(m) != k.rec))
      && (if how.truncate && FileType(k.rec.mode) == S_IFREG
          then Stored(m) == k.rec.(size := 0, zone := NO_ZONES) && Freed(k.rec) else Stored(m) == k.rec)
      && (!k.behind ==> InTableAs(vol.sb, vol.sb.cache.view, m.num, k.rec))
    }

    /** A directory may have been written back in between. */
    lemma OpenedSince(m: MemInode, k: Known, k1: Known, how: Access)
      requires (forall b :: b in vol.sb.cache.view) && Opened(m, k1, how)
      requires k1 == k || (k1.rec == k.rec && (k1.behind ==> k.behind) && FileType(k.rec.mode) == S_IFDIR)
      ensures Opened(m, k, how)
    {
    }

    /** The end of open_namei (fs/namei.c:559-563). */
    method HandOut(m: MemInode, how: Access)
      requires Valid(-1) && Linked(m) && vol.sb.Roomy(3)
      modifies vol.sb.cache.Repr(), vol`zones, vol`own, this`known, m`zone, m`size
      ensures Valid(-1) && vol.sb.cache.pins == old(vol.sb.cache.pins) && Opened(m, old(known)[m.num], how)
      ensures OthersSame(old(vol.Now()), vol.Now(), if how.truncate then m.num else -1)
      ensures KnownKept(old(known), known, m.num, m.num)
      ensures FileType(m.mode) == S_IFDIR ==> Linked(m)
    {
      hide SuperBlock.Valid, Volume.Rooted, Sound, Room, Recorded, OthersSame, InTableAs;
      if how.truncate {
        Truncate(m);
      } else {
        if !known[m.num].behind {
          TableHas(m.num, -1);
        }
        OthersSelf(vol.Now(), -1);
      }
    }

    /** open_namei with the inode at hand (fs/namei.c:555-563). */
    method OpenGot(m: MemInode, how: Access) returns (err: Errno)
      requires Valid(-1) && Linked(m) && m.cnt > 0 && m.nlinks != 0 && vol.sb.Roomy(3)
      modifies vol.sb.cache.Repr(), vol`zones, vol`own, this`links, this`known, m
      ensures Valid(-1) && vol.sb.cache.pins == old(vol.sb.cache.pins) && links == old(links)
      ensures if m.num in dirs && how.write then err == EDIR && Linked(m) && m.cnt == old(m.cnt) - 1
              else err == OK && Opened(m, old(known)[m.num], how) && m.cnt == old(m.cnt) && m.dirt == old(m.dirt)
      ensures m.num in dirs ==> Linked(m)
      ensures KnownKept(old(known), known, m.num, m.num)
      ensures OthersSame(old(vol.Now()), vol.Now(), if how.truncate then m.num else -1)
      ensures m.num in dirs && how.write && old(m.cnt) == 1 ==> m.num in known && !known[m.num].behind
    {
      hide SuperBlock.Valid, Volume.Rooted, AllListed, Counted, Closed, OthersSame, InodesMarked, Room, TableFits,
           Refs, Recorded, Namespace.Valid, Sound, Emptied, Opened, FileType, BootKept, InTableAs;
      Kind(m, -1);
      if FileType(m.mode) == S_IFDIR && how.write {
        ghost var now := vol.Now();
        Unhold(m, -1);
        RestWiden(now, vol.Now(), m.num, -1);
        return EDIR;
      }
      HandOut(m, how);
      return OK;
    }

    /** open_namei of an inode number (fs/namei.c:553-563). */
    method OpenNumber(nr: u32, copy: MemInode?, how: Access) returns (err: Errno, m: MemInode?)
      requires Valid(-1) && vol.sb.Roomy(3)
      requires nr in links && links[nr] != 0 && nr < vol.sb.imapBlocks * BITS_PER_BLK && Fetchable(copy, nr)
      modifies vol.sb.cache.Repr(), vol`zones, vol`own, this`links, this`known, copy
      ensures Valid(-1) && vol.sb.cache.pins == old(vol.sb.cache.pins) && links == old(links)
      ensures if nr in dirs && how.write then err == EDIR && m == null
              else err == OK && m != null && m.num == nr && nr in old(known) && Opened(m, old(known)[nr], how)
      ensures m != null ==> if copy == null then fresh(m) && m.cnt == 1 else m == copy
      ensures copy != null ==> copy.cnt == old(copy.cnt) + if m == null then 0 else 1
      ensures copy != null && (nr in dirs || m == null) ==> Linked(copy)
      ensures KnownKept(old(known), known, nr, nr)
      ensures OthersSame(old(vol.Now()), vol.Now(), if how.truncate then nr else -1)
      ensures m != null ==> m.dirt == (copy != null && old(copy.dirt))
      ensures m == null && copy == null ==> Fetchable(null, nr)
    {
      hide SuperBlock.Valid, Volume.Rooted, AllListed, Counted, Closed, OthersSame, InodesMarked, Room, TableFits,
           Refs, Recorded, Namespace.Valid, Sound, FileType, Opened;
      KnownKeys(-1);
      RoomyOne(vol.sb);
      m := Iget(nr, copy, -1);
      err := OpenGot(m, how);
      if err != OK {
        m := null;
      }
    }

    /** The directory is put; inode nr can still be fetched, be it the directory itself. */
    method PutDir(dir: MemInode, ghost nr: u32, ghost copy: MemInode?)
      requires Valid(-1) && Linked(dir) && dir.num in dirs && dir.cnt > 0 && dir.nlinks != 0 && vol.sb.Roomy(3)
      requires nr in known && Fetched(copy, dir, nr)
      modifies vol.sb.cache.Repr(), vol`zones, vol`own, this`links, this`known, dir
      ensures Valid(-1) && vol.sb.cache.pins == old(vol.sb.cache.pins) && links == old(links)
      ensures Linked(dir) && dir.cnt == old(dir.cnt) - 1 && Fetchable(copy, nr)
      ensures OthersSame(old(vol.Now()), vol.Now(), -1) && KnownKept(old(known), known, dir.num, dir.num)
      ensures nr in known && known[nr].rec == old(known)[nr].rec && (known[nr].behind ==> old(known)[nr].behind)
      ensures known[nr] == old(known)[nr] || FileType(known[nr].rec.mode) == S_IFDIR
    {
      hide SuperBlock.Valid, Volume.Rooted, AllListed, Counted, Closed, OthersSame, InodesMarked, Room, TableFits,
           Refs, Recorded, Namespace.Valid, Sound, FileType, BootKept;
      Kind(dir, -1);
      Unhold(dir, -1);
    }

    /** The same next to the directory that has just been put, which may be that inode. */
    method OpenBeside(dir: MemInode, nr: u32, copy: MemInode?, how: Access) returns (err: Errno, m: MemInode?)
      requires Valid(-1) && Linked(dir) && dir.num in dirs && vol.sb.Roomy(3) && Fetched(copy, dir, nr)
      requires nr in links && links[nr] != 0 && nr < vol.sb.imapBlocks * BITS_PER_BLK
      modifies vol.sb.cache.Repr(), vol`zones, vol`own, this`links, this`known, copy
      ensures Valid(-1) && vol.sb.cache.pins == old(vol.sb.cache.pins) && links == old(links)
      ensures Linked(dir) && dir.cnt == old(dir.cnt) + if m == dir then 1 else 0
      ensures if nr in dirs && how.write then err == EDIR && m == null
              else err == OK && m != null && m.num == nr && nr in old(known) && Opened(m, old(known)[nr], how)
      ensures m != null ==> if copy == null then fresh(m) && m.cnt == 1 else m == copy
      ensures copy != null && copy != dir ==> copy.cnt == old(copy.cnt) + if m == null then 0 else 1
      ensures KnownKept(old(known), known, nr, nr)
      ensures m == null && copy != null ==> Linked(copy)
      ensures OthersSame(old(vol.Now()), vol.Now(), if how.truncate then nr else -1)
      ensures m != null ==> m.dirt == (copy != null && old(copy.dirt))
      ensures m == null && copy == null ==> Fetchable(null, nr)
    {
      hide SuperBlock.Valid, Volume.Rooted, AllListed, Counted, Closed, OthersSame, InodesMarked, Room, TableFits,
           Refs, Recorded, Namespace.Valid, Sound, FileType, Opened;
      err, m := OpenNumber(nr, copy, how);
    }

    /** open_namei of a name that is there, with the directory held (fs/namei.c:549-563). */
    method OpenFound(dir: MemInode, nr: u32, copy: MemInode?, how: Access) returns (err: Errno, m: MemInode?)
      requires Valid(-1) && Linked(dir) && dir.num in dirs && dir.cnt > 0 && dir.nlinks != 0 && vol.sb.Roomy(3)
      requires nr in links && links[nr] != 0 && nr < vol.sb.imapBlocks * BITS_PER_BLK && Fetched(copy, dir, nr)
      modifies vol.sb.cache.Repr(), vol`zones, vol`own, this`links, this`known, dir, copy
      ensures Valid(-1) && vol.sb.cache.pins == old(vol.sb.cache.pins) && links == old(links)
      ensures Linked(dir) && dir.cnt == old(dir.cnt) - if m == dir then 0 else 1
      ensures if how.exclusive then err == ENOPATH && m == null
              else if nr in dirs && how.write then err == EDIR && m == null
              else err == OK && m != null && m.num == nr && nr in old(known) && Opened(m, old(known)[nr], how)
      ensures m != null ==> if copy == null then fresh(m) && m.cnt == 1 else m == copy
      ensures copy != null && copy != dir ==> copy.cnt == old(copy.cnt) + if m == null then 0 else 1
      ensures KnownKept(old(known), known, dir.num, nr)
      ensures m == null && copy != null ==> Linked(copy)
      ensures OthersSame(old(vol.Now()), vol.Now(), if how.truncate then nr else -1)
      ensures m != null && copy != dir ==> m.dirt == (copy != null && old(copy.dirt))
      ensures m == null && copy == null ==> Fetchable(null, nr)
    {
      hide SuperBlock.Valid, Volume.Rooted, AllListed, Counted, Closed, OthersSame, InodesMarked, Room, TableFits,
           Refs, Recorded, Namespace.Valid, Sound, FileType, Opened, BootKept, Current, Linked;
      KnownKeys(-1);
      ghost var now, k := vol.Now(), known[nr];
      PutDir(dir, nr, copy);
      ghost var now1, k1 := vol.Now(), known[nr];
      if how.exclusive {
        RestWiden(now, now1, nr, -1);
        return ENOPATH, null;
      }
      err, m := OpenBeside(dir, nr, copy, how);
      OthersAfter(now, now1, vol.Now(), if how.truncate then nr else -1);
      if m != null {
        OpenedSince(m, k, k1, how);
      }
    }

    /** What open_namei does about the name in a directory d: inode m is handed out, or none is. */
    ghost predicate OpenedAt(err: Errno, m: MemInode?, dirs0: map<nat, map<Name, u32>>, links0: map<nat, u16>,
                             known0: map<nat, Known>, d: nat, name: Name, how: Access, mode: u16)
      requires d in dirs0
      requires forall b :: b in vol.sb.cache.view
      reads this`links, this`dirs, this`known, m, vol, vol.sb, vol.sb.cache
    {
      if name in dirs0[d] then
        && dirs == dirs0 && links == links0 && dirs0[d][name] in known0
        && if how.exclusive then err == ENOPATH && m == null
           else if dirs0[d][name] in dirs0 && how.write then err == EDIR && m == null
           else err == OK && m != null && m.num == dirs0[d][name] && Opened(m, known0[m.num], how)
      else if !how.create || m == null then
        dirs == dirs0 && links == links0 && m == null && err == (if how.create then ENOSRC else ENOPATH)
      else
        && err == OK && Linked(m) && m.cnt == 1 && Stored(m) == FreshRecord().(mode := AsRegular(mode))
        && m.num !in links0
        && links == links0[m.num := 1] && dirs == WithEntry(dirs0, d, name, m.num)
    }

    /** The error says why, and then nothing has changed; a file that was there is handed out with its record, emptied
        if it is a regular file opened for that; a file that was not is new, regular, and has the name. */
    lemma OpenedMeans(err: Errno, m: MemInode?, dirs0: map<nat, map<Name, u32>>, links0: map<nat, u16>,
                      known0: map<nat, Known>, d: nat, name: Name, how: Access, mode: u16)
      requires d in dirs0 && forall b :: b in vol.sb.cache.view
      requires OpenedAt(err, m, dirs0, links0, known0, d, name, how, mode)
      ensures err == OK <==> m != null
      ensures name in dirs0[d] ==>
                && dirs == dirs0 && links == links0
                && (err == EDIR <==> !how.exclusive && dirs0[d][name] in dirs0 && how.write)
                && (err == ENOPATH <==> how.exclusive) && err != ENOSRC
      ensures name !in dirs0[d] ==> (err == ENOPATH <==> !how.create) && err != EDIR
      ensures m == null ==> dirs == dirs0 && links == links0
      ensures m != null && name in dirs0[d] ==>
                && m.num == dirs0[d][name] && m.num in known0
                && Stored(m) == if how.truncate && known0[m.num].rec.mode / 0x1000 == 8
                                then known0[m.num].rec.(size := 0, zone := NO_ZONES) else known0[m.num].rec
      ensures m != null && name !in dirs0[d] ==>
                && m.num !in links0 && m.nlinks == 1 && m.cnt == 1 && m.size == 0
                && m.mode >= 0x8000 && m.mode % 0x8000 == mode % 0x8000
                && links == links0[m.num := 1] && dirs.Keys == dirs0.Keys
                && name in dirs[d] && dirs[d][name] == m.num
                && (forall x :: x in dirs[d] <==> x == name || x in dirs0[d])
                && (forall x :: x in dirs0[d] ==> dirs[d][x] == dirs0[d][x])
                && (forall y :: y in dirs0 && y != d ==> dirs[y] == dirs0[y])
    {
      hide WithEntry, SuperBlock.Valid, InTableAs;
      if m != null && name !in dirs0[d] {
        EntryAdded(dirs0, d, name, m.num);
        FreshRecordIs();
      }
    }

    /** The file that open_namei may change: the one it empties, or the directory it adds a name to. */
    ghost function Touched(dirs0: map<nat, map<Name, u32>>, d: nat, name: Name, how: Access): int
      requires d in dirs0
    {
      if name !in dirs0[d] then (if how.create then d else -1) else if how.truncate then dirs0[d][name] else -1
    }

    /** The half of open_namei for a name that is not there (fs/namei.c:518-545). */
    method OpenMissing(dir: MemInode, path: seq<byte>, p: nat, len: nat, how: Access, mode: u16)
      returns (err: Errno, m: MemInode?)
      requires Valid(-1) && vol.sb.Roomy(3) && Component(path, p, len) && len != NAME_LEN
      requires Linked(dir) && dir.num in dirs && dir.cnt > 0 && dir.nlinks != 0 && dir.size + BLK_SIZE < TWO_32
      requires Sought(path, p, len) !in dirs[dir.num]
      modifies vol.sb.cache.Repr(), vol.sb`pos, vol`zones, vol`own, this, dir
      ensures Valid(-1) && vol.sb.cache.pins == old(vol.sb.cache.pins)
      ensures Linked(dir) && dir.cnt == old(dir.cnt) - 1 && dir.num in old(dirs)
      ensures OpenedAt(err, m, old(dirs), old(links), old(known), dir.num, Sought(path, p, len), how, mode)
      ensures err == ENOSRC ==> Starved(old(links), |old(dirs)[dir.num]|, old(dir.size))
      ensures m != null ==> fresh(m) && m.cnt == 1
      ensures KnownKept(old(known), known, dir.num, if m == null then -1 else m.num)
      ensures OthersSame(old(vol.Now()), vol.Now(), if how.create then dir.num else -1)
    {
      hide WithEntry, SuperBlock.Valid, Volume.Rooted, AllListed, Counted, Closed, OthersSame, InodesMarked, Refs,
           Sought, Room, TableFits, FreshZones, Recorded, Namespace.Valid, Sound, FileType, AsRegular, Opened,
           Starved, Volume.Full;
      KnownKeys(-1);
      if !how.create {
        Unhold(dir, -1);
        err, m := ENOPATH, null;
      } else {
        m := CreateNew(dir, path, p, len, mode);
        err := if m == null then ENOSRC else OK;
      }
    }

    /** open_namei of a name, with the directory held (fs/namei.c:518-563); copy is what iget finds in
        memory for the number the name stands for. */
    method OpenHeld(dir: MemInode, path: seq<byte>, p: nat, len: nat, how: Access, mode: u16, copy: MemInode?)
      returns (err: Errno, m: MemInode?)
      requires Valid(-1) && vol.sb.Roomy(3) && Component(path, p, len) && len != NAME_LEN
      requires Linked(dir) && dir.num in dirs && dir.cnt > 0 && dir.nlinks != 0 && dir.size + BLK_SIZE < TWO_32
      requires Sought(path, p, len) in dirs[dir.num] ==> Fetched(copy, dir, dirs[dir.num][Sought(path, p, len)])
      modifies vol.sb.cache.Repr(), vol.sb`pos, vol`zones, vol`own, this, dir, copy
      ensures Valid(-1) && vol.sb.cache.pins == old(vol.sb.cache.pins)
      ensures Linked(dir) && dir.cnt == old(dir.cnt) - if m == dir then 0 else 1
      ensures OpenedAt(err, m, old(dirs), old(links), old(known), dir.num, Sought(path, p, len), how, mode)
      ensures err == ENOSRC ==> Starved(old(links), |old(dirs)[dir.num]|, old(dir.size))
      ensures m != null ==> if copy == null || Sought(path, p, len) !in old(dirs)[dir.num]
                            then fresh(m) && m.cnt == 1 else m == copy
      ensures KnownKept(old(known), known, dir.num,
                        if m == null then NamedBy(old(dirs), dir.num, Sought(path, p, len)) else m.num)
      ensures OthersSame(old(vol.Now()), vol.Now(), Touched(old(dirs), dir.num, Sought(path, p, len), how))
      ensures copy != null && copy != dir && Sought(path, p, len) in old(dirs)[dir.num] ==>
                (m == null ==> Linked(copy)) && copy.cnt == old(copy.cnt) + if m == null then 0 else 1
      ensures m != null && copy != dir && Sought(path, p, len) in old(dirs)[dir.num] ==>
                m.dirt == (copy != null && old(copy.dirt))
      ensures m == null && copy == null && Sought(path, p, len) in old(dirs)[dir.num] ==>
                Fetchable(null, old(dirs)[dir.num][Sought(path, p, len)])
    {
      hide WithEntry, SuperBlock.Valid, Volume.Rooted, AllListed, Counted, Closed, OthersSame, InodesMarked, Refs,
           Sought, Room, TableFits, FreshZones, Recorded, Namespace.Valid, Sound, FileType, AsRegular, Opened,
           Starved, Volume.Full;
      ghost var name := Sought(path, p, len);
      KnownKeys(-1);
      RoomyLess(vol.sb);
      var found, e, nr := LookUp(dir, path, p, len, -1);
      if found {
        Named(dir.num, name);
        err, m := OpenFound(dir, nr, copy, how);
      } else {
        err, m := OpenMissing(dir, path, p, len, how, mode);
      }
    }

    /** fs/namei.c:491, for the directory the path leads to, if there is one: the file of that name is
        opened, or created with its first link; the caller gets it with one more reference. */
    method OpenNamei(dir: MemInode?, path: seq<byte>, p: nat, len: nat, how: Access, mode: u16, copy: MemInode?)
      returns (err: Errno, m: MemInode?)
      requires Valid(-1) && vol.sb.Roomy(3) && (len == 0 || Component(path, p, len)) && len != NAME_LEN
      requires dir != null ==> Linked(dir) && dir.num in dirs && dir.cnt < 0xFFFE && dir.nlinks != 0
                               && dir.size + BLK_SIZE < TWO_32
      requires dir != null && len != 0 && Sought(path, p, len) in dirs[dir.num] ==>
                 Fetched(copy, dir, dirs[dir.num][Sought(path, p, len)])
      modifies vol.sb.cache.Repr(), vol.sb`pos, vol`zones, vol`own, this, dir, copy
      ensures Valid(-1) && vol.sb.cache.pins == old(vol.sb.cache.pins)
      ensures dir != null ==> Linked(dir) && dir.cnt == old(dir.cnt) + if m == dir then 1 else 0
      ensures dir == null || len == 0 ==> dirs == old(dirs) && links == old(links)
      ensures dir == null || (len == 0 && (how.write || how.create || how.truncate)) ==> err == ENOPATH && m == null
      ensures dir != null && len == 0 && !how.write && !how.create && !how.truncate ==> err == OK && m == dir
      ensures dir != null && len != 0 ==>
                dir.num in old(dirs) && p + len < |path| &&
                OpenedAt(err, m, old(dirs), old(links), old(known), dir.num, Sought(path, p, len), how, mode)
                && KnownKept(old(known), known, dir.num,
                             if m == null then NamedBy(old(dirs), dir.num, Sought(path, p, len)) else m.num)
                && OthersSame(old(vol.Now()), vol.Now(), Touched(old(dirs), dir.num, Sought(path, p, len), how))
                && (m != null ==> if copy == null || Sought(path, p, len) !in old(dirs)[dir.num]
                                  then fresh(m) && m.cnt == 1 else m == copy)
                && (m != null && copy != dir && Sought(path, p, len) in old(dirs)[dir.num] ==>
                      m.dirt == (copy != null && old(copy.dirt)))
                && (copy != null && copy != dir && Sought(path, p, len) in old(dirs)[dir.num] ==>
                      (m == null ==> Linked(copy)) && copy.cnt == old(copy.cnt) + if m == null then 0 else 1)
                && (m == null && copy == null && Sought(path, p, len) in old(dirs)[dir.num] ==>
                      Fetchable(null, old(dirs)[dir.num][Sought(path, p, len)]))
      ensures err == ENOSRC ==>
                && dir != null && dir.num in old(dirs)
                && (|| (forall n: nat :: n < vol.sb.imapBlocks * BITS_PER_BLK ==> n in old(links))
                    || (vol.Full() && |old(dirs)[dir.num]| >= old(dir.size) / 64))
      ensures dir == null ==> known == old(known)
      ensures dir != null && len == 0 ==> KnownKept(old(known), known, -1, dir.num)
      ensures dir == null || len == 0 ==> OthersSame(old(vol.Now()), vol.Now(), -1)
    {
      hide WithEntry, SuperBlock.Valid, Volume.Rooted, AllListed, Counted, Closed, OthersSame, InodesMarked, Refs,
           Sought, Room, TableFits, FreshZones, Recorded, Namespace.Valid, Sound, FileType, AsRegular, Opened,
           OpenedAt, Volume.Full;
      OthersSelf(vol.Now(), -1);
      if dir == null {
        return ENOPATH, null;
      }
      Hold(dir, -1);
      if len == 0 {
        if !how.write && !how.create && !how.truncate {
          return OK, dir;
        }
        Unhold(dir, -1);
        return ENOPATH, null;
      }
      err, m := OpenHeld(dir, path, p, len, how, mode, copy);
    }

    /** The last iput of a file that an open with O_TRUNC emptied, k being known before. Afterwards the
        table says what the file is exactly when the inode was dirty already or the file was empty;
        otherwise it still has the old record, whose blocks are free. */
    method CloseEmptied(m: MemInode, ghost k: Known, how: Access)
      requires Valid(-1) && vol.sb.Roomy(3) && Opened(m, k, how) && how.truncate && FileType(k.rec.mode) == S_IFREG
      requires m.cnt == 1 && m.nlinks != 0
      modifies vol.sb.cache.Repr(), vol`zones, vol`own, this`links, this`known, m
      ensures Valid(-1) && vol.sb.cache.pins == old(vol.sb.cache.pins) && links == old(links)
      ensures Current(m) && m.cnt == 0 && m.size == 0 && m.zone == NO_ZONES
      ensures OthersSame(old(vol.Now()), vol.Now(), -1)
      ensures Written(m.num, Stored(m)) <==> old(m.dirt) || (k.rec.size == 0 && k.rec.zone == NO_ZONES)
      ensures Stored(m) == k.rec.(size := 0, zone := NO_ZONES)
      ensures !old(m.dirt) ==> Written(m.num, k.rec) && Freed(k.rec)
    {
      hide SuperBlock.Valid, Volume.Rooted, AllListed, Counted, Closed, OthersSame, InodesMarked, Room, TableFits,
           Recorded, Namespace.Valid, Sound, BootKept, InodeAt, OnDisk;
      if !known[m.num].behind {
        TableHas(m.num, -1);
      }
      assert k.rec.(size := 0, zone := NO_ZONES) == k.rec <==> k.rec.size == 0 && k.rec.zone == NO_ZONES;
      Iput(m, -1);
      if !known[m.num].behind {
        TableHas(m.num, -1);
      }
    }

    // ---- reading and writing files between the operations on names ----

    method StoreBytesOf(m: MemInode, file: File, buf: array<byte>, cnt: int) returns (written: nat)
      requires Valid(-1) && Current(m) && m.num in vol.zones && m.num !in dirs && vol.sb.Roomy(2)
      requires cnt <= buf.Length && file.pos + cnt <= MAX_FILE_BYTES
      requires (if file.Append() then m.size else file.pos) + cnt < TWO_32
      modifies vol.sb.cache.Repr(), vol.sb`pos, m`zone, m`dirt, m`size, vol`zones, vol`own, file`pos
      ensures Sound(-1) && vol.sb.cache.pins == old(vol.sb.cache.pins) && vol.zones == old(vol.zones)[m.num := m.zone]
      ensures TableKept(vol.sb, old(vol.sb.cache.view), vol.sb.cache.view) && |m.zone| == 9
      ensures old(m.dirt) || m.zone != old(m.zone) || m.size != old(m.size) ==> m.dirt
      ensures Wrote(old(vol.Now()), vol.Now(), m.num, old(file.pos), if old(file.Append()) then old(m.size)
              else old(file.pos), buf[..], written, old(m.size), m.size)
      ensures file.pos == old(file.pos) + written && buf[..] == old(buf[..])
      ensures written < cnt ==> vol.Full() && Missing(old(vol.Now()), m.num, old(file.pos) + written)
      ensures written <= if cnt < 0 then 0 else cnt
    {
      hide SuperBlock.Valid, Volume.Rooted, Volume.Full, AllListed, Counted, Closed, OthersSame, InodesMarked,
           Recorded, Overwritten, TableKept, SuperBlock.IsMeta, SuperBlock.Roomy, BlocksStay;
      Facts(m, -1);
      ghost var now := vol.Now();
      written := FileWr(vol, m, file, buf, cnt);
      AllListedKept(now, vol.Now(), m.num, ats, sizes, dirs);
      InodesKeptMeta(vol.sb, now.v, vol.sb.cache.view, links);
      TableKeptMeta(vol.sb, now.v, vol.sb.cache.view);
    }

    method StoreFile(m: MemInode, file: File, buf: array<byte>, cnt: int) returns (written: nat)
      requires Valid(-1) && Current(m) && m.num in vol.zones && m.num !in dirs && vol.sb.Roomy(2)
      requires cnt <= buf.Length && file.pos + cnt <= MAX_FILE_BYTES
      requires (if file.Append() then m.size else file.pos) + cnt < TWO_32
      modifies vol.sb.cache.Repr(), vol.sb`pos, m`zone, m`dirt, m`size, vol`zones, vol`own, file`pos
      ensures vol.Valid() && vol.sb.cache.pins == old(vol.sb.cache.pins) && vol.zones == old(vol.zones)[m.num := m.zone]
      ensures FileDue(m, -1, old(vol.sb.cache.view), old(Stored(m)), old(vol.zones))
      ensures old(m.dirt) || Stored(m) != old(Stored(m)) ==> m.dirt
      ensures Wrote(old(vol.Now()), vol.Now(), m.num, old(file.pos), if old(file.Append()) then old(m.size)
              else old(file.pos), buf[..], written, old(m.size), m.size)
      ensures file.pos == old(file.pos) + written && buf[..] == old(buf[..])
      ensures written < cnt ==> vol.Full() && Missing(old(vol.Now()), m.num, old(file.pos) + written)
      ensures written <= if cnt < 0 then 0 else cnt
    {
      hide SuperBlock.Valid, Volume.Rooted, Volume.Full, Recorded, TableKept, Sound, Wrote, SuperBlock.Roomy,
           OthersSame, Describes, Namespace.Valid, Missing;
      Facts(m, -1);
      written := StoreBytesOf(m, file, buf, cnt);
    }

    /** file_wr on a regular file: the names and counts of the volume, all other files and all
        other copies are as before. A copy that iput would write back stays one; a write that
        changes the size, as the first one after O_TRUNC does, makes it one. */
    method WriteFile(m: MemInode, file: File, buf: array<byte>, cnt: int) returns (written: nat)
      requires Valid(-1) && Current(m) && m.num in vol.zones && m.num !in dirs && vol.sb.Roomy(2)
      requires cnt <= buf.Length && file.pos + cnt <= MAX_FILE_BYTES
      requires (if file.Append() then m.size else file.pos) + cnt < TWO_32
      modifies vol.sb.cache.Repr(), vol.sb`pos, m`zone, m`dirt, m`size, vol`zones, vol`own, this`known, file`pos
      ensures Valid(-1) && Current(m) && (old(Linked(m)) || m.size != old(m.size) ==> Linked(m))
      ensures vol.sb.cache.pins == old(vol.sb.cache.pins) && vol.zones == old(vol.zones)[m.num := m.zone]
      ensures KnownKept(old(known), known, m.num, m.num)
      ensures Wrote(old(vol.Now()), vol.Now(), m.num, old(file.pos), if old(file.Append()) then old(m.size)
              else old(file.pos), buf[..], written, old(m.size), m.size)
      ensures file.pos == old(file.pos) + written && buf[..] == old(buf[..])
      ensures written < cnt ==> vol.Full() && Missing(old(vol.Now()), m.num, old(file.pos) + written)
      ensures written <= if cnt < 0 then 0 else cnt
    {
      hide SuperBlock.Valid, Volume.Rooted, Volume.Full, Recorded, TableKept, Sound, Wrote, SuperBlock.Roomy,
           OthersSame, Describes, Namespace.Valid, FileDue, Missing;
      ghost var v, zones0, d0 := vol.sb.cache.view, vol.zones, Stored(m);
      written := StoreFile(m, file, buf, cnt);
      NoteFile(m, -1, v, d0, zones0);
    }

    /** file_rd on a regular file. */
    method ReadFile(m: MemInode, file: File, buf: array<byte>, count: int) returns (n: int)
      requires Valid(-1) && Current(m) && m.num in vol.zones && m.num !in dirs && vol.sb.Roomy(2)
      requires count <= buf.Length && file.pos + count <= MAX_FILE_BYTES
      modifies vol.sb.cache.Repr(), vol.sb`pos, m`zone, m`dirt, vol`zones, vol`own, buf, file`pos
      ensures Valid(-1) && Current(m) && (old(Linked(m)) ==> Linked(m))
      ensures vol.sb.cache.pins == old(vol.sb.cache.pins) && vol.Now() == old(vol.Now())
      ensures n == (if count <= 0 then 0 else count) && file.pos == old(file.pos) + n
      ensures Delivered(old(vol.Now()), m.num, old(file.pos), buf[..], 0, n)
    {
      hide SuperBlock.Valid, Volume.Rooted, AllListed, Counted, Closed, InodesMarked, Recorded, Delivered,
           SuperBlock.Roomy;
      Facts(m, -1);
      n := FileRd(vol, m, file, buf, count);
    }
  }
}
