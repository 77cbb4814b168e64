/** Directories (fs/namei.c:23-118): files of 64-byte records that act as a finite
    map from names to inode numbers. */
module Directories {
  import opened Bytes
  import opened BufferCaches
  import opened Bitmaps
  import opened BlockTrees
  import opened Inodes
  import opened FileRw

  const NAME_LEN := 60
  const ENTRIES_PER_BLK := 64
  const SLASH: byte := 0x2F

  /** A DIR_ENTRY: a 32-bit inode number and 60 bytes of name. */
  type Record = r: seq<byte> | |r| == 64 witness ZeroBytes(64)
  type Name = seq<byte>

  function Number(r: Record): (nr: u32) {
    r[0] as int + 0x100 * r[1] as int + 0x1_0000 * r[2] as int + 0x100_0000 * r[3] as int
  }

  /** strlen of the bytes s[i..], stopping at the end of s. */
  function Strlen(s: seq<byte>, i: nat): (n: nat)
    requires i <= |s|
    ensures i + n <= |s| && (i + n < |s| ==> s[i + n] == 0)
    ensures forall k :: i <= k < i + n ==> s[k] != 0
    decreases |s| - i
  {
    if i == |s| || s[i] == 0 then 0 else 1 + Strlen(s, i + 1)
  }

  function NameIn(r: Record): (n: Name) {
    r[4 .. 4 + Strlen(r, 4)]
  }

  /** Neither a number nor a name. */
  predicate Vacant(r: Record) {
    Number(r) == 0 && r[4] == 0
  }

  predicate IsName(n: Name) {
    0 < |n| < NAME_LEN && forall k :: 0 <= k < |n| ==> n[k] != 0 && n[k] != SLASH
  }

  predicate RecordOk(r: Record) {
    Vacant(r) || IsName(NameIn(r))
  }

  ghost function BytesFrom(vol: Vol, f: nat, at: nat, n: nat): (s: seq<byte>)
    requires vol.Wf() && f in vol.zones
    ensures |s| == n && forall k: nat :: k < n ==> s[k] == ByteAt(vol, f, at + k)
  {
    if n == 0 then [] else BytesFrom(vol, f, at, n - 1) + [ByteAt(vol, f, at + n - 1)]
  }

  /** Record e of directory d, as the bytes of the directory file. */
  ghost function Entry(vol: Vol, d: nat, e: nat): (r: Record)
    requires vol.Wf() && d in vol.zones
  {
    BytesFrom(vol, d, 64 * e, 64)
  }

  function Slot(b: Block, j: nat): (r: Record)
    requires j < ENTRIES_PER_BLK
  {
    b[64 * j .. 64 * j + 64]
  }

  /** Directory d of the given size: its blocks are the first size / 4096 ones, and at
      finds the one record of each name in use. */
  ghost predicate Listed(vol: Vol, d: nat, size: nat, at: map<Name, nat>) {
    && vol.Wf() && d in vol.zones
    && size % BLK_SIZE == 0 && size / BLK_SIZE <= NR_FILE_BLKS
    && (forall i: nat :: i < NR_FILE_BLKS ==> (vol.Ptr(PlaceOf(d, i)) != 0 <==> i < size / BLK_SIZE))
    && (forall e: nat :: e < size / 64 ==> RecordOk(Entry(vol, d, e)))
    && (forall e: nat :: e < size / 64 && !Vacant(Entry(vol, d, e)) ==>
          NameIn(Entry(vol, d, e)) in at && at[NameIn(Entry(vol, d, e))] == e)
    && (forall n :: n in at ==> at[n] < size / 64 && !Vacant(Entry(vol, d, at[n])) && NameIn(Entry(vol, d, at[n])) == n)
  }

  /** What the directory says: names and the inode numbers they stand for. */
  ghost function Listing(vol: Vol, d: nat, at: map<Name, nat>): map<Name, u32>
    requires vol.Wf() && d in vol.zones
  {
    map n | n in at :: Number(Entry(vol, d, at[n]))
  }

  /** The records of a mapped directory block are the slots of that block. */
  lemma EntrySlot(vol: Vol, d: nat, i: nat, j: nat)
    requires vol.Wf() && d in vol.zones && i < NR_FILE_BLKS && j < ENTRIES_PER_BLK
    requires vol.Ptr(PlaceOf(d, i)) != 0
    ensures Entry(vol, d, 64 * i + j) == Slot(vol.Blk(vol.Ptr(PlaceOf(d, i))), j)
  {
    var b := vol.Blk(vol.Ptr(PlaceOf(d, i)));
    var r, t := Entry(vol, d, 64 * i + j), Slot(b, j);
    forall k: nat | k < 64 ensures r[k] == t[k] {
      var x := 64 * (64 * i + j) + k;
      assert x == BLK_SIZE * i + (64 * j + k);
      assert x / BLK_SIZE == i && x % BLK_SIZE == 64 * j + k;
      assert r[k] == ByteAt(vol, d, x);
    }
  }

  /** Which bytes of a directory block make up record j (include/ecasey/fs.h:109-112): four of the inode
      number, and up to 60 of the name. */
  lemma RecordBytes(b: Block, j: nat)
    requires j < ENTRIES_PER_BLK
    ensures var at, n := 64 * j, NameIn(Slot(b, j));
            && Number(Slot(b, j)) == b[at] as int + 0x100 * b[at + 1] as int + 0x1_0000 * b[at + 2] as int
                                     + 0x100_0000 * b[at + 3] as int
            && |n| <= 60 && (forall k :: 0 <= k < |n| ==> n[k] == b[at + 4 + k] != 0)
            && (|n| < 60 ==> b[at + 4 + |n|] == 0)
            && (Vacant(Slot(b, j)) <==> b[at] == b[at + 1] == b[at + 2] == b[at + 3] == b[at + 4] == 0)
  {
    var r := Slot(b, j);
    assert forall k {:trigger r[k]} :: 0 <= k < 64 ==> r[k] == b[64 * j + k];
  }

  /** The name a component stands for: its characters, or the first 59 of more than 60. */
  lemma NameSought(path: seq<byte>, p: nat, len: nat)
    requires p + len < |path|
    ensures |Sought(path, p, len)| == if len > 60 then 59 else len
    ensures forall k :: 0 <= k < |Sought(path, p, len)| ==> Sought(path, p, len)[k] == path[p + k]
  {
  }

  /** A directory lists a name with a number exactly when one of its records in use says so. */
  lemma ListingIff(vol: Vol, d: nat, size: nat, at: map<Name, nat>, name: Name, nr: u32)
    requires Listed(vol, d, size, at)
    ensures name in Listing(vol, d, at) && Listing(vol, d, at)[name] == nr <==>
            exists e: nat :: e < size / 64 && !Vacant(Entry(vol, d, e)) && NameIn(Entry(vol, d, e)) == name
                             && Number(Entry(vol, d, e)) == nr
  {
    hide Entry, NameIn, Number, Vacant;
    if name in at && Number(Entry(vol, d, at[name])) == nr {
      assert NameIn(Entry(vol, d, at[name])) == name;
    }
  }

  // ---- strings ----

  /** lib/string.c:42, on a name stored in a block and a name inside a path; n > 0. */
  method Strncmp(b: Block, i: nat, path: seq<byte>, p: nat, n: nat) returns (diff: int)
    requires n > 0 && i + n <= BLK_SIZE && p < |path| && path[|path|-1] == 0
    ensures diff == 0 <==> p + PrefixLen(b, i, path, p, n) < |path|
                           && b[i + PrefixLen(b, i, path, p, n)] == path[p + PrefixLen(b, i, path, p, n)]
  {
    var len, k := n - 1, 0;
    while len != 0 && b[i + k] == path[p + k] && b[i + k] != 0 && path[p + k] != 0
      invariant 0 <= k < n && len == n - 1 - k && p + k < |path|
      invariant PrefixLen(b, i, path, p, n) == k + PrefixLen(b, i + k, path, p + k, n - k)
    {
      k := k + 1;
      len := len - 1;
    }
    diff := b[i + k] as int - path[p + k] as int;
  }

  /** Where the comparison of at most n characters stops. */
  function PrefixLen(b: Block, i: nat, path: seq<byte>, p: nat, n: nat): (k: nat)
    requires n > 0 && i + n <= BLK_SIZE && p < |path|
    ensures k < n
    decreases n
  {
    if n == 1 || b[i] != path[p] || b[i] == 0 || p + 1 == |path| then 0
    else 1 + PrefixLen(b, i + 1, path, p + 1, n - 1)
  }

  /** A path component: len characters of a path from p on, up to a slash or the
      end of the string. */
  predicate Component(path: seq<byte>, p: nat, len: nat) {
    && 0 < len && p + len < |path| && path[|path|-1] == 0
    && (forall k {:trigger path[k]} :: p <= k < p + len ==> path[k] != 0 && path[k] != SLASH)
    && (path[p + len] == 0 || path[p + len] == SLASH)
  }

  /** Names of more than 60 characters are cut to 59; one of exactly 60 is not. */
  function EffectiveLen(len: nat): nat {
    if len > NAME_LEN then NAME_LEN - 1 else len
  }

  function Sought(path: seq<byte>, p: nat, len: nat): (n: Name)
    requires p + len < |path|
    ensures |n| == EffectiveLen(len)
  {
    path[p .. p + EffectiveLen(len)]
  }

  /** What is stored for a component, cut or not, is a name a record can hold exactly when the
      component does not have 60 characters. */
  lemma FitsRecord(path: seq<byte>, p: nat, len: nat)
    requires Component(path, p, len)
    ensures IsName(Sought(path, p, len)) <==> len != NAME_LEN
  {
  }

  /** Where the comparison stops, and why. */
  lemma PrefixStop(b: Block, i: nat, path: seq<byte>, p: nat, n: nat)
    requires n > 0 && i + n <= BLK_SIZE && p < |path|
    ensures var k := PrefixLen(b, i, path, p, n);
            && p + k < |path|
            && (k == n - 1 || b[i + k] != path[p + k] || b[i + k] == 0 || p + k == |path| - 1)
    decreases n
  {
    if !(n == 1 || b[i] != path[p] || b[i] == 0 || p + 1 == |path|) {
      PrefixStop(b, i + 1, path, p + 1, n - 1);
    }
  }

  /** Before that all characters agree. */
  lemma {:induction false} PrefixAgrees(b: Block, i: nat, path: seq<byte>, p: nat, n: nat, m: nat)
    requires n > 0 && i + n <= BLK_SIZE && p < |path| && m < PrefixLen(b, i, path, p, n)
    ensures p + m < |path| && b[i + m] == path[p + m] != 0
    decreases n
  {
    if m > 0 {
      PrefixAgrees(b, i + 1, path, p + 1, n - 1, m - 1);
    }
  }

  /** strncmp over the longer of two lengths n and m is zero only when they are equal:
      the shorter name ends where the longer goes on. */
  lemma StopsAtEnd(b: Block, i: nat, r: Name, path: seq<byte>, p: nat, s: Name)
    requires IsName(r) && |s| > 0 && i + |r| < BLK_SIZE && i + |s| <= BLK_SIZE && p + |s| < |path|
    requires b[i .. i + |r|] == r && b[i + |r|] == 0 && path[p .. p + |s|] == s && path[|path|-1] == 0
    requires forall x :: 0 <= x < |s| ==> s[x] != 0
    requires |r| > |s| ==> path[p + |s|] == 0 || path[p + |s|] == SLASH
    ensures var k := PrefixLen(b, i, path, p, if |s| > |r| then |s| else |r|);
            p + k < |path| && (b[i + k] == path[p + k] <==> r == s)
  {
    var n, m := |r|, |s|;
    var l := if m > n then m else n;
    var k := PrefixLen(b, i, path, p, l);
    PrefixStop(b, i, path, p, l);
    if r == s {
      assert b[i + k] == r[k] && path[p + k] == s[k];
    } else if n == m {
      var x :| 0 <= x < n && r[x] != s[x];
      assert b[i + x] == r[x] && path[p + x] == s[x];
      if x < k { PrefixAgrees(b, i, path, p, l, x); }
      if k < x { assert b[i + k] == r[k] && path[p + k] == s[k]; }
    } else if n < m {
      assert path[p + n] == s[n] && path[p + k] == s[k];
      if n < k { PrefixAgrees(b, i, path, p, l, n); }
      if k < n { assert b[i + k] == r[k]; }
    } else {
      assert b[i + m] == r[m] && b[i + k] == r[k];
      if m < k { PrefixAgrees(b, i, path, p, l, m); }
      if k < m { assert path[p + k] == s[k]; }
    }
  }

  lemma SliceOfSlice(s: seq<byte>, a: nat, c: nat, x: nat, y: nat)
    requires a <= c <= |s| && x <= y <= c - a
    ensures s[a..c][x..y] == s[a + x .. a + y]
  {
    var t, u := s[a..c][x..y], s[a + x .. a + y];
    forall k | 0 <= k < |t| ensures t[k] == u[k] {
      assert t[k] == s[a..c][x + k] == s[a + (x + k)];
    }
  }

  lemma ComparesNames(b: Block, j: nat, path: seq<byte>, p: nat, len: nat)
    requires Component(path, p, len) && j < ENTRIES_PER_BLK && IsName(NameIn(Slot(b, j)))
    ensures var n, m := Strlen(Slot(b, j), 4), EffectiveLen(len);
            var k := PrefixLen(b, 64 * j + 4, path, p, if m > n then m else n);
            p + k < |path| && (b[64 * j + 4 + k] == path[p + k] <==> NameIn(Slot(b, j)) == Sought(path, p, len))
  {
    hide PrefixLen;
    var r, s := NameIn(Slot(b, j)), Sought(path, p, len);
    assert Slot(b, j)[4 + |r|] == b[64 * j + 4 + |r|];
    SliceOfSlice(b, 64 * j, 64 * j + 64, 4, 4 + |r|);
    StopsAtEnd(b, 64 * j + 4, r, path, p, s);
  }

  /** The comparison of find_entry (fs/namei.c:65-68). */
  method Matches(b: Block, j: nat, path: seq<byte>, p: nat, len: nat) returns (same: bool)
    requires Component(path, p, len) && j < ENTRIES_PER_BLK && IsName(NameIn(Slot(b, j)))
    ensures same <==> NameIn(Slot(b, j)) == Sought(path, p, len)
  {
    hide IsName, Sought, Slot;
    var srcLen := Strlen(Slot(b, j), 4);
    NameLen(b, j);
    if EffectiveLen(len) > srcLen {
      srcLen := EffectiveLen(len);
    }
    ComparesNames(b, j, path, p, len);
    var diff := Strncmp(b, 64 * j + 4, path, p, srcLen);
    same := diff == 0;
  }

  lemma NameLen(b: Block, j: nat)
    requires j < ENTRIES_PER_BLK && IsName(NameIn(Slot(b, j)))
    ensures 0 < Strlen(Slot(b, j), 4) < NAME_LEN
  {
  }

  /** The inner loop of find_entry: the first record of a block with the name. */
  method FindSlot(b: Block, path: seq<byte>, p: nat, len: nat) returns (found: bool, j: nat)
    requires Component(path, p, len) && forall e: nat :: e < ENTRIES_PER_BLK ==> RecordOk(Slot(b, e))
    ensures found ==> j < ENTRIES_PER_BLK && !Vacant(Slot(b, j)) && NameIn(Slot(b, j)) == Sought(path, p, len)
    ensures found ==> forall e: nat :: e < j && !Vacant(Slot(b, e)) ==> NameIn(Slot(b, e)) != Sought(path, p, len)
    ensures !found ==> forall e: nat :: e < ENTRIES_PER_BLK && !Vacant(Slot(b, e)) ==>
                         NameIn(Slot(b, e)) != Sought(path, p, len)
  {
    hide NameIn, Vacant, Sought, Slot, IsName;
    j := 0;
    while j < ENTRIES_PER_BLK
      invariant j <= ENTRIES_PER_BLK
      invariant forall e: nat :: e < j && !Vacant(Slot(b, e)) ==> NameIn(Slot(b, e)) != Sought(path, p, len)
    {
      assert RecordOk(Slot(b, j));
      if !Vacant(Slot(b, j)) {
        var same := Matches(b, j, path, p, len);
        if same {
          return true, j;
        }
      }
      j := j + 1;
    }
    return false, j;
  }

  /** The inner loop of add_entry: the first vacant record of a block. */
  method FindVacant(b: Block) returns (found: bool, j: nat)
    ensures found ==> j < ENTRIES_PER_BLK && Vacant(Slot(b, j))
    ensures found ==> forall e: nat :: e < j ==> !Vacant(Slot(b, e))
    ensures !found ==> forall e: nat :: e < ENTRIES_PER_BLK ==> !Vacant(Slot(b, e))
  {
    j := 0;
    while j < ENTRIES_PER_BLK
      invariant j <= ENTRIES_PER_BLK && forall e: nat :: e < j ==> !Vacant(Slot(b, e))
    {
      if Vacant(Slot(b, j)) {
        return true, j;
      }
      j := j + 1;
    }
    return false, j;
  }

  /** bread, search, brelse of one directory block (fs/namei.c:57-73). */
  method SearchBlock(sb: SuperBlock, b: u32, path: seq<byte>, p: nat, len: nat) returns (found: bool, j: nat, nr: u32)
    requires sb.Valid() && sb.Roomy(1) && sb.IsDataZone(b) && Component(path, p, len)
    requires forall e: nat :: e < ENTRIES_PER_BLK ==> RecordOk(Slot(sb.cache.view[Key(sb.dev, b)], e))
    modifies sb.cache.Repr()
    ensures sb.Valid() && sb.cache.view == old(sb.cache.view) && sb.cache.pins == old(sb.cache.pins)
    ensures var d := old(sb.cache.view)[Key(sb.dev, b)];
            if found then j < ENTRIES_PER_BLK && !Vacant(Slot(d, j)) && NameIn(Slot(d, j)) == Sought(path, p, len)
                          && nr == Number(Slot(d, j))
            else forall e: nat :: e < ENTRIES_PER_BLK && !Vacant(Slot(d, e)) ==>
              NameIn(Slot(d, e)) != Sought(path, p, len)
  {
    hide SuperBlock.Valid, RecordOk, NameIn, Vacant, Sought, Component, Number;
    ghost var pins := sb.cache.pins;
    var bh := sb.ReadZone(b);
    sb.ZoneData(bh, b);
    found, j := FindSlot(sb.cache.bh[bh].data, path, p, len);
    nr := 0;
    if found {
      nr := Number(Slot(sb.cache.bh[bh].data, j));
    }
    PlusMinus(pins, Key(sb.dev, b), bh, true);
    sb.ReleaseZone(bh, b);
  }

  /** No record of the first n blocks of directory d has the name. */
  ghost predicate NotBefore(vol: Vol, d: nat, n: nat, name: Name)
    requires vol.Wf() && d in vol.zones
  {
    forall e: nat :: e < 64 * n && !Vacant(Entry(vol, d, e)) ==> NameIn(Entry(vol, d, e)) != name
  }

  lemma NotBeforeStep(vol: Vol, d: nat, i: nat, name: Name, b: u32)
    requires vol.Wf() && d in vol.zones && i < NR_FILE_BLKS && b == vol.Ptr(PlaceOf(d, i)) != 0
    requires NotBefore(vol, d, i, name)
    requires forall j: nat :: j < ENTRIES_PER_BLK && !Vacant(Slot(vol.Blk(b), j)) ==>
             NameIn(Slot(vol.Blk(b), j)) != name
    ensures NotBefore(vol, d, i + 1, name)
  {
    hide NameIn, Vacant, Slot, Entry;
    forall e: nat | e < 64 * (i + 1) && !Vacant(Entry(vol, d, e)) ensures NameIn(Entry(vol, d, e)) != name {
      if e >= 64 * i {
        EntrySlot(vol, d, i, e - 64 * i);
      }
    }
  }

  lemma BlockRecordsOk(vol: Vol, d: nat, size: nat, at: map<Name, nat>, i: nat)
    requires Listed(vol, d, size, at) && i < size / BLK_SIZE
    ensures vol.Wf() && d in vol.zones && i < NR_FILE_BLKS && vol.Ptr(PlaceOf(d, i)) != 0
    ensures forall e: nat :: e < ENTRIES_PER_BLK ==> RecordOk(Slot(vol.Blk(vol.Ptr(PlaceOf(d, i))), e))
  {
    forall e: nat | e < ENTRIES_PER_BLK ensures RecordOk(Slot(vol.Blk(vol.Ptr(PlaceOf(d, i))), e)) {
      EntrySlot(vol, d, i, e);
      assert RecordOk(Entry(vol, d, 64 * i + e));
    }
  }

  lemma FoundAt(vol: Vol, d: nat, size: nat, at: map<Name, nat>, i: nat, j: nat, name: Name)
    requires Listed(vol, d, size, at) && i < size / BLK_SIZE && j < ENTRIES_PER_BLK
    requires vol.Ptr(PlaceOf(d, i)) != 0
    requires var r := Slot(vol.Blk(vol.Ptr(PlaceOf(d, i))), j); !Vacant(r) && NameIn(r) == name
    ensures name in at && at[name] == 64 * i + j
    ensures Listing(vol, d, at)[name] == Number(Slot(vol.Blk(vol.Ptr(PlaceOf(d, i))), j))
  {
    hide NameIn, Vacant, Slot, Entry, Number, RecordOk, PlaceOf;
    EntrySlot(vol, d, i, j);
    assert 64 * i + j < size / 64;
  }

  lemma NotFound(vol: Vol, d: nat, size: nat, at: map<Name, nat>, name: Name)
    requires Listed(vol, d, size, at) && NotBefore(vol, d, size / BLK_SIZE, name)
    ensures name !in at
  {
  }

  /** fs/namei.c:23, away from mount points and the process root: a name is found
      exactly when the directory lists it. */
  method FindEntry(vol: Volume, m: MemInode, path: seq<byte>, p: nat, len: nat, ghost at: map<Name, nat>)
    returns (found: bool, e: nat, nr: u32)
    requires vol.Valid() && vol.Loaded(m) && vol.sb.Roomy(2) && Component(path, p, len)
    requires Listed(vol.Now(), m.num, m.size, at)
    modifies vol.sb.cache.Repr(), vol.sb`pos, m`zone, m`dirt, vol`zones, vol`own
    ensures vol.Valid() && vol.Loaded(m) && vol.Now() == old(vol.Now()) && vol.sb.cache.pins == old(vol.sb.cache.pins)
    ensures m.zone == old(m.zone) && m.dirt == old(m.dirt)
    ensures found <==> Sought(path, p, len) in at
    ensures found ==> e == at[Sought(path, p, len)] && nr == Listing(old(vol.Now()), m.num, at)[Sought(path, p, len)]
  {
    hide SuperBlock.Valid, Forest, Mapped, Marked, Listed, Listing, NotBefore, Sought, RecordOk;
    ghost var now, name := vol.Now(), Sought(path, p, len);
    var left, i := (m.size + BLK_SIZE - 1) / BLK_SIZE, 0;
    BlocksOf(now, m.num, m.size, at);
    while i < NR_FILE_BLKS && left > 0
      invariant 0 <= left == m.size / BLK_SIZE - i
      invariant vol.Valid() && vol.Loaded(m) && vol.Now() == now && vol.sb.cache.pins == old(vol.sb.cache.pins)
      invariant m.zone == old(m.zone) && m.dirt == old(m.dirt)
      invariant NotBefore(now, m.num, i, name)
    {
      BlockRecordsOk(now, m.num, m.size, at, i);
      var b := vol.Bmap(m, i);
      if b != 0 {
        Owned(now, vol.own, vol.sb.firstDatazone, vol.sb.nzones, PlaceOf(m.num, i));
        left := left - 1;
        assert vol.sb.cache.view[Key(vol.sb.dev, b)] == now.Blk(b);
        var j;
        found, j, nr := SearchBlock(vol.sb, b, path, p, len);
        if found {
          FoundAt(now, m.num, m.size, at, i, j, name);
          return true, 64 * i + j, nr;
        }
        NotBeforeStep(now, m.num, i, name, b);
      }
      i := i + 1;
    }
    NotFound(now, m.num, m.size, at, name);
    return false, 0, 0;
  }

  lemma BlocksOf(vol: Vol, d: nat, size: u32, at: map<Name, nat>)
    requires Listed(vol, d, size, at)
    ensures (size + BLK_SIZE - 1) / BLK_SIZE == size / BLK_SIZE <= NR_FILE_BLKS
    ensures size + BLK_SIZE - 1 < TWO_32 && vol.Wf() && d in vol.zones
    ensures forall name :: NotBefore(vol, d, 0, name)
  {
  }

  // ---- adding and removing names ----

  /** The n characters of a path from p on, and a NUL, now stand from at on. */
  ghost predicate NameCopied(d: seq<byte>, r: seq<byte>, at: nat, path: seq<byte>, p: nat, n: nat) {
    && p + n <= |path| && |r| == |d|
    && forall x {:trigger r[x]} :: 0 <= x < |d| ==>
         r[x] == if at <= x < at + n then path[p + (x - at)] else if x == at + n then 0 else d[x]
  }

  /** strncpy and the terminating NUL of add_entry (fs/namei.c:108-109), in any stretch of memory. */
  method CopyName(d: seq<byte>, at: nat, path: seq<byte>, p: nat, n: nat) returns (r: seq<byte>)
    requires at + n < |d| && p + n <= |path|
    ensures NameCopied(d, r, at, path, p, n)
  {
    r := d;
    var k := 0;
    while k < n
      invariant k <= n && |r| == |d|
      invariant forall x {:trigger r[x]} :: 0 <= x < |d| ==>
                r[x] == if at <= x < at + k then path[p + (x - at)] else d[x]
    {
      r := r[at + k := path[p + k]];
      k := k + 1;
    }
    r := r[at + n := 0];
  }

  /** Let mem be the block of a buffer and the memory behind it. Storing a name in record j leaves
      every byte outside that record alone exactly when the name does not have 60 characters or the
      byte that follows the record was 0 already; behind record 63 that byte is not the block's. */
  lemma StoresStayIff(mem: seq<byte>, r: seq<byte>, j: nat, path: seq<byte>, p: nat, len: nat)
    requires Component(path, p, len) && j < ENTRIES_PER_BLK && |mem| > BLK_SIZE
    requires NameCopied(mem, r, 64 * j + 4, path, p, EffectiveLen(len))
    ensures (forall x :: 0 <= x < |mem| && !(64 * j <= x < 64 * j + 64) ==> r[x] == mem[x])
            <==> len != NAME_LEN || mem[64 * (j + 1)] == 0
  {
    assert r[64 * (j + 1)] == if len == NAME_LEN then 0 else mem[64 * (j + 1)];
  }

  /** Record 0 takes a name of 60 letters in front of a record of inode 7: that record's number
      becomes 0. */
  lemma StoresSpill() returns (r: seq<byte>)
    ensures Component(SixtyLetters(), 0, NAME_LEN)
    ensures NameCopied(FollowedBySeven(), r, 4, SixtyLetters(), 0, EffectiveLen(NAME_LEN))
    ensures FollowedBySeven()[64] == 7 && r[64] == 0
  {
    r := seq(BLK_SIZE + 1, i => if 4 <= i < 64 then 0x61 else 0);
  }

  function SixtyLetters(): (s: seq<byte>)
    ensures |s| == 61 && s[60] == 0 && forall i :: 0 <= i < 60 ==> s[i] == 0x61
  {
    seq(61, i => if i < 60 then 0x61 else 0)
  }

  /** A block of zeros and a byte behind it, but for the first byte of record 1. */
  function FollowedBySeven(): (s: seq<byte>)
    ensures |s| == BLK_SIZE + 1 && forall i :: 0 <= i < |s| ==> s[i] == if i == 64 then 7 else 0
  {
    seq(BLK_SIZE + 1, i => if i == 64 then 7 else 0)
  }

  /** What add_entry and its caller store in record j: the name, then the inode number. */
  method WriteRecord(d: Block, j: nat, path: seq<byte>, p: nat, len: nat, nr: u32) returns (r: Block)
    requires j < ENTRIES_PER_BLK && Component(path, p, len) && len != NAME_LEN
    ensures NameIn(Slot(r, j)) == Sought(path, p, len) && Number(Slot(r, j)) == nr
    ensures forall e: nat :: e < ENTRIES_PER_BLK && e != j ==> Slot(r, e) == Slot(d, e)
  {
    hide NameIn, Number, Slot;
    FitsRecord(path, p, len);
    var named := CopyName(d, 64 * j + 4, path, p, EffectiveLen(len));
    r := SetWord(named, 16 * j, nr);
    RecordWritten(d, named, j, Sought(path, p, len), nr);
  }

  lemma RecordWritten(d: Block, named: Block, j: nat, n: Name, nr: u32)
    requires j < ENTRIES_PER_BLK && IsName(n)
    requires forall x {:trigger named[x]} :: 0 <= x < BLK_SIZE ==>
               named[x] == if 64 * j + 4 <= x < 64 * j + 4 + |n| then n[x - (64 * j + 4)]
                           else if x == 64 * j + 4 + |n| then 0 else d[x]
    ensures var r := SetWord(named, 16 * j, nr);
            && NameIn(Slot(r, j)) == n && Number(Slot(r, j)) == nr
            && forall e: nat :: e < ENTRIES_PER_BLK && e != j ==> Slot(r, e) == Slot(d, e)
  {
    var r := SetWord(named, 16 * j, nr);
    SetWordReadBack(named, 16 * j, nr, 16 * j);
    assert Number(Slot(r, j)) == Word(r, 16 * j);
    var t := Slot(r, j);
    forall k | 4 <= k < 64 ensures t[k] == named[64 * j + k] {
      assert t[k] == r[64 * j + k];
    }
    NameWritten(t, n);
    forall e: nat | e < ENTRIES_PER_BLK && e != j ensures Slot(r, e) == Slot(d, e) {
      OtherSlot(d, r, j, e);
    }
  }

  lemma OtherSlot(d: Block, r: Block, j: nat, e: nat)
    requires j < ENTRIES_PER_BLK && e < ENTRIES_PER_BLK && e != j
    requires forall x {:trigger r[x]} :: 0 <= x < BLK_SIZE && !(64 * j <= x < 64 * j + 64) ==> r[x] == d[x]
    ensures Slot(r, e) == Slot(d, e)
  {
    assert 64 * e + 64 <= 64 * j || 64 * j + 64 <= 64 * e;
    forall k: nat | k < 64 ensures Slot(r, e)[k] == Slot(d, e)[k] {
      assert Slot(r, e)[k] == r[64 * e + k] && Slot(d, e)[k] == d[64 * e + k];
    }
  }

  lemma NameWritten(r: Record, n: Name)
    requires IsName(n) && r[4 + |n|] == 0 && forall k :: 0 <= k < |n| ==> r[4 + k] == n[k]
    ensures NameIn(r) == n
  {
    forall k | 4 <= k < 4 + |n| ensures r[k] != 0 {
      assert r[4 + (k - 4)] == n[k - 4];
    }
    StrlenIs(r, 4, |n|);
    assert r[4 .. 4 + |n|] == n;
  }

  lemma {:induction false} StrlenIs(s: seq<byte>, i: nat, n: nat)
    requires i + n < |s| && s[i + n] == 0 && forall k :: i <= k < i + n ==> s[k] != 0
    ensures Strlen(s, i) == n
    decreases n
  {
    if n > 0 { StrlenIs(s, i + 1, n - 1); }
  }

  /** memset and inode_nr = 0 of do_unhlink (fs/namei.c:656-657). */
  function Erased(d: Block, j: nat): (r: Block)
    requires j < ENTRIES_PER_BLK
    ensures forall x :: 0 <= x < BLK_SIZE ==> r[x] == if 64 * j <= x < 64 * j + 64 then 0 else d[x]
  {
    d[.. 64 * j] + ZeroBytes(64) + d[64 * j + 64 ..]
  }

  lemma ErasedSlots(d: Block, j: nat)
    requires j < ENTRIES_PER_BLK
    ensures Vacant(Slot(Erased(d, j), j))
    ensures forall e: nat :: e < ENTRIES_PER_BLK && e != j ==> Slot(Erased(d, j), e) == Slot(d, e)
  {
    forall e: nat | e < ENTRIES_PER_BLK && e != j ensures Slot(Erased(d, j), e) == Slot(d, e) {
      assert 64 * e + 64 <= 64 * j || 64 * j + 64 <= 64 * e;
    }
  }

  /** What another directory lists does not change. */
  lemma OtherListing(vol: Vol, vol': Vol, d: int, g: nat, size: nat, at: map<Name, nat>)
    requires vol.Wf() && vol'.Wf() && OthersSame(vol, vol', d) && g != d && Listed(vol, g, size, at)
    ensures Listed(vol', g, size, at) && Listing(vol', g, at) == Listing(vol, g, at)
  {
    hide ByteAt, NameIn, Number, RecordOk, Vacant, Entry;
    forall e: nat ensures Entry(vol', g, e) == Entry(vol, g, e) {
      EntryOfBytes(vol, vol', g, e);
    }
    forall m: nat | m < NR_FILE_BLKS ensures vol'.Ptr(PlaceOf(g, m)) == vol.Ptr(PlaceOf(g, m)) {}
    ListedFrame(vol, vol', g, size, size, at);
  }

  lemma EntryOfBytes(vol: Vol, vol': Vol, g: nat, e: nat)
    requires vol.Wf() && vol'.Wf() && g in vol.zones && g in vol'.zones
    requires forall k: nat :: ByteAt(vol', g, k) == ByteAt(vol, g, k)
    ensures Entry(vol', g, e) == Entry(vol, g, e)
  {
    forall k: nat | k < 64 ensures Entry(vol', g, e)[k] == Entry(vol, g, e)[k] {
      assert Entry(vol', g, e)[k] == ByteAt(vol', g, 64 * e + k) && Entry(vol, g, e)[k] == ByteAt(vol, g, 64 * e + k);
    }
  }

  /** The directory after record j of its block i became r; all else reads as before. */
  ghost predicate Changed(vol: Vol, vol': Vol, d: nat, i: nat, j: nat, r: Record)
    requires vol.Wf() && vol'.Wf() && d in vol.zones && d in vol'.zones
  {
    && vol'.zones.Keys == vol.zones.Keys && OthersSame(vol, vol', d)
    && (forall n: nat :: n < NR_FILE_BLKS ==> vol'.Ptr(PlaceOf(d, n)) == vol.Ptr(PlaceOf(d, n)))
    && (forall e: nat :: Entry(vol', d, e) == if e == 64 * i + j then r else Entry(vol, d, e))
  }

  lemma StoredEntry(vol: Vol, own: map<u32, Place>, lo: nat, hi: nat, d: nat, i: nat, j: nat, x: Block)
    requires Forest(vol, own, lo, hi) && d in vol.zones && i < NR_FILE_BLKS && vol.Ptr(PlaceOf(d, i)) != 0
    requires j < ENTRIES_PER_BLK
    requires forall e: nat :: e < ENTRIES_PER_BLK && e != j ==> Slot(x, e) == Slot(vol.Blk(vol.Ptr(PlaceOf(d, i))), e)
    ensures var vol' := vol.(v := vol.v[Key(vol.dev, vol.Ptr(PlaceOf(d, i))) := x]);
            vol'.Wf() && Forest(vol', own, lo, hi) && Changed(vol, vol', d, i, j, Slot(x, j))
  {
    hide Slot;
    var vol' := vol.(v := vol.v[Key(vol.dev, vol.Ptr(PlaceOf(d, i))) := x]);
    StoreBytes(vol, own, lo, hi, d, i, x);
    forall e: nat ensures Entry(vol', d, e) == if e == 64 * i + j then Slot(x, j) else Entry(vol, d, e) {
      EntryAfter(vol, vol', d, i, j, x, e);
    }
  }

  lemma EntryAfter(vol: Vol, vol': Vol, d: nat, i: nat, j: nat, x: Block, e: nat)
    requires vol.Wf() && vol'.Wf() && d in vol.zones && d in vol'.zones && i < NR_FILE_BLKS && j < ENTRIES_PER_BLK
    requires vol.Ptr(PlaceOf(d, i)) == vol'.Ptr(PlaceOf(d, i)) != 0 && vol'.Blk(vol.Ptr(PlaceOf(d, i))) == x
    requires forall s: nat :: s < ENTRIES_PER_BLK && s != j ==> Slot(x, s) == Slot(vol.Blk(vol.Ptr(PlaceOf(d, i))), s)
    requires forall k: nat :: k / BLK_SIZE != i ==> ByteAt(vol', d, k) == ByteAt(vol, d, k)
    ensures Entry(vol', d, e) == if e == 64 * i + j then Slot(x, j) else Entry(vol, d, e)
  {
    hide Slot, PlaceOf, ByteAt, Entry;
    if e / 64 == i {
      EntrySlot(vol, d, i, e % 64);
      EntrySlot(vol', d, i, e % 64);
    } else {
      EntryElsewhere(vol, vol', d, i, e);
    }
  }

  lemma EntryElsewhere(vol: Vol, vol': Vol, d: nat, i: nat, e: nat)
    requires vol.Wf() && vol'.Wf() && d in vol.zones && d in vol'.zones && e / 64 != i
    requires forall k: nat :: k / BLK_SIZE != i ==> ByteAt(vol', d, k) == ByteAt(vol, d, k)
    ensures Entry(vol', d, e) == Entry(vol, d, e)
  {
    hide ByteAt;
    var r, r' := Entry(vol, d, e), Entry(vol', d, e);
    forall k: nat | k < 64 ensures r'[k] == r[k] {
      assert (64 * e + k) / BLK_SIZE != i;
      assert r'[k] == ByteAt(vol', d, 64 * e + k) && r[k] == ByteAt(vol, d, 64 * e + k);
    }
  }

  /** A vacant record that gets a new name adds exactly that name to the listing. */
  lemma NameAdded(vol: Vol, vol': Vol, d: nat, size: nat, at: map<Name, nat>, i: nat, j: nat, r: Record)
    requires Listed(vol, d, size, at) && vol'.Wf() && d in vol'.zones && i < size / BLK_SIZE && j < ENTRIES_PER_BLK
    requires Vacant(Entry(vol, d, 64 * i + j)) && Changed(vol, vol', d, i, j, r)
    requires IsName(NameIn(r)) && NameIn(r) !in at
    ensures Listed(vol', d, size, at[NameIn(r) := 64 * i + j])
    ensures Listing(vol', d, at[NameIn(r) := 64 * i + j]) == Listing(vol, d, at)[NameIn(r) := Number(r)]
  {
    hide Entry, NameIn, RecordOk, Number, PlaceOf, Vacant, OthersSame, IsName;
    NamedRecord(r);
    forall n | n in at ensures at[n] != 64 * i + j && Entry(vol', d, at[n]) == Entry(vol, d, at[n]) {}
  }

  lemma NamedRecord(r: Record)
    requires IsName(NameIn(r))
    ensures RecordOk(r) && !Vacant(r)
  {
    assert r[4] == NameIn(r)[0];
  }

  lemma VacantOk(r: Record)
    ensures Vacant(r) ==> RecordOk(r)
  {
  }

  /** Erasing the record of a name removes exactly that name from the listing. */
  lemma NameRemoved(vol: Vol, vol': Vol, d: nat, size: nat, at: map<Name, nat>, i: nat, j: nat, r: Record, name: Name)
    requires Listed(vol, d, size, at) && vol'.Wf() && d in vol'.zones && name in at && at[name] == 64 * i + j
    requires Vacant(r) && Changed(vol, vol', d, i, j, r) && j < ENTRIES_PER_BLK
    ensures Listed(vol', d, size, at - {name})
    ensures Listing(vol', d, at - {name}) == Listing(vol, d, at) - {name}
  {
    hide Entry, NameIn, RecordOk, Number, PlaceOf, Vacant, OthersSame;
    VacantOk(r);
    forall n | n in at && n != name ensures at[n] != 64 * i + j && Entry(vol', d, at[n]) == Entry(vol, d, at[n]) {}
  }

  lemma ListedFrame(vol: Vol, vol': Vol, d: nat, size: nat, n: nat, at: map<Name, nat>)
    requires Listed(vol, d, size, at) && vol'.Wf() && d in vol'.zones && size <= n && n % BLK_SIZE == 0
    requires forall e: nat :: Entry(vol', d, e) == Entry(vol, d, e)
    requires forall m: nat :: m < NR_FILE_BLKS ==> (vol'.Ptr(PlaceOf(d, m)) != 0 <==> m < n / BLK_SIZE)
    requires n / BLK_SIZE <= NR_FILE_BLKS && forall e: nat :: size / 64 <= e < n / 64 ==> Vacant(Entry(vol, d, e))
    ensures Listed(vol', d, n, at) && Listing(vol', d, at) == Listing(vol, d, at)
  {
    hide Entry, NameIn, Number, PlaceOf, Vacant, RecordOk;
    forall e: nat | e < n / 64 ensures RecordOk(Entry(vol', d, e)) {
      VacantOk(Entry(vol', d, e));
    }
  }

  /** Only the block after the last one may have been added, and reads as zeros: the
      directory lists the same names. */
  lemma StillListed(vol: Vol, vol': Vol, d: nat, size: nat, at: map<Name, nat>, i: nat)
    requires Listed(vol, d, size, at) && i < NR_FILE_BLKS && i <= size / BLK_SIZE && Mapped(vol, vol', PlaceOf(d, i))
    ensures d in vol'.zones && Listing(vol', d, at) == Listing(vol, d, at)
    ensures var n := if i == size / BLK_SIZE && vol'.Ptr(PlaceOf(d, i)) != 0 then size + BLK_SIZE else size;
            Listed(vol', d, n, at)
    ensures i == size / BLK_SIZE ==> Vacant(Entry(vol', d, 64 * i))
  {
    hide Entry, NameIn, Number, Vacant, RecordOk, ByteAt;
    var n := if i == size / BLK_SIZE && vol'.Ptr(PlaceOf(d, i)) != 0 then size + BLK_SIZE else size;
    forall e: nat ensures Entry(vol', d, e) == Entry(vol, d, e) {
      SameEntry(vol, vol', d, e);
    }
    forall m: nat | m < NR_FILE_BLKS ensures vol'.Ptr(PlaceOf(d, m)) != 0 <==> m < n / BLK_SIZE {
      if m != i && PlaceOf(d, m) == PlaceOf(d, i) { PlaceOfInjective(d, m, d, i); }
    }
    forall e: nat | size / 64 <= e < n / 64 || (i == size / BLK_SIZE && e == 64 * i) ensures Vacant(Entry(vol, d, e)) {
      HoleVacant(vol, d, i, e);
    }
    ListedFrame(vol, vol', d, size, n, at);
  }

  lemma SameEntry(vol: Vol, vol': Vol, d: nat, e: nat)
    requires vol.Wf() && vol'.Wf() && SameBytes(vol, vol') && d in vol.zones
    ensures Entry(vol', d, e) == Entry(vol, d, e)
  {
    forall k: nat | k < 64 ensures Entry(vol', d, e)[k] == Entry(vol, d, e)[k] {
      assert Entry(vol', d, e)[k] == ByteAt(vol', d, 64 * e + k) && Entry(vol, d, e)[k] == ByteAt(vol, d, 64 * e + k);
    }
  }

  lemma HoleVacant(vol: Vol, d: nat, i: nat, e: nat)
    requires vol.Wf() && d in vol.zones && i < NR_FILE_BLKS && vol.Ptr(PlaceOf(d, i)) == 0 && e / 64 == i
    ensures Vacant(Entry(vol, d, e))
  {
    forall k: nat | k < 64 ensures Entry(vol, d, e)[k] == 0 {
      assert (64 * e + k) / BLK_SIZE == i;
      assert Entry(vol, d, e)[k] == ByteAt(vol, d, 64 * e + k);
    }
  }

  /** bread, the search for a vacant record, its stores, brelse (fs/namei.c:101-115). */
  method FillVacant(sb: SuperBlock, b: u32, path: seq<byte>, p: nat, len: nat, nr: u32)
    returns (found: bool, j: nat, ghost x: Block)
    requires sb.Valid() && sb.Roomy(1) && sb.IsDataZone(b) && Component(path, p, len) && len != NAME_LEN
    modifies sb.cache.Repr()
    ensures sb.Valid() && sb.cache.pins == old(sb.cache.pins)
    ensures !found ==> sb.cache.view == old(sb.cache.view)
    ensures !found ==> forall e: nat :: e < ENTRIES_PER_BLK ==> !Vacant(Slot(old(sb.cache.view)[Key(sb.dev, b)], e))
    ensures found ==> sb.cache.view == old(sb.cache.view)[Key(sb.dev, b) := x]
    ensures found ==> j < ENTRIES_PER_BLK && Vacant(Slot(old(sb.cache.view)[Key(sb.dev, b)], j))
    ensures found ==> forall e: nat :: e < j ==> !Vacant(Slot(old(sb.cache.view)[Key(sb.dev, b)], e))
    ensures found ==> NameIn(Slot(x, j)) == Sought(path, p, len) && Number(Slot(x, j)) == nr
    ensures found ==> forall e: nat :: e < ENTRIES_PER_BLK && e != j ==>
                        Slot(x, e) == Slot(old(sb.cache.view)[Key(sb.dev, b)], e)
    ensures forall n: nat :: n < sb.zmapBlocks * BITS_PER_BLK ==>
            sb.ZoneBit(sb.cache.view, n) == sb.ZoneBit(old(sb.cache.view), n)
  {
    hide SuperBlock.Valid, RecordOk, NameIn, Vacant, Number, Slot, SuperBlock.ZoneBit;
    ghost var pins := sb.cache.pins;
    var bh := sb.ReadZone(b);
    sb.ZoneData(bh, b);
    x := sb.cache.bh[bh].data;
    found, j := FindVacant(sb.cache.bh[bh].data);
    if found {
      var r := WriteRecord(sb.cache.bh[bh].data, j, path, p, len, nr);
      x := r;
      sb.StoreZone(bh, b, r);
    }
    PlusMinus(pins, Key(sb.dev, b), bh, true);
    sb.ReleaseZone(bh, b);
  }

  /** Directory d now also lists name as nr, at record e; every other file reads as before. */
  ghost predicate Added(vol: Vol, vol': Vol, d: nat, size: nat, at: map<Name, nat>, name: Name, nr: u32, e: nat) {
    && Listed(vol', d, size, at[name := e]) && vol.Wf() && d in vol.zones
    && vol'.zones.Keys == vol.zones.Keys && OthersSame(vol, vol', d)
    && Listing(vol', d, at[name := e]) == Listing(vol, d, at)[name := nr]
  }

  /** None of the records from a to n - 1 is vacant. */
  ghost predicate InUse(vol: Vol, d: nat, a: nat, n: nat)
    requires vol.Wf() && d in vol.zones
  {
    forall e: nat :: a <= e < n ==> !Vacant(Entry(vol, d, e))
  }

  /** Names with different places are different. */
  lemma {:induction false} AsManyNames(names: seq<Name>, at: map<Name, nat>)
    requires forall e :: 0 <= e < |names| ==> names[e] in at && at[names[e]] == e
    ensures |names| <= |at|
  {
    if names != [] {
      var n := |names| - 1;
      var rest := at - {names[n]};
      AsManyNames(names[..n], rest);
      assert at == rest[names[n] := n];
    }
  }

  /** Records in use have different names, so there are at least as many names. */
  lemma NamesCounted(vol: Vol, d: nat, size: nat, at: map<Name, nat>, n: nat)
    requires Listed(vol, d, size, at) && n <= size / 64 && InUse(vol, d, 0, n)
    ensures n <= |at|
  {
    hide RecordOk, Vacant, NameIn, Entry;
    AsManyNames(seq(n, e requires 0 <= e < n => NameIn(Entry(vol, d, e))), at);
  }

  lemma {:induction false} NoMoreNames(at: map<Name, nat>, n: nat)
    requires forall k :: k in at ==> at[k] < n
    requires forall k, l :: k in at && l in at && at[k] == at[l] ==> k == l
    ensures |at| <= n
  {
    if n == 0 {
      assert at == map[];
    } else if k :| k in at && at[k] == n - 1 {
      NoMoreNames(at - {k}, n - 1);
      assert at == (at - {k})[k := n - 1];
    } else {
      NoMoreNames(at, n - 1);
    }
  }

  /** A directory has no more names than records. */
  lemma NamesFit(vol: Vol, d: nat, size: nat, at: map<Name, nat>)
    requires Listed(vol, d, size, at)
    ensures |at| <= size / 64
  {
    hide RecordOk, Vacant, NameIn, Entry;
    NoMoreNames(at, size / 64);
  }

  lemma AddedFits(vol: Vol, vol': Vol, d: nat, size: nat, at: map<Name, nat>, name: Name, nr: u32, e: nat)
    requires Added(vol, vol', d, size, at, name, nr, e) && name !in at
    ensures |at| < size / 64 && e / 64 < size / BLK_SIZE
  {
    hide RecordOk, Vacant, NameIn, Entry, Listing, OthersSame;
    NamesFit(vol', d, size, at[name := e]);
    assert at[name := e][name] < size / 64;
  }

  lemma NoneUsed(vol: Vol, d: nat)
    requires vol.Wf() && d in vol.zones
    ensures InUse(vol, d, 0, 0)
  {
  }

  lemma UsedUpTo(vol: Vol, d: nat, n: nat, e: nat)
    requires vol.Wf() && d in vol.zones && InUse(vol, d, 0, n) && (e == n || InUse(vol, d, n, e))
    ensures InUse(vol, d, 0, e)
  {
    hide Vacant, Entry;
  }

  /** The first record in use before a vacant one at the start of the block: none. */
  lemma FirstOfNew(vol: Vol, d: nat, i: nat, j: nat)
    requires vol.Wf() && d in vol.zones && InUse(vol, d, 64 * i, 64 * i + j)
    ensures Vacant(Entry(vol, d, 64 * i)) ==> j == 0
  {
    hide Vacant, Entry;
  }

  lemma UsedMore(vol: Vol, d: nat, i: nat)
    requires vol.Wf() && d in vol.zones && InUse(vol, d, 0, 64 * i) && InUse(vol, d, 64 * i, 64 * i + 64)
    ensures InUse(vol, d, 0, 64 * (i + 1))
  {
    hide Vacant, Entry;
  }

  /** One directory block offers its vacant record, if it has one. */
  method AddToBlock(vol: Volume, d: nat, i: nat, b: u32, path: seq<byte>, p: nat, len: nat, nr: u32,
                    ghost size: nat, ghost at: map<Name, nat>) returns (found: bool, j: nat)
    requires vol.Valid() && vol.sb.Roomy(1) && Component(path, p, len) && len != NAME_LEN
    requires Listed(vol.Now(), d, size, at) && i < size / BLK_SIZE && b == vol.Now().Ptr(PlaceOf(d, i))
    requires Sought(path, p, len) !in at
    modifies vol.sb.cache.Repr()
    ensures vol.Valid() && vol.sb.cache.pins == old(vol.sb.cache.pins)
    ensures found ==> Added(old(vol.Now()), vol.Now(), d, size, at, Sought(path, p, len), nr, 64 * i + j)
    ensures found ==> j < 64 && InUse(old(vol.Now()), d, 64 * i, 64 * i + j)
    ensures !found ==> vol.Now() == old(vol.Now()) && InUse(vol.Now(), d, 64 * i, 64 * i + 64)
    ensures forall k: Key :: vol.sb.IsMeta(k) ==> vol.sb.cache.view[k] == old(vol.sb.cache.view)[k]
  {
    hide SuperBlock.Valid, Forest, SuperBlock.ZoneBit, ByteAt, Listed, Listing, NameIn, Number, Vacant, Slot, Entry,
         Changed;
    ghost var now, name, lo, hi := vol.Now(), Sought(path, p, len), vol.sb.firstDatazone, vol.sb.nzones;
    BlockRecordsOk(now, d, size, at, i);
    Owned(now, vol.own, lo, hi, PlaceOf(d, i));
    forall j: nat | j < 64 ensures Entry(now, d, 64 * i + j) == Slot(now.Blk(b), j) {
      EntrySlot(now, d, i, j);
    }
    FitsRecord(path, p, len);
    ghost var x;
    assert vol.sb.cache.view[Key(vol.sb.dev, b)] == now.Blk(b);
    found, j, x := FillVacant(vol.sb, b, path, p, len, nr);
    if found {
      forall e: nat | 64 * i <= e < 64 * i + j ensures !Vacant(Entry(now, d, e)) {
        assert Entry(now, d, 64 * i + (e - 64 * i)) == Slot(now.Blk(b), e - 64 * i);
      }
      EntrySlot(now, d, i, j);
      StoredEntry(now, vol.own, lo, hi, d, i, j, x);
      NameAdded(now, vol.Now(), d, size, at, i, j, Slot(x, j));
      OthersKept(now, vol.Now(), d, i, j, Slot(x, j));
    } else {
      forall e: nat | 64 * i <= e < 64 * i + 64 ensures !Vacant(Entry(now, d, e)) {
        assert Entry(now, d, 64 * i + (e - 64 * i)) == Slot(now.Blk(b), e - 64 * i);
      }
    }
  }

  lemma OthersKept(vol: Vol, vol': Vol, d: nat, i: nat, j: nat, r: Record)
    requires vol.Wf() && vol'.Wf() && d in vol.zones && d in vol'.zones && Changed(vol, vol', d, i, j, r)
    ensures vol'.zones.Keys == vol.zones.Keys && OthersSame(vol, vol', d)
  {
  }

  /** create_block of directory block i and the bookkeeping of a new one
      (fs/namei.c:94-100). */
  method DirBlock(vol: Volume, m: MemInode, i: nat, ghost at: map<Name, nat>) returns (b: u32)
    requires vol.Valid() && vol.Loaded(m) && vol.sb.Roomy(2)
    requires Listed(vol.Now(), m.num, m.size, at) && m.size + BLK_SIZE < TWO_32 && i <= m.size / BLK_SIZE
    modifies vol.sb.cache.Repr(), vol.sb`pos, m`zone, m`dirt, m`size, vol`zones, vol`own
    ensures vol.Valid() && vol.Loaded(m) && vol.sb.cache.pins == old(vol.sb.cache.pins)
    ensures vol.zones == old(vol.zones)[m.num := m.zone]
    ensures Listed(vol.Now(), m.num, m.size, at) && vol.zones.Keys == old(vol.zones).Keys
    ensures OthersSame(old(vol.Now()), vol.Now(), m.num)
    ensures Listing(vol.Now(), m.num, at) == Listing(old(vol.Now()), m.num, at)
    ensures if b == 0 then vol.Full() && m.size == old(m.size)
            else i < m.size / BLK_SIZE && b == vol.Now().Ptr(PlaceOf(m.num, i))
    ensures if i < old(m.size) / BLK_SIZE
            then b != 0 && vol.Now() == old(vol.Now()) && m.size == old(m.size) && m.zone == old(m.zone)
              && m.dirt == old(m.dirt)
            else b != 0 ==> Vacant(Entry(vol.Now(), m.num, 64 * i)) && m.size == old(m.size) + BLK_SIZE
    ensures old(m.dirt) || m.zone != old(m.zone) || m.size != old(m.size) ==> m.dirt
    ensures forall k: Key :: vol.sb.IsMeta(k) ==> vol.sb.cache.view[k] == old(vol.sb.cache.view)[k]
  {
    hide SuperBlock.Valid, Volume.Rooted, Volume.Full, Forest, Listed, Listing, Vacant, Mapped, ByteAt, Entry,
         OthersSame;
    ghost var now, size := vol.Now(), m.size;
    BlocksOf(now, m.num, m.size, at);
    var created;
    b, created := vol.CreateBlock(m, i);
    MappedStays(now, vol.Now(), m.num, size, at, i);
    StillListed(now, vol.Now(), m.num, size, at, i);
    if created {
      m.size := m.size + BLK_SIZE;
      m.dirt := true;
    }
  }

  /** One round of add_entry: block i exists afterwards, and its vacant record, if it
      has one, took the name. */
  method TryBlock(vol: Volume, m: MemInode, i: nat, path: seq<byte>, p: nat, len: nat, nr: u32,
                  ghost at: map<Name, nat>)
    returns (b: u32, found: bool, ghost e: nat)
    requires vol.Valid() && vol.Loaded(m) && vol.sb.Roomy(2) && Component(path, p, len) && len != NAME_LEN
    requires Listed(vol.Now(), m.num, m.size, at) && m.size + BLK_SIZE < TWO_32 && Sought(path, p, len) !in at
    requires i <= m.size / BLK_SIZE
    modifies vol.sb.cache.Repr(), vol.sb`pos, m`zone, m`dirt, m`size, vol`zones, vol`own
    ensures vol.Valid() && vol.Loaded(m) && vol.sb.cache.pins == old(vol.sb.cache.pins)
    ensures vol.zones == old(vol.zones)[m.num := m.zone]
    ensures found ==> m.dirt && Added(old(vol.Now()), vol.Now(), m.num, m.size, at, Sought(path, p, len), nr, e)
    ensures found ==> if i < old(m.size) / BLK_SIZE then e >= 64 * i && InUse(old(vol.Now()), m.num, 64 * i, e)
                      else e == 64 * i && m.size == old(m.size) + BLK_SIZE
    ensures b == 0 ==> !found && vol.Full() && m.size == old(m.size) && Listed(vol.Now(), m.num, m.size, at)
                       && Listing(vol.Now(), m.num, at) == Listing(old(vol.Now()), m.num, at)
                       && vol.zones.Keys == old(vol.zones).Keys && OthersSame(old(vol.Now()), vol.Now(), m.num)
    ensures b != 0 && !found ==> i < m.size / BLK_SIZE && m.size == old(m.size) && vol.Now() == old(vol.Now())
                                 && m.zone == old(m.zone) && m.dirt == old(m.dirt)
                                 && InUse(vol.Now(), m.num, 64 * i, 64 * i + 64)
    ensures i < old(m.size) / BLK_SIZE ==> b != 0 && m.size == old(m.size) && m.zone == old(m.zone)
    ensures old(m.dirt) || m.zone != old(m.zone) || m.size != old(m.size) ==> m.dirt
    ensures forall k: Key :: vol.sb.IsMeta(k) ==> vol.sb.cache.view[k] == old(vol.sb.cache.view)[k]
  {
    hide SuperBlock.Valid, Volume.Rooted, Volume.Full, Forest, Listed, Listing, Sought, Vacant, ByteAt, Added, Entry,
         OthersSame;
    ghost var now, name := vol.Now(), Sought(path, p, len);
    BlocksOf(now, m.num, m.size, at);
    found, e := false, 0;
    b := DirBlock(vol, m, i, at);
    if b == 0 {
      return;
    }
    ghost var now1 := vol.Now();
    var j;
    found, j := AddToBlock(vol, m.num, i, b, path, p, len, nr, m.size, at);
    if found {
      m.dirt := true;
      e := 64 * i + j;
      FirstOfNew(now1, m.num, i, j);
      AddedAfter(now, now1, vol.Now(), m.num, m.size, at, name, nr, e);
    }
  }

  /** fs/namei.c:79, with its caller's store of the inode number: the first vacant
      record, or one in a new block, takes the name. Fails only when the allocator
      finds no more zones; a directory with more records than names neither fails nor grows. */
  method AddEntry(vol: Volume, m: MemInode, path: seq<byte>, p: nat, len: nat, nr: u32, ghost at: map<Name, nat>)
    returns (ok: bool, ghost e: nat)
    requires vol.Valid() && vol.Loaded(m) && vol.sb.Roomy(2) && Component(path, p, len) && len != NAME_LEN
    requires Listed(vol.Now(), m.num, m.size, at) && m.size + BLK_SIZE < TWO_32 && Sought(path, p, len) !in at
    modifies vol.sb.cache.Repr(), vol.sb`pos, m`zone, m`dirt, m`size, vol`zones, vol`own
    ensures vol.Valid() && vol.Loaded(m) && vol.sb.cache.pins == old(vol.sb.cache.pins)
    ensures vol.zones == old(vol.zones)[m.num := m.zone]
    ensures ok ==> m.dirt && Added(old(vol.Now()), vol.Now(), m.num, m.size, at, Sought(path, p, len), nr, e)
    ensures !ok ==> vol.Full() && m.size == old(m.size) && Listed(vol.Now(), m.num, m.size, at)
                    && Listing(vol.Now(), m.num, at) == Listing(old(vol.Now()), m.num, at)
                    && vol.zones.Keys == old(vol.zones).Keys && OthersSame(old(vol.Now()), vol.Now(), m.num)
    ensures |at| < old(m.size) / 64 ==> ok && m.size == old(m.size) && m.zone == old(m.zone)
    ensures ok ==> InUse(old(vol.Now()), m.num, 0, e) && e / 64 < m.size / BLK_SIZE
    ensures ok && |at| >= old(m.size) / 64 ==> m.size == old(m.size) + BLK_SIZE
    ensures old(m.dirt) || m.zone != old(m.zone) || m.size != old(m.size) ==> m.dirt
    ensures forall k: Key :: vol.sb.IsMeta(k) ==> vol.sb.cache.view[k] == old(vol.sb.cache.view)[k]
  {
    hide InUse, SuperBlock.Valid, Volume.Rooted, Volume.Full, Forest, Listed, Listing, Vacant, ByteAt, Added, Entry,
         OthersSame;
    ghost var now, size := vol.Now(), m.size;
    BlocksOf(now, m.num, m.size, at);
    NoneUsed(now, m.num);
    var i := 0;
    while i < NR_FILE_BLKS
      invariant i <= size / BLK_SIZE && m.size == size && vol.Now() == now
      invariant vol.Valid() && vol.Loaded(m) && vol.sb.cache.pins == old(vol.sb.cache.pins)
      invariant m.zone == old(m.zone) && m.dirt == old(m.dirt) && InUse(now, m.num, 0, 64 * i)
    {
      if i == size / BLK_SIZE {
        NamesCounted(now, m.num, size, at, size / 64);
      }
      var b, found;
      b, found, e := TryBlock(vol, m, i, path, p, len, nr, at);
      if found {
        UsedUpTo(now, m.num, 64 * i, e);
        AddedFits(now, vol.Now(), m.num, m.size, at, Sought(path, p, len), nr, e);
      }
      if b == 0 || found {
        return found, e;
      }
      UsedMore(now, m.num, i);
      i := i + 1;
    }
    assert false;
  }

  lemma MappedStays(vol: Vol, vol': Vol, d: nat, size: nat, at: map<Name, nat>, i: nat)
    requires Listed(vol, d, size, at) && i < NR_FILE_BLKS && Mapped(vol, vol', PlaceOf(d, i))
    ensures vol.Ptr(PlaceOf(d, i)) != 0 <==> i < size / BLK_SIZE
    ensures i < size / BLK_SIZE ==> vol' == vol
    ensures vol'.zones.Keys == vol.zones.Keys && OthersSame(vol, vol', d)
  {
  }

  lemma AddedAfter(vol: Vol, vol1: Vol, vol2: Vol, d: nat, size: nat, at: map<Name, nat>, name: Name, nr: u32, e: nat)
    requires vol.Wf() && vol1.Wf() && vol2.Wf() && d in vol.zones && vol1.zones.Keys == vol.zones.Keys
    requires OthersSame(vol, vol1, d)
    requires Listing(vol1, d, at) == Listing(vol, d, at)
    requires Added(vol1, vol2, d, size, at, name, nr, e)
    ensures Added(vol, vol2, d, size, at, name, nr, e)
  {
    hide Listed, Listing, ByteAt, OthersSame;
    OthersSameTwice(vol, vol1, vol2, d);
  }

  /** Directory d no longer lists name; every other file reads as before. */
  ghost predicate Removed(vol: Vol, vol': Vol, d: nat, size: nat, at: map<Name, nat>, name: Name) {
    && Listed(vol', d, size, at - {name}) && vol.Wf() && d in vol.zones
    && vol'.zones.Keys == vol.zones.Keys && OthersSame(vol, vol', d)
    && Listing(vol', d, at - {name}) == Listing(vol, d, at) - {name}
  }

  /** bread of a directory block, a record zeroed, bh_dirt, brelse. */
  method EraseSlot(sb: SuperBlock, b: u32, j: nat) returns (ghost x: Block)
    requires sb.Valid() && sb.Roomy(1) && sb.IsDataZone(b) && j < ENTRIES_PER_BLK
    modifies sb.cache.Repr()
    ensures sb.Valid() && sb.cache.pins == old(sb.cache.pins)
    ensures sb.cache.view == old(sb.cache.view)[Key(sb.dev, b) := x]
            && x == Erased(old(sb.cache.view)[Key(sb.dev, b)], j)
    ensures forall n: nat :: n < sb.zmapBlocks * BITS_PER_BLK ==>
            sb.ZoneBit(sb.cache.view, n) == sb.ZoneBit(old(sb.cache.view), n)
  {
    hide SuperBlock.Valid, Erased, SuperBlock.ZoneBit;
    ghost var pins := sb.cache.pins;
    var bh := sb.ReadZone(b);
    sb.ZoneData(bh, b);
    x := Erased(sb.cache.bh[bh].data, j);
    sb.StoreZone(bh, b, Erased(sb.cache.bh[bh].data, j));
    PlusMinus(pins, Key(sb.dev, b), bh, true);
    sb.ReleaseZone(bh, b);
  }

  /** The record that find_entry returned is erased (fs/namei.c:656-659). */
  method EraseEntry(vol: Volume, m: MemInode, e: nat, ghost name: Name, ghost at: map<Name, nat>)
    requires vol.Valid() && vol.Loaded(m) && vol.sb.Roomy(2)
    requires Listed(vol.Now(), m.num, m.size, at) && name in at && at[name] == e
    modifies vol.sb.cache.Repr(), vol.sb`pos, m`zone, m`dirt, vol`zones, vol`own
    ensures vol.Valid() && vol.Loaded(m) && vol.sb.cache.pins == old(vol.sb.cache.pins)
    ensures Removed(old(vol.Now()), vol.Now(), m.num, m.size, at, name)
    ensures m.zone == old(m.zone) && m.dirt == old(m.dirt) && vol.zones == old(vol.zones)
    ensures forall k: Key :: vol.sb.IsMeta(k) ==> vol.sb.cache.view[k] == old(vol.sb.cache.view)[k]
  {
    hide SuperBlock.Valid, Forest, SuperBlock.ZoneBit, ByteAt, Listed, Listing, Vacant, Slot, Entry, Changed, Mapped;
    ghost var now, lo, hi, d, i, j := vol.Now(), vol.sb.firstDatazone, vol.sb.nzones, m.num, e / 64, e % 64;
    EntryInside(now, d, m.size, at, name);
    BlockRecordsOk(now, d, m.size, at, i);
    var b := vol.Bmap(m, e / 64);
    Owned(now, vol.own, lo, hi, PlaceOf(d, i));
    assert vol.sb.cache.view[Key(vol.sb.dev, b)] == now.Blk(b);
    ghost var x := EraseSlot(vol.sb, b, e % 64);
    ErasedSlots(now.Blk(b), j);
    StoredEntry(now, vol.own, lo, hi, d, i, j, x);
    NameRemoved(now, vol.Now(), d, m.size, at, i, j, Slot(x, j), name);
    OthersKept(now, vol.Now(), d, i, j, Slot(x, j));
  }

  lemma EntryInside(vol: Vol, d: nat, size: nat, at: map<Name, nat>, name: Name)
    requires Listed(vol, d, size, at) && name in at
    ensures at[name] / 64 < size / BLK_SIZE && at[name] == 64 * (at[name] / 64) + at[name] % 64
  {
  }
}
