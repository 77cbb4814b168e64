/** Copying bytes between a kernel buffer and another task's memory, page by page through that
    task's page tables (kernel/ipc/kmail.c:71). */
module PhysicalCopy {
  import opened Bytes
  import opened PageTables

  const VIRTUAL_PAGES := 0x10_0000

  /** Where the two levels of tables lead for a page of the task. The entries are read as
      addresses only; their kinds and permissions are not looked at. */
  datatype Place = Nowhere | Frame(page: int)

  function PlaceOf(m: Ram, dir: nat, vp: nat): Place
    requires dir + 4 <= RAM_PAGES && vp < VIRTUAL_PAGES
  {
    var d := L1(m, dir, vp / 256);
    if d / 0x400 == 0 || !InRam(TablePage(d)) then Nowhere
    else
      var e := L2(m, TablePage(d), d / 0x400 % 4, vp % 256);
      if e / 0x1000 == 0 then Nowhere else Frame(TablePage(e))
  }

  /** The table and the frame that the entries for a page name, if any, are RAM. */
  predicate InsideRam(m: Ram, dir: nat, vp: nat)
    requires dir + 4 <= RAM_PAGES && vp < VIRTUAL_PAGES
  {
    var d := L1(m, dir, vp / 256);
    (d / 0x400 != 0 ==> InRam(TablePage(d))) && (PlaceOf(m, dir, vp).Frame? ==> InRam(PlaceOf(m, dir, vp).page))
  }

  /** Page and offset of the k-th byte from va on; addresses wrap around. */
  function PageNo(va: u32, k: nat): nat {
    (va / 0x1000 + (va % 0x1000 + k) / 0x1000) % VIRTUAL_PAGES
  }

  function Offset(va: u32, k: nat): (o: nat)
    ensures o < 0x1000
  {
    (va % 0x1000 + k) % 0x1000
  }

  lemma AddressOf(va: u32, k: nat)
    ensures (va + k) % TWO_32 == 0x1000 * PageNo(va, k) + Offset(va, k)
  {
    var p := va / 0x1000 + (va % 0x1000 + k) / 0x1000;
    assert va + k == 0x1000 * p + Offset(va, k);
    assert p == VIRTUAL_PAGES * (p / VIRTUAL_PAGES) + PageNo(va, k);
  }

  /** Bytes of one page: from byte k on, the next t are in the same page as long as the offset
      does not run over; then the next page starts. */
  lemma SamePage(va: u32, k: nat, t: nat)
    requires Offset(va, k) + t < 0x1000
    ensures PageNo(va, k + t) == PageNo(va, k) && Offset(va, k + t) == Offset(va, k) + t
  {
  }

  lemma NextPage(va: u32, k: nat)
    ensures var k' := k + 0x1000 - Offset(va, k);
            Offset(va, k') == 0 && PageNo(va, k') == (PageNo(va, k) + 1) % VIRTUAL_PAGES
  {
    var r, p := va % 0x1000, va / 0x1000;
    var s := r + k;
    var q, k' := s / 0x1000, k + 0x1000 - s % 0x1000;
    assert r + k' == 0x1000 * (q + 1);
    Whole(q + 1);
    OneOn(p + q);
    assert PageNo(va, k') == (p + (q + 1)) % VIRTUAL_PAGES;
  }

  lemma Whole(q: nat)
    ensures 0x1000 * q % 0x1000 == 0 && 0x1000 * q / 0x1000 == q
  {
  }

  lemma OneOn(q: nat)
    ensures (q + 1) % VIRTUAL_PAGES == (q % VIRTUAL_PAGES + 1) % VIRTUAL_PAGES
  {
  }

  // ---- the copy, byte by byte ----

  /** The page that holds byte k from va on; -1 when none does. */
  function PageAt(m: Ram, dir: nat, va: u32, k: nat): int
    requires dir + 4 <= RAM_PAGES
  {
    var p := PlaceOf(m, dir, PageNo(va, k));
    if p.Frame? then p.page else -1
  }

  function Poke(m: Ram, p: int, o: nat, b: byte): (m': Ram)
    requires o < BLK_SIZE
  {
    if InRam(p) then m[p := m[p][o := b]] else m
  }

  /** Memory after the first n bytes of bs were stored one by one where the task's tables put
      them. */
  function Poked(m: Ram, dir: nat, va: u32, bs: seq<byte>, n: nat): (m': Ram)
    requires dir + 4 <= RAM_PAGES && n <= |bs|
  {
    if n == 0 then m else Poke(Poked(m, dir, va, bs, n - 1), PageAt(m, dir, va, n - 1), Offset(va, n - 1), bs[n - 1])
  }

  /** n is how far the bytes from va on can be copied: all size of them, or up to the first page
      that is not there. */
  ghost predicate Extent(m: Ram, dir: nat, va: u32, size: nat, n: nat)
    requires dir + 4 <= RAM_PAGES
  {
    n <= size && (forall k: nat :: k < n ==> InRam(PageAt(m, dir, va, k))) && (n < size ==> PageAt(m, dir, va, n) == -1)
  }

  /** The bytes go to none of the pages that the translation itself reads. */
  ghost predicate Apart(m: Ram, dir: nat, va: u32, size: nat)
    requires dir + 4 <= RAM_PAGES
  {
    && (forall k: nat :: k < size ==> !(dir <= PageAt(m, dir, va, k) < dir + 4))
    && (forall k: nat, j: nat :: k < size && j < size && InRam(TableAt(m, dir, va, j)) ==>
         PageAt(m, dir, va, k) != TableAt(m, dir, va, j))
  }

  function TableAt(m: Ram, dir: nat, va: u32, k: nat): int
    requires dir + 4 <= RAM_PAGES
  {
    TablePage(L1(m, dir, PageNo(va, k) / 256))
  }

  lemma {:induction false} PokedPages(m: Ram, dir: nat, va: u32, bs: seq<byte>, n: nat, p: nat)
    requires dir + 4 <= RAM_PAGES && n <= |bs| && p < RAM_PAGES && forall k: nat :: k < n ==> PageAt(m, dir, va, k) != p
    ensures Poked(m, dir, va, bs, n)[p] == m[p]
  {
    if n > 0 { PokedPages(m, dir, va, bs, n - 1, p); }
  }

  /** Stores apart from the tables do not change where the bytes are. */
  lemma PokedPlaces(m: Ram, dir: nat, va: u32, bs: seq<byte>, size: nat, n: nat, j: nat)
    requires dir + 4 <= RAM_PAGES && n <= size <= |bs| && j < size && Apart(m, dir, va, size)
    ensures PlaceOf(Poked(m, dir, va, bs, n), dir, PageNo(va, j)) == PlaceOf(m, dir, PageNo(va, j))
    ensures InsideRam(Poked(m, dir, va, bs, n), dir, PageNo(va, j)) == InsideRam(m, dir, PageNo(va, j))
  {
    hide PageAt, PageNo, Poked;
    var m', vp := Poked(m, dir, va, bs, n), PageNo(va, j);
    forall p: nat | dir <= p < dir + 4 ensures m'[p] == m[p] {
      PokedPages(m, dir, va, bs, n, p);
    }
    VirtualPage(va, j);
    L1Same(m, m', dir, vp / 256);
    var t := TableAt(m, dir, va, j);
    if InRam(t) { PokedPages(m, dir, va, bs, n, t); }
  }

  lemma VirtualPage(va: u32, k: nat)
    ensures PageNo(va, k) < VIRTUAL_PAGES && Offset(va, k) < 0x1000
  {
  }

  // ---- the chunks ----

  /** Memory after the bytes bs[pos..pos + t] were stored in page p from offset o on. */
  function Run(m: Ram, p: int, o: nat, bs: seq<byte>, pos: nat, t: nat): (m': Ram)
    requires o + t <= BLK_SIZE && pos + t <= |bs|
  {
    if t == 0 then m else Poke(Run(m, p, o, bs, pos, t - 1), p, o + t - 1, bs[pos + t - 1])
  }

  lemma {:induction false} RunIsPoked(m: Ram, dir: nat, va: u32, bs: seq<byte>, pos: nat, t: nat)
    requires dir + 4 <= RAM_PAGES && pos + t <= |bs| && Offset(va, pos) + t <= 0x1000
    ensures Run(Poked(m, dir, va, bs, pos), PageAt(m, dir, va, pos), Offset(va, pos), bs, pos, t) == Poked(m, dir, va,
            bs, pos + t)
  {
    hide PageNo, Offset, PlaceOf;
    if t > 0 {
      RunIsPoked(m, dir, va, bs, pos, t - 1);
      SamePage(va, pos, t - 1);
    }
  }

  /** One chunk within a page: chars bytes go to memory or come from it. */
  method CopyChunk(read: bool, ram: array<Block>, buf: array<byte>, p: nat, o: nat, pos: nat, chars: nat)
    requires ram.Length == RAM_PAGES && p < RAM_PAGES && o + chars <= BLK_SIZE && pos + chars <= buf.Length
    modifies ram, buf
    ensures read ==> ram[..] == old(ram[..])
    ensures read ==> forall k :: 0 <= k < buf.Length ==>
            buf[k] == if pos <= k < pos + chars then ram[p][o + (k - pos)] else old(buf[k])
    ensures !read ==> buf[..] == old(buf[..]) && ram[..] == Run(old(ram[..]), p, o, old(buf[..]), pos, chars)
  {
    ghost var m, bs := ram[..], buf[..];
    var t := 0;
    if read {
      while t < chars
        invariant t <= chars && ram[..] == m
        invariant forall k :: 0 <= k < buf.Length ==>
                  buf[k] == if pos <= k < pos + t then m[p][o + (k - pos)] else bs[k]
      {
        buf[pos + t] := ram[p][o + t];
        t := t + 1;
      }
    } else {
      while t < chars
        invariant t <= chars && buf[..] == bs && ram[..] == Run(m, p, o, bs, pos, t)
      {
        ram[p] := ram[p][o + t := buf[pos + t]];
        t := t + 1;
      }
    }
  }

  /** Byte k of the task's memory from va on. */
  function ByteAt(m: Ram, dir: nat, va: u32, k: nat): byte
    requires dir + 4 <= RAM_PAGES
  {
    var p := PageAt(m, dir, va, k);
    if InRam(p) then m[p][Offset(va, k)] else 0
  }

  /** The lookup of one page and the copy of its chunk; not ok when the page is not there. */
  method CopyPage(read: bool, ram: array<Block>, buf: array<byte>, dir: nat, va: u32, o: nat, pos: nat, chars: nat)
    returns (ok: bool)
    requires ram.Length == RAM_PAGES && dir + 4 <= RAM_PAGES && o + chars <= BLK_SIZE && pos + chars <= buf.Length
    requires InsideRam(ram[..], dir, va / 0x1000)
    modifies ram, buf
    ensures ok <==> PlaceOf(old(ram[..]), dir, va / 0x1000).Frame?
    ensures !ok ==> ram[..] == old(ram[..]) && buf[..] == old(buf[..])
    ensures ok ==> InRam(PlaceOf(old(ram[..]), dir, va / 0x1000).page)
    ensures ok && read ==> ram[..] == old(ram[..])
    ensures ok && read ==> forall k :: 0 <= k < buf.Length ==>
              buf[k] == if pos <= k < pos + chars then ram[PlaceOf(old(ram[..]), dir, va / 0x1000).page][o + (k - pos)]
                else old(buf[k])
    ensures ok && !read ==> buf[..] == old(buf[..])
    ensures ok && !read ==>
              ram[..] == Run(old(ram[..]), PlaceOf(old(ram[..]), dir, va / 0x1000).page, o, old(buf[..]), pos, chars)
  {
    hide Run;
    var l1Idx, l2Idx := va / 0x10_0000, va / 0x1000 % 256;
    var d := Word(ram[dir + l1Idx / 1024], l1Idx % 1024);
    assert d == L1(ram[..], dir, va / 0x1000 / 256);
    if d / 0x400 == 0 {
      return false;
    }
    var e := Word(ram[TablePage(d)], 256 * (d / 0x400 % 4) + l2Idx);
    assert e == L2(ram[..], TablePage(d), d / 0x400 % 4, va / 0x1000 % 256);
    if e / 0x1000 == 0 {
      return false;
    }
    CopyChunk(read, ram, buf, TablePage(e), o, pos, chars);
    ok := true;
  }

  /** What the source's checks make of the pid: a task with its directory, or none. */
  datatype Target = NoTask | Task(dir: nat)

  /** What physrw returns when the first n bytes could be copied: the chunk of the page that is
      missing counts as copied. */
  function Counted(va: u32, size: nat, n: nat): nat {
    if n >= size then size
    else n + if size - n < 0x1000 - Offset(va, n) then size - n else 0x1000 - Offset(va, n)
  }

  ghost predicate AllInside(m: Ram, dir: nat, va: u32, size: nat)
    requires dir + 4 <= RAM_PAGES
  {
    forall k: nat :: k < size ==> InsideRam(m, dir, PageNo(va, k))
  }

  /** The first n bytes from va on can be copied, and the next chunk is about to be. */
  ghost predicate Reached(m: Ram, dir: nat, va: u32, n: nat)
    requires dir + 4 <= RAM_PAGES
  {
    forall k: nat :: k < n ==> InRam(PageAt(m, dir, va, k))
  }

  lemma ReachedMore(m: Ram, dir: nat, va: u32, n: nat, chars: nat)
    requires dir + 4 <= RAM_PAGES && Reached(m, dir, va, n) && InRam(PageAt(m, dir, va, n))
             && Offset(va, n) + chars <= 0x1000
    ensures Reached(m, dir, va, n + chars)
    ensures forall k: nat :: n <= k < n + chars ==>
            ByteAt(m, dir, va, k) == m[PageAt(m, dir, va, n)][Offset(va, n) + (k - n)]
  {
    hide PageNo, Offset, PlaceOf;
    forall k: nat | n <= k < n + chars
      ensures PageAt(m, dir, va, k) == PageAt(m, dir, va, n) && Offset(va, k) == Offset(va, n) + (k - n)
    {
      SamePage(va, n, k - n);
    }
  }

  /** kernel/ipc/kmail.c:71. Byte by byte through the task's tables, up to the first page that
      is not there. */
  method Physrw(read: bool, buf: array<byte>, target: Target, addr2: u32, size: int, ram: array<Block>)
    returns (cnt: nat, ghost n: nat)
    requires ram.Length == RAM_PAGES && size <= buf.Length
    requires target.Task? ==> target.dir + 4 <= RAM_PAGES && (size >= 0 ==> AllInside(ram[..], target.dir, addr2, size))
    requires target.Task? && !read && size >= 0 ==> Apart(ram[..], target.dir, addr2, size)
    modifies ram, buf
    ensures target.NoTask? || size < 0 || addr2 == 0 ==> cnt == 0 && ram[..] == old(ram[..]) && buf[..] == old(buf[..])
    ensures target.Task? && size >= 0 && addr2 != 0 ==>
            Extent(old(ram[..]), target.dir, addr2, size, n) && cnt == Counted(addr2, size, n)
    ensures target.Task? && size >= 0 && addr2 != 0 && read ==>
              && ram[..] == old(ram[..])
              && forall k: nat :: k < buf.Length ==>
                   buf[k] == if k < n then ByteAt(ram[..], target.dir, addr2, k) else old(buf[k])
    ensures target.Task? && size >= 0 && addr2 != 0 && !read ==>
              buf[..] == old(buf[..]) && n <= buf.Length
                && ram[..] == Poked(old(ram[..]), target.dir, addr2, buf[..], n)
  {
    hide PlaceOf, Poked, Run, PageNo, Offset, Apart, L1, L2, ByteAt, InsideRam;
    cnt, n := 0, 0;
    if target.NoTask? || size < 0 || addr2 == 0 {
      return;
    }
    ghost var m, bs := ram[..], buf[..];
    var dir, left, offset, pos := target.dir, size, addr2 % 0x1000, 0;
    var va: u32 := addr2;
    StartPage(m, dir, addr2, bs);
    while left > 0
      invariant 0 <= left && left + pos == size && cnt == pos && Reached(m, dir, addr2, pos)
      invariant left > 0 ==> offset == Offset(addr2, pos) && va / 0x1000 == PageNo(addr2, pos)
      invariant read ==> ram[..] == m && forall k: nat :: k < buf.Length ==>
                buf[k] == if k < pos then ByteAt(m, dir, addr2, k) else bs[k]
      invariant !read ==> buf[..] == bs && ram[..] == Poked(m, dir, addr2, bs, pos)
    {
      var chars := 0x1000 - offset;
      if chars > left {
        chars := left;
      }
      left, cnt := left - chars, cnt + chars;
      if !read { PokedPlaces(m, dir, addr2, bs, size, pos, pos); }
      var ok := CopyPage(read, ram, buf, dir, va, offset, pos, chars);
      if !ok {
        break;
      }
      ReachedMore(m, dir, addr2, pos, chars);
      if !read { RunIsPoked(m, dir, addr2, bs, pos, chars); }
      NextPage(addr2, pos);
      pos, offset, va := pos + chars, 0, (va + 0x1000) % TWO_32;
    }
    n := pos;
  }

  lemma StartPage(m: Ram, dir: nat, va: u32, bs: seq<byte>)
    requires dir + 4 <= RAM_PAGES
    ensures Offset(va, 0) == va % 0x1000 && PageNo(va, 0) == va / 0x1000
    ensures Poked(m, dir, va, bs, 0) == m
  {
  }

  // ---- what the copy means ----

  /** Different bytes go to different places. */
  ghost predicate Distinct(m: Ram, dir: nat, va: u32, size: nat)
    requires dir + 4 <= RAM_PAGES
  {
    forall k: nat, j: nat :: k < j < size && Offset(va, k) == Offset(va, j) ==>
      PageAt(m, dir, va, k) != PageAt(m, dir, va, j)
  }

  /** Byte o of page p, among the first n bytes from va on. */
  ghost predicate Held(m: Ram, dir: nat, va: u32, n: nat, p: nat, o: nat)
    requires dir + 4 <= RAM_PAGES
  {
    exists k: nat :: k < n && PageAt(m, dir, va, k) == p && Offset(va, k) == o
  }

  /** The bytes written are the buffer's, and no other byte of memory changes. */
  lemma {:induction false} WrittenBytes(m: Ram, dir: nat, va: u32, bs: seq<byte>, n: nat, p: nat, o: nat)
    requires dir + 4 <= RAM_PAGES && n <= |bs| && p < RAM_PAGES && o < BLK_SIZE && Distinct(m, dir, va, n)
    ensures forall k: nat :: k < n && PageAt(m, dir, va, k) == p && Offset(va, k) == o ==>
            Poked(m, dir, va, bs, n)[p][o] == bs[k]
    ensures !Held(m, dir, va, n, p, o) ==> Poked(m, dir, va, bs, n)[p][o] == m[p][o]
  {
    hide PageAt, Offset, Poke;
    if n > 0 {
      WrittenBytes(m, dir, va, bs, n - 1, p, o);
      VirtualPage(va, n - 1);
      PokeReadBack(Poked(m, dir, va, bs, n - 1), PageAt(m, dir, va, n - 1), Offset(va, n - 1), bs[n - 1], p, o);
      if PageAt(m, dir, va, n - 1) == p && Offset(va, n - 1) == o {
        assert Held(m, dir, va, n, p, o);
      } else if Held(m, dir, va, n - 1, p, o) {
        var k: nat :| k < n - 1 && PageAt(m, dir, va, k) == p && Offset(va, k) == o;
        assert Held(m, dir, va, n, p, o);
      }
    }
  }

  lemma PokeReadBack(m: Ram, p: int, o: nat, b: byte, p': nat, o': nat)
    requires o < BLK_SIZE && p' < RAM_PAGES && o' < BLK_SIZE
    ensures Poke(m, p, o, b)[p'][o'] == if p == p' && o == o' then b else m[p'][o']
  {
  }

  /** WRITE, then READ at the same place: the bytes come back, when the pages are all there and
      in different frames apart from the tables. */
  lemma WriteThenRead(m: Ram, dir: nat, va: u32, bs: seq<byte>, size: nat, k: nat)
    requires dir + 4 <= RAM_PAGES && k < size <= |bs| && Extent(m, dir, va, size, size) && Apart(m, dir, va, size)
             && Distinct(m, dir, va, size)
    ensures var m' := Poked(m, dir, va, bs, size);
            Extent(m', dir, va, size, size) && ByteAt(m', dir, va, k) == bs[k]
  {
    hide PlaceOf, PageNo, Offset, Poked;
    var m' := Poked(m, dir, va, bs, size);
    forall j: nat | j < size ensures PageAt(m', dir, va, j) == PageAt(m, dir, va, j) {
      PokedPlaces(m, dir, va, bs, size, size, j);
    }
    VirtualPage(va, k);
    WrittenBytes(m, dir, va, bs, size, PageAt(m, dir, va, k), Offset(va, k));
  }

  /** The result equals the size exactly when all was copied or only the last chunk's page is
      missing: then physrw reports bytes that it did not copy. */
  lemma CountedIff(m: Ram, dir: nat, va: u32, size: nat, n: nat)
    requires dir + 4 <= RAM_PAGES && Extent(m, dir, va, size, n)
    ensures Counted(va, size, n) == n <==> n == size
    ensures Counted(va, size, n) == size <==> size - n <= 0x1000 - Offset(va, n)
  {
  }

  function NoMemory(): (m: Ram)
    ensures forall p :: 0 <= p < RAM_PAGES ==> m[p] == ZERO_BLOCK
  {
    seq(RAM_PAGES, p => ZERO_BLOCK)
  }

  /** An empty directory and 16 bytes at the start of a page: none is copied and 16 is returned. */
  lemma CountsWhatIsMissing()
    ensures Extent(NoMemory(), 0x10, 0x6000_0000, 16, 0) && Counted(0x6000_0000, 16, 0) == 16
  {
    ZeroBlockWords(0x200);
    assert L1(NoMemory(), 0x10, 0x600) == 0;
    assert PageNo(0x6000_0000, 0) == 0x6_0000;
  }

  /** For a user address of a well-formed directory whose entry is a small page, the place is
      where the walk leads; without a table neither leads anywhere. The walk additionally checks
      permissions, which physrw does not. */
  lemma PlaceIsWalk(m: Ram, dacr: u32, dir: nat, tab: map<nat, nat>, kt: set<nat>, va: u32)
    requires DirOk(m, dir, tab, kt) && va < KERNEL_SPACE_START
    requires var g := va / 0x40_0000; g in tab ==> L2(m, tab[g], va / 0x10_0000 % 4, va / 0x1000 % 256) % 4 == 2
    ensures var place := PlaceOf(m, dir, va / 0x1000);
            && (va / 0x40_0000 !in tab ==> place == Nowhere && Walk(m, dacr, dir, va) == Fault)
            && (place.Frame? && InRam(place.page) && Access(dacr, 1) == 3 ==>
                  Walk(m, dacr, dir, va) == To(RAM_START + 0x1000 * place.page + va % 0x1000))
            && (place.Frame? && InRam(place.page) && Walk(m, dacr, dir, va) != Fault ==>
                  Walk(m, dacr, dir, va) == To(RAM_START + 0x1000 * place.page + va % 0x1000))
  {
    hide L1, L2, Coarse, Access, EntryOk, DirOk, ApOf;
    var g := va / 0x40_0000;
    AddressParts(va, va);
    DirInside(m, dir, tab, kt);
    UserEntry(m, dir, tab, kt, va);
    if g in tab {
      CoarseParts(tab[g], va / 0x10_0000 % 4);
      var e := L2(m, tab[g], va / 0x10_0000 % 4, va / 0x1000 % 256);
      if InRam(TablePage(e)) { FrameAddress(e); }
    } else {
      EmptyGroup(m, dacr, dir, tab, kt, va);
    }
  }

  lemma FrameAddress(e: u32)
    requires InRam(TablePage(e))
    ensures e / 0x1000 * 0x1000 == RAM_START + 0x1000 * TablePage(e)
  {
  }
}
