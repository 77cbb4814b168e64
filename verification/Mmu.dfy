/** Two-level page tables as the ARM920T reads them (ARM DDI 0151, section 3.3), and the
    code that writes them (kernel/page/fault.c, kernel/task.c, lib/klib/mmu.c). */
module PageTables {
  import opened Bytes
  import Buddies

  const RAM_START: u32 := 0x3000_0000
  const RAM_PAGES := 0x4000
  const KERNEL_SPACE_START: u32 := 0xC000_0000
  const KERNEL_L1 := 0xC00

  /** DOMAIN_SYS | TTB0_COARSE, AP_FAULT_ALL | CB | TTB1_SPG, and what goes with a page. */
  const COARSE_ATTR := 0x31
  const FILL: u32 := 0xE
  const SPG_ATTR := 0xE
  const AP_RW_ALL := 0xFF0
  const AP_USR_RO_ALL := 0xAA0

  /** DOMAIN_FAULT | NCNB | TTB0_COARSE: an empty entry of a process's directory. */
  const EMPTY: u32 := 0x11

  /** The 64 MB of RAM by pages of 4 KB. */
  type Ram = m: seq<Block> | |m| == RAM_PAGES witness ZeroPages(RAM_PAGES)

  function ZeroPages(n: nat): (m: seq<Block>)
    ensures |m| == n
  {
    if n == 0 then [] else ZeroPages(n - 1) + [ZERO_BLOCK]
  }

  // ---- the walk ----

  /** Entry i of the 16 KB directory that starts at page dir. */
  function L1(m: Ram, dir: nat, i: nat): u32
    requires dir + 4 <= RAM_PAGES && i < 4096
  {
    Word(m[dir + i / 1024], i % 1024)
  }

  /** Entry j of the coarse table in quarter q of page t. */
  function L2(m: Ram, t: nat, q: nat, j: nat): u32
    requires t < RAM_PAGES && q < 4 && j < 256
  {
    Word(m[t], 256 * q + j)
  }

  /** The two bits of the domain access control register for a domain: 0 no access, 1 client,
      3 manager. */
  function Access(dacr: u32, domain: nat): nat {
    dacr / Pow2(2 * domain) % 4
  }

  /** set_domain of start_mmu (lib/klib/mmu.c:93). */
  const BOOT_DACR: u32 := 0x5555_555C

  datatype Translation = Fault | To(pa: u32)

  /** A client is checked against access permission bits, and 00 grants nothing; a manager
      is not checked. */
  function Granted(access: nat, ap: nat, pa: u32): Translation {
    if access == 3 || (access == 1 && ap != 0) then To(pa) else Fault
  }

  /** The access permission bits of the k-th quarter of a page. */
  function ApOf(e: u32, k: nat): nat {
    if k == 0 then e / 0x10 % 4 else if k == 1 then e / 0x40 % 4 else if k == 2 then e / 0x100 % 4 else e / 0x400 % 4
  }

  /** What second-level descriptor e makes of address va: a large page, a small page, or a
      fault. (Tiny pages belong to fine tables.) */
  function Leaf(e: u32, access: nat, va: u32): Translation {
    if e % 4 == 1 then Granted(access, ApOf(e, va / 0x4000 % 4), e / 0x1_0000 * 0x1_0000 + va % 0x1_0000)
    else if e % 4 == 2 then Granted(access, ApOf(e, va / 0x400 % 4), e / 0x1000 * 0x1000 + va % 0x1000)
    else Fault
  }

  /** Page and quarter of the coarse table a first-level descriptor names. */
  function TablePage(d: u32): int {
    d / 0x1000 - RAM_START / 0x1000
  }

  predicate InRam(t: int) {
    0 <= t < RAM_PAGES
  }

  /** What first-level descriptor d makes of address va. Fine tables are not part of this
      model: the kernel makes none. A table outside RAM is an external abort. */
  function Descend(m: Ram, dacr: u32, d: u32, va: u32): Translation {
    var access := Access(dacr, d / 32 % 16);
    if d % 4 == 2 then Granted(access, d / 0x400 % 4, d / 0x10_0000 * 0x10_0000 + va % 0x10_0000)
    else if d % 4 == 1 && access != 0 && InRam(TablePage(d)) then
      Leaf(L2(m, TablePage(d), d / 0x400 % 4, va / 0x1000 % 256), access, va)
    else Fault
  }

  function Walk(m: Ram, dacr: u32, dir: nat, va: u32): Translation
    requires dir + 4 <= RAM_PAGES
  {
    Descend(m, dacr, L1(m, dir, va / 0x10_0000), va)
  }

  /** Through a coarse table and a small page entry e an address keeps its lowest 12 bits, when the domain is a
      manager or a client that the entry grants something in that quarter of the page. */
  lemma SmallPageWalk(m: Ram, dacr: u32, dir: nat, va: u32, d: u32, t: nat, e: u32, f: nat)
    requires dir + 4 <= RAM_PAGES && t < RAM_PAGES && d == L1(m, dir, va / 0x10_0000)
    requires d % 4 == 1 && d / 0x1000 == 0x3_0000 + t
    requires e == L2(m, t, d / 0x400 % 4, va / 0x1000 % 256) && e % 4 == 2
    requires f < 0x10_0000 && 0x1000 * f <= e < 0x1000 * f + 0x1000
    ensures var access, q := Access(dacr, d / 32 % 16), va / 0x400 % 4;
            var ap := if q == 0 then e / 0x10 else if q == 1 then e / 0x40 else if q == 2 then e / 0x100 else e / 0x400;
            Walk(m, dacr, dir, va) ==
            if access == 3 || (access == 1 && ap % 4 != 0) then To(0x1000 * f + va % 0x1000) else Fault
  {
    hide L1, L2, Access;
    assert e / 0x1000 * 0x1000 == 0x1000 * f;
  }

  /** A section entry keeps the lowest 20 bits. */
  lemma SectionWalk(m: Ram, dacr: u32, dir: nat, va: u32, d: u32)
    requires dir + 4 <= RAM_PAGES && d == L1(m, dir, va / 0x10_0000) && d % 4 == 2
    ensures var access := Access(dacr, d / 32 % 16);
            Walk(m, dacr, dir, va) == if access == 3 || (access == 1 && d / 0x400 % 4 != 0)
                                      then To(d / 0x10_0000 * 0x10_0000 + va % 0x10_0000) else Fault
  {
    hide L1, Access;
  }

  /** As the system runs: no access through domain 0, domain 1 is a manager, domain 2 a
      client. */
  lemma BootDomains()
    ensures Access(BOOT_DACR, 0) == 0 && Access(BOOT_DACR, 1) == 3 && Access(BOOT_DACR, 2) == 1
  {
    assert Pow2(0) == 1 && Pow2(2) == 4 && Pow2(4) == 16;
  }

  // ---- entries ----

  /** The entry that names quarter q of page t as a coarse table. */
  function Coarse(t: nat, q: nat): (d: u32)
    requires t < RAM_PAGES && q < 4
  {
    RAM_START + 0x1000 * t + 0x400 * q + COARSE_ATTR
  }

  lemma CoarseParts(t: nat, q: nat)
    requires t < RAM_PAGES && q < 4
    ensures var d := Coarse(t, q);
            d % 4 == 1 && d / 32 % 16 == 1 && TablePage(d) == t && d / 0x400 % 4 == q && d / 0x400 != 0
  {
    var p, c := RAM_START / 0x1000 + t, 0x400 * q + COARSE_ATTR;
    assert Coarse(t, q) == 0x1000 * p + c;
    LowPart(p, c);
    Low32(p, c);
    CoarseLow(q);
  }

  lemma CoarseLow(q: nat)
    requires q < 4
    ensures var c := 0x400 * q + COARSE_ATTR;
            c < 0x1000 && c % 4 == 1 && c / 32 % 16 == 1 && c / 0x400 % 4 == q
  {
    assert q == 0 || q == 1 || q == 2 || q == 3;
  }

  lemma Low32(p: nat, c: nat)
    ensures (0x1000 * p + c) / 32 % 16 == c / 32 % 16
  {
    assert (0x1000 * p + c) / 32 == 16 * (8 * p) + c / 32;
    SixteenTimes(8 * p, c / 32);
  }

  lemma SixteenTimes(a: nat, b: nat)
    ensures (16 * a + b) % 16 == b % 16
  {
  }

  /** A small page entry for the page at pa with the same permissions throughout. */
  function Small(pa: u32, ap: nat): (e: u32)
    requires pa % 0x1000 == 0 && (ap == AP_RW_ALL || ap == AP_USR_RO_ALL)
  {
    pa + ap + SPG_ATTR
  }

  lemma FourTimes(a: nat, b: nat)
    ensures (4 * a + b) % 4 == b % 4
  {
  }

  lemma LowPart(p: nat, c: nat)
    requires c < 0x1000
    ensures var e := 0x1000 * p + c;
            && e % 4 == c % 4 && e / 0x1000 == p
            && e / 0x10 % 4 == c / 0x10 % 4 && e / 0x40 % 4 == c / 0x40 % 4
            && e / 0x100 % 4 == c / 0x100 % 4 && e / 0x400 % 4 == c / 0x400 % 4
  {
    Low16(p, c);
    Low64(p, c);
    Low256(p, c);
    Low1024(p, c);
    FourTimes(0x400 * p, c);
  }

  lemma Low16(p: nat, c: nat)
    ensures (0x1000 * p + c) / 0x10 % 4 == c / 0x10 % 4
  {
    assert (0x1000 * p + c) / 0x10 == 4 * (0x40 * p) + c / 0x10;
    FourTimes(0x40 * p, c / 0x10);
  }

  lemma Low64(p: nat, c: nat)
    ensures (0x1000 * p + c) / 0x40 % 4 == c / 0x40 % 4
  {
    assert (0x1000 * p + c) / 0x40 == 4 * (0x10 * p) + c / 0x40;
    FourTimes(0x10 * p, c / 0x40);
  }

  lemma Low256(p: nat, c: nat)
    ensures (0x1000 * p + c) / 0x100 % 4 == c / 0x100 % 4
  {
    assert (0x1000 * p + c) / 0x100 == 4 * (4 * p) + c / 0x100;
    FourTimes(4 * p, c / 0x100);
  }

  lemma Low1024(p: nat, c: nat)
    ensures (0x1000 * p + c) / 0x400 % 4 == c / 0x400 % 4
  {
    assert (0x1000 * p + c) / 0x400 == 4 * p + c / 0x400;
    FourTimes(p, c / 0x400);
  }

  lemma SmallParts(pa: u32, ap: nat, k: nat)
    requires pa % 0x1000 == 0 && (ap == AP_RW_ALL || ap == AP_USR_RO_ALL) && k < 4
    ensures Small(pa, ap) % 4 == 2 && Small(pa, ap) / 0x1000 * 0x1000 == pa && ApOf(Small(pa, ap), k) != 0
  {
    LowPart(pa / 0x1000, ap + SPG_ATTR);
    assert Small(pa, ap) == 0x1000 * (pa / 0x1000) + (ap + SPG_ATTR);
  }

  lemma SmallWord(pa: u32, ap: nat)
    requires pa % 0x1000 == 0 && (ap == AP_RW_ALL || ap == AP_USR_RO_ALL)
    ensures Small(pa, ap) == pa + ap + 0xE
  {
  }

  lemma SmallLeaf(pa: u32, ap: nat, access: nat, va: u32)
    requires pa % 0x1000 == 0 && (ap == AP_RW_ALL || ap == AP_USR_RO_ALL) && (access == 1 || access == 3)
    ensures Leaf(Small(pa, ap), access, va) == To(pa + va % 0x1000)
  {
    hide ApOf, Small;
    SmallParts(pa, ap, va / 0x400 % 4);
    SmallParts(pa, ap, va / 0x4000 % 4);
  }

  /** The entries a new table is filled with fault for a client, and lead a manager to the
      first page of the address space. */
  lemma FillLeaf(access: nat, va: u32)
    ensures Leaf(FILL, access, va) == if access == 3 then To(va % 0x1000) else Fault
  {
    assert FILL / 0x10 == 0 && FILL / 0x40 == 0 && FILL / 0x100 == 0 && FILL / 0x400 == 0;
  }

  // ---- stores ----

  function SetL1(m: Ram, dir: nat, i: nat, w: u32): (m': Ram)
    requires dir + 4 <= RAM_PAGES && i < 4096
  {
    m[dir + i / 1024 := SetWord(m[dir + i / 1024], i % 1024, w)]
  }

  lemma SetL1ReadBack(m: Ram, dir: nat, i: nat, w: u32, k: nat)
    requires dir + 4 <= RAM_PAGES && i < 4096 && k < 4096
    ensures L1(SetL1(m, dir, i, w), dir, k) == if k == i then w else L1(m, dir, k)
    ensures forall p: nat :: p < RAM_PAGES && !(dir <= p < dir + 4) ==> SetL1(m, dir, i, w)[p] == m[p]
  {
    if k / 1024 == i / 1024 {
      SetWordReadBack(m[dir + i / 1024], i % 1024, w, k % 1024);
    }
  }

  function SetL2(m: Ram, t: nat, q: nat, j: nat, w: u32): (m': Ram)
    requires t < RAM_PAGES && q < 4 && j < 256
  {
    m[t := SetWord(m[t], 256 * q + j, w)]
  }

  lemma SetL2ReadBack(m: Ram, t: nat, q: nat, j: nat, w: u32, t': nat, q': nat, j': nat)
    requires t < RAM_PAGES && q < 4 && j < 256 && t' < RAM_PAGES && q' < 4 && j' < 256
    ensures L2(SetL2(m, t, q, j, w), t', q', j') == if t' == t && q' == q && j' == j then w else L2(m, t', q', j')
  {
    if t' == t {
      SetWordReadBack(m[t], 256 * q + j, w, 256 * q' + j');
    }
  }

  /** Block b after its first n words became w. */
  function PutFirst(b: Block, n: nat, w: u32): (r: Block)
    requires n <= 1024
  {
    if n == 0 then b else SetWord(PutFirst(b, n - 1, w), n - 1, w)
  }

  lemma {:induction false} PutFirstBytes(b: Block, c: Block, n: nat, w: u32)
    requires n <= 1024
    ensures forall k :: 0 <= k < 4 * n ==> PutFirst(b, n, w)[k] == PutFirst(c, n, w)[k]
  {
    if n > 0 { PutFirstBytes(b, c, n - 1, w); }
  }

  /** wordset of a whole page (lib/klib/mmu.c:53), as a block. */
  function Words(w: u32): (b: Block) {
    PutFirst(ZERO_BLOCK, 1024, w)
  }

  /** After all 1024 words what the block held before is gone. */
  lemma PutAll(b: Block, w: u32)
    ensures PutFirst(b, 1024, w) == Words(w)
  {
    PutFirstBytes(b, ZERO_BLOCK, 1024, w);
    assert PutFirst(b, 1024, w) == PutFirst(ZERO_BLOCK, 1024, w);
  }

  lemma {:induction false} WordsReadBack(b: Block, n: nat, w: u32, k: nat)
    requires k < n <= 1024
    ensures Word(PutFirst(b, n, w), k) == w
  {
    SetWordReadBack(PutFirst(b, n - 1, w), n - 1, w, k);
    if k < n - 1 { WordsReadBack(b, n - 1, w, k); }
  }

  // ---- the invariant of a directory ----

  /** An entry of the directory: in a group with a table page it names its quarter of that
      page; elsewhere it is empty. Kernel entries may also be sections, or name tables in
      the pages kt. */
  ghost predicate EntryOk(d: u32, i: nat, tab: map<nat, nat>, kt: set<nat>)
    requires forall g :: g in tab ==> tab[g] < RAM_PAGES
  {
    if i / 4 in tab then d == Coarse(tab[i / 4], i % 4) || (i >= KERNEL_L1 && d % 4 == 2)
    else d == 0 || d == EMPTY
         || (i >= KERNEL_L1 && (d % 4 == 2 || (d % 4 == 1 && TablePage(d) in kt && d / 0x400 != 0)))
  }

  /** Each aligned group of four entries is empty or names the four 1 KB quarters of one
      page, and different groups use different pages. */
  ghost predicate DirOk(m: Ram, dir: nat, tab: map<nat, nat>, kt: set<nat>) {
    && dir + 4 <= RAM_PAGES
    && (forall g :: g in tab ==> g < 1024 && tab[g] < RAM_PAGES && !(dir <= tab[g] < dir + 4) && tab[g] !in kt)
    && (forall g, h :: g in tab && h in tab && tab[g] == tab[h] ==> g == h)
    && (forall t :: t in kt ==> t < RAM_PAGES && !(dir <= t < dir + 4))
    && (forall i: nat :: i < 4096 ==> EntryOk(L1(m, dir, i), i, tab, kt))
  }

  /** The pages a directory is made of. */
  ghost predicate Part(p: nat, dir: nat, tab: map<nat, nat>, kt: set<nat>) {
    dir <= p < dir + 4 || p in kt || exists g :: g in tab && tab[g] == p
  }

  lemma L1Same(m: Ram, m': Ram, dir: nat, i: nat)
    requires dir + 4 <= RAM_PAGES && i < 4096 && forall p :: dir <= p < dir + 4 ==> m'[p] == m[p]
    ensures L1(m', dir, i) == L1(m, dir, i)
  {
  }

  /** An address space: its directory, the pages of its tables by group, and the pages of
      tables for the kernel's part that were there from the start. */
  datatype Space = Space(dir: nat, tab: map<nat, nat>, kt: set<nat>)

  /** Pages that are no part of a directory have no bearing on its walks. */
  lemma WalkFrame(m: Ram, m': Ram, dacr: u32, dir: nat, tab: map<nat, nat>, kt: set<nat>, va: u32)
    requires DirOk(m, dir, tab, kt) && forall p: nat :: p < RAM_PAGES && Part(p, dir, tab, kt) ==> m'[p] == m[p]
    ensures Walk(m', dacr, dir, va) == Walk(m, dacr, dir, va)
  {
    hide Leaf, Granted, Access;
    var i := va / 0x10_0000;
    assert forall p :: dir <= p < dir + 4 ==> Part(p, dir, tab, kt);
    L1Same(m, m', dir, i);
    var d := L1(m, dir, i);
    assert EntryOk(d, i, tab, kt);
    if i / 4 in tab && d % 4 != 2 {
      CoarseParts(tab[i / 4], i % 4);
      assert Part(tab[i / 4], dir, tab, kt);
    } else if d % 4 == 1 && d != EMPTY {
      assert Part(TablePage(d), dir, tab, kt);
    }
  }

  lemma DirFrame(m: Ram, m': Ram, dir: nat, tab: map<nat, nat>, kt: set<nat>)
    requires DirOk(m, dir, tab, kt) && forall p :: dir <= p < dir + 4 ==> m'[p] == m[p]
    ensures DirOk(m', dir, tab, kt)
  {
    forall i: nat | i < 4096 ensures EntryOk(L1(m', dir, i), i, tab, kt) {
      L1Same(m, m', dir, i);
    }
  }

  // ---- a new table ----

  /** The four stores of kernel/page/fault.c:155-158 (and :72-75, kernel/task.c:84-87). */
  function Quads(m: Ram, dir: nat, g: nat, t: nat): (m': Ram)
    requires dir + 4 <= RAM_PAGES && g < 1024 && t < RAM_PAGES
  {
    SetL1(SetL1(SetL1(SetL1(m, dir, 4 * g, Coarse(t, 0)), dir, 4 * g + 1, Coarse(t, 1)),
                dir, 4 * g + 2, Coarse(t, 2)), dir, 4 * g + 3, Coarse(t, 3))
  }

  lemma QuadsReadBack(m: Ram, dir: nat, g: nat, t: nat, k: nat)
    requires dir + 4 <= RAM_PAGES && g < 1024 && t < RAM_PAGES && k < 4096
    ensures L1(Quads(m, dir, g, t), dir, k) == if k / 4 == g then Coarse(t, k % 4) else L1(m, dir, k)
    ensures forall p: nat :: p < RAM_PAGES && !(dir <= p < dir + 4) ==> Quads(m, dir, g, t)[p] == m[p]
  {
    hide L1, Coarse, SetL1;
    var m1 := SetL1(m, dir, 4 * g, Coarse(t, 0));
    var m2 := SetL1(m1, dir, 4 * g + 1, Coarse(t, 1));
    var m3 := SetL1(m2, dir, 4 * g + 2, Coarse(t, 2));
    SetL1ReadBack(m, dir, 4 * g, Coarse(t, 0), k);
    SetL1ReadBack(m1, dir, 4 * g + 1, Coarse(t, 1), k);
    SetL1ReadBack(m2, dir, 4 * g + 2, Coarse(t, 2), k);
    SetL1ReadBack(m3, dir, 4 * g + 3, Coarse(t, 3), k);
  }

  /** An empty group gets a table page of fault entries. */
  function Tabled(m: Ram, dir: nat, g: nat, t: nat): (m': Ram)
    requires dir + 4 <= RAM_PAGES && g < 1024 && t < RAM_PAGES
  {
    Quads(m[t := Words(FILL)], dir, g, t)
  }

  /** In raw words: the four entries of the group name the four quarters of the table page, which is full of
      fault entries; no other word changes. */
  lemma TabledWords(m: Ram, dir: nat, g: nat, t: nat)
    requires dir + 4 <= RAM_PAGES && g < 1024 && t < RAM_PAGES && !(dir <= t < dir + 4)
    ensures forall k: nat :: k < 4096 ==>
              Word(Tabled(m, dir, g, t)[dir + k / 1024], k % 1024)
              == if k / 4 == g then 0x3000_0000 + 0x1000 * t + 0x400 * (k % 4) + 0x31
                 else Word(m[dir + k / 1024], k % 1024)
    ensures forall j: nat :: j < 1024 ==> Word(Tabled(m, dir, g, t)[t], j) == 0xE
    ensures forall p: nat :: p < RAM_PAGES && p != t && !(dir <= p < dir + 4) ==> Tabled(m, dir, g, t)[p] == m[p]
  {
    hide Word, Quads, Words;
    var m0 := m[t := Words(FILL)];
    forall k: nat | k < 4096
      ensures Word(Tabled(m, dir, g, t)[dir + k / 1024], k % 1024)
              == if k / 4 == g then 0x3000_0000 + 0x1000 * t + 0x400 * (k % 4) + 0x31
                 else Word(m[dir + k / 1024], k % 1024)
    {
      QuadsReadBack(m0, dir, g, t, k);
    }
    QuadsReadBack(m0, dir, g, t, 0);
    assert Tabled(m, dir, g, t)[t] == Words(FILL);
    forall j: nat | j < 1024 ensures Word(Words(FILL), j) == 0xE {
      FillWord(j);
    }
  }

  lemma FillWord(j: nat)
    requires j < 1024
    ensures Word(Words(FILL), j) == 0xE
  {
    WordsReadBack(ZERO_BLOCK, 1024, FILL, j);
  }

  /** What the new table's addresses translate to. */
  function FillWalk(dacr: u32, va: u32): Translation {
    if Access(dacr, 1) == 3 then To(va % 0x1000) else Fault
  }

  lemma TabledDir(m: Ram, dir: nat, tab: map<nat, nat>, kt: set<nat>, g: nat, t: nat)
    requires DirOk(m, dir, tab, kt) && g < 1024 && g !in tab && t < RAM_PAGES && !Part(t, dir, tab, kt)
    ensures DirOk(Tabled(m, dir, g, t), dir, tab[g := t], kt)
  {
    var m' := Tabled(m, dir, g, t);
    forall i: nat | i < 4096 ensures EntryOk(L1(m', dir, i), i, tab[g := t], kt) {
      QuadsReadBack(m[t := Words(FILL)], dir, g, t, i);
      L1Same(m, m[t := Words(FILL)], dir, i);
      assert EntryOk(L1(m, dir, i), i, tab, kt);
    }
  }

  lemma TabledWalk(m: Ram, dacr: u32, dir: nat, tab: map<nat, nat>, kt: set<nat>, g: nat, t: nat, va: u32)
    requires DirOk(m, dir, tab, kt) && g < 1024 && g !in tab && t < RAM_PAGES && !Part(t, dir, tab, kt)
    ensures Walk(Tabled(m, dir, g, t), dacr, dir, va)
         == if va / 0x40_0000 == g then FillWalk(dacr, va) else Walk(m, dacr, dir, va)
  {
    hide Access, L1, L2, Words, EntryOk;
    var m0, i := m[t := Words(FILL)], va / 0x10_0000;
    var m' := Tabled(m, dir, g, t);
    QuadsReadBack(m0, dir, g, t, i);
    L1Same(m, m0, dir, i);
    if i / 4 == g {
      CoarseParts(t, i % 4);
      FillL2(m', t, i % 4, va / 0x1000 % 256);
      FillLeaf(Access(dacr, 1), va);
    } else {
      OtherGroup(m, m', dacr, dir, tab, kt, t, va);
    }
  }

  lemma FillL2(m: Ram, t: nat, q: nat, j: nat)
    requires t < RAM_PAGES && q < 4 && j < 256 && m[t] == Words(FILL)
    ensures L2(m, t, q, j) == FILL
  {
    WordsReadBack(ZERO_BLOCK, 1024, FILL, 256 * q + j);
  }

  /** An entry that did not change, and whose table page did not either. */
  lemma OtherGroup(m: Ram, m': Ram, dacr: u32, dir: nat, tab: map<nat, nat>, kt: set<nat>, t: nat, va: u32)
    requires DirOk(m, dir, tab, kt) && !Part(t, dir, tab, kt)
    requires L1(m', dir, va / 0x10_0000) == L1(m, dir, va / 0x10_0000)
    requires forall p: nat :: p < RAM_PAGES && !(dir <= p < dir + 4) && p != t ==> m'[p] == m[p]
    ensures Walk(m', dacr, dir, va) == Walk(m, dacr, dir, va)
  {
    hide Leaf, Granted, Access;
    var i := va / 0x10_0000;
    var d := L1(m, dir, i);
    assert EntryOk(d, i, tab, kt);
    if i / 4 in tab && d % 4 != 2 {
      CoarseParts(tab[i / 4], i % 4);
      assert Part(tab[i / 4], dir, tab, kt);
    } else if d % 4 == 1 && d != EMPTY {
      assert Part(TablePage(d), dir, tab, kt);
    }
  }

  // ---- one page mapped ----

  /** Memory after the second-level entry of va in table page t became w. */
  function Mapped(m: Ram, t: nat, va: u32, w: u32): (m': Ram)
    requires t < RAM_PAGES
  {
    SetL2(m, t, va / 0x10_0000 % 4, va / 0x1000 % 256, w)
  }

  /** Page p was cleared and became the page of va in table page t. */
  ghost predicate PageGiven(m: Ram, m': Ram, t: nat, va: u32, p: nat) {
    && t < RAM_PAGES && p < RAM_PAGES
    && m' == Mapped(m[p := ZERO_BLOCK], t, va, Small(RAM_START + 0x1000 * p, AP_RW_ALL))
  }

  /** The page of va translates by the new entry; every other page translates as before. */
  lemma AddressParts(va: u32, v: u32)
    ensures va / 0x40_0000 == va / 0x10_0000 / 4
    ensures v / 0x1000 == va / 0x1000 <==> v / 0x10_0000 == va / 0x10_0000 && v / 0x1000 % 256 == va / 0x1000 % 256
  {
    assert va / 0x10_0000 == va / 0x1000 / 256 && v / 0x10_0000 == v / 0x1000 / 256;
  }

  lemma MappedWalk(m: Ram, dacr: u32, dir: nat, tab: map<nat, nat>, kt: set<nat>, va: u32, w: u32, v: u32)
    requires DirOk(m, dir, tab, kt) && va / 0x40_0000 in tab && L1(m, dir, va / 0x10_0000) % 4 == 1
    ensures Walk(Mapped(m, tab[va / 0x40_0000], va, w), dacr, dir, v)
         == if v / 0x1000 == va / 0x1000 then (if Access(dacr, 1) == 0 then Fault else Leaf(w, Access(dacr, 1), v))
            else Walk(m, dacr, dir, v)
  {
    hide Access, Leaf, Granted, L1, L2, SetL2;
    var i, i', t := va / 0x10_0000, v / 0x10_0000, tab[va / 0x40_0000];
    AddressParts(va, v);
    var m' := Mapped(m, t, va, w);
    MappedPages(m, t, va, w);
    L1Same(m, m', dir, i');
    assert EntryOk(L1(m, dir, i), i, tab, kt);
    CoarseParts(t, i % 4);
    MappedDescend(m, dacr, dir, tab, kt, va, w, v, L1(m, dir, i'));
  }

  lemma MappedPages(m: Ram, t: nat, va: u32, w: u32)
    requires t < RAM_PAGES
    ensures forall p: nat :: p < RAM_PAGES && p != t ==> Mapped(m, t, va, w)[p] == m[p]
  {
  }

  lemma MappedDescend(m: Ram, dacr: u32, dir: nat, tab: map<nat, nat>, kt: set<nat>, va: u32, w: u32, v: u32, d: u32)
    requires DirOk(m, dir, tab, kt) && va / 0x40_0000 in tab && d == L1(m, dir, v / 0x10_0000)
    requires L1(m, dir, va / 0x10_0000) == Coarse(tab[va / 0x40_0000], va / 0x10_0000 % 4)
    ensures Descend(Mapped(m, tab[va / 0x40_0000], va, w), dacr, d, v)
         == if v / 0x1000 == va / 0x1000 then (if Access(dacr, 1) == 0 then Fault else Leaf(w, Access(dacr, 1), v))
            else Descend(m, dacr, d, v)
  {
    hide Access, Leaf, Granted, L1, L2, SetL2, Coarse;
    var q, j, t, i' := va / 0x10_0000 % 4, va / 0x1000 % 256, tab[va / 0x40_0000], v / 0x10_0000;
    AddressParts(va, v);
    CoarseParts(t, q);
    assert EntryOk(d, i', tab, kt);
    if i' / 4 in tab && d % 4 != 2 {
      CoarseParts(tab[i' / 4], i' % 4);
      SetL2ReadBack(m, t, q, j, w, tab[i' / 4], i' % 4, v / 0x1000 % 256);
    } else if d % 4 == 1 && d != EMPTY {
      SetL2ReadBack(m, t, q, j, w, TablePage(d), d / 0x400 % 4, v / 0x1000 % 256);
    }
  }

  lemma MappedDir(m: Ram, dir: nat, tab: map<nat, nat>, kt: set<nat>, va: u32, w: u32)
    requires DirOk(m, dir, tab, kt) && va / 0x40_0000 in tab
    ensures DirOk(Mapped(m, tab[va / 0x40_0000], va, w), dir, tab, kt)
  {
    DirFrame(m, Mapped(m, tab[va / 0x40_0000], va, w), dir, tab, kt);
  }

  /** An address below the kernel: its group either is empty or has a table page. */
  lemma UserEntry(m: Ram, dir: nat, tab: map<nat, nat>, kt: set<nat>, va: u32)
    requires DirOk(m, dir, tab, kt) && va < KERNEL_SPACE_START
    ensures var i := va / 0x10_0000;
            if i / 4 in tab then L1(m, dir, i) == Coarse(tab[i / 4], i % 4) && L1(m, dir, i) / 0x400 != 0
            else forall k: nat :: k < 4096 && k / 4 == i / 4 ==> L1(m, dir, k) / 0x400 == 0
  {
    var i := va / 0x10_0000;
    assert EntryOk(L1(m, dir, i), i, tab, kt);
    if i / 4 in tab { CoarseParts(tab[i / 4], i % 4); }
    forall k: nat | k < 4096 && k / 4 == i / 4 && i / 4 !in tab ensures L1(m, dir, k) / 0x400 == 0 {
      assert EntryOk(L1(m, dir, k), k, tab, kt);
    }
  }

  /** The entry of a user address in a group with a table, in the words of the directory. */
  lemma GroupWord(m: Ram, dir: nat, tab: map<nat, nat>, kt: set<nat>, va: u32)
    requires DirOk(m, dir, tab, kt) && va < KERNEL_SPACE_START && va / 0x40_0000 in tab
    ensures Word(m[dir + va / 0x4000_0000], va / 0x10_0000 % 1024)
         == 0x3000_0000 + 0x1000 * tab[va / 0x40_0000] + 0x400 * (va / 0x10_0000 % 4) + 0x31
  {
    hide Word;
    UserEntry(m, dir, tab, kt, va);
    assert va / 0x10_0000 / 1024 == va / 0x4000_0000 && va / 0x10_0000 / 4 == va / 0x40_0000;
  }

  // ---- the machine ----

  /** The page lies below the paging area or is held by the page allocator. */
  ghost predicate InUse(at: seq<Buddies.Block>, p: nat) {
    p < 0x400 || (p - 0x400 < |at| && at[p - 0x400].held)
  }

  ghost predicate Claimed(at: seq<Buddies.Block>, dir: nat, tab: map<nat, nat>, kt: set<nat>) {
    forall p: nat :: Part(p, dir, tab, kt) ==> InUse(at, p)
  }

  /** From memory m and allocator state at to m' and at' only the directory dir and its tables
      changed among the pages in use; its new tables are pages that nobody used, and what was
      held still is. */
  ghost predicate OwnOnly(m: Ram, at: seq<Buddies.Block>, m': Ram, at': seq<Buddies.Block>,
                          dir: nat, tab: map<nat, nat>, tab': map<nat, nat>)
  {
    && |at'| == |at| && (forall x :: 0 <= x < |at| && at[x].held ==> at'[x] == at[x])
    && (forall p: nat :: p < RAM_PAGES && InUse(at, p) && !Part(p, dir, tab, {}) ==> m'[p] == m[p])
    && (forall g :: g in tab ==> g in tab' && tab'[g] == tab[g])
    && (forall g :: g in tab' && g !in tab ==> !InUse(at, tab'[g]))
  }

  lemma OwnOnlyTwice(m: Ram, at: seq<Buddies.Block>, m1: Ram, at1: seq<Buddies.Block>, m2: Ram, at2: seq<Buddies.Block>,
                     dir: nat, tab: map<nat, nat>, tab1: map<nat, nat>, tab2: map<nat, nat>)
    requires OwnOnly(m, at, m1, at1, dir, tab, tab1) && OwnOnly(m1, at1, m2, at2, dir, tab1, tab2)
    ensures OwnOnly(m, at, m2, at2, dir, tab, tab2)
  {
    forall p: nat | p < RAM_PAGES && InUse(at, p) && !Part(p, dir, tab, {}) ensures m2[p] == m[p] {
      assert !Part(p, dir, tab1, {});
    }
  }

  /** Stores into the directory or its tables. */
  lemma OwnStores(m: Ram, m': Ram, at: seq<Buddies.Block>, dir: nat, tab: map<nat, nat>)
    requires forall p: nat :: p < RAM_PAGES && !Part(p, dir, tab, {}) ==> m'[p] == m[p]
    ensures OwnOnly(m, at, m', at, dir, tab, tab)
  {
  }

  /** A page that nobody used was taken and filled. */
  lemma OwnNewPage(m: Ram, m': Ram, at: seq<Buddies.Block>, at': seq<Buddies.Block>, dir: nat, tab: map<nat, nat>,
                   t: nat)
    requires t >= 0x400 && Buddies.Allocated(at, at', t - 0x400, 1, Buddies.Block(t - 0x400, 0, true))
    requires forall p: nat :: p < RAM_PAGES && p != t ==> m'[p] == m[p]
    ensures OwnOnly(m, at, m', at', dir, tab, tab) && !InUse(at, t)
  {
  }

  lemma ClaimedLater(at: seq<Buddies.Block>, at': seq<Buddies.Block>, dir: nat, tab: map<nat, nat>, kt: set<nat>,
                     s: nat, b: Buddies.Block)
    requires Claimed(at, dir, tab, kt) && Buddies.Allocated(at, at', s, 1, b)
    ensures Claimed(at', dir, tab, kt) && !Part(s + 0x400, dir, tab, kt)
  {
    assert !at[s].held;
  }

  lemma ClaimedTable(at: seq<Buddies.Block>, dir: nat, tab: map<nat, nat>, kt: set<nat>, g: nat, t: nat)
    requires Claimed(at, dir, tab, kt) && g !in tab && InUse(at, t)
    ensures Claimed(at, dir, tab[g := t], kt)
  {
    var tab' := tab[g := t];
    forall p: nat | Part(p, dir, tab', kt) ensures InUse(at, p) {
      PartTable(p, dir, tab, kt, g, t);
    }
  }

  lemma PartTable(p: nat, dir: nat, tab: map<nat, nat>, kt: set<nat>, g: nat, t: nat)
    requires Part(p, dir, tab[g := t], kt)
    ensures p == t || Part(p, dir, tab, kt)
  {
    var tab' := tab[g := t];
    if !(dir <= p < dir + 4 || p in kt) {
      var h :| h in tab' && tab'[h] == p;
      assert h == g || (h in tab && tab[h] == p);
    }
  }

  /** Every table page came out of the free pages. */
  ghost predicate Paid(at: seq<Buddies.Block>, tab: map<nat, nat>, at': seq<Buddies.Block>, tab': map<nat, nat>) {
    |Buddies.FreePages(at)| + |tab| == |Buddies.FreePages(at')| + |tab'|
  }

  lemma PaidNone(at: seq<Buddies.Block>, tab: map<nat, nat>)
    ensures Paid(at, tab, at, tab)
  {
  }

  lemma PaidOne(at: seq<Buddies.Block>, at': seq<Buddies.Block>, tab: map<nat, nat>, g: nat, t: nat)
    requires g !in tab && Buddies.Allocated(at, at', t - 0x400, 1, Buddies.Block(t - 0x400, 0, true))
    ensures Paid(at, tab, at', tab[g := t])
  {
    OneLessFree(at, at', t - 0x400);
  }

  lemma OneLessFree(at: seq<Buddies.Block>, at': seq<Buddies.Block>, s: int)
    requires Buddies.Allocated(at, at', s, 1, Buddies.Block(s, 0, true))
    ensures |Buddies.FreePages(at)| == |Buddies.FreePages(at')| + 1
  {
    Buddies.Conservation(at, at', s, 1, Buddies.Block(s, 0, true));
  }

  lemma AllocatedInside(at: seq<Buddies.Block>, at': seq<Buddies.Block>, s: int)
    requires Buddies.Allocated(at, at', s, 1, Buddies.Block(s, 0, true))
    ensures 0 <= s < |at| == |at'| && !at[s].held && at'[s].held
    ensures forall x :: 0 <= x < |at| && at[x].held ==> at'[x].held
  {
  }

  lemma OwnNewTable(m: Ram, at: seq<Buddies.Block>, at': seq<Buddies.Block>, dir: nat, tab: map<nat, nat>, g: nat,
                    t: nat)
    requires dir + 4 <= RAM_PAGES && 0x400 <= t < RAM_PAGES && g < 1024 && g !in tab && !(dir <= t < dir + 4)
    requires Buddies.Allocated(at, at', t - 0x400, 1, Buddies.Block(t - 0x400, 0, true))
    ensures OwnOnly(m, at, Tabled(m, dir, g, t), at', dir, tab, tab[g := t])
    ensures OtherGroups(m, Tabled(m, dir, g, t), dir, g)
  {
    hide L1, Coarse, Words, Quads;
    var m0 := m[t := Words(FILL)];
    QuadsReadBack(m0, dir, g, t, 0);
    forall k: nat | k < 4096 && k / 4 != g ensures L1(Tabled(m, dir, g, t), dir, k) == L1(m, dir, k) {
      QuadsReadBack(m0, dir, g, t, k);
      L1Same(m, m0, dir, k);
    }
  }

  /** The entry of va in one of the tables is stored, after page p, which is no part of the
      directory, may have been filled. */
  lemma OwnMapped(m: Ram, m1: Ram, at: seq<Buddies.Block>, dir: nat, tab: map<nat, nat>, va: u32, w: u32)
    requires dir + 4 <= RAM_PAGES && va / 0x40_0000 in tab && tab[va / 0x40_0000] < RAM_PAGES
    requires !(dir <= tab[va / 0x40_0000] < dir + 4) && forall p: nat :: dir <= p < dir + 4 ==> m1[p] == m[p]
    ensures OwnOnly(m1, at, Mapped(m1, tab[va / 0x40_0000], va, w), at, dir, tab, tab)
    ensures OtherGroups(m, Mapped(m1, tab[va / 0x40_0000], va, w), dir, va / 0x40_0000)
  {
    hide L1;
    var t := tab[va / 0x40_0000];
    MappedPages(m1, t, va, w);
    assert Part(t, dir, tab, {});
    OwnStores(m1, Mapped(m1, t, va, w), at, dir, tab);
    forall k: nat | k < 4096 ensures L1(Mapped(m1, t, va, w), dir, k) == L1(m, dir, k) {
      L1Same(m, Mapped(m1, t, va, w), dir, k);
    }
  }

  /** The entry of va, in the words of its table. */
  lemma MappedWord(m: Ram, t: nat, va: u32, w: u32)
    requires t < RAM_PAGES
    ensures Word(Mapped(m, t, va, w)[t], 256 * (va / 0x10_0000 % 4) + va / 0x1000 % 256) == w
  {
    hide Word;
    SetWordReadBack(m[t], 256 * (va / 0x10_0000 % 4) + va / 0x1000 % 256, w,
                    256 * (va / 0x10_0000 % 4) + va / 0x1000 % 256);
  }

  /** Table pages and new pages are not pages of the directory. */
  lemma DirPages(m: Ram, dir: nat, tab: map<nat, nat>, kt: set<nat>)
    requires DirOk(m, dir, tab, kt)
    ensures forall g :: g in tab ==> !(dir <= tab[g] < dir + 4)
    ensures forall p: nat :: dir <= p < dir + 4 ==> Part(p, dir, tab, kt)
  {
  }

  lemma SameGroups(m: Ram, dir: nat, g: nat)
    requires dir + 4 <= RAM_PAGES
    ensures OtherGroups(m, m, dir, g)
  {
  }

  lemma OtherGroupsTwice(m: Ram, m1: Ram, m2: Ram, dir: nat, g: nat)
    requires dir + 4 <= RAM_PAGES && OtherGroups(m, m1, dir, g) && OtherGroups(m1, m2, dir, g)
    ensures OtherGroups(m, m2, dir, g)
  {
    hide L1;
  }

  datatype FaultResult = Resolved | NoMemory | BadFault

  /** Corrupt and OutOfMemory are the two panics of share_kernel_space. */
  datatype ShareResult = AllShared | OutOfMemory | Corrupt

  class Machine {
    const ram: array<Block>
    const buddy: Buddies.BuddyLists

    constructor (ram: array<Block>, buddy: Buddies.BuddyLists)
      ensures this.ram == ram && this.buddy == buddy
    {
      this.ram, this.buddy := ram, buddy;
    }

    ghost predicate Valid()
      reads this, ram, buddy.Repr()
    {
      && ram.Length == RAM_PAGES && ram !in buddy.Repr()
      && buddy.Valid() && buddy.n == Buddies.KERNEL_PAGE_NUM == |buddy.at|
    }

    /** find_free_page as a page of RAM, its bytes cleared; no page exactly when none is free. */
    method GetPage() returns (ok: bool, t: nat)
      requires Valid()
      modifies ram, buddy.links, buddy.page, buddy`at, buddy`runs
      ensures Valid()
      ensures !ok <==> Buddies.FreePages(old(buddy.at)) == {}
      ensures !ok ==> buddy.at == old(buddy.at) && ram[..] == old(ram[..])
      ensures ok ==> 0x400 <= t < RAM_PAGES && ram[..] == old(ram[..])[t := ZERO_BLOCK]
      ensures ok ==> Buddies.Allocated(old(buddy.at), buddy.at, t - 0x400, 1, Buddies.Block(t - 0x400, 0, true))
    {
      hide Buddies.BuddyLists.Shaped, Buddies.Allocated, Buddies.FreePages;
      ghost var m := ram[..];
      var addr := buddy.FindFreePage();
      if addr == 0 {
        return false, 0;
      }
      AllocatedInside(old(buddy.at), buddy.at, (addr - Buddies.PAGING_START) / 0x1000);
      t := (addr - KERNEL_SPACE_START) / 0x1000;
      ram[t] := ZERO_BLOCK;
      ok := true;
    }

    /** wordset of a page (lib/klib/mmu.c:53). */
    method FillPage(t: nat, w: u32)
      requires ram.Length == RAM_PAGES && t < RAM_PAGES
      modifies ram
      ensures ram[..] == old(ram[..])[t := Words(w)]
    {
      ghost var m, first := ram[..], ram[t];
      var b := ram[t];
      var i := 0;
      while i < 1024
        invariant i <= 1024 && b == PutFirst(first, i, w)
      {
        b := SetWord(b, i, w);
        i := i + 1;
      }
      PutAll(first, w);
      ram[t] := b;
    }

    method LoadL1(dir: nat, i: nat) returns (d: u32)
      requires ram.Length == RAM_PAGES && dir + 4 <= RAM_PAGES && i < 4096
      ensures d == L1(ram[..], dir, i)
    {
      d := Word(ram[dir + i / 1024], i % 1024);
    }

    method StoreL1(dir: nat, i: nat, w: u32)
      requires ram.Length == RAM_PAGES && dir + 4 <= RAM_PAGES && i < 4096
      modifies ram
      ensures ram[..] == SetL1(old(ram[..]), dir, i, w)
    {
      ghost var m := ram[..];
      ram[dir + i / 1024] := SetWord(ram[dir + i / 1024], i % 1024, w);
      assert ram[..] == SetL1(m, dir, i, w);
    }

    method StoreL2(t: nat, q: nat, j: nat, w: u32)
      requires ram.Length == RAM_PAGES && t < RAM_PAGES && q < 4 && j < 256
      modifies ram
      ensures ram[..] == SetL2(old(ram[..]), t, q, j, w)
    {
      ghost var m := ram[..];
      ram[t] := SetWord(ram[t], 256 * q + j, w);
      assert ram[..] == SetL2(m, t, q, j, w);
    }

    method StoreQuads(dir: nat, g: nat, t: nat)
      requires ram.Length == RAM_PAGES && dir + 4 <= RAM_PAGES && g < 1024 && t < RAM_PAGES
      modifies ram
      ensures ram[..] == Quads(old(ram[..]), dir, g, t)
    {
      hide SetL1, Coarse;
      StoreL1(dir, 4 * g, Coarse(t, 0));
      StoreL1(dir, 4 * g + 1, Coarse(t, 1));
      StoreL1(dir, 4 * g + 2, Coarse(t, 2));
      StoreL1(dir, 4 * g + 3, Coarse(t, 3));
    }

    /** The test of all four entries before the panic (kernel/page/fault.c:62-67, :145-150,
        kernel/task.c:75-79). */
    method GroupEmpty(dir: nat, g: nat) returns (empty: bool)
      requires ram.Length == RAM_PAGES && dir + 4 <= RAM_PAGES && g < 1024
      ensures empty <==> forall k: nat :: k < 4096 && k / 4 == g ==> L1(ram[..], dir, k) / 0x400 == 0
    {
      var i := 4 * g;
      var d0, d1 := Word(ram[dir + i / 1024], i % 1024), Word(ram[dir + (i + 1) / 1024], (i + 1) % 1024);
      var d2, d3 := Word(ram[dir + (i + 2) / 1024], (i + 2) % 1024), Word(ram[dir + (i + 3) / 1024], (i + 3) % 1024);
      assert d0 == L1(ram[..], dir, i) && d1 == L1(ram[..], dir, i + 1);
      assert d2 == L1(ram[..], dir, i + 2) && d3 == L1(ram[..], dir, i + 3);
      assert forall k: nat :: k < 4096 && k / 4 == g ==> k == i || k == i + 1 || k == i + 2 || k == i + 3;
      empty := !(d0 / 0x400 != 0 || d1 / 0x400 != 0 || d2 / 0x400 != 0 || d3 / 0x400 != 0);
    }

    /** A table page for the empty group of l1_idx: find_free_page, wordset and the four
        stores (kernel/page/fault.c:61-75, :139-158, kernel/task.c:74-87). The panic of a
        group that is only partly empty is never taken. */
    method NewTable(dir: nat, l1Idx: nat, ghost tab: map<nat, nat>, ghost kt: set<nat>) returns (ok: bool, t: nat)
      requires Valid() && DirOk(ram[..], dir, tab, kt) && Claimed(buddy.at, dir, tab, kt)
      requires l1Idx < 4096 && l1Idx / 4 !in tab
      requires forall k: nat :: k < 4096 && k / 4 == l1Idx / 4 ==> L1(ram[..], dir, k) / 0x400 == 0
      modifies ram, buddy.links, buddy.page, buddy`at, buddy`runs
      ensures Valid()
      ensures !ok <==> Buddies.FreePages(old(buddy.at)) == {}
      ensures !ok ==> ram[..] == old(ram[..]) && buddy.at == old(buddy.at)
      ensures ok ==> 0x400 <= t < RAM_PAGES && !Part(t, dir, tab, kt)
      ensures ok ==> Buddies.Allocated(old(buddy.at), buddy.at, t - 0x400, 1, Buddies.Block(t - 0x400, 0, true))
      ensures ok ==> Paid(old(buddy.at), tab, buddy.at, tab[l1Idx / 4 := t])
      ensures ok ==> ram[..] == Tabled(old(ram[..]), dir, l1Idx / 4, t)
      ensures ok ==> Claimed(buddy.at, dir, tab[l1Idx / 4 := t], kt)
      ensures ok ==> OwnOnly(old(ram[..]), old(buddy.at), ram[..], buddy.at, dir, tab, tab[l1Idx / 4 := t])
      ensures ok ==> OtherGroups(old(ram[..]), ram[..], dir, l1Idx / 4)
    {
      hide Paid, Buddies.BuddyLists.Shaped, Buddies.Allocated, Buddies.FreePages, Claimed, Part, Quads, Words,
           EntryOk, L1, OwnOnly, OtherGroups, InUse;
      ghost var m, at := ram[..], buddy.at;
      var empty := GroupEmpty(dir, l1Idx / 4);
      if !empty {
        assert false;
      }
      ok, t := GetPage();
      if !ok {
        return;
      }
      ClaimedLater(at, buddy.at, dir, tab, kt, t - 0x400, Buddies.Block(t - 0x400, 0, true));
      AllocatedInside(at, buddy.at, t - 0x400);
      PaidOne(at, buddy.at, tab, l1Idx / 4, t);
      ClaimedTable(buddy.at, dir, tab, kt, l1Idx / 4, t);
      DirPages(m, dir, tab, kt);
      OwnNewTable(m, at, buddy.at, dir, tab, l1Idx / 4, t);
      FillPage(t, FILL);
      assert ram[..] == m[t := Words(FILL)];
      StoreQuads(dir, l1Idx / 4, t);
    }

    /** The second-level store through the directory: one entry of the table of va becomes w. */
    method StoreEntry(dir: nat, va: u32, w: u32, ghost t: nat)
      requires ram.Length == RAM_PAGES && dir + 4 <= RAM_PAGES && t < RAM_PAGES
      requires L1(ram[..], dir, va / 0x10_0000) == Coarse(t, va / 0x10_0000 % 4)
      modifies ram
      ensures ram[..] == Mapped(old(ram[..]), t, va, w)
    {
      hide SetL2;
      var l1Idx := va / 0x10_0000;
      var d := Word(ram[dir + l1Idx / 1024], l1Idx % 1024);
      CoarseParts(t, l1Idx % 4);
      StoreL2(d / 0x1000 - RAM_START / 0x1000, d / 0x400 % 4, va / 0x1000 % 256, w);
    }

    /** kernel/page/fault.c:128. The page at vaddr translates to paddr afterwards. Every other
        address translates as before, except that in a 4 MB group that had no table yet the
        new entries take over from the empty directory entries. */
    method MapVaddr2paddr(dir: nat, vaddr: u32, paddr: u32, ap: nat, ghost tab: map<nat, nat>, ghost kt: set<nat>)
      returns (ok: bool, ghost tab': map<nat, nat>)
      requires Valid() && DirOk(ram[..], dir, tab, kt) && Claimed(buddy.at, dir, tab, kt)
      requires vaddr % 0x1000 == 0 && paddr % 0x1000 == 0 && vaddr < KERNEL_SPACE_START
      requires ap == AP_RW_ALL || ap == AP_USR_RO_ALL
      modifies ram, buddy.links, buddy.page, buddy`at, buddy`runs
      ensures Valid() && DirOk(ram[..], dir, tab', kt) && Claimed(buddy.at, dir, tab', kt)
      ensures !ok <==> vaddr / 0x40_0000 !in tab && Buddies.FreePages(old(buddy.at)) == {}
      ensures !ok ==> ram[..] == old(ram[..]) && tab' == tab
      ensures ok ==> tab'.Keys == tab.Keys + {vaddr / 0x40_0000}
      ensures ok ==> OnePage(old(ram[..]), ram[..], dir, vaddr, paddr, vaddr / 0x40_0000 in tab)
      ensures ok ==> vaddr / 0x40_0000 in tab' && tab'[vaddr / 0x40_0000] < RAM_PAGES
                     && Word(ram[tab'[vaddr / 0x40_0000]],
                          256 * (vaddr / 0x10_0000 % 4) + vaddr / 0x1000 % 256) == paddr + ap + 0xE
      ensures OwnOnly(old(ram[..]), old(buddy.at), ram[..], buddy.at, dir, tab, tab')
      ensures OtherGroups(old(ram[..]), ram[..], dir, vaddr / 0x40_0000)
    {
      hide Paid, Buddies.FreePages, Buddies.BuddyLists.Shaped, Buddies.Allocated, Claimed, Part, EntryOk, DirOk,
           Tabled, Small, OnePage, Mapped, OwnOnly, OtherGroups, InUse, L1;
      ghost var m, g, at := ram[..], vaddr / 0x40_0000, buddy.at;
      OwnStores(m, m, at, dir, tab);
      tab', ok := tab, true;
      var l1Idx := vaddr / 0x10_0000;
      UserEntry(m, dir, tab, kt, vaddr);
      DirInside(m, dir, tab, kt);
      SameGroups(m, dir, g);
      AddressParts(vaddr, vaddr);
      var d := LoadL1(dir, l1Idx);
      if d / 0x400 == 0 {
        var t;
        ok, t := NewTable(dir, l1Idx, tab, kt);
        if !ok {
          return;
        }
        tab' := tab[g := t];
        TabledDir(m, dir, tab, kt, g, t);
        UserEntry(ram[..], dir, tab', kt, vaddr);
      }
      ghost var m1, at1 := ram[..], buddy.at;
      DirPages(m1, dir, tab', kt);
      DirInside(m1, dir, tab', kt);
      StoreEntry(dir, vaddr, Small(paddr, ap), tab'[g]);
      MappedDir(m1, dir, tab', kt, vaddr, Small(paddr, ap));
      MappedWord(m1, tab'[g], vaddr, Small(paddr, ap));
      SmallWord(paddr, ap);
      OwnMapped(m1, m1, at1, dir, tab', vaddr, Small(paddr, ap));
      OwnOnlyTwice(m, at, m1, at1, ram[..], at1, dir, tab, tab', tab');
      OtherGroupsTwice(m, m1, ram[..], dir, g);
      PageMapped(m, m1, m1, dir, tab, tab', kt, vaddr, paddr, ap);
    }

    /** The second half of do_page_fault: a page and its entry (kernel/page/fault.c:77-81,
        :84-88). */
    method GivePage(dir: nat, vaddr: u32, ghost tab: map<nat, nat>, ghost kt: set<nat>) returns (ok: bool, p: nat)
      requires Valid() && DirOk(ram[..], dir, tab, kt) && Claimed(buddy.at, dir, tab, kt)
      requires vaddr < KERNEL_SPACE_START && vaddr / 0x40_0000 in tab
      modifies ram, buddy.links, buddy.page, buddy`at, buddy`runs
      ensures Valid() && DirOk(ram[..], dir, tab, kt) && Claimed(buddy.at, dir, tab, kt)
      ensures !ok <==> Buddies.FreePages(old(buddy.at)) == {}
      ensures !ok ==> ram[..] == old(ram[..])
      ensures ok ==> 0x400 <= p < RAM_PAGES && p - 0x400 < |old(buddy.at)| && !old(buddy.at)[p - 0x400].held
                     && !Part(p, dir, tab, kt)
      ensures ok ==> ram[p] == ZERO_BLOCK
      ensures ok ==> vaddr / 0x40_0000 in tab && tab[vaddr / 0x40_0000] < RAM_PAGES
                     && Word(ram[tab[vaddr / 0x40_0000]], 256 * (vaddr / 0x10_0000 % 4) + vaddr / 0x1000 % 256)
                        == 0x3000_0000 + 0x1000 * p + 0xFF0 + 0xE
      ensures OwnOnly(old(ram[..]), old(buddy.at), ram[..], buddy.at, dir, tab, tab)
      ensures OtherGroups(old(ram[..]), ram[..], dir, vaddr / 0x40_0000)
      ensures ok ==> PageGiven(old(ram[..]), ram[..], tab[vaddr / 0x40_0000], vaddr, p)
    {
      hide Buddies.FreePages, Buddies.BuddyLists.Shaped, Buddies.Allocated, Claimed, Part, EntryOk, DirOk, Small,
           Mapped, L1, Coarse, OwnOnly, OtherGroups, InUse;
      ghost var m, at := ram[..], buddy.at;
      DirInside(m, dir, tab, kt);
      DirPages(m, dir, tab, kt);
      OwnStores(m, m, at, dir, tab);
      SameGroups(m, dir, vaddr / 0x40_0000);
      AddressParts(vaddr, vaddr);
      ok, p := GetPage();
      if !ok {
        return;
      }
      AllocatedInside(at, buddy.at, p - 0x400);
      ClaimedLater(at, buddy.at, dir, tab, kt, p - 0x400, Buddies.Block(p - 0x400, 0, true));
      ghost var m2, at2 := ram[..], buddy.at;
      OwnNewPage(m, m2, at, at2, dir, tab, p);
      MappedWord(m2, tab[vaddr / 0x40_0000], vaddr, Small(RAM_START + 0x1000 * p, AP_RW_ALL));
      SmallWord(RAM_START + 0x1000 * p, AP_RW_ALL);
      OwnMapped(m, m2, at2, dir, tab, vaddr, Small(RAM_START + 0x1000 * p, AP_RW_ALL));
      OutsideDir(m, p, ZERO_BLOCK, dir, tab, kt);
      UserEntry(m2, dir, tab, kt, vaddr);
      StoreEntry(dir, vaddr, Small(RAM_START + 0x1000 * p, AP_RW_ALL), tab[vaddr / 0x40_0000]);
      MappedDir(m2, dir, tab, kt, vaddr, Small(RAM_START + 0x1000 * p, AP_RW_ALL));
      MappedPages(m2, tab[vaddr / 0x40_0000], vaddr, Small(RAM_START + 0x1000 * p, AP_RW_ALL));
      TableIsPart(dir, tab, kt, vaddr / 0x40_0000);
      OwnOnlyTwice(m, at, m2, at2, ram[..], at2, dir, tab, tab, tab);
    }

    /** The first half of do_page_fault (kernel/page/fault.c:52-76): the table, if it is missing. */
    method FaultTable(dir: nat, kind: nat, vaddr: u32, ghost tab: map<nat, nat>, ghost kt: set<nat>)
      returns (r: FaultResult, ghost tab': map<nat, nat>)
      requires Valid() && DirOk(ram[..], dir, tab, kt) && Claimed(buddy.at, dir, tab, kt)
      requires vaddr < KERNEL_SPACE_START
      modifies ram, buddy.links, buddy.page, buddy`at, buddy`runs
      ensures Valid() && DirOk(ram[..], dir, tab', kt) && Claimed(buddy.at, dir, tab', kt)
      ensures r == BadFault <==>
              !(kind == 0x0B && vaddr / 0x40_0000 !in tab) && !(kind == 0x0F && vaddr / 0x40_0000 in tab)
      ensures r == NoMemory <==>
              r != BadFault && vaddr / 0x40_0000 !in tab && Buddies.FreePages(old(buddy.at)) == {}
      ensures r != Resolved || vaddr / 0x40_0000 in tab ==>
                ram[..] == old(ram[..]) && buddy.at == old(buddy.at) && tab' == tab
      ensures r == Resolved ==> tab'.Keys == tab.Keys + {vaddr / 0x40_0000}
      ensures r == Resolved && vaddr / 0x40_0000 !in tab ==>
                && |Buddies.FreePages(old(buddy.at))| == |Buddies.FreePages(buddy.at)| + 1
                && vaddr / 0x40_0000 < 1024 && tab'[vaddr / 0x40_0000] < RAM_PAGES && dir + 4 <= RAM_PAGES
                && !Part(tab'[vaddr / 0x40_0000], dir, tab, kt)
                && ram[..] == Tabled(old(ram[..]), dir, vaddr / 0x40_0000, tab'[vaddr / 0x40_0000])
      ensures |buddy.at| == |old(buddy.at)|
      ensures forall x :: 0 <= x < |buddy.at| && old(buddy.at)[x].held ==> buddy.at[x].held
      ensures OwnOnly(old(ram[..]), old(buddy.at), ram[..], buddy.at, dir, tab, tab')
      ensures OtherGroups(old(ram[..]), ram[..], dir, vaddr / 0x40_0000)
    {
      hide Paid, Buddies.FreePages, Buddies.BuddyLists.Shaped, Buddies.Allocated, Claimed, Part, EntryOk, DirOk,
           Tabled, OwnOnly, OtherGroups, InUse, L1;
      ghost var m, g, at := ram[..], vaddr / 0x40_0000, buddy.at;
      tab' := tab;
      OwnStores(m, m, at, dir, tab);
      var l1Idx := vaddr / 0x10_0000;
      UserEntry(m, dir, tab, kt, vaddr);
      DirInside(m, dir, tab, kt);
      SameGroups(m, dir, g);
      AddressParts(vaddr, vaddr);
      var d := LoadL1(dir, l1Idx);
      var empty := d / 0x400 == 0;
      if empty && kind == 0x0B {
        var ok, t := NewTable(dir, l1Idx, tab, kt);
        if !ok {
          return NoMemory, tab';
        }
        tab' := tab[g := t];
        AllocatedInside(at, buddy.at, t - 0x400);
        OneLessFree(at, buddy.at, t - 0x400);
        TabledDir(m, dir, tab, kt, g, t);
      } else if !(!empty && kind == 0x0F) {
        return BadFault, tab';
      }
      r := Resolved;
    }

    /** kernel/page/fault.c:46: a fault in the user's area on an address without a table, or
        with a table but without a page, gets the missing ones; any other combination stops
        the system. The new page is one that nobody used. */
    method DoPageFault(dir: nat, kind: nat, vaddr: u32, ghost tab: map<nat, nat>, ghost kt: set<nat>)
      returns (r: FaultResult, p: nat, ghost tab': map<nat, nat>)
      requires Valid() && DirOk(ram[..], dir, tab, kt) && Claimed(buddy.at, dir, tab, kt)
      requires 0x6000_0000 <= vaddr < KERNEL_SPACE_START
      modifies ram, buddy.links, buddy.page, buddy`at, buddy`runs
      ensures Valid() && DirOk(ram[..], dir, tab', kt) && Claimed(buddy.at, dir, tab', kt)
      ensures r == BadFault <==>
              !(kind == 0x0B && vaddr / 0x40_0000 !in tab) && !(kind == 0x0F && vaddr / 0x40_0000 in tab)
      ensures r == NoMemory <==>
              r != BadFault && |Buddies.FreePages(old(buddy.at))| < if vaddr / 0x40_0000 in tab then 1 else 2
      ensures r == BadFault ==> ram[..] == old(ram[..]) && tab' == tab
      ensures r == Resolved ==> 0x400 <= p < RAM_PAGES && !old(buddy.at)[p - 0x400].held && !Part(p, dir, tab', kt)
      ensures r == Resolved ==> ram[p] == ZERO_BLOCK && tab'.Keys == tab.Keys + {vaddr / 0x40_0000}
      ensures r == Resolved ==>
              OnePage(old(ram[..]), ram[..], dir, vaddr, RAM_START + 0x1000 * p, vaddr / 0x40_0000 in tab)
      ensures r == Resolved ==>
              && vaddr / 0x40_0000 in tab'
              && tab'[vaddr / 0x40_0000] < RAM_PAGES
              && Word(ram[tab'[vaddr / 0x40_0000]], 256 * (vaddr / 0x10_0000 % 4) + vaddr / 0x1000 % 256)
                 == 0x3000_0000 + 0x1000 * p + 0xFF0 + 0xE
      ensures OwnOnly(old(ram[..]), old(buddy.at), ram[..], buddy.at, dir, tab, tab')
      ensures OtherGroups(old(ram[..]), ram[..], dir, vaddr / 0x40_0000)
    {
      hide Paid, Buddies.FreePages, Buddies.BuddyLists.Shaped, Buddies.Allocated, Claimed, Part, EntryOk, DirOk,
           Tabled, PageGiven, OnePage, OwnOnly, OtherGroups, InUse;
      ghost var m, g, at := ram[..], vaddr / 0x40_0000, buddy.at;
      p := 0;
      DirInside(m, dir, tab, kt);
      r, tab' := FaultTable(dir, kind, vaddr, tab, kt);
      if r != Resolved {
        return;
      }
      ghost var m1, at1 := ram[..], buddy.at;
      var ok;
      ok, p := GivePage(dir, vaddr, tab', kt);
      OwnOnlyTwice(m, at, m1, at1, ram[..], buddy.at, dir, tab, tab', tab');
      OtherGroupsTwice(m, m1, ram[..], dir, g);
      if !ok {
        return NoMemory, p, tab';
      }
      PageFaulted(m, m1, ram[..], dir, tab, tab', kt, vaddr, p);
    }

    /** The inner loop of share_kernel_space (kernel/task.c:92-94): the entries that name a page
        are copied. */
    method CopyTable(s: nat, sq: nat, t: nat, q: nat)
      requires ram.Length == RAM_PAGES && s < RAM_PAGES && sq < 4 && t < RAM_PAGES && q < 4
      modifies ram
      ensures ram[..] == Copy(old(ram[..]), s, sq, t, q, 256)
    {
      ghost var m := ram[..];
      var j := 0;
      while j < 256
        invariant j <= 256 && ram[..] == Copy(m, s, sq, t, q, j)
      {
        var e := Word(ram[s], 256 * sq + j);
        assert e == L2(ram[..], s, sq, j);
        if e / 0x1000 != 0 {
          StoreL2(t, q, j, e);
        }
        j := j + 1;
      }
    }

    /** A destination group without a table gets one (kernel/task.c:73-88). */
    method ShareNewTable(ghost m0: Ram, ghost src: Space, dst: nat, i: nat, ghost a: nat, ghost tab: map<nat, nat>)
      returns (r: ShareResult, ghost tab': map<nat, nat>)
      requires Valid() && Sharing(m0, ram[..], src, dst, tab, a, i) && i < 4096 && i / 4 !in tab
      requires IsCoarse(L1(m0, src.dir, i))
      requires Claimed(buddy.at, src.dir, src.tab, src.kt) && Claimed(buddy.at, dst, tab, {})
      modifies ram, buddy.links, buddy.page, buddy`at, buddy`runs
      ensures Valid() && src.dir + 4 <= RAM_PAGES
      ensures r == OutOfMemory ==> Buddies.FreePages(old(buddy.at)) == {}
      ensures r == AllShared ==> Paid(old(buddy.at), tab, buddy.at, tab')
      ensures r == Corrupt ==> !Orderly(m0, src.dir, a, i + 1)
      ensures r == AllShared ==> Sharing(m0, ram[..], src, dst, tab', a, i) && tab'.Keys == tab.Keys + {i / 4}
      ensures r == AllShared ==> forall k: nat :: a <= k < i && k / 4 == i / 4 ==> !IsSection(L1(m0, src.dir, k))
      ensures r == AllShared ==> Claimed(buddy.at, src.dir, src.tab, src.kt) && Claimed(buddy.at, dst, tab', {})
      ensures r == AllShared ==> OwnOnly(old(ram[..]), old(buddy.at), ram[..], buddy.at, dst, tab, tab')
    {
      hide Paid, Buddies.FreePages, Buddies.BuddyLists.Shaped, Buddies.Allocated, Claimed, Part, EntryOk, DirOk,
           Tabled, L1, Coarse, IsCoarse, Sharing, Orderly, Untouched, OwnOnly, OtherGroups, InUse;
      ghost var m, at := ram[..], buddy.at;
      tab' := tab;
      SharingInside(m0, m, src, dst, tab, a, i);
      var empty := GroupEmpty(dst, i / 4);
      if !empty {
        ghost var k: nat :| k < 4096 && k / 4 == i / 4 && L1(m, dst, k) / 0x400 != 0;
        HalfUsed(m0, m, src, dst, tab, a, i, k);
        return Corrupt, tab';
      }
      assert m == ram[..] && forall k: nat :: k < 4096 && k / 4 == i / 4 ==> L1(m, dst, k) / 0x400 == 0;
      NoSections(m0, m, src, dst, tab, a, i);
      var ok, t := NewTable(dst, i, tab, {});
      if !ok {
        return OutOfMemory, tab';
      }
      ClaimedLater(at, buddy.at, src.dir, src.tab, src.kt, t - 0x400, Buddies.Block(t - 0x400, 0, true));
      ShareTabled(m0, m, src, dst, tab, a, i, t);
      tab' := tab[i / 4 := t];
      r := AllShared;
    }

    /** The coarse table of entry i (kernel/task.c:72-95). */
    method ShareTable(ghost m0: Ram, ghost src: Space, dst: nat, i: nat, d: u32, ghost a: nat, ghost tab: map<nat, nat>)
      returns (r: ShareResult, ghost tab': map<nat, nat>)
      requires Valid() && Sharing(m0, ram[..], src, dst, tab, a, i) && i < 4096 && d == L1(m0, src.dir, i)
               && IsCoarse(d)
      requires Tabs(m0, src.dir, tab, a, i) && Orderly(m0, src.dir, a, i)
      requires Claimed(buddy.at, src.dir, src.tab, src.kt) && Claimed(buddy.at, dst, tab, {})
      modifies ram, buddy.links, buddy.page, buddy`at, buddy`runs
      ensures Valid() && src.dir + 4 <= RAM_PAGES
      ensures r == OutOfMemory ==> Buddies.FreePages(old(buddy.at)) == {} && i / 4 !in tab
      ensures r == AllShared ==> Paid(old(buddy.at), tab, buddy.at, tab')
      ensures r == Corrupt ==> !Orderly(m0, src.dir, a, i + 1)
      ensures r == AllShared ==> Sharing(m0, ram[..], src, dst, tab', a, i + 1)
      ensures r == AllShared ==> Tabs(m0, src.dir, tab', a, i + 1) && Orderly(m0, src.dir, a, i + 1)
      ensures r == AllShared ==> Claimed(buddy.at, src.dir, src.tab, src.kt) && Claimed(buddy.at, dst, tab', {})
      ensures r == AllShared ==> OwnOnly(old(ram[..]), old(buddy.at), ram[..], buddy.at, dst, tab, tab')
    {
      hide Paid, Buddies.FreePages, Buddies.BuddyLists.Shaped, Buddies.Allocated, Claimed, Part, EntryOk, DirOk,
           Tabled, L1, Coarse, Copy, IsCoarse, Sharing, Orderly, HasTable, OwnOnly, OtherGroups, InUse;
      tab', r := tab, AllShared;
      ghost var m, at := ram[..], buddy.at;
      OwnStores(m, m, at, dst, tab);
      PaidNone(at, tab);
      SharingInside(m0, ram[..], src, dst, tab, a, i);
      DestEntry(m0, ram[..], src, dst, tab, a, i);
      var e := LoadL1(dst, i);
      if e / 0x400 == 0 {
        r, tab' := ShareNewTable(m0, src, dst, i, a, tab);
        if r != AllShared {
          return;
        }
        SharingInside(m0, ram[..], src, dst, tab', a, i);
        DestEntry(m0, ram[..], src, dst, tab', a, i);
      }
      StillOrderly(m0, src.dir, a, i);
      TabsMore(m0, src.dir, tab', a, i);
      var e' := LoadL1(dst, i);
      ShareCopied(m0, ram[..], src, dst, tab', a, i);
      ghost var m1, at1 := ram[..], buddy.at;
      CopyTable(d / 0x1000 - RAM_START / 0x1000, d / 0x400 % 4, e' / 0x1000 - RAM_START / 0x1000, e' / 0x400 % 4);
      TableIsPart(dst, tab', {}, i / 4);
      OwnStores(m1, ram[..], at1, dst, tab');
      OwnOnlyTwice(m, at, m1, at1, ram[..], at1, dst, tab, tab', tab');
    }

    /** One entry of the sharing loop (kernel/task.c:67-95). */
    method ShareEntry(ghost m0: Ram, from: nat, ghost src: Space, dst: nat, i: nat, ghost a: nat,
                      ghost tab: map<nat, nat>)
      returns (r: ShareResult, ghost tab': map<nat, nat>)
      requires from == src.dir
      requires Valid() && Sharing(m0, ram[..], src, dst, tab, a, i) && i < 4096
      requires Tabs(m0, src.dir, tab, a, i) && Orderly(m0, src.dir, a, i)
      requires Claimed(buddy.at, src.dir, src.tab, src.kt) && Claimed(buddy.at, dst, tab, {})
      modifies ram, buddy.links, buddy.page, buddy`at, buddy`runs
      ensures Valid() && src.dir + 4 <= RAM_PAGES
      ensures r == OutOfMemory ==>
              Buddies.FreePages(old(buddy.at)) == {} && i / 4 !in tab && IsCoarse(L1(m0, src.dir, i))
      ensures r == AllShared ==> Paid(old(buddy.at), tab, buddy.at, tab')
      ensures r == Corrupt ==> !Orderly(m0, src.dir, a, i + 1)
      ensures r == AllShared ==> Sharing(m0, ram[..], src, dst, tab', a, i + 1)
      ensures r == AllShared ==> Tabs(m0, src.dir, tab', a, i + 1) && Orderly(m0, src.dir, a, i + 1)
      ensures r == AllShared ==> Claimed(buddy.at, src.dir, src.tab, src.kt) && Claimed(buddy.at, dst, tab', {})
      ensures r == AllShared ==> OwnOnly(old(ram[..]), old(buddy.at), ram[..], buddy.at, dst, tab, tab')
    {
      hide Paid, Buddies.FreePages, Buddies.BuddyLists.Shaped, Claimed, Part, EntryOk, DirOk, L1, Sharing, Orderly,
           HasTable, OwnOnly, OtherGroups, InUse;
      tab', r := tab, AllShared;
      ghost var m, at := ram[..], buddy.at;
      PaidNone(at, tab);
      SharingInside(m0, ram[..], src, dst, tab, a, i);
      SourceEntry(m0, ram[..], src, dst, tab, a, i);
      var d := LoadL1(from, i);
      if d / 0x400 != 0 && d % 4 == 1 {
        r, tab' := ShareTable(m0, src, dst, i, d, a, tab);
        return;
      }
      StillOrderly(m0, src.dir, a, i);
      TabsMore(m0, src.dir, tab', a, i);
      if d / 0x400 == 0 {
        ShareNothing(m0, ram[..], src, dst, tab, a, i);
      } else {
        ShareSection(m0, ram[..], src, dst, tab, a, i);
        StoreL1(dst, i, d);
      }
      DirPages(m, dst, tab, {});
      SetL1Pages(m, dst, i, d);
      OwnStores(m, ram[..], at, dst, tab);
    }

    /** kernel/task.c:55. The panic of a corrupt directory comes exactly when some aligned
        group of the source has a section before its first coarse table. */
    method ShareKernelSpace(from: nat, dst: nat, vaddr: u32, size: u32, ghost src: Space)
      returns (r: ShareResult, ghost tab: map<nat, nat>)
      requires from == src.dir
      requires Valid() && DirOk(ram[..], src.dir, src.tab, src.kt) && Claimed(buddy.at, src.dir, src.tab, src.kt)
      requires dst + 4 <= RAM_PAGES && (forall k: nat :: k < 4096 ==> L1(ram[..], dst, k) == EMPTY)
      requires (forall p: nat :: Part(p, src.dir, src.tab, src.kt) ==> !(dst <= p < dst + 4))
               && Claimed(buddy.at, dst, map[], {})
      requires vaddr % 0x10_0000 == 0 && size % 0x10_0000 == 0 && KERNEL_SPACE_START <= vaddr && vaddr + size <= TWO_32
      modifies ram, buddy.links, buddy.page, buddy`at, buddy`runs
      ensures Valid() && src.dir + 4 <= RAM_PAGES
      ensures var a, n := vaddr / 0x10_0000, (vaddr + size) / 0x10_0000;
              && (r == OutOfMemory ==>
                   |Buddies.FreePages(old(buddy.at))| < |TableGroups(old(ram[..]), src.dir, a, n)|)
              && (r == AllShared ==>
                   |Buddies.FreePages(old(buddy.at))|
                   == |Buddies.FreePages(buddy.at)| + |TableGroups(old(ram[..]), src.dir, a, n)|)
              && (r == Corrupt ==> !Orderly(old(ram[..]), src.dir, a, n))
              && (r == AllShared ==>
                   Orderly(old(ram[..]), src.dir, a, n) && DirOk(ram[..], dst, tab, {})
                     && Claimed(buddy.at, dst, tab, {}))
              && (r == AllShared ==> DirOk(ram[..], src.dir, src.tab, src.kt) && forall dacr: u32, va: u32 ::
                   Walk(ram[..], dacr, src.dir, va) == Walk(old(ram[..]), dacr, src.dir, va))
              && (r == AllShared ==> Claimed(buddy.at, src.dir, src.tab, src.kt)
                                     && OwnOnly(old(ram[..]), old(buddy.at), ram[..], buddy.at, dst, map[], tab))
              && (r == AllShared && SystemDomain(old(ram[..]), src.dir, a, n) ==>
                   SharedSpace(old(ram[..]), ram[..], src.dir, dst, a, n))
    {
      hide Buddies.FreePages, TableGroups, Buddies.BuddyLists.Shaped, Claimed, Part, EntryOk, DirOk, L1, Sharing,
           Orderly, HasTable, SharedSpace, Walk, SystemDomain, OwnOnly, OtherGroups, InUse;
      ghost var m0, at0, a, n := ram[..], buddy.at, vaddr / 0x10_0000, (vaddr + size) / 0x10_0000;
      tab, r := map[], AllShared;
      ShareStart(m0, src, dst, a);
      DirInside(m0, src.dir, src.tab, src.kt);
      OwnStores(m0, m0, at0, dst, tab);
      var k, va, count := 0, vaddr, size / 0x10_0000;
      while k < count
        invariant k <= count && r == AllShared && Valid() && src.dir + 4 <= RAM_PAGES
        invariant k < count ==> va == vaddr + 0x10_0000 * k
        invariant Sharing(m0, ram[..], src, dst, tab, a, a + k)
        invariant Tabs(m0, src.dir, tab, a, a + k) && Orderly(m0, src.dir, a, a + k)
        invariant Claimed(buddy.at, src.dir, src.tab, src.kt) && Claimed(buddy.at, dst, tab, {})
        invariant |Buddies.FreePages(at0)| == |Buddies.FreePages(buddy.at)| + |tab|
        invariant OwnOnly(m0, at0, ram[..], buddy.at, dst, map[], tab)
      {
        ghost var m1, at1, tab1 := ram[..], buddy.at, tab;
        r, tab := ShareEntry(m0, from, src, dst, va / 0x10_0000, a, tab);
        if r != AllShared {
          if r == OutOfMemory {
            OneGroupMore(m0, src.dir, tab1, a, a + k, n);
          }
          OrderlyPrefix(m0, src.dir, a, a + k + 1, n);
          return;
        }
        OwnOnlyTwice(m0, at0, m1, at1, ram[..], buddy.at, dst, map[], tab1, tab);
        k, va := k + 1, (va + 0x10_0000) % TWO_32;
      }
      GroupsDone(m0, ram[..], src, dst, tab, a, n);
      SharedDone(m0, ram[..], src, dst, tab, a, n);
    }
  }

  /** The entries of all other groups of the directory are as before. */
  ghost predicate OtherGroups(m: Ram, m': Ram, dir: nat, g: nat)
    requires dir + 4 <= RAM_PAGES
  {
    forall k: nat :: k < 4096 && k / 4 != g ==> L1(m', dir, k) == L1(m, dir, k)
  }

  lemma DirInside(m: Ram, dir: nat, tab: map<nat, nat>, kt: set<nat>)
    requires DirOk(m, dir, tab, kt)
    ensures dir + 4 <= RAM_PAGES && forall g :: g in tab ==> g < 1024 && tab[g] < RAM_PAGES
  {
  }

  /** From m to m' the page of va came to translate to the page at pa, wherever domain 1
      grants access; all other pages translate as before, but for the rest of a group that
      got its first table. */
  ghost predicate OnePage(m: Ram, m': Ram, dir: nat, va: u32, pa: u32, had: bool)
    requires dir + 4 <= RAM_PAGES
  {
    forall dacr: u32, v: u32 :: Access(dacr, 1) == 1 || Access(dacr, 1) == 3 ==>
      Walk(m', dacr, dir, v) == if v / 0x1000 == va / 0x1000 then PageTo(pa, v)
                                else if v / 0x40_0000 == va / 0x40_0000 && !had then FillWalk(dacr, v)
                                else Walk(m, dacr, dir, v)
  }

  function PageTo(pa: u32, v: u32): Translation {
    if pa + v % 0x1000 < TWO_32 then To(pa + v % 0x1000) else Fault
  }

  lemma OutsideDir(m: Ram, p: nat, b: Block, dir: nat, tab: map<nat, nat>, kt: set<nat>)
    requires DirOk(m, dir, tab, kt) && p < RAM_PAGES && !Part(p, dir, tab, kt)
    ensures DirOk(m[p := b], dir, tab, kt)
  {
    assert forall q: nat :: dir <= q < dir + 4 ==> Part(q, dir, tab, kt);
    DirFrame(m, m[p := b], dir, tab, kt);
  }

  lemma TableIsPart(dir: nat, tab: map<nat, nat>, kt: set<nat>, g: nat)
    requires g in tab
    ensures Part(tab[g], dir, tab, kt)
  {
  }

  lemma PageMapped(m: Ram, m1: Ram, m2: Ram, dir: nat, tab: map<nat, nat>, tab': map<nat, nat>, kt: set<nat>, va: u32,
                   pa: u32, ap: nat)
    requires DirOk(m, dir, tab, kt) && DirOk(m1, dir, tab', kt) && va < KERNEL_SPACE_START && va / 0x40_0000 in tab'
    requires pa % 0x1000 == 0 && (ap == AP_RW_ALL || ap == AP_USR_RO_ALL)
    requires var g := va / 0x40_0000;
             if g in tab then m1 == m && tab' == tab
             else !Part(tab'[g], dir, tab, kt) && m1 == Tabled(m, dir, g, tab'[g])
    requires m2 == m1 || exists p: nat :: p < RAM_PAGES && !Part(p, dir, tab', kt) && m2 == m1[p := ZERO_BLOCK]
    ensures OnePage(m, Mapped(m2, tab'[va / 0x40_0000], va, Small(pa, ap)), dir, va, pa, va / 0x40_0000 in tab)
  {
    hide DirOk, Part, Mapped, Tabled, Walk, Access, Leaf, FillWalk;
    var g, w := va / 0x40_0000, Small(pa, ap);
    DirInside(m1, dir, tab', kt);
    if m2 != m1 {
      var p: nat :| p < RAM_PAGES && !Part(p, dir, tab', kt) && m2 == m1[p := ZERO_BLOCK];
      OutsideDir(m1, p, ZERO_BLOCK, dir, tab', kt);
    }
    UserEntry(m2, dir, tab', kt, va);
    AddressParts(va, va);
    CoarseParts(tab'[g], va / 0x10_0000 % 4);
    forall dacr: u32, v: u32 | Access(dacr, 1) == 1 || Access(dacr, 1) == 3
      ensures Walk(Mapped(m2, tab'[g], va, w), dacr, dir, v)
           == if v / 0x1000 == va / 0x1000 then PageTo(pa, v)
              else if v / 0x40_0000 == g && g !in tab then FillWalk(dacr, v) else Walk(m, dacr, dir, v)
    {
      MappedWalk(m2, dacr, dir, tab', kt, va, w, v);
      WalkFrame(m1, m2, dacr, dir, tab', kt, v);
      SmallLeaf(pa, ap, Access(dacr, 1), v);
      if g !in tab {
        TabledWalk(m, dacr, dir, tab, kt, g, tab'[g], v);
      }
    }
  }

  lemma PageFaulted(m: Ram, m1: Ram, m': Ram, dir: nat, tab: map<nat, nat>, tab': map<nat, nat>, kt: set<nat>, va: u32,
                    p: nat)
    requires DirOk(m, dir, tab, kt) && DirOk(m1, dir, tab', kt) && va < KERNEL_SPACE_START && va / 0x40_0000 in tab'
    requires var g := va / 0x40_0000;
             if g in tab then m1 == m && tab' == tab
             else tab'[g] < RAM_PAGES && !Part(tab'[g], dir, tab, kt) && m1 == Tabled(m, dir, g, tab'[g])
    requires p < RAM_PAGES && !Part(p, dir, tab', kt) && PageGiven(m1, m', tab'[va / 0x40_0000], va, p)
    ensures OnePage(m, m', dir, va, RAM_START + 0x1000 * p, va / 0x40_0000 in tab)
  {
    hide DirOk, Part, Mapped, Tabled, OnePage;
    PageMapped(m, m1, m1[p := ZERO_BLOCK], dir, tab, tab', kt, va, RAM_START + 0x1000 * p, AP_RW_ALL);
  }

  /** Addresses of a user group without a table fault, whatever the domains allow. */
  lemma EmptyGroup(m: Ram, dacr: u32, dir: nat, tab: map<nat, nat>, kt: set<nat>, v: u32)
    requires DirOk(m, dir, tab, kt) && v < KERNEL_SPACE_START && v / 0x40_0000 !in tab
    ensures Walk(m, dacr, dir, v) == Fault
  {
    hide Access, Leaf;
    AddressParts(v, v);
    assert EntryOk(L1(m, dir, v / 0x10_0000), v / 0x10_0000, tab, kt);
  }

  /** map_vaddr2paddr is a plain map update exactly when the group already had a table or
      domain 1 is not a manager: then no other page's translation changes. */
  lemma MapUpdateIff(m: Ram, m': Ram, dacr: u32, dir: nat, tab: map<nat, nat>, kt: set<nat>, va: u32, pa: u32)
    requires DirOk(m, dir, tab, kt) && va < KERNEL_SPACE_START && (Access(dacr, 1) == 1 || Access(dacr, 1) == 3)
    requires OnePage(m, m', dir, va, pa, va / 0x40_0000 in tab)
    ensures (forall v: u32 :: v / 0x1000 != va / 0x1000 ==> Walk(m', dacr, dir, v) == Walk(m, dacr, dir, v))
       <==> va / 0x40_0000 in tab || Access(dacr, 1) != 3
  {
    hide Walk, Access, DirOk;
    DirInside(m, dir, tab, kt);
    var g := va / 0x40_0000;
    if g !in tab {
      forall v: u32 | v / 0x40_0000 == g ensures Walk(m, dacr, dir, v) == Fault {
        EmptyGroup(m, dacr, dir, tab, kt, v);
      }
      var v: u32 := g * 0x40_0000 + if va / 0x1000 % 1024 == 0 then 0x1000 else 0;
      assert v / 0x40_0000 == g && v / 0x1000 != va / 0x1000;
      assert Walk(m', dacr, dir, v) == FillWalk(dacr, v);
    }
  }

  /** As the system boots domain 1 is a manager: the first page mapped into a 4 MB group
      makes the other 1023 lead to the first page of the address space instead of faulting. */
  lemma BootMapUpdate(m: Ram, m': Ram, dir: nat, tab: map<nat, nat>, kt: set<nat>, va: u32, pa: u32, v: u32)
    requires DirOk(m, dir, tab, kt) && va < KERNEL_SPACE_START && va / 0x40_0000 !in tab
    requires OnePage(m, m', dir, va, pa, false) && v / 0x40_0000 == va / 0x40_0000 && v / 0x1000 != va / 0x1000
    ensures Walk(m, BOOT_DACR, dir, v) == Fault && Walk(m', BOOT_DACR, dir, v) == To(v % 0x1000)
  {
    BootDomains();
    hide Walk, Access, DirOk;
    EmptyGroup(m, BOOT_DACR, dir, tab, kt, v);
  }

  // ---- sharing the kernel's part of a directory ----

  predicate IsSection(d: u32) {
    d / 0x400 != 0 && d % 4 == 2
  }

  predicate IsCoarse(d: u32) {
    d / 0x400 != 0 && d % 4 == 1
  }

  /** In each aligned group of four, as far as entries a to n - 1 go, no section comes before
      the first coarse table: exactly then the sharing loop never finds a group half used. */
  ghost predicate Orderly(m: Ram, src: nat, a: nat, n: nat)
    requires src + 4 <= RAM_PAGES && n <= 4096
  {
    forall i: nat, k: nat :: a <= k < i < n && k / 4 == i / 4 && IsSection(L1(m, src, k)) && IsCoarse(L1(m, src, i)) ==>
      HasTable(m, src, a, k, k / 4)
  }

  /** Among entries a to n - 1 some entry of group g names a coarse table. */
  ghost predicate HasTable(m: Ram, src: nat, a: nat, n: nat, g: nat)
    requires src + 4 <= RAM_PAGES && n <= 4096
  {
    exists c: nat :: a <= c < n && c / 4 == g && IsCoarse(L1(m, src, c))
  }

  /** The inner loop of share_kernel_space (kernel/task.c:92-94), after n entries. */
  function Copy(m: Ram, s: nat, sq: nat, t: nat, q: nat, n: nat): (m': Ram)
    requires s < RAM_PAGES && sq < 4 && t < RAM_PAGES && q < 4 && n <= 256
    ensures forall p: nat :: p < RAM_PAGES && p != t ==> m'[p] == m[p]
  {
    if n == 0 then m
    else var m1 := Copy(m, s, sq, t, q, n - 1);
         var e := L2(m1, s, sq, n - 1);
         if e / 0x1000 != 0 then SetL2(m1, t, q, n - 1, e) else m1
  }

  lemma {:induction false} CopyReadBack(m: Ram, s: nat, sq: nat, t: nat, q: nat, n: nat, q': nat, j': nat)
    requires s < RAM_PAGES && sq < 4 && t < RAM_PAGES && q < 4 && n <= 256 && s != t && q' < 4 && j' < 256
    ensures L2(Copy(m, s, sq, t, q, n), t, q', j')
         == if q' == q && j' < n && L2(m, s, sq, j') / 0x1000 != 0 then L2(m, s, sq, j') else L2(m, t, q', j')
  {
    if n > 0 {
      var m1 := Copy(m, s, sq, t, q, n - 1);
      CopyReadBack(m, s, sq, t, q, n - 1, q', j');
      assert L2(m1, s, sq, n - 1) == L2(m, s, sq, n - 1);
      SetL2ReadBack(m1, t, q, n - 1, L2(m, s, sq, n - 1), t, q', j');
    }
  }

  /** Entry k of the destination has not been given anything to translate. */
  ghost predicate Untouched(m: Ram, dst: nat, tab: map<nat, nat>, k: nat)
    requires dst + 4 <= RAM_PAGES && k < 4096 && forall g :: g in tab ==> tab[g] < RAM_PAGES
  {
    if k / 4 in tab then L1(m, dst, k) == Coarse(tab[k / 4], k % 4) && forall j: nat :: j < 256 ==>
      L2(m, tab[k / 4], k % 4, j) == FILL
    else L1(m, dst, k) == EMPTY
  }

  /** What the sharing loop copies of a second-level entry. */
  function Kept(e: u32): u32 {
    if e / 0x1000 != 0 then e else FILL
  }

  /** Entry k of the destination does what entry k of the source did in m0. */
  ghost predicate Shared(m0: Ram, m: Ram, src: Space, dst: nat, tab: map<nat, nat>, k: nat)
    requires src.dir + 4 <= RAM_PAGES && dst + 4 <= RAM_PAGES && k < 4096
    requires forall g :: g in tab ==> tab[g] < RAM_PAGES
  {
    var d := L1(m0, src.dir, k);
    if IsSection(d) then L1(m, dst, k) == d
    else if IsCoarse(d) then
      && InRam(TablePage(d)) && k / 4 in tab && L1(m, dst, k) == Coarse(tab[k / 4], k % 4)
      && forall j: nat :: j < 256 ==> L2(m, tab[k / 4], k % 4, j) == Kept(L2(m0, TablePage(d), d / 0x400 % 4, j))
    else Untouched(m, dst, tab, k)
  }

  /** The sharing loop before entry i, having started at entry a. */
  ghost predicate Sharing(m0: Ram, m: Ram, src: Space, dst: nat, tab: map<nat, nat>, a: nat, i: nat) {
    && DirOk(m0, src.dir, src.tab, src.kt) && DirOk(m, dst, tab, {}) && KERNEL_L1 <= a <= i <= 4096
    && (forall p: nat :: p < RAM_PAGES && Part(p, src.dir, src.tab, src.kt) ==> m[p] == m0[p] && !Part(p, dst, tab, {}))
    && (forall k: nat :: a <= k < i ==> Shared(m0, m, src, dst, tab, k))
    && (forall k: nat :: k < 4096 && !(a <= k < i) ==> Untouched(m, dst, tab, k))
  }

  lemma SourceEntry(m0: Ram, m: Ram, src: Space, dst: nat, tab: map<nat, nat>, a: nat, i: nat)
    requires Sharing(m0, m, src, dst, tab, a, i) && i < 4096
    ensures L1(m, src.dir, i) == L1(m0, src.dir, i)
    ensures var d := L1(m0, src.dir, i);
            || IsSection(d) || d / 0x400 == 0
            || (IsCoarse(d) && InRam(TablePage(d)) && Part(TablePage(d), src.dir, src.tab, src.kt))
  {
    assert forall p :: src.dir <= p < src.dir + 4 ==> Part(p, src.dir, src.tab, src.kt);
    L1Same(m0, m, src.dir, i);
    assert EntryOk(L1(m0, src.dir, i), i, src.tab, src.kt);
    if i / 4 in src.tab { CoarseParts(src.tab[i / 4], i % 4); }
  }

  lemma ShareNothing(m0: Ram, m: Ram, src: Space, dst: nat, tab: map<nat, nat>, a: nat, i: nat)
    requires Sharing(m0, m, src, dst, tab, a, i) && i < 4096 && L1(m0, src.dir, i) / 0x400 == 0
    ensures Sharing(m0, m, src, dst, tab, a, i + 1)
  {
    hide DirOk, Part, L1, Coarse;
    DirInside(m0, src.dir, src.tab, src.kt);
    DirInside(m, dst, tab, {});
    assert Untouched(m, dst, tab, i);
    assert Shared(m0, m, src, dst, tab, i);
  }

  lemma ShareSection(m0: Ram, m: Ram, src: Space, dst: nat, tab: map<nat, nat>, a: nat, i: nat)
    requires Sharing(m0, m, src, dst, tab, a, i) && i < 4096 && IsSection(L1(m0, src.dir, i))
    ensures Sharing(m0, SetL1(m, dst, i, L1(m0, src.dir, i)), src, dst, tab, a, i + 1)
  {
    hide L1, L2, Coarse;
    var d := L1(m0, src.dir, i);
    var m' := SetL1(m, dst, i, d);
    SetL1Pages(m, dst, i, d);
    forall k: nat | k < 4096
      ensures L1(m', dst, k) == if k == i then d else L1(m, dst, k)
      ensures forall j: nat :: j < 256 && k / 4 in tab ==> L2(m', tab[k / 4], k % 4, j) == L2(m, tab[k / 4], k % 4, j)
    {
      SetL1ReadBack(m, dst, i, d, k);
      if k / 4 in tab { L2Same(m, m', tab[k / 4], k % 4); }
    }
    forall p: nat | p < RAM_PAGES && Part(p, src.dir, src.tab, src.kt) ensures m'[p] == m0[p] {
      assert !Part(p, dst, tab, {});
    }
    forall k: nat | k < 4096 ensures EntryOk(L1(m', dst, k), k, tab, {}) {
      assert EntryOk(L1(m, dst, k), k, tab, {});
    }
    assert IsSection(d);
    forall k: nat | a <= k < i + 1 ensures Shared(m0, m', src, dst, tab, k) {
      if k < i { assert Shared(m0, m, src, dst, tab, k); }
    }
    forall k: nat | k < 4096 && !(a <= k < i + 1) ensures Untouched(m', dst, tab, k) {
      assert Untouched(m, dst, tab, k);
    }
  }

  /** A group without a table is empty in the destination unless a section came before. */
  lemma HalfUsed(m0: Ram, m: Ram, src: Space, dst: nat, tab: map<nat, nat>, a: nat, i: nat, k: nat)
    requires Sharing(m0, m, src, dst, tab, a, i) && i < 4096 && i / 4 !in tab && IsCoarse(L1(m0, src.dir, i))
    requires k < 4096 && k / 4 == i / 4 && L1(m, dst, k) / 0x400 != 0
    ensures !Orderly(m0, src.dir, a, i + 1)
  {
    hide L1, Coarse, Part, EntryOk;
    assert a <= k < i || Untouched(m, dst, tab, k);
    assert Shared(m0, m, src, dst, tab, k);
    assert IsSection(L1(m0, src.dir, k));
    forall c: nat | a <= c < k && c / 4 == k / 4 ensures !IsCoarse(L1(m0, src.dir, c)) {
      assert Shared(m0, m, src, dst, tab, c);
    }
  }

  /** Entries in order so far stay in order when the next one is no coarse table, or its group
      has one, or its group has no section before it. */
  lemma StillOrderly(m: Ram, src: nat, a: nat, i: nat)
    requires src + 4 <= RAM_PAGES && i < 4096 && Orderly(m, src, a, i)
    requires IsCoarse(L1(m, src, i)) ==> HasTable(m, src, a, i, i / 4)
                                         || forall k: nat :: a <= k < i && k / 4 == i / 4 ==> !IsSection(L1(m, src, k))
    ensures Orderly(m, src, a, i + 1)
  {
    forall k: nat | a <= k < i && k / 4 == i / 4 && IsSection(L1(m, src, k)) && IsCoarse(L1(m, src, i))
      ensures HasTable(m, src, a, k, k / 4)
    {
      var c: nat :| a <= c < i && c / 4 == i / 4 && IsCoarse(L1(m, src, c));
    }
  }

  /** A new table for the group of entry i. */
  lemma ShareTabled(m0: Ram, m: Ram, src: Space, dst: nat, tab: map<nat, nat>, a: nat, i: nat, t: nat)
    requires Sharing(m0, m, src, dst, tab, a, i) && i < 4096 && i / 4 !in tab && t < RAM_PAGES
    requires !Part(t, dst, tab, {}) && !Part(t, src.dir, src.tab, src.kt)
    requires forall k: nat :: k < 4096 && k / 4 == i / 4 ==> L1(m, dst, k) / 0x400 == 0
    ensures Sharing(m0, Tabled(m, dst, i / 4, t), src, dst, tab[i / 4 := t], a, i)
  {
    hide L1, L2, Coarse, Words, EntryOk;
    var m', g, tab' := Tabled(m, dst, i / 4, t), i / 4, tab[i / 4 := t];
    TabledDir(m, dst, tab, {}, g, t);
    forall p: nat | p < RAM_PAGES && Part(p, src.dir, src.tab, src.kt)
      ensures m'[p] == m0[p] && !Part(p, dst, tab', {}) {
      if Part(p, dst, tab', {}) { PartTable(p, dst, tab, {}, g, t); }
      QuadsReadBack(m[t := Words(FILL)], dst, g, t, 0);
    }
    forall k: nat | k < 4096
      ensures k / 4 != g && Untouched(m, dst, tab, k) ==> Untouched(m', dst, tab', k)
      ensures k / 4 == g ==> Untouched(m', dst, tab', k)
      ensures k / 4 != g && Shared(m0, m, src, dst, tab, k) ==> Shared(m0, m', src, dst, tab', k)
    {
      TabledEntry(m, dst, tab, g, t, k);
    }
    forall k: nat | a <= k < i ensures Shared(m0, m', src, dst, tab', k) {
      assert Shared(m0, m, src, dst, tab, k);
    }
  }

  lemma TabledEntry(m: Ram, dst: nat, tab: map<nat, nat>, g: nat, t: nat, k: nat)
    requires dst + 4 <= RAM_PAGES && g < 1024 && g !in tab && t < RAM_PAGES && !Part(t, dst, tab, {}) && k < 4096
    requires forall g :: g in tab ==> tab[g] < RAM_PAGES && !(dst <= tab[g] < dst + 4)
    ensures L1(Tabled(m, dst, g, t), dst, k) == if k / 4 == g then Coarse(t, k % 4) else L1(m, dst, k)
    ensures k / 4 == g ==> forall j: nat :: j < 256 ==> L2(Tabled(m, dst, g, t), t, k % 4, j) == FILL
    ensures k / 4 in tab ==> forall j: nat :: j < 256 ==>
            L2(Tabled(m, dst, g, t), tab[k / 4], k % 4, j) == L2(m, tab[k / 4], k % 4, j)
  {
    hide L1, Coarse, Words;
    var m0, m' := m[t := Words(FILL)], Tabled(m, dst, g, t);
    QuadsReadBack(m0, dst, g, t, k);
    L1Same(m, m0, dst, k);
    forall j: nat | j < 256 ensures L2(m', t, k % 4, j) == FILL {
      FillL2(m', t, k % 4, j);
    }
    if k / 4 in tab {
      assert Part(tab[k / 4], dst, tab, {});
      L2Same(m, m', tab[k / 4], k % 4);
    }
  }

  /** The 256 entries of a coarse table copied into a table of fault entries. */
  lemma ShareCopied(m0: Ram, m: Ram, src: Space, dst: nat, tab: map<nat, nat>, a: nat, i: nat)
    requires Sharing(m0, m, src, dst, tab, a, i) && i < 4096 && i / 4 in tab && IsCoarse(L1(m0, src.dir, i))
    requires tab[i / 4] < RAM_PAGES && InRam(TablePage(L1(m0, src.dir, i)))
    ensures var d := L1(m0, src.dir, i);
            Sharing(m0, Copy(m, TablePage(d), d / 0x400 % 4, tab[i / 4], i % 4, 256), src, dst, tab, a, i + 1)
  {
    hide L1, L2, Coarse, EntryOk, Copy;
    var d, t := L1(m0, src.dir, i), tab[i / 4];
    var s := TablePage(d);
    var m' := Copy(m, s, d / 0x400 % 4, t, i % 4, 256);
    SourceEntry(m0, m, src, dst, tab, a, i);
    assert Part(s, src.dir, src.tab, src.kt) && Part(t, dst, tab, {});
    DirFrame(m, m', dst, tab, {});
    assert Untouched(m, dst, tab, i);
    CopiedEntry(m, dst, tab, s, d / 0x400 % 4, i, i);
    L2Same(m0, m, s, d / 0x400 % 4);
    forall k: nat | a <= k < i ensures Shared(m0, m', src, dst, tab, k) {
      assert Shared(m0, m, src, dst, tab, k);
      CopiedEntry(m, dst, tab, s, d / 0x400 % 4, i, k);
    }
    forall k: nat | k < 4096 && !(a <= k < i + 1) ensures Untouched(m', dst, tab, k) {
      assert Untouched(m, dst, tab, k);
      CopiedEntry(m, dst, tab, s, d / 0x400 % 4, i, k);
    }
  }

  lemma CopiedEntry(m: Ram, dst: nat, tab: map<nat, nat>, s: nat, sq: nat, i: nat, k: nat)
    requires dst + 4 <= RAM_PAGES && i < 4096 && i / 4 in tab && s < RAM_PAGES && sq < 4 && s != tab[i / 4] && k < 4096
    requires forall g :: g in tab ==> tab[g] < RAM_PAGES && !(dst <= tab[g] < dst + 4)
    requires forall g, h :: g in tab && h in tab && tab[g] == tab[h] ==> g == h
    ensures L1(Copy(m, s, sq, tab[i / 4], i % 4, 256), dst, k) == L1(m, dst, k)
    ensures k / 4 in tab ==> forall j: nat :: j < 256 ==>
              L2(Copy(m, s, sq, tab[i / 4], i % 4, 256), tab[k / 4], k % 4, j) ==
              if k == i && L2(m, s, sq, j) / 0x1000 != 0 then L2(m, s, sq, j) else L2(m, tab[k / 4], k % 4, j)
  {
    hide L1, L2, Copy;
    var t := tab[i / 4];
    var m' := Copy(m, s, sq, t, i % 4, 256);
    L1Same(m, m', dst, k);
    if k / 4 in tab && k / 4 != i / 4 {
      L2Same(m, m', tab[k / 4], k % 4);
    } else if k / 4 == i / 4 {
      forall j: nat | j < 256
        ensures L2(m', t, k % 4, j) ==
                if k == i && L2(m, s, sq, j) / 0x1000 != 0 then L2(m, s, sq, j) else L2(m, t, k % 4, j)
      {
        CopyReadBack(m, s, sq, t, i % 4, 256, k % 4, j);
      }
    }
  }

  lemma SharingInside(m0: Ram, m: Ram, src: Space, dst: nat, tab: map<nat, nat>, a: nat, i: nat)
    requires Sharing(m0, m, src, dst, tab, a, i)
    ensures src.dir + 4 <= RAM_PAGES && dst + 4 <= RAM_PAGES && forall g :: g in tab ==> g < 1024 && tab[g] < RAM_PAGES
    ensures DirOk(m, dst, tab, {}) && a <= i
  {
  }

  /** Entry i of the source and the destination, before it is shared. */
  lemma DestEntry(m0: Ram, m: Ram, src: Space, dst: nat, tab: map<nat, nat>, a: nat, i: nat)
    requires Sharing(m0, m, src, dst, tab, a, i) && i < 4096 && IsCoarse(L1(m0, src.dir, i))
    ensures a <= i && dst + 4 <= RAM_PAGES && (i / 4 in tab ==> tab[i / 4] < RAM_PAGES)
    ensures var s := TablePage(L1(m0, src.dir, i)); InRam(s)
    ensures var e := L1(m, dst, i);
            if i / 4 in tab then TablePage(e) == tab[i / 4] && e / 0x400 % 4 == i % 4 && e / 0x400 != 0
              else e / 0x400 == 0
  {
    SourceEntry(m0, m, src, dst, tab, a, i);
    assert Untouched(m, dst, tab, i);
    if i / 4 in tab { CoarseParts(tab[i / 4], i % 4); }
  }

  /** In an empty group there was no section to share. */
  lemma NoSections(m0: Ram, m: Ram, src: Space, dst: nat, tab: map<nat, nat>, a: nat, i: nat)
    requires Sharing(m0, m, src, dst, tab, a, i) && i < 4096
    requires dst + 4 <= RAM_PAGES && forall k: nat :: k < 4096 && k / 4 == i / 4 ==> L1(m, dst, k) / 0x400 == 0
    ensures src.dir + 4 <= RAM_PAGES && forall k: nat :: a <= k < i && k / 4 == i / 4 ==> !IsSection(L1(m0, src.dir, k))
  {
    hide L1;
    forall k: nat | a <= k < i && k / 4 == i / 4 ensures !IsSection(L1(m0, src.dir, k)) {
      assert Shared(m0, m, src, dst, tab, k);
    }
  }

  lemma ShareStart(m0: Ram, src: Space, dst: nat, a: nat)
    requires DirOk(m0, src.dir, src.tab, src.kt) && KERNEL_L1 <= a <= 4096
    requires dst + 4 <= RAM_PAGES && forall k: nat :: k < 4096 ==> L1(m0, dst, k) == EMPTY
    requires forall p: nat :: Part(p, src.dir, src.tab, src.kt) ==> !(dst <= p < dst + 4)
    ensures Sharing(m0, m0, src, dst, map[], a, a) && Tabs(m0, src.dir, map[], a, a) && Orderly(m0, src.dir, a, a)
  {
    hide L1;
    forall p: nat | Part(p, src.dir, src.tab, src.kt) ensures !Part(p, dst, map[], {}) {
    }
  }

  lemma OrderlyPrefix(m: Ram, src: nat, a: nat, i: nat, n: nat)
    requires src + 4 <= RAM_PAGES && i <= n <= 4096
    ensures Orderly(m, src, a, n) ==> Orderly(m, src, a, i)
  {
  }

  lemma SharedDone(m0: Ram, m: Ram, src: Space, dst: nat, tab: map<nat, nat>, a: nat, n: nat)
    requires Sharing(m0, m, src, dst, tab, a, n) && Tabs(m0, src.dir, tab, a, n)
    ensures src.dir + 4 <= RAM_PAGES && dst + 4 <= RAM_PAGES && n <= 4096
    ensures DirOk(m, dst, tab, {}) && DirOk(m, src.dir, src.tab, src.kt)
    ensures forall dacr: u32, va: u32 :: Walk(m, dacr, src.dir, va) == Walk(m0, dacr, src.dir, va)
    ensures SystemDomain(m0, src.dir, a, n) ==> SharedSpace(m0, m, src.dir, dst, a, n)
  {
    hide Walk, SharedSpace, SystemDomain, EntryOk, L1;
    assert forall p :: src.dir <= p < src.dir + 4 ==> Part(p, src.dir, src.tab, src.kt);
    DirFrame(m0, m, src.dir, src.tab, src.kt);
    forall dacr: u32, va: u32 ensures Walk(m, dacr, src.dir, va) == Walk(m0, dacr, src.dir, va) {
      WalkFrame(m0, m, dacr, src.dir, src.tab, src.kt, va);
    }
    if SystemDomain(m0, src.dir, a, n) { SharingDone(m0, m, src, dst, tab, a, n); }
  }

  /** Every table page of the destination stands for a coarse table of the source. */
  ghost predicate Tabs(m0: Ram, src: nat, tab: map<nat, nat>, a: nat, i: nat)
    requires src + 4 <= RAM_PAGES && i <= 4096
  {
    forall g :: g in tab ==> HasTable(m0, src, a, i, g)
  }

  /** The groups in which some entry from a to n - 1 names a coarse table. */
  ghost function TableGroups(m: Ram, src: nat, a: nat, n: nat): set<nat>
    requires src + 4 <= RAM_PAGES && n <= 4096
  {
    set g: nat | g < 1024 && HasTable(m, src, a, n, g)
  }

  /** A group that needs a table has none yet. */
  lemma OneGroupMore(m: Ram, src: nat, tab: map<nat, nat>, a: nat, i: nat, n: nat)
    requires src + 4 <= RAM_PAGES && a <= i < n <= 4096 && Tabs(m, src, tab, a, i)
    requires i / 4 !in tab && IsCoarse(L1(m, src, i))
    ensures |tab| < |TableGroups(m, src, a, n)|
  {
    hide L1, IsCoarse;
    forall g | g in tab ensures g in TableGroups(m, src, a, n) {
      var c: nat :| a <= c < i && c / 4 == g && IsCoarse(L1(m, src, c));
    }
    assert i / 4 in TableGroups(m, src, a, n);
    Fewer(tab.Keys + {i / 4}, TableGroups(m, src, a, n));
  }

  lemma Fewer(s: set<nat>, t: set<nat>)
    requires s <= t
    ensures |s| <= |t|
  {
    assert t == s + (t - s);
  }

  /** At the end the groups with a table are those. */
  lemma GroupsDone(m0: Ram, m: Ram, src: Space, dst: nat, tab: map<nat, nat>, a: nat, n: nat)
    requires Sharing(m0, m, src, dst, tab, a, n) && src.dir + 4 <= RAM_PAGES && Tabs(m0, src.dir, tab, a, n)
    ensures |tab| == |TableGroups(m0, src.dir, a, n)|
  {
    hide L1, DirOk;
    DirInside(m, dst, tab, {});
    forall g | g in tab ensures g in TableGroups(m0, src.dir, a, n) {
      assert HasTable(m0, src.dir, a, n, g);
    }
    forall g | g in TableGroups(m0, src.dir, a, n) ensures g in tab {
      var c: nat :| a <= c < n && c / 4 == g && IsCoarse(L1(m0, src.dir, c));
      assert Shared(m0, m, src, dst, tab, c);
    }
    assert tab.Keys == TableGroups(m0, src.dir, a, n);
  }

  lemma TabsMore(m0: Ram, src: nat, tab: map<nat, nat>, a: nat, i: nat)
    requires src + 4 <= RAM_PAGES && a <= i < 4096
    requires forall g :: g in tab ==> HasTable(m0, src, a, i, g) || (g == i / 4 && IsCoarse(L1(m0, src, i)))
    ensures Tabs(m0, src, tab, a, i + 1)
  {
    forall g | g in tab ensures HasTable(m0, src, a, i + 1, g) {
      var c: nat :| a <= c < i + 1 && c / 4 == g && IsCoarse(L1(m0, src, c));
    }
  }

  /** The two levels of the walk lead somewhere: to a section or to a page other than the first. */
  ghost predicate Leads(m: Ram, dir: nat, va: u32)
    requires dir + 4 <= RAM_PAGES
  {
    var d := L1(m, dir, va / 0x10_0000);
    IsSection(d) || (IsCoarse(d) && InRam(TablePage(d))
      && L2(m, TablePage(d), d / 0x400 % 4, va / 0x1000 % 256) / 0x1000 != 0)
  }

  /** Entries a to n - 1 of src, as they were in m0, are shared by dst in m: an address that
      leads somewhere translates as it does for the source; the rest of a 4 MB group with a
      coarse table is fault entries; everything else is empty. */
  ghost predicate SharedSpace(m0: Ram, m: Ram, src: nat, dst: nat, a: nat, n: nat)
    requires src + 4 <= RAM_PAGES && dst + 4 <= RAM_PAGES && n <= 4096
  {
    forall dacr: u32, va: u32 ::
      Walk(m, dacr, dst, va) == if a <= va / 0x10_0000 < n && Leads(m0, src, va) then Walk(m0, dacr, src, va)
                                else if HasTable(m0, src, a, n, va / 0x40_0000) then FillWalk(dacr, va)
                                else Fault
  }

  /** The coarse tables that entries a to n - 1 name belong to the system's domain. */
  ghost predicate SystemDomain(m: Ram, src: nat, a: nat, n: nat)
    requires src + 4 <= RAM_PAGES && n <= 4096
  {
    forall k: nat :: a <= k < n && IsCoarse(L1(m, src, k)) ==> L1(m, src, k) / 32 % 16 == 1
  }

  lemma SharingDone(m0: Ram, m: Ram, src: Space, dst: nat, tab: map<nat, nat>, a: nat, n: nat)
    requires Sharing(m0, m, src, dst, tab, a, n) && Tabs(m0, src.dir, tab, a, n) && SystemDomain(m0, src.dir, a, n)
    ensures SharedSpace(m0, m, src.dir, dst, a, n)
  {
    hide Walk;
    forall dacr: u32, va: u32
      ensures Walk(m, dacr, dst, va) ==
              if a <= va / 0x10_0000 < n && Leads(m0, src.dir, va) then Walk(m0, dacr, src.dir, va)
                                        else if HasTable(m0, src.dir, a, n, va / 0x40_0000) then FillWalk(dacr, va)
                                        else Fault
    {
      SharedWalk(m0, m, dacr, src, dst, tab, a, n, va);
    }
  }

  lemma SharedWalk(m0: Ram, m: Ram, dacr: u32, src: Space, dst: nat, tab: map<nat, nat>, a: nat, n: nat, va: u32)
    requires Sharing(m0, m, src, dst, tab, a, n) && Tabs(m0, src.dir, tab, a, n) && SystemDomain(m0, src.dir, a, n)
    ensures Walk(m, dacr, dst, va) ==
            if a <= va / 0x10_0000 < n && Leads(m0, src.dir, va) then Walk(m0, dacr, src.dir, va)
                                      else if HasTable(m0, src.dir, a, n, va / 0x40_0000) then FillWalk(dacr, va)
                                      else Fault
  {
    hide Walk, Leads, EntryOk, Part, L1;
    var k := va / 0x10_0000;
    AddressParts(va, va);
    if HasTable(m0, src.dir, a, n, k / 4) {
      var c: nat :| a <= c < n && c / 4 == k / 4 && IsCoarse(L1(m0, src.dir, c));
      assert Shared(m0, m, src, dst, tab, c);
    }
    if a <= k < n {
      assert Shared(m0, m, src, dst, tab, k);
      SharedEntryWalk(m0, m, dacr, src, dst, tab, va);
    } else {
      assert Untouched(m, dst, tab, k);
      UntouchedWalk(m, dacr, dst, tab, va);
    }
  }

  lemma UntouchedWalk(m: Ram, dacr: u32, dst: nat, tab: map<nat, nat>, va: u32)
    requires dst + 4 <= RAM_PAGES && forall g :: g in tab ==> tab[g] < RAM_PAGES
    requires Untouched(m, dst, tab, va / 0x10_0000)
    ensures Walk(m, dacr, dst, va) == if va / 0x10_0000 / 4 in tab then FillWalk(dacr, va) else Fault
  {
    hide L1, L2, Leaf, Access, Coarse;
    var k := va / 0x10_0000;
    if k / 4 in tab {
      CoarseParts(tab[k / 4], k % 4);
      FillLeaf(Access(dacr, 1), va);
    }
  }

  lemma SharedEntryWalk(m0: Ram, m: Ram, dacr: u32, src: Space, dst: nat, tab: map<nat, nat>, va: u32)
    requires src.dir + 4 <= RAM_PAGES && dst + 4 <= RAM_PAGES && forall g :: g in tab ==> tab[g] < RAM_PAGES
    requires var d := L1(m0, src.dir, va / 0x10_0000); IsCoarse(d) ==> d / 32 % 16 == 1
    requires Shared(m0, m, src, dst, tab, va / 0x10_0000)
    ensures Walk(m, dacr, dst, va) == if Leads(m0, src.dir, va) then Walk(m0, dacr, src.dir, va)
                                      else if va / 0x10_0000 / 4 in tab then FillWalk(dacr, va) else Fault
  {
    hide L1, L2, Leaf, Access, Coarse, Granted;
    var k := va / 0x10_0000;
    var d := L1(m0, src.dir, k);
    if !IsSection(d) && IsCoarse(d) {
      CoarseParts(tab[k / 4], k % 4);
      FillLeaf(Access(dacr, 1), va);
    } else if !IsSection(d) {
      UntouchedWalk(m, dacr, dst, tab, va);
    }
  }

  lemma SetL1Pages(m: Ram, dir: nat, i: nat, w: u32)
    requires dir + 4 <= RAM_PAGES && i < 4096
    ensures forall p: nat :: p < RAM_PAGES && !(dir <= p < dir + 4) ==> SetL1(m, dir, i, w)[p] == m[p]
  {
  }

  lemma L2Same(m: Ram, m': Ram, t: nat, q: nat)
    requires t < RAM_PAGES && q < 4 && m'[t] == m[t]
    ensures forall j: nat :: j < 256 ==> L2(m', t, q, j) == L2(m, t, q, j)
  {
  }

  // ---- several address spaces ----

  ghost predicate SpaceOk(m: Ram, at: seq<Buddies.Block>, s: Space) {
    DirOk(m, s.dir, s.tab, s.kt) && Claimed(at, s.dir, s.tab, s.kt)
  }

  /** Two spaces have no page in common. */
  ghost predicate Disjoint(s: Space, t: Space) {
    forall p: nat :: Part(p, s.dir, s.tab, s.kt) ==> !Part(p, t.dir, t.tab, t.kt)
  }

  /** All address spaces of the system keep the directory invariant, on pages of their own. */
  ghost predicate SpacesOk(m: Ram, at: seq<Buddies.Block>, ss: seq<Space>) {
    && (forall i :: 0 <= i < |ss| ==> SpaceOk(m, at, ss[i]))
    && (forall i, j :: 0 <= i < |ss| && 0 <= j < |ss| && i != j ==> Disjoint(ss[i], ss[j]))
  }

  /** The directory translates alike in m and m'. */
  ghost predicate SameWalks(m: Ram, m': Ram, dir: nat)
    requires dir + 4 <= RAM_PAGES
  {
    forall dacr: u32, va: u32 :: Walk(m', dacr, dir, va) == Walk(m, dacr, dir, va)
  }

  /** An operation on one space leaves every other space as it is, invariant, pages and walks. */
  lemma OtherSpace(m: Ram, at: seq<Buddies.Block>, m': Ram, at': seq<Buddies.Block>, dir: nat, tab: map<nat, nat>,
                   tab': map<nat, nat>, kt: set<nat>, t: Space)
    requires OwnOnly(m, at, m', at', dir, tab, tab') && SpaceOk(m, at, t) && Disjoint(Space(dir, tab, kt), t)
    ensures SpaceOk(m', at', t) && Disjoint(Space(dir, tab', kt), t) && Disjoint(t, Space(dir, tab', kt))
    ensures SameWalks(m, m', t.dir)
  {
    hide DirOk, Walk;
    forall p: nat | p < RAM_PAGES && Part(p, t.dir, t.tab, t.kt) ensures m'[p] == m[p] {
      assert Part(p, dir, tab, {}) ==> Part(p, dir, tab, kt);
    }
    DirInside(m, t.dir, t.tab, t.kt);
    DirPages(m, t.dir, t.tab, t.kt);
    DirFrame(m, m', t.dir, t.tab, t.kt);
    forall dacr: u32, va: u32 ensures Walk(m', dacr, t.dir, va) == Walk(m, dacr, t.dir, va) {
      WalkFrame(m, m', dacr, t.dir, t.tab, t.kt, va);
    }
    forall p: nat | Part(p, dir, tab', kt) ensures !Part(p, t.dir, t.tab, t.kt) {
      NewPart(at, dir, tab, tab', kt, p);
    }
  }

  lemma NewPart(at: seq<Buddies.Block>, dir: nat, tab: map<nat, nat>, tab': map<nat, nat>, kt: set<nat>, p: nat)
    requires (forall g :: g in tab' && g !in tab ==> !InUse(at, tab'[g])) && Part(p, dir, tab', kt)
    requires forall g :: g in tab ==> g in tab' && tab'[g] == tab[g]
    ensures Part(p, dir, tab, kt) || !InUse(at, p)
  {
    if !(dir <= p < dir + 4 || p in kt) {
      var g :| g in tab' && tab'[g] == p;
      assert g in tab ==> tab[g] == p;
    }
  }

  /** Over any run on any number of spaces: an operation on space i keeps them all. */
  lemma SpacesKept(m: Ram, at: seq<Buddies.Block>, m': Ram, at': seq<Buddies.Block>, ss: seq<Space>, i: nat,
                   tab': map<nat, nat>)
    requires SpacesOk(m, at, ss) && i < |ss|
    requires OwnOnly(m, at, m', at', ss[i].dir, ss[i].tab, tab') && SpaceOk(m', at', ss[i].(tab := tab'))
    ensures SpacesOk(m', at', ss[i := ss[i].(tab := tab')])
    ensures forall j :: 0 <= j < |ss| && j != i ==> ss[j].dir + 4 <= RAM_PAGES && SameWalks(m, m', ss[j].dir)
  {
    hide SpaceOk, Disjoint, OwnOnly, SameWalks;
    var s := ss[i];
    var ss' := ss[i := s.(tab := tab')];
    forall j | 0 <= j < |ss| && j != i
      ensures SpaceOk(m', at', ss[j]) && Disjoint(ss'[i], ss[j]) && Disjoint(ss[j], ss'[i])
      ensures ss[j].dir + 4 <= RAM_PAGES && SameWalks(m, m', ss[j].dir)
    {
      SpaceInside(m, at, ss[j]);
      OtherSpace(m, at, m', at', s.dir, s.tab, tab', s.kt, ss[j]);
    }
  }

  lemma SpaceInside(m: Ram, at: seq<Buddies.Block>, s: Space)
    requires SpaceOk(m, at, s)
    ensures s.dir + 4 <= RAM_PAGES
  {
  }

  /** A space of new pages joins: nothing that was in use changed. */
  lemma SpacesJoined(m: Ram, at: seq<Buddies.Block>, m': Ram, at': seq<Buddies.Block>, ss: seq<Space>, t: Space)
    requires SpacesOk(m, at, ss) && OwnOnly(m, at, m', at', t.dir, map[], t.tab) && t.kt == {}
    requires (forall p: nat :: t.dir <= p < t.dir + 4 ==> !InUse(at, p)) && SpaceOk(m', at', t)
    ensures SpacesOk(m', at', ss + [t])
    ensures forall j :: 0 <= j < |ss| ==> ss[j].dir + 4 <= RAM_PAGES && SameWalks(m, m', ss[j].dir)
  {
    hide SpaceOk, Disjoint, OwnOnly, SameWalks, InUse;
    forall j | 0 <= j < |ss|
      ensures SpaceOk(m', at', ss[j]) && Disjoint(t, ss[j]) && Disjoint(ss[j], t)
      ensures ss[j].dir + 4 <= RAM_PAGES && SameWalks(m, m', ss[j].dir)
    {
      SpaceInside(m, at, ss[j]);
      FreshDir(m, at, t.dir, ss[j]);
      OtherSpace(m, at, m', at', t.dir, map[], t.tab, {}, ss[j]);
    }
  }

  lemma FreshDir(m: Ram, at: seq<Buddies.Block>, dir: nat, t: Space)
    requires SpaceOk(m, at, t) && forall p: nat :: dir <= p < dir + 4 ==> !InUse(at, p)
    ensures Disjoint(Space(dir, map[], {}), t)
  {
  }
}
