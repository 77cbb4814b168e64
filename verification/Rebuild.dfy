/** The kernel's own page tables (kernel/task.c:221, lib/klib/mmu.c:11-51), stored word by
    word at physical addresses. */
module KernelMaps {
  import opened Bytes
  import opened PageTables

  const KERNEL_TTB: u32 := RAM_START + 0x1_0000
  const KERNEL_PAGE_TBL: u32 := KERNEL_TTB + 0x4000
  const VECT_PAGE_TBL: u32 := KERNEL_PAGE_TBL + 0x1_0000
  const VECT_PAGE: u32 := VECT_PAGE_TBL + 0x1000
  const PORTS_MAP_START: u32 := 0xE000_0000
  const PORTS_START: u32 := 0x4800_0000
  const PORTS_SIZE: u32 := 0x1800_0000

  /** AP_RW | DOMAIN_USR | NCNB | TTB0_SEG */
  const NORMAL_SEG_ATTR: u32 := 0xC52

  const RAM_WORDS := 0x100_0000

  /** Word k of RAM. */
  function WordAt(m: Ram, k: nat): (w: u32)
    requires k < RAM_WORDS
  {
    Word(m[k / 1024], k % 1024)
  }

  lemma StoreReadBack(m: Ram, k: nat, w: u32, b: nat)
    requires k < RAM_WORDS && b < RAM_WORDS
    ensures WordAt(m[k / 1024 := SetWord(m[k / 1024], k % 1024, w)], b) == if b == k then w else WordAt(m, b)
  {
    if b / 1024 == k / 1024 {
      SetWordReadBack(m[k / 1024], k % 1024, w, b % 1024);
    }
  }

  /** The word of RAM that a physical address points to. */
  function WordNo(addr: u32): (k: nat)
    requires RAM_START <= addr
  {
    (addr - RAM_START) / 4
  }

  method PutWord(ram: array<Block>, k: nat, w: u32)
    requires ram.Length == RAM_PAGES && k < RAM_WORDS
    modifies ram
    ensures forall b: nat :: b < RAM_WORDS ==> WordAt(ram[..], b) == if b == k then w else WordAt(old(ram[..]), b)
  {
    ghost var m := ram[..];
    ram[k / 1024] := SetWord(ram[k / 1024], k % 1024, w);
    assert ram[..] == m[k / 1024 := SetWord(m[k / 1024], k % 1024, w)];
    forall b: nat | b < RAM_WORDS ensures WordAt(ram[..], b) == if b == k then w else WordAt(m, b) {
      StoreReadBack(m, k, w, b);
    }
  }

  /** From m to m' the n words from lo on became an arithmetic progression; nothing else
      changed. */
  ghost predicate Filled(m: Ram, m': Ram, lo: nat, n: nat, first: int, step: int) {
    forall b: nat :: b < RAM_WORDS ==>
      WordAt(m', b) == if lo <= b < lo + n then first + (b - lo) * step else WordAt(m, b)
  }

  /** lib/klib/mmu.c:25 */
  method MapPageTbl(ram: array<Block>, pageTbl: u32, attr: u32, paddr: u32)
    requires ram.Length == RAM_PAGES && RAM_START <= pageTbl && WordNo(pageTbl) + 256 <= RAM_WORDS
    requires attr < 0x1000 && paddr % 0x1000 == 0 && paddr + 0x10_0000 <= TWO_32
    modifies ram
    ensures Filled(old(ram[..]), ram[..], WordNo(pageTbl), 256, attr + paddr, 0x1000)
  {
    hide WordAt;
    ghost var m := ram[..];
    var i, pa := 0, paddr;
    while i < 256
      invariant i <= 256 && (i < 256 ==> pa == paddr + i * 0x1000)
      invariant Filled(m, ram[..], WordNo(pageTbl), i, attr + paddr, 0x1000)
    {
      PutWord(ram, WordNo(pageTbl) + i, attr + pa);
      i, pa := i + 1, (pa + 0x1000) % TWO_32;
    }
  }

  /** lib/klib/mmu.c:11 */
  method MapSegDir(ram: array<Block>, paddr: u32, vaddr: u32, size: u32, ttbBase: u32, attr: u32)
    requires ram.Length == RAM_PAGES && RAM_START <= ttbBase
             && WordNo(ttbBase) + vaddr / 0x10_0000 + size / 0x10_0000 <= RAM_WORDS
    requires attr < 0x10_0000 && paddr + size <= TWO_32
    modifies ram
    ensures size % 0x10_0000 != 0 ==> ram[..] == old(ram[..])
    ensures size % 0x10_0000 == 0 ==>
              Filled(old(ram[..]), ram[..], WordNo(ttbBase) + vaddr / 0x10_0000, size / 0x10_0000,
                attr + paddr / 0x10_0000 * 0x10_0000, 0x10_0000)
  {
    hide WordAt, WordNo;
    if size % 0x10_0000 != 0 {
      return;
    }
    ghost var m, first := ram[..], paddr / 0x10_0000;
    var dir, nr := WordNo(ttbBase) + vaddr / 0x10_0000, size / 0x10_0000;
    var i, pa := 0, paddr;
    while i < nr
      invariant i <= nr && (i < nr ==> pa == paddr + i * 0x10_0000)
      invariant Filled(m, ram[..], dir, i, attr + first * 0x10_0000, 0x10_0000)
    {
      assert pa / 0x10_0000 == first + i;
      PutWord(ram, dir + i, attr + pa / 0x10_0000 * 0x10_0000);
      i, pa := i + 1, (pa + 0x10_0000) % TWO_32;
    }
  }

  /** From m to m' nr directory entries from dir on came to name the tables from tbl on, 256
      words each, whose entries run through nr megabytes from the page of first on. */
  ghost predicate Tables(m: Ram, m': Ram, dir: nat, nr: nat, entry: int, tbl: nat, first: int) {
    forall b: nat :: b < RAM_WORDS ==>
      WordAt(m', b) == if dir <= b < dir + nr then entry + (b - dir) * 0x400
                       else if tbl <= b < tbl + 256 * nr then first + (b - tbl) * 0x1000
                       else WordAt(m, b)
  }

  /** lib/klib/mmu.c:35: no table overwrites another or the directory. */
  method MapPageDir(ram: array<Block>, paddr: u32, vaddr: u32, size: u32, ttbBase: u32, dirAttr: u32, pageTbl: u32,
                    tblAttr: u32)
    requires ram.Length == RAM_PAGES && RAM_START <= ttbBase && RAM_START <= pageTbl && pageTbl % 0x400 == 0
    requires WordNo(ttbBase) + vaddr / 0x10_0000 + size / 0x10_0000 <= RAM_WORDS
             && WordNo(pageTbl) + 256 * (size / 0x10_0000) <= RAM_WORDS
    requires var dir, tbl, nr := WordNo(ttbBase) + vaddr / 0x10_0000, WordNo(pageTbl), size / 0x10_0000;
             dir + nr <= tbl || tbl + 256 * nr <= dir
    requires dirAttr < 0x400 && tblAttr < 0x1000 && paddr % 0x1000 == 0 && paddr + size <= TWO_32
    modifies ram
    ensures size % 0x10_0000 != 0 ==> ram[..] == old(ram[..])
    ensures size % 0x10_0000 == 0 ==>
              Tables(old(ram[..]), ram[..], WordNo(ttbBase) + vaddr / 0x10_0000, size / 0x10_0000, dirAttr + pageTbl,
                WordNo(pageTbl), tblAttr + paddr)
  {
    hide WordAt;
    if size % 0x10_0000 != 0 {
      return;
    }
    ghost var m := ram[..];
    var dir, nr := WordNo(ttbBase) + vaddr / 0x10_0000, size / 0x10_0000;
    var i, pa, tbl := 0, paddr, pageTbl;
    while i < nr
      invariant i <= nr && tbl == pageTbl + 0x400 * i && (i < nr ==> pa == paddr + i * 0x10_0000)
      invariant Tables(m, ram[..], dir, i, dirAttr + pageTbl, WordNo(pageTbl), tblAttr + paddr)
    {
      PutWord(ram, dir + i, dirAttr + tbl);
      assert WordNo(tbl) == WordNo(pageTbl) + 256 * i;
      MapPageTbl(ram, tbl, tblAttr, pa);
      i, tbl, pa := i + 1, tbl + 0x400, (pa + 0x10_0000) % TWO_32;
    }
  }

  // ---- the kernel's map ----

  const DIR := 0x4000
  const TABLES := 0x5000
  const VECT_WORD := 0x9000 + 0xF0

  /** Entry i of the kernel's directory. */
  function KernelEntry(i: nat): (d: u32)
    requires i < 4096
  {
    if 0xC00 <= i < 0xC40 then KERNEL_PAGE_TBL + (i - 0xC00) * 0x400 + COARSE_ATTR
    else if 0xE00 <= i < 0xF80 then PORTS_START + (i - 0xE00) * 0x10_0000 + NORMAL_SEG_ATTR
    else if i == 0xFFF then VECT_PAGE_TBL + COARSE_ATTR
    else 0
  }

  /** Word b of RAM once the kernel's tables are in place of what m holds. */
  function KernelWord(m: Ram, b: nat): u32
    requires b < RAM_WORDS
  {
    if DIR <= b < TABLES then KernelEntry(b - DIR)
    else if TABLES <= b < 0x9000 then RAM_START + (b - TABLES) * 0x1000 + AP_USR_RO_ALL + SPG_ATTR
    else if b == VECT_WORD then VECT_PAGE + AP_RW_ALL + SPG_ATTR
    else WordAt(m, b)
  }

  method ClearDirectory(ram: array<Block>)
    requires ram.Length == RAM_PAGES
    modifies ram
    ensures forall b: nat :: b < RAM_WORDS ==>
            WordAt(ram[..], b) == if DIR <= b < TABLES then 0 else WordAt(old(ram[..]), b)
  {
    ghost var m := ram[..];
    var p := 0x10;
    while p < 0x14
      invariant 0x10 <= p <= 0x14
      invariant forall k :: 0 <= k < RAM_PAGES ==> ram[k] == if 0x10 <= k < p then ZERO_BLOCK else m[k]
    {
      ram[p] := ZERO_BLOCK;
      p := p + 1;
    }
    forall b: nat | b < RAM_WORDS ensures WordAt(ram[..], b) == if DIR <= b < TABLES then 0 else WordAt(m, b) {
      ZeroBlockWords(b % 1024);
    }
  }

  const KERNEL_DIR := 0x10

  function Pages(lo: nat, hi: nat): (s: set<nat>)
    ensures forall p: nat :: p in s <==> lo <= p < hi
    decreases hi - lo
  {
    if lo >= hi then {} else {lo} + Pages(lo + 1, hi)
  }

  /** The pages the kernel's coarse tables are in. */
  function KernelTables(): set<nat> {
    Pages(0x14, 0x25)
  }

  /** The kernel's part of the directory and the tables it names are in place; what the
      directory holds below the kernel is left open. */
  ghost predicate Rebuilt(m: Ram) {
    && (forall i: nat :: KERNEL_L1 <= i < 4096 ==> L1(m, KERNEL_DIR, i) == KernelEntry(i))
    && (forall b: nat :: TABLES <= b < 0x9000 ==>
         WordAt(m, b) == RAM_START + (b - TABLES) * 0x1000 + AP_USR_RO_ALL + SPG_ATTR)
    && WordAt(m, VECT_WORD) == VECT_PAGE + AP_RW_ALL + SPG_ATTR
  }

  /** The kernel's directory as RebuildMmu leaves it has nothing below the kernel. */
  lemma RebuiltAfter(m: Ram, m': Ram)
    requires forall b: nat :: b < RAM_WORDS ==> WordAt(m', b) == KernelWord(m, b)
    ensures Rebuilt(m') && DirOk(m', KERNEL_DIR, map[], KernelTables())
  {
    hide WordAt, KernelEntry, L1;
    forall i: nat | i < 4096
      ensures L1(m', KERNEL_DIR, i) == KernelEntry(i) && EntryOk(L1(m', KERNEL_DIR, i), i, map[], KernelTables())
    {
      DirWord(m', i);
      assert WordAt(m', DIR + i) == KernelWord(m, DIR + i);
      EntryShape(i);
    }
  }

  /** Clearing, the two ranges and the two words of the vector page together. */
  lemma KernelWords(m: Ram, m1: Ram, m2: Ram, m3: Ram, m': Ram)
    requires forall b: nat :: b < RAM_WORDS ==> WordAt(m1, b) == if DIR <= b < TABLES then 0 else WordAt(m, b)
    requires Tables(m1, m2, DIR + 0xC00, 64, COARSE_ATTR + KERNEL_PAGE_TBL, TABLES,
                    AP_USR_RO_ALL + SPG_ATTR + RAM_START)
    requires Filled(m2, m3, DIR + 0xE00, 0x180, NORMAL_SEG_ATTR + PORTS_START, 0x10_0000)
    requires forall b: nat :: b < RAM_WORDS ==>
               WordAt(m', b) == if b == VECT_WORD then VECT_PAGE + AP_RW_ALL + SPG_ATTR
                                else if b == DIR + 0xFFF then VECT_PAGE_TBL + COARSE_ATTR else WordAt(m3, b)
    ensures forall b: nat :: b < RAM_WORDS ==> WordAt(m', b) == KernelWord(m, b)
  {
    hide WordAt;
  }

  /** kernel/task.c:221, and the whole of RAM after it. */
  method RebuildMmu(ram: array<Block>)
    requires ram.Length == RAM_PAGES
    modifies ram
    ensures forall b: nat :: b < RAM_WORDS ==> WordAt(ram[..], b) == KernelWord(old(ram[..]), b)
    ensures Rebuilt(ram[..]) && DirOk(ram[..], KERNEL_DIR, map[], KernelTables())
  {
    hide WordAt, Rebuilt, DirOk, KernelWord, Tables, Filled;
    ghost var m := ram[..];
    ClearDirectory(ram);
    ghost var m1 := ram[..];
    MapPageDir(ram, RAM_START, KERNEL_SPACE_START, 0x400_0000, KERNEL_TTB, COARSE_ATTR, KERNEL_PAGE_TBL,
      AP_USR_RO_ALL + SPG_ATTR);
    ghost var m2 := ram[..];
    MapSegDir(ram, PORTS_START, PORTS_MAP_START, PORTS_SIZE, KERNEL_TTB, NORMAL_SEG_ATTR);
    ghost var m3 := ram[..];
    var vaddr: u32 := 0xFFFF_0000;
    PutWord(ram, WordNo(KERNEL_TTB) + vaddr / 0x10_0000, VECT_PAGE_TBL + COARSE_ATTR);
    PutWord(ram, WordNo(VECT_PAGE_TBL) + vaddr / 0x1000 % 0x100, VECT_PAGE + AP_RW_ALL + SPG_ATTR);
    KernelWords(m, m1, m2, m3, ram[..]);
    RebuiltAfter(m, ram[..]);
  }

  lemma DirWord(m: Ram, i: nat)
    requires i < 4096
    ensures L1(m, KERNEL_DIR, i) == WordAt(m, DIR + i)
  {
  }

  lemma TableWord(m: Ram, t: nat, q: nat, j: nat)
    requires t < RAM_PAGES && q < 4 && j < 256
    ensures L2(m, t, q, j) == WordAt(m, 1024 * t + 256 * q + j)
  {
  }

  /** The 64 MB kernel window is the RAM in order. */
  lemma KernelWindow(m: Ram, dacr: u32, va: u32)
    requires Rebuilt(m) && KERNEL_SPACE_START <= va < KERNEL_SPACE_START + 0x400_0000
    requires Access(dacr, 1) == 1 || Access(dacr, 1) == 3
    ensures Walk(m, dacr, KERNEL_DIR, va) == To(RAM_START + (va - KERNEL_SPACE_START))
  {
    hide Access, Leaf, L1, L2, WordAt, Coarse, Small, KernelEntry;
    var i, n, j := va / 0x10_0000, va / 0x10_0000 - 0xC00, va / 0x1000 % 256;
    var t, q := 0x14 + n / 4, n % 4;
    WindowEntry(n);
    CoarseParts(t, q);
    TableWord(m, t, q, j);
    AddressParts(va, va);
    var pa: u32 := RAM_START + (256 * n + j) * 0x1000;
    assert L2(m, t, q, j) == WordAt(m, TABLES + (256 * n + j));
    WindowPage(256 * n + j);
    SmallLeaf(pa, AP_USR_RO_ALL, Access(dacr, 1), va);
    assert va / 0x1000 == 0xC_0000 + 256 * n + j;
  }

  lemma WindowEntry(n: nat)
    requires n < 64
    ensures KernelEntry(0xC00 + n) == Coarse(0x14 + n / 4, n % 4)
  {
  }

  lemma WindowPage(k: nat)
    requires k < 0x4000
    ensures RAM_START + k * 0x1000 + AP_USR_RO_ALL + SPG_ATTR == Small(RAM_START + k * 0x1000, AP_USR_RO_ALL)
    ensures Small(RAM_START + k * 0x1000, AP_USR_RO_ALL) / 0x1000 != 0
  {
  }

  lemma SectionParts(p: nat)
    ensures var d := 0x10_0000 * p + NORMAL_SEG_ATTR;
            d % 4 == 2 && d / 0x400 == 4 * (0x100 * p) + 3 && d / 32 == 16 * (0x800 * p + 6) + 2 && d / 0x10_0000 == p
  {
  }

  lemma PortEntry(n: nat)
    requires n < 0x180
    ensures var d := KernelEntry(0xE00 + n);
            d % 4 == 2 && d / 0x400 % 4 == 3 && d / 32 % 16 == 2 && d / 0x10_0000 == 0x480 + n && d / 0x400 != 0
  {
    var p := 0x480 + n;
    SectionParts(p);
    FourTimes(0x100 * p, 3);
    SixteenTimes(0x800 * p + 6, 2);
    assert KernelEntry(0xE00 + n) == 0x10_0000 * p + NORMAL_SEG_ATTR;
  }

  /** The port window is the peripherals' address space in order. */
  lemma PortWindow(m: Ram, dacr: u32, va: u32)
    requires Rebuilt(m) && PORTS_MAP_START <= va < PORTS_MAP_START + PORTS_SIZE
    requires Access(dacr, 2) == 1 || Access(dacr, 2) == 3
    ensures Walk(m, dacr, KERNEL_DIR, va) == To(PORTS_START + (va - PORTS_MAP_START))
  {
    hide Access, L1, L2, WordAt, KernelEntry, Leaf;
    var n := va / 0x10_0000 - 0xE00;
    PortEntry(n);
  }

  /** The page at 0xFFFF0000 is the vector page. */
  lemma VectorPage(m: Ram, dacr: u32, va: u32)
    requires Rebuilt(m) && 0xFFFF_0000 <= va < 0xFFFF_1000
    requires Access(dacr, 1) == 1 || Access(dacr, 1) == 3
    ensures Walk(m, dacr, KERNEL_DIR, va) == To(VECT_PAGE + va % 0x1000) && Leads(m, KERNEL_DIR, va)
  {
    hide Access, Leaf, L1, L2, WordAt, KernelEntry, Coarse, Small;
    VectorEntry();
    CoarseParts(0x24, 0);
    TableWord(m, 0x24, 0, 0xF0);
    SmallLeaf(VECT_PAGE, AP_RW_ALL, Access(dacr, 1), va);
  }

  lemma VectorEntry()
    ensures KernelEntry(0xFFF) == Coarse(0x24, 0)
    ensures VECT_PAGE % 0x1000 == 0 && VECT_PAGE + AP_RW_ALL + SPG_ATTR == Small(VECT_PAGE, AP_RW_ALL) >= 0x1000
  {
  }

  predicate Windows(va: u32) {
    KERNEL_SPACE_START <= va < KERNEL_SPACE_START + 0x400_0000 || PORTS_MAP_START <= va < PORTS_MAP_START + PORTS_SIZE
  }

  /** Of the kernel's addresses below the vector table's megabyte nothing but the two windows is
      mapped. */
  lemma NothingElse(m: Ram, dacr: u32, va: u32)
    requires Rebuilt(m) && KERNEL_SPACE_START <= va < 0xFFF0_0000
    ensures Leads(m, KERNEL_DIR, va) <==> Windows(va)
    ensures !Windows(va) ==> Walk(m, dacr, KERNEL_DIR, va) == Fault
  {
    hide Access, Leaf, L1, L2, WordAt, KernelEntry, Coarse, Small;
    var i, j := va / 0x10_0000, va / 0x1000 % 256;
    if 0xC00 <= i < 0xC40 {
      var n := i - 0xC00;
      WindowEntry(n);
      CoarseParts(0x14 + n / 4, n % 4);
      TableWord(m, 0x14 + n / 4, n % 4, j);
      WindowPage(256 * n + j);
    } else if 0xE00 <= i < 0xF80 {
      PortEntry(i - 0xE00);
    } else {
      EmptyEntry(i);
    }
  }

  lemma EmptyEntry(i: nat)
    requires i < 0xFFF && !(0xC00 <= i < 0xC40) && !(0xE00 <= i < 0xF80)
    ensures KernelEntry(i) == 0
  {
  }

  /** The kernel's part of the directory is fit to be shared: its tables belong to the system's
      domain, and no group has a section before a coarse table. */
  lemma KernelFit(m: Ram)
    requires Rebuilt(m)
    ensures SystemDomain(m, KERNEL_DIR, KERNEL_L1, 4096) && Orderly(m, KERNEL_DIR, KERNEL_L1, 4096)
  {
    hide L1, WordAt, KernelEntry;
    forall i: nat | KERNEL_L1 <= i < 4096
      ensures IsCoarse(L1(m, KERNEL_DIR, i)) <==> 0xC00 <= i < 0xC40 || i == 0xFFF
      ensures IsCoarse(L1(m, KERNEL_DIR, i)) ==> L1(m, KERNEL_DIR, i) / 32 % 16 == 1
      ensures IsSection(L1(m, KERNEL_DIR, i)) ==> 0xE00 <= i < 0xF80
    {
      EntryShape(i);
    }
  }

  function Range(lo: nat, n: nat): (s: set<nat>)
    ensures forall g :: g in s <==> lo <= g < lo + n
  {
    if n == 0 then {} else Range(lo, n - 1) + {lo + n - 1}
  }

  lemma {:induction false} RangeCount(lo: nat, n: nat)
    ensures |Range(lo, n)| == n
  {
    if n > 0 {
      RangeCount(lo, n - 1);
      assert lo + n - 1 !in Range(lo, n - 1);
    }
  }

  /** Sharing it takes 17 tables: 16 for the RAM window and the vector table's. */
  lemma KernelTableCount(m: Ram)
    requires Rebuilt(m)
    ensures |TableGroups(m, KERNEL_DIR, KERNEL_L1, 4096)| == 17
  {
    hide L1, WordAt, KernelEntry, IsCoarse;
    forall i: nat | KERNEL_L1 <= i < 4096
      ensures IsCoarse(L1(m, KERNEL_DIR, i)) <==> 0xC00 <= i < 0xC40 || i == 0xFFF
    {
      EntryShape(i);
    }
    forall g: nat | g in Range(0x300, 16) + {0x3FF} ensures g in TableGroups(m, KERNEL_DIR, KERNEL_L1, 4096) {
      var c := if g == 0x3FF then 0xFFF else 4 * g;
      assert c / 4 == g && IsCoarse(L1(m, KERNEL_DIR, c));
    }
    assert TableGroups(m, KERNEL_DIR, KERNEL_L1, 4096) == Range(0x300, 16) + {0x3FF};
    RangeCount(0x300, 16);
  }

  lemma EntryShape(i: nat)
    requires i < 4096
    ensures var d := KernelEntry(i);
            && EntryOk(d, i, map[], KernelTables()) && (IsCoarse(d) <==> 0xC00 <= i < 0xC40 || i == 0xFFF)
            && (IsCoarse(d) ==> d / 32 % 16 == 1) && (IsSection(d) ==> 0xE00 <= i < 0xF80)
  {
    hide KernelEntry, Coarse;
    if 0xC00 <= i < 0xC40 {
      WindowEntry(i - 0xC00);
      CoarseParts(0x14 + (i - 0xC00) / 4, (i - 0xC00) % 4);
    } else if 0xE00 <= i < 0xF80 {
      PortEntry(i - 0xE00);
    } else if i == 0xFFF {
      VectorEntry();
      CoarseParts(0x24, 0);
    } else {
      EmptyEntry(i);
    }
  }

  /** The groups of four megabytes in which the kernel has a coarse table. */
  lemma KernelGroups(m: Ram, g: nat)
    requires Rebuilt(m) && g < 1024
    ensures HasTable(m, KERNEL_DIR, KERNEL_L1, 4096, g) <==> 0x300 <= g < 0x310 || g == 0x3FF
  {
    hide L1, WordAt, KernelEntry, IsCoarse;
    forall i: nat | KERNEL_L1 <= i < 4096 ensures IsCoarse(L1(m, KERNEL_DIR, i)) <==> 0xC00 <= i < 0xC40 || i == 0xFFF {
      EntryShape(i);
    }
    var c := if g == 0x3FF then 0xFFF else 4 * g;
    assert c / 4 == g;
    assert 0x300 <= g < 0x310 || g == 0x3FF ==> IsCoarse(L1(m, KERNEL_DIR, c));
  }

  /** A process that shares the whole kernel space sees the kernel's map: the RAM window, the
      ports and the vector page. */
  lemma ProcessSeesKernel(m0: Ram, m: Ram, dst: nat, dacr: u32, va: u32)
    requires Rebuilt(m0) && dst + 4 <= RAM_PAGES && SharedSpace(m0, m, KERNEL_DIR, dst, KERNEL_L1, 4096)
    requires Access(dacr, 1) == 3 || Access(dacr, 1) == 1
    requires Access(dacr, 2) == 3 || Access(dacr, 2) == 1
    ensures KERNEL_SPACE_START <= va < KERNEL_SPACE_START + 0x400_0000 ==>
              Walk(m, dacr, dst, va) == To(RAM_START + (va - KERNEL_SPACE_START))
    ensures PORTS_MAP_START <= va < PORTS_MAP_START + PORTS_SIZE ==>
              Walk(m, dacr, dst, va) == To(PORTS_START + (va - PORTS_MAP_START))
    ensures 0xFFFF_0000 <= va < 0xFFFF_1000 ==> Walk(m, dacr, dst, va) == To(VECT_PAGE + va % 0x1000)
  {
    hide Walk, Leads, Access, Rebuilt, HasTable;
    if KERNEL_SPACE_START <= va < 0xFFF0_0000 { NothingElse(m0, dacr, va); }
    if KERNEL_SPACE_START <= va < KERNEL_SPACE_START + 0x400_0000 { KernelWindow(m0, dacr, va); }
    if PORTS_MAP_START <= va < PORTS_MAP_START + PORTS_SIZE { PortWindow(m0, dacr, va); }
    if 0xFFFF_0000 <= va < 0xFFFF_1000 { VectorPage(m0, dacr, va); }
  }

  /** Below the vector table's megabyte, sharing the whole kernel space preserves translation
      exactly where the kernel's map is not the hole of the vector table's group or domain 1
      is no manager: in that hole the process gets fault entries, which do not stop a manager. */
  lemma SharedExactly(m0: Ram, m: Ram, dst: nat, dacr: u32, va: u32)
    requires Rebuilt(m0) && dst + 4 <= RAM_PAGES && SharedSpace(m0, m, KERNEL_DIR, dst, KERNEL_L1, 4096)
    requires KERNEL_SPACE_START <= va < 0xFFF0_0000
    ensures Walk(m, dacr, dst, va) == Walk(m0, dacr, KERNEL_DIR, va) <==> va < 0xFFC0_0000 || Access(dacr, 1) != 3
  {
    hide Walk, Leads, Access, Rebuilt, HasTable;
    KernelGroups(m0, va / 0x40_0000);
    NothingElse(m0, dacr, va);
  }
}
