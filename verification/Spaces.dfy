/** All address spaces of a run together: the kernel's, which the idle task also uses, and those
    of the other tasks (kernel/task.c:99-212). */
module AddressSpaces {
  import opened Bytes
  import opened PageTables
  import opened KernelMaps
  import Buddies

  const USR_SP: u32 := 0x6010_0000
  const KERNEL_SPACE_SIZE: u32 := 0x4000_0000
  const NO_PAGE: u32 := 0x7000_0000      // v2p(0)

  /** The first space is the kernel's; its tables are in place, and every space keeps the
      directory invariant on pages of its own. */
  ghost predicate Running(m: Ram, at: seq<Buddies.Block>, ss: seq<Space>) {
    |ss| > 0 && ss[0].dir == KERNEL_DIR && ss[0].kt == KernelTables() && Rebuilt(m) && SpacesOk(m, at, ss)
  }

  /** What every task sees of the kernel: RAM in order, the ports and the vector page. */
  ghost predicate SeesKernel(m: Ram, dir: nat)
    requires dir + 4 <= RAM_PAGES
  {
    forall dacr: u32, va: u32 ::
      Access(dacr, 1) % 2 == 1 && Access(dacr, 2) % 2 == 1 && KernelView(va) != Fault ==>
        Walk(m, dacr, dir, va) == KernelView(va)
  }

  function KernelView(va: u32): Translation {
    if KERNEL_SPACE_START <= va < KERNEL_SPACE_START + 0x400_0000 then To(RAM_START + (va - KERNEL_SPACE_START))
    else if PORTS_MAP_START <= va < PORTS_MAP_START + PORTS_SIZE then To(PORTS_START + (va - PORTS_MAP_START))
    else if 0xFFFF_0000 <= va < 0xFFFF_1000 then To(VECT_PAGE + va % 0x1000)
    else Fault
  }

  /** The kernel's part of its directory survives what leaves its pages and the other groups
      alone. */
  lemma RebuiltKept(m: Ram, m': Ram)
    requires Rebuilt(m) && (forall p: nat :: 0x14 <= p < 0x25 ==> m'[p] == m[p])
    requires forall i: nat :: KERNEL_L1 <= i < 4096 ==> L1(m', KERNEL_DIR, i) == L1(m, KERNEL_DIR, i)
    ensures Rebuilt(m')
  {
    hide L1;
    forall b: nat | TABLES <= b <= VECT_WORD ensures WordAt(m', b) == WordAt(m, b) {
      assert m'[b / 1024] == m[b / 1024];
    }
  }

  /** An operation on user addresses of space i keeps the run going. */
  lemma RunningKept(m: Ram, at: seq<Buddies.Block>, m': Ram, at': seq<Buddies.Block>, ss: seq<Space>, i: nat,
                    tab': map<nat, nat>, g: nat)
    requires Running(m, at, ss) && i < |ss| && ss[i].dir + 4 <= RAM_PAGES && g < 0x300
    requires OwnOnly(m, at, m', at', ss[i].dir, ss[i].tab, tab') && OtherGroups(m, m', ss[i].dir, g)
    requires SpaceOk(m', at', ss[i].(tab := tab'))
    ensures Running(m', at', ss[i := ss[i].(tab := tab')])
    ensures forall j :: 0 <= j < |ss| && j != i ==> ss[j].dir + 4 <= RAM_PAGES && SameWalks(m, m', ss[j].dir)
  {
    SpacesKept(m, at, m', at', ss, i, tab');
    KernelPages(m, at, m', at', ss, i, tab', g);
    RebuiltKept(m, m');
  }

  lemma KernelPages(m: Ram, at: seq<Buddies.Block>, m': Ram, at': seq<Buddies.Block>, ss: seq<Space>, i: nat,
                    tab': map<nat, nat>, g: nat)
    requires Running(m, at, ss) && i < |ss| && ss[i].dir + 4 <= RAM_PAGES && g < 0x300
    requires OwnOnly(m, at, m', at', ss[i].dir, ss[i].tab, tab') && OtherGroups(m, m', ss[i].dir, g)
    ensures forall p: nat :: 0x14 <= p < 0x25 ==> m'[p] == m[p]
    ensures forall k: nat :: KERNEL_L1 <= k < 4096 ==> L1(m', KERNEL_DIR, k) == L1(m, KERNEL_DIR, k)
  {
    hide L1, Rebuilt;
    assert SpaceOk(m, at, ss[0]) && SpaceOk(m, at, ss[i]);
    assert i != 0 ==> Disjoint(ss[0], ss[i]);
    forall p: nat | 0x14 <= p < 0x25 ensures m'[p] == m[p] {
      assert p in KernelTables() && Part(p, KERNEL_DIR, ss[0].tab, ss[0].kt);
    }
    if i != 0 {
      forall p: nat | KERNEL_DIR <= p < KERNEL_DIR + 4 ensures m'[p] == m[p] {
        assert Part(p, KERNEL_DIR, ss[0].tab, ss[0].kt);
      }
      forall k: nat | KERNEL_L1 <= k < 4096 ensures L1(m', KERNEL_DIR, k) == L1(m, KERNEL_DIR, k) {
        L1Same(m, m', KERNEL_DIR, k);
      }
    }
  }

  /** Nothing in use changed, and what was held still is. */
  ghost predicate Undisturbed(m: Ram, at: seq<Buddies.Block>, m': Ram, at': seq<Buddies.Block>) {
    && |at'| == |at| && (forall x :: 0 <= x < |at| && at[x].held ==> at'[x] == at[x])
    && (forall p: nat :: p < RAM_PAGES && InUse(at, p) ==> m'[p] == m[p])
  }

  lemma RunningUndisturbed(m: Ram, at: seq<Buddies.Block>, m': Ram, at': seq<Buddies.Block>, ss: seq<Space>)
    requires Running(m, at, ss) && Undisturbed(m, at, m', at')
    ensures Running(m', at', ss)
    ensures forall j :: 0 <= j < |ss| ==> ss[j].dir + 4 <= RAM_PAGES && SameWalks(m, m', ss[j].dir)
  {
    hide L1, Rebuilt;
    var s := ss[0];
    assert SpaceOk(m, at, s);
    assert forall p: nat :: KERNEL_DIR <= p < KERNEL_DIR + 4 ==> Part(p, KERNEL_DIR, s.tab, s.kt);
    DirFrame(m, m', KERNEL_DIR, s.tab, s.kt);
    forall k: nat | k < 4096 ensures L1(m', KERNEL_DIR, k) == L1(m, KERNEL_DIR, k) {
      L1Same(m, m', KERNEL_DIR, k);
    }
    assert s == s.(tab := s.tab) && ss[0 := s] == ss;
    SpacesKept(m, at, m', at', ss, 0, s.tab);
    forall dacr: u32, va: u32 ensures Walk(m', dacr, KERNEL_DIR, va) == Walk(m, dacr, KERNEL_DIR, va) {
      WalkFrame(m, m', dacr, KERNEL_DIR, s.tab, s.kt, va);
    }
    RebuiltAgain(m, m');
  }

  lemma RebuiltAgain(m: Ram, m': Ram)
    requires Rebuilt(m) && forall p: nat :: p < 0x400 ==> m'[p] == m[p]
    ensures Rebuilt(m')
  {
    hide L1;
    forall k: nat | k < 4096 ensures L1(m', KERNEL_DIR, k) == L1(m, KERNEL_DIR, k) {
      L1Same(m, m', KERNEL_DIR, k);
    }
    RebuiltKept(m, m');
  }

  /** The kernel's own map is what SeesKernel says. */
  lemma KernelSees(m: Ram)
    requires Rebuilt(m)
    ensures SeesKernel(m, KERNEL_DIR)
  {
    hide Walk, Rebuilt, Access;
    forall dacr: u32, va: u32 | Access(dacr, 1) % 2 == 1 && Access(dacr, 2) % 2 == 1 && KernelView(va) != Fault
      ensures Walk(m, dacr, KERNEL_DIR, va) == KernelView(va)
    {
      AccessBits(dacr, 1);
      AccessBits(dacr, 2);
      if KERNEL_SPACE_START <= va < KERNEL_SPACE_START + 0x400_0000 {
        KernelWindow(m, dacr, va);
      } else if PORTS_MAP_START <= va < PORTS_MAP_START + PORTS_SIZE {
        PortWindow(m, dacr, va);
      } else {
        VectorPage(m, dacr, va);
      }
    }
  }

  lemma AccessBits(dacr: u32, d: nat)
    ensures Access(dacr, d) < 4
  {
  }

  lemma SharedSees(m0: Ram, m: Ram, dst: nat)
    requires Rebuilt(m0) && dst + 4 <= RAM_PAGES && SharedSpace(m0, m, KERNEL_DIR, dst, KERNEL_L1, 4096)
    ensures SeesKernel(m, dst)
  {
    hide Walk, Rebuilt, Access, SharedSpace;
    forall dacr: u32, va: u32 | Access(dacr, 1) % 2 == 1 && Access(dacr, 2) % 2 == 1 && KernelView(va) != Fault
      ensures Walk(m, dacr, dst, va) == KernelView(va)
    {
      AccessBits(dacr, 1);
      AccessBits(dacr, 2);
      ProcessSeesKernel(m0, m, dst, dacr, va);
    }
  }

  /** rebuild_mmu starts the run: one space, with nothing below the kernel. */
  method StartKernel(mach: Machine) returns (ghost ss: seq<Space>)
    requires mach.Valid()
    modifies mach.ram
    ensures mach.Valid() && Running(mach.ram[..], mach.buddy.at, ss) && ss == [Space(KERNEL_DIR, map[], KernelTables())]
    ensures SeesKernel(mach.ram[..], KERNEL_DIR)
  {
    hide Buddies.BuddyLists.Shaped, Rebuilt, DirOk, SeesKernel;
    RebuildMmu(mach.ram);
    KernelSees(mach.ram[..]);
    ss := [Space(KERNEL_DIR, map[], KernelTables())];
  }

  /** map_vaddr2paddr on one of the spaces. */
  method MapPage(mach: Machine, dir: nat, vaddr: u32, paddr: u32, ap: nat, ghost ss: seq<Space>, ghost i: nat)
    returns (ok: bool, ghost ss': seq<Space>)
    requires mach.Valid() && Running(mach.ram[..], mach.buddy.at, ss) && i < |ss| && dir == ss[i].dir
    requires vaddr % 0x1000 == 0 && paddr % 0x1000 == 0 && vaddr < KERNEL_SPACE_START
    requires ap == AP_RW_ALL || ap == AP_USR_RO_ALL
    modifies mach.ram, mach.buddy.links, mach.buddy.page, mach.buddy`at, mach.buddy`runs
    ensures mach.Valid() && Running(mach.ram[..], mach.buddy.at, ss') && |ss'| == |ss| && dir + 4 <= RAM_PAGES
    ensures ss' == ss[i := ss[i].(tab := ss'[i].tab)]
    ensures forall j :: 0 <= j < |ss| && j != i ==>
            ss[j].dir + 4 <= RAM_PAGES && SameWalks(old(mach.ram[..]), mach.ram[..], ss[j].dir)
    ensures !ok <==> vaddr / 0x40_0000 !in ss[i].tab && Buddies.FreePages(old(mach.buddy.at)) == {}
    ensures ok ==> OnePage(old(mach.ram[..]), mach.ram[..], dir, vaddr, paddr, vaddr / 0x40_0000 in ss[i].tab)
    ensures ok ==> ss'[i].tab.Keys == ss[i].tab.Keys + {vaddr / 0x40_0000}
  {
    hide Buddies.FreePages, Buddies.BuddyLists.Shaped, Rebuilt, DirOk, Claimed, OwnOnly, OtherGroups, OnePage,
         SameWalks, Disjoint;
    ghost var m, at, s := mach.ram[..], mach.buddy.at, ss[i];
    assert SpaceOk(m, at, s);
    ghost var tab;
    ok, tab := mach.MapVaddr2paddr(dir, vaddr, paddr, ap, s.tab, s.kt);
    DirInside(m, s.dir, s.tab, s.kt);
    RunningKept(m, at, mach.ram[..], mach.buddy.at, ss, i, tab, vaddr / 0x40_0000);
    ss' := ss[i := s.(tab := tab)];
  }

  /** do_page_fault in one of the spaces. */
  method HandleFault(mach: Machine, dir: nat, kind: nat, vaddr: u32, ghost ss: seq<Space>, ghost i: nat)
    returns (r: FaultResult, ghost ss': seq<Space>)
    requires mach.Valid() && Running(mach.ram[..], mach.buddy.at, ss) && i < |ss| && dir == ss[i].dir
    requires 0x6000_0000 <= vaddr < KERNEL_SPACE_START
    modifies mach.ram, mach.buddy.links, mach.buddy.page, mach.buddy`at, mach.buddy`runs
    ensures mach.Valid() && Running(mach.ram[..], mach.buddy.at, ss') && |ss'| == |ss|
    ensures ss' == ss[i := ss[i].(tab := ss'[i].tab)]
    ensures forall j :: 0 <= j < |ss| && j != i ==>
            ss[j].dir + 4 <= RAM_PAGES && SameWalks(old(mach.ram[..]), mach.ram[..], ss[j].dir)
    ensures r == NoMemory <==>
            r != BadFault && |Buddies.FreePages(old(mach.buddy.at))| < if vaddr / 0x40_0000 in ss[i].tab then 1 else 2
    ensures r == BadFault <==>
            !(kind == 0x0B && vaddr / 0x40_0000 !in ss[i].tab) && !(kind == 0x0F && vaddr / 0x40_0000 in ss[i].tab)
  {
    hide Buddies.FreePages, Buddies.BuddyLists.Shaped, Rebuilt, DirOk, Claimed, OwnOnly, OtherGroups, OnePage,
         SameWalks, Disjoint;
    ghost var m, at, s := mach.ram[..], mach.buddy.at, ss[i];
    assert SpaceOk(m, at, s);
    ghost var tab;
    var p;
    r, p, tab := mach.DoPageFault(dir, kind, vaddr, s.tab, s.kt);
    DirInside(m, s.dir, s.tab, s.kt);
    RunningKept(m, at, mach.ram[..], mach.buddy.at, ss, i, tab, vaddr / 0x40_0000);
    ss' := ss[i := s.(tab := tab)];
  }

  /** find_free_page while tasks run. */
  method TakePage(mach: Machine, ghost ss: seq<Space>) returns (ok: bool, t: nat)
    requires mach.Valid() && Running(mach.ram[..], mach.buddy.at, ss)
    modifies mach.ram, mach.buddy.links, mach.buddy.page, mach.buddy`at, mach.buddy`runs
    ensures mach.Valid() && Running(mach.ram[..], mach.buddy.at, ss)
    ensures !ok <==> Buddies.FreePages(old(mach.buddy.at)) == {}
    ensures |Buddies.FreePages(mach.buddy.at)| == |Buddies.FreePages(old(mach.buddy.at))| - if ok then 1 else 0
    ensures ok ==> 0x400 <= t < RAM_PAGES && !InUse(old(mach.buddy.at), t) && InUse(mach.buddy.at, t)
    ensures forall j :: 0 <= j < |ss| ==>
            ss[j].dir + 4 <= RAM_PAGES && SameWalks(old(mach.ram[..]), mach.ram[..], ss[j].dir)
  {
    hide Buddies.FreePages, Buddies.Allocated, Buddies.BuddyLists.Shaped, Running, SameWalks;
    ghost var m, at := mach.ram[..], mach.buddy.at;
    ok, t := mach.GetPage();
    if ok {
      OneLessFree(at, mach.buddy.at, t - 0x400);
      PageTaken(m, at, mach.ram[..], mach.buddy.at, t);
    }
    RunningUndisturbed(m, at, mach.ram[..], mach.buddy.at, ss);
  }

  lemma PageTaken(m: Ram, at: seq<Buddies.Block>, m': Ram, at': seq<Buddies.Block>, t: nat)
    requires t >= 0x400 && Buddies.Allocated(at, at', t - 0x400, 1, Buddies.Block(t - 0x400, 0, true))
    requires t < RAM_PAGES && m' == m[t := ZERO_BLOCK]
    ensures Undisturbed(m, at, m', at') && !InUse(at, t) && InUse(at', t)
  {
  }

  /** The memory side of init_task (kernel/task.c:99-127): a page for the task itself and one
      for its stack, which is mapped in the kernel's own directory. When memory is out for the
      stack its page number is whatever address 0 makes of it. */
  method InitTask(mach: Machine, ghost ss: seq<Space>) returns (ok: bool, ghost ss': seq<Space>)
    requires mach.Valid() && Running(mach.ram[..], mach.buddy.at, ss)
    modifies mach.ram, mach.buddy.links, mach.buddy.page, mach.buddy`at, mach.buddy`runs
    ensures mach.Valid() && Running(mach.ram[..], mach.buddy.at, ss') && |ss'| == |ss|
    ensures ss' == ss[0 := ss[0].(tab := ss'[0].tab)] && SeesKernel(mach.ram[..], KERNEL_DIR)
    ensures !ok <==> |Buddies.FreePages(old(mach.buddy.at))| < if USR_SP / 0x40_0000 in ss[0].tab then 1 else 3
    ensures ok ==> USR_SP / 0x40_0000 in ss'[0].tab
  {
    hide Buddies.FreePages, Buddies.BuddyLists.Shaped, Rebuilt, SpacesOk, OnePage, SameWalks, SeesKernel;
    ss' := ss;
    ghost var m := mach.ram[..];
    KernelSees(m);
    var t;
    ok, t := TakePage(mach, ss);
    KernelSees(mach.ram[..]);
    if !ok {
      return;
    }
    ok, t := TakePage(mach, ss);
    var paddr: u32 := if ok then RAM_START + 0x1000 * t else NO_PAGE;
    ok, ss' := MapPage(mach, KERNEL_DIR, USR_SP, paddr, AP_RW_ALL, ss, 0);
    KernelSees(mach.ram[..]);
  }

  /** wordset of a whole directory with empty entries. */
  method EmptyDir(mach: Machine, dir: nat)
    requires mach.ram.Length == RAM_PAGES && dir + 4 <= RAM_PAGES
    modifies mach.ram
    ensures forall p :: 0 <= p < RAM_PAGES && !(dir <= p < dir + 4) ==> mach.ram[p] == old(mach.ram[p])
    ensures forall k: nat :: k < 4096 ==> L1(mach.ram[..], dir, k) == EMPTY
  {
    hide Words;
    ghost var m := mach.ram[..];
    var i := 0;
    while i < 4
      invariant i <= 4
      invariant forall p :: 0 <= p < RAM_PAGES ==> mach.ram[p] == if dir <= p < dir + i then Words(EMPTY) else m[p]
    {
      mach.FillPage(dir + i, EMPTY);
      i := i + 1;
    }
    forall k: nat | k < 4096 ensures L1(mach.ram[..], dir, k) == EMPTY {
      WordsRead(EMPTY, k % 1024);
    }
  }

  lemma WordsRead(w: u32, k: nat)
    requires k < 1024
    ensures Word(Words(w), k) == w
  {
    WordsReadBack(ZERO_BLOCK, 1024, w, k);
  }

  lemma DirTaken(m: Ram, at: seq<Buddies.Block>, m': Ram, at': seq<Buddies.Block>, dir: int, ss: seq<Space>)
    requires Running(m, at, ss) && |at| == Buddies.KERNEL_PAGE_NUM
    requires Buddies.Allocated(at, at', dir - 0x400, 4, Buddies.Block(dir - 0x400, 2, true))
    requires forall p :: 0 <= p < RAM_PAGES && !(dir <= p < dir + 4) ==> m'[p] == m[p]
    ensures dir + 4 <= RAM_PAGES && FreshDirectory(at, at', dir)
    ensures Undisturbed(m, at, m', at')
  {
  }

  /** The four pages of the directory were nobody's, and are held now. */
  ghost predicate FreshDirectory(at: seq<Buddies.Block>, at': seq<Buddies.Block>, dir: int) {
    dir >= 0x400 && forall p: nat :: dir <= p < dir + 4 ==> !InUse(at, p) && InUse(at', p)
  }

  lemma DirBounds(at: seq<Buddies.Block>, at': seq<Buddies.Block>, s: int)
    requires Buddies.Allocated(at, at', s, 4, Buddies.Block(s, 2, true))
    ensures 0 <= s && s + 4 <= |at| && |Buddies.FreePages(at')| == |Buddies.FreePages(at)| - 4
  {
    Buddies.Conservation(at, at', s, 4, Buddies.Block(s, 2, true));
  }

  /** find_free_page_dir and the wordset that empties it (kernel/task.c:146-147). */
  method NewDirectory(mach: Machine, ghost ss: seq<Space>) returns (ok: bool, dir: nat)
    requires mach.Valid() && Running(mach.ram[..], mach.buddy.at, ss)
    modifies mach.ram, mach.buddy.links, mach.buddy.page, mach.buddy`at, mach.buddy`runs
    ensures mach.Valid()
    ensures !ok <==> Buddies.SmallOnly(old(mach.buddy.at), 2)
    ensures ok ==> |Buddies.FreePages(mach.buddy.at)| == |Buddies.FreePages(old(mach.buddy.at))| - 4
    ensures ok ==> dir % 4 == 0 && dir + 4 <= RAM_PAGES && FreshDirectory(old(mach.buddy.at), mach.buddy.at, dir)
    ensures ok ==> Undisturbed(old(mach.ram[..]), old(mach.buddy.at), mach.ram[..], mach.buddy.at)
    ensures ok ==> forall k: nat :: k < 4096 ==> L1(mach.ram[..], dir, k) == EMPTY
  {
    hide Buddies.SmallOnly, Buddies.FreePages, Buddies.BuddyLists.Shaped, Buddies.Allocated, Running, Undisturbed,
         FreshDirectory, L1;
    ghost var m, at := mach.ram[..], mach.buddy.at;
    dir := 0;
    var addr := mach.buddy.FindFreePageDir();
    if addr == 0 {
      return false, dir;
    }
    DirBounds(at, mach.buddy.at, (addr - Buddies.PAGING_START) / 0x1000);
    dir := (addr - KERNEL_SPACE_START) / 0x1000;
    EmptyDir(mach, dir);
    DirTaken(m, at, mach.ram[..], mach.buddy.at, dir, ss);
    ok := true;
  }

  /** What sharing asks of the kernel's space and of the new directory. */
  lemma ReadyToShare(m: Ram, at: seq<Buddies.Block>, m1: Ram, at1: seq<Buddies.Block>, dir: nat, ss: seq<Space>)
    requires Running(m, at, ss) && Running(m1, at1, ss) && FreshDirectory(at, at1, dir)
    ensures SpaceOk(m1, at1, ss[0]) && Claimed(at1, dir, map[], {})
    ensures forall p: nat :: Part(p, ss[0].dir, ss[0].tab, ss[0].kt) ==> !(dir <= p < dir + 4)
  {
    assert SpaceOk(m, at, ss[0]);
  }

  /** From the state before the directory was taken: nothing in use changed but what the sharing
      itself may change. */
  lemma OwnFromStart(m: Ram, at: seq<Buddies.Block>, m1: Ram, at1: seq<Buddies.Block>, m2: Ram, at2: seq<Buddies.Block>,
                     dir: nat, tab: map<nat, nat>)
    requires Undisturbed(m, at, m1, at1) && OwnOnly(m1, at1, m2, at2, dir, map[], tab) && FreshDirectory(at, at1, dir)
    ensures OwnOnly(m, at, m2, at2, dir, map[], tab)
    ensures forall p: nat :: p < 0x400 ==> m2[p] == m1[p]
  {
    forall p: nat | p < RAM_PAGES && InUse(at, p) && !Part(p, dir, map[], {}) ensures m2[p] == m[p] {
      assert InUse(at1, p);
    }
    forall g | g in tab ensures !InUse(at, tab[g]) {
      assert !InUse(at1, tab[g]);
    }
  }

  /** The new space is one of the running ones. */
  lemma JoinedRunning(m: Ram, at: seq<Buddies.Block>, m1: Ram, at1: seq<Buddies.Block>, m2: Ram,
                      at2: seq<Buddies.Block>, dir: nat, tab: map<nat, nat>, ss: seq<Space>)
    requires Running(m, at, ss) && Running(m1, at1, ss) && Undisturbed(m, at, m1, at1) && FreshDirectory(at, at1, dir)
    requires OwnOnly(m1, at1, m2, at2, dir, map[], tab) && SpaceOk(m2, at2, Space(dir, tab, {}))
    ensures Running(m2, at2, ss + [Space(dir, tab, {})])
    ensures forall j :: 0 <= j < |ss| ==> ss[j].dir + 4 <= RAM_PAGES && SameWalks(m, m2, ss[j].dir)
  {
    hide SpacesOk, SpaceOk, Rebuilt, SameWalks, Undisturbed, OwnOnly, InUse;
    OwnFromStart(m, at, m1, at1, m2, at2, dir, tab);
    RebuiltAgain(m1, m2);
    SpacesJoined(m, at, m2, at2, ss, Space(dir, tab, {}));
  }

  /** The memory side of createp up to the shared kernel space (kernel/task.c:145-158), with
      whatever the kernel's directory maps for the idle task by then. The panic of a corrupt
      directory never fires. */
  method NewSpace(mach: Machine, ghost ss: seq<Space>) returns (r: ShareResult, dir: nat, ghost ss': seq<Space>)
    requires mach.Valid() && Running(mach.ram[..], mach.buddy.at, ss)
    modifies mach.ram, mach.buddy.links, mach.buddy.page, mach.buddy`at, mach.buddy`runs
    ensures mach.Valid() && r != Corrupt
    ensures r == OutOfMemory <==>
            Buddies.SmallOnly(old(mach.buddy.at), 2) || |Buddies.FreePages(old(mach.buddy.at))| < 4 + 17
    ensures r == AllShared ==> Running(mach.ram[..], mach.buddy.at, ss') && |ss'| == |ss| + 1 && ss'[..|ss|] == ss
    ensures r == AllShared ==>
            ss'[|ss|].dir == dir && dir % 4 == 0 && dir + 4 <= RAM_PAGES && SeesKernel(mach.ram[..], dir)
    ensures r == AllShared ==> forall j :: 0 <= j < |ss| ==>
              ss[j].dir + 4 <= RAM_PAGES && SameWalks(old(mach.ram[..]), mach.ram[..], ss[j].dir)
  {
    hide Buddies.SmallOnly, Buddies.FreePages, TableGroups, Buddies.BuddyLists.Shaped, Rebuilt, SpacesOk, DirOk,
         Claimed, Part, OwnOnly, Undisturbed, SharedSpace, FreshDirectory, Orderly, SystemDomain, SameWalks, SeesKernel,
           Walk, L1;
    ghost var m, at := mach.ram[..], mach.buddy.at;
    ss', r := ss, OutOfMemory;
    var ok;
    ok, dir := NewDirectory(mach, ss);
    if !ok {
      return;
    }
    ghost var m1, at1, tab := mach.ram[..], mach.buddy.at, map[];
    RunningUndisturbed(m, at, m1, at1, ss);
    ReadyToShare(m, at, m1, at1, dir, ss);
    KernelFit(m1);
    KernelTableCount(m1);
    r, tab := mach.ShareKernelSpace(KERNEL_DIR, dir, KERNEL_SPACE_START, KERNEL_SPACE_SIZE, ss[0]);
    if r == AllShared {
      ss' := ss + [Space(dir, tab, {})];
      JoinedRunning(m, at, m1, at1, mach.ram[..], mach.buddy.at, dir, tab, ss);
      SharedSees(m1, mach.ram[..], dir);
    }
  }
}
