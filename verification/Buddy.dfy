/** The buddy page allocator (kernel/kmalloc.c): blocks of 2^k pages, k <= 8, threaded page
    by page through nine circular lists, and cut down by a splitting loop. */
module Buddies {
  import opened Bytes
  import opened Rings

  const MAX_BUDDY_PAGE_NUM := 9
  const PAGE_NUM_FOR_MAX_BUDDY := 511
  const PAGING_START: u32 := 0xC040_0000
  const PAGE_SIZE := 4096
  const KERNEL_PAGE_NUM := 0x3C00

  /** The block a page belongs to. */
  datatype Block = Block(start: int, order: nat, held: bool)

  /** A struct page, but for its list links. */
  datatype Page = Page(vaddr: u32, busy: bool, dirty: bool, order: int)

  /** The pages s, s + 1, ..., s + m - 1. */
  function Run(s: int, m: nat): (r: seq<int>)
    ensures |r| == m && forall i :: 0 <= i < m ==> r[i] == s + i
  {
    seq(m, i => s + i)
  }

  /** The pages of all blocks of m pages that start at the given pages. */
  function Flat(starts: seq<int>, m: nat): seq<int> {
    if starts == [] then [] else Run(starts[0], m) + Flat(starts[1..], m)
  }

  /** List k as a ring of nodes: its head, then its blocks page by page. */
  function Ring(n: nat, starts: seq<int>, k: nat): seq<int> {
    [n + k] + Flat(starts, Pow2(k))
  }

  lemma {:induction false} FlatAppend(a: seq<int>, s: int, m: nat)
    ensures Flat(a + [s], m) == Flat(a, m) + Run(s, m)
  {
    if a == [] {
      assert [s][1..] == [] && a + [s] == [s];
      assert Flat([s], m) == Run(s, m) + Flat([], m);
    } else {
      assert (a + [s])[1..] == a[1..] + [s];
      FlatAppend(a[1..], s, m);
    }
  }

  /** A page is on the flattened list exactly when one of the blocks contains it. */
  lemma {:induction false} InFlat(starts: seq<int>, m: nat, p: int)
    ensures p in Flat(starts, m) <==> exists j :: 0 <= j < |starts| && starts[j] <= p < starts[j] + m
  {
    if starts != [] {
      InFlat(starts[1..], m, p);
      if p in Flat(starts[1..], m) {
        var j :| 0 <= j < |starts[1..]| && starts[1..][j] <= p < starts[1..][j] + m;
        assert starts[j + 1] <= p < starts[j + 1] + m;
      }
      if starts[0] <= p < starts[0] + m {
        assert Run(starts[0], m)[p - starts[0]] == p;
      }
      if j :| 0 <= j < |starts| && starts[j] <= p < starts[j] + m {
        if j > 0 { assert starts[1..][j - 1] == starts[j]; }
      }
    }
  }

  /** The k low bits of x are clear: x is a multiple of 2^k. */
  predicate LowClear(x: int, k: nat)
    decreases k
  {
    k == 0 || (x % 2 == 0 && LowClear(x / 2, k - 1))
  }

  lemma {:induction false} LowClearMultiple(x: int, k: nat) returns (q: int)
    requires LowClear(x, k)
    ensures x == q * Pow2(k)
    decreases k
  {
    if k == 0 {
      q := x;
    } else {
      q := LowClearMultiple(x / 2, k - 1);
      assert x == 2 * (q * Pow2(k - 1)) == q * (2 * Pow2(k - 1));
    }
  }

  lemma {:induction false} LowClearSum(x: int, y: int, k: nat)
    requires LowClear(x, k) && LowClear(y, k)
    ensures LowClear(x + y, k)
    decreases k
  {
    if k > 0 {
      assert (x + y) / 2 == x / 2 + y / 2;
      LowClearSum(x / 2, y / 2, k - 1);
    }
  }

  lemma {:induction false} LowClearFewer(x: int, k: nat, j: nat)
    requires LowClear(x, k) && j <= k
    ensures LowClear(x, j)
    decreases k
  {
    if j > 0 { LowClearFewer(x / 2, k - 1, j - 1); }
  }

  lemma LowClearTwice(y: int, k: nat)
    requires LowClear(y, k)
    ensures LowClear(2 * y, k + 1)
  {
  }

  lemma {:induction false} LowClearShift(x: int, k: nat, j: nat)
    requires LowClear(x, k)
    ensures LowClear(x * Pow2(j), k + j)
    decreases j
  {
    if j > 0 {
      hide LowClear;
      LowClearShift(x, k, j - 1);
      LowClearTwice(x * Pow2(j - 1), k + j - 1);
      assert x * Pow2(j) == 2 * (x * Pow2(j - 1));
    }
  }

  /** Both halves of an aligned block are aligned to their own size. */
  lemma AlignedHalf(x: int, k: nat)
    requires LowClear(x, k + 1)
    ensures LowClear(x, k) && LowClear(x + Pow2(k), k)
  {
    LowClearFewer(x, k + 1, k);
    LowClearShift(1, 0, k);
    LowClearSum(x, Pow2(k), k);
  }

  // ---- the tiling of all pages by blocks ----

  /** Every page lies in one aligned block of pages, on which all its pages agree. */
  ghost predicate Tiled(at: seq<Block>) {
    forall p :: 0 <= p < |at| ==> TileAt(at, p)
  }

  ghost predicate TileAt(at: seq<Block>, p: int)
    requires 0 <= p < |at|
  {
    var b := at[p];
    && b.order < MAX_BUDDY_PAGE_NUM && LowClear(b.start, b.order)
    && 0 <= b.start <= p < b.start + Pow2(b.order) <= |at|
    && (forall q :: b.start <= q < b.start + Pow2(b.order) ==> at[q] == b)
  }

  /** The lists hold the free blocks, each once, by order. */
  ghost predicate Listed(at: seq<Block>, runs: seq<seq<int>>) {
    && |runs| == MAX_BUDDY_PAGE_NUM
    && (forall k :: 0 <= k < MAX_BUDDY_PAGE_NUM ==> Distinct(runs[k]))
    && (forall k, j :: 0 <= k < MAX_BUDDY_PAGE_NUM && 0 <= j < |runs[k]| ==>
          0 <= runs[k][j] < |at| && at[runs[k][j]] == Block(runs[k][j], k, false))
    && (forall p :: 0 <= p < |at| && !at[p].held ==>
          at[p].order < MAX_BUDDY_PAGE_NUM && at[p].start in runs[at[p].order])
  }

  /** The lists from an order on are empty exactly when every free page is in a smaller block. */
  lemma NothingLarger(at: seq<Block>, runs: seq<seq<int>>, order: nat)
    requires Listed(at, runs)
    ensures (forall k :: order <= k < MAX_BUDDY_PAGE_NUM ==> runs[k] == []) <==>
            SmallOnly(at, order)
  {
    if k :| order <= k < MAX_BUDDY_PAGE_NUM && runs[k] != [] {
      assert at[runs[k][0]] == Block(runs[k][0], k, false);
    }
    if p :| 0 <= p < |at| && !at[p].held && at[p].order >= order {
      assert at[p].start in runs[at[p].order];
    }
  }

  lemma NothingFree(at: seq<Block>, runs: seq<seq<int>>)
    requires Listed(at, runs)
    ensures (forall k :: 0 <= k < MAX_BUDDY_PAGE_NUM ==> runs[k] == []) <==> FreePages(at) == {}
  {
    hide Listed;
    NothingLarger(at, runs, 0);
    if p :| 0 <= p < |at| && !at[p].held {
      assert p in FreePages(at);
    }
  }

  /** at with the m pages from s on in block b. */
  function Paint(at: seq<Block>, s: int, m: nat, b: Block): (r: seq<Block>)
    requires 0 <= s && s + m <= |at|
    ensures |r| == |at|
    ensures forall p :: 0 <= p < |at| ==> r[p] == if s <= p < s + m then b else at[p]
  {
    seq(|at|, p requires 0 <= p < |at| => if s <= p < s + m then b else at[p])
  }

  /** Painting a whole block anew keeps the tiling. */
  lemma PaintTiled(at: seq<Block>, s: int, k: nat, held: bool)
    requires Tiled(at) && 0 <= s < |at| && at[s].start == s && at[s].order == k
    ensures k < MAX_BUDDY_PAGE_NUM && s + Pow2(k) <= |at| && Tiled(Paint(at, s, Pow2(k), Block(s, k, held)))
  {
    assert TileAt(at, s);
    var at' := Paint(at, s, Pow2(k), Block(s, k, held));
    forall p | 0 <= p < |at| ensures TileAt(at', p) {
      assert TileAt(at, p);
      if !(s <= p < s + Pow2(k)) {
        forall q | at[p].start <= q < at[p].start + Pow2(at[p].order) ensures at'[q] == at[p] {
          assert at[q] == at[p];
        }
      }
    }
  }

  /** A free block leaves its list. */
  lemma TakeListed(at: seq<Block>, runs: seq<seq<int>>, k: nat)
    requires Tiled(at) && Listed(at, runs) && k < MAX_BUDDY_PAGE_NUM && runs[k] != []
    ensures var s := runs[k][0];
            && 0 <= s && s + Pow2(k) <= |at| && Tiled(Paint(at, s, Pow2(k), Block(s, k, true)))
            && Listed(Paint(at, s, Pow2(k), Block(s, k, true)), runs[k := runs[k][1..]])
  {
    var s := runs[k][0];
    assert TileAt(at, s);
    PaintTiled(at, s, k, true);
    hide Tiled, Pow2;
    var at', runs' := Paint(at, s, Pow2(k), Block(s, k, true)), runs[k := runs[k][1..]];
    forall j, i | 0 <= j < MAX_BUDDY_PAGE_NUM && 0 <= i < |runs'[j]|
      ensures 0 <= runs'[j][i] < |at| && at'[runs'[j][i]] == Block(runs'[j][i], j, false)
    {
      var t := runs'[j][i];
      if j == k {
        assert t == runs[k][i + 1] && runs[k][0] != runs[k][i + 1];
      } else {
        assert t == runs[j][i];
      }
    }
    forall p | 0 <= p < |at| && !at'[p].held ensures at'[p].start in runs'[at'[p].order] {
      assert TileAt(at, p) && at[p].start in runs[at[p].order];
      if at[p].order == k {
        var i :| 0 <= i < |runs[k]| && runs[k][i] == at[p].start;
        assert i > 0 && runs'[k][i - 1] == at[p].start;
      }
    }
  }

  /** A held block is cut: its lower half becomes free, its upper half stays held. */
  function Cut(at: seq<Block>, s: int, k: nat): (r: seq<Block>)
    requires 0 <= s && s + 2 * Pow2(k) <= |at|
    ensures |r| == |at|
    ensures forall p :: 0 <= p < |at| ==>
              r[p] == if s <= p < s + Pow2(k) then Block(s, k, false)
                      else if s + Pow2(k) <= p < s + 2 * Pow2(k) then Block(s + Pow2(k), k, true) else at[p]
  {
    Paint(Paint(at, s, Pow2(k), Block(s, k, false)), s + Pow2(k), Pow2(k), Block(s + Pow2(k), k, true))
  }

  lemma CutTiled(at: seq<Block>, s: int, k: nat)
    requires Tiled(at) && 0 <= s < |at| && at[s] == Block(s, k + 1, true)
    ensures k + 1 < MAX_BUDDY_PAGE_NUM && s + 2 * Pow2(k) <= |at| && Pow2(k + 1) == 2 * Pow2(k) && Tiled(Cut(at, s, k))
  {
    assert TileAt(at, s);
    AlignedHalf(s, k);
    var at' := Cut(at, s, k);
    forall p | 0 <= p < |at| ensures TileAt(at', p) {
      assert TileAt(at, p);
      if !(s <= p < s + 2 * Pow2(k)) {
        forall q | at[p].start <= q < at[p].start + Pow2(at[p].order) ensures at'[q] == at[p] {
          assert at[q] == at[p];
        }
      }
    }
  }

  lemma CutListed(at: seq<Block>, runs: seq<seq<int>>, s: int, k: nat)
    requires Tiled(at) && Listed(at, runs) && 0 <= s < |at| && at[s] == Block(s, k + 1, true)
    ensures k + 1 < MAX_BUDDY_PAGE_NUM && s + 2 * Pow2(k) <= |at|
    ensures Tiled(Cut(at, s, k)) && Listed(Cut(at, s, k), runs[k := runs[k] + [s]])
  {
    assert TileAt(at, s);
    CutTiled(at, s, k);
    var at', runs' := Cut(at, s, k), runs[k := runs[k] + [s]];
    forall j, i | 0 <= j < MAX_BUDDY_PAGE_NUM && 0 <= i < |runs'[j]|
      ensures 0 <= runs'[j][i] < |at| && at'[runs'[j][i]] == Block(runs'[j][i], j, false)
      ensures i < |runs[j]| ==> runs'[j][i] != s
    {
      if i < |runs[j]| {
        assert runs'[j][i] == runs[j][i] && !at[runs[j][i]].held;
      } else {
        assert runs'[j][i] == s;
      }
    }
    forall p | 0 <= p < |at| && !at'[p].held ensures at'[p].start in runs'[at'[p].order] {
      if s <= p < s + Pow2(k) {
        assert runs'[k][|runs[k]|] == s;
      } else {
        assert at[p].start in runs[at[p].order];
        var i :| 0 <= i < |runs[at[p].order]| && runs[at[p].order][i] == at[p].start;
        assert runs'[at[p].order][i] == at[p].start;
      }
    }
  }

  // ---- the lists as rings ----

  ghost predicate Linked(l: seq<Links>, runs: seq<seq<int>>, n: nat) {
    && |runs| == MAX_BUDDY_PAGE_NUM && |l| == n + MAX_BUDDY_PAGE_NUM
    && (forall k :: 0 <= k < MAX_BUDDY_PAGE_NUM ==> IsRing(l, Ring(n, runs[k], k)))
  }

  /** The nodes of list k: its head and the pages of free blocks of order k. */
  lemma RingNodes(at: seq<Block>, runs: seq<seq<int>>, k: nat, p: int)
    requires Tiled(at) && Listed(at, runs) && k < MAX_BUDDY_PAGE_NUM
    ensures p in Ring(|at|, runs[k], k) <==> p == |at| + k || (0 <= p < |at| && at[p].order == k && !at[p].held)
  {
    InFlat(runs[k], Pow2(k), p);
    var f := Flat(runs[k], Pow2(k));
    assert p in [|at| + k] + f <==> p == |at| + k || p in f;
    if j :| 0 <= j < |runs[k]| && runs[k][j] <= p < runs[k][j] + Pow2(k) {
      assert TileAt(at, runs[k][j]);
    }
    if 0 <= p < |at| && at[p].order == k && !at[p].held {
      assert TileAt(at, p);
      var j :| 0 <= j < |runs[k]| && runs[k][j] == at[p].start;
    }
  }

  lemma RingKept(l: seq<Links>, l': seq<Links>, r: seq<int>)
    requires IsRing(l, r) && |l'| == |l| && forall j :: 0 <= j < |r| ==> 0 <= r[j] < |l| && l'[r[j]] == l[r[j]]
    ensures IsRing(l', r)
  {
  }

  /** Relinking list k and pages that are held leaves the other lists alone. */
  lemma OtherRings(l: seq<Links>, l': seq<Links>, at: seq<Block>, runs: seq<seq<int>>, k: nat)
    requires Tiled(at) && Listed(at, runs) && Linked(l, runs, |at|) && k < MAX_BUDDY_PAGE_NUM && |l'| == |l|
    requires forall x :: 0 <= x < |l| && x !in Ring(|at|, runs[k], k) && !(x < |at| && at[x].held) ==> l'[x] == l[x]
    ensures forall j :: 0 <= j < MAX_BUDDY_PAGE_NUM && j != k ==> IsRing(l', Ring(|at|, runs[j], j))
  {
    hide Ring;
    forall j | 0 <= j < MAX_BUDDY_PAGE_NUM && j != k ensures IsRing(l', Ring(|at|, runs[j], j)) {
      var r := Ring(|at|, runs[j], j);
      forall i | 0 <= i < |r| ensures 0 <= r[i] < |l| && l'[r[i]] == l[r[i]] {
        RingNodes(at, runs, j, r[i]);
        RingNodes(at, runs, k, r[i]);
      }
      RingKept(l, l', r);
    }
  }

  /** The stores of get_pages_from_list that take the chain head.next .. t off its list
      (kernel/kmalloc.c:257-260). */
  function Popped(l: seq<Links>, head: int, t: int): (r: seq<Links>)
    ensures |r| == |l|
  {
    if !(0 <= head < |l| && 0 <= t < |l| && 0 <= l[t].next < |l|) then l
    else SetNext(SetPrev(l, l[t].next, head), head, l[t].next)
  }

  lemma PopFirst(l: seq<Links>, r: seq<int>, m: nat)
    requires IsRing(l, r) && 0 < m < |r|
    ensures 0 <= r[0] < |l| && l[r[0]].next == r[1] && 0 <= r[m] < |l| && 0 <= l[r[m]].next < |l|
    ensures var l' := Popped(l, r[0], r[m]);
            && IsRing(l', Without(r, 1, 1 + m)) && IsChain(l', r[1 .. 1 + m])
            && forall x :: 0 <= x < |l| && x !in r ==> l'[x] == l[x]
  {
    AloneOnRing(l, r, 0);
    AloneOnRing(l, r, m);
    var l' := Popped(l, r[0], r[m]);
    assert l[r[1]].prev == r[0];
    assert Bypassed(l, l', r, 1, 1 + m);
    RemoveChain(l, l', r, 1, 1 + m);
    RemovedChain(l, l', r, 1, 1 + m);
    assert l[r[m]].next in r;
  }

  /** List k without its first block. */
  lemma RingHead(n: nat, starts: seq<int>, k: nat)
    requires starts != []
    ensures var r, m := Ring(n, starts, k), Pow2(k);
            && m < |r| && r[0] == n + k && r[1] == starts[0] && r[m] == starts[0] + m - 1
            && r[1 .. 1 + m] == Run(starts[0], m) && Without(r, 1, 1 + m) == Ring(n, starts[1..], k)
  {
    var m := Pow2(k);
    assert Ring(n, starts, k) == [n + k] + (Run(starts[0], m) + Flat(starts[1..], m));
    assert Ring(n, starts, k)[1 .. 1 + m] == Run(starts[0], m);
    assert Ring(n, starts, k)[1 + m ..] == Flat(starts[1..], m);
    assert Ring(n, starts, k)[..1] == [n + k];
  }

  lemma PopRing(l: seq<Links>, n: nat, starts: seq<int>, k: nat)
    requires IsRing(l, Ring(n, starts, k)) && starts != []
    ensures var s, m, h := starts[0], Pow2(k), n + k;
            && 0 <= h < |l| && l[h].next == s && 0 <= s + m - 1 < |l| && 0 <= l[s + m - 1].next < |l|
            && var l' := Popped(l, h, s + m - 1);
               IsRing(l', Ring(n, starts[1..], k)) && IsChain(l', Run(s, m))
               && (forall x :: 0 <= x < |l| && x !in Ring(n, starts, k) ==> l'[x] == l[x])
  {
    hide IsRing, IsChain, Ring, Run, Popped;
    RingHead(n, starts, k);
    PopFirst(l, Ring(n, starts, k), Pow2(k));
  }

  /** list_add_chain_tail (kernel/kmalloc.c:114). */
  function Pushed(l: seq<Links>, ch: int, ct: int, head: int): (r: seq<Links>)
    ensures |r| == |l|
  {
    if !(0 <= ch < |l| && 0 <= ct < |l| && 0 <= head < |l| && 0 <= l[head].prev < |l|) then l
    else SetNext(SetPrev(SetNext(SetPrev(l, ch, l[head].prev), l[head].prev, ch), head, ct), ct, head)
  }

  lemma PushLast(l: seq<Links>, r: seq<int>, c: seq<int>)
    requires IsRing(l, r) && IsChain(l, c) && |c| > 0 && Distinct(r) && Distinct(c)
    requires forall x :: x in c ==> x !in r
    ensures 0 <= r[0] < |l| && 0 <= l[r[0]].prev < |l| && l[r[0]].prev != c[0]
    ensures var l' := Pushed(l, c[0], c[|c|-1], r[0]);
            IsRing(l', r + c) && forall x :: 0 <= x < |l| && x !in r && x !in c ==> l'[x] == l[x]
  {
    AloneOnRing(l, r, 0);
    assert l[r[0]].prev == r[|r|-1] && r[|r|-1] in r && c[0] in c;
    var l' := Pushed(l, c[0], c[|c|-1], r[0]);
    assert Distinct(r + c) by {
      forall i, j | 0 <= i < j < |r + c| ensures (r + c)[i] != (r + c)[j] {
        if i < |r| <= j { assert r[i] in r && c[j - |r|] in c; }
      }
    }
    assert Spliced(l, l', r, c);
    AppendChain(l, l', r, c);
  }

  lemma PushRing(l: seq<Links>, n: nat, starts: seq<int>, k: nat, s: int)
    requires IsRing(l, Ring(n, starts, k)) && 0 <= s && s + Pow2(k) <= n <= |l| && IsChain(l, Run(s, Pow2(k)))
    requires forall p :: s <= p < s + Pow2(k) ==> p !in Ring(n, starts, k)
    ensures var m, h := Pow2(k), n + k;
            && 0 <= h < |l| && 0 <= l[h].prev < |l| && l[h].prev != s
            && var l' := Pushed(l, s, s + m - 1, h);
               IsRing(l', Ring(n, starts + [s], k))
               && (forall x :: 0 <= x < |l| && x !in Ring(n, starts, k) && !(s <= x < s + m) ==> l'[x] == l[x])
  {
    hide IsRing, IsChain, Pushed, Flat;
    var m, r, c := Pow2(k), Ring(n, starts, k), Run(s, Pow2(k));
    RingDistinct(l, r);
    PushLast(l, r, c);
    FlatAppend(starts, s, m);
    assert r + c == Ring(n, starts + [s], k);
  }

  lemma RingDistinct(l: seq<Links>, r: seq<int>)
    requires IsRing(l, r)
    ensures Distinct(r) && |r| > 0
  {
  }

  lemma HalfChain(l: seq<Links>, s: int, m: nat)
    requires IsChain(l, Run(s, 2 * m))
    ensures IsChain(l, Run(s, m)) && IsChain(l, Run(s + m, m))
  {
    SubChain(l, Run(s, 2 * m), 0, m);
    SubChain(l, Run(s, 2 * m), m, 2 * m);
    assert Run(s, 2 * m)[0..m] == Run(s, m) && Run(s, 2 * m)[m..2 * m] == Run(s + m, m);
  }

  lemma SubChain(l: seq<Links>, w: seq<int>, x: nat, y: nat)
    requires IsChain(l, w) && x <= y <= |w|
    ensures IsChain(l, w[x..y])
  {
    var c := w[x..y];
    assert forall j :: 0 <= j < |c| ==> c[j] == w[x + j];
    forall j | 0 <= j < |c| - 1 ensures l[c[j]].next == c[j+1] && l[c[j+1]].prev == c[j] {
      assert l[w[x+j]].next == w[x+j+1] && l[w[x+j+1]].prev == w[x+j];
    }
  }

  lemma UpperChain(l: seq<Links>, l': seq<Links>, s: int, m: nat)
    requires IsChain(l, Run(s + m, m)) && |l'| == |l|
    requires forall x :: 0 <= x < |l| && s + m <= x < s + 2 * m ==> l'[x] == l[x]
    ensures IsChain(l', Run(s + m, m))
  {
    var b := Run(s + m, m);
    forall j | 0 <= j < m ensures 0 <= b[j] < |l| && l'[b[j]] == l[b[j]] {}
  }

  lemma TakenFree(at: seq<Block>, runs: seq<seq<int>>, k: nat)
    requires Tiled(at) && Listed(at, runs) && k < MAX_BUDDY_PAGE_NUM && runs[k] != []
    ensures var s := runs[k][0]; 0 <= s && s + Pow2(k) <= |at| && forall p :: s <= p < s + Pow2(k) ==> !at[p].held
  {
    assert TileAt(at, runs[k][0]);
  }

  /** Taking a free block off list k, on all the state at once. */
  lemma TakeStep(l: seq<Links>, at: seq<Block>, runs: seq<seq<int>>, k: nat)
    requires Tiled(at) && Listed(at, runs) && Linked(l, runs, |at|) && k < MAX_BUDDY_PAGE_NUM && runs[k] != []
    ensures var s, m, h := runs[k][0], Pow2(k), |at| + k;
            && l[h].next == s && 0 <= s && s + m <= |at| && 0 <= l[s + m - 1].next < |l|
            && var l', at', runs' := Popped(l, h, s + m - 1), Paint(at, s, m, Block(s, k, true)),
                 runs[k := runs[k][1..]];
               Tiled(at') && Listed(at', runs') && Linked(l', runs', |at|) && IsChain(l', Run(s, m))
               && forall p :: s <= p < s + m ==> !at[p].held
  {
    hide IsRing, IsChain, Ring, Popped, Run, Tiled, Listed, Paint;
    var s, m, n := runs[k][0], Pow2(k), |at|;
    TakeListed(at, runs, k);
    assert IsRing(l, Ring(n, runs[k], k));
    PopRing(l, n, runs[k], k);
    var l' := Popped(l, n + k, s + m - 1);
    TakenFree(at, runs, k);
    OtherRings(l, l', at, runs, k);
  }

  /** Cutting the block in hand, on all the state at once. */
  lemma CutStep(l: seq<Links>, at: seq<Block>, runs: seq<seq<int>>, s: int, k: nat)
    requires Tiled(at) && Listed(at, runs) && Linked(l, runs, |at|) && 0 <= s < |at| && at[s] == Block(s, k + 1, true)
    requires k + 1 < MAX_BUDDY_PAGE_NUM && IsChain(l, Run(s, Pow2(k + 1)))
    ensures var m, h := Pow2(k), |at| + k;
            && s + 2 * m <= |at| && 0 <= l[h].prev < |l| && l[h].prev != s
            && var l', at', runs' := Pushed(l, s, s + m - 1, h), Cut(at, s, k), runs[k := runs[k] + [s]];
               Tiled(at') && Listed(at', runs') && Linked(l', runs', |at|) && IsChain(l', Run(s + m, m))
  {
    hide IsRing, IsChain, Ring, Pushed, Run;
    var m, n := Pow2(k), |at|;
    CutListed(at, runs, s, k);
    assert TileAt(at, s);
    assert IsRing(l, Ring(n, runs[k], k));
    HalfChain(l, s, m);
    forall p | s <= p < s + m ensures p !in Ring(n, runs[k], k) {
      RingNodes(at, runs, k, p);
    }
    PushRing(l, n, runs[k], k, s);
    var l' := Pushed(l, s, s + m - 1, n + k);
    OtherRings(l, l', at, runs, k);
    forall x | 0 <= x < |l| && s + m <= x < s + 2 * m ensures l'[x] == l[x] {
      RingNodes(at, runs, k, x);
    }
    UpperChain(l, l', s, m);
  }

  /** A list is empty exactly when its head points at itself. */
  lemma EmptyList(l: seq<Links>, n: nat, starts: seq<int>, k: nat)
    requires IsRing(l, Ring(n, starts, k))
    ensures 0 <= n + k < |l|
    ensures l[n + k].next == n + k <==> starts == []
  {
    AloneOnRing(l, Ring(n, starts, k), 0);
    assert Ring(n, starts, k)[0] == n + k;
    if starts != [] {
      assert Ring(n, starts, k) == [n + k] + (Run(starts[0], Pow2(k)) + Flat(starts[1..], Pow2(k)));
    }
  }

  /** The head of a block: busy while it is held, and it knows the order of its block.
      Of the free order-8 blocks only every second head does (kernel/kmalloc.c:226-229). */
  ghost predicate HeadOk(b: Block, p: Page, i: int) {
    && (p.busy <==> b.held && b.start == i)
    && (b.start == i && (b.held || b.order < 8) ==> p.order == b.order)
  }

  ghost predicate HeadsOk(at: seq<Block>, page: seq<Page>, hand: int)
    requires |page| == |at|
  {
    forall i :: 0 <= i < |at| && i != hand ==> HeadOk(at[i], page[i], i)
  }

  /** The block came from the first list from the order on that has one, and was the first there; it is the
      upper end of what was cut, and the lower halves are in the lists between. */
  ghost predicate Served(runs: seq<seq<int>>, runs': seq<seq<int>>, order: nat, pg: int) {
    |runs| == |runs'| == MAX_BUDDY_PAGE_NUM &&
    exists k: nat :: order <= k < MAX_BUDDY_PAGE_NUM && runs[k] != [] && (forall j :: order <= j < k ==> runs[j] == [])
      && pg == runs[k][0] + Pow2(k) - Pow2(order)
      && forall j :: 0 <= j < MAX_BUDDY_PAGE_NUM ==>
           runs'[j] == if j == k then runs[k][1..]
                       else if order <= j < k then [runs[k][0] + Pow2(k) - Pow2(j + 1)] else runs[j]
  }

  /** On the way there: cut down to 2^m pages, of which pg is the first. */
  ghost predicate CutDown(runs: seq<seq<int>>, runs': seq<seq<int>>, order: nat, k: nat, m: nat, pg: int) {
    && |runs| == |runs'| == MAX_BUDDY_PAGE_NUM && order <= m <= k < MAX_BUDDY_PAGE_NUM && runs[k] != []
    && (forall j :: order <= j < k ==> runs[j] == []) && pg == runs[k][0] + Pow2(k) - Pow2(m)
    && forall j :: 0 <= j < MAX_BUDDY_PAGE_NUM ==>
         runs'[j] == if j == k then runs[k][1..]
                     else if m <= j < k then [runs[k][0] + Pow2(k) - Pow2(j + 1)] else runs[j]
  }

  lemma CutNone(runs: seq<seq<int>>, runs': seq<seq<int>>, k: nat)
    requires |runs| == MAX_BUDDY_PAGE_NUM && k < MAX_BUDDY_PAGE_NUM && runs[k] != []
    requires runs' == runs[k := runs[k][1..]]
    ensures forall order: nat :: order <= k && (forall j :: order <= j < k ==> runs[j] == []) ==>
              CutDown(runs, runs', order, k, k, runs[k][0])
  {
    hide Pow2;
  }

  lemma CutMore(runs: seq<seq<int>>, runs1: seq<seq<int>>, runs2: seq<seq<int>>, order: nat, k: nat, m: nat, pg: int)
    requires CutDown(runs, runs1, order, k, m + 1, pg) && order <= m && runs2 == runs1[m := runs1[m] + [pg]]
    ensures CutDown(runs, runs2, order, k, m, pg + Pow2(m))
  {
    assert Pow2(m + 1) == 2 * Pow2(m);
    hide Pow2;
  }

  lemma CutDone(runs: seq<seq<int>>, runs': seq<seq<int>>, order: nat, k: nat, pg: int)
    requires CutDown(runs, runs', order, k, order, pg)
    ensures Served(runs, runs', order, pg)
  {
    hide Pow2;
  }

  /** From at to at' the pages from s to s + m became the block b, taken from free ones;
      what was held still is, as it was, and what was free else still is free. */
  ghost predicate Allocated(at: seq<Block>, at': seq<Block>, s: int, m: nat, b: Block) {
    && |at'| == |at| && 0 <= s && s + m <= |at|
    && (forall p :: s <= p < s + m ==> !at[p].held && at'[p] == b)
    && (forall p :: 0 <= p < |at| && !(s <= p < s + m) ==>
         at'[p].held == at[p].held && (at[p].held ==> at'[p] == at[p]))
  }

  lemma AllocatedCut(at0: seq<Block>, at: seq<Block>, s: int, k: nat)
    requires Tiled(at) && 0 <= s < |at| && at[s] == Block(s, k + 1, true)
    requires Allocated(at0, at, s, Pow2(k + 1), Block(s, k + 1, true))
    ensures s + 2 * Pow2(k) <= |at|
    ensures Allocated(at0, Cut(at, s, k), s + Pow2(k), Pow2(k), Block(s + Pow2(k), k, true))
  {
    assert TileAt(at, s);
  }

  lemma HeadsCut(at: seq<Block>, page: seq<Page>, s: int, k: nat, page': seq<Page>)
    requires |page| == |at| == |page'| && Tiled(at) && 0 <= s < |at| && at[s] == Block(s, k + 1, true)
    requires HeadsOk(at, page, s) && !page[s].busy && page' == page[s := page[s].(order := k)]
    ensures s + 2 * Pow2(k) <= |at| && HeadsOk(Cut(at, s, k), page', s + Pow2(k)) && !page'[s + Pow2(k)].busy
  {
    assert TileAt(at, s);
    assert HeadOk(at[s + Pow2(k)], page[s + Pow2(k)], s + Pow2(k));
    var at' := Cut(at, s, k);
    forall i | 0 <= i < |at| && i != s + Pow2(k) ensures HeadOk(at'[i], page'[i], i) {
      if i != s { assert HeadOk(at[i], page[i], i); }
    }
  }

  lemma HeadsTake(at: seq<Block>, page: seq<Page>, s: int, k: nat)
    requires |page| == |at| && Tiled(at) && 0 <= s < |at| && at[s] == Block(s, k, false) && HeadsOk(at, page, -1)
    ensures s + Pow2(k) <= |at| && HeadsOk(Paint(at, s, Pow2(k), Block(s, k, true)), page, s) && !page[s].busy
  {
    assert TileAt(at, s);
    assert HeadOk(at[s], page[s], s);
    var at' := Paint(at, s, Pow2(k), Block(s, k, true));
    forall i | 0 <= i < |at| && i != s ensures HeadOk(at'[i], page[i], i) {
      assert HeadOk(at[i], page[i], i);
    }
  }

  class BuddyLists {
    const n: nat                     // pages; list heads are the nodes n .. n + 8
    const links: array<Links>
    const page: array<Page>
    ghost var at: seq<Block>         // the block each page belongs to
    ghost var runs: seq<seq<int>>    // the free blocks on each list

    /** init_page_map (kernel/kmalloc.c:205-237), for any number of pages in the area: whole
        groups of 512 pages on the order-8 list, the rest one by one on the order-0 list. */
    constructor (n: nat)
      requires n <= KERNEL_PAGE_NUM
      ensures Valid() && fresh(Repr()) && this.n == n
      ensures at == FirstBlocks(n) && runs == FirstRuns(n)
      ensures forall p :: 0 <= p < n ==> !at[p].held
    {
      this.n := n;
      links := new Links[n + MAX_BUDDY_PAGE_NUM](i => Links(NULL, NULL));
      page := new Page[n](i => Page(0, false, false, 0));
      at := FirstBlocks(n);
      runs := FirstRuns(n);
      new;
      InitHeads();
      InitPages();
      FirstTiled(n);
      FirstListed(n);
      FirstLinked(links[..], n);
      FirstHeads(n, page[..]);
    }

    /** INIT_LIST_HEAD of the nine list heads. */
    method InitHeads()
      requires links.Length == n + MAX_BUDDY_PAGE_NUM
      modifies links
      ensures forall k :: n <= k < n + MAX_BUDDY_PAGE_NUM ==> links[k] == Links(k, k)
    {
      for i := 0 to MAX_BUDDY_PAGE_NUM
        invariant forall k :: n <= k < n + i ==> links[k] == Links(k, k)
      {
        links[n + i] := Links(n + i, n + i);
      }
    }

    /** list_add_tail (kernel/kmalloc.c:54). */
    method ListAddTail(p: int, head: int)
      requires 0 <= p < links.Length && 0 <= head < links.Length && 0 <= links[head].prev < links.Length
      requires links[head].prev != p && p != head
      modifies links
      ensures links[..] == Pushed(old(links[..]), p, p, head)
    {
      var prev, next := links[head].prev, head;
      links[next] := links[next].(prev := p);
      links[p] := links[p].(next := next);
      links[p] := links[p].(prev := prev);
      links[prev] := links[prev].(next := p);
    }

    /** The page loop of init_page_map. */
    method InitPages()
      requires links.Length == n + MAX_BUDDY_PAGE_NUM && page.Length == n <= KERNEL_PAGE_NUM
      requires forall k :: n <= k < n + MAX_BUDDY_PAGE_NUM ==> links[k] == Links(k, k)
      modifies links, page
      ensures Threaded(links[..], n, n)
      ensures forall p :: 0 <= p < n ==> page[p] == FirstPage(n, p)
    {
      hide Threaded, Pushed;
      ThreadedNone(links[..], n);
      for i := 0 to n
        invariant Threaded(links[..], n, i)
        invariant forall p :: 0 <= p < i ==> page[p] == FirstPage(n, p)
      {
        ghost var l := links[..];
        page[i] := Page(PAGING_START + PAGE_SIZE * i, false, false, page[i].order);
        links[i] := Links(i, i);
        ThreadedMore(l, links[..], n, i);
        if i < n - n % (PAGE_NUM_FOR_MAX_BUDDY + 1) {
          page[i] := page[i].(order := if i % (PAGE_NUM_FOR_MAX_BUDDY + 1) == 0 then 8 else -1);
          ListAddTail(i, n + 8);
        } else {
          page[i] := page[i].(order := 0);
          ListAddTail(i, n);
        }
      }
    }

    ghost function Repr(): set<object> {
      {this, links, page}
    }

    ghost predicate Valid()
      reads Repr()
    {
      Shaped(-1)
    }

    /** Everything, but that the head of the block in hand is not marked yet. */
    ghost predicate Shaped(hand: int)
      reads Repr()
    {
      && links.Length == n + MAX_BUDDY_PAGE_NUM && page.Length == n == |at| && |runs| == MAX_BUDDY_PAGE_NUM
      && Tiled(at) && Listed(at, runs) && Linked(links[..], runs, n)
      && HeadsOk(at, page[..], hand)
      && forall p :: 0 <= p < n ==> page[p].vaddr == PAGING_START + PAGE_SIZE * p
    }

    /** kernel/kmalloc.c:257-260: the first block of list k is taken off. */
    method Take(k: nat) returns (pg: int)
      requires Valid() && k < MAX_BUDDY_PAGE_NUM && runs[k] != []
      modifies links, this`at, this`runs
      ensures 0 <= pg < n && Shaped(pg) && at[pg] == Block(pg, k, true) && !page[pg].busy
      ensures pg == old(runs)[k][0] && runs == old(runs)[k := old(runs)[k][1..]]
      ensures IsChain(links[..], Run(pg, Pow2(k)))
      ensures Allocated(old(at), at, pg, Pow2(k), Block(pg, k, true))
    {
      hide Tiled, Listed, Linked, IsChain, HeadsOk, Run;
      ghost var l, a, r := links[..], at, runs;
      TakeStep(l, a, r, k);
      TakeStart(a, r, k);
      HeadsTake(a, page[..], r[k][0], k);
      var head := n + k;
      pg := links[head].next;
      var t := pg + Pow2(k) - 1;
      var next := links[t].next;
      links[next] := links[next].(prev := head);
      links[head] := links[head].(next := next);
      assert links[..] == Popped(l, head, t);
      at := Paint(a, pg, Pow2(k), Block(pg, k, true));
      runs := r[k := r[k][1..]];
    }

    /** One round of the cutting loop (kernel/kmalloc.c:266-272): the lower half of the block
        in hand goes to the tail of list k, the upper half stays in hand. */
    method CutOne(pg: int, k: nat) returns (upper: int)
      requires 0 <= pg < n && Shaped(pg) && k + 1 < MAX_BUDDY_PAGE_NUM && at[pg] == Block(pg, k + 1, true)
               && !page[pg].busy
      requires IsChain(links[..], Run(pg, Pow2(k + 1)))
      modifies links, page, this`at, this`runs
      ensures upper == pg + Pow2(k) && upper < n && Shaped(upper) && !page[upper].busy
      ensures pg + 2 * Pow2(k) <= |old(at)| && at == Cut(old(at), pg, k) && at[upper] == Block(upper, k, true)
      ensures runs == old(runs)[k := old(runs)[k] + [pg]]
      ensures IsChain(links[..], Run(upper, Pow2(k)))
      ensures forall p :: 0 <= p < n ==> page[p].dirty == old(page[p].dirty)
    {
      hide Tiled, Listed, Linked, IsChain, HeadsOk, Run;
      ghost var l, a, r, g := links[..], at, runs, page[..];
      CutStep(l, a, r, pg, k);
      var tlst1 := pg + Pow2(k) - 1;
      var tlst := pg;
      upper := pg + Pow2(k);
      page[tlst] := page[tlst].(order := k);
      HeadsCut(a, g, pg, k, page[..]);
      var head := n + k;
      var last := links[head].prev;
      links[tlst] := links[tlst].(prev := last);
      links[last] := links[last].(next := tlst);
      links[head] := links[head].(prev := tlst1);
      links[tlst1] := links[tlst1].(next := head);
      assert links[..] == Pushed(l, tlst, tlst1, head);
      at := Cut(a, pg, k);
      runs := r[k := r[k] + [pg]];
    }

    /** The search of get_pages_from_list (kernel/kmalloc.c:253-263): the first list from
        the order on that is not empty. */
    method FirstList(order: nat) returns (k: nat)
      requires Valid()
      ensures order <= k && forall j :: order <= j < k && j < MAX_BUDDY_PAGE_NUM ==> runs[j] == []
      ensures k < MAX_BUDDY_PAGE_NUM ==> runs[k] != []
    {
      hide Tiled, Listed, Linked, HeadsOk;
      k := order;
      while k < MAX_BUDDY_PAGE_NUM
        invariant order <= k && forall j :: order <= j < k && j < MAX_BUDDY_PAGE_NUM ==> runs[j] == []
      {
        ListAt(links[..], runs, n, k);
        if links[n + k].next != n + k {
          return;
        }
        k := k + 1;
      }
    }

    /** kernel/kmalloc.c:248. NULL exactly when no list of the order or above has a block;
        otherwise an aligned block of free pages becomes the caller's, and no other page
        changes hands. */
    method GetPagesFromList(order: nat) returns (pg: int)
      requires Valid()
      modifies links, page, this`at, this`runs
      ensures Valid()
      ensures pg == NULL <==> forall k :: order <= k < MAX_BUDDY_PAGE_NUM ==> old(runs)[k] == []
      ensures pg == NULL ==> at == old(at) && runs == old(runs)
      ensures pg != NULL ==> Served(old(runs), runs, order, pg)
      ensures pg != NULL ==> order < MAX_BUDDY_PAGE_NUM && 0 <= pg && pg + Pow2(order) <= n && LowClear(pg, order)
      ensures pg != NULL ==> Allocated(old(at), at, pg, Pow2(order), Block(pg, order, true))
      ensures forall p :: 0 <= p < n ==> page[p].dirty == old(page[p].dirty)
    {
      hide Tiled, Listed, Linked, IsChain, HeadsOk, Run, Allocated, LowClear, Ring, CutDown, Served;
      ghost var at0 := at;
      var neworder: int := FirstList(order);
      if neworder >= MAX_BUDDY_PAGE_NUM {
        return NULL;
      }
      ghost var k, r := neworder, runs;
      pg := Take(neworder);
      CutNone(r, runs, k);
      neworder := neworder - 1;
      while neworder >= order
        invariant order - 1 <= neworder < MAX_BUDDY_PAGE_NUM - 1
        invariant 0 <= pg < n && Shaped(pg) && at[pg] == Block(pg, neworder + 1, true) && !page[pg].busy
        invariant IsChain(links[..], Run(pg, Pow2(neworder + 1)))
        invariant CutDown(r, runs, order, k, neworder + 1, pg)
        invariant Allocated(at0, at, pg, Pow2(neworder + 1), Block(pg, neworder + 1, true))
        invariant forall p :: 0 <= p < n ==> page[p].dirty == old(page[p].dirty)
      {
        AllocatedCut(at0, at, pg, neworder);
        ghost var r1, pg1 := runs, pg;
        pg := CutOne(pg, neworder);
        CutMore(r, r1, runs, order, k, neworder, pg1);
        neworder := neworder - 1;
      }
      CutDone(r, runs, order, k, pg);
      ghost var g := page[..];
      InHand(at, pg, order, g);
      page[pg] := page[pg].(busy := true);
      page[pg] := page[pg].(order := order);
      assert page[..] == g[pg := g[pg].(busy := true, order := order)];
    }

    /** kernel/kmalloc.c:317: the pages of the block are also marked dirty. */
    method AllocPages(order: nat) returns (pg: int)
      requires Valid()
      modifies links, page, this`at, this`runs
      ensures Valid()
      ensures pg == NULL <==> forall k :: order <= k < MAX_BUDDY_PAGE_NUM ==> old(runs)[k] == []
      ensures pg == NULL ==> at == old(at) && runs == old(runs)
      ensures pg != NULL ==> Served(old(runs), runs, order, pg)
      ensures pg != NULL ==> order < MAX_BUDDY_PAGE_NUM && 0 <= pg && pg + Pow2(order) <= n && LowClear(pg, order)
      ensures pg != NULL ==> Allocated(old(at), at, pg, Pow2(order), Block(pg, order, true))
      ensures forall p :: 0 <= p < n ==>
                page[p].dirty == (old(page[p].dirty) || (pg != NULL && pg <= p < pg + Pow2(order)))
    {
      hide Tiled, Listed, Linked, HeadsOk, Allocated, LowClear, Served;
      pg := GetPagesFromList(order);
      if pg == NULL {
        return;
      }
      ghost var g, a, r := page[..], at, runs;
      for i := 0 to Pow2(order)
        invariant Valid() && at == a && runs == r
        invariant forall p :: 0 <= p < n ==> page[p] == if pg <= p < pg + i then g[p].(dirty := true) else g[p]
      {
        ghost var g1 := page[..];
        page[pg + i] := page[pg + i].(dirty := true);
        DirtyOk(at, g1, page[..]);
      }
    }

    /** kernel/kmalloc.c:338: the address of the block, whose bytes the source then clears. */
    method GetFreePages(order: nat) returns (addr: u32)
      requires Valid()
      modifies links, page, this`at, this`runs
      ensures Valid()
      ensures addr == 0 <==> forall k :: order <= k < MAX_BUDDY_PAGE_NUM ==> old(runs)[k] == []
      ensures addr == 0 ==> at == old(at) && runs == old(runs)
      ensures addr != 0 ==> order < MAX_BUDDY_PAGE_NUM && addr >= PAGING_START && LowClear(addr, 12 + order)
      ensures addr != 0 ==>
                var pg := (addr - PAGING_START) / PAGE_SIZE;
                addr == PAGING_START + PAGE_SIZE * pg && Allocated(old(at), at, pg, Pow2(order), Block(pg, order, true))
                && Served(old(runs), runs, order, pg)
    {
      hide Tiled, Listed, Linked, HeadsOk, Allocated, LowClear, Served;
      var pg := AllocPages(order);
      if pg == NULL {
        return 0;
      }
      AddressAligned(pg, order);
      addr := page[pg].vaddr;
    }

    /** kernel/kmalloc.c:354 */
    method FindFreePage() returns (addr: u32)
      requires Valid()
      modifies links, page, this`at, this`runs
      ensures Valid()
      ensures addr == 0 <==> FreePages(old(at)) == {}
      ensures addr == 0 ==> at == old(at)
      ensures addr != 0 ==> addr >= PAGING_START
                            && var pg := (addr - PAGING_START) / PAGE_SIZE;
                               addr == PAGING_START + PAGE_SIZE * pg
                                 && Allocated(old(at), at, pg, 1, Block(pg, 0, true))
    {
      hide Tiled, Listed, Linked, HeadsOk, Allocated, LowClear, FreePages;
      NothingFree(at, runs);
      addr := GetFreePages(0);
    }

    /** kernel/kmalloc.c:359: 16 KB of memory for a page directory, aligned, on the first
        try or not at all; nothing is ever put back. */
    method FindFreePageDir() returns (addr: u32)
      requires Valid()
      modifies links, page, this`at, this`runs
      ensures Valid() && addr % 0x4000 == 0
      ensures addr == 0 <==> SmallOnly(old(at), 2)
      ensures addr == 0 ==> at == old(at)
      ensures addr != 0 ==> addr >= PAGING_START
                            && var pg := (addr - PAGING_START) / PAGE_SIZE;
                                 Allocated(old(at), at, pg, 4, Block(pg, 2, true))
    {
      hide Tiled, Listed, Linked, HeadsOk, Allocated, LowClear;
      NothingLarger(at, runs, 2);
      addr := GetFreePages(2);
      if addr != 0 {
        LowBits14(addr);
      }
      if addr % 0x4000 != 0 {
        assert false;
      }
    }
  }

  lemma DirtyOk(at: seq<Block>, page: seq<Page>, page': seq<Page>)
    requires |page| == |at| == |page'| && HeadsOk(at, page, -1)
    requires forall p :: 0 <= p < |at| ==> page'[p].busy == page[p].busy && page'[p].order == page[p].order
    ensures HeadsOk(at, page', -1)
  {
    forall i | 0 <= i < |at| ensures HeadOk(at[i], page'[i], i) {
      assert HeadOk(at[i], page[i], i);
    }
  }

  lemma PageClear(pg: int, order: nat)
    requires LowClear(pg, order)
    ensures LowClear(PAGE_SIZE * pg, 12 + order)
  {
    Pow2Of12();
    LowClearShift(pg, order, 12);
    assert pg * 4096 == PAGE_SIZE * pg;
  }

  lemma StartClear(k: nat)
    requires k <= 20
    ensures LowClear(PAGING_START, k)
  {
    Pow2Of20();
    LowClearShift(0xC04, 0, 20);
    assert 0xC04 * 0x10_0000 == PAGING_START;
    LowClearFewer(PAGING_START, 20, k);
  }

  /** A block aligned to its own size among the pages is so in memory. */
  lemma AddressAligned(pg: int, order: nat)
    requires 0 <= pg && LowClear(pg, order) && order < MAX_BUDDY_PAGE_NUM
    ensures LowClear(PAGING_START + PAGE_SIZE * pg, 12 + order)
  {
    hide LowClear;
    PageClear(pg, order);
    StartClear(12 + order);
    LowClearSum(PAGING_START, PAGE_SIZE * pg, 12 + order);
  }

  lemma Pow2Of12()
    ensures Pow2(12) == 4096
  {
    Pow2Of8();
    assert Pow2(12) == 16 * Pow2(8);
  }

  lemma Pow2Of20()
    ensures Pow2(20) == 0x10_0000 && Pow2(14) == 0x4000
  {
    Pow2Of12();
    assert Pow2(16) == 16 * Pow2(12);
    assert Pow2(20) == 16 * Pow2(16);
    assert Pow2(14) == 4 * Pow2(12);
  }

  lemma LowBits14(x: int)
    requires LowClear(x, 14)
    ensures x % 0x4000 == 0
  {
    Pow2Of20();
    var q := LowClearMultiple(x, 14);
  }

  // ---- over any run ----

  /** Two blocks of a tiling are one or have no page in common. */
  lemma BlocksDisjoint(at: seq<Block>, p: int, q: int)
    requires Tiled(at) && 0 <= p < |at| && 0 <= q < |at|
    ensures at[p] == at[q] || at[p].start + Pow2(at[p].order) <= at[q].start
            || at[q].start + Pow2(at[q].order) <= at[p].start
  {
    assert TileAt(at, p) && TileAt(at, q);
    var a, b := at[p], at[q];
    var m := if a.start >= b.start then a.start else b.start;
    if a.start <= m < a.start + Pow2(a.order) && b.start <= m < b.start + Pow2(b.order) {
      assert at[m] == a && at[m] == b;
    }
  }

  ghost function FreePages(at: seq<Block>): set<int> {
    set p | 0 <= p < |at| && !at[p].held
  }

  /** Every free page is in a block of less than 2^order pages. */
  ghost predicate SmallOnly(at: seq<Block>, order: nat) {
    forall p :: 0 <= p < |at| && !at[p].held ==> at[p].order < order
  }

  ghost function Pages(s: int, m: nat): (r: set<int>)
    ensures forall p :: p in r <==> s <= p < s + m
  {
    if m == 0 then {} else Pages(s, m - 1) + {s + m - 1}
  }

  lemma {:induction false} PagesCount(s: int, m: nat)
    ensures |Pages(s, m)| == m
  {
    if m > 0 {
      PagesCount(s, m - 1);
      assert Pages(s, m) == Pages(s, m - 1) + {s + m - 1};
    }
  }

  /** An allocation takes exactly its own pages from the free ones. */
  lemma Conservation(at: seq<Block>, at': seq<Block>, s: int, m: nat, b: Block)
    requires Allocated(at, at', s, m, b) && b.held
    ensures FreePages(at) == FreePages(at') + Pages(s, m) && FreePages(at') !! Pages(s, m)
    ensures |FreePages(at')| == |FreePages(at)| - m
  {
    PagesCount(s, m);
    assert FreePages(at) == FreePages(at') + Pages(s, m);
  }

  /** One call of get_pages_from_list that did not return NULL. */
  datatype Grant = Grant(start: int, pages: nat, block: Block)

  /** A run: the states from the first to the last, and what was handed out between them. */
  ghost predicate History(ats: seq<seq<Block>>, gs: seq<Grant>) {
    && |ats| == |gs| + 1
    && forall i :: 0 <= i < |gs| ==> Granted(ats, gs, i)
  }

  ghost predicate Granted(ats: seq<seq<Block>>, gs: seq<Grant>, i: int)
    requires 0 <= i < |gs| < |ats|
  {
    gs[i].block.held && Allocated(ats[i], ats[i + 1], gs[i].start, gs[i].pages, gs[i].block)
  }

  /** Once handed out, a page stays in its block for the rest of the run. */
  lemma {:induction false} StillHeld(ats: seq<seq<Block>>, gs: seq<Grant>, i: nat, j: nat)
    requires History(ats, gs) && i < j <= |gs|
    ensures 0 <= gs[i].start && gs[i].start + gs[i].pages <= |ats[j]|
    ensures forall p :: gs[i].start <= p < gs[i].start + gs[i].pages ==> ats[j][p] == gs[i].block
    decreases j
  {
    assert Granted(ats, gs, i) && Granted(ats, gs, j - 1);
    if i < j - 1 { StillHeld(ats, gs, i, j - 1); }
  }

  /** Over any run no two blocks handed out have a page in common. */
  lemma NeverTwice(ats: seq<seq<Block>>, gs: seq<Grant>, i: nat, j: nat)
    requires History(ats, gs) && i < j < |gs|
    ensures Pages(gs[i].start, gs[i].pages) !! Pages(gs[j].start, gs[j].pages)
  {
    StillHeld(ats, gs, i, j);
    assert Granted(ats, gs, i) && Granted(ats, gs, j);
    assert forall p :: p in Pages(gs[i].start, gs[i].pages) ==> ats[j][p].held;
  }

  function Taken(gs: seq<Grant>): nat {
    if gs == [] then 0 else Taken(gs[..|gs| - 1]) + gs[|gs| - 1].pages
  }

  /** Over any run that starts with all pages free, free and handed-out pages add up to all. */
  lemma {:induction false} AllAccounted(ats: seq<seq<Block>>, gs: seq<Grant>)
    requires History(ats, gs) && forall p :: 0 <= p < |ats[0]| ==> !ats[0][p].held
    ensures |FreePages(ats[|gs|])| + Taken(gs) == |ats[0]|
    decreases |gs|
  {
    if gs == [] {
      PagesCount(0, |ats[0]|);
      assert FreePages(ats[0]) == Pages(0, |ats[0]|);
    } else {
      var k := |gs| - 1;
      var ats1, gs1 := ats[..k + 1], gs[..k];
      forall i | 0 <= i < |gs1| ensures Granted(ats1, gs1, i) {
        assert Granted(ats, gs, i);
      }
      AllAccounted(ats1, gs1);
      assert Granted(ats, gs, k);
      Conservation(ats[k], ats[k + 1], gs[k].start, gs[k].pages, gs[k].block);
    }
  }

  // ---- get_order ----

  /** kernel/kmalloc.c:369, for the sizes a 32-bit shift can reach. Order 9 is returned
      although no list of that order exists. */
  method GetOrder(size: u32) returns (order: int)
    requires size <= 0x8000_0000
    ensures size == 0 ==> order == -1
    ensures size > 0x20_0000 ==> order == -1
    ensures 0 < size <= 0x20_0000 ==>
            0 <= order <= 9 && size <= Pow2(order + 12) && (order > 0 ==> Pow2(order + 11) < size)
  {
    if size == 0 {
      return -1;
    }
    Pow2Of20();
    Pow2Of31();
    var o: nat := 0;
    while Pow2(o + 12) < size
      invariant o <= 19 && (o > 0 ==> Pow2(o + 11) < size)
      decreases 19 - o
    {
      o := o + 1;
    }
    if o > 9 {
      Pow2Up(21, o + 11);
      return -1;
    }
    Pow2Up(o + 12, 21);
    order := o;
  }

  lemma Pow2Of31()
    ensures Pow2(31) == 0x8000_0000 && Pow2(21) == 0x20_0000
  {
    Pow2Of20();
    assert Pow2(24) == 16 * Pow2(20);
    assert Pow2(28) == 16 * Pow2(24);
    assert Pow2(31) == 8 * Pow2(28);
  }

  lemma {:induction false} Pow2Up(a: nat, b: nat)
    requires a <= b
    ensures Pow2(a) <= Pow2(b)
    decreases b
  {
    if a < b { Pow2Up(a, b - 1); }
  }

  lemma ListAt(l: seq<Links>, runs: seq<seq<int>>, n: nat, k: nat)
    requires Linked(l, runs, n) && k < MAX_BUDDY_PAGE_NUM
    ensures |runs| == MAX_BUDDY_PAGE_NUM && n + k < |l| && (l[n + k].next == n + k <==> runs[k] == [])
  {
    assert IsRing(l, Ring(n, runs[k], k));
    EmptyList(l, n, runs[k], k);
  }

  // ---- the initial state ----

  /** KERNEL_PAGE_NUM & ~PAGE_NUM_FOR_MAX_BUDDY */
  function Maximal(n: nat): (m: nat)
    ensures m <= n && m % 512 == 0
  {
    n - n % (PAGE_NUM_FOR_MAX_BUDDY + 1)
  }

  /** What list k holds after the first i pages were added. */
  function Added(n: nat, i: nat, k: nat): seq<int> {
    if k == 8 then Run(0, if i < Maximal(n) then i else Maximal(n))
    else if k == 0 then Run(Maximal(n), if i < Maximal(n) then 0 else i - Maximal(n))
    else []
  }

  function Row(n: nat, i: nat, k: nat): seq<int> {
    [n + k] + Added(n, i, k)
  }

  ghost predicate Threaded(l: seq<Links>, n: nat, i: nat) {
    |l| == n + MAX_BUDDY_PAGE_NUM &&
    forall k :: 0 <= k < MAX_BUDDY_PAGE_NUM ==> IsRing(l, Row(n, i, k))
  }

  lemma ThreadedNone(l: seq<Links>, n: nat)
    requires |l| == n + MAX_BUDDY_PAGE_NUM && forall k :: n <= k < n + MAX_BUDDY_PAGE_NUM ==> l[k] == Links(k, k)
    ensures Threaded(l, n, 0)
  {
    forall k | 0 <= k < MAX_BUDDY_PAGE_NUM ensures IsRing(l, Row(n, 0, k)) {
      assert Row(n, 0, k) == [n + k];
    }
  }

  /** INIT_LIST_HEAD of page i leaves all lists as they are. */
  lemma ThreadedSelf(l: seq<Links>, n: nat, i: nat)
    requires Threaded(l, n, i) && i < n
    ensures Threaded(l[i := Links(i, i)], n, i)
  {
    hide IsRing;
    var l1 := l[i := Links(i, i)];
    forall k | 0 <= k < MAX_BUDDY_PAGE_NUM ensures IsRing(l1, Row(n, i, k)) {
      var r := Row(n, i, k);
      assert IsRing(l, r);
      InRing(l, r);
      RingKept(l, l1, r);
    }
  }

  /** Page i is appended to its list. */
  lemma ThreadedMore(l: seq<Links>, l1: seq<Links>, n: nat, i: nat)
    requires Threaded(l, n, i) && i < n && l1 == l[i := Links(i, i)]
    ensures var h := n + if i < Maximal(n) then 8 else 0;
            0 <= l1[h].prev < |l| && l1[h].prev != i && Threaded(Pushed(l1, i, i, h), n, i + 1)
  {
    hide IsRing, IsChain, Pushed;
    ThreadedSelf(l, n, i);
    var k0 := if i < Maximal(n) then 8 else 0;
    var r0 := Row(n, i, k0);
    assert IsRing(l1, r0);
    RingDistinct(l1, r0);
    OneChain(l1, i);
    PushLast(l1, r0, [i]);
    var l' := Pushed(l1, i, i, n + k0);
    assert r0 + [i] == Row(n, i + 1, k0);
    var i1 := i + 1;
    forall k | 0 <= k < MAX_BUDDY_PAGE_NUM && k != k0 ensures IsRing(l', Row(n, i1, k)) {
      OtherRow(l1, l', n, i, k, k0);
    }
  }

  lemma OtherRow(l: seq<Links>, l': seq<Links>, n: nat, i: nat, k: nat, k0: nat)
    requires Threaded(l, n, i) && i < n && k < MAX_BUDDY_PAGE_NUM && k0 < MAX_BUDDY_PAGE_NUM && k != k0 && |l'| == |l|
    requires k0 == if i < Maximal(n) then 8 else 0
    requires forall x :: 0 <= x < |l| && x !in Row(n, i, k0) && x != i ==> l'[x] == l[x]
    ensures IsRing(l', Row(n, i + 1, k))
  {
    hide IsRing;
    var r := Row(n, i, k);
    assert r == Row(n, i + 1, k) && IsRing(l, r);
    InRing(l, r);
    RingKept(l, l', r);
  }

  lemma InRing(l: seq<Links>, r: seq<int>)
    requires IsRing(l, r)
    ensures forall j :: 0 <= j < |r| ==> 0 <= r[j] < |l|
  {
  }

  lemma OneChain(l: seq<Links>, i: int)
    requires 0 <= i < |l|
    ensures IsChain(l, [i]) && Distinct([i])
  {
  }

  /** 0, 256, 512, ...: the starts of q maximal blocks. */
  function Starts(q: nat): (r: seq<int>)
    ensures |r| == q && forall i :: 0 <= i < q ==> r[i] == 256 * i
  {
    seq(q, i => 256 * i)
  }

  lemma {:induction false} FlatStarts(q: nat)
    ensures Flat(Starts(q), 256) == Run(0, 256 * q)
  {
    if q > 0 {
      FlatStarts(q - 1);
      assert Starts(q) == Starts(q - 1) + [256 * (q - 1)];
      FlatAppend(Starts(q - 1), 256 * (q - 1), 256);
      assert Run(0, 256 * (q - 1)) + Run(256 * (q - 1), 256) == Run(0, 256 * q);
    } else {
      assert Starts(0) == [];
    }
  }

  lemma {:induction false} FlatSingles(a: int, m: nat)
    ensures Flat(Run(a, m), 1) == Run(a, m)
  {
    if m > 0 {
      FlatSingles(a, m - 1);
      assert Run(a, m) == Run(a, m - 1) + [a + m - 1];
      FlatAppend(Run(a, m - 1), a + m - 1, 1);
      assert Run(a + m - 1, 1) == [a + m - 1];
    } else {
      assert Run(a, 0) == [];
    }
  }

  function FirstBlock(n: nat, p: int): Block
    requires 0 <= p
  {
    if p < Maximal(n) then Block(p - p % 256, 8, false) else Block(p, 0, false)
  }

  function FirstBlocks(n: nat): (at: seq<Block>)
    ensures |at| == n && forall p :: 0 <= p < n ==> at[p] == FirstBlock(n, p)
  {
    seq(n, p requires 0 <= p => FirstBlock(n, p))
  }

  function FirstRun(n: nat, k: nat): seq<int> {
    if k == 8 then Starts(Maximal(n) / 256) else if k == 0 then Run(Maximal(n), n - Maximal(n)) else []
  }

  function FirstRuns(n: nat): (r: seq<seq<int>>)
    ensures |r| == MAX_BUDDY_PAGE_NUM && forall k :: 0 <= k < MAX_BUDDY_PAGE_NUM ==> r[k] == FirstRun(n, k)
  {
    seq(MAX_BUDDY_PAGE_NUM, k requires 0 <= k => FirstRun(n, k))
  }

  lemma Pow2Of8()
    ensures Pow2(8) == 256 && Pow2(0) == 1
  {
    assert Pow2(4) == 16 && Pow2(8) == 16 * Pow2(4);
  }

  lemma FirstTiled(n: nat)
    ensures Tiled(FirstBlocks(n))
  {
    hide FirstBlocks, Maximal, LowClear, Pow2;
    var at := FirstBlocks(n);
    forall p | 0 <= p < n ensures TileAt(at, p) {
      if p < Maximal(n) {
        WholeBlock(n, p);
      } else {
        OnePage(p);
      }
    }
  }

  lemma OnePage(p: int)
    ensures LowClear(p, 0) && Pow2(0) == 1
  {
  }

  lemma WholeBlock(n: nat, p: nat)
    requires p < Maximal(n)
    ensures var s := p - p % 256;
            && Pow2(8) == 256 && LowClear(s, 8) && s <= p < s + 256 <= Maximal(n) <= n
            && forall q :: s <= q < s + 256 ==> FirstBlock(n, q) == Block(s, 8, false)
  {
    hide Maximal, LowClear, Pow2;
    var k := p / 256;
    BlockStart(k);
    forall q | 256 * k <= q < 256 * k + 256 ensures q - q % 256 == 256 * k {
    }
  }

  lemma BlockStart(k: nat)
    ensures Pow2(8) == 256 && LowClear(256 * k, 8)
  {
    Pow2Of8();
    assert LowClear(k, 0);
    LowClearShift(k, 0, 8);
  }

  lemma FirstListed(n: nat)
    ensures Listed(FirstBlocks(n), FirstRuns(n))
  {
    hide FirstRuns, FirstBlocks;
    var at, runs := FirstBlocks(n), FirstRuns(n);
    forall k, j | 0 <= k < MAX_BUDDY_PAGE_NUM && 0 <= j < |runs[k]|
      ensures 0 <= runs[k][j] < n && at[runs[k][j]] == Block(runs[k][j], k, false)
    {
      assert runs[k] == FirstRun(n, k);
      if k == 8 { assert runs[k][j] == 256 * j && (256 * j) % 256 == 0; }
    }
    forall k | 0 <= k < MAX_BUDDY_PAGE_NUM ensures Distinct(runs[k]) {
      assert runs[k] == FirstRun(n, k);
    }
    forall p | 0 <= p < n ensures at[p].order < MAX_BUDDY_PAGE_NUM && at[p].start in runs[at[p].order] {
      assert at[p] == FirstBlock(n, p);
      if p < Maximal(n) {
        assert FirstRun(n, 8)[p / 256] == p - p % 256;
      } else {
        assert FirstRun(n, 0)[p - Maximal(n)] == p;
      }
    }
  }

  lemma FirstLinked(l: seq<Links>, n: nat)
    requires Threaded(l, n, n)
    ensures Linked(l, FirstRuns(n), n)
  {
    hide IsRing, FirstRuns;
    var runs := FirstRuns(n);
    forall k | 0 <= k < MAX_BUDDY_PAGE_NUM ensures IsRing(l, Ring(n, runs[k], k)) {
      assert IsRing(l, Row(n, n, k));
      FirstRing(n, k);
    }
  }

  lemma FirstRing(n: nat, k: nat)
    requires k < MAX_BUDDY_PAGE_NUM
    ensures Ring(n, FirstRun(n, k), k) == Row(n, n, k)
  {
    Pow2Of8();
    if k == 8 {
      FlatStarts(Maximal(n) / 256);
    } else if k == 0 {
      FlatSingles(Maximal(n), n - Maximal(n));
    }
  }

  /** The page structure init_page_map sets up. */
  function FirstPage(n: nat, p: nat): Page
    requires p < n <= KERNEL_PAGE_NUM
  {
    Page(PAGING_START + PAGE_SIZE * p, false, false,
         if p < Maximal(n) then (if p % 512 == 0 then 8 else -1) else 0)
  }

  lemma FirstHeads(n: nat, page: seq<Page>)
    requires |page| == n <= KERNEL_PAGE_NUM && forall p :: 0 <= p < n ==> page[p] == FirstPage(n, p)
    ensures HeadsOk(FirstBlocks(n), page, -1)
  {
  }

  /** The block in hand is aligned, inside memory, and marking its head completes the state. */
  lemma InHand(at: seq<Block>, pg: int, k: nat, page: seq<Page>)
    requires Tiled(at) && 0 <= pg < |at| == |page| && at[pg] == Block(pg, k, true) && HeadsOk(at, page, pg)
    ensures k < MAX_BUDDY_PAGE_NUM && pg + Pow2(k) <= |at| && LowClear(pg, k)
    ensures HeadsOk(at, page[pg := page[pg].(busy := true, order := k)], -1)
  {
    assert TileAt(at, pg);
    var page' := page[pg := page[pg].(busy := true, order := k)];
    forall i | 0 <= i < |at| ensures HeadOk(at[i], page'[i], i) {
      if i != pg { assert HeadOk(at[i], page[i], i); }
    }
  }

  lemma TakeStart(at: seq<Block>, runs: seq<seq<int>>, k: nat)
    requires Listed(at, runs) && k < MAX_BUDDY_PAGE_NUM && runs[k] != []
    ensures 0 <= runs[k][0] < |at| && at[runs[k][0]] == Block(runs[k][0], k, false) && |runs| == MAX_BUDDY_PAGE_NUM
  {
  }
}
