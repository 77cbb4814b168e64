/** The write-back buffer cache (fs/buffer.c): a fixed array of buffer heads,
    254 hash rings and one free ring threaded through it, over an abstract disk
    whose transfers succeed. A BUFFER_HEAD* is a slot number of the array. */
module BufferCaches {
  import opened Bytes
  import opened Rings

  const NR_HASH := 254
  const OUT_BLKS: u32 := 20

  datatype Key = Key(dev: u16, blk: u32)

  /** A BUFFER_HEAD without its ring links, which are kept beside it. */
  datatype BufferHead = BufferHead(data: Block, dev: u16, blk: u32, valid: bool, dirt: bool, cnt: u8, hashed: bool)
  {
    function Id(): Key { Key(dev, blk) }
  }

  /** dev_no ^ blk_no, bit by bit. */
  function Xor(a: nat, b: nat): (r: nat)
    decreases a + b
  {
    if a == 0 && b == 0 then 0 else 2 * Xor(a / 2, b / 2) + (if a % 2 != b % 2 then 1 else 0)
  }

  lemma {:induction false} XorBit(a: nat, b: nat, k: nat)
    ensures BinBit(Xor(a, b), k) <==> BinBit(a, k) != BinBit(b, k)
    decreases k
  {
    hide BinBit;
    if k == 0 {
      NextBit(a, 0);
      NextBit(b, 0);
      NextBit(Xor(a, b), 0);
    } else {
      NextBit(a, k - 1);
      NextBit(b, k - 1);
      NextBit(Xor(a, b), k - 1);
      XorBit(a / 2, b / 2, k - 1);
    }
  }

  function Row(k: Key): (r: nat)
    ensures r < NR_HASH
  {
    Xor(k.dev, k.blk) % NR_HASH
  }

  // ---- the shape of the cache, on values ----

  /** Every slot but limbo is on exactly one ring: unhashed ones on the free
      ring, hashed ones on the ring of the row of their own key. */
  ghost predicate OnOneRing(a: seq<BufferHead>, free: seq<int>, rows: seq<seq<int>>, limbo: int)
    requires |rows| == NR_HASH
  {
    && (forall j :: 0 <= j < |free| ==> 0 <= free[j] < |a| && free[j] != limbo && !a[free[j]].hashed)
    && (forall r, j :: 0 <= r < NR_HASH && 0 <= j < |rows[r]| ==>
          0 <= rows[r][j] < |a| && rows[r][j] != limbo
          && a[rows[r][j]].hashed && Row(a[rows[r][j]].Id()) == r)
    && (forall i :: 0 <= i < |a| && i != limbo && !a[i].hashed ==> i in free)
    && (forall i :: 0 <= i < |a| && i != limbo && a[i].hashed ==> i in rows[Row(a[i].Id())])
  }

  /** No two hashed slots share a key; at finds the slot of a key. */
  ghost predicate Indexed(a: seq<BufferHead>, at: map<Key, int>) {
    && (forall i :: 0 <= i < |a| && a[i].hashed ==> a[i].dev != 0 && a[i].Id() in at && at[a[i].Id()] == i)
    && (forall k :: k in at ==> 0 <= at[k] < |a| && a[at[k]].hashed && a[at[k]].Id() == k)
  }

  ghost predicate Linked(hl: seq<Links>, fl: seq<Links>, hash: seq<int>, freeList: int,
                         free: seq<int>, rows: seq<seq<int>>)
    requires |hash| == |rows| == NR_HASH
  {
    && RingFrom(fl, freeList, free)
    && (forall r :: 0 <= r < NR_HASH ==> RingFrom(hl, hash[r], rows[r]))
  }

  /** Clean valid buffers equal the disk; a buffer nobody holds stays hashed
      only while it is dirty and valid; slot x may be on its way out. */
  ghost predicate DataOk(a: seq<BufferHead>, disk: Key -> Block, x: int) {
    && (forall i :: 0 <= i < |a| && a[i].hashed && a[i].valid && !a[i].dirt ==> a[i].data == disk(a[i].Id()))
    && (forall i :: 0 <= i < |a| && a[i].hashed && i != x ==> a[i].cnt > 0 || (a[i].dirt && a[i].valid))
    && (forall i :: 0 <= i < |a| && !a[i].hashed ==> a[i].cnt == 0 && !a[i].valid && !a[i].dirt)
  }

  /** The n outermost slots on either side of r do not hold block k. */
  ghost predicate Outside(a: seq<BufferHead>, r: seq<int>, n: int, k: Key) {
    forall j :: 0 <= j < |r| && (j < n || |r| - n <= j) ==> 0 <= r[j] < |a| && a[r[j]].Id() != k
  }

  lemma OutsideStep(a: seq<BufferHead>, r: seq<int>, n: int, k: Key)
    requires Outside(a, r, n, k) && 0 <= n <= |r| - 1 - n
    requires 0 <= r[n] < |a| && a[r[n]].Id() != k
    requires 0 <= r[|r|-1-n] < |a| && a[r[|r|-1-n]].Id() != k
    ensures Outside(a, r, n + 1, k)
  {
  }

  /** Nobody on the ring of k's row has key k: k is not cached. */
  lemma NotOnRing(a: seq<BufferHead>, free: seq<int>, rows: seq<seq<int>>, at: map<Key, int>, k: Key)
    requires |rows| == NR_HASH && OnOneRing(a, free, rows, -1) && Indexed(a, at)
    requires Outside(a, rows[Row(k)], |rows[Row(k)]|, k)
    ensures k !in at
  {
  }

  /** One step of the two-ended walk over a ring. */
  lemma WalkInward(l: seq<Links>, r: seq<int>, a: int)
    requires IsRing(l, r) && 0 <= a <= |r| - 1 - a
    ensures l[r[a]].next == r[|r|-1-a] || r[a] == r[|r|-1-a] <==> |r| - 1 - a <= a + 1
    ensures |r| - 1 - a > a + 1 ==> l[r[a]].next == r[a+1] && l[r[|r|-1-a]].prev == r[|r|-2-a]
  {
  }

  // ---- moves between the rings, on values ----

  lemma PopOne(a: seq<BufferHead>, free: seq<int>, rows: seq<seq<int>>)
    requires |rows| == NR_HASH && OnOneRing(a, free, rows, -1) && |free| > 0 && Distinct(free)
    ensures OnOneRing(a, free[1..], rows, free[0])
  {
    forall i | 0 <= i < |a| && i != free[0] && !a[i].hashed ensures i in free[1..] {
      assert i in free;
    }
    forall r, j | 0 <= r < NR_HASH && 0 <= j < |rows[r]| ensures rows[r][j] != free[0] {
      assert a[rows[r][j]].hashed && !a[free[0]].hashed;
    }
  }

  lemma PushOne(a: seq<BufferHead>, free: seq<int>, rows: seq<seq<int>>, p: int)
    requires |rows| == NR_HASH && OnOneRing(a, free, rows, p) && 0 <= p < |a| && !a[p].hashed
    ensures OnOneRing(a, free + [p], rows, -1)
  {
    var f := free + [p];
    forall i | 0 <= i < |a| && !a[i].hashed ensures i in f {
      if i == p { assert f[|free|] == p; } else { assert i in free; }
    }
  }

  lemma HookOne(a: seq<BufferHead>, free: seq<int>, rows: seq<seq<int>>, p: int, b: BufferHead)
    requires |rows| == NR_HASH && OnOneRing(a, free, rows, p) && 0 <= p < |a| && b.hashed
    ensures var i := Row(b.Id()); OnOneRing(a[p := b], free, rows[i := rows[i] + [p]], -1)
  {
    var i := Row(b.Id());
    var a', rows' := a[p := b], rows[i := rows[i] + [p]];
    forall q | 0 <= q < |a| && a'[q].hashed ensures q in rows'[Row(a'[q].Id())] {
      if q == p {
        assert rows'[i][|rows[i]|] == p;
      } else {
        assert q in rows[Row(a[q].Id())];
      }
    }
  }

  lemma UnhookOne(a: seq<BufferHead>, free: seq<int>, rows: seq<seq<int>>, p: int, b: BufferHead, j: int)
    requires |rows| == NR_HASH && OnOneRing(a, free, rows, -1) && 0 <= p < |a| && a[p].hashed && !b.hashed
    requires var r := rows[Row(a[p].Id())]; 0 <= j < |r| && r[j] == p && Distinct(r)
    ensures var i := Row(a[p].Id()); OnOneRing(a[p := b], free, rows[i := Without(rows[i], j, j + 1)], p)
  {
    var i := Row(a[p].Id());
    var a', s := a[p := b], Without(rows[i], j, j + 1);
    var rows' := rows[i := s];
    forall q | 0 <= q < |a| && q != p && a'[q].hashed ensures q in rows'[Row(a'[q].Id())] {
      assert q in rows[Row(a[q].Id())];
      if Row(a[q].Id()) == i {
        var m :| 0 <= m < |rows[i]| && rows[i][m] == q;
        assert s[if m < j then m else m - 1] == q;
      }
    }
    forall r, m | 0 <= r < NR_HASH && 0 <= m < |rows'[r]|
      ensures 0 <= rows'[r][m] < |a| && rows'[r][m] != p && a'[rows'[r][m]].hashed && Row(a'[rows'[r][m]].Id()) == r
    {
      var q := rows'[r][m];
      if r == i {
        assert q == rows[i][if m < j then m else m + 1];
      } else {
        assert q == rows[r][m];
      }
    }
  }

  /** Where a hashed slot sits on the ring of its row. */
  lemma PlaceOnRow(a: seq<BufferHead>, free: seq<int>, rows: seq<seq<int>>, limbo: int, p: int) returns (j: int)
    requires |rows| == NR_HASH && OnOneRing(a, free, rows, limbo) && 0 <= p < |a| && p != limbo && a[p].hashed
    ensures 0 <= j < |rows[Row(a[p].Id())]| && rows[Row(a[p].Id())][j] == p
    ensures p !in free && Row(a[p].Id()) < NR_HASH
  {
    j :| 0 <= j < |rows[Row(a[p].Id())]| && rows[Row(a[p].Id())][j] == p;
  }

  lemma LimboOffRow(a: seq<BufferHead>, free: seq<int>, rows: seq<seq<int>>, limbo: int, i: int)
    requires |rows| == NR_HASH && OnOneRing(a, free, rows, limbo) && 0 <= i < NR_HASH
    ensures limbo !in rows[i]
  {
  }

  lemma RowBound(k: Key)
    ensures Row(k) < NR_HASH
  {
  }

  lemma DistinctRow(hl: seq<Links>, fl: seq<Links>, hash: seq<int>, freeList: int,
                    free: seq<int>, rows: seq<seq<int>>, i: int)
    requires |hash| == |rows| == NR_HASH && Linked(hl, fl, hash, freeList, free, rows) && 0 <= i < NR_HASH
    ensures Distinct(rows[i])
  {
    assert RingFrom(hl, hash[i], rows[i]);
  }

  /** Only the ring of row i and the slot p were relinked. */
  lemma OtherRows(a: seq<BufferHead>, free: seq<int>, rows: seq<seq<int>>, limbo: int,
                  hl: seq<Links>, hl': seq<Links>, hash: seq<int>, hash': seq<int>, i: int, p: int, r': seq<int>)
    requires |rows| == |hash| == |hash'| == NR_HASH && OnOneRing(a, free, rows, limbo) && 0 <= i < NR_HASH
    requires forall r :: 0 <= r < NR_HASH ==> RingFrom(hl, hash[r], rows[r])
    requires forall r :: 0 <= r < NR_HASH && r != i ==> hash'[r] == hash[r]
    requires p == limbo || (0 <= p < |a| && a[p].hashed && Row(a[p].Id()) == i)
    requires |hl'| == |hl| == |a|
    requires forall x :: 0 <= x < |hl| && x != p && x !in rows[i] ==> hl'[x] == hl[x]
    requires RingFrom(hl', hash'[i], r')
    ensures forall r :: 0 <= r < NR_HASH ==> RingFrom(hl', hash'[r], rows[i := r'][r])
  {
    forall r | 0 <= r < NR_HASH && r != i ensures RingFrom(hl', hash'[r], rows[r]) {
      forall j | 0 <= j < |rows[r]| ensures 0 <= rows[r][j] < |hl| && hl'[rows[r][j]] == hl[rows[r][j]] {
        assert Row(a[rows[r][j]].Id()) == r;
      }
      RingFrame(hl, hl', hash[r], rows[r]);
    }
  }

  /** Slot b is idle: not dirty with valid data, and not kept without a holder. */
  predicate Idle(b: BufferHead) {
    !(b.dirt && b.valid) && (b.hashed ==> b.cnt > 0)
  }

  /** A buffer head after free_buffer, and after its stop of the round robin. */
  function Freed(b: BufferHead): BufferHead {
    BufferHead(b.data, 0, 0, false, false, 0, false)
  }

  function Synced(b: BufferHead): BufferHead {
    if !b.hashed then b else if b.cnt == 0 then Freed(b) else if b.valid then b.(dirt := false) else b
  }

  lemma SyncedIdle(a: seq<BufferHead>, disk: Key -> Block)
    requires DataOk(a, disk, -1)
    ensures forall i :: 0 <= i < |a| ==> Idle(Synced(a[i]))
  {
  }

  /** How many stops after p0 the round robin over n slots reaches x. */
  function Turn(x: int, p0: int, n: int): int {
    if x > p0 then x - p0 - 1 else x - p0 - 1 + n
  }

  lemma NextTurn(p: int, p0: int, n: int)
    requires 0 <= p < n && 0 <= p0 < n
    ensures (p + 1) % n == if p + 1 == n then 0 else p + 1
    ensures Turn((p + 1) % n, p0, n) == if p == p0 then 0 else Turn(p, p0, n) + 1
  {
    if p + 1 < n {
      assert (p + 1) % n == p + 1;
    }
  }

  lemma TurnsBelow(p0: int, n: int)
    requires 0 <= p0 < n
    ensures forall x {:trigger Turn(x, p0, n)} :: 0 <= x < n ==> 0 <= Turn(x, p0, n) < n
    ensures Turn(p0, p0, n) == n - 1
  {
  }

  lemma TurnUnique(p: int, p0: int, n: int)
    requires 0 <= p < n && 0 <= p0 < n
    ensures 0 <= Turn(p, p0, n) < n
    ensures forall x {:trigger Turn(x, p0, n)} :: 0 <= x < n && Turn(x, p0, n) == Turn(p, p0, n) ==> x == p
  {
  }

  // ---- what callers see ----

  /** A pinned block: its slot, its pin count, and whether the slot has its data. */
  datatype Pin = Pin(slot: int, cnt: u8, valid: bool)

  /** What the system believes block k holds: the buffer if there is a valid one,
      else the disk. */
  ghost function ContentOf(a: seq<BufferHead>, at: map<Key, int>, disk: Key -> Block, k: Key): Block
    requires Indexed(a, at)
  {
    if k in at && a[at[k]].valid then a[at[k]].data else disk(k)
  }

  ghost function PinOf(a: seq<BufferHead>, at: map<Key, int>, k: Key): Pin
    requires Indexed(a, at)
  {
    if k in at then Pin(at[k], a[at[k]].cnt, a[at[k]].valid) else Pin(NULL, 0, false)
  }

  ghost function Contents(a: seq<BufferHead>, at: map<Key, int>, disk: Key -> Block): (v: imap<Key, Block>)
    requires Indexed(a, at)
    ensures forall k :: k in v
  {
    imap k: Key | true :: ContentOf(a, at, disk, k)
  }

  ghost function PinsIn(a: seq<BufferHead>, at: map<Key, int>): (m: map<Key, Pin>)
    requires Indexed(a, at)
  {
    map k | k in at && PinOf(a, at, k).cnt > 0 :: PinOf(a, at, k)
  }

  lemma SeenSame(a: seq<BufferHead>, at: map<Key, int>, disk: Key -> Block,
                 a': seq<BufferHead>, at': map<Key, int>, disk': Key -> Block)
    requires Indexed(a, at) && Indexed(a', at')
    requires forall k :: ContentOf(a', at', disk', k) == ContentOf(a, at, disk, k)
    requires forall k :: PinOf(a', at', k) == PinOf(a, at, k) || PinOf(a', at', k).cnt == PinOf(a, at, k).cnt == 0
    ensures Contents(a', at', disk') == Contents(a, at, disk) && PinsIn(a', at') == PinsIn(a, at)
  {
    forall k ensures k in PinsIn(a', at') <==> k in PinsIn(a, at) {
      assert PinOf(a', at', k) == PinOf(a, at, k) || PinOf(a', at', k).cnt == PinOf(a, at, k).cnt == 0;
    }
  }

  // ---- arithmetic of pins ----

  /** One more pin on block k, which sits in slot p. */
  function Plus(m: map<Key, Pin>, k: Key, p: int, valid: bool): map<Key, Pin>
    requires k in m ==> m[k].cnt < 255
  {
    m[k := Pin(p, if k in m then m[k].cnt + 1 else 1, valid)]
  }

  function Minus(m: map<Key, Pin>, k: Key): map<Key, Pin>
    requires k in m
  {
    if m[k].cnt <= 1 then m - {k} else m[k := m[k].(cnt := m[k].cnt - 1)]
  }

  /** n is a live pointer to block k. */
  predicate Points(m: map<Key, Pin>, k: Key, p: int) {
    k in m && m[k].slot == p && m[k].cnt > 0
  }

  /** ... whose data has been read. */
  predicate Holds(m: map<Key, Pin>, k: Key, p: int) {
    Points(m, k, p) && m[k].valid
  }

  /** Room for n more pins in a cache of so many slots, whatever they are on. */
  predicate Room(m: map<Key, Pin>, slots: nat, n: nat) {
    |m| + n <= slots && n <= 255 && forall k :: k in m ==> m[k].cnt + n <= 255
  }

  lemma PlusMinus(m: map<Key, Pin>, k: Key, p: int, valid: bool)
    requires k in m ==> 0 < m[k].cnt < 255 && m[k].slot == p && m[k].valid == valid
    ensures Minus(Plus(m, k, p, valid), k) == m
  {
    if k !in m {
      assert Minus(Plus(m, k, p, valid), k) == m;
    }
  }

  lemma PlusRoom(m: map<Key, Pin>, slots: nat, n: nat, k: Key, p: int, valid: bool)
    requires Room(m, slots, n + 1)
    ensures Room(Plus(m, k, p, valid), slots, n)
  {
    assert Plus(m, k, p, valid).Keys == m.Keys + {k};
  }

  lemma RoomLess(m: map<Key, Pin>, slots: nat, n: nat, l: nat)
    requires Room(m, slots, n) && l <= n
    ensures Room(m, slots, l)
  {
  }

  /** Dropping an unpinned buffer that is clean or never read changes nothing. */
  lemma DropOne(a: seq<BufferHead>, at: map<Key, int>, disk: Key -> Block, p: int, b: BufferHead)
    requires Indexed(a, at) && DataOk(a, disk, p) && 0 <= p < |a|
    requires a[p].hashed && a[p].cnt == 0 && !(a[p].dirt && a[p].valid)
    requires !b.hashed && b.cnt == 0 && !b.valid && !b.dirt
    ensures var a', at' := a[p := b], at - {a[p].Id()};
            Indexed(a', at') && DataOk(a', disk, -1)
            && Contents(a', at', disk) == Contents(a, at, disk) && PinsIn(a', at') == PinsIn(a, at)
  {
    hide Contents, PinsIn;
    var a', at' := a[p := b], at - {a[p].Id()};
    forall i | 0 <= i < |a| && a'[i].hashed ensures a'[i].dev != 0 && a'[i].Id() in at' && at'[a'[i].Id()] == i {
      assert a'[i] == a[i] && at[a[i].Id()] == i;
    }
    SeenSame(a, at, disk, a', at', disk);
  }

  /** Updating a slot under the same key touches neither rings nor index, and
      only that key's content and pin count. */
  lemma SameKey(a: seq<BufferHead>, free: seq<int>, rows: seq<seq<int>>, at: map<Key, int>, p: int, b: BufferHead)
    requires |rows| == NR_HASH && OnOneRing(a, free, rows, -1) && Indexed(a, at) && 0 <= p < |a|
    requires a[p].hashed && b.hashed && b.Id() == a[p].Id()
    ensures OnOneRing(a[p := b], free, rows, -1) && Indexed(a[p := b], at)
  {
  }

  /** ... and what callers see of it follows the new buffer head. */
  lemma SlotContent(a: seq<BufferHead>, at: map<Key, int>, disk: Key -> Block, p: int, b: BufferHead)
    requires Indexed(a, at) && 0 <= p < |a| && a[p].hashed && b.hashed && b.Id() == a[p].Id()
    requires DataOk(a, disk, p) && (b.valid && !b.dirt ==> b.data == disk(b.Id()))
    ensures Indexed(a[p := b], at) && DataOk(a[p := b], disk, p)
    ensures Contents(a[p := b], at, disk)
         == Contents(a, at, disk)[b.Id() := if b.valid then b.data else disk(b.Id())]
    ensures PinsIn(a[p := b], at)
         == if b.cnt > 0 then PinsIn(a, at)[b.Id() := Pin(p, b.cnt, b.valid)] else PinsIn(a, at) - {b.Id()}
  {
    hide DataOk;
    var a', id := a[p := b], b.Id();
    SameKeyIndex(a, at, p, b);
    SlotData(a, at, disk, p, b);
    forall k ensures ContentOf(a', at, disk, k)
                  == if k == id then (if b.valid then b.data else disk(id)) else ContentOf(a, at, disk, k)
    {}
    forall k ensures PinOf(a', at, k) == if k == id then Pin(p, b.cnt, b.valid) else PinOf(a, at, k) {}
  }

  lemma SameKeyIndex(a: seq<BufferHead>, at: map<Key, int>, p: int, b: BufferHead)
    requires Indexed(a, at) && 0 <= p < |a| && a[p].hashed && b.hashed && b.Id() == a[p].Id()
    ensures Indexed(a[p := b], at) && at[b.Id()] == p
    ensures forall q :: q in at && q != b.Id() ==> at[q] != p
  {
  }

  lemma SlotData(a: seq<BufferHead>, at: map<Key, int>, disk: Key -> Block, p: int, b: BufferHead)
    requires Indexed(a, at) && 0 <= p < |a| && a[p].hashed && b.hashed && b.Id() == a[p].Id()
    requires DataOk(a, disk, p) && (b.valid && !b.dirt ==> b.data == disk(b.Id()))
    ensures DataOk(a[p := b], disk, p)
  {
  }

  lemma PinnedCached(a: seq<BufferHead>, at: map<Key, int>)
    requires Indexed(a, at)
    ensures PinsIn(a, at).Keys <= at.Keys
  {
  }

  /** What callers see of the block in a hashed slot. */
  lemma SeenAt(a: seq<BufferHead>, at: map<Key, int>, disk: Key -> Block, p: int)
    requires Indexed(a, at) && 0 <= p < |a| && a[p].hashed
    ensures Contents(a, at, disk)[a[p].Id()] == if a[p].valid then a[p].data else disk(a[p].Id())
    ensures a[p].Id() in PinsIn(a, at) <==> a[p].cnt > 0
    ensures a[p].cnt > 0 ==> PinsIn(a, at)[a[p].Id()] == Pin(p, a[p].cnt, a[p].valid)
  {
  }

  lemma DevWritten(a: seq<BufferHead>, at: map<Key, int>, disk: Key -> Block, dev: u16)
    requires Indexed(a, at) && DataOk(a, disk, -1)
    requires forall i :: 0 <= i < |a| ==> !(a[i].dirt && a[i].valid && a[i].dev == dev)
    ensures forall k: Key :: k.dev == dev ==> disk(k) == Contents(a, at, disk)[k]
  {
  }

  /** Writing a buffer back and marking it clean changes no logical content. */
  lemma WriteOne(a: seq<BufferHead>, at: map<Key, int>, disk: Key -> Block, p: int, disk': Key -> Block)
    requires Indexed(a, at) && DataOk(a, disk, -1) && 0 <= p < |a| && a[p].hashed && a[p].valid
    requires forall k :: disk'(k) == if k == a[p].Id() then a[p].data else disk(k)
    ensures var a' := a[p := a[p].(dirt := false)];
            Indexed(a', at) && DataOk(a', disk', p)
            && Contents(a', at, disk') == Contents(a, at, disk) && PinsIn(a', at) == PinsIn(a, at)
  {
    hide Contents, PinsIn;
    SeenSame(a, at, disk, a[p := a[p].(dirt := false)], at, disk');
  }

  /** The exception for slot p matters only while nobody holds p. */
  lemma DataOkAt(a: seq<BufferHead>, disk: Key -> Block, p: int)
    ensures DataOk(a, disk, -1) ==> DataOk(a, disk, p)
    ensures DataOk(a, disk, p) && 0 <= p < |a| && a[p].cnt > 0 ==> DataOk(a, disk, -1)
    ensures DataOk(a, disk, p) && 0 <= p < |a| && !a[p].hashed ==> a[p].cnt == 0 && !a[p].valid && !a[p].dirt
  {
  }

  lemma DataOkKept(a: seq<BufferHead>, disk: Key -> Block, p: int)
    requires DataOk(a, disk, p) && 0 <= p < |a|
    ensures a[p].cnt > 0 || (a[p].dirt && a[p].valid) ==> DataOk(a, disk, -1)
  {
  }

  /** All slots idle: the disk holds every block's content and whatever is not
      pinned is free. */
  lemma AllIdle(a: seq<BufferHead>, at: map<Key, int>, disk: Key -> Block, free: seq<int>, rows: seq<seq<int>>)
    requires |rows| == NR_HASH && OnOneRing(a, free, rows, -1) && Indexed(a, at) && DataOk(a, disk, -1)
    requires forall i :: 0 <= i < |a| ==> Idle(a[i])
    ensures forall k :: disk(k) == Contents(a, at, disk)[k]
    ensures forall i :: 0 <= i < |a| ==> (i in free <==> a[i].cnt == 0)
  {
    forall k ensures disk(k) == Contents(a, at, disk)[k] {
      if k in at { assert Idle(a[at[k]]); }
    }
    forall i | 0 <= i < |a| ensures i in free <==> a[i].cnt == 0 {
      assert Idle(a[i]);
    }
  }

  ghost function Upto(n: nat): (s: seq<int>)
    ensures |s| == n && forall i :: 0 <= i < n ==> s[i] == i
  {
    seq(n, i => i)
  }

  lemma InitialRing(l: seq<Links>)
    requires |l| > 0
    requires forall j :: 0 <= j < |l| ==>
               l[j] == Links(if j == |l| - 1 then 0 else j + 1, if j == 0 then |l| - 1 else j - 1)
    ensures RingFrom(l, 0, Upto(|l|))
  {
  }

  lemma InitialCache(a: seq<BufferHead>, disk: Key -> Block)
    requires forall i :: 0 <= i < |a| ==> a[i] == BufferHead(ZERO_BLOCK, 0, 0, false, false, 0, false)
    ensures OnOneRing(a, Upto(|a|), seq(NR_HASH, i => []), -1) && Indexed(a, map[]) && DataOk(a, disk, -1)
    ensures Contents(a, map[], disk) == (imap k: Key | true :: disk(k)) && PinsIn(a, map[]) == map[]
  {
    forall i | 0 <= i < |a| ensures i in Upto(|a|) {
      assert Upto(|a|)[i] == i;
    }
  }

  /** A slot enters the index under a key nobody has. */
  lemma IndexOne(a: seq<BufferHead>, at: map<Key, int>, disk: Key -> Block, p: int, b: BufferHead)
    requires Indexed(a, at) && DataOk(a, disk, -1) && 0 <= p < |a| && !a[p].hashed
    requires b.hashed && b.dev != 0 && b.Id() !in at && b.cnt == 0 && !b.valid
    ensures var a', at' := a[p := b], at[b.Id() := p];
            Indexed(a', at') && DataOk(a', disk, p)
            && Contents(a', at', disk) == Contents(a, at, disk) && PinsIn(a', at') == PinsIn(a, at)
  {
    hide Contents, PinsIn;
    SeenSame(a, at, disk, a[p := b], at[b.Id() := p], disk);
  }

  /** All slots idle, not all of them pinned: one is free. */
  lemma SomeFree(a: seq<BufferHead>, at: map<Key, int>, free: seq<int>, rows: seq<seq<int>>)
    requires |rows| == NR_HASH && OnOneRing(a, free, rows, -1) && Indexed(a, at)
    requires (forall i :: 0 <= i < |a| ==> Idle(a[i])) && |PinsIn(a, at)| < |a|
    ensures free != []
  {
    if free == [] {
      assert forall i :: 0 <= i < |a| ==> a[i].hashed && Idle(a[i]);
      PinnedPrefix(a, at, |a|);
    }
  }

  /** The head of the free ring is detached and given a new identity. */
  lemma TakeFree(a: seq<BufferHead>, at: map<Key, int>, disk: Key -> Block,
                 free: seq<int>, rows: seq<seq<int>>, dev: u16, blk: u32)
    requires |rows| == NR_HASH && OnOneRing(a, free, rows, -1) && Indexed(a, at) && DataOk(a, disk, -1)
    requires |free| > 0 && Distinct(free)
    ensures 0 <= free[0] < |a| && !a[free[0]].hashed
    ensures a[free[0]].cnt == 0 && !a[free[0]].valid && !a[free[0]].dirt
    ensures var a' := a[free[0] := a[free[0]].(dev := dev, blk := blk)];
            OnOneRing(a', free[1..], rows, free[0]) && Indexed(a', at) && DataOk(a', disk, -1)
            && Contents(a', at, disk) == Contents(a, at, disk) && PinsIn(a', at) == PinsIn(a, at)
  {
    hide Contents, PinsIn;
    PopOne(a, free, rows);
    SeenSame(a, at, disk, a[free[0] := a[free[0]].(dev := dev, blk := blk)], at, disk);
  }

  /** The pinned blocks in the first n slots. */
  ghost function PinnedBelow(a: seq<BufferHead>, at: map<Key, int>, n: int): set<Key>
    requires Indexed(a, at)
  {
    set k | k in PinsIn(a, at) && at[k] < n
  }

  lemma PinnedBelowStep(a: seq<BufferHead>, at: map<Key, int>, n: nat)
    requires Indexed(a, at) && n < |a| && a[n].hashed && a[n].cnt > 0
    ensures PinnedBelow(a, at, n + 1) == PinnedBelow(a, at, n) + {a[n].Id()}
    ensures a[n].Id() !in PinnedBelow(a, at, n)
  {
  }

  /** Distinct slots hold distinct blocks, so n pinned slots are n pinned blocks. */
  lemma {:induction false} PinnedPrefix(a: seq<BufferHead>, at: map<Key, int>, n: nat)
    requires Indexed(a, at) && n <= |a|
    requires forall i :: 0 <= i < n ==> a[i].hashed && a[i].cnt > 0
    ensures |PinnedBelow(a, at, n)| == n && |PinsIn(a, at)| >= n
  {
    if n > 0 {
      PinnedPrefix(a, at, n - 1);
      PinnedBelowStep(a, at, n - 1);
    } else {
      assert PinnedBelow(a, at, 0) == {};
    }
    Subset(PinnedBelow(a, at, n), PinsIn(a, at).Keys);
  }

  lemma {:induction false} Subset<T>(s: set<T>, t: set<T>)
    requires s <= t
    ensures |s| <= |t|
  {
    assert t == s + (t - s);
  }

  class BufferCache {
    const bh: array<BufferHead>
    const hashLinks: array<Links>
    const freeLinks: array<Links>
    const hash: array<int>
    var freeList: int
    var pos: u32                    // sync position, round robin
    var disk: Key -> Block
    ghost var free: seq<int>
    ghost var rows: seq<seq<int>>
    ghost var at: map<Key, int>
    ghost var view: imap<Key, Block>   // what callers see: contents,
    ghost var pins: map<Key, Pin>      // and the blocks they hold

    /** fs/buffer.c:133: n empty buffers, all on the free ring, over the given disk. */
    constructor (n: nat, initial: Key -> Block)
      requires 0 < n < TWO_32
      ensures Valid() && fresh(Repr()) && bh.Length == n
      ensures (forall k :: k in view && view[k] == initial(k)) && pins == map[]
      ensures at == map[] && free == Upto(n)
    {
      hide OnOneRing, DataOk, Indexed, Contents, PinsIn, Upto;
      bh := new BufferHead[n](i => BufferHead(ZERO_BLOCK, 0, 0, false, false, 0, false));
      hashLinks := new Links[n](i => Links(NULL, NULL));
      freeLinks := new Links[n](i => Links(NULL, NULL));
      hash := new int[NR_HASH](i => NULL);
      freeList := 0;
      pos := 0;
      disk := initial;
      free := Upto(n);
      rows := seq(NR_HASH, i => []);
      at := map[];
      view := imap k: Key | true :: initial(k);
      pins := map[];
      new;
      InitialCache(bh[..], initial);
      ThreadFree();
    }

    /** The link stores of init_buffer (fs/buffer.c:149-157). */
    method ThreadFree()
      requires freeLinks.Length > 0
      modifies freeLinks
      ensures RingFrom(freeLinks[..], 0, Upto(freeLinks.Length))
    {
      var n := freeLinks.Length;
      for i := 0 to n
        invariant forall j :: 0 <= j < i ==> freeLinks[j] == Links(j + 1, j - 1)
      {
        freeLinks[i] := Links(i + 1, i - 1);
      }
      freeLinks[0] := freeLinks[0].(prev := n - 1);
      freeLinks[n - 1] := freeLinks[n - 1].(next := 0);
      InitialRing(freeLinks[..]);
    }

    ghost function Repr(): set<object> {
      {this, bh, hashLinks, freeLinks, hash}
    }

    ghost predicate Shape(limbo: int)
      reads Repr()
    {
      && hashLinks != freeLinks
      && bh.Length == hashLinks.Length == freeLinks.Length > 0
      && bh.Length < TWO_32
      && hash.Length == NR_HASH == |rows|
      && pos < bh.Length
      && OnOneRing(bh[..], free, rows, limbo)
      && Indexed(bh[..], at)
      && Linked(hashLinks[..], freeLinks[..], hash[..], freeList, free, rows)
    }

    /** Everything but the promise to slot x, which may be on its way out, and the
        ring of slot limbo. */
    ghost predicate Consistent(limbo: int, x: int)
      reads Repr()
    {
      Shape(limbo) && DataOk(bh[..], disk, x)
      && view == Contents(bh[..], at, disk) && pins == PinsIn(bh[..], at)
    }

    ghost predicate Valid()
      reads Repr()
      ensures Valid() ==> (forall k :: k in view) && (forall k :: k in pins ==> pins[k].cnt > 0)
    {
      Consistent(-1, -1)
    }

    /** The search of one ring r, from both ends at once. */
    method SearchRing(k: Key, head: int, ghost r: seq<int>) returns (found: int)
      requires hashLinks.Length == bh.Length && RingFrom(hashLinks[..], head, r)
      ensures found == NULL ==> Outside(bh[..], r, |r|, k)
      ensures found != NULL ==> 0 <= found < bh.Length && found in r && bh[found].Id() == k
    {
      if head == NULL {
        return NULL;
      }
      ghost var l := hashLinks[..];
      assert IsRing(l, r);
      var q := hashLinks[head].prev;
      var p := head;
      ghost var a := 0;
      while true
        invariant 0 <= a <= |r| - 1 - a
        invariant p == r[a] && q == r[|r| - 1 - a]
        invariant Outside(bh[..], r, a, k)
        decreases |r| - a
      {
        if bh[p].Id() == k { return p; }
        if bh[q].Id() == k { return q; }
        OutsideStep(bh[..], r, a, k);
        WalkInward(l, r, a);
        assert hashLinks[p] == l[r[a]] && hashLinks[q] == l[r[|r| - 1 - a]];
        if hashLinks[p].next == q { break; }
        if p == q { break; }
        p := hashLinks[p].next;
        q := hashLinks[q].prev;
        a := a + 1;
      }
      return NULL;
    }

    /** fs/buffer.c:74: block k's slot iff it is cached. */
    method FindBuffer(dev: u16, blk: u32) returns (found: int)
      requires Valid()
      ensures found != NULL <==> Key(dev, blk) in at
      ensures found != NULL ==> 0 <= found < bh.Length && bh[found].hashed && bh[found].Id() == Key(dev, blk)
      ensures found != NULL ==> found == at[Key(dev, blk)]
      ensures found == NULL ==> Key(dev, blk) !in pins
    {
      hide Contents, PinsIn, DataOk;
      var k := Key(dev, blk);
      var i := Row(k);
      assert RingFrom(hashLinks[..], hash[..][i], rows[i]);
      found := SearchRing(k, hash[i], rows[i]);
      if found == NULL {
        NotOnRing(bh[..], free, rows, at, k);
        PinnedCached(bh[..], at);
      }
    }

    /** The free-list half of get_buffer: unlink the head (fs/buffer.c:54-64). */
    method PopFree() returns (ret: int)
      requires freeList != NULL && RingFrom(freeLinks[..], freeList, free)
      modifies freeLinks, this`freeList, this`free
      ensures old(free) != [] && ret == old(free)[0] && free == old(free)[1..]
      ensures RingFrom(freeLinks[..], freeList, free)
    {
      ghost var l, r, m := freeLinks[..], free, freeLinks[..];
      AloneOnRing(l, r, 0);
      ret := freeLinks[freeList].next;
      if ret == freeList {
        freeList := NULL;
      } else {
        var before, after := freeLinks[freeList].prev, freeLinks[freeList].next;
        freeLinks[before] := freeLinks[before].(next := after);
        freeLinks[after] := freeLinks[after].(prev := before);
        ret := freeList;
        m := freeLinks[..];
        Unlink(l, m, freeList, r, 0);
        freeList := freeLinks[freeList].next;
      }
      free := Without(r, 0, 1);
      assert freeLinks[..] == m && RingFrom(m, freeList, free);
      freeLinks[ret] := Links(NULL, NULL);
      RingFrame(m, freeLinks[..], freeList, free);
      assert free == r[1..];
    }

    /** The free-list half of free_buffer: append at the tail (fs/buffer.c:114-122). */
    method PushFree(p: int)
      requires 0 <= p < freeLinks.Length && p !in free && RingFrom(freeLinks[..], freeList, free)
      modifies freeLinks, this`freeList, this`free
      ensures free == old(free) + [p] && RingFrom(freeLinks[..], freeList, free)
    {
      ghost var l := freeLinks[..];
      if freeList == NULL {
        freeLinks[p] := Links(p, p);
        freeList := p;
      } else {
        var last := freeLinks[freeList].prev;
        freeLinks[last] := freeLinks[last].(next := p);
        freeLinks[p] := freeLinks[p].(prev := last);
        freeLinks[p] := freeLinks[p].(next := freeList);
        freeLinks[freeList] := freeLinks[freeList].(prev := p);
        AppendChain(l, freeLinks[..], free, [p]);
      }
      free := free + [p];
    }

    /** The links half of add_hash (fs/buffer.c:36-44): p becomes the last of ring r. */
    method AppendToRow(p: int, i: nat, ghost r: seq<int>)
      requires i < hash.Length && 0 <= p < hashLinks.Length && p !in r && RingFrom(hashLinks[..], hash[i], r)
      modifies hashLinks, hash
      ensures RingFrom(hashLinks[..], hash[i], r + [p])
      ensures forall x :: 0 <= x < hash.Length && x != i ==> hash[x] == old(hash[x])
      ensures forall x :: 0 <= x < hashLinks.Length && x != p && x !in r ==> hashLinks[x] == old(hashLinks[x])
    {
      ghost var l := hashLinks[..];
      if hash[i] == NULL {
        hashLinks[p] := Links(p, p);
        hash[i] := p;
      } else {
        var last := hashLinks[hash[i]].prev;
        hashLinks[last] := hashLinks[last].(next := p);
        hashLinks[p] := hashLinks[p].(prev := last);
        hashLinks[hash[i]] := hashLinks[hash[i]].(prev := p);
        hashLinks[p] := hashLinks[p].(next := hash[i]);
        AppendChain(l, hashLinks[..], r, [p]);
      }
    }

    /** The links half of free_buffer (fs/buffer.c:106-113): r loses its j-th node p. */
    method RemoveFromRow(p: int, i: nat, ghost r: seq<int>, ghost j: int)
      requires i < hash.Length && RingFrom(hashLinks[..], hash[i], r)
      requires 0 <= j < |r| && r[j] == p
      modifies hashLinks, hash
      ensures RingFrom(hashLinks[..], hash[i], Without(r, j, j + 1))
      ensures forall x :: 0 <= x < hash.Length && x != i ==> hash[x] == old(hash[x])
      ensures forall x :: 0 <= x < hashLinks.Length && x !in r ==> hashLinks[x] == old(hashLinks[x])
    {
      hide Bypassed, Distinct;
      ghost var l := hashLinks[..];
      AloneOnRing(l, r, j);
      if hashLinks[p].next == p {
        hash[i] := NULL;
      } else {
        UnlinkedBypasses(l, r, j);
        var before, after := hashLinks[p].prev, hashLinks[p].next;
        hashLinks[before] := hashLinks[before].(next := after);
        hashLinks[after] := hashLinks[after].(prev := before);
        assert hashLinks[..] == Unlinked(l, p);
        Unlink(l, hashLinks[..], hash[i], r, j);
        if hash[i] == p {
          hash[i] := hashLinks[..][p].next;
        }
      }
    }

    /** The links half of free_buffer: p moves from its row to the free ring. */
    method MoveToFree(p: int, i: nat, ghost j: int)
      requires hashLinks != freeLinks && bh.Length == hashLinks.Length == freeLinks.Length
      requires hash.Length == NR_HASH == |rows| && OnOneRing(bh[..], free, rows, -1)
      requires Linked(hashLinks[..], freeLinks[..], hash[..], freeList, free, rows)
      requires 0 <= p < bh.Length && bh[p].hashed && i == Row(bh[p].Id())
      requires 0 <= j < |rows[i]| && rows[i][j] == p && p !in free
      modifies hashLinks, freeLinks, hash, this`freeList, this`free
      ensures free == old(free) + [p]
      ensures Linked(hashLinks[..], freeLinks[..], hash[..], freeList, free, rows[i := Without(rows[i], j, j + 1)])
    {
      hide OnOneRing, RingFrom, Without, Row;
      ghost var hl, h, f, r := hashLinks[..], hash[..], free, rows[i];
      assert RingFrom(hl, h[i], r);
      OnceOnRing(hl, h[i], r, j);
      RemoveFromRow(p, i, r, j);
      ghost var hl' := hashLinks[..];
      PushFree(p);
      hashLinks[p] := Links(NULL, NULL);
      assert hashLinks[..] == hl'[p := Links(NULL, NULL)];
      RingFrameAt(hl', hash[..][i], Without(r, j, j + 1), p, Links(NULL, NULL));
      OtherRows(bh[..], f, rows, -1, hl, hashLinks[..], h, hash[..], i, p, Without(r, j, j + 1));
    }

    /** fs/buffer.c:97, on a hashed buffer nobody holds. */
    method FreeBuffer(p: int)
      requires Consistent(-1, p)
      requires 0 <= p < bh.Length && bh[p].hashed && bh[p].cnt == 0 && !(bh[p].dirt && bh[p].valid)
      modifies Repr()
      ensures Valid() && pos == old(pos) && disk == old(disk)
      ensures free == old(free) + [p] && at == old(at) - {old(bh[p]).Id()}
      ensures bh[..] == old(bh[..])[p := BufferHead(old(bh[p]).data, 0, 0, false, false, 0, false)]
      ensures view == old(view) && pins == old(pins)
    {
      hide OnOneRing, DataOk, Indexed, Contents, PinsIn, Without, Row, Linked;
      ghost var a, rs, f, m := bh[..], rows, free, at;
      var i := Row(bh[p].Id());
      ghost var j := PlaceOnRow(a, f, rs, -1, p);
      DistinctRow(hashLinks[..], freeLinks[..], hash[..], freeList, free, rows, i);
      MoveToFree(p, i, j);
      bh[p] := bh[p].(cnt := 0, dirt := false, valid := false, blk := 0, dev := 0);
      bh[p] := bh[p].(hashed := false);
      ghost var b := BufferHead(a[p].data, 0, 0, false, false, 0, false);
      assert bh[..] == a[p := b];
      rows := rows[i := Without(rs[i], j, j + 1)];
      at := at - {a[p].Id()};
      DropOne(a, m, disk, p, b);
      UnhookOne(a, f, rs, p, b, j);
      PushOne(a[p := b], f, rows, p);
    }

    /** fs/buffer.c:28 */
    method AddHash(p: int)
      requires Consistent(p, -1)
      requires 0 <= p < bh.Length && !bh[p].hashed && bh[p].cnt == 0 && !bh[p].valid
      requires bh[p].dev != 0 && bh[p].Id() !in at
      modifies Repr()
      ensures Consistent(-1, p)
      ensures pos == old(pos) && disk == old(disk) && free == old(free)
      ensures at == old(at)[old(bh[p]).Id() := p]
      ensures bh[..] == old(bh[..])[p := old(bh[p]).(hashed := true)]
      ensures view == old(view) && pins == old(pins)
    {
      hide OnOneRing, DataOk, Indexed, Contents, PinsIn, RingFrom, Row;
      ghost var a, hl, h, rs, m := bh[..], hashLinks[..], hash[..], rows, at;
      var i := Row(bh[p].Id());
      ghost var r := rows[i];
      RowBound(bh[p].Id());
      LimboOffRow(a, free, rs, p, i);
      assert RingFrom(hl, h[i], r);
      AppendToRow(p, i, r);
      bh[p] := bh[p].(hashed := true);
      ghost var b := a[p].(hashed := true);
      assert bh[..] == a[p := b];
      rows := rows[i := r + [p]];
      at := at[b.Id() := p];
      IndexOne(a, m, disk, p, b);
      HookOne(a, free, rs, p, b);
      OtherRows(a, free, rs, p, hl, hashLinks[..], h, hash[..], i, p, r + [p]);
    }

    /** ll_rw_blk (WRITE, ...) of slot p, then bh_dirt = false. */
    method WriteBack(p: int)
      requires Valid() && 0 <= p < bh.Length && bh[p].hashed && bh[p].valid
      modifies this`disk, bh
      ensures Consistent(-1, p)
      ensures bh[..] == old(bh[..])[p := old(bh[p]).(dirt := false)]
      ensures forall k :: disk(k) == if k == old(bh[p]).Id() then old(bh[p]).data else old(disk)(k)
      ensures view == old(view) && pins == old(pins)
    {
      hide DataOk, Contents, PinsIn, OnOneRing, RingFrom, Linked;
      ghost var a, d := bh[..], disk;
      var old_disk, key, data := disk, bh[p].Id(), bh[p].data;
      disk := k => if k == key then data else old_disk(k);
      bh[p] := bh[p].(dirt := false);
      assert bh[..] == a[p := a[p].(dirt := false)];
      WriteOne(a, at, d, p, disk);
      SameKey(a, free, rows, at, p, a[p].(dirt := false));
    }

    /** One stop of the round robin (fs/buffer.c:252-259). */
    method SyncSlot(p: int) returns (freed: bool)
      requires Valid() && 0 <= p < bh.Length
      modifies Repr()
      ensures Valid() && pos == old(pos)
      ensures view == old(view) && pins == old(pins)
      ensures forall i :: 0 <= i < bh.Length && i != p ==> bh[i] == old(bh[i])
      ensures at.Keys <= old(at.Keys)
      ensures Idle(bh[p]) && bh[p] == Synced(old(bh[p]))
      ensures freed <==> old(bh[p].hashed) && old(bh[p].cnt) == 0
      ensures free == if freed then old(free) + [p] else old(free)
      ensures forall k :: disk(k) == old(disk)(k) || disk(k) == old(view)[k]
    {
      hide DataOk, Contents, PinsIn, OnOneRing, RingFrom, Linked, Indexed;
      freed := false;
      ghost var a, m, d := bh[..], at, disk;
      DataOkAt(a, d, p);
      if !bh[p].hashed {
        return;
      }
      if bh[p].dirt && bh[p].valid {
        SeenAt(a, m, d, p);
        WriteBack(p);
      }
      ghost var a1, m1, d1 := bh[..], at, disk;
      DataOkAt(a1, d1, p);
      if bh[p].cnt == 0 {
        FreeBuffer(p);
        assert bh[..][p] == a1[p].(dev := 0, blk := 0, valid := false, dirt := false, hashed := false);
        freed := true;
      }
    }

    /** fs/buffer.c:225: one device is written back. */
    method SyncDevBlks(dev: u16)
      requires Valid()
      modifies Repr()
      ensures Valid() && pos == old(pos)
      ensures view == old(view) && pins == old(pins)
      ensures forall k: Key :: disk(k) == if k.dev == dev then old(view)[k] else old(disk)(k)
      ensures forall i :: 0 <= i < bh.Length ==>
                bh[i] == var b := old(bh[i]);
                         if !(b.dirt && b.valid && b.dev == dev) then b
                         else if b.cnt == 0 then Freed(b) else b.(dirt := false)
    {
      hide DataOk, Contents, PinsIn, OnOneRing, RingFrom, Linked, Indexed;
      ghost var a, m, d := bh[..], at, disk;
      for i := 0 to bh.Length
        invariant Valid() && pos == old(pos)
        invariant forall k: Key :: k.dev != dev ==> disk(k) == d(k)
        invariant view == old(view) && pins == old(pins)
        invariant forall j :: 0 <= j < i ==> !(bh[j].dirt && bh[j].valid && bh[j].dev == dev)
        invariant forall j :: 0 <= j < bh.Length ==>
                    bh[j] == var b := a[j];
                             if j >= i || !(b.dirt && b.valid && b.dev == dev) then b
                             else if b.cnt == 0 then Freed(b) else b.(dirt := false)
      {
        ghost var a1, m1, d1 := bh[..], at, disk;
        DataOkAt(a1, d1, i);
        if bh[i].dirt && bh[i].valid && bh[i].dev == dev {
          WriteBack(i);
          ghost var a2, d2 := bh[..], disk;
          DataOkAt(a2, d2, i);
          if bh[i].cnt == 0 {
            FreeBuffer(i);
            assert forall j :: 0 <= j < bh.Length && j != i ==> bh[..][j] == a2[j];
          }
          assert forall j :: 0 <= j < bh.Length && j != i ==> bh[..][j] == a1[j];
        }
      }
      DevWritten(bh[..], at, disk, dev);
    }

    /** The loop of sync_blks (fs/buffer.c:250-263), and how many stops it made. */
    method GoRound(limit: u32) returns (cnt: u32, ghost stops: nat)
      requires Valid()
      modifies Repr()
      ensures Valid() && view == old(view) && pins == old(pins)
      ensures 0 < stops <= bh.Length && Turn(pos, old(pos), bh.Length) == stops - 1
      ensures cnt <= stops && cnt <= limit + 1 && |free| == |old(free)| + cnt
      ensures cnt <= limit ==> stops == bh.Length
      ensures cnt > limit ==> old(bh[..])[pos].hashed && old(bh[..])[pos].cnt == 0
      ensures forall x :: 0 <= x < bh.Length ==>
                bh[x] == if Turn(x, old(pos), bh.Length) < stops then Synced(old(bh[x])) else old(bh[x])
      ensures forall k :: disk(k) == old(disk)(k) || disk(k) == old(view)[k]
      ensures at.Keys <= old(at.Keys)
    {
      hide DataOk, Contents, PinsIn, OnOneRing, RingFrom, Linked, Indexed, Idle, Turn, Synced;
      cnt, stops := 0, 0;
      ghost var p0, n, f0, d0, v0, a := pos, bh.Length, free, disk, view, bh[..];
      TurnsBelow(p0, n);
      for i := 0 to bh.Length
        invariant Valid() && cnt <= i == stops && cnt <= limit && |free| == |f0| + cnt
        invariant forall k :: disk(k) == d0(k) || disk(k) == v0[k]
        invariant if i == 0 then pos == p0 else Turn(pos, p0, n) == i - 1
        invariant forall x :: 0 <= x < n ==> bh[x] == if Turn(x, p0, n) < i then Synced(a[x]) else a[x]
        invariant view == old(view) && pins == old(pins) && at.Keys <= old(at.Keys)
      {
        NextTurn(pos, p0, n);
        pos := (pos + 1) % bh.Length;
        stops := i + 1;
        TurnUnique(pos, p0, n);
        var freed := SyncSlot(pos);
        if freed {
          cnt := cnt + 1;
          if cnt - 1 >= limit {
            break;
          }
        }
      }
    }

    /** A round stops early only after freeing one buffer more than asked for, and right after it. */
    method RoundRobin(blksCnt: u32) returns (cnt: u32)
      requires Valid()
      modifies Repr()
      ensures Valid()
      ensures view == old(view) && pins == old(pins)
      ensures cnt > 0 || (forall i :: 0 <= i < bh.Length ==> Idle(bh[i]))
      ensures blksCnt >= bh.Length - 1 ==> forall i :: 0 <= i < bh.Length ==> Idle(bh[i])
      ensures |free| == |old(free)| + cnt && cnt <= blksCnt + 1
      ensures forall k :: disk(k) == old(disk)(k) || disk(k) == old(view)[k]
      ensures at.Keys <= old(at.Keys)
      ensures forall x :: 0 <= x < bh.Length ==>
                bh[x] == if Turn(x, old(pos), bh.Length) <= Turn(pos, old(pos), bh.Length) then Synced(old(bh[x]))
                         else old(bh[x])
      ensures cnt <= blksCnt ==> pos == old(pos)
      ensures cnt > blksCnt ==> old(bh[..])[pos].hashed && old(bh[..])[pos].cnt == 0
    {
      hide Contents, PinsIn, OnOneRing, RingFrom, Linked, Indexed, Idle, Turn, Synced;
      var limit := blksCnt;
      if limit > bh.Length {
        limit := bh.Length - 1;
      }
      ghost var p0, n, stops := pos, bh.Length, 0;
      SyncedIdle(bh[..], disk);
      TurnsBelow(p0, n);
      cnt, stops := GoRound(limit);
      TurnUnique(p0, p0, n);
    }

    /** fs/buffer.c:243. A full round leaves the disk up to date and everything
        unpinned free; a shorter one stops only after freeing something. */
    method SyncBlks(blksCnt: u32) returns (cnt: u32)
      requires Valid()
      modifies Repr()
      ensures Valid()
      ensures view == old(view) && pins == old(pins)
      ensures cnt > 0 || (forall i :: 0 <= i < bh.Length ==> Idle(bh[i]))
      ensures blksCnt >= bh.Length - 1 ==>
                && (forall k :: disk(k) == old(view)[k])
                && (forall i :: 0 <= i < bh.Length ==> (i in free <==> bh[i].cnt == 0))
      ensures |free| == |old(free)| + cnt && cnt <= blksCnt + 1
      ensures forall k :: disk(k) == old(disk)(k) || disk(k) == old(view)[k]
      ensures at.Keys <= old(at.Keys)
      ensures forall x :: 0 <= x < bh.Length ==>
                bh[x] == if Turn(x, old(pos), bh.Length) <= Turn(pos, old(pos), bh.Length) then Synced(old(bh[x]))
                         else old(bh[x])
      ensures cnt <= blksCnt ==> pos == old(pos)
      ensures cnt > blksCnt ==> old(bh[..])[pos].hashed && old(bh[..])[pos].cnt == 0
    {
      hide DataOk, Contents, PinsIn, OnOneRing, RingFrom, Linked, Indexed, Idle;
      ghost var a, m, d := bh[..], at, disk;
      cnt := RoundRobin(blksCnt);
      if blksCnt >= bh.Length - 1 {
        AllIdle(bh[..], at, disk, free, rows);
      }
    }

    /** The retry of get_buffer: until the free ring has a buffer, sync_blks makes some. */
    method Refill(ghost key: Key)
      requires Valid() && key !in at && |pins| < bh.Length
      modifies Repr()
      ensures Valid() && key !in at && freeList != NULL && free != [] && view == old(view) && pins == old(pins)
      ensures forall k :: disk(k) == old(disk)(k) || disk(k) == old(view)[k]
      ensures old(free) != [] ==> free == old(free) && disk == old(disk) && bh[..] == old(bh[..])
    {
      hide DataOk, Contents, PinsIn, OnOneRing, RingFrom, Indexed, Idle;
      ghost var a, d := bh[..], disk;
      EmptyRing(freeLinks[..], freeList, free);
      while freeList == NULL
        invariant Valid() && key !in at
        invariant view == old(view) && pins == old(pins)
        invariant freeList == NULL <==> free == []
        invariant forall k :: disk(k) == d(k) || disk(k) == old(view)[k]
        invariant old(free) != [] ==> free == old(free) && disk == d && bh[..] == a
        decreases freeList == NULL
      {
        var cnt := SyncBlks(OUT_BLKS);
        if cnt == 0 {
          SomeFree(bh[..], at, free, rows);
        }
        EmptyRing(freeLinks[..], freeList, free);
      }
    }

    /** fs/buffer.c:49. With an unpinned slot around, the retry runs at most once. */
    method GetBuffer(dev: u16, blk: u32) returns (ret: int)
      requires Valid() && dev != 0 && Key(dev, blk) !in at && |pins| < bh.Length
      modifies Repr()
      ensures Consistent(-1, ret)
      ensures 0 <= ret < bh.Length && bh[ret].hashed && bh[ret].Id() == Key(dev, blk)
      ensures bh[ret].cnt == 0 && !bh[ret].valid && !bh[ret].dirt
      ensures view == old(view) && pins == old(pins)
      ensures forall k :: disk(k) == old(disk)(k) || disk(k) == old(view)[k]
      ensures old(free) != [] ==> ret == old(free)[0] && free == old(free)[1..] && disk == old(disk)
      ensures old(free) != [] ==> forall i :: 0 <= i < bh.Length && i != ret ==> bh[i] == old(bh[i])
    {
      hide DataOk, Contents, PinsIn, OnOneRing, RingFrom, Indexed, Idle;
      Refill(Key(dev, blk));
      ghost var a1, f := bh[..], free;
      assert RingFrom(freeLinks[..], freeList, free);
      OnceOnRing(freeLinks[..], freeList, f, 0);
      ret := PopFree();
      TakeFree(a1, at, disk, f, rows, dev, blk);
      bh[ret] := bh[ret].(dev := dev);
      bh[ret] := bh[ret].(blk := blk);
      ghost var a2 := bh[..];
      assert a2 == a1[ret := a1[ret].(dev := dev, blk := blk)];
      AddHash(ret);
    }

    /** A field update of the buffer head in slot p, still for the same block. */
    method UpdateSlot(p: int, b: BufferHead)
      requires Consistent(-1, p) && 0 <= p < bh.Length && bh[p].hashed && b.hashed && b.Id() == bh[p].Id()
      requires b.valid && !b.dirt ==> b.data == disk(b.Id())
      modifies bh, this`view, this`pins
      ensures bh[..] == old(bh[..])[p := b]
      ensures b.cnt > 0 || (b.dirt && b.valid) ==> Valid()
      ensures Consistent(-1, p)
      ensures view == old(view)[b.Id() := if b.valid then b.data else disk(b.Id())]
      ensures pins == if b.cnt > 0 then old(pins)[b.Id() := Pin(p, b.cnt, b.valid)] else old(pins) - {b.Id()}
    {
      hide DataOk, OnOneRing, Linked, Contents, PinsIn;
      ghost var a := bh[..];
      bh[p] := b;
      assert bh[..] == a[p := b];
      SlotContent(a, at, disk, p, b);
      SameKey(a, free, rows, at, p, b);
      view := Contents(bh[..], at, disk);
      pins := PinsIn(bh[..], at);
      DataOkAt(bh[..], disk, p);
      DataOkKept(bh[..], disk, p);
    }

    /** Slot p is the one the block was cached in, or the first free one; then no other buffer and nothing on disk
        changes. Only when there was neither are buffers written back, and the disk gets logical contents only. */
    twostate predicate Fetched(dev: u16, blk: u32, p: int)
      reads Repr()
    {
      && (forall x :: x in old(view) && (disk(x) == old(disk)(x) || disk(x) == old(view)[x]))
      && (Key(dev, blk) in old(at) ==> p == old(at)[Key(dev, blk)] && free == old(free) && disk == old(disk))
      && (Key(dev, blk) !in old(at) && old(free) != [] ==>
           p == old(free)[0] && free == old(free)[1..] && disk == old(disk))
      && (Key(dev, blk) in old(at) || old(free) != [] ==>
           forall i :: 0 <= i < bh.Length && i != p ==> bh[i] == old(bh[i]))
    }

    /** Buffer p is freed exactly when that was its last pin and it is clean or unread; nothing is written, and no
        other buffer changes. */
    twostate predicate Released(p: int)
      reads Repr()
    {
      && 0 <= p < bh.Length && disk == old(disk)
      && free == (if old(bh[p]).cnt == 1 && !(old(bh[p]).dirt && old(bh[p]).valid) then old(free) + [p]
                  else old(free))
      && forall i :: 0 <= i < bh.Length && i != p ==> bh[i] == old(bh[i])
    }

    /** fs/buffer.c:173: pin block k, reading nothing. */
    method GetBlk(dev: u16, blk: u32) returns (p: int)
      requires Valid() && dev != 0
      requires if Key(dev, blk) in pins then pins[Key(dev, blk)].cnt < 255 else |pins| < bh.Length
      modifies Repr()
      ensures Valid() && view == old(view)
      ensures Key(dev, blk) in pins
      ensures pins == Plus(old(pins), Key(dev, blk), p, pins[Key(dev, blk)].valid)
      ensures Key(dev, blk) in old(pins) ==>
                old(pins)[Key(dev, blk)].slot == p && old(pins)[Key(dev, blk)].valid == pins[Key(dev, blk)].valid
      ensures Fetched(dev, blk, p)
    {
      hide DataOk, OnOneRing, RingFrom, Linked, Idle, Contents, PinsIn, Indexed;
      p := FindBuffer(dev, blk);
      if p == NULL {
        p := GetBuffer(dev, blk);
        SeenAt(bh[..], at, disk, p);
        UpdateSlot(p, bh[p].(cnt := bh[p].cnt + 1, dev := dev, valid := false, dirt := false, blk := blk));
      } else {
        DataOkAt(bh[..], disk, p);
        SeenAt(bh[..], at, disk, p);
        UpdateSlot(p, bh[p].(cnt := bh[p].cnt + 1));
      }
    }

    /** What a live pointer gives its holder. */
    lemma Pointed(p: int, k: Key)
      requires Valid() && Points(pins, k, p)
      ensures 0 <= p < bh.Length && bh[p].hashed && bh[p].Id() == k
      ensures bh[p].cnt == pins[k].cnt && bh[p].valid == pins[k].valid
      ensures bh[p].valid ==> bh[p].data == view[k]
    {
    }

    /** fs/buffer.c:162: unpin; nobody's clean or unread buffer is freed. */
    method Brelse(p: int, ghost k: Key)
      requires Valid() && Points(pins, k, p)
      modifies Repr()
      ensures Valid() && view == old(view) && pins == Minus(old(pins), k) && Released(p)
    {
      hide DataOk, OnOneRing, RingFrom, Linked, Contents, PinsIn;
      Pointed(p, k);
      SeenAt(bh[..], at, disk, p);
      DataOkAt(bh[..], disk, p);
      UpdateSlot(p, bh[p].(cnt := bh[p].cnt - 1));
      if bh[p].cnt == 0 && (!bh[p].dirt || !bh[p].valid) {
        FreeBuffer(p);
      }
    }

    /** The transfer of bread (fs/buffer.c:201-205), unless the buffer has the block's bytes already. */
    method ReadIn(p: int, ghost k: Key)
      requires Valid() && Points(pins, k, p)
      modifies bh, this`view, this`pins
      ensures Valid() && view == old(view) && pins == old(pins)[k := old(pins)[k].(valid := true)]
      ensures forall i :: 0 <= i < bh.Length && i != p ==> bh[i] == old(bh[i])
    {
      hide DataOk, OnOneRing, RingFrom, Linked, Contents, PinsIn;
      Pointed(p, k);
      if bh[p].valid {
        return;
      }
      SeenAt(bh[..], at, disk, p);
      DataOkAt(bh[..], disk, p);
      UpdateSlot(p, bh[p].(data := disk(bh[p].Id()), valid := true));
    }

    /** fs/buffer.c:196: pin block k and make its contents readable. */
    method Bread(dev: u16, blk: u32) returns (p: int)
      requires Valid() && dev != 0
      requires if Key(dev, blk) in pins then pins[Key(dev, blk)].cnt < 255 else |pins| < bh.Length
      modifies Repr()
      ensures Valid() && view == old(view) && pins == Plus(old(pins), Key(dev, blk), p, true)
      ensures Key(dev, blk) in old(pins) ==> old(pins)[Key(dev, blk)].slot == p
      ensures Fetched(dev, blk, p)
    {
      hide Consistent;
      p := GetBlk(dev, blk);
      ReadIn(p, Key(dev, blk));
    }

    /** Bytes of a buffer read with bread are changed: bh_dirt = true. */
    method Modify(p: int, ghost k: Key, data: Block)
      requires Valid() && Holds(pins, k, p)
      modifies bh, this`view, this`pins
      ensures Valid() && view == old(view)[k := data] && pins == old(pins)
    {
      hide DataOk, OnOneRing, RingFrom, Linked, Contents, PinsIn;
      Pointed(p, k);
      SeenAt(bh[..], at, disk, p);
      DataOkAt(bh[..], disk, p);
      UpdateSlot(p, bh[p].(data := data, dirt := true));
    }

    /** A buffer from get_blk is filled: bh_dirt = bh_valid = true. */
    method Fill(p: int, ghost k: Key, data: Block)
      requires Valid() && Points(pins, k, p)
      modifies bh, this`view, this`pins
      ensures Valid() && view == old(view)[k := data]
      ensures pins == old(pins)[k := old(pins)[k].(valid := true)]
    {
      hide DataOk, OnOneRing, RingFrom, Linked, Contents, PinsIn;
      Pointed(p, k);
      DataOkAt(bh[..], disk, p);
      UpdateSlot(p, bh[p].(data := data, dirt := true, valid := true));
    }

    /** bh_dirt = bh_valid = false: block k falls back to what the disk has. */
    method Invalidate(p: int, ghost k: Key)
      requires Valid() && Points(pins, k, p)
      modifies bh, this`view, this`pins
      ensures Valid() && view == old(view)[k := disk(k)]
      ensures pins == old(pins)[k := old(pins)[k].(valid := false)]
    {
      hide DataOk, OnOneRing, RingFrom, Linked, Contents, PinsIn;
      Pointed(p, k);
      DataOkAt(bh[..], disk, p);
      UpdateSlot(p, bh[p].(dirt := false, valid := false));
    }
  }
}
