/** The inode cache (fs/inode.c:8, 59-166): the slots that hold the inodes in memory. What a slot is
    filled with is an object; a slot that memset has cleared holds none. */
module InodeCaches {
  import opened Bytes
  import opened BufferCaches
  import opened Bitmaps
  import opened BlockTrees
  import opened Inodes
  import opened InodeTable
  import opened Namespaces

  /** No inode is in two slots. */
  ghost predicate Distinct(s: seq<MemInode?>) {
    forall i, j :: 0 <= i < j < |s| && s[i] != null && s[j] != null ==> s[i].num != s[j].num
  }

  ghost predicate InSlots(s: seq<MemInode?>, n: nat) {
    exists i :: 0 <= i < |s| && s[i] != null && s[i].num == n
  }

  lemma Cleared(s: seq<MemInode?>, i: nat, n: nat)
    requires i < |s| && Distinct(s)
    ensures Distinct(s[i := null])
    ensures InSlots(s, n) && (s[i] == null || s[i].num != n) ==> InSlots(s[i := null], n)
  {
    if InSlots(s, n) && (s[i] == null || s[i].num != n) {
      var j :| 0 <= j < |s| && s[j] != null && s[j].num == n;
      assert s[i := null][j] == s[j];
    }
  }

  lemma Filled(s: seq<MemInode?>, i: nat, m: MemInode, n: nat)
    requires i < |s| && Distinct(s) && s[i] == null && !InSlots(s, m.num)
    ensures Distinct(s[i := m]) && InSlots(s[i := m], m.num) && (InSlots(s, n) ==> InSlots(s[i := m], n))
  {
    assert s[i := m][i] == m;
    if InSlots(s, n) {
      var j :| 0 <= j < |s| && s[j] != null && s[j].num == n;
      assert s[i := m][j] == s[j];
    }
  }

  class InodeCache {
    const ns: Namespace
    const slots: array<MemInode?>

    /** init_iscache (fs/inode.c:170): all slots are cleared. */
    constructor (ns: Namespace, n: nat)
      requires ns.Valid(-1) && forall x :: x in ns.known ==> !ns.known[x].behind
      ensures this.ns == ns && fresh(slots) && slots.Length == n && Held()
      ensures forall i :: 0 <= i < n ==> slots[i] == null
    {
      hide Namespace.Valid;
      this.ns := ns;
      slots := new MemInode?[n](i => null);
    }

    ghost function Objects(): set<object>
      reads slots
    {
      set i | 0 <= i < slots.Length && slots[i] != null :: slots[i]
    }

    /** Each inode is in one slot at most and the slot has its current copy; the table has the record
        of every inode that is in none. */
    ghost predicate Held()
      reads this, slots, Objects(), ns, ns.vol, ns.vol.sb, ns.vol.sb.cache.Repr()
      ensures Held() ==> ns.Valid(-1) && ns.vol.Now().Wf()
    {
      && ns.Valid(-1) && Distinct(slots[..])
      && (forall i :: 0 <= i < slots.Length && slots[i] != null ==> ns.Linked(slots[i]))
      && (forall n :: n in ns.known && ns.known[n].behind ==> InSlots(slots[..], n))
    }

    /** The last copy of an inode may go when it is not the one to be written. */
    method Vacate(i: nat)
      requires ns.Valid(-1) && Distinct(slots[..]) && i < slots.Length
      requires forall j :: 0 <= j < slots.Length && j != i && slots[j] != null ==> ns.Linked(slots[j])
      requires forall n :: n in ns.known && ns.known[n].behind ==>
                 InSlots(slots[..], n) && (slots[i] == null || slots[i].num != n)
      modifies slots
      ensures Held() && slots[..] == old(slots[..])[i := null]
    {
      hide Namespace.Valid, Distinct, InSlots;
      ghost var s := slots[..];
      slots[i] := null;
      forall n | n in ns.known && ns.known[n].behind ensures InSlots(slots[..], n) {
        Cleared(s, i, n);
      }
      Cleared(s, i, 0);
    }

    lemma Apart(i: nat)
      requires Held() && i < slots.Length
      ensures forall j :: 0 <= j < slots.Length && j != i && slots[i] != null && slots[j] != null ==>
                slots[j].num != slots[i].num
    {
      hide Namespace.Valid, InSlots;
    }

    /** The write of one round of sync_dev_inodes. */
    method WriteSlot(i: nat, m: MemInode)
      requires Held() && i < slots.Length && slots[i] == m && m.dirt && ns.vol.sb.Roomy(1)
      modifies m`dirt, m`valid, ns.vol.sb.cache.Repr(), ns`known
      ensures Held() && ns.vol.sb.cache.pins == old(ns.vol.sb.cache.pins)
      ensures m.num in ns.known && !ns.known[m.num].behind
      ensures OthersSame(old(ns.vol.Now()), ns.vol.Now(), -1)
    {
      hide Namespace.Valid, Namespace.Sound, SuperBlock.Valid, SuperBlock.Roomy, Volume.Rooted, Volume.Full, Distinct,
           InSlots, OthersSame, BootKept, Stored, Room, Recorded;
      Apart(i);
      ns.WriteBack(m, -1);
      assert forall j :: 0 <= j < slots.Length && slots[j] != null ==> ns.Linked(slots[j]);
    }

    /** One round of sync_dev_inodes (fs/inode.c:63-67). */
    method SyncSlot(i: nat)
      requires Held() && i < slots.Length && ns.vol.sb.Roomy(1)
      modifies slots, slots[i], ns.vol.sb.cache.Repr(), ns`known
      ensures Held() && ns.vol.sb.cache.pins == old(ns.vol.sb.cache.pins)
      ensures slots[..] == old(slots[..])[i := if slots[i] == null then null else old(slots[i])]
      ensures slots[i] == null <==> old(slots[i] == null || (slots[i].cnt == 0 && slots[i].dirt))
      ensures slots[i] != null ==> unchanged(slots[i])
      ensures OthersSame(old(ns.vol.Now()), ns.vol.Now(), -1)
    {
      hide Namespace.Valid, Namespace.Sound, SuperBlock.Valid, Volume.Rooted, Distinct, InSlots, OthersSame, Room,
           Recorded;
      OthersSelf(ns.vol.Now(), -1);
      var m := slots[i];
      if m != null && m.cnt == 0 && m.dirt && m.valid {
        WriteSlot(i, m);
        Vacate(i);
      }
    }

    /** fs/inode.c:59: what nobody holds is written back and cleared. */
    method SyncInodes()
      requires Held() && ns.vol.sb.Roomy(1)
      modifies slots, Objects(), ns.vol.sb.cache.Repr(), ns`known
      ensures Held() && ns.vol.sb.cache.pins == old(ns.vol.sb.cache.pins)
      ensures forall i :: 0 <= i < slots.Length ==> slots[i] == null || slots[i] == old(slots[i])
      ensures forall i :: 0 <= i < slots.Length ==>
                (slots[i] == null <==> old(slots[i] == null || (slots[i].cnt == 0 && slots[i].dirt)))
      ensures forall i :: 0 <= i < slots.Length && slots[i] != null ==> unchanged(slots[i])
      ensures OthersSame(old(ns.vol.Now()), ns.vol.Now(), -1)
    {
      hide Held, Namespace.Valid, SuperBlock.Valid, Volume.Rooted, Distinct, InSlots, OthersSame, Room, Recorded;
      ghost var now := ns.vol.Now();
      OthersSelf(now, -1);
      for i := 0 to slots.Length
        invariant Held() && ns.vol.sb.cache.pins == old(ns.vol.sb.cache.pins)
        invariant forall j :: 0 <= j < slots.Length ==> slots[j] == null || slots[j] == old(slots[j])
        invariant forall j :: 0 <= j < slots.Length ==>
                    (slots[j] == null <==> old(slots[j] == null || (slots[j].cnt == 0 && slots[j].dirt && j < i)))
        invariant forall j :: 0 <= j < slots.Length && slots[j] != null ==> unchanged(slots[j])
        invariant OthersSame(now, ns.vol.Now(), -1)
      {
        ghost var now1 := ns.vol.Now();
        Apart(i);
        SyncSlot(i);
        OthersSameTwice(now, now1, ns.vol.Now(), -1);
      }
    }

    /** Nobody holds what is in the slot. */
    predicate Idle(m: MemInode?)
      reads m
    {
      m == null || m.cnt == 0
    }

    /** Nor does it have to be written first. */
    predicate Ready(m: MemInode?)
      reads m
    {
      Idle(m) && (m == null || !m.dirt)
    }

    /** The scan of get_empty_inode (fs/inode.c:75-80): the first slot that can be cleared at once. */
    method FindEmpty() returns (k: int)
      ensures -1 <= k < slots.Length
      ensures forall i :: 0 <= i < (if k == -1 then slots.Length else k) ==> !Ready(slots[i])
      ensures k != -1 ==> Ready(slots[k])
    {
      for i := 0 to slots.Length
        invariant forall j :: 0 <= j < i ==> !Ready(slots[j])
      {
        if Ready(slots[i]) {
          return i;
        }
      }
      return -1;
    }

    /** What is held stays in its slot as it is; any other slot may have been cleared. */
    twostate predicate HeldStay()
      reads slots, Objects()
    {
      && (forall i :: 0 <= i < slots.Length ==> slots[i] == null || slots[i] == old(slots[i]))
      && (forall i :: 0 <= i < slots.Length && !old(Idle(slots[i])) ==> slots[i] == old(slots[i]))
      && (forall i :: 0 <= i < slots.Length && slots[i] != null ==> unchanged(slots[i]))
    }

    /** Slot k is the one that get_empty_inode takes: the first that is ready, and then no other slot is touched; if
        there is none, the first that nobody holds, and then all of those are written and cleared. */
    twostate predicate Emptied(k: nat, cleared: bool)
      reads slots, Objects()
    {
      && k < slots.Length
      && (if exists i :: 0 <= i < slots.Length && old(Ready(slots[i])) then
            && old(Ready(slots[k])) && (forall i :: 0 <= i < k ==> !old(Ready(slots[i])))
            && forall i :: 0 <= i < slots.Length ==>
                 slots[i] == if cleared && i == k then null else old(slots[i])
          else
            && old(Idle(slots[k])) && (forall i :: 0 <= i < k ==> !old(Idle(slots[i])))
            && forall i :: 0 <= i < slots.Length ==> slots[i] == if old(Idle(slots[i])) then null else old(slots[i]))
    }

    /** Some slot is held by nobody. */
    ghost predicate Spare()
      reads slots, Objects()
    {
      exists i :: 0 <= i < slots.Length && Idle(slots[i])
    }

    /** sync_dev_inodes leaves nothing to be written in a slot that nobody holds. */
    method Settle()
      requires Held() && ns.vol.sb.Roomy(1) && Spare()
      modifies slots, Objects(), ns.vol.sb.cache.Repr(), ns`known
      ensures Held() && ns.vol.sb.cache.pins == old(ns.vol.sb.cache.pins) && HeldStay() && Spare()
      ensures forall i :: 0 <= i < slots.Length && Idle(slots[i]) ==> Ready(slots[i])
      ensures forall i :: 0 <= i < slots.Length ==>
                (slots[i] == null <==> old(slots[i] == null || (slots[i].cnt == 0 && slots[i].dirt)))
      ensures OthersSame(old(ns.vol.Now()), ns.vol.Now(), -1)
    {
      hide Namespace.Valid, SuperBlock.Valid, Volume.Rooted, InSlots, OthersSame, Room, Held;
      ghost var i :| 0 <= i < slots.Length && Idle(slots[i]);
      SyncInodes();
      assert Idle(slots[i]);
    }

    twostate lemma EmptiedAfter(k: int)
      requires HeldStay() && forall i :: 0 <= i < slots.Length ==> !old(Ready(slots[i]))
      requires forall i :: 0 <= i < slots.Length ==>
                 (slots[i] == null <==> old(slots[i] == null || (slots[i].cnt == 0 && slots[i].dirt)))
      requires 0 <= k < slots.Length && Ready(slots[k]) && forall i :: 0 <= i < k ==> !Ready(slots[i])
      ensures Emptied(k, false)
    {
    }

    /** sync_dev_inodes and another scan, which finds a slot. */
    method ScanAgain() returns (k: int)
      requires Held() && ns.vol.sb.Roomy(1) && Spare()
      requires forall i :: 0 <= i < slots.Length ==> !Ready(slots[i])
      modifies slots, Objects(), ns.vol.sb.cache.Repr(), ns`known
      ensures Held() && ns.vol.sb.cache.pins == old(ns.vol.sb.cache.pins) && HeldStay()
      ensures 0 <= k < slots.Length && Ready(slots[k]) && Emptied(k, false)
      ensures OthersSame(old(ns.vol.Now()), ns.vol.Now(), -1)
    {
      hide Namespace.Valid, SuperBlock.Valid, Volume.Rooted, InSlots, OthersSame, Room, Recorded, Distinct;
      Settle();
      k := FindEmpty();
      EmptiedAfter(k);
    }

    /** The rounds of get_empty_inode: the second scan finds a slot at the latest. */
    method Scan() returns (k: nat)
      requires Held() && ns.vol.sb.Roomy(1) && Spare()
      modifies slots, Objects(), ns.vol.sb.cache.Repr(), ns`known
      ensures Held() && ns.vol.sb.cache.pins == old(ns.vol.sb.cache.pins) && HeldStay()
      ensures k < slots.Length && Ready(slots[k]) && Emptied(k, false)
      ensures OthersSame(old(ns.vol.Now()), ns.vol.Now(), -1)
    {
      hide Held, Namespace.Valid, SuperBlock.Valid, Volume.Rooted, InSlots, OthersSame, Room, Recorded, Distinct;
      ghost var now := ns.vol.Now();
      OthersSelf(now, -1);
      var r := FindEmpty();
      while r == -1
        invariant Held() && ns.vol.sb.cache.pins == old(ns.vol.sb.cache.pins) && HeldStay() && -1 <= r < slots.Length
        invariant r == -1 ==> Spare() && ns.vol.Now() == now && ns.vol.sb.Roomy(1)
        invariant r == -1 ==> slots[..] == old(slots[..]) && forall i :: 0 <= i < slots.Length ==> !Ready(slots[i])
        invariant r != -1 ==> Ready(slots[r]) && Emptied(r, false)
        invariant OthersSame(now, ns.vol.Now(), -1)
        decreases -r
      {
        r := ScanAgain();
      }
      k := r;
    }

    /** The memset of the slot that was found. */
    method Take(k: nat)
      requires Held() && k < slots.Length && Ready(slots[k])
      modifies slots
      ensures Held() && slots[..] == old(slots[..])[k := null]
    {
      hide Namespace.Valid, Distinct, InSlots;
      Vacate(k);
    }

    /** fs/inode.c:71: as long as some slot is held by nobody the search ends. What is held stays
        where it is, and what was in the slot is on disk. */
    method GetEmpty() returns (k: nat)
      requires Held() && ns.vol.sb.Roomy(1) && Spare()
      modifies slots, Objects(), ns.vol.sb.cache.Repr(), ns`known
      ensures Held() && ns.vol.sb.cache.pins == old(ns.vol.sb.cache.pins) && HeldStay()
      ensures k < slots.Length && slots[k] == null && Emptied(k, true)
      ensures OthersSame(old(ns.vol.Now()), ns.vol.Now(), -1)
    {
      hide Namespace.Valid, SuperBlock.Valid, Volume.Rooted, InSlots, OthersSame, Room, Recorded, Distinct, Held;
      k := Scan();
      Take(k);
    }

    /** The search of iget (fs/inode.c:136-141). */
    method Search(num: u32) returns (k: int)
      ensures k == -1 ==> !InSlots(slots[..], num)
      ensures k != -1 ==> 0 <= k < slots.Length && slots[k] != null && slots[k].num == num
    {
      for i := 0 to slots.Length
        invariant forall j :: 0 <= j < i ==> slots[j] == null || slots[j].num != num
      {
        if slots[i] != null && slots[i].num == num {
          return i;
        }
      }
      return -1;
    }

    /** What the search finds is what the calls that take the copy of an inode in memory ask for. */
    lemma CopyOf(num: u32, copy: MemInode?)
      requires Held()
      requires copy == null ==> !InSlots(slots[..], num)
      requires copy != null ==> copy in slots[..] && copy.num == num && copy.cnt < 0xFFFF
      ensures ns.Fetchable(copy, num)
    {
      hide Namespace.Valid, Distinct;
    }

    /** The inode found in slot k is held once more. */
    method HoldSlot(k: nat, m: MemInode)
      requires Held() && k < slots.Length && slots[k] == m && m.cnt < 0xFFFF
      modifies m`cnt
      ensures Held() && m.cnt == old(m.cnt) + 1
    {
      hide SuperBlock.Valid, Volume.Rooted, Distinct, InSlots, Room, Recorded;
      ns.Hold(m, -1);
    }

    /** An inode that is in no slot is read into slot k. */
    method FillSlot(k: nat, num: u32)
      requires Held() && k < slots.Length && slots[k] == null && num in ns.links && !InSlots(slots[..], num)
      requires ns.vol.sb.Roomy(1)
      modifies slots, ns.vol.sb.cache.Repr()
      ensures Held() && slots[k] != null && fresh(slots[k]) && slots[k].num == num && slots[k].cnt == 1
      ensures slots[..] == old(slots[..])[k := slots[k]]
      ensures ns.vol.sb.cache.pins == old(ns.vol.sb.cache.pins) && ns.vol.Now() == old(ns.vol.Now())
    {
      hide Namespace.Valid, Namespace.Sound, SuperBlock.Valid, Volume.Rooted, Distinct, InSlots, Room, Recorded;
      ns.KnownKeys(-1);
      ghost var s := slots[..];
      var m := ns.ReadInode(num, -1);
      slots[k] := m;
      Filled(s, k, m, num);
      forall n | n in ns.known && ns.known[n].behind ensures InSlots(slots[..], n) {
        Filled(s, k, m, n);
      }
    }

    lemma StillOut(s: seq<MemInode?>, s': seq<MemInode?>, n: nat)
      requires |s'| == |s| && (forall i :: 0 <= i < |s| ==> s'[i] == null || s'[i] == s[i]) && !InSlots(s, n)
      ensures !InSlots(s', n)
    {
    }

    /** iget of an inode in use that is in no slot (fs/inode.c:154-163). */
    method Load(num: u32) returns (k: nat)
      requires Held() && ns.vol.sb.Roomy(1) && Spare() && num in ns.links && !InSlots(slots[..], num)
      modifies slots, Objects(), ns.vol.sb.cache.Repr(), ns`known
      ensures Held() && ns.vol.sb.cache.pins == old(ns.vol.sb.cache.pins)
      ensures k < slots.Length && slots[k] != null && fresh(slots[k]) && slots[k].num == num && slots[k].cnt == 1
      ensures forall i :: 0 <= i < slots.Length && i != k ==> slots[i] == null || slots[i] == old(slots[i])
      ensures forall i :: 0 <= i < slots.Length && !old(Idle(slots[i])) ==>
                i != k && slots[i] == old(slots[i]) && unchanged(slots[i])
      ensures OthersSame(old(ns.vol.Now()), ns.vol.Now(), -1)
    {
      hide Namespace.Valid, SuperBlock.Valid, Volume.Rooted, InSlots, OthersSame, Room, Recorded, Distinct;
      ghost var s := slots[..];
      k := GetEmpty();
      StillOut(s, slots[..], num);
      FillSlot(k, num);
    }

    /** fs/inode.c:119, but for mount points: none exactly when the number is not in use; the inode of that
        number with one more reference, in the slot it was in or in one that nobody held. */
    method Iget(num: u32) returns (k: int)
      requires Held() && ns.vol.sb.Roomy(1) && num < ns.vol.sb.imapBlocks * BITS_PER_BLK
      requires num in ns.links && !InSlots(slots[..], num) ==> Spare()
      requires forall i :: 0 <= i < slots.Length && slots[i] != null && slots[i].num == num ==> slots[i].cnt < 0xFFFF
      modifies slots, Objects(), ns.vol.sb.cache.Repr(), ns`known
      ensures Held() && ns.vol.sb.cache.pins == old(ns.vol.sb.cache.pins)
      ensures k == -1 <==> num !in ns.links
      ensures k != -1 ==> 0 <= k < slots.Length && slots[k] != null && slots[k].num == num
      ensures k != -1 && old(InSlots(slots[..], num)) ==>
              slots[k] == old(slots[k]) && slots[k].cnt == old(slots[k].cnt) + 1
      ensures k != -1 && !old(InSlots(slots[..], num)) ==> fresh(slots[k]) && slots[k].cnt == 1
      ensures forall i :: 0 <= i < slots.Length && i != k && !old(Idle(slots[i])) ==>
                slots[i] == old(slots[i]) && unchanged(slots[i])
      ensures OthersSame(old(ns.vol.Now()), ns.vol.Now(), -1)
    {
      hide Namespace.Valid, SuperBlock.Valid, Volume.Rooted, OthersSame, Room, Recorded;
      OthersSelf(ns.vol.Now(), -1);
      var used := ns.Used(num, -1);
      if !used {
        return -1;
      }
      k := Search(num);
      if k != -1 {
        HoldSlot(k, slots[k]);
      } else {
        k := Load(num);
      }
    }

    /** fs/inode.c:92 of the inode in slot k: only with the last reference to the last link does it go, and
        its slot is cleared then. */
    method Iput(k: nat, m: MemInode)
      requires Held() && k < slots.Length && slots[k] == m && m.cnt > 0 && ns.vol.sb.Roomy(3)
      modifies slots, m, ns.vol.sb.cache.Repr(), ns.vol`zones, ns.vol`own, ns`links, ns`known
      ensures Held() && ns.vol.sb.cache.pins == old(ns.vol.sb.cache.pins)
      ensures if old(m.cnt) == 1 && old(m.nlinks) == 0
              then slots[..] == old(slots[..])[k := null] && ns.links == old(ns.links) - {m.num}
              else slots[..] == old(slots[..]) && m.cnt == old(m.cnt) - 1 && ns.links == old(ns.links)
      ensures OthersSame(old(ns.vol.Now()), ns.vol.Now(), if old(m.cnt) == 1 && old(m.nlinks) == 0 then m.num else -1)
    {
      hide Namespace.Valid, Namespace.Sound, SuperBlock.Valid, SuperBlock.Roomy, Volume.Rooted, Volume.Full, InSlots,
           Distinct, OthersSame, BootKept, Stored, Room, Recorded;
      Apart(k);
      var gone := m.cnt == 1 && m.nlinks == 0;
      ns.Iput(m, -1);
      assert forall i :: 0 <= i < slots.Length && i != k && slots[i] != null ==> ns.Linked(slots[i]);
      if gone {
        Vacate(k);
      }
    }
  }
}
