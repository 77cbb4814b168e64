/** The inode table on disk: 64 records of 64 bytes in a block, copied to and from the
    inodes in memory (fs/inode.c:17-57). */
module InodeTable {
  import opened Bytes
  import opened BufferCaches
  import opened Bitmaps
  import opened Inodes

  const INODES_PER_BLK := 64
  const WORDS_PER_INODE := 16

  /** A DEV_INODE. */
  datatype DevInode = DevInode(mode: u16, uid: u16, size: u32, mtime: u32, gid: u16, nlinks: u16, magic: u32,
                               zone: seq<u32>, unused: (u32, u32))
  {
    /** Its 64 bytes as little-endian words. */
    function Words(): (ws: seq<u32>)
      requires |zone| == 9
      ensures |ws| == WORDS_PER_INODE
    {
      [mode + 0x1_0000 * uid, size, mtime, gid + 0x1_0000 * nlinks, magic] + zone + [unused.0, unused.1]
    }
  }

  function FromWords(ws: seq<u32>): (d: DevInode)
    requires |ws| == WORDS_PER_INODE
    ensures |d.zone| == 9
  {
    DevInode(ws[0] % 0x1_0000, ws[0] / 0x1_0000, ws[1], ws[2], ws[3] % 0x1_0000, ws[3] / 0x1_0000, ws[4],
             ws[5..14], (ws[14], ws[15]))
  }

  lemma FromWordsOfWords(d: DevInode)
    requires |d.zone| == 9
    ensures FromWords(d.Words()) == d
  {
    assert d.Words()[5..14] == d.zone;
  }

  function WordsAt(b: Block, at: nat, n: nat): (ws: seq<u32>)
    requires at + n <= NR_BLK_OBJS
    ensures |ws| == n && forall k: nat :: k < n ==> ws[k] == Word(b, at + k)
  {
    if n == 0 then [] else WordsAt(b, at, n - 1) + [Word(b, at + n - 1)]
  }

  /** Record s of a block of the inode table. */
  function InodeAt(b: Block, s: nat): (d: DevInode)
    requires s < INODES_PER_BLK
    ensures |d.zone| == 9
  {
    FromWords(WordsAt(b, 16 * s, WORDS_PER_INODE))
  }

  function PutInode(b: Block, s: nat, d: DevInode): Block
    requires s < INODES_PER_BLK && |d.zone| == 9
  {
    PutWords(b, 16 * s, d.Words())
  }

  /** Writing one inode of a table block and reading the block's inodes back. */
  lemma PutInodeReadBack(b: Block, s: nat, d: DevInode, t: nat)
    requires s < INODES_PER_BLK && t < INODES_PER_BLK && |d.zone| == 9
    ensures InodeAt(PutInode(b, s, d), t) == if t == s then d else InodeAt(b, t)
  {
    var ws, ws' := WordsAt(b, 16 * t, WORDS_PER_INODE), WordsAt(PutInode(b, s, d), 16 * t, WORDS_PER_INODE);
    forall k: nat | k < WORDS_PER_INODE ensures ws'[k] == if t == s then d.Words()[k] else ws[k] {
      PutWordsReadBack(b, 16 * s, d.Words(), 16 * t + k);
    }
    if t == s {
      assert ws' == d.Words();
      FromWordsOfWords(d);
    } else {
      assert ws' == ws;
    }
  }

  /** What an inode in memory and its record on disk share. */
  ghost function Stored(m: MemInode): DevInode
    reads m
  {
    DevInode(m.mode, m.uid, m.size, m.mtime, m.gid, m.nlinks, m.magic, m.zone, m.unused)
  }

  /** The table block of inode num, which the layout must have. */
  function TableBlk(sb: SuperBlock, num: nat): nat {
    2 + sb.imapBlocks + sb.zmapBlocks + num / INODES_PER_BLK
  }

  ghost function OnDisk(sb: SuperBlock, v: imap<Key, Block>, num: nat): DevInode
    requires sb.IsTableBlk(TableBlk(sb, num)) && sb.firstDatazone < TWO_32 && forall k :: k in v
  {
    InodeAt(v[Key(sb.dev, TableBlk(sb, num))], num % INODES_PER_BLK)
  }

  /** Where the record of inode num stands, and which of its 16 words is which field
      (include/ecasey/fs.h:42-51). */
  lemma RecordWords(sb: SuperBlock, v: imap<Key, Block>, num: nat)
    requires sb.IsTableBlk(TableBlk(sb, num)) && sb.firstDatazone < TWO_32 && forall k :: k in v
    ensures var d := OnDisk(sb, v, num);
            var b := v[Key(sb.dev, 2 + sb.imapBlocks + sb.zmapBlocks + num / 64)];
            var w := 16 * (num % 64);
            && d.mode == Word(b, w) % 0x1_0000 && d.uid == Word(b, w) / 0x1_0000
            && d.size == Word(b, w + 1) && d.mtime == Word(b, w + 2)
            && d.gid == Word(b, w + 3) % 0x1_0000 && d.nlinks == Word(b, w + 3) / 0x1_0000 && d.magic == Word(b, w + 4)
            && (forall i: nat :: i < 9 ==> d.zone[i] == Word(b, w + 5 + i))
            && d.unused == (Word(b, w + 14), Word(b, w + 15))
  {
    hide Word;
  }

  /** The record becomes the shared part of the inode in memory, which is then valid. */
  method Load(m: MemInode, d: DevInode)
    requires |d.zone| == 9
    modifies m
    ensures m.valid && m.cnt == old(m.cnt) && m.dirt == old(m.dirt) && Stored(m) == d
  {
    m.mode, m.uid, m.size, m.mtime := d.mode, d.uid, d.size, d.mtime;
    m.gid, m.nlinks, m.magic, m.zone, m.unused := d.gid, d.nlinks, d.magic, d.zone, d.unused;
    m.valid := true;
  }

  /** fs/inode.c:17 */
  method ReadDevInode(sb: SuperBlock, m: MemInode)
    requires sb.Valid() && sb.Roomy(1) && m.dev == sb.dev && sb.IsTableBlk(TableBlk(sb, m.num))
    modifies sb.cache.Repr(), m
    ensures sb.Valid() && sb.cache.view == old(sb.cache.view) && sb.cache.pins == old(sb.cache.pins)
    ensures m.valid && m.cnt == old(m.cnt) && m.dirt == old(m.dirt)
    ensures Stored(m) == if old(m.valid) then old(Stored(m)) else OnDisk(sb, sb.cache.view, m.num)
  {
    hide SuperBlock.Valid, InodeAt;
    if m.valid {
      return;
    }
    var b := sb.ReadTable(TableBlk(sb, m.num));
    Load(m, InodeAt(b, m.num % INODES_PER_BLK));
  }

  /** fs/inode.c:37: the record of this inode is replaced, all other contents stay. */
  method WriteDevInode(sb: SuperBlock, m: MemInode)
    requires sb.Valid() && sb.Roomy(1) && m.dev == sb.dev && sb.IsTableBlk(TableBlk(sb, m.num)) && |m.zone| == 9
    modifies sb.cache.Repr(), m`dirt, m`valid
    ensures sb.Valid() && sb.cache.pins == old(sb.cache.pins)
    ensures !m.dirt && (old(m.dirt) ==> m.valid) && (!old(m.dirt) ==> m.valid == old(m.valid))
    ensures old(m.dirt) ==> OnDisk(sb, sb.cache.view, m.num) == Stored(m)
    ensures forall n: nat :: n != m.num && sb.IsTableBlk(TableBlk(sb, n)) ==>
              OnDisk(sb, sb.cache.view, n) == OnDisk(sb, old(sb.cache.view), n)
    ensures forall k: Key :: k.dev != sb.dev || !sb.IsTableBlk(k.blk) ==> sb.cache.view[k] == old(sb.cache.view)[k]
  {
    hide SuperBlock.Valid, InodeAt, PutInode;
    if !m.dirt {
      return;
    }
    ghost var v := sb.cache.view;
    var blk := TableBlk(sb, m.num);
    var d := DevInode(m.mode, m.uid, m.size, m.mtime, m.gid, m.nlinks, m.magic, m.zone, m.unused);
    var b := sb.ReadTable(blk);
    sb.WriteTable(blk, PutInode(b, m.num % INODES_PER_BLK, d));
    m.dirt := false;
    m.valid := true;
    forall n: nat | sb.IsTableBlk(TableBlk(sb, n))
      ensures OnDisk(sb, sb.cache.view, n) == if n == m.num then d else OnDisk(sb, v, n)
    {
      PutInodeReadBack(b, m.num % INODES_PER_BLK, d, n % INODES_PER_BLK);
    }
  }
}
