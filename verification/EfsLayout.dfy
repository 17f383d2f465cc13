/** The EFS disk as bytes: superblock and bitmap in block 0, the inode table in blocks 1 to 4, data
    from block 5 on (efs/mkefs.c, efs/superblock.c, efs/block.c, efs/inode.c). */
module EfsLayout {
  import opened Words
  import opened Bytes

  const BLOCK_SIZE: nat := 1024
  const BOOTCODE_LEN: nat := 512
  const SUPERBLOCK_LEN: nat := 20
  /** Where the bitmap of data blocks begins in block 0. */
  const MAP_AT: nat := 532
  const INODE_LEN: nat := 64
  const INODES_PER_BLOCK: nat := 16
  const INODES: nat := 64
  const DATA_AT: nat := 5
  const DIRECT: nat := 5
  const POINTERS: nat := 256
  /** The bits of the bitmap that block 0 has room for. */
  const MAX_DATA: nat := 3936

  type Block = seq<byte>
  type Disk = seq<Block>

  // ---------------------------------------------------------------- superblock

  function InodeOffset(d: Disk): nat requires Shaped(d) { U32At(d[0], BOOTCODE_LEN + 4) }
  function InodeCount(d: Disk): nat requires Shaped(d) { U32At(d[0], BOOTCODE_LEN + 8) }
  function DataOffset(d: Disk): nat requires Shaped(d) { U32At(d[0], BOOTCODE_LEN + 12) }
  function DataCount(d: Disk): nat requires Shaped(d) { U32At(d[0], BOOTCODE_LEN + 16) }

  ghost predicate Shaped(d: Disk)
  {
    |d| > DATA_AT && forall i :: 0 <= i < |d| ==> |d[i]| == BLOCK_SIZE
  }

  /** The superblock that mkefs writes for a disk of this many blocks. */
  ghost predicate Formatted(d: Disk)
  {
    && Shaped(d) && |d| <= DATA_AT + MAX_DATA
    && InodeOffset(d) == 1 && InodeCount(d) == INODES && DataOffset(d) == DATA_AT && DataCount(d) == |d| - DATA_AT
  }

  // ---------------------------------------------------------------- bitmap

  /** Whether the bit of data block `b` is set. */
  predicate Used(d: Disk, b: nat)
    requires |d| > 0 && |d[0]| == BLOCK_SIZE && b < MAX_DATA
  {
    Bit(d[0][MAP_AT + b / 8], 7 - b % 8)
  }

  /** Block 0 with the bit of data block `b` set. */
  function Marked(d: Disk, b: nat): (r: Disk)
    requires |d| > 0 && |d[0]| == BLOCK_SIZE && b < MAX_DATA
  {
    var i := MAP_AT + b / 8;
    SetBitFits(d[0][i], 7 - b % 8, 8);
    MaskByte();
    d[0 := d[0][i := SetBit(d[0][i], 7 - b % 8)]]
  }

  /** The bits of a byte count from the top: block 0 of each eight has the highest. */
  lemma UsedIs(d: Disk, b: nat)
    requires |d| > 0 && |d[0]| == BLOCK_SIZE && b < MAX_DATA
    ensures Used(d, b) <==> d[0][532 + b / 8] / [128, 64, 32, 16, 8, 4, 2, 1][b % 8] % 2 == 1
  {
    BitIs(d[0][532 + b / 8], 7 - b % 8);
  }

  lemma BitIs(x: nat, k: nat)
    requires k < 8
    ensures Bit(x, k) <==> x / [1, 2, 4, 8, 16, 32, 64, 128][k] % 2 == 1
  {
    if k > 0 {
      BitIs(x / 2, k - 1);
      Halved(x, [1, 2, 4, 8, 16, 32, 64, 128][k - 1]);
    }
  }

  lemma Halved(x: nat, m: nat)
    requires m in {1, 2, 4, 8, 16, 32, 64}
    ensures x / 2 / m == x / (2 * m)
  {
  }

  lemma MaskByte()
    ensures Mask(8) == 256
  {
    assert Mask(4) == 16;
    assert Mask(6) == 64;
  }

  /** Marking a block sets its bit and no other, and keeps the superblock and all other blocks. */
  lemma MarkedBits(d: Disk, b: nat)
    requires Formatted(d) && b < MAX_DATA
    ensures Formatted(Marked(d, b)) && |Marked(d, b)| == |d|
    ensures forall c :: 0 <= c < MAX_DATA ==> (Used(Marked(d, b), c) <==> c == b || Used(d, c))
    ensures forall i :: 1 <= i < |d| ==> Marked(d, b)[i] == d[i]
    ensures Marked(d, b)[0][..MAP_AT] == d[0][..MAP_AT]
  {
    var d' := Marked(d, b);
    forall c | 0 <= c < MAX_DATA ensures Used(d', c) <==> c == b || Used(d, c) {
      if c / 8 == b / 8 { SetBitBits(d[0][MAP_AT + b / 8], 7 - b % 8, 7 - c % 8); }
    }
  }

  /** The first data block from `i` on that is not used; 0 when there is none. */
  function FreeFrom(d: Disk, i: nat): (b: nat)
    requires Formatted(d) && i <= DataCount(d)
    ensures b != 0 ==> i <= b < DataCount(d) && !Used(d, b) && forall c :: i <= c < b ==> Used(d, c)
    ensures b == 0 && i > 0 ==> forall c :: i <= c < DataCount(d) ==> Used(d, c)
    decreases DataCount(d) - i
  {
    if i == DataCount(d) then 0 else if !Used(d, i) then i else FreeFrom(d, i + 1)
  }

  function FindFree(d: Disk): nat
    requires Formatted(d)
  {
    FreeFrom(d, 0)
  }

  /** find_free_block: the least free block; where block 0 is in use, 0 exactly when none is free. */
  lemma FindFreeLeast(d: Disk)
    requires Formatted(d) && Used(d, 0)
    ensures FindFree(d) == 0 <==> forall c :: 0 <= c < DataCount(d) ==> Used(d, c)
    ensures FindFree(d) != 0 ==> FindFree(d) < DataCount(d) && !Used(d, FindFree(d))
                                 && forall c :: 0 <= c < FindFree(d) ==> Used(d, c)
  {
    assert FindFree(d) == FreeFrom(d, 1);
  }

  // ---------------------------------------------------------------- inodes

  type Inode = b: seq<byte> | |b| == INODE_LEN witness Zeros(INODE_LEN)

  function InodeBlock(n: nat): nat { n / INODES_PER_BLOCK + 1 }

  function InodeAt(n: nat): nat { n % INODES_PER_BLOCK * INODE_LEN }

  function GetInode(d: Disk, n: nat): Inode
    requires Shaped(d) && n < INODES
  {
    d[InodeBlock(n)][InodeAt(n)..InodeAt(n) + INODE_LEN]
  }

  function SetInode(d: Disk, n: nat, ino: Inode): (r: Disk)
    requires Shaped(d) && n < INODES
    ensures |r| == |d|
  {
    var b := d[InodeBlock(n)];
    d[InodeBlock(n) := b[..InodeAt(n)] + ino + b[InodeAt(n) + INODE_LEN..]]
  }

  lemma Splice(b: Block, o: nat, ino: Inode, p: nat)
    requires o + INODE_LEN <= |b| && p + INODE_LEN <= |b| && (p == o || p + INODE_LEN <= o || o + INODE_LEN <= p)
    ensures (b[..o] + ino + b[o + INODE_LEN..])[p..p + INODE_LEN] == if p == o then ino else b[p..p + INODE_LEN]
  {
    var r := b[..o] + ino + b[o + INODE_LEN..];
    forall i | 0 <= i < INODE_LEN ensures r[p + i] == if p == o then ino[i] else b[p + i] {
    }
    assert r[p..p + INODE_LEN] == if p == o then ino else b[p..p + INODE_LEN];
  }

  /** Reading back an inode gives what was written; every other inode and block is as it was. */
  lemma GetSet(d: Disk, n: nat, ino: Inode)
    requires Formatted(d) && n < INODES
    ensures Formatted(SetInode(d, n, ino))
    ensures forall m :: 0 <= m < INODES ==> GetInode(SetInode(d, n, ino), m) == if m == n then ino else GetInode(d, m)
    ensures forall i :: 0 <= i < |d| && !(1 <= i < DATA_AT) ==> SetInode(d, n, ino)[i] == d[i]
  {
    var d' := SetInode(d, n, ino);
    forall m | 0 <= m < INODES ensures GetInode(d', m) == if m == n then ino else GetInode(d, m) {
      if InodeBlock(m) == InodeBlock(n) {
        assert m == n || InodeAt(m) + INODE_LEN <= InodeAt(n) || InodeAt(n) + INODE_LEN <= InodeAt(m);
        Splice(d[InodeBlock(n)], InodeAt(n), ino, InodeAt(m));
      }
    }
  }

  // Fields of an inode.

  function Size(ino: Inode): nat { U32At(ino, 0) }
  function Refs(ino: Inode): nat { ino[4] }
  function Ptr(ino: Inode, k: nat): nat requires k < DIRECT { U32At(ino, 8 + 4 * k) }
  function Indirect(ino: Inode): nat { U32At(ino, 28) }

  function WithSize(ino: Inode, v: nat): Inode { PutU32(ino, 0, v) }
  function WithRefs(ino: Inode, v: byte): Inode { ino[4 := v] }
  function WithPtr(ino: Inode, k: nat, v: nat): Inode requires k < DIRECT { PutU32(ino, 8 + 4 * k, v) }
  function WithIndirect(ino: Inode, v: nat): Inode { PutU32(ino, 28, v) }

  /** Each field is stored without touching the others. */
  lemma Fields(ino: Inode, k: nat, v: nat)
    requires k < DIRECT && v < WORD32
    ensures BytesKept(ino, WithSize(ino, v), 0, 4) && BytesKept(ino, WithIndirect(ino, v), 28, 4)
    ensures BytesKept(ino, WithPtr(ino, k, v), 8 + 4 * k, 4) && (v < 256 ==> BytesKept(ino, WithRefs(ino, v), 4, 1))
    ensures var i := WithSize(ino, v); Size(i) == v && Refs(i) == Refs(ino) && SamePtrs(i, ino)
    ensures var i := WithIndirect(ino, v);
      Indirect(i) == v && Size(i) == Size(ino) && Refs(i) == Refs(ino)
      && forall j :: 0 <= j < DIRECT ==> Ptr(i, j) == Ptr(ino, j)
    ensures var i := WithPtr(ino, k, v);
      Size(i) == Size(ino) && Refs(i) == Refs(ino) && Indirect(i) == Indirect(ino)
      && forall j :: 0 <= j < DIRECT ==> Ptr(i, j) == if j == k then v else Ptr(ino, j)
    ensures v < 256 ==> var i := WithRefs(ino, v); Refs(i) == v && Size(i) == Size(ino) && SamePtrs(i, ino)
  {
    PutGet(ino, 0, v);
    PutGet(ino, 28, v);
    PutGet(ino, 8 + 4 * k, v);
    forall j | 0 <= j < DIRECT && j != k ensures U32At(PutU32(ino, 8 + 4 * k, v), 8 + 4 * j) == U32At(ino, 8 + 4 * j) {
      PutOther(ino, 8 + 4 * k, v, 8 + 4 * j);
    }
  }

  /** No byte but the `n` from `o` on differs. */
  ghost predicate BytesKept(i: Inode, j: Inode, o: nat, n: nat)
  {
    forall x :: 0 <= x < 64 && !(o <= x < o + n) ==> j[x] == i[x]
  }

  predicate SamePtrs(i: Inode, j: Inode)
  {
    Indirect(i) == Indirect(j) && forall k :: 0 <= k < DIRECT ==> Ptr(i, k) == Ptr(j, k)
  }
}
