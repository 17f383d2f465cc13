/** The boot loader's own reader of EFS (boot/boot2.S), in 16 bit arithmetic. */
module Boot {
  import opened Wrappers
  import opened Bytes
  import opened EfsLayout
  import opened EfsAlloc
  import opened EfsDir
  import opened EfsWrite

  const WORD16: nat := 0x1_0000
  const INDIR_BLKS: nat := 261

  // ---------------------------------------------------------------- get_bnum, read_inode

  /** The superblock is the second sector of block 0; the loader uses the low half of each field. */
  function BootDataOffset(d: Disk): nat
    requires Shaped(d)
  {
    U16At(d[0], BOOTCODE_LEN + 12)
  }

  /** read_fs_block doubles the block number in 16 bits, so of the number only 15 bits count. */
  function Block15(b: nat): (r: nat)
    ensures b < 0x8000 ==> r == b
  {
    b % 0x8000
  }

  /** get_bnum: the place on the disk of block `k` of the file whose inode is in the buffer.  None when
      the double indirect blocks would be needed, or when the indirect block is off the disk. */
  function GetBnum(d: Disk, ino: Inode, k: nat): Option<nat>
    requires Shaped(d)
  {
    var off := BootDataOffset(d);
    if k < DIRECT then Some((U16At(ino, 8 + 4 * k) + off) % WORD16)
    else if k < INDIR_BLKS then
      var t := Block15((U16At(ino, 0x1C) + off) % WORD16);
      if t < |d| then Some((U16At(d[t], 4 * (k - DIRECT)) + off) % WORD16) else None
    else None
  }

  /** The block read_inode looks in for inode `n`, from the superblock's inode offset. */
  function InodePlace(d: Disk, n: nat): nat
    requires Shaped(d)
  {
    Block15((n / INODES_PER_BLOCK + U16At(d[0], BOOTCODE_LEN + 4)) % WORD16)
  }

  /** read_inode: the 64 bytes of inode `n`. */
  function ReadInode(d: Disk, n: nat): Inode
    requires Shaped(d) && InodePlace(d, n) < |d|
  {
    d[InodePlace(d, n)][n % INODES_PER_BLOCK * INODE_LEN..][..INODE_LEN]
  }

  /** The loader reads the inode that the file system tools wrote. */
  lemma ReadInodeAgrees(d: Disk, n: nat)
    requires Formatted(d) && n < INODES
    ensures InodePlace(d, n) < |d|
    ensures ReadInode(d, n) == GetInode(d, n)
  {
    LowHalf(d[0], BOOTCODE_LEN + 4);
  }

  /** Five direct blocks, then those of one indirect block, and no more: the limit is 261. */
  lemma GetBnumRange(d: Disk, ino: Inode, k: nat)
    requires Shaped(d)
    ensures k < 5 ==> GetBnum(d, ino, k).Some?
    ensures k >= 261 ==> GetBnum(d, ino, k) == None
    ensures 5 <= k < 261 ==>
      var t := Block15((U16At(ino, 28) + BootDataOffset(d)) % WORD16);
      if t >= |d| then GetBnum(d, ino, k) == None
      else GetBnum(d, ino, k) == Some((U16At(d[t], 4 * (k - 5)) + BootDataOffset(d)) % WORD16)
  {
  }

  lemma BootOffset(d: Disk)
    requires Formatted(d)
    ensures BootDataOffset(d) == DATA_AT
  {
    LowHalf(d[0], BOOTCODE_LEN + 12);
  }

  lemma RefBelow(d: Disk, n: nat, s: nat)
    requires PtrInv(d) && n < INODES && s < SLOTS
    ensures Formatted(d) && Ref(d, n, s) < DataCount(d)
  {
    assert RefOk(d, n, s);
  }

  /** get_bnum agrees with the pointers of the writer, for direct blocks and, where the file has an
      indirect block, for all blocks it can name. */
  lemma GetBnumAgrees(d: Disk, n: nat, k: nat)
    requires PtrInv(d) && n < INODES && k < 261 && (k < DIRECT || Ref(d, n, INDIRECT) != 0)
    ensures GetBnum(d, GetInode(d, n), k) == Some(DATA_AT + Ref(d, n, SlotOf(k)))
    ensures DATA_AT + Ref(d, n, SlotOf(k)) < |d|
  {
    hide PtrInv, GetInode, U16At, U32At;
    RefBelow(d, n, SlotOf(k));
    RefBelow(d, n, INDIRECT);
    BootOffset(d);
    var ino := GetInode(d, n);
    if k < DIRECT {
      LowHalf(ino, 8 + 4 * k);
    } else {
      LowHalf(ino, 28);
      LowHalf(d[DATA_AT + Indirect(ino)], 4 * (k - DIRECT));
    }
  }

  /** Without an indirect block the loader takes the root directory's block for one; its first entry
      begins with the name ".". */
  lemma GetBnumNoIndirect(d: Disk, names: seq<seq<byte>>, n: nat)
    requires Dir(d, names) && n < INODES && Ref(d, n, INDIRECT) == 0
    ensures GetBnum(d, GetInode(d, n), DIRECT) == Some(DATA_AT + DOT)
  {
    hide PtrInv;
    BootOffset(d);
    LowHalf(GetInode(d, n), 28);
    assert EntryIs(d[DATA_AT], 0, names[0]);
    assert NameOf(d[DATA_AT], 0)[0] == DOT && NameOf(d[DATA_AT], 0)[1] == 0;
  }

  // ---------------------------------------------------------------- what the writer stored

  /** Block i of a stored file is read where it was written, and holds the data and zeros behind it, exactly for the
      first 257 blocks: from there on the writer had left the pointer empty. */
  lemma ReadsBack(d: Disk, w: Written, names: seq<seq<byte>>, s: seq<byte>, data: seq<byte>, n: nat, i: nat)
    requires Stored(d, w, names, s, data, n) && w.ok && i < |w.at| && i < 261
    ensures GetBnum(w.d, GetInode(w.d, n), i) == Some(w.at[i]) <==> i <= POINTERS
    ensures i <= POINTERS ==> w.at[i] < |w.d| && i * BLOCK_SIZE < |data| && w.d[w.at[i]] == Chunk(data, i)
    ensures i <= POINTERS ==> Fills(w.d[w.at[i]], data, i)
  {
    hide Dir, FilesKept, FindFile, Ref, PtrInv, GetBnum, GetInode, Fills;
    DirFacts(w.d, With(names, s));
    if i <= POINTERS {
      assert BlockHeld(w.d, n, 0, w, data, i);
      ChunkFills(data, i);
    }
    if i >= DIRECT {
      assert BlockHeld(w.d, n, 0, w, data, DIRECT);
      EntryNeedsIndirect(w.d, n, DIRECT);
    }
    GetBnumAgrees(w.d, n, i);
    if i > POINTERS { NoPointerBeyond(w.d, n, i); }
  }

  lemma EntryNeedsIndirect(d: Disk, n: nat, k: nat)
    requires Formatted(d) && n < INODES && DIRECT <= k < INDIR_BLKS && Ref(d, n, SlotOf(k)) != 0
    ensures Ref(d, n, INDIRECT) != 0
  {
  }

  lemma NoPointerBeyond(d: Disk, n: nat, k: nat)
    requires PtrInv(d) && n < INODES && POINTERS < k < INDIR_BLKS
    ensures Ref(d, n, SlotOf(k)) == 0
  {
    assert SlotOf(POINTERS) < SlotOf(k) < SLOTS;
  }

  /** Writing one file leaves what the loader reads of every other file as it was. */
  lemma OthersReadBack(d: Disk, w: Written, names: seq<seq<byte>>, s: seq<byte>, data: seq<byte>, n: nat, m: nat,
      k: nat)
    requires Dir(d, names) && Stored(d, w, names, s, data, n)
    requires 0 < m < INODES && m != n && k < 261 && Ref(d, m, SlotOf(k)) != 0
    ensures var b := GetBnum(d, GetInode(d, m), k);
      && b.Some? && b.value < |d| && GetBnum(w.d, GetInode(w.d, m), k) == b && w.d[b.value] == d[b.value]
      && Size(GetInode(w.d, m)) == Size(GetInode(d, m))
  {
    hide FindFile, Ref, PtrInv, GetBnum, GetInode;
    DirFacts(d, names);
    DirFacts(w.d, With(names, s));
    assert PointerKept(d, w.d, m, SlotOf(k)) && PointerKept(d, w.d, m, INDIRECT);
    if k >= DIRECT { EntryNeedsIndirect(d, m, k); }
    GetBnumAgrees(d, m, k);
    GetBnumAgrees(w.d, m, k);
  }
}
