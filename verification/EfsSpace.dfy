/** When the space on the disk is enough (efs/writeefs.c, efs/efs.c, efs/inode.c). */
module EfsSpace {
  import opened Words
  import opened Bytes
  import opened EfsLayout
  import opened EfsAlloc
  import opened EfsDir
  import opened EfsWrite

  ghost function FreeBlocks(d: Disk): set<nat>
    requires Formatted(d)
  {
    set c: nat | c < DataCount(d) && !Used(d, c)
  }

  lemma FreeBlocksOf(d: Disk, d': Disk)
    requires Formatted(d) && Formatted(d') && |d| == |d'| && d[0] == d'[0]
    ensures FreeBlocks(d') == FreeBlocks(d)
  {
    assert forall c: nat :: c < MAX_DATA ==> Used(d, c) == Used(d', c);
  }

  lemma MarkTakes(d: Disk, b: nat)
    requires Formatted(d) && b < DataCount(d)
    ensures Formatted(Marked(d, b)) && FreeBlocks(Marked(d, b)) == FreeBlocks(d) - {b}
  {
    hide Marked;
    MarkedBits(d, b);
  }

  /** find_free_block takes one of the free blocks, if there are any. */
  lemma FindFreeIn(d: Disk)
    requires PtrInv(d)
    ensures Formatted(d) && (FindFree(d) == 0 <==> FreeBlocks(d) == {})
    ensures FindFree(d) != 0 ==> FindFree(d) in FreeBlocks(d) && FindFree(d) < DataCount(d)
  {
    FindFreeLeast(d);
    if FindFree(d) == 0 {
      assert forall c: nat :: c < DataCount(d) ==> Used(d, c);
    } else {
      assert FindFree(d) in FreeBlocks(d);
    }
  }

  /** How many blocks falloc_block takes for the k-th block of a file. */
  ghost function Takes(d: Disk, n: nat, k: nat): (r: nat)
    requires Formatted(d) && n < INODES
    ensures 1 <= r <= 2
  {
    if DIRECT <= k <= POINTERS && Ref(d, n, INDIRECT) == 0 then 2 else 1
  }

  lemma NeedIndirectTakes(d: Disk, n: nat)
    requires PtrInv(d) && n < INODES && Ref(d, n, INDIRECT) == 0 && FindFree(d) != 0
    ensures var d' := NeedIndirect(d, n).0;
      Formatted(d') && FreeBlocks(d') == FreeBlocks(d) - {FindFree(d)}
  {
    hide Marked, SetInode, FreeBlocks, Used;
    FindFreeIn(d);
    var t := FindFree(d);
    MarkedBits(d, t);
    MarkTakes(d, t);
    var d1 := Marked(d, t);
    var ino := WithIndirect(GetInode(d, n), t);
    GetSet(d1, n, ino);
    var d2 := SetInode(d1, n, ino);
    FreeBlocksOf(d1, d2);
    FreeBlocksOf(d2, d2[DATA_AT + t := Zeros(BLOCK_SIZE)]);
  }

  /** The pointer takes the block of the indirect block, if that is new, and a direct one leaves the indirect
      block alone. */
  lemma AddPointerTakes(d: Disk, n: nat, b: nat)
    requires PtrInv(d) && n < INODES && 0 < b < DataCount(d) && Used(d, b) && Unreferenced(d, b)
    ensures var (d', ok) := AddPointer(d, n, b); var k := Size(GetInode(d, n)) / BLOCK_SIZE;
      && Formatted(d') && (k < DIRECT ==> Ref(d', n, INDIRECT) == Ref(d, n, INDIRECT))
      && (ok ==> FreeBlocks(d') == FreeBlocks(d) - (if Takes(d, n, k) == 2 then {FindFree(d)} else {}))
  {
    hide SetInode, NeedIndirect, Used, FreeBlocks, Unreferenced, GetInode;
    var k := Size(GetInode(d, n)) / BLOCK_SIZE;
    PointerGained(d, n, b);
    var (d', ok) := AddPointer(d, n, b);
    if k < DIRECT {
      var ino := WithPtr(GetInode(d, n), k, b);
      GetSet(d, n, ino);
      Fields(GetInode(d, n), k, b);
      FreeBlocksOf(d, d');
    } else if k <= POINTERS {
      NeedIndirectRefs(d, n, b);
      var (d1, got) := NeedIndirect(d, n);
      if got {
        IndirectTaken(d, n);
        FreeBlocksOf(d1, d');
      }
    }
  }

  lemma IndirectTaken(d: Disk, n: nat)
    requires PtrInv(d) && n < INODES && NeedIndirect(d, n).1
    ensures Formatted(NeedIndirect(d, n).0)
    ensures FreeBlocks(NeedIndirect(d, n).0) ==
      if Ref(d, n, INDIRECT) == 0 then FreeBlocks(d) - {FindFree(d)} else FreeBlocks(d)
  {
    hide FreeBlocks;
    if Ref(d, n, INDIRECT) == 0 { NeedIndirectTakes(d, n); }
  }

  /** falloc_block succeeds exactly when there are as many free blocks as it takes. */
  lemma FallocTakes(d: Disk, n: nat)
    requires PtrInv(d) && n < INODES
    ensures var (d', at) := Falloc(d, n); var k := Size(GetInode(d, n)) / BLOCK_SIZE;
      && Formatted(d') && Formatted(d)
      && (at.Some? <==> |FreeBlocks(d)| >= Takes(d, n, k))
      && (at.Some? ==> |FreeBlocks(d')| == |FreeBlocks(d)| - Takes(d, n, k))
      && (at.Some? && k < DIRECT ==> Ref(d', n, INDIRECT) == Ref(d, n, INDIRECT))
  {
    hide GetInode, Marked, AddPointer, Ref, FreeBlocks, Used, Unreferenced;
    FallocEffect(d, n);
    FindFreeIn(d);
    var b := FindFree(d);
    if b != 0 {
      MarkedFree(d, b);
      var d1 := Marked(d, b);
      MarkTakes(d, b);
      FindFreeIn(d1);
      AddPointerTakes(d1, n, b);
      SmallSet(FreeBlocks(d), b);
    }
  }

  lemma SmallSet(s: set<nat>, b: nat)
    requires b in s
    ensures s - {b} == {} <==> |s| == 1
  {
    assert |s - {b}| == |s| - 1;
  }

  /** The bitmaps are the same, and so are all pointers. */
  ghost predicate SamePointers(d: Disk, d': Disk)
  {
    && Formatted(d) && Formatted(d') && |d'| == |d| && d'[0] == d[0]
    && (forall m, s :: 0 <= m < INODES && 0 <= s < SLOTS ==> Ref(d', m, s) == Ref(d, m, s))
  }

  /** Of what one pass of the loop does, only falloc_block touches the bitmap and the pointers. */
  lemma AppendSame(d: Disk, n: nat, data: seq<byte>)
    requires PtrInv(d) && n < INODES
    ensures SamePointers(Falloc(d, n).0, Append(d, n, data).0) && (Append(d, n, data).1 == Falloc(d, n).1)
  {
    hide PtrInv, GetInode, Ref, SetInode, Falloc, Buffer, Used, Append;
    FallocEffect(d, n);
    AppendIs(d, n, data);
    var (d1, at) := Falloc(d, n);
    SamePlace(d1);
    if at.Some? {
      var d2 := d1[at.value := Buffer(data)];
      FilledRefs(d, d1, n, Size(GetInode(d, n)) / BLOCK_SIZE, at.value, Buffer(data));
      var v := (Size(GetInode(d2, n)) + ChunkLen(data)) % WORD32;
      var ino := WithSize(GetInode(d2, n), v);
      GetSet(d2, n, ino);
      Fields(GetInode(d2, n), 0, v);
      SamePtrsKeep(d2, n, ino);
    }
  }

  lemma SamePlace(d: Disk)
    requires PtrInv(d)
    ensures SamePointers(d, d)
  {
  }

  /** The bitmap and the pointers of the file after one pass of the loop. */
  lemma AppendTakes(d: Disk, n: nat, data: seq<byte>)
    requires PtrInv(d) && n < INODES
    ensures var (d', at) := Append(d, n, data); var k := Size(GetInode(d, n)) / BLOCK_SIZE;
      && Formatted(d') && Formatted(d)
      && (at.Some? <==> |FreeBlocks(d)| >= Takes(d, n, k))
      && (at.Some? ==> |FreeBlocks(d')| == |FreeBlocks(d)| - Takes(d, n, k))
      && (at.Some? && k < DIRECT ==> Ref(d', n, INDIRECT) == Ref(d, n, INDIRECT))
      && (at.Some? && DIRECT <= k <= POINTERS ==> Ref(d', n, INDIRECT) != 0)
  {
    hide PtrInv, GetInode, Ref, SetInode, Falloc, FreeBlocks, Used, Append;
    FallocEffect(d, n);
    FallocTakes(d, n);
    AppendSame(d, n, data);
    var (d1, at) := Falloc(d, n);
    var d' := Append(d, n, data).0;
    FreeBlocksOf(d1, d');
    var k := Size(GetInode(d, n)) / BLOCK_SIZE;
    if at.Some? && DIRECT <= k <= POINTERS { IndirectThere(d', n, k); }
  }

  /** Filling the new block changes no pointer. */
  lemma FilledRefs(d: Disk, d1: Disk, n: nat, k: nat, at: nat, b: Block)
    requires PtrInv(d) && PtrInv(d1) && n < INODES && DATA_AT < at < |d1| && |b| == BLOCK_SIZE
    requires !Used(d, at - DATA_AT)
    requires if k <= POINTERS then Gained(d, d1, n, k, at - DATA_AT) else Quiet(d, d1)
    ensures PtrInv(d1[at := b]) && SamePointers(d1, d1[at := b])
  {
    hide Ref, Used;
    FreeIsUnreferenced(d, at - DATA_AT);
    NotIndirect(d, d1, n, k, at - DATA_AT);
    DataKeepsInv(d1, at - DATA_AT, b);
  }

  lemma IndirectThere(d: Disk, n: nat, k: nat)
    requires Formatted(d) && n < INODES && DIRECT <= k <= POINTERS && Ref(d, n, SlotOf(k)) != 0
    ensures Ref(d, n, INDIRECT) != 0
  {
  }

  /** How many blocks `size` more bytes take in a file that has `k` blocks. */
  ghost function Needs(d: Disk, n: nat, k: nat, size: nat): nat
    requires Formatted(d) && n < INODES
  {
    Blocks(size) +
    if size > 0 && k + Blocks(size) > DIRECT && k <= POINTERS && Ref(d, n, INDIRECT) == 0 then 1 else 0
  }

  /** The loop comes to the end of the source exactly when there are as many free blocks as it takes. */
  lemma {:induction false} WriteAllFinishes(d: Disk, names: seq<seq<byte>>, n: nat, data: seq<byte>, k: nat)
    requires Dir(d, names) && 0 < n < |names| && Size(GetInode(d, n)) == k * BLOCK_SIZE
    requires k * BLOCK_SIZE + |data| < WORD32
    ensures Formatted(d) && n < INODES
    ensures WriteAll(d, names, n, data).ok <==> |FreeBlocks(d)| >= Needs(d, n, k, |data|)
    decreases |data|
  {
    hide PtrInv, Ref, GetInode, Append, Dir, Size, FreeBlocks;
    DirFacts(d, names);
    BlocksNext(|data|);
    if data != [] {
      AppendEffect(d, names, n, data);
      AppendTakes(d, n, data);
      var (d1, at) := Append(d, n, data);
      if at.Some? {
        DirFacts(d1, names);
        var rest := data[ChunkLen(data)..];
        if rest != [] { WriteAllFinishes(d1, names, n, rest, k + 1); }
      }
    }
  }

  /** new_file leaves the bitmap alone. */
  lemma NewFileMap(d: Disk, names: seq<seq<byte>>, s: seq<byte>)
    requires Dir(d, names) && LegalName(s)
    ensures |NewFile(d, names, s).0| == |d| > 0 && NewFile(d, names, s).0[0] == d[0]
  {
    hide PtrInv, GetInode, WithEntry, Dir, FindFile, Ref, FreeInode;
    DirFacts(d, names);
    FindFileExact(d, names, s);
    FreeInodeIs(d, names);
    RootPlace(d, names);
    if s !in names && |names| < INODES { AddFileFormatted(d, s, |names|); }
  }

  /** read_write comes to the end of its source exactly when the disk has a free block for each block of the
      data, and one more where the sixth block needs an indirect block that the file has not. */
  lemma ReadWriteFinishes(d: Disk, names: seq<seq<byte>>, s: seq<byte>, data: seq<byte>, n: nat)
    requires Dir(d, names) && FileName(s) && |data| < WORD32 && IsPlace(names, s, n) && |With(names, s)| <= ENTRIES
    ensures Formatted(d) && ReadWrite(d, names, s, data).Some?
    ensures ReadWrite(d, names, s, data).value.ok <==>
      |FreeBlocks(d)| >= Blocks(|data|) +
        if |data| > DIRECT * BLOCK_SIZE && Ref(d, n, INDIRECT) == 0 then 1 else 0
  {
    hide PtrInv, GetInode, Ref, NewFile, FindFile, WriteAll, Size, Dir, FreeBlocks, FilesKept;
    DirFacts(d, names);
    NewFileEffect(d, names, s);
    StartedWrites(d, names, s, data);
    var (d1, ok) := NewFile(d, names, s);
    var all := With(names, s);
    DirFacts(d1, all);
    FindFileExact(d1, all, s);
    PlaceFound(names, s, n, FindFile(d1, s).value);
    NewFileSame(d, names, s);
    FreeBlocksOf(d, d1);
    WriteAllFinishes(d1, all, n, data, 0);
    BlocksCount(|data|);
  }

  lemma BlocksCount(size: nat)
    ensures Blocks(size) > DIRECT <==> size > DIRECT * BLOCK_SIZE
  {
  }

  /** new_file leaves every pointer alone. */
  lemma NewFileSame(d: Disk, names: seq<seq<byte>>, s: seq<byte>)
    requires Dir(d, names) && FileName(s) && NewFile(d, names, s).1
    ensures SamePointers(d, NewFile(d, names, s).0)
  {
    hide PtrInv, GetInode, Ref, NewFile, FindFile;
    NewFileEffect(d, names, s);
    NewFileMap(d, names, s);
    FindFileExact(d, names, s);
    if s in names {
      TruncateEffect(d, names, FindFile(d, s).value);
    } else {
      CreateEffect(d, names, s);
    }
  }

  /** As long as a file keeps to the direct pointers, it gets no indirect block. */
  lemma {:induction false} WriteAllDirect(d: Disk, names: seq<seq<byte>>, n: nat, data: seq<byte>, k: nat)
    requires Dir(d, names) && 0 < n < |names| && Size(GetInode(d, n)) == k * BLOCK_SIZE
    requires k * BLOCK_SIZE + |data| <= DIRECT * BLOCK_SIZE
    ensures Formatted(d) && n < INODES && Formatted(WriteAll(d, names, n, data).d)
    ensures Ref(WriteAll(d, names, n, data).d, n, INDIRECT) == Ref(d, n, INDIRECT)
    decreases |data|
  {
    hide PtrInv, Ref, GetInode, Append, Dir, Size, FreeBlocks, OthersKept, OwnKept;
    DirFacts(d, names);
    if data != [] {
      AppendEffect(d, names, n, data);
      AppendTakes(d, n, data);
      var (d1, at) := Append(d, n, data);
      if at.Some? {
        var rest := data[ChunkLen(data)..];
        if rest != [] { WriteAllDirect(d1, names, n, rest, k + 1); }
      }
    }
  }

  lemma ReadWriteDirect(d: Disk, names: seq<seq<byte>>, s: seq<byte>, data: seq<byte>, n: nat)
    requires Dir(d, names) && FileName(s) && |data| <= DIRECT * BLOCK_SIZE && IsPlace(names, s, n)
    requires |With(names, s)| <= ENTRIES
    ensures Formatted(d) && n < INODES && ReadWrite(d, names, s, data).Some?
    ensures var w := ReadWrite(d, names, s, data).value;
      Formatted(w.d) && Ref(w.d, n, INDIRECT) == Ref(d, n, INDIRECT)
  {
    hide PtrInv, GetInode, Ref, NewFile, FindFile, WriteAll, Size, Dir, FreeBlocks, FilesKept;
    DirFacts(d, names);
    NewFileEffect(d, names, s);
    StartedWrites(d, names, s, data);
    var (d1, ok) := NewFile(d, names, s);
    var all := With(names, s);
    DirFacts(d1, all);
    FindFileExact(d1, all, s);
    PlaceFound(names, s, n, FindFile(d1, s).value);
    NewFileSame(d, names, s);
    WriteAllDirect(d1, all, n, data, 0);
  }
}
