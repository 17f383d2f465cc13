/** The EFS tools in place: every operation reads blocks of the device into buffers, edits them there and
    writes them back (efs/block.c, efs/inode.c, efs/efs.c, efs/writeefs.c, efs/mkefs.c). */
module EfsDevice {
  import opened Wrappers
  import opened Words
  import opened Bytes
  import opened EfsLayout
  import opened EfsAlloc
  import opened EfsDir
  import opened EfsWrite
  import opened EfsFormat

  class Device {
    const disk: array<Block>

    constructor (blocks: seq<Block>)
      ensures fresh(disk) && disk[..] == blocks
    {
      disk := new Block[|blocks|](i requires 0 <= i < |blocks| => blocks[i]);
    }

    // -------------------------------------------------------------- blocks

    method ReadBlock(i: nat) returns (b: Block)
      requires i < disk.Length
      ensures b == disk[i]
    {
      return disk[i];
    }

    /** A place off the disk cannot be written. */
    method WriteBlock(i: nat, b: Block) returns (ok: bool)
      modifies disk
      ensures ok <==> i < disk.Length
      ensures disk[..] == if i < disk.Length then old(disk[..])[i := b] else old(disk[..])
    {
      if i >= disk.Length { return false; }
      disk[i] := b;
      return true;
    }

    /** The word of the superblock at `off`, as get_superblock copies it. */
    method SuperField(off: nat) returns (v: nat)
      requires Shaped(disk[..]) && off + 4 <= SUPERBLOCK_LEN
      ensures v == U32At(disk[0], BOOTCODE_LEN + off)
    {
      var b := ReadBlock(0);
      v := U32At(b[BOOTCODE_LEN..BOOTCODE_LEN + SUPERBLOCK_LEN], off);
    }

    /** validate_efs, with the bytes of the ident as signed characters. */
    method Validate() returns (r: int)
      requires Shaped(disk[..])
      ensures r == if ValidateEfs(disk[..]) then 0 else -1
    {
      var b := ReadBlock(0);
      var ident := b[BOOTCODE_LEN..BOOTCODE_LEN + 4];
      if ident[0] != 0xFF && ident[1] != 69 && ident[2] != 102 && ident[3] != 83 { return -1; }
      return 0;
    }

    /** mark_block_used: 1 if the block is used already, else 0. */
    method MarkBlockUsed(b: nat) returns (r: int)
      requires Formatted(disk[..]) && b < MAX_DATA
      modifies disk
      ensures r == if Used(old(disk[..]), b) then 1 else 0
      ensures disk[..] == if Used(old(disk[..]), b) then old(disk[..]) else Marked(old(disk[..]), b)
    {
      var block := ReadBlock(0);
      var i := MAP_AT + b / 8;
      if Bit(block[i], 7 - b % 8) { return 1; }
      SetBitFits(block[i], 7 - b % 8, 8);
      MaskByte();
      block := block[i := SetBit(block[i], 7 - b % 8)];
      var ok := WriteBlock(0, block);
      return 0;
    }

    method CheckBlock(b: nat) returns (r: int)
      requires Formatted(disk[..]) && b < MAX_DATA
      ensures r == if Used(disk[..], b) then 1 else 0
    {
      var block := ReadBlock(0);
      return if Bit(block[MAP_AT + b / 8], 7 - b % 8) then 1 else 0;
    }

    /** find_free_block: the least free block, 0 when there is none. */
    method FindFreeBlock() returns (b: nat)
      requires Formatted(disk[..])
      ensures b == FindFree(disk[..])
    {
      var count := SuperField(16);
      for i := 0 to count
        invariant FreeFrom(disk[..], i) == FreeFrom(disk[..], 0)
      {
        var used := CheckBlock(i);
        if used == 0 { return i; }
      }
      return 0;
    }

    method DataToReal(b: nat) returns (r: nat)
      requires Formatted(disk[..])
      ensures r == b + DATA_AT
    {
      var off := SuperField(12);
      return b + off;
    }

    // -------------------------------------------------------------- inodes

    method ReadInode(n: nat) returns (ino: Inode)
      requires Formatted(disk[..]) && n < INODES
      ensures ino == GetInode(disk[..], n)
    {
      var off := SuperField(4);
      var block := ReadBlock(n / INODES_PER_BLOCK + off);
      var i := n % INODES_PER_BLOCK * INODE_LEN;
      return block[i..i + INODE_LEN];
    }

    method WriteInode(n: nat, ino: Inode)
      requires Formatted(disk[..]) && n < INODES
      modifies disk
      ensures disk[..] == SetInode(old(disk[..]), n, ino)
    {
      var off := SuperField(4);
      var block := ReadBlock(n / INODES_PER_BLOCK + off);
      var i := n % INODES_PER_BLOCK * INODE_LEN;
      block := block[..i] + ino + block[i + INODE_LEN..];
      var ok := WriteBlock(n / INODES_PER_BLOCK + off, block);
    }

    /** The direct case of get_logical_block. */
    method DirectBlock(ino: Inode, k: nat) returns (b: nat)
      requires Formatted(disk[..]) && k < DIRECT
      ensures b == LogicalBlock(disk[..], ino, k)
    {
      b := DataToReal(Ptr(ino, k));
    }

    /** The part of add_block_pointer that gives an inode its indirect block. */
    method AddIndirect(n: nat, ino: Inode) returns (ok: bool, ino': Inode)
      requires Formatted(disk[..]) && n < INODES && ino == GetInode(disk[..], n) && Indirect(ino) == 0
      modifies disk
      ensures (disk[..], ok) == NeedIndirect(old(disk[..]), n)
      ensures ok ==> 0 < FindFree(old(disk[..])) < MAX_DATA && ino' == WithIndirect(ino, FindFree(old(disk[..])))
    {
      hide Used, Marked, SetInode, GetInode;
      ghost var d := disk[..];
      ino' := ino;
      var tmp := FindFreeBlock();
      if tmp == 0 { return false, ino'; }
      MarkedBits(d, tmp);
      var _ := MarkBlockUsed(tmp);
      ghost var d1 := disk[..];
      ino' := WithIndirect(ino, tmp);
      GetSet(d1, n, ino');
      WriteInode(n, ino');
      var at := DataToReal(Indirect(ino'));
      Fields(ino, 0, tmp);
      var _ := WriteBlock(at, Zeros(BLOCK_SIZE));
      return true, ino';
    }

    /** add_block_pointer; false stands for its -1. */
    method AddBlockPointer(n: nat, b: nat) returns (ok: bool)
      requires PtrInv(disk[..]) && n < INODES
      requires 0 < b < DataCount(disk[..]) && Used(disk[..], b) && Unreferenced(disk[..], b)
      modifies disk
      ensures (disk[..], ok) == AddPointer(old(disk[..]), n, b)
    {
      hide Unreferenced, Used, SetInode, NeedIndirect, GetInode;
      ghost var d := disk[..];
      var ino := ReadInode(n);
      var next := Size(ino) / BLOCK_SIZE;
      if next <= 4 {
        ino := WithPtr(ino, next, b);
        WriteInode(n, ino);
      } else if next <= POINTERS {
        NeedIndirectRefs(d, n, b);
        IndirectInode(d, n);
        if Indirect(ino) == 0 {
          ok, ino := AddIndirect(n, ino);
          if !ok { return false; }
        }
        assert RefOk(disk[..], n, INDIRECT);
        var at := DataToReal(Indirect(ino));
        var block := ReadBlock(at);
        block := PutU32(block, 4 * (next - DIRECT), b);
        var _ := WriteBlock(at, block);
      }
      return true;
    }

    // ---------------------------------------------------------------- the directory

    /** find_file */
    method FindFile(s: seq<byte>, ghost names: seq<seq<byte>>) returns (found: bool, n: nat)
      requires Dir(disk[..], names)
      ensures EfsDir.FindFile(disk[..], s) == if found then Some(n) else None
    {
      hide PtrInv, StrnEq, GetInode, Dir;
      found, n := false, 0;
      DirNamed(disk[..], names);
      RootPlace(disk[..], names);
      var root := ReadInode(0);
      var last := Size(root) / BLOCK_SIZE;
      ghost var blk := disk[DATA_AT];
      for i := 0 to last + 1
        invariant i > 0 ==> FindEntry(blk, s, 0) == ENTRIES
      {
        var at := DirectBlock(root, i);
        var block := ReadBlock(at);
        assert block == blk;
        var j := 0;
        ghost var e := 0;
        while j < BLOCK_SIZE
          invariant j == ENTRY_SIZE * e && e <= ENTRIES
          invariant FindEntry(blk, s, 0) == FindEntry(blk, s, e)
          decreases BLOCK_SIZE - j
        {
          if StrnEq(block[j..j + NAME_SIZE], s, NAME_SIZE) {
            return true, U32At(block, j + NAME_SIZE);
          }
          j, e := j + ENTRY_SIZE, e + 1;
        }
      }
    }

    /** add_file */
    method AddFile(s: seq<byte>, n: nat, ghost names: seq<seq<byte>>)
      requires Dir(disk[..], names) && |names| < ENTRIES
      modifies disk
      ensures var d := old(disk[..]);
        && Size(GetInode(d, 0)) + ENTRY_SIZE <= BLOCK_SIZE && LogicalBlock(d, GetInode(d, 0), 0) == DATA_AT
        && disk[..] == EfsDir.AddFile(d, s, n)
    {
      hide PtrInv, StrnEq, GetInode, SetInode;
      ghost var d := disk[..];
      RootPlace(d, names);
      var root := ReadInode(0);
      var at := DirectBlock(root, Size(root) / BLOCK_SIZE);
      var block := ReadBlock(at);
      var off := Size(root) % BLOCK_SIZE;
      block := block[..off] + StrnCpy(s, NAME_SIZE - 1) + block[off + NAME_SIZE - 1..];
      block := PutU32(block, off + NAME_SIZE, n);
      var _ := WriteBlock(at, block);
      root := WithSize(root, Size(root) + ENTRY_SIZE);
      WriteInode(0, root);
    }

    /** new_file; false stands for its -1. */
    method NewFile(s: seq<byte>, ghost names: seq<seq<byte>>) returns (ok: bool)
      requires Dir(disk[..], names) && NoNul(s)
      modifies disk
      ensures (disk[..], ok) == EfsDir.NewFile(old(disk[..]), names, s)
    {
      hide PtrInv, StrnEq, GetInode, SetInode, EfsDir.AddFile, Dir;
      ghost var d := disk[..];
      DirNamed(d, names);
      FindFileAny(d, names, s);
      var count := SuperField(8);
      var found, i := FindFile(s, names);
      if found {
        var ino := ReadInode(i);
        ino := WithSize(ino, 0);
        WriteInode(i, ino);
        return true;
      }
      FreeInodeIs(d, names);
      var ino := Zeros(INODE_LEN);
      i := 0;
      while i < count
        invariant i <= count && disk[..] == d
        invariant FreeInode(d, 0) == FreeInode(d, i)
      {
        ino := ReadInode(i);
        if Refs(ino) == 0 { break; }
        i := i + 1;
      }
      if i >= count { return false; }
      RootPlace(d, names);
      AddFileFormatted(d, s, i);
      ino := WithRefs(ino, 1);
      AddFile(s, i, names);
      WriteInode(i, ino);
      return true;
    }

    // ---------------------------------------------------------------- files

    /** falloc_block; its -1 is an unsigned number. */
    method FallocBlock(s: seq<byte>, ghost names: seq<seq<byte>>) returns (at: nat)
      requires Dir(disk[..], names) && NoNul(s)
      modifies disk
      ensures match EfsDir.FindFile(old(disk[..]), s)
        case None => at == 0xFFFF_FFFF && disk[..] == old(disk[..])
        case Some(n) =>
          && PtrInv(old(disk[..])) && n < INODES
          && var (d', r) := Falloc(old(disk[..]), n);
             disk[..] == d' && at == match r { case Some(v) => v case None => 0xFFFF_FFFF }
    {
      hide PtrInv, Dir, Used, Marked, AddPointer, Unreferenced, Quiet;
      ghost var d := disk[..];
      DirFacts(d, names);
      FindFileAny(d, names, s);
      var found, n := FindFile(s, names);
      if !found { return NO_BLOCK; }
      var b := FindFreeBlock();
      if b == 0 { return NO_BLOCK; }
      MarkedFree(d, b);
      PtrFormatted(Marked(d, b));
      var _ := MarkBlockUsed(b);
      var ok := AddBlockPointer(n, b);
      PointerGained(Marked(d, b), n, b);
      PtrFormatted(disk[..]);
      if !ok { return NO_BLOCK; }
      at := DataToReal(b);
    }

    /** One pass of the loop of read_write; false where it returns -1. */
    method AppendBlock(s: seq<byte>, rest: seq<byte>, ghost names: seq<seq<byte>>, ghost n: nat) returns (ok: bool)
      requires Dir(disk[..], names) && LegalName(s) && PtrInv(disk[..]) && Formatted(disk[..])
      requires EfsDir.FindFile(disk[..], s) == Some(n) && 0 < n < |names| <= INODES
      requires Size(GetInode(disk[..], n)) + |rest| < WORD32
      modifies disk
      ensures disk[..] == Append(old(disk[..]), n, rest).0 && (ok <==> Append(old(disk[..]), n, rest).1.Some?)
    {
      hide PtrInv, Dir, EfsDir.FindFile, GetInode, SetInode, Append, Falloc, Quiet, Size;
      ghost var c := disk[..];
      var buf := Buffer(rest);
      AppendIs(c, n, rest);
      FallocEffect(c, n);
      var at := FallocBlock(s, names);
      if at == 0 { return false; }
      ok := WriteBlock(at, buf);
      if !ok { return false; }
      FilledDir(c, names, n, rest, s);
      var found, m := FindFile(s, names);
      if !found { return false; }
      var ino := ReadInode(m);
      ino := WithSize(ino, (Size(ino) + ChunkLen(rest)) % WORD32);
      WriteInode(m, ino);
      return true;
    }

    /** read_write, for the source's name without its directories, which is cut to 11 characters, and what is
        in it. */
    method ReadWrite(source: seq<byte>, data: seq<byte>, ghost names: seq<seq<byte>>) returns (ok: bool)
      requires Dir(disk[..], names) && FileName(Cut(source)) && |data| < WORD32
      modifies disk
      ensures match EfsWrite.ReadWrite(old(disk[..]), names, Cut(source), data)
        case None => !ok && disk[..] == old(disk[..])
        case Some(w) => disk[..] == w.d && ok == w.ok
    {
      hide PtrInv, Dir, EfsDir.NewFile, EfsDir.FindFile, GetInode, Append, Started, Size, OthersKept, OwnKept, Quiet;
      ghost var d := disk[..];
      var s := Cut(source);
      NewFileEffect(d, names, s);
      ok := NewFile(s, names);
      if !ok { return false; }
      StartedWrites(d, names, s, data);
      ghost var d1, all := disk[..], With(names, s);
      DirFacts(d1, all);
      ghost var n := EfsDir.FindFile(d1, s).value;
      StartedSize(d, d1, names, s, n);
      var rest := data;
      while rest != []
        invariant Dir(disk[..], all) && PtrInv(disk[..]) && Formatted(disk[..]) && n < INODES
        invariant EfsDir.FindFile(disk[..], s) == Some(n)
        invariant |rest| <= |data| && Size(GetInode(disk[..], n)) == |data| - |rest|
        invariant WriteAll(d1, all, n, data).d == WriteAll(disk[..], all, n, rest).d
        invariant WriteAll(d1, all, n, data).ok == WriteAll(disk[..], all, n, rest).ok
        decreases |rest|
      {
        ghost var c := disk[..];
        AppendEffect(c, all, n, rest);
        ok := AppendBlock(s, rest, all, n);
        if !ok { return false; }
        DirFacts(disk[..], all);
        FoundStill(c, disk[..], n, s);
        rest := rest[ChunkLen(rest)..];
      }
      return true;
    }

    // ---------------------------------------------------------------- a new disk

    /** mkefs: create_superblock, create_inodeblocks and create_rootdir. */
    method Mkefs()
      requires Raw(disk[..])
      modifies disk
      ensures disk[..] == Made(old(disk[..]))
    {
      hide SuperBlock, RootBlock, SetInode, Marked, Used;
      ghost var d := disk[..];
      ClearedFormatted(d);
      var ok := WriteBlock(0, SuperBlock(disk.Length));
      ghost var d0 := disk[..];
      for i := 1 to DATA_AT
        invariant disk[..] == ClearedTo(d0, i)
      {
        ok := WriteBlock(i, Zeros(BLOCK_SIZE));
      }
      ok := WriteBlock(DATA_AT, RootBlock());
      ClearedAll(d);
      var root := WithRefs(WithSize(Zeros(INODE_LEN), ENTRY_SIZE), 1);
      SetKeepsRefs(disk[..], 0, root);
      WriteInode(0, root);
      ClearedUnused(d, 0);
      var _ := MarkBlockUsed(0);
    }
  }

  /** What falloc_block returns when it fails: -1 in an unsigned word. */
  const NO_BLOCK: nat := 0xFFFF_FFFF

  /** The blocks of the inode table before the i-th cleared. */
  function ClearedTo(d: Disk, i: nat): (r: Disk)
    requires 1 <= i <= DATA_AT < |d|
    ensures |r| == |d|
  {
    if i == 1 then d else ClearedTo(d, i - 1)[i - 1 := Zeros(BLOCK_SIZE)]
  }

  lemma ClearedAll(d: Disk)
    requires |d| > DATA_AT
    ensures ClearedTo(d[0 := SuperBlock(|d|)], DATA_AT)[DATA_AT := RootBlock()] == Cleared(d)
  {
    hide SuperBlock, RootBlock;
    var c := d[0 := SuperBlock(|d|)];
    assert ClearedTo(c, 2) == c[1 := Zeros(BLOCK_SIZE)];
    assert ClearedTo(c, 4) == ClearedTo(c, 3)[3 := Zeros(BLOCK_SIZE)];
  }

  lemma PtrFormatted(d: Disk)
    requires PtrInv(d)
    ensures Formatted(d)
  {
  }

  lemma StartedSize(d: Disk, d1: Disk, names: seq<seq<byte>>, s: seq<byte>, n: nat)
    requires Started(d, d1, names, s, n)
    ensures n < INODES && Size(GetInode(d1, n)) == 0
  {
  }

  /** Between the write of the block and that of the size the directory is in order, too. */
  lemma FilledDir(d: Disk, names: seq<seq<byte>>, n: nat, data: seq<byte>, s: seq<byte>)
    requires Dir(d, names) && PtrInv(d) && 0 < n < |names| <= INODES && Falloc(d, n).1.Some?
    ensures var (d1, at) := Falloc(d, n);
      && at.value < |d1| && var d2 := d1[at.value := Buffer(data)];
         Dir(d2, names) && Size(GetInode(d2, n)) == Size(GetInode(d, n))
         && EfsDir.FindFile(d2, s) == EfsDir.FindFile(d, s)
  {
    hide PtrInv, Dir, Falloc, Used, Ref, GetInode, Buffer;
    FallocEffect(d, n);
    var (d1, at) := Falloc(d, n);
    FilledEffect(d, d1, n, Size(GetInode(d, n)) / BLOCK_SIZE, at.value, Buffer(data));
    DirKept(d, d1[at.value := Buffer(data)], names, n);
  }

  lemma FoundStill(d: Disk, d': Disk, n: nat, s: seq<byte>)
    requires OthersKept(d, d', n)
    ensures EfsDir.FindFile(d', s) == EfsDir.FindFile(d, s)
  {
  }

  lemma DirNamed(d: Disk, names: seq<seq<byte>>)
    requires Dir(d, names)
    ensures Formatted(d) && |names| <= ENTRIES && InodeCount(d) == INODES
  {
  }

  /** The inode in the buffer and on the disk agree after the indirect block is there. */
  lemma IndirectInode(d: Disk, n: nat)
    requires PtrInv(d) && n < INODES && FindFree(d) < MAX_DATA
    ensures var (d', ok) := NeedIndirect(d, n); var ino := GetInode(d, n);
      && (Indirect(ino) != 0 ==> d' == d && ok)
      && (Indirect(ino) == 0 && ok ==>
           Formatted(d') && GetInode(d', n) == WithIndirect(ino, FindFree(d))
           && Indirect(GetInode(d', n)) == FindFree(d))
  {
    hide Used, Marked, GetInode, SetInode;
    var ino, t := GetInode(d, n), FindFree(d);
    if Indirect(ino) == 0 && t != 0 {
      MarkedBits(d, t);
      GetSet(Marked(d, t), n, WithIndirect(ino, t));
      Fields(ino, 0, t);
      var d2 := SetInode(Marked(d, t), n, WithIndirect(ino, t));
      DataKeepsRefs(d2, t, Zeros(BLOCK_SIZE));
      assert NeedIndirect(d, n).0 == d2[DATA_AT + t := Zeros(BLOCK_SIZE)];
      assert GetInode(d2[DATA_AT + t := Zeros(BLOCK_SIZE)], n) == GetInode(d2, n);
    }
  }
}
