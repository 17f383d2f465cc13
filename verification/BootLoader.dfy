/** The boot loader step by step (boot/boot2.S): sectors are read into buffers, the registers walk through
    them, and the kernel comes to lie in the memory that holds the loader itself. */
module BootLoader {
  import opened Wrappers
  import opened Bytes
  import opened EfsLayout
  import opened EfsAlloc
  import opened EfsDir
  import opened EfsWrite
  import opened Boot
  import opened BootLoad
  import opened BootFind

  const SECTOR: nat := 512
  /** How much of the directory's inode is copied, in 9 words. */
  const ROOT_BYTES: nat := 18

  function Sector(d: Disk, i: nat): (s: seq<byte>)
    requires Shaped(d) && i < 2 * |d|
    ensures |s| == SECTOR
  {
    d[i / 2][SECTOR * (i % 2)..SECTOR * (i % 2) + SECTOR]
  }

  lemma Doubled(at: nat)
    requires at < WORD16
    ensures 2 * at % WORD16 == 2 * Block15(at)
  {
  }

  lemma SectorsOf(d: Disk, b: nat)
    requires Shaped(d) && b < |d|
    ensures Sector(d, 2 * b) + Sector(d, 2 * b + 1) == d[b]
  {
    assert Sector(d, 2 * b) == d[b][..SECTOR] && Sector(d, 2 * b + 1) == d[b][SECTOR..];
  }

  class Loader {
    const disk: Disk
    /** The first 64 KB or so, where the image and the loader lie. */
    const mem: array<byte>
    /** Whether bytes of the file lie on the loader. */
    var over: bool
    /** efs_superblock, efs_inode and efs_buffer. */
    var superblock: seq<byte>
    var inode: seq<byte>
    var buffer: seq<byte>

    ghost predicate Valid()
      reads this, mem
    {
      && Shaped(disk) && superblock == Sector(disk, 1)
      && |inode| == INODE_LEN && |buffer| == BLOCK_SIZE
      && mem.Length == MEMORY && (!over ==> !NoGeometry(mem[..]))
    }

    /** The loader in a memory that holds the geometry of the disk. */
    constructor (d: Disk, m: Memory)
      requires Shaped(d) && !NoGeometry(m)
      ensures Valid() && disk == d && mem[..] == m && !over && fresh(mem)
    {
      disk := d;
      mem := new byte[MEMORY](i requires 0 <= i < MEMORY => m[i]);
      over := false;
      superblock := Sector(d, 1);
      inode, buffer := Zeros(INODE_LEN), Zeros(BLOCK_SIZE);
      new;
      assert mem[..] == m;
    }

    /** How a read goes when bytes of the file have taken the place of the geometry. */
    ghost predicate Lapsed(status: Status)
      requires mem.Length == MEMORY
      reads mem
    {
      status == if NoGeometry(mem[..]) then Fault else Astray
    }

    /** read_sector divides by the words of the geometry that it finds in memory. */
    method ReadSector(i: nat) returns (status: Status, s: seq<byte>)
      requires Valid()
      ensures over ==> Lapsed(status)
      ensures !over && i < 2 * |disk| ==> status == Well && s == Sector(disk, i)
      ensures !over && i >= 2 * |disk| ==> status == Failed
    {
      s := [];
      if U16At(mem[..], SECTORS_AT) == 0 { return Fault, s; }
      if U16At(mem[..], HEADS_AT) == 0 { return Fault, s; }
      if over { return Astray, s; }
      if i >= 2 * |disk| { return Failed, s; }
      return Well, Sector(disk, i);
    }

    /** read_fs_block */
    method ReadFsBlock(at: nat) returns (status: Status, b: seq<byte>)
      requires Valid() && at < WORD16
      ensures over ==> Lapsed(status)
      ensures !over && Block15(at) < |disk| ==> status == Well && b == disk[Block15(at)]
      ensures !over && Block15(at) >= |disk| ==> status == Failed
    {
      var i := 2 * at % WORD16;
      Doubled(at);
      if Block15(at) < |disk| { SectorsOf(disk, Block15(at)); }
      var s;
      status, b := ReadSector(i);
      if status != Well { return; }
      status, s := ReadSector(i + 1);
      b := b + s;
    }

    /** get_bnum */
    method GetBnum(k: nat) returns (status: Status, at: nat)
      requires Valid()
      modifies this`buffer
      ensures Valid()
      ensures over && 5 <= k < 261 ==> Lapsed(status)
      ensures !over ==> match Boot.GetBnum(disk, inode, k)
        case Some(v) => status == Well && at == v < WORD16
        case None => status == Failed
    {
      assert forall off :: 0 <= off <= SECTOR - 2 ==> U16At(superblock, off) == U16At(disk[0], BOOTCODE_LEN + off);
      status, at := Well, 0;
      var ax;
      if k < DIRECT {
        ax := U16At(inode, 8 + 4 * k);
      } else if k < INDIR_BLKS {
        ax := (U16At(inode, 0x1C) + U16At(superblock, 0xC)) % WORD16;
        var b;
        status, b := ReadFsBlock(ax);
        if status != Well { return; }
        buffer := b;
        ax := U16At(buffer, 4 * (k - DIRECT));
      } else {
        return Failed, 0;
      }
      at := (ax + U16At(superblock, 12)) % WORD16;
    }

    /** read_inode */
    method ReadInode(n: nat) returns (status: Status)
      requires Valid() && n < WORD16 && !over
      modifies this`buffer, this`inode
      ensures Valid()
      ensures InodePlace(disk, n) < |disk| ==> status == Well && inode == Boot.ReadInode(disk, n)
      ensures InodePlace(disk, n) >= |disk| ==> status == Failed && inode == old(inode)
    {
      assert U16At(superblock, 4) == U16At(disk[0], BOOTCODE_LEN + 4);
      var b;
      status, b := ReadFsBlock((n / INODES_PER_BLOCK + U16At(superblock, 4)) % WORD16);
      if status != Well { return; }
      buffer := b;
      inode := buffer[n % INODES_PER_BLOCK * INODE_LEN..][..INODE_LEN];
    }

    /** The directory's inode, as far as it is copied. */
    method ReadRoot() returns (status: Status)
      requires Valid() && Formatted(disk) && !over
      modifies this`buffer, this`inode
      ensures Valid() && status == Well && inode == GetInode(disk, 0)[..18] + old(inode)[18..]
    {
      assert U16At(superblock, 4) == U16At(disk[0], BOOTCODE_LEN + 4);
      LowHalf(disk[0], BOOTCODE_LEN + 4);
      var b;
      status, b := ReadFsBlock(U16At(superblock, 4));
      if status != Well { return; }
      buffer := b;
      inode := buffer[..ROOT_BYTES] + inode[ROOT_BYTES..];
    }

    /** strcmp: where it leaves the index register, and whether the strings are equal. */
    method Strcmp(si: nat, t: seq<byte>) returns (si': nat, equal: bool)
      requires Valid() && si <= BLOCK_SIZE && NoNul(t)
      ensures equal <==> Matching(buffer[si..], t) == |t| + 1
      ensures si' == si + if equal then |t| else Matching(buffer[si..], t)
    {
      var di := 0;
      si' := si;
      while si' < BLOCK_SIZE
        invariant si <= si' <= BLOCK_SIZE && di == si' - si <= |t|
        invariant Matching(buffer[si..], t) == di + Matching(buffer[si'..], t[di..])
        decreases BLOCK_SIZE - si'
      {
        assert buffer[si'..][1..] == buffer[si' + 1..];
        var bl := if di < |t| then t[di] else 0;
        if buffer[si'] != bl { return si', false; }
        if buffer[si'] == 0 { return si', true; }
        assert t[di..][1..] == t[di + 1..];
        si', di := si' + 1, di + 1;
      }
      return si', false;
    }

    /** find_kernel on a disk that mkefs and writeefs have made. */
    method FindKernel(t: seq<byte>, ghost names: seq<seq<byte>>) returns (r: Search)
      requires Valid() && Dir(disk, names) && LegalName(t) && !over
      modifies this`buffer, this`inode
      ensures Valid() && r == BootFind.FindKernel(disk, t)
    {
      hide Dir, FindFrom, Matching;
      DirNames(disk, names);
      RootBlockRead(disk, names, inode);
      var status := ReadRoot();
      var at, b;
      status, at := GetBnum(0);
      status, b := ReadFsBlock(at);
      buffer := b;
      var si: nat, bp: nat := 0, 0;
      while true
        invariant Valid() && buffer == disk[DATA_AT] && U16At(inode, 0) == U16At(GetInode(disk, 0), 0)
        invariant BootFind.FindKernel(disk, t) == FindFrom(buffer, U16At(inode, 0), t, si, bp)
        decreases BLOCK_SIZE - si
      {
        SearchStep(buffer, U16At(inode, 0), t, si, bp);
        if si == BLOCK_SIZE { return NotFound; }
        if si > BLOCK_SIZE { return Lost; }
        var si', equal := Strcmp(si, t);
        if equal { return FoundAt(buffer, si); }
        if si' == BLOCK_SIZE { return Lost; }
        bp := bp + ENTRY_SIZE;
        if U16At(inode, 0) == bp { return NotFound; }
        si := si' + ENTRY_SIZE;
      }
    }

    /** A block of the file goes to its place in memory, whatever is there. */
    method Store(k: nat, b: seq<byte>)
      requires mem.Length == MEMORY && k < 64 && |b| == BLOCK_SIZE
      modifies mem, this`over
      ensures mem[..] == Placed(old(mem[..]), k, b)
      ensures over <==> old(over) || Place(k) + BLOCK_SIZE > LOADER
      ensures Place(k) + BLOCK_SIZE <= LOADER ==> (NoGeometry(mem[..]) <==> old(NoGeometry(mem[..])))
    {
      forall i | 0 <= i < BLOCK_SIZE { mem[Place(k) + i] := b[i]; }
      over := over || Place(k) + BLOCK_SIZE > LOADER;
      assert mem[..] == Placed(old(mem[..]), k, b);
    }

    /** read_kern_loop: the blocks of the file whose inode is in the buffer. */
    method LoadKernel() returns (status: Status)
      requires Valid() && !over
      modifies this`buffer, this`over, mem
      ensures Valid() && (status, mem[..]) == Load(disk, old(mem[..]), inode)
    {
      hide Boot.GetBnum, NoGeometry, Placed;
      var last := U16At(inode, 0) / BLOCK_SIZE;
      var k := 0;
      while k <= last
        invariant Valid() && k <= last + 1 && (over <==> Reached(k))
        invariant Load(disk, old(mem[..]), inode) ==
          if k <= last then LoadFrom(disk, mem[..], inode, k, last) else (Well, mem[..])
      {
        WhatIsReached(k);
        var at, b;
        status, at := GetBnum(k);
        if status != Well { return; }
        status, b := ReadFsBlock(at);
        if status != Well { return; }
        Store(k, b);
        k := k + 1;
      }
      return Well;
    }

    /** The loader as a whole; None when it finds no file. */
    method Start(t: seq<byte>, ghost names: seq<seq<byte>>) returns (r: Option<Status>)
      requires Valid() && Dir(disk, names) && LegalName(t) && !over
      modifies this, mem
      ensures match Booted(disk, old(mem[..]), t)
        case None => r == None
        case Some(l) => r == Some(l.0) && mem[..] == l.1
    {
      hide Dir, BootFind.FindKernel, Load, NoGeometry;
      var f := FindKernel(t, names);
      if !f.Found? { return None; }
      FoundIsWord(disk, t);
      var status := ReadInode(f.number);
      if status != Well { return Some(status); }
      status := LoadKernel();
      return Some(status);
    }
  }

  /** What the loader comes to for the name `t`; None when it finds no file. */
  function Booted(d: Disk, m: Memory, t: seq<byte>): Option<(Status, Memory)>
    requires Shaped(d) && NoNul(t)
  {
    match BootFind.FindKernel(d, t)
    case Found(n, _) => if InodePlace(d, n) >= |d| then Some((Failed, m)) else Some(Load(d, m, Boot.ReadInode(d, n)))
    case _ => None
  }

  /** For a file that writeefs has stored, and that no earlier name begins like, the loader comes to what
      loading its inode comes to. */
  lemma StoredBoots(d: Disk, w: Written, names: seq<seq<byte>>, s: seq<byte>, data: seq<byte>, n: nat, m: Memory)
    requires Stored(d, w, names, s, data, n) && w.ok
    requires NoneBefore(With(names, s), s, n) && LegalName(s)
    ensures Booted(w.d, m, s) == Some(Load(w.d, m, GetInode(w.d, n)))
    ensures var (status, m') := Booted(w.d, m, s).value;
      status == Well && data <= Image(m', LastBlock(GetInode(w.d, n))) <==> |data| < LIMIT && !ReadsOff(w.d, n, |data|)
  {
    hide Dir, FilesKept, FindFile, Ref, PtrInv, GetInode, AllHeld, BootFind.FindKernel, Boot.ReadInode, Load;
    var all := With(names, s);
    DirNames(w.d, all);
    FindKernelFinds(w.d, all, n);
    ReadInodeAgrees(w.d, n);
    LoadsFile(d, w, names, s, data, n, m);
  }

  /** What the loader comes to, for every directory, every legal name and every memory: the walk over the names gives
      an inode number, right or wrong, and the inode of that number is loaded, if its block is on the disk. */
  lemma BootedIs(d: Disk, names: seq<seq<byte>>, t: seq<byte>, m: Memory)
    requires Dir(d, names) && LegalName(t)
    ensures Formatted(d)
    ensures Booted(d, m, t) == match Walk(names, t, 0, 0)
      case Nowhere => None
      case At(j, o) =>
        var n := OffNumber(names, j, o);
        if j == 63 && o > 2 then None
        else if n / 16 + 1 >= |d| then Some((Failed, m))
        else Some(Load(d, m, d[n / 16 + 1][n % 16 * 64..n % 16 * 64 + 64]))
  {
    hide Dir, BootFind.FindKernel, Load, FoundAt, OffNumber;
    DirNames(d, names);
    FindKernelIs(d, names, t);
    WalkWithin(d, names, t, 0, 0);
    match Walk(names, t, 0, 0)
    case Nowhere =>
    case At(j, o) =>
      FoundOff(d, names, j, o);
      FoundIsWord(d, t);
      if !(j == 63 && o > 2) { InodeOf(d, OffNumber(names, j, o)); }
  }

  lemma InodeOf(d: Disk, n: nat)
    requires Formatted(d) && n < WORD16
    ensures InodePlace(d, n) == n / 16 + 1
    ensures n / 16 + 1 < |d| ==> Boot.ReadInode(d, n) == d[n / 16 + 1][n % 16 * 64..n % 16 * 64 + 64]
  {
    LowHalf(d[0], BOOTCODE_LEN + 4);
  }

  /** The walk goes off by less than the size of a name. */
  lemma {:induction false} WalkWithin(d: Disk, names: seq<seq<byte>>, t: seq<byte>, j: nat, o: nat)
    requires Dir(d, names) && LegalName(t) && j <= |names| <= ENTRIES && o < NAME_SIZE
    ensures Walk(names, t, j, o).At? ==> Walk(names, t, j, o).o < NAME_SIZE
    decreases |names| - j
  {
    hide Dir, Matching, Common;
    if j < |names| && Suffix(names[j], o) != t {
      EntryMatching(d, names, t, j, o);
      WalkWithin(d, names, t, j + 1, o + Common(Suffix(names[j], o), t));
    }
  }

  lemma FoundIsWord(d: Disk, t: seq<byte>)
    requires Shaped(d) && NoNul(t)
    ensures BootFind.FindKernel(d, t).Found? ==> BootFind.FindKernel(d, t).number < WORD16
  {
    FoundFromIsWord(d[DATA_AT], U16At(GetInode(d, 0), 0), t, 0, 0);
  }

  lemma {:induction false} FoundFromIsWord(blk: Block, size: nat, t: seq<byte>, si: nat, searched: nat)
    requires |blk| == BLOCK_SIZE && NoNul(t)
    ensures FindFrom(blk, size, t, si, searched).Found? ==> FindFrom(blk, size, t, si, searched).number < WORD16
    decreases BLOCK_SIZE - si
  {
    if si < BLOCK_SIZE {
      FoundFromIsWord(blk, size, t, si + Matching(blk[si..], t) + ENTRY_SIZE, searched + ENTRY_SIZE);
    }
  }

  /** Block 0 of the root directory is where the loader's own arithmetic says, from what it has of the inode. */
  lemma RootBlockRead(d: Disk, names: seq<seq<byte>>, ino: Inode)
    requires Dir(d, names)
    ensures Boot.GetBnum(d, GetInode(d, 0)[..ROOT_BYTES] + ino[ROOT_BYTES..], 0) == Some(DATA_AT)
    ensures U16At(GetInode(d, 0)[..ROOT_BYTES] + ino[ROOT_BYTES..], 0) == U16At(GetInode(d, 0), 0)
  {
    GetBnumAgrees(d, 0, 0);
    assert Ref(d, 0, 0) == 0;
  }
}
