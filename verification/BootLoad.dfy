/** What the boot loader brings into memory (boot/boot2.S, from kern_found on): the image of the kernel grows
    towards the loader itself and comes to lie on it. */
module BootLoad {
  import opened Bytes
  import opened EfsLayout
  import opened EfsAlloc
  import opened EfsDir
  import opened EfsWrite
  import opened Boot

  // ---------------------------------------------------------------- memory

  /** KERNEL_ADDRESS: where block 0 of the file goes. */
  const IMAGE: nat := 0x500
  /** Where the loader is, and in it the words that read_sector divides by. */
  const LOADER: nat := 0x9000
  const SECTORS_AT: nat := 0x9003
  const HEADS_AT: nat := 0x9005
  /** The memory that 64 blocks reach. */
  const MEMORY: nat := 0x1_0500

  type Memory = m: seq<byte> | |m| == MEMORY witness Zeros(MEMORY)

  function Place(k: nat): nat { IMAGE + BLOCK_SIZE * k }

  function Placed(m: Memory, k: nat, b: Block): (r: Memory)
    requires k < 64 && |b| == BLOCK_SIZE
    ensures forall x :: 0 <= x < Place(k) ==> r[x] == m[x]
    ensures forall x :: Place(k) + BLOCK_SIZE <= x < MEMORY ==> r[x] == m[x]
    ensures r[Place(k)..Place(k) + BLOCK_SIZE] == b
  {
    m[..Place(k)] + b + m[Place(k) + BLOCK_SIZE..]
  }

  /** The blocks before block `k` have reached the loader. */
  predicate Reached(k: nat) { Place(k) > LOADER }

  /** Block 33 is the last that stays off the loader.  Block 34 goes over the geometry of the disk, from 0x9003 to the
      drive number at 0x9009, but no instruction; block 35 goes over the first instruction behind the loader's strings
      and input buffers, at 0x9121. */
  lemma WhatIsReached(k: nat)
    ensures Place(k) == 0x500 + 1024 * k
    ensures Place(k) + 1024 <= 0x9000 <==> k <= 33
    ensures Reached(k) <==> k >= 35
    ensures Place(k) <= 0x9003 && 0x9009 < Place(k) + 1024 <==> k == 34
    ensures Place(k) + 1024 <= 0x9121 <==> k <= 34
    ensures Place(k) <= 0x9121 < Place(k) + 1024 <==> k == 35
  {
  }

  /** One of the words that read_sector divides by is 0. */
  predicate NoGeometry(m: Memory) { U16At(m, SECTORS_AT) == 0 || U16At(m, HEADS_AT) == 0 }

  // ---------------------------------------------------------------- read_kern_loop

  /** How reading goes: well, to the jump to `error`, to a division by 0, or on with bytes of the file in
      place of the loader's geometry and, from block 35 on, of its instructions. */
  datatype Status = Well | Failed | Fault | Astray

  /** Block `i` of the file can be read. */
  predicate Readable(d: Disk, ino: Inode, i: nat)
    requires Shaped(d)
  {
    GetBnum(d, ino, i).Some? && Block15(GetBnum(d, ino, i).value) < |d|
  }

  function BlockOf(d: Disk, ino: Inode, i: nat): (b: Block)
    requires Shaped(d) && Readable(d, ino, i)
    ensures |b| == BLOCK_SIZE
  {
    d[Block15(GetBnum(d, ino, i).value)]
  }

  /** read_kern_loop from block `k` to block `last`, both included, and memory when it ends. */
  function LoadFrom(d: Disk, m: Memory, ino: Inode, k: nat, last: nat): (r: (Status, Memory))
    requires Shaped(d) && k <= last < 64
    ensures forall x :: 0 <= x < Place(k) ==> r.1[x] == m[x]
    ensures r.0 == Fault ==> NoGeometry(r.1)
    ensures r.0 == Astray ==> !NoGeometry(r.1)
    decreases last - k
  {
    if Reached(k) then (if NoGeometry(m) then Fault else Astray, m)
    else if !Readable(d, ino, k) then (Failed, m)
    else
      var m1 := Placed(m, k, BlockOf(d, ino, k));
      if k == last then (Well, m1) else LoadFrom(d, m1, ino, k + 1, last)
  }

  /** The number of the last block, from the low half of the size. */
  function LastBlock(ino: Inode): (n: nat)
    ensures n < 64
  {
    U16At(ino, 0) / BLOCK_SIZE
  }

  function Load(d: Disk, m: Memory, ino: Inode): (Status, Memory)
    requires Shaped(d)
  {
    LoadFrom(d, m, ino, 0, LastBlock(ino))
  }

  /** The last block that is read before the image has reached the loader. */
  function Top(last: nat): nat { if last < 34 then last else 34 }

  /** A read fails exactly when a block up to there cannot be read; otherwise the loop comes to its end
      exactly when there is no block behind it. */
  lemma {:induction false} LoadFromStatus(d: Disk, m: Memory, ino: Inode, k: nat, last: nat)
    requires Shaped(d) && k <= last < 64
    ensures LoadFrom(d, m, ino, k, last).0 != Failed <==> forall i :: k <= i <= Top(last) ==> Readable(d, ino, i)
    ensures LoadFrom(d, m, ino, k, last).0 == Well ==> last <= 34
    ensures LoadFrom(d, m, ino, k, last).0 == Fault || LoadFrom(d, m, ino, k, last).0 == Astray ==> last > 34
    decreases last - k
  {
    hide Readable, BlockOf, Placed, NoGeometry;
    WhatIsReached(k);
    if !Reached(k) && Readable(d, ino, k) && k < last {
      LoadFromStatus(d, Placed(m, k, BlockOf(d, ino, k)), ino, k + 1, last);
    }
  }

  /** What is loaded is block after block. */
  lemma {:induction false} LoadFromBlocks(d: Disk, m: Memory, ino: Inode, k: nat, last: nat, i: nat)
    requires Shaped(d) && k <= i <= Top(last) && last < 64 && LoadFrom(d, m, ino, k, last).0 != Failed
    ensures Readable(d, ino, i)
    ensures LoadFrom(d, m, ino, k, last).1[Place(i)..Place(i) + BLOCK_SIZE] == BlockOf(d, ino, i)
    decreases last - k
  {
    hide Readable, BlockOf, Placed, NoGeometry;
    WhatIsReached(k);
    LoadFromStatus(d, m, ino, k, last);
    var m1 := Placed(m, k, BlockOf(d, ino, k));
    if k < last {
      var r := LoadFrom(d, m1, ino, k + 1, last).1;
      if i == k {
        assert r[Place(i)..Place(i) + BLOCK_SIZE] == m1[Place(i)..Place(i) + BLOCK_SIZE];
      } else {
        LoadFromBlocks(d, m1, ino, k + 1, last, i);
      }
    }
  }

  // ---------------------------------------------------------------- a stored file

  /** The one case in which the loader reads beyond the file and off the disk: a file of five full blocks
      without an indirect block, on a disk of at most 51 blocks. */
  predicate ReadsOff(d: Disk, n: nat, size: nat)
    requires Formatted(d) && n < INODES
  {
    size == DIRECT * BLOCK_SIZE && Ref(d, n, INDIRECT) == 0 && |d| <= DATA_AT + DOT as nat
  }

  lemma BlocksCover(size: nat, i: nat)
    ensures i < size / BLOCK_SIZE ==> i < Blocks(size)
    ensures i < Blocks(size) <==> i * BLOCK_SIZE < size
    ensures Blocks(size) <= i <= size / BLOCK_SIZE ==> i == size / BLOCK_SIZE == Blocks(size) && size % BLOCK_SIZE == 0
  {
  }

  /** The loader can read every block of a stored file that it goes through, except in the case above. */
  lemma EachBlockReadable(d: Disk, w: Written, names: seq<seq<byte>>, s: seq<byte>, data: seq<byte>, n: nat, i: nat)
    requires Stored(d, w, names, s, data, n) && w.ok && i < 64 && i <= |data| / BLOCK_SIZE
    ensures Readable(w.d, GetInode(w.d, n), i) <==> !(i == DIRECT && ReadsOff(w.d, n, |data|))
  {
    hide Dir, FilesKept, FindFile, Ref, PtrInv, GetBnum, GetInode;
    DirFacts(w.d, With(names, s));
    BlocksCover(|data|, i);
    if i < Blocks(|data|) {
      ReadsBack(d, w, names, s, data, n, i);
    } else if i < DIRECT || Ref(w.d, n, INDIRECT) != 0 {
      GetBnumAgrees(w.d, n, i);
    } else {
      if i > DIRECT {
        assert BlockHeld(w.d, n, 0, w, data, DIRECT);
        EntryNeedsIndirect(w.d, n, DIRECT);
        assert false;
      }
      GetBnumNoIndirect(w.d, With(names, s), n);
    }
  }

  /** The bytes that the loader goes through, and what the low half of a size makes of a longer file. */
  lemma LastOf(ino: Inode)
    ensures var size := Size(ino); var last := LastBlock(ino);
      && last == size % WORD16 / BLOCK_SIZE <= size / BLOCK_SIZE && (last > 34 <==> Overruns(size))
      && (size < WORD16 ==> last == size / BLOCK_SIZE)
      && (size >= WORD16 ==> (last + 1) * BLOCK_SIZE < size && size > DIRECT * BLOCK_SIZE)
  {
    LowHalf(ino, 0);
    Halves(Size(ino));
  }

  lemma Halves(size: nat)
    ensures size % WORD16 <= size && (size < WORD16 ==> size % WORD16 == size)
    ensures size >= WORD16 ==> size % WORD16 + BLOCK_SIZE <= size
  {
  }

  /** A file of less than 35 blocks leaves the loader's instructions alone. */
  const LIMIT: nat := 35 * BLOCK_SIZE

  /** Where the words that read_sector divides by are in a file that lies on the loader. */
  const SECTORS_IN: nat := SECTORS_AT - IMAGE
  const HEADS_IN: nat := HEADS_AT - IMAGE

  /** What the loop has brought into memory. */
  function Image(m: Memory, last: nat): seq<byte>
    requires last < 64
  {
    m[IMAGE..Place(last + 1)]
  }

  /** The low half of the size is that of a file that reaches the loader's instructions. */
  predicate Overruns(size: nat): (b: bool)
    ensures b ==> size >= LIMIT
    ensures size < WORD16 ==> (b <==> size >= LIMIT)
  {
    Halves(size);
    size % WORD16 >= LIMIT
  }

  /** The loop over any stored file, on any memory.  It ends in a failed read in the one case above.  It
      ends well exactly when the image does not reach the loader's instructions, by the low half of the
      size.  Otherwise the loader's geometry is bytes of the file, by which it divides.  The data is in
      memory in the end exactly when the file has less than 35 blocks. */
  lemma LoadsFile(d: Disk, w: Written, names: seq<seq<byte>>, s: seq<byte>, data: seq<byte>, n: nat, m: Memory)
    requires Stored(d, w, names, s, data, n) && w.ok
    ensures var ino := GetInode(w.d, n); var (status, m') := Load(w.d, m, ino);
      && (status == Failed <==> ReadsOff(w.d, n, |data|))
      && (status == Well <==> !ReadsOff(w.d, n, |data|) && !Overruns(|data|))
      && (status == Fault <==> Overruns(|data|) && (U16At(data, 0x8B03) == 0 || U16At(data, 0x8B05) == 0))
      && (Overruns(|data|) ==> m'[IMAGE..IMAGE + LIMIT] == data[..LIMIT])
      && (status == Well && data <= Image(m', LastBlock(ino)) <==> |data| < LIMIT && !ReadsOff(w.d, n, |data|))
      && (status != Failed && |data| < LIMIT ==> ZerosBehind(m', data))
  {
    hide Dir, FilesKept, FindFile, Ref, PtrInv, GetInode, LoadFrom, Readable, AllHeld, NoGeometry;
    DirFacts(w.d, With(names, s));
    var ino := GetInode(w.d, n);
    var last := LastBlock(ino);
    LastOf(ino);
    StatusOfStored(d, w, names, s, data, n, m);
    var m' := Load(w.d, m, ino).1;
    if Load(w.d, m, ino).0 != Failed {
      LoadedIsData(d, w, names, s, data, n, m);
      if last > 34 {
        OverTheLoader(m', data);
      } else {
        ImageIsData(m', last, data);
        if |data| < LIMIT { RestIsZeros(m', last, data); }
      }
    }
  }

  /** Byte `x` of the image is that of the data, or 0 behind its end. */
  predicate ByteIn(m: Memory, data: seq<byte>, x: nat)
  {
    IMAGE + x < MEMORY && m[IMAGE + x] == if x < |data| then data[x] else 0
  }

  /** The rest of the last block of the data is zeros. */
  ghost predicate ZerosBehind(m: Memory, data: seq<byte>)
  {
    forall y :: 0x500 + |data| <= y < 0x500 + 1024 * Blocks(|data|) && y < MEMORY ==> m[y] == 0
  }

  lemma RestIsZeros(m: Memory, last: nat, data: seq<byte>)
    requires last == |data| / BLOCK_SIZE <= 34
    requires forall x :: 0 <= x < BLOCK_SIZE * Blocks(|data|) && x < BLOCK_SIZE * (last + 1) ==> ByteIn(m, data, x)
    ensures ZerosBehind(m, data)
  {
    forall y | 0x500 + |data| <= y < 0x500 + 1024 * Blocks(|data|) && y < MEMORY ensures m[y] == 0 {
      assert ByteIn(m, data, y - IMAGE);
    }
  }

  lemma OverTheLoader(m: Memory, data: seq<byte>)
    requires |data| >= LIMIT && forall x :: 0 <= x < LIMIT ==> ByteIn(m, data, x)
    ensures m[IMAGE..IMAGE + LIMIT] == data[..LIMIT]
    ensures NoGeometry(m) <==> U16At(data, SECTORS_IN) == 0 || U16At(data, HEADS_IN) == 0
  {
    var a, b := m[IMAGE..IMAGE + LIMIT], data[..LIMIT];
    forall x | 0 <= x < LIMIT ensures a[x] == b[x] {
      assert ByteIn(m, data, x);
    }
    assert ByteIn(m, data, SECTORS_IN) && ByteIn(m, data, SECTORS_IN + 1);
    assert ByteIn(m, data, HEADS_IN) && ByteIn(m, data, HEADS_IN + 1);
    assert m[IMAGE + SECTORS_IN] == data[SECTORS_IN] && m[IMAGE + (SECTORS_IN + 1)] == data[SECTORS_IN + 1];
    assert m[IMAGE + HEADS_IN] == data[HEADS_IN] && m[IMAGE + (HEADS_IN + 1)] == data[HEADS_IN + 1];
  }

  lemma ImageIsData(m: Memory, last: nat, data: seq<byte>)
    requires last <= 34 && forall x :: 0 <= x < |data| && x < BLOCK_SIZE * (last + 1) ==> ByteIn(m, data, x)
    ensures data <= Image(m, last) <==> |data| <= BLOCK_SIZE * (last + 1)
  {
    if |data| <= BLOCK_SIZE * (last + 1) {
      forall x | 0 <= x < |data| ensures Image(m, last)[x] == data[x] { assert ByteIn(m, data, x); }
      assert Image(m, last)[..|data|] == data;
    }
  }

  lemma StatusOfStored(d: Disk, w: Written, names: seq<seq<byte>>, s: seq<byte>, data: seq<byte>, n: nat, m: Memory)
    requires Stored(d, w, names, s, data, n) && w.ok
    ensures var ino := GetInode(w.d, n); var (status, m') := Load(w.d, m, ino);
      && (status == Failed <==> ReadsOff(w.d, n, |data|))
      && (status == Well <==> !ReadsOff(w.d, n, |data|) && !Overruns(|data|))
      && (Overruns(|data|) ==> (status == Fault <==> NoGeometry(m')))
  {
    hide Dir, FilesKept, FindFile, Ref, PtrInv, GetInode, LoadFrom, Readable, AllHeld, NoGeometry;
    DirFacts(w.d, With(names, s));
    var ino := GetInode(w.d, n);
    var last := LastBlock(ino);
    LastOf(ino);
    forall i | 0 <= i <= Top(last)
      ensures Readable(w.d, ino, i) <==> !(i == DIRECT && ReadsOff(w.d, n, |data|))
    {
      EachBlockReadable(d, w, names, s, data, n, i);
    }
    LoadFromStatus(w.d, m, ino, 0, last);
    if ReadsOff(w.d, n, |data|) {
      assert last == DIRECT;
      assert !Readable(w.d, ino, DIRECT);
    }
  }

  /** What has been loaded is the data, as far as it goes and the loop has come, and zeros to the end of its last
      block. */
  lemma LoadedIsData(d: Disk, w: Written, names: seq<seq<byte>>, s: seq<byte>, data: seq<byte>, n: nat, m: Memory)
    requires Stored(d, w, names, s, data, n) && w.ok
    requires Load(w.d, m, GetInode(w.d, n)).0 != Failed
    ensures var (status, m') := Load(w.d, m, GetInode(w.d, n));
      forall x :: 0 <= x < BLOCK_SIZE * Blocks(|data|) && x < BLOCK_SIZE * (Top(LastBlock(GetInode(w.d, n))) + 1) ==>
        ByteIn(m', data, x)
  {
    hide Dir, FilesKept, FindFile, Ref, PtrInv, GetBnum, GetInode, LoadFrom, Chunk, Fills;
    DirFacts(w.d, With(names, s));
    var ino := GetInode(w.d, n);
    var last := LastBlock(ino);
    var m' := LoadFrom(w.d, m, ino, 0, last).1;
    forall x | 0 <= x < BLOCK_SIZE * Blocks(|data|) && x < BLOCK_SIZE * (Top(last) + 1)
      ensures ByteIn(m', data, x)
    {
      var i := x / BLOCK_SIZE;
      BlocksCover(|data|, i);
      ReadsBack(d, w, names, s, data, n, i);
      LoadFromBlocks(w.d, m, ino, 0, last, i);
      ByteOf(w.d[w.at[i]], data, x);
      assert m'[Place(i)..Place(i) + BLOCK_SIZE][x % BLOCK_SIZE] == m'[IMAGE + x];
    }
  }

  lemma ByteOf(b: Block, data: seq<byte>, x: nat)
    requires Fills(b, data, x / BLOCK_SIZE)
    ensures b[x % BLOCK_SIZE] == if x < |data| then data[x] else 0
  {
    var i, r := x / BLOCK_SIZE, x % BLOCK_SIZE;
    assert i * 1024 + r == x;
  }

  /** A file of 40000 zero bytes ends in a division by 0. */
  lemma ZerosFault(d: Disk, w: Written, names: seq<seq<byte>>, s: seq<byte>, n: nat, m: Memory)
    requires Stored(d, w, names, s, Zeros(40000), n) && w.ok
    ensures Load(w.d, m, GetInode(w.d, n)).0 == Fault
  {
    hide Stored, Load, GetInode;
    StoredFormatted(d, w, names, s, Zeros(40000), n);
    LoadsFile(d, w, names, s, Zeros(40000), n, m);
  }

  lemma StoredFormatted(d: Disk, w: Written, names: seq<seq<byte>>, s: seq<byte>, data: seq<byte>, n: nat)
    requires Stored(d, w, names, s, data, n)
    ensures Formatted(w.d) && n < INODES
  {
  }
}
