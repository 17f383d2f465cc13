/** Writing a file (efs/writeefs.c, read_write): block after block until the source is used up. */
module EfsWrite {
  import opened Wrappers
  import opened Words
  import opened SeqLemmas
  import opened Bytes
  import opened EfsLayout
  import opened EfsAlloc
  import opened EfsDir

  /** What the i-th read of the source file puts into the zeroed buffer, and how much it reads. */
  function ChunkLen(data: seq<byte>): (n: nat)
    ensures n <= BLOCK_SIZE && n <= |data| && (data != [] ==> n > 0)
  {
    if |data| < BLOCK_SIZE then |data| else BLOCK_SIZE
  }

  function Buffer(data: seq<byte>): (b: Block)
    ensures |b| == BLOCK_SIZE
  {
    data[..ChunkLen(data)] + Zeros(BLOCK_SIZE - ChunkLen(data))
  }

  /** How many blocks the data takes. */
  function Blocks(n: nat): nat { (n + BLOCK_SIZE - 1) / BLOCK_SIZE }

  /** One pass of the loop: a block for the file, the data in it, and the new size.  When no block could
      be had, the result of falloc_block is not 0 but -1; writing to that place fails, and the loop stops. */
  function Append(d: Disk, n: nat, data: seq<byte>): (Disk, Option<nat>)
    requires PtrInv(d) && n < INODES
  {
    FallocEffect(d, n);
    var (d1, at) := Falloc(d, n);
    if at.None? then (d1, None)
    else
      WriteShaped(d1, at.value, Buffer(data));
      var d2 := d1[at.value := Buffer(data)];
      var ino := GetInode(d2, n);
      (SetInode(d2, n, WithSize(ino, (Size(ino) + ChunkLen(data)) % WORD32)), at)
  }

  lemma WriteShaped(d: Disk, at: nat, b: Block)
    requires Formatted(d) && DATA_AT <= at < |d| && |b| == BLOCK_SIZE
    ensures Formatted(d[at := b])
  {
  }

  /** Every file but `n` is as it was: inode, pointers and the blocks they name. */
  ghost predicate OthersKept(d: Disk, d': Disk, n: nat)
  {
    && Formatted(d) && Formatted(d') && |d'| == |d|
    && d'[DATA_AT] == d[DATA_AT]
    && (forall m :: 0 <= m < INODES && m != n ==> GetInode(d', m) == GetInode(d, m))
    && (forall m, s :: 0 <= m < INODES && 0 <= s < SLOTS && m != n ==> PointerKept(d, d', m, s))
  }

  /** The pointer is the same, and so is what the block it names holds. */
  ghost predicate PointerKept(d: Disk, d': Disk, m: nat, s: nat)
    requires Formatted(d) && Formatted(d') && |d'| == |d| && m < INODES && s < SLOTS
  {
    && Ref(d', m, s) == Ref(d, m, s)
    && (0 < Ref(d, m, s) < DataCount(d) ==> d'[DATA_AT + Ref(d, m, s)] == d[DATA_AT + Ref(d, m, s)])
  }

  lemma OthersKeptOn(d: Disk, d1: Disk, d2: Disk, n: nat)
    requires OthersKept(d, d1, n) && OthersKept(d1, d2, n)
    ensures OthersKept(d, d2, n)
  {
    hide Ref, GetInode;
    forall m, s | 0 <= m < INODES && 0 <= s < SLOTS && m != n ensures PointerKept(d, d2, m, s) {
      assert PointerKept(d, d1, m, s) && PointerKept(d1, d2, m, s);
    }
  }

  /** All pointers of file `n` but its k-th block's and its indirect block's are kept. */
  ghost predicate OwnKept(d: Disk, d': Disk, n: nat, k: nat)
    requires Formatted(d) && Formatted(d') && |d'| == |d| && n < INODES
  {
    forall s :: 0 <= s < SLOTS && s != INDIRECT && s != SlotOf(k) ==> PointerKept(d, d', n, s)
  }

  // ---------------------------------------------------------------- one block

  /** After the block is allocated and filled. */
  lemma FilledEffect(d: Disk, d1: Disk, n: nat, k: nat, at: nat, b: Block)
    requires PtrInv(d) && PtrInv(d1) && n < INODES && DATA_AT < at < |d1| && |b| == BLOCK_SIZE
    requires !Used(d, at - DATA_AT) && Used(d1, at - DATA_AT)
    requires if k <= POINTERS then Gained(d, d1, n, k, at - DATA_AT) else Quiet(d, d1)
    ensures var d2 := d1[at := b];
      && PtrInv(d2) && |d2| == |d|
      && (forall m, s :: 0 <= m < INODES && 0 <= s < SLOTS && (m != n || (s != INDIRECT && s != SlotOf(k))) ==>
           PointerKept(d, d2, m, s))
      && (k <= POINTERS ==> Ref(d2, n, SlotOf(k)) == at - DATA_AT)
      && d2[at] == b && d2[DATA_AT] == d[DATA_AT]
      && (forall m :: 0 <= m < INODES && m != n ==> GetInode(d2, m) == GetInode(d, m))
      && Size(GetInode(d2, n)) == Size(GetInode(d, n)) && Refs(GetInode(d2, n)) == Refs(GetInode(d, n))
  {
    hide Used, GetInode, RefOf;
    var t, d2 := at - DATA_AT, d1[at := b];
    FreeIsUnreferenced(d, t);
    NotIndirect(d, d1, n, k, t);
    DataKeepsInv(d1, t, b);
    DataKeepsRefs(d1, t, b);
    forall m, s | 0 <= m < INODES && 0 <= s < SLOTS && (m != n || (s != INDIRECT && s != SlotOf(k)))
      ensures PointerKept(d, d2, m, s)
    {
      if Ref(d, m, s) != 0 && k <= POINTERS { assert Pointer(d1, m, s); }
    }
  }

  /** The new block is no inode's indirect block. */
  lemma NotIndirect(d: Disk, d1: Disk, n: nat, k: nat, t: nat)
    requires PtrInv(d) && PtrInv(d1) && n < INODES && t != 0 && Unreferenced(d, t)
    requires if k <= POINTERS then Gained(d, d1, n, k, t) else Quiet(d, d1)
    ensures forall m :: 0 <= m < INODES ==> Ref(d1, m, INDIRECT) != t
  {
    hide Ref;
    if k <= POINTERS { assert Pointer(d1, n, SlotOf(k)); }
  }

  /** Whatever happens to the file `n` alone, the directory stays as it is. */
  lemma DirKept(d: Disk, d': Disk, names: seq<seq<byte>>, n: nat)
    requires Dir(d, names) && 0 < n < |names| && PtrInv(d') && OthersKept(d, d', n)
    requires Refs(GetInode(d', n)) == Refs(GetInode(d, n))
    ensures Dir(d', names)
  {
    hide PtrInv, Ref, GetInode;
    forall s | 0 <= s < SLOTS ensures Ref(d', 0, s) == 0 { assert PointerKept(d, d', 0, s); }
    forall m | 0 <= m < INODES ensures InodeIs(d', m, |names|) { assert InodeIs(d, m, |names|); }
    forall k | 0 <= k < |names| ensures EntryIs(d'[DATA_AT], k, names[k]) && LegalName(names[k]) {
      assert EntryIs(d[DATA_AT], k, names[k]) && LegalName(names[k]);
    }
    forall k | |names| <= k < ENTRIES ensures EntryEmpty(d'[DATA_AT], k) { assert EntryEmpty(d[DATA_AT], k); }
  }

  /** Setting the size of a file changes neither pointers nor blocks. */
  lemma SizeEffect(d: Disk, d2: Disk, n: nat, k: nat, v: nat)
    requires PtrInv(d2) && n < INODES && v < WORD32 && Formatted(d) && |d2| == |d|
    requires forall m, s :: 0 <= m < INODES && 0 <= s < SLOTS && (m != n || (s != INDIRECT && s != SlotOf(k))) ==>
      PointerKept(d, d2, m, s)
    requires d2[DATA_AT] == d[DATA_AT] && forall m :: 0 <= m < INODES && m != n ==> GetInode(d2, m) == GetInode(d, m)
    ensures var d3 := SetInode(d2, n, WithSize(GetInode(d2, n), v));
      && PtrInv(d3) && OthersKept(d, d3, n) && OwnKept(d, d3, n, k)
      && Size(GetInode(d3, n)) == v && Refs(GetInode(d3, n)) == Refs(GetInode(d2, n))
      && (forall s :: 0 <= s < SLOTS ==> Ref(d3, n, s) == Ref(d2, n, s))
      && (forall i :: DATA_AT <= i < |d| ==> d3[i] == d2[i])
  {
    hide Ref, GetInode, SetInode;
    var ino := GetInode(d2, n);
    var d3 := SetInode(d2, n, WithSize(ino, v));
    Fields(ino, 0, v);
    SamePtrsKeep(d2, n, WithSize(ino, v));
    GetSet(d2, n, WithSize(ino, v));
    forall m, s | 0 <= m < INODES && 0 <= s < SLOTS && (m != n || (s != INDIRECT && s != SlotOf(k)))
      ensures PointerKept(d, d3, m, s)
    {
      assert PointerKept(d, d2, m, s);
    }
  }

  lemma FirstFills(data: seq<byte>)
    requires data != []
    ensures Fills(Buffer(data), data, 0)
  {
    assert data[0..] == data;
    ChunkFills(data, 0);
  }

  /** The disk after a pass that succeeds. */
  ghost predicate Filled(d: Disk, d': Disk, names: seq<seq<byte>>, n: nat, k: nat, at: nat, data: seq<byte>)
    requires Formatted(d) && n < INODES
  {
    && Dir(d', names) && |d'| == |d| && OthersKept(d, d', n) && OwnKept(d, d', n, k)
    && DATA_AT < at < |d| && d'[at] == Buffer(data)
    && Size(GetInode(d', n)) == Size(GetInode(d, n)) + ChunkLen(data)
    && (k <= POINTERS ==> Ref(d', n, SlotOf(k)) == at - DATA_AT)
  }

  /** One pass of the loop keeps the directory and every other file.  If it succeeds the file has the
      data in one more block; the blocks it had are kept. */
  lemma AppendEffect(d: Disk, names: seq<seq<byte>>, n: nat, data: seq<byte>)
    requires Dir(d, names) && 0 < n < |names| && Size(GetInode(d, n)) + |data| < WORD32
    ensures var (d', at) := Append(d, n, data); var k := Size(GetInode(d, n)) / BLOCK_SIZE;
      && Dir(d', names) && |d'| == |d| && OthersKept(d, d', n) && OwnKept(d, d', n, k)
      && (at.None? ==> Size(GetInode(d', n)) == Size(GetInode(d, n)) && Quiet(d, d'))
      && (at.Some? ==> Filled(d, d', names, n, k, at.value, data))
      && (at.Some? && data != [] ==> Fills(d'[at.value], data, 0))
  {
    hide PtrInv, Ref, GetInode, SetInode, Falloc, Append, Buffer, Dir, OthersKept, OwnKept, Size, Grows,
      Gained, Used;
    DirFacts(d, names);
    var k := Size(GetInode(d, n)) / BLOCK_SIZE;
    FallocEffect(d, n);
    AppendIs(d, n, data);
    var (d1, at) := Falloc(d, n);
    if at.None? {
      QuietKeeps(d, d1, n, k);
      DirKept(d, d1, names, n);
    } else {
      FilledAndSized(d, d1, d1[at.value := Buffer(data)], names, n, k, at.value, data);
      if data != [] { FirstFills(data); }
    }
  }

  /** After falloc_block has succeeded: the data is put in the block, then the size in the inode. */
  lemma FilledAndSized(d: Disk, d1: Disk, d2: Disk, names: seq<seq<byte>>, n: nat, k: nat, at: nat, data: seq<byte>)
    requires Dir(d, names) && 0 < n < |names| <= INODES && PtrInv(d) && PtrInv(d1)
    requires Grows(d, d1) && Taken(d, d1, at) && Formatted(d2) && d2 == d1[at := Buffer(data)]
    requires if k <= POINTERS then Gained(d, d1, n, k, at - DATA_AT) else Quiet(d, d1)
    requires Size(GetInode(d, n)) + |data| < WORD32
    ensures var v := (Size(GetInode(d2, n)) + ChunkLen(data)) % WORD32;
      Filled(d, SetInode(d2, n, WithSize(GetInode(d2, n), v)), names, n, k, at, data)
  {
    hide PtrInv, Ref, GetInode, SetInode, Used, Buffer, Dir, OthersKept, OwnKept, Size, Refs, Quiet, Gained;
    FilledEffect(d, d1, n, k, at, Buffer(data));
    var v := Size(GetInode(d, n)) + ChunkLen(data);
    SizeEffect(d, d2, n, k, v);
    DirKept(d, SetInode(d2, n, WithSize(GetInode(d2, n), v)), names, n);
  }

  lemma DirFacts(d: Disk, names: seq<seq<byte>>)
    requires Dir(d, names)
    ensures Formatted(d) && PtrInv(d) && |names| <= INODES && NoDup(names)
  {
  }

  lemma AppendIs(d: Disk, n: nat, data: seq<byte>)
    requires PtrInv(d) && n < INODES
    ensures var (d1, at) := Falloc(d, n); at.None? ==> Append(d, n, data) == (d1, None)
    ensures var (d1, at) := Falloc(d, n); at.Some? ==>
      && DATA_AT < at.value < |d1| && Formatted(d1[at.value := Buffer(data)])
      && var d2 := d1[at.value := Buffer(data)];
         var v := (Size(GetInode(d2, n)) + ChunkLen(data)) % WORD32;
         Append(d, n, data) == (SetInode(d2, n, WithSize(GetInode(d2, n), v)), at)
  {
    hide PtrInv, Ref, GetInode, SetInode, Falloc, Marked, Used;
    FallocEffect(d, n);
    var (d1, at) := Falloc(d, n);
    if at.Some? { WriteShaped(d1, at.value, Buffer(data)); }
  }

  lemma QuietKeeps(d: Disk, d': Disk, n: nat, k: nat)
    requires Quiet(d, d') && n < INODES
    ensures OthersKept(d, d', n) && OwnKept(d, d', n, k)
  {
    hide Ref, GetInode;
  }

  // ---------------------------------------------------------------- the whole file

  /** The disk after the loop, whether it used up the source, and where it put each block. */
  datatype Written = Written(d: Disk, ok: bool, at: seq<nat>)

  function WriteAll(d: Disk, names: seq<seq<byte>>, n: nat, data: seq<byte>): (w: Written)
    requires Dir(d, names) && 0 < n < |names| && Size(GetInode(d, n)) + |data| < WORD32
    decreases |data|
  {
    if data == [] then Written(d, true, [])
    else
      AppendEffect(d, names, n, data);
      var (d1, at) := Append(d, n, data);
      if at.None? then Written(d1, false, [])
      else
        var w := WriteAll(d1, names, n, data[ChunkLen(data)..]);
        Written(w.d, w.ok, [at.value] + w.at)
  }

  /** The data of the i-th block. */
  function Chunk(data: seq<byte>, i: nat): Block
    requires i * BLOCK_SIZE < |data|
  {
    Buffer(data[i * BLOCK_SIZE..])
  }

  /** The block is the i-th part of the data, with zeros behind the end of the data. */
  ghost predicate Fills(b: Block, data: seq<byte>, i: nat)
  {
    |b| == 1024 && forall x :: 0 <= x < 1024 ==> b[x] == if i * 1024 + x < |data| then data[i * 1024 + x] else 0
  }

  lemma ChunkFills(data: seq<byte>, i: nat)
    requires i * BLOCK_SIZE < |data|
    ensures Fills(Chunk(data, i), data, i)
  {
    var rest := data[i * BLOCK_SIZE..];
    forall x | 0 <= x < BLOCK_SIZE
      ensures Buffer(rest)[x] == if i * BLOCK_SIZE + x < |data| then data[i * BLOCK_SIZE + x] else 0
    {
      if x < ChunkLen(rest) { assert Buffer(rest)[x] == rest[x]; }
    }
  }

  /** Block k + i of the file is where the loop put its i-th block, and holds what the loop read. */
  ghost predicate BlockHeld(d: Disk, n: nat, k: nat, w: Written, data: seq<byte>, i: nat)
    requires Formatted(d) && n < INODES
  {
    && i < |w.at| && i * BLOCK_SIZE < |data| && k + i <= POINTERS
    && DATA_AT < w.at[i] < |d| && Ref(d, n, SlotOf(k + i)) == w.at[i] - DATA_AT && d[w.at[i]] == Chunk(data, i)
  }

  ghost predicate AllHeld(d: Disk, n: nat, k: nat, w: Written, data: seq<byte>)
    requires Formatted(d) && n < INODES
  {
    forall i :: 0 <= i < |w.at| && k + i <= POINTERS ==> BlockHeld(d, n, k, w, data, i)
  }

  /** Every block is among the data blocks, and none is the directory's. */
  ghost predicate DataPlaces(w: Written) { forall i :: 0 <= i < |w.at| ==> DATA_AT < w.at[i] < |w.d| }

  /** Pointers of the first `k` blocks of the file, and those blocks, are kept. */
  ghost predicate FrontKept(d: Disk, d': Disk, n: nat, k: nat)
    requires Formatted(d) && Formatted(d') && |d'| == |d| && n < INODES
  {
    forall j :: 0 <= j < k && j <= POINTERS ==> PointerKept(d, d', n, SlotOf(j))
  }

  lemma FrontKeptOn(d: Disk, d1: Disk, d2: Disk, n: nat, k: nat)
    requires Formatted(d) && Formatted(d1) && Formatted(d2) && |d| == |d1| == |d2| && n < INODES
    requires OwnKept(d, d1, n, k) && FrontKept(d1, d2, n, k + 1)
    ensures FrontKept(d, d2, n, k)
  {
    hide Ref;
    forall j | 0 <= j < k && j <= POINTERS ensures PointerKept(d, d2, n, SlotOf(j)) {
      assert PointerKept(d1, d2, n, SlotOf(j));
      assert PointerKept(d, d1, n, SlotOf(j));
    }
  }

  lemma ChunkNext(data: seq<byte>, i: nat)
    requires |data| > BLOCK_SIZE && i * BLOCK_SIZE < |data| - BLOCK_SIZE
    ensures Chunk(data[BLOCK_SIZE..], i) == Chunk(data, i + 1)
  {
    assert data[BLOCK_SIZE..][i * BLOCK_SIZE..] == data[(i + 1) * BLOCK_SIZE..];
  }

  lemma BlocksNext(n: nat)
    ensures n == 0 ==> Blocks(n) == 0
    ensures 0 < n <= BLOCK_SIZE ==> Blocks(n) == 1
    ensures n > BLOCK_SIZE ==> Blocks(n) == 1 + Blocks(n - BLOCK_SIZE)
  {
  }

  /** The loop keeps the directory, every other file and the blocks the file had.  If it comes to the end
      of the source, the file has grown by the data; if it does not, by the blocks that could be had.  In both
      cases, for the first 257 blocks of the file each pointer names the place where its part of the data is. */
  lemma {:induction false} WriteAllEffect(d: Disk, names: seq<seq<byte>>, n: nat, data: seq<byte>, k: nat)
    requires Dir(d, names) && 0 < n < |names| && Size(GetInode(d, n)) == k * BLOCK_SIZE
    requires k * BLOCK_SIZE + |data| < WORD32
    ensures var w := WriteAll(d, names, n, data);
      && Dir(w.d, names) && |w.d| == |d| && OthersKept(d, w.d, n) && FrontKept(d, w.d, n, k)
      && (w.ok ==> |w.at| == Blocks(|data|) && Size(GetInode(w.d, n)) == k * BLOCK_SIZE + |data|)
      && (!w.ok ==> |w.at| < Blocks(|data|) && Size(GetInode(w.d, n)) == (k + |w.at|) * BLOCK_SIZE)
      && AllHeld(w.d, n, k, w, data) && DataPlaces(w)
    decreases |data|
  {
    hide PtrInv, Ref, GetInode, SetInode, Append, Buffer, Dir, OthersKept, Size;
    DirFacts(d, names);
    var w := WriteAll(d, names, n, data);
    BlocksNext(|data|);
    if data == [] {
      NothingChanged(d, n, k);
    } else {
      AppendEffect(d, names, n, data);
      var (d1, at) := Append(d, n, data);
      if at.None? {
        NoBlockAdded(d, d1, n, k);
      } else {
        DirFacts(d1, names);
        var rest := data[ChunkLen(data)..];
        var v := WriteAll(d1, names, n, rest);
        assert w == Written(v.d, v.ok, [at.value] + v.at);
        if rest == [] {
          NothingChanged(d1, n, k + 1);
          OneBlockAdded(d, d1, n, k, at.value, data);
        } else {
          assert rest == data[BLOCK_SIZE..];
          WriteAllEffect(d1, names, n, rest, k + 1);
          DirFacts(v.d, names);
          OthersKeptOn(d, d1, v.d, n);
          FrontKeptOn(d, d1, v.d, n, k);
          MoreBlocksAdded(d1, n, k, at.value, data, v, w);
        }
      }
    }
  }

  lemma NothingChanged(d: Disk, n: nat, k: nat)
    requires Formatted(d) && n < INODES
    ensures OthersKept(d, d, n) && FrontKept(d, d, n, k)
  {
  }

  lemma NoBlockAdded(d: Disk, d': Disk, n: nat, k: nat)
    requires Formatted(d) && n < INODES && Quiet(d, d')
    ensures FrontKept(d, d', n, k)
  {
    hide Ref;
  }

  lemma OneBlockAdded(d: Disk, d': Disk, n: nat, k: nat, at: nat, data: seq<byte>)
    requires Formatted(d) && Formatted(d') && |d'| == |d| && n < INODES && data != [] && |data| <= BLOCK_SIZE
    requires OwnKept(d, d', n, k) && DATA_AT < at < |d| && d'[at] == Buffer(data)
    requires k <= POINTERS ==> Ref(d', n, SlotOf(k)) == at - DATA_AT
    ensures FrontKept(d, d', n, k)
    ensures forall ok :: AllHeld(d', n, k, Written(d', ok, [at]), data)
  {
    assert data[0..] == data;
    hide Ref;
    FrontKeptOn(d, d', d', n, k) by { NothingChanged(d', n, k + 1); }
  }

  lemma MoreBlocksAdded(d1: Disk, n: nat, k: nat, at: nat, data: seq<byte>, v: Written, w: Written)
    requires Formatted(d1) && Formatted(v.d) && |v.d| == |d1| && n < INODES && |data| > BLOCK_SIZE
    requires DATA_AT < at < |d1| && d1[at] == Buffer(data) && (k <= POINTERS ==> Ref(d1, n, SlotOf(k)) == at - DATA_AT)
    requires FrontKept(d1, v.d, n, k + 1) && w == Written(v.d, v.ok, [at] + v.at)
    requires AllHeld(v.d, n, k + 1, v, data[BLOCK_SIZE..])
    ensures AllHeld(w.d, n, k, w, data)
  {
    hide Ref, Buffer;
    forall i | 0 <= i < |w.at| && k + i <= POINTERS ensures BlockHeld(w.d, n, k, w, data, i) {
      if i == 0 {
        assert data[0..] == data;
        assert PointerKept(d1, v.d, n, SlotOf(k));
      } else {
        assert BlockHeld(v.d, n, k + 1, v, data[BLOCK_SIZE..], i - 1);
        ChunkNext(data, i - 1);
      }
    }
  }

  // ---------------------------------------------------------------- the file among the others

  /** The directory after a file of this name has been written. */
  function With(names: seq<seq<byte>>, s: seq<byte>): seq<seq<byte>>
  {
    if s in names then names else names + [s]
  }

  /** The place of the name in that directory, which is the inode of the file. */
  ghost predicate IsPlace(names: seq<seq<byte>>, s: seq<byte>, n: nat)
  {
    0 < n < |With(names, s)| && With(names, s)[n] == s
  }

  predicate FileName(s: seq<byte>) { LegalName(s) && s != [DOT] }

  /** Every file but the directory and `n` reads as before: the same inode, and for every pointer the same
      block with the same bytes. */
  ghost predicate FilesKept(d: Disk, d': Disk, n: nat)
  {
    && Formatted(d) && Formatted(d') && |d'| == |d|
    && (forall m :: 0 < m < INODES && m != n ==> GetInode(d', m) == GetInode(d, m))
    && (forall m, s :: 0 < m < INODES && 0 <= s < SLOTS && m != n ==> PointerKept(d, d', m, s))
  }

  /** The file is there and empty, and no other file has changed. */
  ghost predicate Started(d: Disk, d1: Disk, names: seq<seq<byte>>, s: seq<byte>, n: nat)
  {
    && IsPlace(names, s, n) && n < INODES && Dir(d1, With(names, s))
    && Size(GetInode(d1, n)) == 0 && FilesKept(d, d1, n)
  }

  /** read_write: None when new_file fails. */
  function ReadWrite(d: Disk, names: seq<seq<byte>>, s: seq<byte>, data: seq<byte>): Option<Written>
    requires Dir(d, names) && FileName(s) && |data| < WORD32
  {
    var (d1, ok) := NewFile(d, names, s);
    if !ok then None
    else
      StartedWrites(d, names, s, data);
      Some(WriteAll(d1, With(names, s), FindFile(d1, s).value, data))
  }

  /** What the loop of read_write needs when new_file has succeeded. */
  lemma StartedWrites(d: Disk, names: seq<seq<byte>>, s: seq<byte>, data: seq<byte>)
    requires Dir(d, names) && FileName(s) && |data| < WORD32 && NewFile(d, names, s).1
    ensures var d1 := NewFile(d, names, s).0;
      Dir(d1, With(names, s)) && FindFile(d1, s).Some? && 0 < FindFile(d1, s).value < |With(names, s)|
      && Size(GetInode(d1, FindFile(d1, s).value)) + |data| < WORD32
      && Started(d, d1, names, s, FindFile(d1, s).value)
  {
    hide PtrInv, GetInode, Ref, NewFile, FindFile, FilesKept, Dir;
    NewFileEffect(d, names, s);
    var d1 := NewFile(d, names, s).0;
    var n: nat :| Started(d, d1, names, s, n);
    FindFileExact(d1, With(names, s), s);
  }

  /** new_file succeeds unless all inodes are taken by other names; then the file is empty, and no other
      file has changed. */
  lemma NewFileEffect(d: Disk, names: seq<seq<byte>>, s: seq<byte>)
    requires Dir(d, names) && FileName(s)
    ensures NewFile(d, names, s).1 <==> s in names || |names| < ENTRIES
    ensures !NewFile(d, names, s).1 ==> NewFile(d, names, s).0 == d
    ensures NewFile(d, names, s).1 ==> exists n: nat :: Started(d, NewFile(d, names, s).0, names, s, n)
  {
    hide PtrInv, GetInode, Ref, NewFile, FindFile, FilesKept;
    FindFileExact(d, names, s);
    var (d1, ok) := NewFile(d, names, s);
    if s in names {
      var k := FindFile(d, s).value;
      TruncateEffect(d, names, k);
      OnlyInodeKeeps(d, d1, k);
      assert Started(d, d1, names, s, k);
    } else if |names| < ENTRIES {
      CreateEffect(d, names, s);
      OnlyInodeKeeps(d, d1, |names|);
      assert Started(d, d1, names, s, |names|);
    } else {
      FullEffect(d, names, s);
    }
  }

  lemma OnlyInodeKeeps(d: Disk, d': Disk, n: nat)
    requires OnlyInode(d, d', n)
    ensures FilesKept(d, d', n)
  {
    hide Ref, GetInode;
  }

  lemma FilesKeptOn(d: Disk, d1: Disk, d2: Disk, n: nat)
    requires FilesKept(d, d1, n) && OthersKept(d1, d2, n)
    ensures FilesKept(d, d2, n)
  {
    hide Ref, GetInode;
    forall m, s | 0 < m < INODES && 0 <= s < SLOTS && m != n ensures PointerKept(d, d2, m, s) {
      assert PointerKept(d, d1, m, s) && PointerKept(d1, d2, m, s);
    }
  }

  /** The file is found under its name with the size of the data, or of the blocks that could be had; its first
      257 blocks are where its pointers say and hold the data; every other file and the directory are kept. */
  ghost predicate Stored(d: Disk, w: Written, names: seq<seq<byte>>, s: seq<byte>, data: seq<byte>, n: nat)
  {
    && Dir(w.d, With(names, s)) && IsPlace(names, s, n) && n < INODES
    && FindFile(w.d, s) == Some(n) && FilesKept(d, w.d, n)
    && AllHeld(w.d, n, 0, w, data) && DataPlaces(w)
    && (w.ok ==> |w.at| == Blocks(|data|) && Size(GetInode(w.d, n)) == |data|)
    && (!w.ok ==> |w.at| < Blocks(|data|) && Size(GetInode(w.d, n)) == |w.at| * BLOCK_SIZE)
  }

  /** read_write on every disk, name and data: it fails at once exactly when all inodes are taken by other
      files; otherwise, whether or not space runs out, the directory and every other file are kept, and
      what has been written is where the file's pointers say. */
  lemma ReadWriteEffect(d: Disk, names: seq<seq<byte>>, s: seq<byte>, data: seq<byte>)
    requires Dir(d, names) && FileName(s) && |data| < WORD32
    ensures ReadWrite(d, names, s, data).None? <==> s !in names && |names| == ENTRIES
    ensures ReadWrite(d, names, s, data).Some? ==>
      exists n: nat :: Stored(d, ReadWrite(d, names, s, data).value, names, s, data, n)
  {
    hide PtrInv, GetInode, Ref, NewFile, FindFile, FilesKept, WriteAll, AllHeld, Size, Dir;
    NewFileEffect(d, names, s);
    DirFacts(d, names);
    var (d1, ok) := NewFile(d, names, s);
    if ok {
      StartedWrites(d, names, s, data);
      DirFacts(d1, With(names, s));
      var n := FindFile(d1, s).value;
      WriteAllEffect(d1, With(names, s), n, data, 0);
      var w := WriteAll(d1, With(names, s), n, data);
      DirFacts(w.d, With(names, s));
      FindFileExact(w.d, With(names, s), s);
      FilesKeptOn(d, d1, w.d, n);
      PlaceFound(names, s, n, FindFile(w.d, s).value);
      assert Stored(d, w, names, s, data, n);
    }
  }

  /** A name has one place. */
  lemma PlaceFound(names: seq<seq<byte>>, s: seq<byte>, n: nat, m: nat)
    requires IsPlace(names, s, n) && m < |With(names, s)| && With(names, s)[m] == s && NoDup(With(names, s))
    ensures m == n
  {
  }

  // ---------------------------------------------------------------- runs

  datatype Job = Job(name: seq<byte>, data: seq<byte>)

  /** The disk and the names after one run of writeefs, whatever becomes of it. */
  function RunJob(d: Disk, names: seq<seq<byte>>, j: Job): (Disk, seq<seq<byte>>)
    requires Dir(d, names) && FileName(j.name) && |j.data| < WORD32
  {
    match ReadWrite(d, names, j.name, j.data)
    case None => (d, names)
    case Some(w) => (w.d, With(names, j.name))
  }

  predicate Jobs(js: seq<Job>) { forall i :: 0 <= i < |js| ==> FileName(js[i].name) && |js[i].data| < WORD32 }

  lemma RunJobKeepsDir(d: Disk, names: seq<seq<byte>>, j: Job)
    requires Dir(d, names) && FileName(j.name) && |j.data| < WORD32
    ensures var (d', names') := RunJob(d, names, j); Dir(d', names')
  {
    hide Dir, FindFile, FilesKept, AllHeld, ReadWrite;
    ReadWriteEffect(d, names, j.name, j.data);
  }

  function RunJobs(d: Disk, names: seq<seq<byte>>, js: seq<Job>): (Disk, seq<seq<byte>>)
    requires Dir(d, names) && Jobs(js)
    decreases |js|
  {
    if js == [] then (d, names)
    else
      RunJobKeepsDir(d, names, js[0]);
      var (d1, names1) := RunJob(d, names, js[0]);
      RunJobs(d1, names1, js[1..])
  }

  /** Over any sequence of runs of writeefs, with files rewritten and space running out at any point, the
      directory stays in order and no block ever has two owners. */
  lemma {:induction false} RunsKeepDir(d: Disk, names: seq<seq<byte>>, js: seq<Job>)
    requires Dir(d, names) && Jobs(js)
    ensures var (d', names') := RunJobs(d, names, js);
      Dir(d', names') && PtrInv(d') && forall s :: s in names ==> s in names'
    decreases |js|
  {
    hide Dir, PtrInv, RunJob;
    if js != [] {
      RunJobKeepsDir(d, names, js[0]);
      var (d1, names1) := RunJob(d, names, js[0]);
      RunJobNames(d, names, js[0]);
      RunsKeepDir(d1, names1, js[1..]);
    } else {
      DirFacts(d, names);
    }
  }

  lemma RunJobNames(d: Disk, names: seq<seq<byte>>, j: Job)
    requires Dir(d, names) && FileName(j.name) && |j.data| < WORD32
    ensures forall s :: s in names ==> s in RunJob(d, names, j).1
  {
    hide Dir, ReadWrite;
  }
}
