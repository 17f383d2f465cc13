/** Which data blocks the inodes own, and how a file gets another one (efs/inode.c, efs/efs.c). */
module EfsAlloc {
  import opened Wrappers
  import opened Bytes
  import opened EfsLayout

  /** An inode's pointers are numbered: 0 to 4 direct, 5 the indirect block, from 6 on the entries of
      the indirect block. */
  const INDIRECT: nat := 5
  const SLOTS: nat := 262

  function Ref(d: Disk, n: nat, s: nat): nat
    requires Formatted(d) && n < INODES && s < SLOTS
  {
    RefOf(d, GetInode(d, n), s)
  }

  function RefOf(d: Disk, ino: Inode, s: nat): nat
    requires Formatted(d) && s < SLOTS
  {
    if s < DIRECT then Ptr(ino, s)
    else if s == INDIRECT then Indirect(ino)
    else Entry(d, Indirect(ino), s)
  }

  /** Pointer `s` in the indirect block `t`; 0 when there is no such block. */
  function Entry(d: Disk, t: nat, s: nat): nat
    requires Formatted(d) && INDIRECT < s < SLOTS
  {
    if t == 0 || t >= DataCount(d) then 0 else U32At(d[DATA_AT + t], 4 * (s - INDIRECT - 1))
  }

  /** The pointer of a file's k-th block. */
  function SlotOf(k: nat): nat { if k < DIRECT then k else k + 1 }

  // ---------------------------------------------------------------- the invariant

  ghost predicate RefOk(d: Disk, n: nat, s: nat)
    requires Formatted(d) && n < INODES && s < SLOTS
  {
    Ref(d, n, s) != 0 ==> Ref(d, n, s) < DataCount(d) && Used(d, Ref(d, n, s))
  }

  /** Pointer `s` of inode `n` is set. */
  predicate Pointer(d: Disk, n: int, s: int)
    requires Formatted(d)
  {
    0 <= n < INODES && 0 <= s < SLOTS && Ref(d, n, s) != 0
  }

  /** Every block an inode points to exists and is marked, no two pointers name the same block, and the
      entries that the writer never reaches are empty. */
  ghost predicate PtrInv(d: Disk)
  {
    && Formatted(d) && Used(d, 0)
    && (forall n, s :: 0 <= n < INODES && 0 <= s < SLOTS ==> RefOk(d, n, s))
    && (forall n, s, m, t :: Pointer(d, n, s) && 0 <= m < INODES && 0 <= t < SLOTS && (n != m || s != t) ==>
         Ref(d, n, s) != Ref(d, m, t))
    && (forall n, s :: 0 <= n < INODES && SlotOf(POINTERS) < s < SLOTS ==> Ref(d, n, s) == 0)
  }

  /** No inode points to block `b`. */
  ghost predicate Unreferenced(d: Disk, b: nat)
    requires Formatted(d)
  {
    forall n, s :: 0 <= n < INODES && 0 <= s < SLOTS ==> Ref(d, n, s) != b
  }

  /** Every block that was marked still is, and the boot code and the superblock are the same. */
  ghost predicate StayMarked(d: Disk, d': Disk)
    requires Formatted(d) && Formatted(d')
  {
    && d'[0][..MAP_AT] == d[0][..MAP_AT]
    && forall c :: 0 <= c < MAX_DATA && Used(d, c) ==> Used(d', c)
  }

  /** The pointer is as it was, or names a block that was free. */
  ghost predicate PointerGrows(d: Disk, d': Disk, n: nat, s: nat)
    requires Formatted(d) && Formatted(d') && |d'| == |d| && n < INODES && s < SLOTS
  {
    Ref(d', n, s) == Ref(d, n, s) || (0 < Ref(d', n, s) < DataCount(d) && !Used(d, Ref(d', n, s)))
  }

  /** No block is given back, the superblock stays, and pointers change only to blocks that were free. */
  ghost predicate Grows(d: Disk, d': Disk)
  {
    && Formatted(d) && Formatted(d') && |d'| == |d| && StayMarked(d, d')
    && (forall n, s :: 0 <= n < INODES && 0 <= s < SLOTS ==> PointerGrows(d, d', n, s))
  }

  // ---------------------------------------------------------------- single writes

  lemma MarkKeepsRefs(d: Disk, b: nat)
    requires Formatted(d) && b < MAX_DATA
    ensures Formatted(Marked(d, b)) && |Marked(d, b)| == |d|
    ensures forall n :: 0 <= n < INODES ==> GetInode(Marked(d, b), n) == GetInode(d, n)
    ensures forall n, s :: 0 <= n < INODES && 0 <= s < SLOTS ==> Ref(Marked(d, b), n, s) == Ref(d, n, s)
  {
    MarkedBits(d, b);
  }

  lemma MarkKeepsInv(d: Disk, b: nat)
    requires PtrInv(d) && b < MAX_DATA
    ensures PtrInv(Marked(d, b))
  {
    hide Ref, Marked;
    MarkedBits(d, b);
    MarkKeepsRefs(d, b);
    forall n, s | 0 <= n < INODES && 0 <= s < SLOTS ensures RefOk(Marked(d, b), n, s) { assert RefOk(d, n, s); }
  }

  /** Writing an inode changes its own pointers only. */
  lemma SetKeepsRefs(d: Disk, n: nat, ino: Inode)
    requires Formatted(d) && n < INODES
    ensures Formatted(SetInode(d, n, ino)) && DataCount(SetInode(d, n, ino)) == DataCount(d)
    ensures forall b :: 0 <= b < MAX_DATA ==> Used(SetInode(d, n, ino), b) == Used(d, b)
    ensures forall m, s :: 0 <= m < INODES && 0 <= s < SLOTS && m != n ==>
      Ref(SetInode(d, n, ino), m, s) == Ref(d, m, s)
    ensures forall s :: 0 <= s < SLOTS ==> Ref(SetInode(d, n, ino), n, s) == RefOf(d, ino, s)
  {
    GetSet(d, n, ino);
  }

  /** Writing data block `t` changes only the entries of an inode whose indirect block it is. */
  lemma DataKeepsRefs(d: Disk, t: nat, blk: Block)
    requires Formatted(d) && 0 < t < DataCount(d) && |blk| == BLOCK_SIZE
    ensures Formatted(d[DATA_AT + t := blk])
    ensures forall b :: 0 <= b < MAX_DATA ==> Used(d[DATA_AT + t := blk], b) == Used(d, b)
    ensures forall m :: 0 <= m < INODES ==> GetInode(d[DATA_AT + t := blk], m) == GetInode(d, m)
    ensures forall m, s :: 0 <= m < INODES && 0 <= s < SLOTS ==>
      (Ref(d[DATA_AT + t := blk], m, s) ==
       if s > INDIRECT && Ref(d, m, INDIRECT) == t then U32At(blk, 4 * (s - INDIRECT - 1)) else Ref(d, m, s))
  {
    var d' := d[DATA_AT + t := blk];
    forall m | 0 <= m < INODES ensures GetInode(d', m) == GetInode(d, m) {
      assert d'[InodeBlock(m)] == d[InodeBlock(m)];
    }
    forall m, s | 0 <= m < INODES && 0 <= s < SLOTS
      ensures Ref(d', m, s) ==
        if s > INDIRECT && Ref(d, m, INDIRECT) == t then U32At(blk, 4 * (s - INDIRECT - 1)) else Ref(d, m, s)
    {
      assert GetInode(d', m) == GetInode(d, m);
    }
  }

  /** Writing a data block that is no inode's indirect block changes no pointer. */
  lemma DataKeepsInv(d: Disk, t: nat, blk: Block)
    requires PtrInv(d) && 0 < t < DataCount(d) && |blk| == BLOCK_SIZE
    requires forall m :: 0 <= m < INODES ==> Ref(d, m, INDIRECT) != t
    ensures Formatted(d[DATA_AT + t := blk]) && PtrInv(d[DATA_AT + t := blk])
    ensures forall m, s :: 0 <= m < INODES && 0 <= s < SLOTS ==> Ref(d[DATA_AT + t := blk], m, s) == Ref(d, m, s)
  {
    hide Used, Ref;
    var d' := d[DATA_AT + t := blk];
    DataKeepsRefs(d, t, blk);
    assert d'[0] == d[0] && DataCount(d') == DataCount(d);
    forall m, s | 0 <= m < INODES && 0 <= s < SLOTS ensures Ref(d', m, s) == Ref(d, m, s) {
      assert Ref(d, m, INDIRECT) != t;
    }
    forall m, s | 0 <= m < INODES && 0 <= s < SLOTS ensures RefOk(d', m, s) { assert RefOk(d, m, s); }
    forall m, s | Pointer(d', m, s) ensures Pointer(d, m, s) {}
  }

  // ---------------------------------------------------------------- another pointer

  /** The disk after the pointers are as before except that pointer `k` of inode `n` names `b`. */
  ghost predicate OneMore(d: Disk, d': Disk, n: nat, k: nat, b: nat)
  {
    && Formatted(d) && Formatted(d') && |d'| == |d|
    && (forall c :: 0 <= c < MAX_DATA && Used(d, c) ==> Used(d', c))
    && (forall m, s :: 0 <= m < INODES && 0 <= s < SLOTS ==>
         (Ref(d', m, s) == if m == n && s == k then b else Ref(d, m, s)))
  }

  /** A pointer to a marked block that nothing points to keeps the invariant. */
  lemma OneMoreInv(d: Disk, d': Disk, n: nat, k: nat, b: nat)
    requires PtrInv(d) && OneMore(d, d', n, k, b) && n < INODES && k <= SlotOf(POINTERS)
    requires 0 < b < DataCount(d') && Used(d', b) && Unreferenced(d, b)
    ensures PtrInv(d')
  {
    hide Ref, Used;
    forall m, s | 0 <= m < INODES && 0 <= s < SLOTS ensures RefOk(d', m, s) { assert RefOk(d, m, s); }
    forall m, s, l, t | Pointer(d', m, s) && 0 <= l < INODES && 0 <= t < SLOTS && (m != l || s != t)
      ensures Ref(d', m, s) != Ref(d', l, t)
    {
      if !(m == n && s == k) { assert Pointer(d, m, s); }
    }
  }

  /** add_block_pointer makes sure that the inode has an indirect block: a free block, marked and cleared,
      if it has none. */
  function NeedIndirect(d: Disk, n: nat): (Disk, bool)
    requires Formatted(d) && n < INODES
  {
    var ino := GetInode(d, n);
    if Indirect(ino) != 0 then (d, true)
    else
      var t := FindFree(d);
      if t == 0 then (d, false)
      else
        MarkedBits(d, t);
        (SetInode(Marked(d, t), n, WithIndirect(ino, t))[DATA_AT + t := Zeros(BLOCK_SIZE)], true)
  }

  lemma NeedIndirectRefs(d: Disk, n: nat, b: nat)
    requires PtrInv(d) && n < INODES && 0 < b < DataCount(d) && Used(d, b) && Unreferenced(d, b)
    ensures PtrInv(NeedIndirect(d, n).0)
    ensures var (d', ok) := NeedIndirect(d, n); var t := Ref(d', n, INDIRECT);
      && Unreferenced(d', b) && Used(d', b) && |d'| == |d|
      && (ok <==> t != 0) && (!ok ==> d' == d && FindFree(d) == 0)
      && StayMarked(d, d') && (ok ==> t < DataCount(d))
      && (forall m, s :: 0 <= m < INODES && 0 <= s < SLOTS ==>
            (Ref(d', m, s) == if m == n && s == INDIRECT then t else Ref(d, m, s)))
      && (forall i :: DATA_AT <= i < |d| && i != DATA_AT + t ==> d'[i] == d[i])
      && (forall m :: 0 <= m < INODES && m != n ==> GetInode(d', m) == GetInode(d, m))
      && Size(GetInode(d', n)) == Size(GetInode(d, n)) && Refs(GetInode(d', n)) == Refs(GetInode(d, n))
      && (if Ref(d, n, INDIRECT) != 0 then t == Ref(d, n, INDIRECT) else ok ==> !Used(d, t))
  {
    var ino, t := GetInode(d, n), FindFree(d);
    assert RefOk(d, n, INDIRECT) && Ref(d, n, INDIRECT) == Indirect(ino);
    if Indirect(ino) == 0 && t != 0 {
      FindFreeLeast(d);
      FreeIsUnreferenced(d, t);
      FreshIndirect(d, n, t);
      var d' := NeedIndirect(d, n).0;
      OneMoreInv(d, d', n, INDIRECT, t);
      assert Ref(d', n, INDIRECT) == t;
    }
  }

  /** A free block is one that nothing points to. */
  lemma FreeIsUnreferenced(d: Disk, t: nat)
    requires PtrInv(d) && t < DataCount(d) && !Used(d, t)
    ensures Unreferenced(d, t) && t != 0
  {
    forall n, s | 0 <= n < INODES && 0 <= s < SLOTS ensures Ref(d, n, s) != t { assert RefOk(d, n, s); }
  }

  lemma FreshIndirect(d: Disk, n: nat, t: nat)
    requires Formatted(d) && n < INODES && Indirect(GetInode(d, n)) == 0 && 0 < t < DataCount(d) && Unreferenced(d, t)
    ensures Formatted(Marked(d, t)) && |Marked(d, t)| == |d|
    ensures var d' := SetInode(Marked(d, t), n, WithIndirect(GetInode(d, n), t))[DATA_AT + t := Zeros(BLOCK_SIZE)];
      && OneMore(d, d', n, INDIRECT, t) && Used(d', t) && StayMarked(d, d')
      && (forall i :: DATA_AT <= i < |d| && i != DATA_AT + t ==> d'[i] == d[i])
      && (forall m :: 0 <= m < INODES && m != n ==> GetInode(d', m) == GetInode(d, m))
      && Size(GetInode(d', n)) == Size(GetInode(d, n)) && Refs(GetInode(d', n)) == Refs(GetInode(d, n))
  {
    hide Marked, SetInode, Used, GetInode;
    var ino := GetInode(d, n);
    var i' := WithIndirect(ino, t);
    var d1 := Marked(d, t);
    MarkKeepsRefs(d, t);
    MarkedBits(d, t);
    var d2 := SetInode(d1, n, i');
    SetKeepsRefs(d1, n, i');
    GetSet(d1, n, i');
    Fields(ino, 0, t);
    var d3 := d2[DATA_AT + t := Zeros(BLOCK_SIZE)];
    DataKeepsRefs(d2, t, Zeros(BLOCK_SIZE));
  }

  /** add_block_pointer: block `b` becomes the next block of inode `n`.  The check for the size of an
      indirect block stops at 256, so blocks from 257 on get no pointer, although the call succeeds. */
  function AddPointer(d: Disk, n: nat, b: nat): (Disk, bool)
    requires PtrInv(d) && n < INODES && 0 < b < DataCount(d) && Used(d, b) && Unreferenced(d, b)
  {
    var k := Size(GetInode(d, n)) / BLOCK_SIZE;
    if k < DIRECT then (SetInode(d, n, WithPtr(GetInode(d, n), k, b)), true)
    else if k <= POINTERS then
      NeedIndirectRefs(d, n, b);
      var (d1, ok) := NeedIndirect(d, n);
      if !ok then (d1, false)
      else
        var t := Indirect(GetInode(d1, n));
        assert RefOk(d1, n, INDIRECT);
        (d1[DATA_AT + t := PutU32(d1[DATA_AT + t], 4 * (k - DIRECT), b)], true)
    else (d, true)
  }

  /** What changes when file `n` gets block `b` as its k-th: that pointer, perhaps the file's indirect
      block, and nothing else of any file. */
  ghost predicate Gained(d: Disk, d': Disk, n: nat, k: nat, b: nat)
  {
    && Formatted(d) && Formatted(d') && |d'| == |d| && n < INODES && k <= POINTERS
    && Ref(d', n, SlotOf(k)) == b && (Ref(d, n, INDIRECT) != 0 ==> Ref(d', n, INDIRECT) == Ref(d, n, INDIRECT))
    && (forall s :: 0 <= s < SLOTS && s != SlotOf(k) && s != INDIRECT ==> Ref(d', n, s) == Ref(d, n, s))
    && (forall m, s :: 0 <= m < INODES && m != n && 0 <= s < SLOTS ==> Ref(d', m, s) == Ref(d, m, s))
    && (forall m :: 0 <= m < INODES && m != n ==> GetInode(d', m) == GetInode(d, m))
    && Size(GetInode(d', n)) == Size(GetInode(d, n)) && Refs(GetInode(d', n)) == Refs(GetInode(d, n))
    && OnlyIndirect(d, d', n)
  }

  /** Of the data blocks only the indirect block of inode `n` may differ. */
  ghost predicate OnlyIndirect(d: Disk, d': Disk, n: nat)
    requires Formatted(d') && |d'| == |d| && n < INODES
  {
    forall i :: DATA_AT <= i < |d| && (Ref(d', n, INDIRECT) == 0 || i != DATA_AT + Ref(d', n, INDIRECT)) ==>
      d'[i] == d[i]
  }

  lemma DirectGained(d: Disk, n: nat, k: nat, b: nat)
    requires PtrInv(d) && n < INODES && 0 < b < DataCount(d) && Used(d, b) && Unreferenced(d, b) && k < DIRECT
    ensures var d' := SetInode(d, n, WithPtr(GetInode(d, n), k, b));
      PtrInv(d') && Gained(d, d', n, k, b) && StayMarked(d, d') && Ref(d', n, INDIRECT) == Ref(d, n, INDIRECT)
  {
    hide SetInode, GetInode, Used;
    var ino := GetInode(d, n);
    SetKeepsRefs(d, n, WithPtr(ino, k, b));
    GetSet(d, n, WithPtr(ino, k, b));
    Fields(ino, k, b);
    OneMoreInv(d, SetInode(d, n, WithPtr(ino, k, b)), n, k, b);
  }

  lemma EntryGained(d: Disk, n: nat, k: nat, b: nat)
    requires PtrInv(d) && n < INODES && 0 < b < DataCount(d) && Used(d, b) && Unreferenced(d, b)
      && DIRECT <= k <= POINTERS
    requires 0 < Ref(d, n, INDIRECT) < DataCount(d)
    ensures var t := Ref(d, n, INDIRECT); var d' := d[DATA_AT + t := PutU32(d[DATA_AT + t], 4 * (k - DIRECT), b)];
      PtrInv(d') && Gained(d, d', n, k, b) && StayMarked(d, d') && Ref(d', n, INDIRECT) == t
  {
    hide GetInode, Used;
    var t := Ref(d, n, INDIRECT);
    var blk := PutU32(d[DATA_AT + t], 4 * (k - DIRECT), b);
    var d' := d[DATA_AT + t := blk];
    DataKeepsRefs(d, t, blk);
    PutGet(d[DATA_AT + t], 4 * (k - DIRECT), b);
    forall m, s | 0 <= m < INODES && 0 <= s < SLOTS
      ensures Ref(d', m, s) == if m == n && s == SlotOf(k) then b else Ref(d, m, s)
    {
      if s > INDIRECT && Ref(d, m, INDIRECT) == t {
        assert m == n by { assert Pointer(d, n, INDIRECT); }
        if s != SlotOf(k) { PutOther(d[DATA_AT + t], 4 * (k - DIRECT), b, 4 * (s - INDIRECT - 1)); }
      }
    }
    OneMoreInv(d, d', n, SlotOf(k), b);
  }

  lemma IndirectThenEntry(d: Disk, d1: Disk, d2: Disk, n: nat, k: nat, b: nat)
    requires Formatted(d) && Formatted(d1) && |d1| == |d| && n < INODES && DIRECT <= k && Gained(d1, d2, n, k, b)
    requires forall m, s :: 0 <= m < INODES && 0 <= s < SLOTS && (m != n || s != INDIRECT) ==>
      Ref(d1, m, s) == Ref(d, m, s)
    requires forall m :: 0 <= m < INODES && m != n ==> GetInode(d1, m) == GetInode(d, m)
    requires Size(GetInode(d1, n)) == Size(GetInode(d, n)) && Refs(GetInode(d1, n)) == Refs(GetInode(d, n))
    requires Ref(d2, n, INDIRECT) == Ref(d1, n, INDIRECT) != 0
    requires Ref(d, n, INDIRECT) != 0 ==> Ref(d1, n, INDIRECT) == Ref(d, n, INDIRECT)
    requires forall i :: DATA_AT <= i < |d| && i != DATA_AT + Ref(d1, n, INDIRECT) ==> d1[i] == d[i]
    ensures Gained(d, d2, n, k, b)
  {
    hide Ref, GetInode;
  }

  lemma PointerGained(d: Disk, n: nat, b: nat)
    requires PtrInv(d) && n < INODES && 0 < b < DataCount(d) && Used(d, b) && Unreferenced(d, b)
    ensures var (d', ok) := AddPointer(d, n, b); var k := Size(GetInode(d, n)) / BLOCK_SIZE;
      && PtrInv(d') && (ok && k <= POINTERS ==> Gained(d, d', n, k, b))
      && (!ok || k > POINTERS ==> d' == d)
      && (!ok <==> DIRECT <= k <= POINTERS && Ref(d, n, INDIRECT) == 0 && FindFree(d) == 0)
      && |d'| == |d| && StayMarked(d, d') && PointerGrows(d, d', n, INDIRECT)
  {
    hide GetInode, SetInode, Used, Gained, Unreferenced;
    var k := Size(GetInode(d, n)) / BLOCK_SIZE;
    if k < DIRECT {
      DirectGained(d, n, k, b);
    } else if k <= POINTERS {
      NeedIndirectRefs(d, n, b);
      var (d1, ok) := NeedIndirect(d, n);
      if ok {
        EntryGained(d1, n, k, b);
        IndirectThenEntry(d, d1, AddPointer(d, n, b).0, n, k, b);
      }
    }
  }

  // ---------------------------------------------------------------- another block

  /** falloc_block, once the file is found: the least free block, marked, becomes the next block of
      inode `n`; the result is its place on the disk. */
  function Falloc(d: Disk, n: nat): (Disk, Option<nat>)
    requires PtrInv(d) && n < INODES
  {
    var b := FindFree(d);
    if b == 0 then (d, None)
    else
      MarkedFree(d, b);
      var (d', ok) := AddPointer(Marked(d, b), n, b);
      (d', if ok then Some(DataOffset(d) + b) else None)
  }

  /** Nothing that belongs to a file differs. */
  ghost predicate Quiet(d: Disk, d': Disk)
  {
    && Formatted(d) && Formatted(d') && |d'| == |d|
    && (forall n :: 0 <= n < INODES ==> GetInode(d', n) == GetInode(d, n))
    && (forall n, s :: 0 <= n < INODES && 0 <= s < SLOTS ==> Ref(d', n, s) == Ref(d, n, s))
    && (forall i :: DATA_AT <= i < |d| ==> d'[i] == d[i])
  }

  lemma MarkedFree(d: Disk, b: nat)
    requires PtrInv(d) && b == FindFree(d) && b != 0
    ensures b < DataCount(d) && !Used(d, b) && Unreferenced(d, b)
    ensures PtrInv(Marked(d, b)) && |Marked(d, b)| == |d| && Used(Marked(d, b), b) && Unreferenced(Marked(d, b), b)
    ensures Quiet(d, Marked(d, b)) && Grows(d, Marked(d, b))
  {
    hide Ref, Marked;
    FindFreeLeast(d);
    FreeIsUnreferenced(d, b);
    MarkedBits(d, b);
    MarkKeepsRefs(d, b);
    MarkKeepsInv(d, b);
  }

  lemma QuietGained(d: Disk, d1: Disk, d2: Disk, n: nat, k: nat, b: nat)
    requires Quiet(d, d1) && Gained(d1, d2, n, k, b)
    ensures Gained(d, d2, n, k, b)
  {
    hide Ref, GetInode, Formatted;
  }

  /** The place `at` is that of a data block which was free and is marked now. */
  ghost predicate Taken(d: Disk, d': Disk, at: nat)
    requires Formatted(d) && Formatted(d') && |d'| == |d|
  {
    DATA_AT < at < |d| && !Used(d, at - DATA_AT) && Used(d', at - DATA_AT)
  }

  /** No block is free, or the only free block would have to be both the data block and the indirect block. */
  predicate NoRoom(d: Disk, n: nat)
    requires PtrInv(d) && n < INODES
  {
    var b, k := FindFree(d), Size(GetInode(d, n)) / BLOCK_SIZE;
    b == 0 ||
    (MarkedFree(d, b);
     DIRECT <= k <= POINTERS && Ref(d, n, INDIRECT) == 0 && FindFree(Marked(d, b)) == 0)
  }

  /** falloc_block keeps the invariant whether or not it succeeds, gives no block back, and changes pointers
      only to blocks that were free.  For the first 257 blocks of a file a success gives the file a block
      that was free and that nothing pointed to; a failure, and a success beyond them, changes no file. */
  lemma FallocEffect(d: Disk, n: nat)
    requires PtrInv(d) && n < INODES
    ensures var (d', at) := Falloc(d, n); var k := Size(GetInode(d, n)) / BLOCK_SIZE;
      && PtrInv(d') && Grows(d, d')
      && (at.Some? ==> Taken(d, d', at.value))
      && (at.Some? && k <= POINTERS ==> Gained(d, d', n, k, at.value - DATA_AT))
      && (at.None? || k > POINTERS ==> Quiet(d, d'))
    ensures Falloc(d, n).1.None? <==> NoRoom(d, n)
  {
    hide GetInode, Marked, AddPointer, Ref, Used;
    var b := FindFree(d);
    if b != 0 {
      MarkedFree(d, b);
      var d1 := Marked(d, b);
      PointerGained(d1, n, b);
      var (d2, ok) := AddPointer(d1, n, b);
      var k := Size(GetInode(d, n)) / BLOCK_SIZE;
      if ok && k <= POINTERS {
        QuietGained(d, d1, d2, n, k, b);
        StillUsed(d1, d2, n, k, b);
        GainedGrows(d, d1, d2, n, k, b);
      }
    }
  }

  lemma GainedGrows(d: Disk, d1: Disk, d2: Disk, n: nat, k: nat, b: nat)
    requires Formatted(d) && Formatted(d1) && |d1| == |d| && StayMarked(d, d1) && Gained(d, d2, n, k, b)
    requires Formatted(d2) && StayMarked(d1, d2) && 0 < b < DataCount(d) && !Used(d, b)
    requires Ref(d1, n, INDIRECT) == Ref(d, n, INDIRECT) && PointerGrows(d1, d2, n, INDIRECT)
    ensures Grows(d, d2)
  {
    hide Ref, Used, GetInode;
  }

  lemma StillUsed(d: Disk, d': Disk, n: nat, k: nat, b: nat)
    requires PtrInv(d') && Gained(d, d', n, k, b) && 0 < b < MAX_DATA
    ensures Used(d', b)
  {
    assert RefOk(d', n, SlotOf(k));
  }
}
