/** Which blocks are handed out over time, and which are lost (efs/efs.c, efs/writeefs.c). */
module EfsOnce {
  import opened Wrappers
  import opened Words
  import opened SeqLemmas
  import opened Bytes
  import opened EfsLayout
  import opened EfsAlloc
  import opened EfsDir
  import opened EfsWrite
  import opened EfsFormat
  import opened EfsSpace

  // ---------------------------------------------------------------- handing out

  /** From disk `d` on, the blocks handed out are these, each of them once: exactly those which were free on
      `d` and are not on `d'`.  No block is given back, and pointers change only to blocks that were free. */
  ghost predicate Handed(d: Disk, d': Disk, blocks: seq<nat>)
  {
    && Grows(d, d') && NoDup(blocks) && FreeBlocks(d') <= FreeBlocks(d)
    && Elems(blocks) == FreeBlocks(d) - FreeBlocks(d')
  }

  /** Data has been put at these places, no two the same, that belonged to free blocks and do no more. */
  ghost predicate PutOnce(d: Disk, d': Disk, at: seq<nat>)
  {
    && Grows(d, d') && NoDup(at)
    && forall i :: 0 <= i < |at| ==> Taken(d, d', at[i])
  }

  lemma GrowsOn(d: Disk, d1: Disk, d2: Disk)
    requires Grows(d, d1) && Grows(d1, d2)
    ensures Grows(d, d2)
  {
    hide Ref, Used;
    forall n, s | 0 <= n < INODES && 0 <= s < SLOTS ensures PointerGrows(d, d2, n, s) {
      assert PointerGrows(d, d1, n, s) && PointerGrows(d1, d2, n, s);
    }
  }

  lemma SameGrows(d: Disk, d': Disk)
    requires SamePointers(d, d')
    ensures Grows(d, d') && FreeBlocks(d') == FreeBlocks(d)
  {
    hide Ref;
    FreeBlocksOf(d, d');
    assert forall c: nat :: c < MAX_DATA ==> Used(d, c) == Used(d', c);
  }

  lemma NoDupOn<T>(a: seq<T>, b: seq<T>)
    requires NoDup(a) && NoDup(b) && Elems(a) !! Elems(b)
    ensures NoDup(a + b) && Elems(a + b) == Elems(a) + Elems(b)
  {
    forall i, j | 0 <= i < j < |a + b| ensures (a + b)[i] != (a + b)[j] {
      if i < |a| <= j { assert a[i] in Elems(a) && b[j - |a|] in Elems(b); }
    }
  }

  lemma HandedOn(d: Disk, d1: Disk, d2: Disk, a: seq<nat>, b: seq<nat>)
    requires Handed(d, d1, a) && Handed(d1, d2, b)
    ensures Handed(d, d2, a + b)
  {
    hide Grows, FreeBlocks, NoDup, Elems;
    GrowsOn(d, d1, d2);
    NoDupOn(a, b);
  }

  lemma PutOnceOn(d: Disk, d1: Disk, d2: Disk, a: seq<nat>, b: seq<nat>)
    requires PutOnce(d, d1, a) && PutOnce(d1, d2, b)
    ensures PutOnce(d, d2, a + b)
  {
    hide Ref, Used;
    GrowsOn(d, d1, d2);
    forall x | x in Elems(a) ensures x !in Elems(b) {
      assert Taken(d, d1, x);
      assert x in b ==> Taken(d1, d2, x);
    }
    NoDupOn(a, b);
    forall i | 0 <= i < |a + b| ensures Taken(d, d2, (a + b)[i]) {
      if i < |a| { assert Taken(d, d1, a[i]); } else { assert Taken(d1, d2, b[i - |a|]); }
    }
  }

  lemma HandedSame(d: Disk, d1: Disk, d2: Disk, a: seq<nat>)
    requires Handed(d, d1, a) && SamePointers(d1, d2)
    ensures Handed(d, d2, a)
  {
    hide Grows, SamePointers;
    SameGrows(d1, d2);
    GrowsOn(d, d1, d2);
  }

  /** Nothing is handed out. */
  lemma HandedNone(d: Disk)
    requires Formatted(d)
    ensures Handed(d, d, []) && PutOnce(d, d, [])
  {
    hide Ref, Used;
  }

  lemma TakenAway(free: set<nat>, b: nat, t: nat)
    requires b in free
    ensures NoDup([b]) && Elems([b]) == free - (free - {b})
    ensures t in free - {b} ==> NoDup([b, t]) && Elems([b, t]) == free - (free - {b} - {t})
  {
  }

  /** The blocks falloc_block marks: the data block, and an indirect block if that is new and can be had. */
  ghost function FallocHands(d: Disk, n: nat): seq<nat>
    requires PtrInv(d) && n < INODES
  {
    var b := FindFree(d);
    if b == 0 then []
    else
      MarkedFree(d, b);
      var t := FindFree(Marked(d, b));
      if t != 0 && Takes(d, n, Size(GetInode(d, n)) / BLOCK_SIZE) == 2 then [b, t] else [b]
  }

  /** The free blocks after falloc_block has found one. */
  lemma FallocFree(d: Disk, n: nat)
    requires PtrInv(d) && n < INODES && FindFree(d) != 0
    ensures Formatted(d) && Formatted(Falloc(d, n).0) && FindFree(d) in FreeBlocks(d) && FindFree(d) < DataCount(d)
    ensures FreeBlocks(Falloc(d, n).0) == FreeBlocks(d) - Elems(FallocHands(d, n))
    ensures 1 <= |FallocHands(d, n)| <= 2 && FallocHands(d, n)[0] == FindFree(d)
    ensures Falloc(d, n).1.None? ==> |FallocHands(d, n)| == 1
    ensures Falloc(d, n).1.Some? ==> |FallocHands(d, n)| == Takes(d, n, Size(GetInode(d, n)) / BLOCK_SIZE)
    ensures NoDup(FallocHands(d, n)) && Elems(FallocHands(d, n)) <= FreeBlocks(d)
  {
    hide GetInode, Marked, AddPointer, Ref, FreeBlocks, Used, Unreferenced;
    FindFreeIn(d);
    var b := FindFree(d);
    MarkedFree(d, b);
    var d1 := Marked(d, b);
    var t := FindFree(d1);
    MarkTakes(d, b);
    FindFreeIn(d1);
    PointerGained(d1, n, b);
    AddPointerTakes(d1, n, b);
    TakenAway(FreeBlocks(d), b, t);
    assert Takes(d, n, Size(GetInode(d, n)) / BLOCK_SIZE) == Takes(d1, n, Size(GetInode(d1, n)) / BLOCK_SIZE);
  }

  lemma FallocHanded(d: Disk, n: nat)
    requires PtrInv(d) && n < INODES
    ensures var (d', at) := Falloc(d, n);
      && Handed(d, d', FallocHands(d, n))
      && (at.Some? ==> FallocHands(d, n) != [] && at.value == DATA_AT + FallocHands(d, n)[0])
  {
    hide GetInode, Marked, AddPointer, Ref, FreeBlocks, Used, Unreferenced, Grows;
    FallocEffect(d, n);
    FindFreeIn(d);
    if FindFree(d) == 0 {
      HandedNone(d);
    } else {
      FallocFree(d, n);
    }
  }

  /** The blocks one pass of the loop and the loop mark. */
  ghost function WriteHands(d: Disk, names: seq<seq<byte>>, n: nat, data: seq<byte>): seq<nat>
    requires Dir(d, names) && 0 < n < |names| && Size(GetInode(d, n)) + |data| < WORD32
    decreases |data|
  {
    if data == [] then []
    else
      AppendEffect(d, names, n, data);
      var (d1, at) := Append(d, n, data);
      FallocHands(d, n) + if at.None? then [] else WriteHands(d1, names, n, data[ChunkLen(data)..])
  }

  lemma AppendHanded(d: Disk, n: nat, data: seq<byte>)
    requires PtrInv(d) && n < INODES
    ensures var (d', at) := Append(d, n, data);
      && Handed(d, d', FallocHands(d, n))
      && (at.Some? ==> PutOnce(d, d', [at.value]))
  {
    hide PtrInv, Ref, Falloc, Append, Used, GetInode, FallocHands;
    FallocEffect(d, n);
    FallocHanded(d, n);
    AppendSame(d, n, data);
    SameGrows(Falloc(d, n).0, Append(d, n, data).0);
    HandedSame(d, Falloc(d, n).0, Append(d, n, data).0, FallocHands(d, n));
  }

  lemma {:induction false} WriteAllHanded(d: Disk, names: seq<seq<byte>>, n: nat, data: seq<byte>)
    requires Dir(d, names) && 0 < n < |names| && Size(GetInode(d, n)) + |data| < WORD32
    ensures var w := WriteAll(d, names, n, data);
      Handed(d, w.d, WriteHands(d, names, n, data)) && PutOnce(d, w.d, w.at)
    decreases |data|
  {
    hide PtrInv, Ref, GetInode, Append, Dir, Size, Handed, PutOnce, FallocHands;
    DirFacts(d, names);
    HandedNone(d);
    if data != [] {
      AppendEffect(d, names, n, data);
      AppendHanded(d, n, data);
      var (d1, at) := Append(d, n, data);
      if at.Some? {
        var rest := data[ChunkLen(data)..];
        var w := WriteAll(d1, names, n, rest);
        WriteAllHanded(d1, names, n, rest);
        HandedOn(d, d1, w.d, FallocHands(d, n), WriteHands(d1, names, n, rest));
        PutOnceOn(d, d1, w.d, [at.value], w.at);
      } else {
        assert FallocHands(d, n) + [] == FallocHands(d, n);
        HandedPlaces(d, d1, FallocHands(d, n));
      }
    }
  }

  lemma HandedGrows(d: Disk, d': Disk, blocks: seq<nat>)
    requires Handed(d, d', blocks)
    ensures Grows(d, d')
  {
  }

  lemma HandedPlaces(d: Disk, d': Disk, blocks: seq<nat>)
    requires Handed(d, d', blocks)
    ensures PutOnce(d, d', [])
  {
  }

  // ---------------------------------------------------------------- over runs

  /** The blocks one run of writeefs marks, and the places where it puts data. */
  ghost function JobHands(d: Disk, names: seq<seq<byte>>, j: Job): seq<nat>
    requires Dir(d, names) && FileName(j.name) && |j.data| < WORD32
  {
    var (d1, ok) := NewFile(d, names, j.name);
    if !ok then []
    else
      StartedWrites(d, names, j.name, j.data);
      WriteHands(d1, With(names, j.name), FindFile(d1, j.name).value, j.data)
  }

  function JobPlaces(d: Disk, names: seq<seq<byte>>, j: Job): seq<nat>
    requires Dir(d, names) && FileName(j.name) && |j.data| < WORD32
  {
    match ReadWrite(d, names, j.name, j.data)
    case None => []
    case Some(w) => w.at
  }

  lemma JobHanded(d: Disk, names: seq<seq<byte>>, j: Job)
    requires Dir(d, names) && FileName(j.name) && |j.data| < WORD32
    ensures var d' := RunJob(d, names, j).0;
      Handed(d, d', JobHands(d, names, j)) && PutOnce(d, d', JobPlaces(d, names, j))
  {
    hide PtrInv, GetInode, Ref, NewFile, FindFile, WriteAll, WriteHands, Size, Dir, Handed, PutOnce, SamePointers;
    DirFacts(d, names);
    HandedNone(d);
    var (d1, ok) := NewFile(d, names, j.name);
    if ok {
      StartedWrites(d, names, j.name, j.data);
      var n := FindFile(d1, j.name).value;
      NewFileSame(d, names, j.name);
      SameHanded(d, d1);
      var w := WriteAll(d1, With(names, j.name), n, j.data);
      WriteAllHanded(d1, With(names, j.name), n, j.data);
      HandedOn(d, d1, w.d, [], WriteHands(d1, With(names, j.name), n, j.data));
      PutOnceOn(d, d1, w.d, [], w.at);
      assert [] + w.at == w.at;
      assert [] + WriteHands(d1, With(names, j.name), n, j.data) == WriteHands(d1, With(names, j.name), n, j.data);
    }
  }

  lemma SameHanded(d: Disk, d': Disk)
    requires SamePointers(d, d')
    ensures Handed(d, d', []) && PutOnce(d, d', [])
  {
    hide Grows, SamePointers;
    SameGrows(d, d');
  }

  ghost function RunHands(d: Disk, names: seq<seq<byte>>, js: seq<Job>): seq<nat>
    requires Dir(d, names) && Jobs(js)
    decreases |js|
  {
    if js == [] then []
    else
      RunJobKeepsDir(d, names, js[0]);
      var (d1, names1) := RunJob(d, names, js[0]);
      JobHands(d, names, js[0]) + RunHands(d1, names1, js[1..])
  }

  function RunPlaces(d: Disk, names: seq<seq<byte>>, js: seq<Job>): seq<nat>
    requires Dir(d, names) && Jobs(js)
    decreases |js|
  {
    if js == [] then []
    else
      RunJobKeepsDir(d, names, js[0]);
      var (d1, names1) := RunJob(d, names, js[0]);
      JobPlaces(d, names, js[0]) + RunPlaces(d1, names1, js[1..])
  }

  /** No block is handed out twice.  Over any sequence of runs of writeefs, with files truncated and rewritten
      and with failures, the blocks given out are pairwise different, for data and for indirect blocks alike;
      they are exactly those that were free before and are not afterwards. */
  lemma {:induction false} HandedOnce(d: Disk, names: seq<seq<byte>>, js: seq<Job>)
    requires Dir(d, names) && Jobs(js)
    ensures var d' := RunJobs(d, names, js).0;
      Handed(d, d', RunHands(d, names, js)) && PutOnce(d, d', RunPlaces(d, names, js))
    decreases |js|
  {
    hide PtrInv, RunJob, Dir, Handed, PutOnce, JobHands, JobPlaces;
    DirFacts(d, names);
    HandedNone(d);
    if js != [] {
      JobHanded(d, names, js[0]);
      RunJobKeepsDir(d, names, js[0]);
      var (d1, names1) := RunJob(d, names, js[0]);
      var d' := RunJobs(d1, names1, js[1..]).0;
      HandedOnce(d1, names1, js[1..]);
      HandedOn(d, d1, d', JobHands(d, names, js[0]), RunHands(d1, names1, js[1..]));
      PutOnceOn(d, d1, d', JobPlaces(d, names, js[0]), RunPlaces(d1, names1, js[1..]));
    }
  }

  // ---------------------------------------------------------------- losing

  /** The blocks that are marked though no inode points to them. */
  ghost function Lost(d: Disk): set<nat>
    requires Formatted(d)
  {
    set c: nat | 0 < c < DataCount(d) && Used(d, c) && Unreferenced(d, c)
  }

  /** A block that is lost stays lost. */
  lemma LostStays(d: Disk, d': Disk)
    requires Grows(d, d')
    ensures Lost(d) <= Lost(d')
  {
    hide Ref, Used;
    forall c | c in Lost(d) ensures Unreferenced(d', c) {
      forall n, s | 0 <= n < INODES && 0 <= s < SLOTS ensures Ref(d', n, s) != c {
        assert PointerGrows(d, d', n, s) && Ref(d, n, s) != c;
      }
    }
  }

  lemma SameLost(d: Disk, d': Disk)
    requires SamePointers(d, d')
    ensures Lost(d') == Lost(d)
  {
    hide Ref;
    forall c: nat | c < MAX_DATA ensures Used(d, c) == Used(d', c) {}
    forall c: nat | 0 < c < DataCount(d) ensures Unreferenced(d, c) <==> Unreferenced(d', c) {}
  }

  /** The block that one call of falloc_block loses, if any: the one the file had in the place of the new one,
      or the new one itself, when it gets no pointer. */
  ghost function FallocLoses(d: Disk, n: nat): set<nat>
    requires PtrInv(d) && n < INODES
  {
    var b, k := FindFree(d), Size(GetInode(d, n)) / BLOCK_SIZE;
    if b == 0 then {}
    else if NoRoom(d, n) || k > POINTERS then {b}
    else if Ref(d, n, SlotOf(k)) != 0 then {Ref(d, n, SlotOf(k))}
    else {}
  }

  /** A block is marked and gets no pointer. */
  lemma OneLost(d: Disk, d': Disk, b: nat)
    requires PtrInv(d) && Quiet(d, d') && b in FreeBlocks(d) && FreeBlocks(d') == FreeBlocks(d) - {b}
    ensures Lost(d') == Lost(d) + {b} && b !in Lost(d)
  {
    hide Ref, Used, GetInode;
    FreeIsUnreferenced(d, b);
    forall c: nat | c < DataCount(d) ensures Used(d', c) <==> c == b || Used(d, c) {
      assert c in FreeBlocks(d') <==> c != b && c in FreeBlocks(d);
    }
    forall c: nat | 0 < c < DataCount(d) ensures Unreferenced(d, c) <==> Unreferenced(d', c) {}
  }

  /** Of the blocks just marked, one is the file's next block, and the other its indirect block. */
  lemma NewReferenced(d: Disk, d': Disk, n: nat, k: nat, b: nat, t: nat)
    requires PtrInv(d') && Grows(d, d') && Gained(d, d', n, k, b) && b != 0
    requires FreeBlocks(d) - FreeBlocks(d') == if DIRECT <= k && Ref(d, n, INDIRECT) == 0 then {b, t} else {b}
    ensures forall c :: c in FreeBlocks(d) - FreeBlocks(d') ==> !Unreferenced(d', c)
  {
    hide Used, GetInode, RefOf;
    var i := Ref(d', n, INDIRECT);
    assert Ref(d', n, SlotOf(k)) == b;
    if DIRECT <= k && Ref(d, n, INDIRECT) == 0 {
      IndirectThere(d', n, k);
      assert PointerGrows(d, d', n, INDIRECT);
      assert RefOk(d', n, INDIRECT) && Pointer(d', n, INDIRECT);
      assert i in FreeBlocks(d) - FreeBlocks(d');
    }
  }

  /** The next block of a file gets its pointer: what that pointer named is lost. */
  lemma PointerMoved(d: Disk, d': Disk, n: nat, k: nat, b: nat)
    requires PtrInv(d) && PtrInv(d') && Grows(d, d') && Gained(d, d', n, k, b) && b in FreeBlocks(d) && b != 0
    requires forall c :: c in FreeBlocks(d) - FreeBlocks(d') ==> !Unreferenced(d', c)
    ensures var r := Ref(d, n, SlotOf(k));
      Lost(d') == Lost(d) + (if r != 0 then {r} else {}) && r !in Lost(d)
  {
    hide Used, GetInode, Ref;
    LostStays(d, d');
    var r := Ref(d, n, SlotOf(k));
    if r != 0 {
      assert RefOk(d, n, SlotOf(k)) && Pointer(d, n, SlotOf(k));
      forall m, s | 0 <= m < INODES && 0 <= s < SLOTS ensures Ref(d', m, s) != r {
        assert PointerGrows(d, d', m, s);
      }
      assert r in Lost(d');
    }
    forall c | c in Lost(d') && c != r ensures c in Lost(d) {
      assert c !in FreeBlocks(d);
      forall m, s | 0 <= m < INODES && 0 <= s < SLOTS ensures Ref(d, m, s) != c {
        assert Ref(d', m, s) != c && PointerGrows(d, d', m, s);
      }
    }
  }

  lemma FallocLost(d: Disk, n: nat)
    requires PtrInv(d) && n < INODES
    ensures Formatted(Falloc(d, n).0)
    ensures Lost(Falloc(d, n).0) == Lost(d) + FallocLoses(d, n) && FallocLoses(d, n) !! Lost(d)
  {
    hide GetInode, Marked, AddPointer, Ref, Used, NoRoom, FreeBlocks, FallocHands, Lost, Unreferenced, Gained, Grows;
    FallocEffect(d, n);
    var (d', at) := Falloc(d, n);
    var b, k := FindFree(d), Size(GetInode(d, n)) / BLOCK_SIZE;
    if b != 0 {
      FallocFree(d, n);
      var hands := FallocHands(d, n);
      if at.None? || k > POINTERS {
        assert hands == [b] && b in FreeBlocks(d);
        OneLost(d, d', b);
      } else {
        assert hands == if Takes(d, n, k) == 2 then [b, hands[1]] else [b];
        NewReferenced(d, d', n, k, b, hands[|hands| - 1]);
        PointerMoved(d, d', n, k, b);
      }
    } else {
      assert d' == d;
    }
  }

  /** The free blocks that can become blocks of a file which has `k` blocks: all of them, but for the one that
      becomes its indirect block. */
  ghost function Room(d: Disk, n: nat, k: nat): (r: nat)
    requires Formatted(d) && n < INODES
  {
    var free := |FreeBlocks(d)|;
    if NoIndirect(d, n, k) && free > Direct(k) then free - 1 else free
  }

  /** The next block of the file that is not direct takes an indirect block. */
  predicate NoIndirect(d: Disk, n: nat, k: nat)
    requires Formatted(d) && n < INODES
  {
    k <= POINTERS && Ref(d, n, INDIRECT) == 0
  }

  /** How many direct blocks are still to come. */
  function Direct(k: nat): nat { if k < DIRECT then DIRECT - k else 0 }

  /** How many blocks `size` more bytes get. */
  ghost function HowMany(d: Disk, n: nat, k: nat, size: nat): nat
    requires Formatted(d) && n < INODES
  {
    if Blocks(size) <= Room(d, n, k) then Blocks(size) else Room(d, n, k)
  }

  /** The last free block is marked for data, and none is left for the indirect block. */
  ghost predicate Stuck(d: Disk, n: nat, k: nat, size: nat)
    requires Formatted(d) && n < INODES
  {
    NoIndirect(d, n, k) && Blocks(size) > Direct(k) && |FreeBlocks(d)| == Direct(k) + 1
  }

  /** Of `m` blocks from the k-th on, those which take the place of another or get no pointer. */
  function Abandoned(d: Disk, n: nat, k: nat, m: nat): nat
    requires Formatted(d) && n < INODES
    decreases m
  {
    if m == 0 then 0
    else (if k > POINTERS || Ref(d, n, SlotOf(k)) != 0 then 1 else 0) + Abandoned(d, n, k + 1, m - 1)
  }

  lemma {:induction false} AbandonedNone(d: Disk, n: nat, k: nat, m: nat)
    requires Formatted(d) && n < INODES
    ensures Abandoned(d, n, k, m) == 0 <==>
      (m == 0 || k + m <= POINTERS + 1) && forall i :: k <= i < k + m && i <= POINTERS ==> Ref(d, n, SlotOf(i)) == 0
    decreases m
  {
    hide Ref;
    if m > 0 { AbandonedNone(d, n, k + 1, m - 1); }
  }

  lemma {:induction false} AbandonedSame(d: Disk, d': Disk, n: nat, k: nat, m: nat)
    requires Formatted(d) && Formatted(d') && n < INODES
    requires forall i :: k <= i <= POINTERS ==> Ref(d', n, SlotOf(i)) == Ref(d, n, SlotOf(i))
    ensures Abandoned(d', n, k, m) == Abandoned(d, n, k, m)
    decreases m
  {
    hide Ref;
    if m > 0 { AbandonedSame(d, d', n, k + 1, m - 1); }
  }

  /** One pass of the loop: a block more and what is lost by it, or none. */
  lemma AppendLost(d: Disk, names: seq<seq<byte>>, n: nat, data: seq<byte>, k: nat)
    requires Dir(d, names) && 0 < n < |names| && Size(GetInode(d, n)) + |data| < WORD32
    requires data != [] && k == Size(GetInode(d, n)) / BLOCK_SIZE
    ensures var (d', at) := Append(d, n, data);
      && Formatted(d') && Formatted(d) && n < INODES
      && (at.None? ==> Room(d, n, k) == Room(d', n, k) == 0)
      && (at.None? ==> |Lost(d')| == |Lost(d)| + if Stuck(d, n, k, |data|) then 1 else 0)
      && (at.Some? ==> Room(d, n, k) == Room(d', n, k + 1) + 1)
      && (at.Some? ==> (Stuck(d, n, k, |data|) <==> Stuck(d', n, k + 1, |data| - ChunkLen(data))))
      && (at.Some? ==> |Lost(d')| == |Lost(d)| + Abandoned(d, n, k, 1))
  {
    hide PtrInv, Ref, GetInode, Append, Falloc, Dir, Size, FreeBlocks, Lost, Grows, Gained, Taken, OthersKept, OwnKept;
    DirFacts(d, names);
    BlocksNext(|data|);
    FallocEffect(d, n);
    AppendEffect(d, names, n, data);
    AppendTakes(d, n, data);
    AppendSame(d, n, data);
    FallocLost(d, n);
    FindFreeIn(d);
    SameLost(Falloc(d, n).0, Append(d, n, data).0);
    if Append(d, n, data).1.None? {
      AppendHanded(d, n, data);
      NoMoreRoom(d, Append(d, n, data).0, n, k);
    }
  }

  lemma NoMoreRoom(d: Disk, d': Disk, n: nat, k: nat)
    requires Formatted(d) && Formatted(d') && n < INODES && Ref(d', n, INDIRECT) == Ref(d, n, INDIRECT)
    requires FreeBlocks(d') <= FreeBlocks(d) && |FreeBlocks(d)| <= 1 && Room(d, n, k) == 0
    ensures Room(d', n, k) == 0
  {
    hide Ref, FreeBlocks;
    assert FreeBlocks(d) == FreeBlocks(d') + (FreeBlocks(d) - FreeBlocks(d'));
  }

  /** How many blocks the loop puts in the file, and how many it loses, told beforehand. */
  lemma {:induction false} WriteAllLost(d: Disk, names: seq<seq<byte>>, n: nat, data: seq<byte>, k: nat)
    requires Dir(d, names) && 0 < n < |names| && Size(GetInode(d, n)) == k * BLOCK_SIZE
    requires k * BLOCK_SIZE + |data| < WORD32
    ensures var w := WriteAll(d, names, n, data);
      && Formatted(w.d) && Formatted(d) && n < INODES
      && |w.at| == HowMany(d, n, k, |data|) && Room(w.d, n, k + |w.at|) == Room(d, n, k) - |w.at|
      && |Lost(w.d)| == |Lost(d)| + Abandoned(d, n, k, |w.at|) + if Stuck(d, n, k, |data|) then 1 else 0
    decreases |data|
  {
    hide PtrInv, Ref, GetInode, Append, Dir, Size, Lost, Room, Stuck, Abandoned;
    DirFacts(d, names);
    BlocksNext(|data|);
    if data == [] {
      AbandonedNothing(d, n, k);
    } else {
      AppendEffect(d, names, n, data);
      AppendLost(d, names, n, data, k);
      var (d1, at) := Append(d, n, data);
      if at.Some? {
        DirFacts(d1, names);
        var rest := data[ChunkLen(data)..];
        var v := WriteAll(d1, names, n, rest);
        if rest == [] {
          AbandonedNothing(d1, n, k + 1);
        } else {
          WriteAllLost(d1, names, n, rest, k + 1);
        }
        AbandonedNext(d, d1, n, k, |v.at|);
      } else {
        AbandonedNothing(d, n, k);
      }
    }
  }

  lemma AbandonedNothing(d: Disk, n: nat, k: nat)
    requires Formatted(d) && n < INODES
    ensures Abandoned(d, n, k, 0) == 0 && !Stuck(d, n, k, 0)
  {
  }

  lemma AbandonedNext(d: Disk, d1: Disk, n: nat, k: nat, m: nat)
    requires Formatted(d) && Formatted(d1) && |d1| == |d| && n < INODES && OwnKept(d, d1, n, k)
    ensures Abandoned(d, n, k, m + 1) == Abandoned(d, n, k, 1) + Abandoned(d1, n, k + 1, m)
  {
    hide Ref;
    forall i | k + 1 <= i <= POINTERS ensures Ref(d1, n, SlotOf(i)) == Ref(d, n, SlotOf(i)) {
      assert PointerKept(d, d1, n, SlotOf(i));
    }
    AbandonedSame(d, d1, n, k + 1, m);
  }

  /** What writing a file does to the blocks, told by the disk before: how many blocks the file gets, and how
      many are lost. */
  lemma ReadWriteLost(d: Disk, names: seq<seq<byte>>, s: seq<byte>, data: seq<byte>, n: nat)
    requires Dir(d, names) && FileName(s) && |data| < WORD32 && IsPlace(names, s, n) && |With(names, s)| <= ENTRIES
    ensures Formatted(d) && n < INODES && ReadWrite(d, names, s, data).Some?
    ensures var w := ReadWrite(d, names, s, data).value; var m := HowMany(d, n, 0, |data|);
      && Formatted(w.d) && |w.at| == m && Room(w.d, n, m) == Room(d, n, 0) - m
      && |Lost(w.d)| == |Lost(d)| + Abandoned(d, n, 0, m) + if Stuck(d, n, 0, |data|) then 1 else 0
  {
    hide PtrInv, GetInode, Ref, NewFile, FindFile, WriteAll, Size, Dir, FreeBlocks, FilesKept, SamePointers, Lost;
    DirFacts(d, names);
    NewFileEffect(d, names, s);
    StartedWrites(d, names, s, data);
    var (d1, ok) := NewFile(d, names, s);
    var all := With(names, s);
    DirFacts(d1, all);
    FindFileExact(d1, all, s);
    PlaceFound(names, s, n, FindFile(d1, s).value);
    NewFileSame(d, names, s);
    SameFile(d, d1, n, |data|);
    SameLost(d, d1);
    WriteAllLost(d1, all, n, data, 0);
  }

  lemma SameFile(d: Disk, d1: Disk, n: nat, size: nat)
    requires SamePointers(d, d1) && n < INODES
    ensures HowMany(d1, n, 0, size) == HowMany(d, n, 0, size) && Room(d1, n, 0) == Room(d, n, 0)
    ensures (Stuck(d1, n, 0, size) <==> Stuck(d, n, 0, size))
    ensures forall m: nat :: Abandoned(d1, n, 0, m) == Abandoned(d, n, 0, m)
  {
    hide Ref;
    FreeBlocksOf(d, d1);
    forall m: nat ensures Abandoned(d1, n, 0, m) == Abandoned(d, n, 0, m) { AbandonedSame(d, d1, n, 0, m); }
  }

  /** Every block that is marked is the directory's or is pointed to. */
  ghost predicate NoneLost(d: Disk)
    requires Formatted(d)
  {
    forall c :: 0 < c < DataCount(d) && Used(d, c) ==> !Unreferenced(d, c)
  }

  /** Exactly when a write loses no block: on a disk that has lost none, the file had no pointer where it gets
      one, it gets at most 257 blocks, and the last free block is not taken for data while an indirect block
      is still to come. */
  lemma LosesNoneIff(d: Disk, names: seq<seq<byte>>, s: seq<byte>, data: seq<byte>, n: nat)
    requires Dir(d, names) && FileName(s) && |data| < WORD32 && IsPlace(names, s, n) && |With(names, s)| <= ENTRIES
    ensures Formatted(d) && n < INODES && ReadWrite(d, names, s, data).Some?
    ensures var w := ReadWrite(d, names, s, data).value; var m := HowMany(d, n, 0, |data|);
      && Formatted(w.d)
      && (NoneLost(w.d) <==>
          && NoneLost(d)
          && (forall i :: 0 <= i < m && i <= POINTERS ==> Ref(d, n, SlotOf(i)) == 0)
          && m <= POINTERS + 1
          && !(|data| > DIRECT * BLOCK_SIZE && Ref(d, n, INDIRECT) == 0 && |FreeBlocks(d)| == DIRECT + 1))
  {
    hide PtrInv, Ref, ReadWrite, Dir, HowMany, Abandoned, Lost, NoneLost, FreeBlocks;
    ReadWriteLost(d, names, s, data, n);
    var w, m := ReadWrite(d, names, s, data).value, HowMany(d, n, 0, |data|);
    AbandonedNone(d, n, 0, m);
    BlocksCount(|data|);
    NoneLostIs(d);
    NoneLostIs(w.d);
  }

  lemma NoneLostIs(d: Disk)
    requires Formatted(d)
    ensures NoneLost(d) <==> |Lost(d)| == 0
  {
    if !NoneLost(d) {
      var c: nat :| 0 < c < DataCount(d) && Used(d, c) && Unreferenced(d, c);
      assert c in Lost(d);
    } else {
      assert Lost(d) == {};
    }
  }

  // ---------------------------------------------------------------- on a new disk

  ghost function Below(n: nat): (r: set<nat>)
    ensures forall c :: c in r <==> 0 < c < n
  {
    if n <= 1 then {} else Below(n - 1) + {n - 1}
  }

  lemma {:induction false} BelowSize(n: nat)
    requires n > 0
    ensures |Below(n)| == n - 1
  {
    if n > 1 { BelowSize(n - 1); }
  }

  /** A new disk has lost nothing, and all its data blocks but the directory's are free. */
  lemma MadeFree(d: Disk)
    requires Raw(d)
    ensures Dir(Made(d), [[DOT]]) && Formatted(Made(d)) && |Made(d)| == |d|
    ensures NoneLost(Made(d)) && |FreeBlocks(Made(d))| == |d| - DATA_AT - 1
    ensures forall s :: 0 <= s < SLOTS ==> Ref(Made(d), 1, s) == 0
  {
    hide Used, Ref, PtrInv;
    MadeEffect(d);
    var d0 := Made(d);
    assert |d0| == |d| by { ClearedFormatted(d); }
    assert FreeBlocks(d0) == Below(DataCount(d0));
    BelowSize(DataCount(d0));
    assert InodeIs(d0, 1, 1);
    BlankInode(d0, 1);
  }

  lemma SecondPlace(s: seq<byte>)
    requires FileName(s)
    ensures IsPlace([[DOT]], s, 1) && IsPlace([[DOT], s], s, 1) && With([[DOT]], s) == [[DOT], s] == With([[DOT], s], s)
  {
  }

  /** Even the first file on a new disk loses blocks: exactly if it has more than 257 and the disk room for
      them, or more than 5 and the disk just one block more than 5 for them. */
  lemma FirstWriteLoses(d: Disk, s: seq<byte>, data: seq<byte>)
    requires Raw(d) && FileName(s) && |data| < WORD32
    ensures Dir(Made(d), [[DOT]]) && ReadWrite(Made(d), [[DOT]], s, data).Some?
    ensures var w := ReadWrite(Made(d), [[DOT]], s, data).value;
      Formatted(w.d) &&
      (NoneLost(w.d) <==>
        !(|data| > (POINTERS + 1) * BLOCK_SIZE && |d| > DATA_AT + POINTERS + 3)
        && !(|data| > DIRECT * BLOCK_SIZE && |d| == DATA_AT + DIRECT + 2))
  {
    hide PtrInv, Ref, ReadWrite, Dir, NoneLost, FreeBlocks, Made;
    MadeFree(d);
    SecondPlace(s);
    LosesNoneIff(Made(d), [[DOT]], s, data, 1);
  }

  /** Writing one byte: the file has a block with it, and loses the one it had. */
  lemma OneByte(d: Disk, names: seq<seq<byte>>, s: seq<byte>, x: byte, n: nat)
    requires Dir(d, names) && FileName(s) && IsPlace(names, s, n) && |With(names, s)| <= ENTRIES
    requires Formatted(d) && n < INODES && Room(d, n, 0) > 0
    ensures var (d', names') := RunJob(d, names, Job(s, [x]));
      && Dir(d', names') && names' == With(names, s) && Formatted(d')
      && |Lost(d')| == |Lost(d)| + (if Ref(d, n, 0) != 0 then 1 else 0)
      && Ref(d', n, 0) != 0 && (Room(d, n, 0) > 1 ==> Room(d', n, 0) > 0)
  {
    hide PtrInv, Ref, ReadWrite, Dir, FindFile, FilesKept, Lost;
    ReadWriteLost(d, names, s, [x], n);
    ReadWriteEffect(d, names, s, [x]);
    var w := ReadWrite(d, names, s, [x]).value;
    var m: nat :| Stored(d, w, names, s, [x], m);
    DirFacts(w.d, With(names, s));
    PlaceFound(names, s, n, m);
    assert Abandoned(d, n, 0, 1) == if Ref(d, n, 0) != 0 then 1 else 0;
    assert BlockHeld(w.d, n, 0, w, [x], 0);
  }

  lemma RunsOfTwo(d: Disk, names: seq<seq<byte>>, j1: Job, j2: Job)
    requires Dir(d, names) && FileName(j1.name) && |j1.data| < WORD32 && FileName(j2.name) && |j2.data| < WORD32
    ensures var (d1, names1) := RunJob(d, names, j1);
      Dir(d1, names1) && Jobs([j1, j2]) && RunJobs(d, names, [j1, j2]) == RunJob(d1, names1, j2)
  {
    hide Dir, RunJob;
    RunJobKeepsDir(d, names, j1);
    var (d1, names1) := RunJob(d, names, j1);
    RunOfOne(d1, names1, j2);
    assert [j1, j2][1..] == [j2];
  }

  lemma RunOfOne(d: Disk, names: seq<seq<byte>>, j: Job)
    requires Dir(d, names) && FileName(j.name) && |j.data| < WORD32
    ensures Jobs([j]) && RunJobs(d, names, [j]) == RunJob(d, names, j)
  {
    hide Dir, RunJob;
    RunJobKeepsDir(d, names, j);
    var (d1, names1) := RunJob(d, names, j);
    assert [j][1..] == [];
    assert RunJobs(d1, names1, []) == (d1, names1);
  }

  /** Writing a file again loses a block: on any new disk with room for two, after the same file has been
      written twice with one byte each. */
  lemma RewriteLoses(d: Disk, s: seq<byte>, x: byte, y: byte)
    requires Raw(d) && |d| > DATA_AT + 2 && FileName(s)
    ensures var js := [Job(s, [x]), Job(s, [y])];
      Dir(Made(d), [[DOT]]) && Jobs(js) &&
      var (d', names) := RunJobs(Made(d), [[DOT]], js);
      Dir(d', names) && names == [[DOT], s] && Formatted(d') && |Lost(d')| == 1
  {
    hide Dir, PtrInv, Made, RunJob, Ref, FreeBlocks, NoneLost, Lost;
    var j1, j2, d0 := Job(s, [x]), Job(s, [y]), Made(d);
    MadeFree(d);
    NoneLostIs(d0);
    SecondPlace(s);
    OneByte(d0, [[DOT]], s, x, 1);
    RunsOfTwo(d0, [[DOT]], j1, j2);
    OneByte(RunJob(d0, [[DOT]], j1).0, [[DOT], s], s, y, 1);
  }
}
