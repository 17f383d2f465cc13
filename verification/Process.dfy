/** create_process and process_kill (kernel/arch/i386/process.c, kernel/sched.c) over the heap and the
    frames in place. */
module Process {
  import opened Wrappers
  import opened Words
  import opened SeqLemmas
  import H = HeapModel
  import HL = HeapLemmas
  import opened Heap
  import opened Frames
  import opened Spaces
  import opened MemMan
  import opened Lifecycle

  /** The heap blocks of a process, and its page directory.  The first two blocks hold the arrays `frames`
      and `pts` of addr_space_t. */
  datatype Record = Record(blocks: Proc, pd: nat)

  /** The first data word of the block whose header is at `at`. */
  function First(at: nat): nat { W(at) + 2 }

  /** A null block is one that kalloc could not give; the source goes on and writes through it. */
  datatype CreateResult = Created(r: Record) | NoFrames | NullBlock | NeverReturns

  /** Five requests granted one after the other. */
  lemma FiveGranted(h: H.State, n: nat, hs: seq<H.State>, ats: seq<nat>)
    requires |hs| == 6 && |ats| == 5 && hs[0] == h
    requires forall i :: 0 <= i < 5 ==> H.Alloc(hs[i], Sizes(n)[i]) == (hs[i + 1], Some(ats[i] + H.HEADER))
    ensures Granted(h, Sizes(n))
    ensures AllocAll(h, Sizes(n)) == (hs[5], Blocks(Proc(ats[0], ats[1], ats[2], ats[3], ats[4], n)))
  {
    hide H.Alloc, H.Round;
    var z, b := Sizes(n), Blocks(Proc(ats[0], ats[1], ats[2], ats[3], ats[4], n));
    assert z[5..] == [] && b[5..] == [];
    for i := 5 downto 0
      invariant Granted(hs[i], z[i..]) && AllocAll(hs[i], z[i..]) == (hs[5], b[i..])
    {
      FiveFrom(hs[i], z, i, hs[i + 1], ats[i]);
      assert b[i] == H.Slot(ats[i], H.Round(z[i])) && b[i..] == [b[i]] + b[i + 1..];
    }
    assert z[0..] == z && b[0..] == b;
  }

  lemma FiveFrom(h: H.State, z: seq<nat>, i: nat, h': H.State, at: nat)
    requires i < |z| && H.Alloc(h, z[i]) == (h', Some(at + H.HEADER)) && Granted(h', z[i + 1..])
    ensures Granted(h, z[i..])
    ensures AllocAll(h, z[i..]) ==
      (AllocAll(h', z[i + 1..]).0, [H.Slot(at, H.Round(z[i]))] + AllocAll(h', z[i + 1..]).1)
  {
    assert z[i..][1..] == z[i + 1..] && z[i..][0] == z[i];
  }

  /** There are blocks for the two arrays. */
  predicate ArraysGranted(h: H.State, n: nat) { Granted(h, Sizes(n)[..2]) }

  lemma TwoGranted(h: H.State, n: nat)
    ensures ArraysGranted(h, n) <==>
      H.Alloc(h, n * WORD).1.Some? && H.Alloc(H.Alloc(h, n * WORD).0, NumTables(n) * WORD).1.Some?
  {
    hide H.Alloc, NumTables;
    var a, b := n * WORD, NumTables(n) * WORD;
    assert Sizes(n)[..2] == [a, b] && [a, b][1..] == [b] && [b][1..] == [];
    var h1 := H.Alloc(h, a).0;
    assert Granted(H.Alloc(h1, b).0, []);
    assert Granted(h1, [b]) <==> H.Alloc(h1, b).1.Some?;
    assert Granted(h, [a, b]) <==> H.Alloc(h, a).1.Some? && Granted(h1, [b]);
  }

  lemma ThreeGranted(h: H.State)
    ensures var (h1, a) := H.Alloc(h, ADDR_SPACE_SIZE); var (h2, b) := H.Alloc(h1, PROC_INFO_SIZE);
      OthersGranted(h) <==> a.Some? && b.Some? && H.Alloc(h2, TSS_SIZE).1.Some?
  {
    hide H.Alloc;
    var s := [ADDR_SPACE_SIZE, PROC_INFO_SIZE, TSS_SIZE];
    assert s[1..] == [PROC_INFO_SIZE, TSS_SIZE] && s[1..][1..] == [TSS_SIZE] && s[1..][1..][1..] == [];
    var h1 := H.Alloc(h, ADDR_SPACE_SIZE).0;
    var h2 := H.Alloc(h1, PROC_INFO_SIZE).0;
    assert Granted(H.Alloc(h2, TSS_SIZE).0, []);
    assert Granted(h2, [TSS_SIZE]) <==> H.Alloc(h2, TSS_SIZE).1.Some?;
    assert Granted(h1, s[1..]) <==> H.Alloc(h1, PROC_INFO_SIZE).1.Some? && Granted(h2, [TSS_SIZE]);
    assert Granted(h, s) <==> H.Alloc(h, ADDR_SPACE_SIZE).1.Some? && Granted(h1, s[1..]);
  }

  /** There are blocks for the other three requests. */
  predicate OthersGranted(h: H.State) { Granted(h, [ADDR_SPACE_SIZE, PROC_INFO_SIZE, TSS_SIZE]) }

  /** What creating a process of `n` pages comes to, given the heap and the frames that are free.  It succeeds exactly
      when the heap grants all five blocks and there are frames for the space; it fails for want of a directory
      exactly when the two arrays are granted and no frame is free; it does not come back exactly when there are some
      frames but not enough; in every other case kalloc gives null. */
  predicate Foretold(c: CreateResult, h: H.State, free: seq<nat>, n: nat)
  {
    && (c.Created? <==> Granted(h, Sizes(n)) && Need(n) <= |free|)
    && (c.NoFrames? <==> ArraysGranted(h, n) && free == [])
    && (c.NeverReturns? <==> ArraysGranted(h, n) && 0 < |free| < Need(n))
  }

  /** All five are granted exactly when the two are and then the three. */
  lemma GrantedInTwo(h0: H.State, h1: H.State, h2: H.State, n: nat, at0: nat, at1: nat)
    requires H.Alloc(h0, n * WORD) == (h1, Some(at0)) && H.Alloc(h1, NumTables(n) * WORD) == (h2, Some(at1))
    ensures Granted(h0, Sizes(n)) <==> OthersGranted(h2)
  {
    hide H.Alloc, NumTables;
    var z := Sizes(n);
    assert z[1..][0] == NumTables(n) * WORD && z[1..][1..] == [ADDR_SPACE_SIZE, PROC_INFO_SIZE, TSS_SIZE];
    assert Granted(h1, z[1..]) <==> Granted(h2, z[1..][1..]);
  }

  lemma AllThenArrays(h: H.State, n: nat)
    requires Granted(h, Sizes(n))
    ensures ArraysGranted(h, n)
  {
    hide H.Alloc, NumTables;
    var z := Sizes(n);
    TwoGranted(h, n);
    assert Granted(H.Alloc(h, z[0]).0, z[1..]);
  }

  /** The five blocks of a process have been taken from the heap. */
  ghost predicate CreatedFrom(h: H.State, h': H.State, p: Proc, n: nat)
  {
    p.n == n && Granted(h, Sizes(n)) && AllocAll(h, Sizes(n)) == (h', Blocks(p))
  }

  /** The same memory is in use and the same memory is free. */
  ghost predicate HeapKept(h: H.State, h': H.State)
  {
    h'.length == h.length && Elems(h'.used) == Elems(h.used) && Elems(h'.free) == Elems(h.free)
  }

  /** What the arrays in the blocks at `b0` and `b1` say, in the words of the heap. */
  ghost predicate RecordIn(m: seq<nat>, b0: nat, b1: nat, pd: nat, l: seq<nat>, n: nat)
  {
    && l != [] && pd == l[0] * FRAME_LEN && TwoRanges(|m|, First(b0), n, First(b1), NumTables(n))
    && Recorded(m[First(b0)..First(b0) + n], l, n)
    && RecordedTables(m[First(b1)..First(b1) + NumTables(n)], l, NumTables(n))
  }

  ghost predicate RecordOf(m: seq<nat>, r: Record, l: seq<nat>, n: nat)
  {
    RecordIn(m, r.blocks.frames, r.blocks.pts, r.pd, l, n)
  }

  /** The data of slots in use is the same. */
  ghost predicate PayloadKept(m: seq<nat>, m': seq<nat>, used: seq<H.Slot>)
  {
    |m'| == |m| && forall s, w: nat :: s in used && Data(s, w) && w < |m| ==> m'[w] == m[w]
  }

  lemma PayloadOn(m0: seq<nat>, m1: seq<nat>, m2: seq<nat>, used: seq<H.Slot>, used': seq<H.Slot>)
    requires PayloadKept(m0, m1, used) && PayloadKept(m1, m2, used') && forall s :: s in used ==> s in used'
    ensures PayloadKept(m0, m2, used)
  {
  }

  lemma PayloadLess(m: seq<nat>, m': seq<nat>, used: seq<H.Slot>, used': seq<H.Slot>)
    requires PayloadKept(m, m', used) && forall s :: s in used' ==> s in used
    ensures PayloadKept(m, m', used')
  {
  }

  /** The blocks of the two arrays, of `n` pages. */
  function FramesBlock(at: nat, n: nat): H.Slot { H.Slot(at, H.Round(n * WORD)) }

  function PtsBlock(at: nat, n: nat): H.Slot { H.Slot(at, H.Round(NumTables(n) * WORD)) }

  /** Both blocks are in use. */
  ghost predicate ArraysIn(h: H.State, b0: nat, b1: nat, n: nat)
  {
    FramesBlock(b0, n) in h.used && PtsBlock(b1, n) in h.used && FramesBlock(b0, n) != PtsBlock(b1, n)
  }

  /** The payloads of these blocks are the arrays. */
  lemma ArraysArePayload(h: H.State, b0: nat, b1: nat, n: nat)
    requires H.Inv(h) && ArraysIn(h, b0, b1, n)
    ensures forall w: nat :: Data(FramesBlock(b0, n), w) <==> First(b0) <= w < First(b0) + n
    ensures forall w: nat :: Data(PtsBlock(b1, n), w) <==> First(b1) <= w < First(b1) + NumTables(n)
    ensures TwoRanges(h.length / 4, First(b0), n, First(b1), NumTables(n))
  {
    hide H.Inv;
    var s, t := FramesBlock(b0, n), PtsBlock(b1, n);
    DataWords(h, s);
    DataWords(h, t);
    TwoSlots(h, s, t);
  }

  /** The record stands as long as the data of the blocks in use does. */
  lemma ArraysStay(m: seq<nat>, m': seq<nat>, h: H.State, r: Record, l: seq<nat>)
    requires H.Inv(h) && PayloadKept(m, m', h.used) && ArraysIn(h, r.blocks.frames, r.blocks.pts, r.blocks.n)
    requires RecordOf(m, r, l, r.blocks.n)
    ensures RecordOf(m', r, l, r.blocks.n)
  {
    hide H.Inv, Data, FramesBlock, PtsBlock, Recorded, RecordedTables, NumTables;
    var b0, b1, n := r.blocks.frames, r.blocks.pts, r.blocks.n;
    ArraysArePayload(h, b0, b1, n);
    forall w: nat | First(b0) <= w < First(b0) + n ensures m'[w] == m[w] { assert Data(FramesBlock(b0, n), w); }
    forall w: nat | First(b1) <= w < First(b1) + NumTables(n) ensures m'[w] == m[w] {
      assert Data(PtsBlock(b1, n), w);
    }
    SameStretch(m, m', First(b0), n);
    SameStretch(m, m', First(b1), NumTables(n));
  }

  lemma SameStretch(m: seq<nat>, m': seq<nat>, o: nat, n: nat)
    requires |m'| == |m| && o + n <= |m| && forall w: nat :: o <= w < o + n ==> m'[w] == m[w]
    ensures m'[o..o + n] == m[o..o + n]
  {
  }

  lemma BlocksInRange(heap: Region, p: Proc)
    requires heap.Valid() && forall b :: b in Blocks(p) ==> b in heap.st.used
    ensures forall b :: b in Blocks(p) ==> heap.base + b.at + H.HEADER < WORD32
    ensures forall i :: 0 <= i < 5 ==> FreedBlocks(p)[i] in heap.st.used && FreedBlocks(p)[i].at == FreeOrder(p)[i]
    ensures heap.base + p.frames + H.HEADER < WORD32 && heap.base + p.pts + H.HEADER < WORD32
    ensures heap.base + p.tss + H.HEADER < WORD32 && heap.base + p.arch + H.HEADER < WORD32
    ensures heap.base + p.space + H.HEADER < WORD32
  {
    forall b | b in Blocks(p) ensures heap.base + b.at + H.HEADER < WORD32 { OneSlot(heap.st, heap.mem[..], b); }
    var b := Blocks(p);
    assert b[0] in b && b[1] in b && b[2] in b && b[3] in b && b[4] in b;
  }

  lemma FreedOneByOne(h: H.State, p: Proc)
    ensures FreeAll(h, FreeOrder(p)) ==
      H.Free(H.Free(H.Free(H.Free(H.Free(h, p.frames).0, p.pts).0, p.tss).0, p.arch).0, p.space).0
  {
    hide H.Free;
    FreeCons(h, p.frames, [p.pts, p.tss, p.arch, p.space]);
    var h1 := H.Free(h, p.frames).0;
    FreeCons(h1, p.pts, [p.tss, p.arch, p.space]);
    var h2 := H.Free(h1, p.pts).0;
    FreeCons(h2, p.tss, [p.arch, p.space]);
    var h3 := H.Free(h2, p.tss).0;
    FreeCons(h3, p.arch, [p.space]);
    FreeCons(H.Free(h3, p.arch).0, p.space, []);
    assert [p.space] + [] == [p.space] && [p.arch] + [p.space] == [p.arch, p.space];
    assert [p.tss] + [p.arch, p.space] == [p.tss, p.arch, p.space];
    assert [p.pts] + [p.tss, p.arch, p.space] == [p.pts, p.tss, p.arch, p.space];
    assert [p.frames] + [p.pts, p.tss, p.arch, p.space] == FreeOrder(p);
  }

  lemma FreeCons(h: H.State, at: int, rest: seq<int>)
    ensures FreeAll(h, [at] + rest) == FreeAll(H.Free(h, at).0, rest)
  {
    assert ([at] + rest)[1..] == rest;
  }

  lemma OrderInRange(frames: seq<nat>, pts: seq<nat>, l: seq<nat>, n: nat, count: nat)
    requires 0 < n <= ENTRIES && |frames| == n && |pts| == NumTables(n) && Need(n) <= |l|
    requires forall i :: 0 <= i < Need(n) ==> l[i] < count
    requires FramesOf(frames) + FramesOf(pts) + [FrameOf(l[0] * FRAME_LEN)] == DropOrder(l[..Need(n)], n)
    ensures forall i :: 0 <= i < Need(n) ==> DropOrder(l[..Need(n)], n)[i] < count
    ensures AllBelow(FramesOf(frames), count) && AllBelow(FramesOf(pts), count)
    ensures FrameOf(l[0] * FRAME_LEN) < count
  {
    var r := DropOrder(l[..Need(n)], n);
    forall i | 0 <= i < Need(n) ensures r[i] < count {
      var x := DropPlace(l[..Need(n)], n, i);
      assert l[..Need(n)][x] == l[x];
    }
    var fs, ps := FramesOf(frames), FramesOf(pts);
    assert forall i :: 0 <= i < |fs| ==> r[i] == fs[i];
    assert forall i :: 0 <= i < |ps| ==> r[n + i] == ps[i];
    PlusOneHarmless(l[0]);
  }

  /** Two blocks given back in the order in which they were taken leave the heap as it was. */
  lemma TwoBack(h0: H.State, h1: H.State, h2: H.State, s0: nat, s1: nat, a0: nat, a1: nat)
    requires H.Inv(h0) && H.Alloc(h0, s0) == (h1, Some(a0 + H.HEADER)) && H.Alloc(h1, s1) == (h2, Some(a1 + H.HEADER))
    ensures HeapKept(h0, H.Free(H.Free(h2, a0).0, a1).0)
  {
    hide H.Inv, H.Alloc, H.Free;
    var q0, q1 := H.Slot(a0, H.Round(s0)), H.Slot(a1, H.Round(s1));
    HL.AllocInv(h0, s0);
    HL.AllocPayload(h0, s0);
    HL.AllocInv(h1, s1);
    HL.AllocPayload(h1, s1);
    assert h1.used[0] == q0 && h2.used[0] == q1 && q0 in h2.used && q1 in h2.used;
    FreeOne(h2, q0);
    var h3 := H.Free(h2, a0).0;
    assert q1 in Elems(h3.used);
    FreeOne(h3, q1);
    assert Elems(h2.used) == Elems(h0.used) + {q0} + {q1};
    HL.FreeSetDetermined(h0, H.Free(h3, a1).0);
  }

  lemma PayloadShrinks(m0: seq<nat>, m1: seq<nat>, m2: seq<nat>, used: seq<H.Slot>, used': seq<H.Slot>)
    requires PayloadKept(m0, m1, used) && PayloadKept(m1, m2, used') && forall s :: s in used' ==> s in used
    ensures PayloadKept(m0, m2, used')
  {
  }

  /** What is written into the two arrays leaves the lists and the data of the other blocks alone. */
  lemma ArraysWritten(h: H.State, m: seq<nat>, m': seq<nat>, base: nat, b0: nat, b1: nat, n: nat, others: seq<H.Slot>)
    requires H.Inv(h) && Encodes(m, base, h) && ArraysIn(h, b0, b1, n)
    requires BesideBoth(m, m', First(b0), n, First(b1), NumTables(n))
    requires forall s :: s in others ==> s in h.used && s != FramesBlock(b0, n) && s != PtsBlock(b1, n)
    ensures Encodes(m', base, h) && PayloadKept(m, m', others)
  {
    hide H.Inv, Linked, H.Round;
    var s, t := FramesBlock(b0, n), PtsBlock(b1, n);
    ArraysArePayload(h, b0, b1, n);
    StoreKeeps(h, m, m', base, s, t);
    forall x, w: nat | x in others && Data(x, w) && w < |m| ensures m'[w] == m[w] {
      DataApart(h, x, s);
      DataApart(h, x, t);
      assert !Data(s, w) && !Data(t, w);
    }
  }

  class Kernel {
    const heap: Region
    const mm: Memory
    /** The frame of the kernel's page directory. */
    const kern: nat

    ghost predicate Valid()
      reads this, heap, heap.mem, mm, mm.counts
    {
      && heap.Valid() && mm.Valid()
      && heap.mem != mm.counts && heap.mem != mm.ns && heap.mem != mm.phys
      && kern < mm.counts.Length && mm.counts[kern] != 0
    }

    constructor (heap: Region, mm: Memory, kern: nat)
      requires heap.Valid() && mm.Valid() && kern < mm.counts.Length && mm.counts[kern] != 0
      requires heap.mem != mm.counts && heap.mem != mm.ns && heap.mem != mm.phys
      ensures Valid() && this.heap == heap && this.mm == mm && this.kern == kern
    {
      this.heap, this.mm, this.kern := heap, mm, kern;
    }

    /** alloc_addr_space on the heap blocks for its two arrays, which it writes in place. */
    method BuildIn(n: nat, b0: nat, b1: nat, ghost others: seq<H.Slot>) returns (o: Outcome)
      requires Valid() && n > 0 && KERN_PD + NumTables(n) <= ENTRIES && ArraysIn(heap.st, b0, b1, n)
      requires forall s :: s in others ==> s in heap.st.used && s != FramesBlock(b0, n) && s != PtsBlock(b1, n)
      modifies heap.mem, mm.counts, mm.ns, mm.phys
      ensures heap.Valid() && mm.Valid() && PayloadKept(old(heap.mem[..]), heap.mem[..], others)
      ensures o.NoDirectory? <==> old(Free(mm.counts[..])) == []
      ensures o.Built? <==> Need(n) <= |old(Free(mm.counts[..]))|
      ensures o.NoDirectory? ==> mm.counts[..] == old(mm.counts[..]) && mm.phys[..] == old(mm.phys[..])
      ensures o.Built? ==> BuiltFrom(old(mm.counts[..]), mm.counts[..], old(mm.phys[..]), mm.phys[..], n, kern)
      ensures o.Built? ==> RecordIn(heap.mem[..], b0, b1, o.pd, old(Free(mm.counts[..])), n)
    {
      hide H.Inv, BuiltFrom, Recorded, RecordedTables, Free, Encodes, H.Round, BesideBoth, PayloadKept;
      ghost var m := heap.mem[..];
      EncodedLength(heap);
      ArraysArePayload(heap.st, b0, b1, n);
      o := mm.Build(n, kern, heap.mem, First(b0), First(b1));
      ArraysWritten(heap.st, m, heap.mem[..], heap.base, b0, b1, n, others);
    }

    /** Two kalloc calls for the arrays, and the building. */
    method NewSpace(n: nat) returns (b0: Option<nat>, b1: Option<nat>, o: Outcome, ghost h1: H.State)
      requires Valid() && 0 < n && n * WORD <= 0xFFFF_FFF4 && KERN_PD + NumTables(n) <= ENTRIES
      modifies heap`st, heap.mem, mm.counts, mm.ns, mm.phys
      ensures heap.Valid() && mm.Valid()
      ensures b0.Some? && b1.Some? <==> ArraysGranted(old(heap.st), n)
      ensures b0.Some? && b1.Some? ==>
        && H.Alloc(old(heap.st), n * WORD) == (h1, Some(b0.value + H.HEADER))
        && H.Alloc(h1, NumTables(n) * WORD) == (heap.st, Some(b1.value + H.HEADER))
        && heap.base + b0.value + H.HEADER < WORD32 && heap.base + b1.value + H.HEADER < WORD32
        && ArraysIn(heap.st, b0.value, b1.value, n)
        && PayloadKept(old(heap.mem[..]), heap.mem[..], old(heap.st.used))
        && (forall s :: s in old(heap.st.used) ==> s in heap.st.used)
        && (o.NoDirectory? <==> old(Free(mm.counts[..])) == [])
        && (o.Built? <==> Need(n) <= |old(Free(mm.counts[..]))|)
        && (o.NoDirectory? ==> mm.counts[..] == old(mm.counts[..]) && mm.phys[..] == old(mm.phys[..]))
        && (o.Built? ==> BuiltFrom(old(mm.counts[..]), mm.counts[..], old(mm.phys[..]), mm.phys[..], n, kern))
        && (o.Built? ==> RecordIn(heap.mem[..], b0.value, b1.value, o.pd, old(Free(mm.counts[..])), n))
    {
      hide H.Inv, H.Alloc, H.Free, BuiltFrom, RecordIn, Free, H.Round, PayloadKept, Encodes, NumTables;
      ghost var m0, used := heap.mem[..], heap.st.used;
      TablesFewer(n);
      TwoGranted(heap.st, n);
      b1, o := None, NoDirectory;
      b0, h1 := KAlloc(n * WORD);
      h1 := heap.st;
      if b0.None? { return; }
      ghost var m1 := heap.mem[..];
      ghost var h;
      b1, h := KAlloc(NumTables(n) * WORD);
      if b1.None? { return; }
      ghost var m2 := heap.mem[..];
      PayloadOn(m0, m1, m2, used, h1.used);
      o := BuildIn(n, b0.value, b1.value, used);
      PayloadOn(m0, m2, heap.mem[..], used, used);
    }

    /** alloc_addr_space and the rest of create_process.  Data in other blocks of the heap is kept. */
    method Create(textLen: nat) returns (c: CreateResult)
      requires Valid() && textLen + DATA_LEN < 0xBFFF_F000
      modifies heap`st, heap.mem, mm.counts, mm.ns, mm.phys
      ensures heap.Valid() && mm.Valid()
      ensures Foretold(c, old(heap.st), old(Free(mm.counts[..])), Pages(textLen))
      ensures c.Created? ==> CreatedFrom(old(heap.st), heap.st, c.r.blocks, Pages(textLen))
      ensures c.Created? ==> BuiltFrom(old(mm.counts[..]), mm.counts[..], old(mm.phys[..]), mm.phys[..],
        Pages(textLen), kern)
      ensures c.Created? ==> RecordOf(heap.mem[..], c.r, old(Free(mm.counts[..])), Pages(textLen))
      ensures c.NoFrames? ==> HeapKept(old(heap.st), heap.st)
      ensures c.NoFrames? ==> mm.counts[..] == old(mm.counts[..]) && mm.phys[..] == old(mm.phys[..])
      ensures c.Created? || c.NoFrames? ==> PayloadKept(old(heap.mem[..]), heap.mem[..], old(heap.st.used))
    {
      hide H.Inv, H.Alloc, H.Free, BuiltFrom, Free, CreatedFrom, RecordIn, PayloadKept, H.Round, Encodes, NumTables,
        HeapKept;
      ghost var h0, m0 := heap.st, heap.mem[..];
      var n := (textLen + DATA_LEN) / FRAME_LEN + 1;
      PagesFit(textLen);
      EncodedLength(heap);
      if Granted(h0, Sizes(n)) { AllThenArrays(h0, n); }
      var b0, b1, o, h1 := NewSpace(n);
      if b0.None? || b1.None? { return NullBlock; }
      if o.Stuck? { return NeverReturns; }
      if o.NoDirectory? {
        ghost var m2 := heap.mem[..];
        GiveBack(n, b0.value, b1.value, h0, h1);
        PayloadOn(m0, m2, heap.mem[..], h0.used, h0.used);
        return NoFrames;
      }
      GrantedInTwo(h0, h1, heap.st, n, b0.value + H.HEADER, b1.value + H.HEADER);
      ghost var m2, used2 := heap.mem[..], heap.st.used;
      var r := Three(n, b0.value, b1.value, o.pd, h0, h1, Free(old(mm.counts[..])));
      if r.None? { return NullBlock; }
      PayloadOn(m0, m2, heap.mem[..], h0.used, used2);
      return Created(r.value);
    }

    /** The failure for want of a directory: the two arrays are freed again. */
    method GiveBack(n: nat, b0: nat, b1: nat, ghost h0: H.State, ghost h1: H.State)
      requires heap.Valid() && H.Inv(h0) && heap.base + b0 + H.HEADER < WORD32 && heap.base + b1 + H.HEADER < WORD32
      requires H.Alloc(h0, n * WORD) == (h1, Some(b0 + H.HEADER))
      requires H.Alloc(h1, NumTables(n) * WORD) == (heap.st, Some(b1 + H.HEADER))
      modifies heap`st, heap.mem
      ensures heap.Valid() && HeapKept(h0, heap.st) && PayloadKept(old(heap.mem[..]), heap.mem[..], h0.used)
    {
      hide H.Inv, H.Alloc, H.Free, H.Round, PayloadKept, Encodes, NumTables;
      TwoBack(h0, h1, heap.st, n * WORD, NumTables(n) * WORD, b0, b1);
      ghost var m := heap.mem[..];
      KFree(b0);
      ghost var m1, used1 := heap.mem[..], heap.st.used;
      KFree(b1);
      PayloadShrinks(m, m1, heap.mem[..], used1, heap.st.used);
      SameElems(heap.st.used, h0.used);
      PayloadLess(m, heap.mem[..], heap.st.used, h0.used);
    }

    /** The other three blocks of a process. */
    method Three(n: nat, b0: nat, b1: nat, pd: nat, ghost h0: H.State, ghost h1: H.State, ghost l: seq<nat>)
      returns (r: Option<Record>)
      requires heap.Valid() && RecordIn(heap.mem[..], b0, b1, pd, l, n) && ArraysIn(heap.st, b0, b1, n)
      requires H.Alloc(h0, n * WORD) == (h1, Some(b0 + H.HEADER))
      requires H.Alloc(h1, NumTables(n) * WORD) == (heap.st, Some(b1 + H.HEADER))
      modifies heap`st, heap.mem
      ensures heap.Valid() && PayloadKept(old(heap.mem[..]), heap.mem[..], old(heap.st.used))
      ensures r.Some? <==> OthersGranted(old(heap.st))
      ensures r.Some? ==> CreatedFrom(h0, heap.st, r.value.blocks, n) && RecordOf(heap.mem[..], r.value, l, n)
    {
      hide H.Inv, H.Alloc, H.Round, PayloadKept, Encodes, NumTables, CreatedFrom, RecordIn, Blocks;
      EncodedLength(heap);
      ghost var h2, m2 := heap.st, heap.mem[..];
      PayloadSame(m2, h2.used);
      ThreeGranted(h2);
      var b2, _ := KAlloc(ADDR_SPACE_SIZE);
      ghost var h3, m3 := heap.st, heap.mem[..];
      if b2.None? { return None; }
      var b3, _ := KAlloc(PROC_INFO_SIZE);
      ghost var h4, m4 := heap.st, heap.mem[..];
      PayloadOn(m2, m3, m4, h2.used, h3.used);
      if b3.None? { return None; }
      var b4, _ := KAlloc(TSS_SIZE);
      PayloadOn(m2, m4, heap.mem[..], h2.used, h4.used);
      if b4.None? { return None; }
      var p := Proc(b0, b1, b2.value, b3.value, b4.value, n);
      FiveCreated(h0, p, [h0, h1, h2, h3, h4, heap.st]);
      r := Some(Record(p, pd));
      ArraysStay(m2, heap.mem[..], h2, r.value, l);
    }

    /** process_kill, as far as heap and frames go: free_addr_space, then destroy_process.  `l` lists the
        frames that were free when the process was created. */
    method Kill(r: Record, ghost l: seq<nat>)
      requires Valid() && 0 < r.blocks.n <= ENTRIES && RecordOf(heap.mem[..], r, l, r.blocks.n)
      requires Increasing(l) && Need(r.blocks.n) <= |l|
      requires forall i :: 0 <= i < Need(r.blocks.n) ==> l[i] < mm.counts.Length
      requires NoDup(Blocks(r.blocks)) && forall b :: b in Blocks(r.blocks) ==> b in heap.st.used
      modifies heap`st, heap.mem, mm.counts
      ensures heap.Valid() && mm.Valid()
      ensures Freeable(old(heap.st), FreeOrder(r.blocks)) && heap.st == FreeAll(old(heap.st), FreeOrder(r.blocks))
      ensures forall i :: 0 <= i < Need(r.blocks.n) ==>
        DropOrder(l[..Need(r.blocks.n)], r.blocks.n)[i] < mm.counts.Length
      ensures mm.counts[..] == DropAll(old(mm.counts[..]), DropOrder(l[..Need(r.blocks.n)], r.blocks.n))
      ensures PayloadKept(old(heap.mem[..]), heap.mem[..], heap.st.used)
    {
      hide H.Inv, H.Free, Blocks, FreeAll, Freeable, Recorded, RecordedTables, DropAll, DropOrder, Increasing,
        NumTables, Encodes, PayloadKept, FramesOf;
      ghost var p, n, m := r.blocks, r.blocks.n, heap.mem[..];
      BlocksInRange(heap, p);
      FreeAllRemoves(heap.st, FreeOrder(p), FreedBlocks(p));
      var fo, po := First(r.blocks.frames), First(r.blocks.pts);
      ghost var frames, pts := m[fo..fo + n], m[po..po + NumTables(n)];
      RecordReleases(frames, pts, l, n);
      OrderInRange(frames, pts, l, n, mm.counts.Length);
      assert heap.mem[fo..fo + n] == frames && heap.mem[po..po + NumTables(n)] == pts;
      mm.Release(heap.mem, fo, r.blocks.n, po, NumTables(r.blocks.n), r.pd);
      FreeFive(r.blocks);
    }

    /** The five calls of kfree. */
    method FreeFive(p: Proc)
      requires heap.Valid() && (forall b :: b in Blocks(p) ==> b in heap.st.used)
      modifies heap`st, heap.mem
      ensures heap.Valid() && heap.st == FreeAll(old(heap.st), FreeOrder(p))
      ensures PayloadKept(old(heap.mem[..]), heap.mem[..], heap.st.used)
    {
      hide H.Inv, H.Free, Blocks, FreeAll, Encodes, PayloadKept, FreeOrder;
      BlocksInRange(heap, p);
      FreedOneByOne(heap.st, p);
      ghost var m0 := heap.mem[..];
      KFree(p.frames);
      ghost var m1, u1 := heap.mem[..], heap.st.used;
      KFree(p.pts);
      ghost var m2, u2 := heap.mem[..], heap.st.used;
      PayloadShrinks(m0, m1, m2, u1, u2);
      KFree(p.tss);
      ghost var m3, u3 := heap.mem[..], heap.st.used;
      PayloadShrinks(m0, m2, m3, u2, u3);
      KFree(p.arch);
      ghost var m4, u4 := heap.mem[..], heap.st.used;
      PayloadShrinks(m0, m3, m4, u3, u4);
      KFree(p.space);
      PayloadShrinks(m0, m4, heap.mem[..], u4, heap.st.used);
    }

    /** kalloc, in terms of the heap's abstract state. */
    method KAlloc(size: nat) returns (at: Option<nat>, ghost h: H.State)
      requires heap.Valid() && size <= 0xFFFF_FFF4
      modifies heap`st, heap.mem
      ensures heap.Valid() && h == old(heap.st)
      ensures at.None? ==> heap.st == h && H.Alloc(h, size) == (h, None)
      ensures at.Some? ==> H.Alloc(h, size) == (heap.st, Some(at.value + H.HEADER))
      ensures at.Some? ==> heap.base + at.value + H.HEADER < WORD32
      ensures at.Some? ==> heap.st.used == [H.Slot(at.value, H.Round(size))] + h.used
      ensures at.Some? ==> H.Slot(at.value, H.Round(size)) !in h.used
      ensures PayloadKept(old(heap.mem[..]), heap.mem[..], h.used)
    {
      hide H.Inv, H.Alloc;
      h := heap.st;
      var p := heap.Alloc(size);
      GrantedAt(h, size);
      if p == 0 { return None, h; }
      HL.AllocPayload(h, size);
      return Some(p - heap.base - H.HEADER), h;
    }

    /** kfree of the block whose header is at `at`. */
    method KFree(at: nat)
      requires heap.Valid() && heap.base + at + H.HEADER < WORD32
      modifies heap`st, heap.mem
      ensures heap.Valid() && heap.st == H.Free(old(heap.st), at).0
      ensures forall s :: s in heap.st.used ==> s in old(heap.st.used)
      ensures PayloadKept(old(heap.mem[..]), heap.mem[..], heap.st.used)
    {
      hide H.Inv, H.Free;
      var r := heap.Free(heap.base + at + H.HEADER);
    }
  }

  lemma EncodedLength(heap: Region)
    requires heap.Valid()
    ensures heap.mem.Length == heap.st.length / 4 && H.Inv(heap.st)
  {
  }

  lemma PagesFit(textLen: nat)
    requires textLen + DATA_LEN < 0xBFFF_F000
    ensures Pages(textLen) == (textLen + DATA_LEN) / FRAME_LEN + 1 && Pages(textLen) * WORD <= 0xFFFF_FFF4
    ensures KERN_PD + NumTables(Pages(textLen)) <= ENTRIES
  {
  }

  lemma TablesFewer(n: nat)
    ensures NumTables(n) * WORD <= n * WORD + WORD && (n > 0 ==> NumTables(n) <= n)
  {
  }

  lemma PayloadSame(m: seq<nat>, used: seq<H.Slot>)
    ensures PayloadKept(m, m, used)
  {
  }

  lemma SameElems(s: seq<H.Slot>, t: seq<H.Slot>)
    requires Elems(s) == Elems(t)
    ensures forall x :: x in s <==> x in t
  {
    forall x ensures x in s <==> x in t { assert x in Elems(s) <==> x in Elems(t); }
  }

  /** Five grants make a process. */
  lemma FiveCreated(h: H.State, p: Proc, hs: seq<H.State>)
    requires |hs| == 6 && hs[0] == h
    requires H.Alloc(hs[0], p.n * WORD) == (hs[1], Some(p.frames + H.HEADER))
    requires H.Alloc(hs[1], NumTables(p.n) * WORD) == (hs[2], Some(p.pts + H.HEADER))
    requires H.Alloc(hs[2], ADDR_SPACE_SIZE) == (hs[3], Some(p.space + H.HEADER))
    requires H.Alloc(hs[3], PROC_INFO_SIZE) == (hs[4], Some(p.arch + H.HEADER))
    requires H.Alloc(hs[4], TSS_SIZE) == (hs[5], Some(p.tss + H.HEADER))
    ensures CreatedFrom(h, hs[5], p, p.n)
  {
    hide H.Alloc, H.Round, NumTables, Blocks;
    FiveGranted(h, p.n, hs, [p.frames, p.pts, p.space, p.arch, p.tss]);
  }

  /** What alloc returns is the offset of data behind a header, never null. */
  lemma GrantedAt(h: H.State, size: nat)
    ensures H.Alloc(h, size).1.Some? ==> H.Alloc(h, size).1.value >= H.HEADER
    ensures H.Alloc(h, size).1.None? ==> H.Alloc(h, size) == (h, None)
  {
  }
}
