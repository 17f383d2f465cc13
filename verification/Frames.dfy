/** Reference counted page frames (kernel/memman.c) and the page table entries that name them
    (kernel/arch/i386/paging.c). */
module Frames {
  import B = Bytes

  const FRAME_LEN: nat := 0x1000
  const ENTRIES: nat := 1024
  /** The user half of a page directory begins here: 1 GB / (4 KB * 1024). */
  const KERN_PD: nat := 256
  const USER_MEM: nat := 0x4000_0000

  // ---------------------------------------------------------------- free frames

  /** The free frames from frame `from` on, lowest first. */
  function FreeList(counts: seq<nat>, from: nat): (r: seq<nat>)
    requires from <= |counts|
    ensures forall i :: 0 <= i < |r| ==> from <= r[i] < |counts| && counts[r[i]] == 0
    ensures forall i, j :: 0 <= i < j < |r| ==> r[i] < r[j]
    ensures forall f :: from <= f < |counts| && counts[f] == 0 ==> f in r
    decreases |counts| - from
  {
    if from == |counts| then []
    else if counts[from] == 0 then [from] + FreeList(counts, from + 1)
    else FreeList(counts, from + 1)
  }

  function Free(counts: seq<nat>): seq<nat> { FreeList(counts, 0) }

  /** The counts after each frame of `a` has been taken. */
  function Taken(counts: seq<nat>, a: seq<nat>): (r: seq<nat>)
    ensures |r| == |counts|
    ensures forall f :: 0 <= f < |r| ==> r[f] == if f in a then 1 else counts[f]
  {
    seq(|counts|, f requires 0 <= f < |counts| => if f in a then 1 else counts[f])
  }

  /** Taking the lowest free frame leaves the others free. */
  lemma {:induction false} FreeAfterFirst(counts: seq<nat>, from: nat)
    requires from <= |counts| && FreeList(counts, from) != []
    ensures FreeList(counts[FreeList(counts, from)[0] := 1], from) == FreeList(counts, from)[1..]
    decreases |counts| - from
  {
    hide FreeList;
    FreeStep(counts, from);
    var f := FreeList(counts, from)[0];
    FreeStep(counts[f := 1], from);
    if counts[from] == 0 {
      FreeListSuffix(counts, counts[f := 1], from + 1);
    } else {
      FreeAfterFirst(counts, from + 1);
    }
  }

  lemma FreeStep(counts: seq<nat>, from: nat)
    requires from <= |counts|
    ensures from == |counts| ==> FreeList(counts, from) == []
    ensures from < |counts| && counts[from] == 0 ==> FreeList(counts, from) == [from] + FreeList(counts, from + 1)
    ensures from < |counts| && counts[from] != 0 ==> FreeList(counts, from) == FreeList(counts, from + 1)
  {
  }

  lemma {:induction false} FreeListSuffix(c1: seq<nat>, c2: seq<nat>, from: nat)
    requires |c1| == |c2| && from <= |c1| && forall i :: from <= i < |c1| ==> c1[i] == c2[i]
    ensures FreeList(c1, from) == FreeList(c2, from)
    decreases |c1| - from
  {
    if from < |c1| { FreeListSuffix(c1, c2, from + 1); }
  }

  /** After the first k free frames are taken, the k-th is the lowest that is free. */
  lemma {:induction false} FreeAfter(counts: seq<nat>, k: nat)
    requires k <= |Free(counts)|
    ensures Free(Taken(counts, Free(counts)[..k])) == Free(counts)[k..]
  {
    if k == 0 {
      assert Taken(counts, []) == counts;
    } else {
      var l := Free(counts);
      var c := Taken(counts, l[..k - 1]);
      FreeAfter(counts, k - 1);
      assert Free(c)[0] == l[k - 1];
      FreeAfterFirst(c, 0);
      TakenSnoc(counts, l, k - 1);
    }
  }

  lemma TakenSnoc(counts: seq<nat>, l: seq<nat>, k: nat)
    requires k < |l| && l[k] < |counts|
    ensures Taken(counts, l[..k])[l[k] := 1] == Taken(counts, l[..k + 1])
  {
    assert l[..k + 1] == l[..k] + [l[k]];
  }

  // ---------------------------------------------------------------- entries

  // The bits PG_PRESENT, PG_READWRITE and PG_USER of an entry.
  const PRESENT: nat := 0
  const READWRITE: nat := 1
  const USER: nat := 2

  /** f|PG_PRESENT|PG_USER|PG_READWRITE: the low three bits set. */
  function Entry(w: nat): nat { w / 8 * 8 + 7 }

  /** It sets these three bits and keeps every other. */
  lemma EntryBits(w: nat, k: nat)
    ensures B.Bit(Entry(w), k) <==> k == PRESENT || k == READWRITE || k == USER || B.Bit(w, k)
  {
    LowBits(Entry(w), k);
    LowBits(w, k);
  }

  lemma LowBits(w: nat, k: nat)
    ensures B.Bit(w, 0) <==> w % 2 == 1
    ensures B.Bit(w, 1) <==> w / 2 % 2 == 1
    ensures B.Bit(w, 2) <==> w / 2 / 2 % 2 == 1
    ensures k > 2 ==> B.Bit(w, k) == B.Bit(w / 8, k - 3)
  {
    assert w / 2 / 2 / 2 == w / 8;
    assert B.Bit(w, 1) == B.Bit(w / 2, 0);
    assert B.Bit(w, 2) == B.Bit(w / 2, 1) == B.Bit(w / 2 / 2, 0);
    if k > 2 { assert B.Bit(w, k) == B.Bit(w / 2, k - 1) == B.Bit(w / 2 / 2, k - 2) == B.Bit(w / 2 / 2 / 2, k - 3); }
  }

  function LowBit(b: bv32): (r: nat)
    ensures r < 2
  {
    if b & 1 == 1 then 1 else 0
  }

  function Half(b: bv32): bv32 { b >> 1 }

  function Or(b: bv32, m: bv32): bv32 { b | m }

  /** The number that the low `n` bits of a word are. */
  function Number(b: bv32, n: nat): nat { if n == 0 then 0 else LowBit(b) + 2 * Number(Half(b), n - 1) }

  /** On 32 bit words it is the operation of the source. */
  lemma EntryIsBitOr(b: bv32)
    ensures Number(b | 1 | 4 | 2, 32) == Entry(Number(b, 32))
  {
    hide LowBit, Half, Number, Or;
    OneOr(b);
    OrBits(b);
    HighBits(b, 32);
    HighBits(Or(b, 7), 32);
  }

  lemma OneOr(b: bv32)
    ensures b | 1 | 4 | 2 == Or(b, 7)
  {
  }

  lemma OrBits(b: bv32)
    ensures var c := Or(b, 7);
      LowBit(c) == LowBit(Half(c)) == LowBit(Half(Half(c))) == 1 && Half(Half(Half(c))) == Half(Half(Half(b)))
  {
    hide LowBit, Half, Or;
    Seven();
    HalfOr(b, 7);
    HalfOr(Half(b), 3);
    HalfOr(Half(Half(b)), 1);
    LowOr(b, 7);
    LowOr(Half(b), 3);
    LowOr(Half(Half(b)), 1);
    OrNothing(Half(Half(Half(b))));
  }

  lemma HalfOr(b: bv32, m: bv32)
    ensures Half(Or(b, m)) == Or(Half(b), Half(m))
  {
  }

  lemma LowOr(b: bv32, m: bv32)
    requires LowBit(m) == 1
    ensures LowBit(Or(b, m)) == 1
  {
  }

  lemma OrNothing(b: bv32)
    ensures Or(b, 0) == b
  {
  }

  lemma Seven()
    ensures Half(7) == 3 && Half(3) == 1 && Half(1) == 0 && LowBit(7) == LowBit(3) == LowBit(1) == 1
  {
  }

  lemma HighBits(b: bv32, n: nat)
    requires n >= 3
    ensures Number(b, n) == LowBit(b) + 2 * LowBit(Half(b)) + 4 * LowBit(Half(Half(b)))
                            + 8 * Number(Half(Half(Half(b))), n - 3)
  {
    hide LowBit, Half;
    var c := Half(b);
    var d := Half(c);
    assert Number(b, n) == LowBit(b) + 2 * Number(c, n - 1);
    assert Number(c, n - 1) == LowBit(c) + 2 * Number(d, n - 2);
    assert Number(d, n - 2) == LowBit(d) + 2 * Number(Half(d), n - 3);
  }

  /** The page or table of an entry can be read and written by a user's process. */
  predicate Open(e: nat) { B.Bit(e, PRESENT) && B.Bit(e, READWRITE) && B.Bit(e, USER) }

  /** The frame an entry, or an address within a frame, names. */
  function FrameOf(w: nat): nat { w / FRAME_LEN }

  /** The stray "+1" on page addresses changes neither the entry nor the frame that is freed. */
  lemma PlusOneHarmless(f: nat)
    ensures Entry(f * FRAME_LEN + 1) == Entry(f * FRAME_LEN)
    ensures FrameOf(Entry(f * FRAME_LEN + 1)) == f && FrameOf(Entry(f * FRAME_LEN)) == f
    ensures FrameOf(f * FRAME_LEN + 1) == f && FrameOf(f * FRAME_LEN) == f
  {
  }

  /** The entry of a frame is its address and the three bits. */
  lemma EntryOpen(f: nat)
    ensures Entry(f * FRAME_LEN) == Entry(f * FRAME_LEN + 1) == f * 0x1000 + 7
    ensures Open(Entry(f * FRAME_LEN)) && FrameOf(Entry(f * FRAME_LEN)) == f
  {
    hide B.Bit;
    PlusOneHarmless(f);
    EntryBits(f * FRAME_LEN, PRESENT);
    EntryBits(f * FRAME_LEN, READWRITE);
    EntryBits(f * FRAME_LEN, USER);
  }

  /** The entries on the way of an address: that of the directory in frame `pd`, and that of the table. */
  function DirWord(words: seq<nat>, pd: nat, va: nat): nat
    requires pd * ENTRIES + va / (FRAME_LEN * ENTRIES) < |words|
  {
    words[pd * ENTRIES + va / (FRAME_LEN * ENTRIES)]
  }

  function PageWord(words: seq<nat>, pd: nat, va: nat): nat
    requires pd * ENTRIES + va / (FRAME_LEN * ENTRIES) < |words|
  {
    var i := FrameOf(DirWord(words, pd, va)) * ENTRIES + va / FRAME_LEN % ENTRIES;
    if i < |words| then words[i] else 0
  }

  /** The two-level walk: the frame that the directory in frame `pd` maps the address to. */
  function Walk(words: seq<nat>, pd: nat, va: nat): nat
    requires pd * ENTRIES + va / (FRAME_LEN * ENTRIES) < |words|
  {
    FrameOf(PageWord(words, pd, va))
  }
}
