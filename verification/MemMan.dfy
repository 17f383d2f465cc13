/** kernel/memman.c in place: the reference counts of the page frames, and the building of a page
    directory and page tables in frames that it takes itself. */
module MemMan {
  import opened Frames
  import opened Spaces

  // ---------------------------------------------------------------- how far the building has come

  /** `l` lists the free frames before the building began.  Of these `x` are taken, the directory names
      the first `i` tables, and the first `p` pages are in their tables. */
  ghost predicate Progress(w0: seq<nat>, w: seq<nat>, l: seq<nat>, x: nat, i: nat, p: nat)
  {
    && 1 <= x <= |l| && |w| == |w0| && InRange(w, l)
    && SameOutside(w0, w, l[..x])
    && KERN_PD + i <= ENTRIES && (i > 0 ==> TableAt(i - 1) < x) && (p > 0 ==> PageAt(p - 1) < x)
    && (forall t :: 0 <= t < i ==> TableAt(t) < |l| && DirEntry(w, l, t))
    && (forall k :: 0 <= k < p ==> PageAt(k) < |l| && TableAt(k / ENTRIES) < |l| && PageEntry(w, l, k))
    && (forall t :: i <= t < ENTRIES - KERN_PD ==> DirZero(w, l, t))
  }

  ghost predicate DirZero(w: seq<nat>, l: seq<nat>, t: nat)
    requires InRange(w, l) && |l| > 0 && KERN_PD + t < ENTRIES
  {
    w[l[0] * ENTRIES + KERN_PD + t] == 0
  }

  /** The first `x` frames of `l` may be swapped: their bit against it is clear. */
  ghost predicate Swapped(ns: seq<nat>, l: seq<nat>, x: nat)
  {
    x <= |l| && forall i :: 0 <= i < x && l[i] < |ns| ==> ns[l[i]] == 0
  }

  ghost predicate Increasing(l: seq<nat>) { forall i, j :: 0 <= i < j < |l| ==> l[i] < l[j] }

  /** Words of different frames, or different words of a frame, are different. */
  lemma OtherWord(l: seq<nat>, y: nat, q: nat, z: nat, r: nat)
    requires Increasing(l) && y < |l| && z < |l| && q < ENTRIES && r < ENTRIES && (y != z || q != r)
    ensures l[y] * ENTRIES + q != l[z] * ENTRIES + r
  {
    assert l[y] != l[z] || y == z;
  }

  lemma InFrame(l: seq<nat>, x: nat, y: nat, q: nat)
    requires y < x <= |l| && q < ENTRIES
    ensures (l[y] * ENTRIES + q) / ENTRIES in l[..x]
  {
    assert l[..x][y] == l[y];
    assert (l[y] * ENTRIES + q) / ENTRIES == l[y];
  }

  lemma TookOne(w0: seq<nat>, w: seq<nat>, l: seq<nat>, x: nat, i: nat, p: nat)
    requires Progress(w0, w, l, x, i, p) && x < |l|
    ensures Progress(w0, w, l, x + 1, i, p)
  {
    assert l[..x + 1] == l[..x] + [l[x]];
  }

  lemma PagePlace(p: nat)
    ensures PageAt(p) == TableAt(p / ENTRIES) + 1 + p % ENTRIES && TableAt(p / ENTRIES) > 0
    ensures forall k :: 0 <= k < p ==> k / ENTRIES != p / ENTRIES || k % ENTRIES != p % ENTRIES
    ensures forall k :: 0 <= k < p ==> k / ENTRIES != p / ENTRIES ==> TableAt(k / ENTRIES) != TableAt(p / ENTRIES)
  {
  }

  /** A write to a frame other than the directory's keeps the directory. */
  lemma DirKept(w: seq<nat>, w': seq<nat>, l: seq<nat>, y: nat, q: nat, v: nat, t: nat)
    requires Increasing(l) && InRange(w, l) && 0 < y < |l| && q < ENTRIES && KERN_PD + t < ENTRIES
    requires l[y] * ENTRIES + q < |w| && w' == w[l[y] * ENTRIES + q := v]
    ensures InRange(w', l) && (DirZero(w, l, t) ==> DirZero(w', l, t))
    ensures TableAt(t) < |l| && DirEntry(w, l, t) ==> DirEntry(w', l, t)
  {
    OtherWord(l, y, q, 0, KERN_PD + t);
  }

  /** A write to another word of the tables keeps the entry of a page. */
  lemma PageKept(w: seq<nat>, w': seq<nat>, l: seq<nat>, y: nat, q: nat, v: nat, k: nat)
    requires Increasing(l) && InRange(w, l) && y < |l| && q < ENTRIES
    requires TableAt(k / ENTRIES) < |l| && PageAt(k) < |l| && (y != TableAt(k / ENTRIES) || q != k % ENTRIES)
    requires l[y] * ENTRIES + q < |w| && w' == w[l[y] * ENTRIES + q := v] && PageEntry(w, l, k)
    ensures InRange(w', l) && PageEntry(w', l, k)
  {
    hide PageAt, TableAt;
    OtherWord(l, y, q, TableAt(k / ENTRIES), k % ENTRIES);
  }

  /** A write to one of the frames taken is no write outside them. */
  lemma OutsideKept(w0: seq<nat>, w: seq<nat>, w': seq<nat>, l: seq<nat>, x: nat, y: nat, q: nat, v: nat)
    requires y < x <= |l| && SameOutside(w0, w, l[..x]) && q < ENTRIES
    requires l[y] * ENTRIES + q < |w| && w' == w[l[y] * ENTRIES + q := v]
    ensures SameOutside(w0, w', l[..x])
  {
    InFrame(l, x, y, q);
  }

  /** The next page goes into its table. */
  lemma AddedPage(w0: seq<nat>, w: seq<nat>, l: seq<nat>, x: nat, i: nat, p: nat) returns (at: nat)
    requires Progress(w0, w, l, x, i, p) && Increasing(l)
    requires PageAt(p) + 1 == x && p / ENTRIES == i
    ensures at == l[TableAt(i)] * ENTRIES + p % ENTRIES && at < |w|
    ensures Progress(w0, w[at := Entry(l[PageAt(p)] * FRAME_LEN + 1)], l, x, i, p + 1)
  {
    hide PageAt, TableAt, DirEntry, DirZero, Increasing, SameOutside;
    PagePlace(p);
    var y, q, v := TableAt(i), p % ENTRIES, Entry(l[PageAt(p)] * FRAME_LEN + 1);
    at := l[y] * ENTRIES + q;
    var w' := w[at := v];
    OutsideKept(w0, w, w', l, x, y, q, v);
    forall t | 0 <= t < i ensures DirEntry(w', l, t) { DirKept(w, w', l, y, q, v, t); }
    forall t | i <= t < ENTRIES - KERN_PD ensures DirZero(w', l, t) { DirKept(w, w', l, y, q, v, t); }
    forall k | 0 <= k < p ensures PageAt(k) < |l| && TableAt(k / ENTRIES) < |l| && PageEntry(w', l, k) {
      PageKept(w, w', l, y, q, v, k);
    }
  }

  /** The finished table goes into the directory. */
  lemma AddedTable(w0: seq<nat>, w: seq<nat>, l: seq<nat>, x: nat, i: nat, p: nat) returns (at: nat)
    requires Progress(w0, w, l, x, i, p) && Increasing(l) && TableAt(i) < x && KERN_PD + i < ENTRIES
    ensures at == l[0] * ENTRIES + KERN_PD + i && at < |w|
    ensures Progress(w0, w[at := Entry(l[TableAt(i)] * FRAME_LEN)], l, x, i + 1, p)
  {
    hide SameOutside;
    var v := Entry(l[TableAt(i)] * FRAME_LEN);
    at := l[0] * ENTRIES + KERN_PD + i;
    var w' := w[at := v];
    OutsideKept(w0, w, w', l, x, 0, KERN_PD + i, v);
    forall t | 0 <= t < i + 1 ensures DirEntry(w', l, t) {
      if t < i { assert DirEntry(w, l, t); }
    }
    forall t | i + 1 <= t < ENTRIES - KERN_PD ensures DirZero(w', l, t) { assert DirZero(w, l, t); }
    forall k | 0 <= k < p ensures PageEntry(w', l, k) {
      PageKept(w, w', l, 0, KERN_PD + i, v, k);
    }
  }

  /** The last of the first `p` pages whose number is `j` modulo the size of a table. */
  function Last(p: nat, j: nat): (k: nat)
    requires j < p && j < ENTRIES
    ensures k < p && k % ENTRIES == j
  {
    if j < p % ENTRIES then p / ENTRIES * ENTRIES + j else p / ENTRIES * ENTRIES - ENTRIES + j
  }

  /** What alloc_addr_space records of the first `p` pages: it uses the place in the table as the index,
      so a later table overwrites the record of an earlier one. */
  ghost predicate Recorded(frames: seq<nat>, l: seq<nat>, p: nat)
  {
    p <= |frames| && forall j :: 0 <= j < p && j < ENTRIES ==>
      PageAt(Last(p, j)) < |l| && frames[j] == l[PageAt(Last(p, j))] * FRAME_LEN + 1
  }

  ghost predicate RecordedTables(pts: seq<nat>, l: seq<nat>, i: nat)
  {
    i <= |pts| && forall t :: 0 <= t < i ==> TableAt(t) < |l| && pts[t] == l[TableAt(t)] * FRAME_LEN
  }

  const FRAME_USER: nat := 0

  datatype Outcome = Built(pd: nat) | NoDirectory | Stuck

  class Memory {
    const counts: array<nat>  // frame_map[].count, 8 bits
    const ns: array<nat>      // frame_map[].ns
    const phys: array<nat>    // all of physical memory, in words

    ghost predicate Valid()
      reads this
    {
      counts.Length == ns.Length && phys.Length == counts.Length * ENTRIES
      && counts != ns && counts != phys && ns != phys
    }

    /** get_free_frame: the lowest frame with count 0. */
    method GetFreeFrame() returns (f: nat, error: bool)
      requires Valid()
      ensures error <==> Free(counts[..]) == []
      ensures !error ==> f == Free(counts[..])[0] && f < counts.Length
      ensures error ==> f == 0
    {
      for i := 0 to counts.Length
        invariant forall k :: 0 <= k < i ==> counts[k] != 0
      {
        if counts[i] == 0 {
          LowestFree(counts[..], i);
          return i, false;
        }
      }
      NoneFree(counts[..], 0);
      return 0, true;
    }

    method UseFrame(f: nat, flags: nat)
      requires Valid() && f < counts.Length
      modifies counts, ns
      ensures counts[..] == old(counts[..])[f := (old(counts[f]) + 1) % 256]
      ensures ns[..] == old(ns[..])[f := flags % 2]
    {
      counts[f] := (counts[f] + 1) % 256;
      ns[f] := flags % 2;
    }

    /** memman_alloc_frame: the address of the lowest free frame. */
    method AllocFrame(flags: nat) returns (addr: nat, error: bool)
      requires Valid()
      modifies counts, ns
      ensures error <==> old(Free(counts[..])) == []
      ensures !error ==>
        && addr == old(Free(counts[..])[0]) * FRAME_LEN
        && counts[..] == old(counts[..][Free(counts[..])[0] := 1])
        && ns[..] == old(ns[..])[old(Free(counts[..])[0]) := flags % 2]
      ensures error ==> addr == 0 && counts[..] == old(counts[..]) && ns[..] == old(ns[..])
    {
      var f;
      f, error := GetFreeFrame();
      if error { return 0, true; }
      UseFrame(f, flags);
      return f * FRAME_LEN, false;
    }

    /** memman_free_frame: a count of 0 stays 0. */
    method FreeFrame(f: nat)
      requires f < counts.Length
      modifies counts
      ensures counts[..] == old(counts[..])[f := if old(counts[f]) != 0 then old(counts[f]) - 1 else 0]
    {
      if counts[f] != 0 { counts[f] := counts[f] - 1; }
    }

    /** AllocFrame when the first `x` of the frames that were free at first are taken. */
    method NextFrame(ghost c0: seq<nat>, ghost x: nat) returns (addr: nat, error: bool)
      requires Valid() && x <= |Free(c0)| && counts[..] == Taken(c0, Free(c0)[..x])
      modifies counts, ns
      ensures error <==> x == |Free(c0)|
      ensures !error ==> addr == Free(c0)[x] * FRAME_LEN && counts[..] == Taken(c0, Free(c0)[..x + 1])
      ensures !error && Swapped(old(ns[..]), Free(c0), x) ==> Swapped(ns[..], Free(c0), x + 1)
      ensures error ==> counts[..] == old(counts[..])
    {
      FreeAfter(c0, x);
      if x < |Free(c0)| { TakenSnoc(c0, Free(c0), x); }
      addr, error := AllocFrame(FRAME_USER);
    }

    /** How far the building has come, of counts, bits, memory and the record of the pages, which is in the `n` words
        of `store` from `fo` on. */
    ghost predicate Doing(store: array<nat>, fo: nat, n: nat, c0: seq<nat>, w0: seq<nat>, x: nat, i: nat, p: nat)
      reads counts, ns, phys, store
    {
      && x <= |Free(c0)| && counts[..] == Taken(c0, Free(c0)[..x]) && Swapped(ns[..], Free(c0), x)
      && Progress(w0, phys[..], Free(c0), x, i, p)
      && fo + n <= store.Length && Recorded(store[fo..fo + n], Free(c0), p)
    }

    /** The memory of the heap is none of the three. */
    predicate Apart(store: array<nat>) { store != counts && store != ns && store != phys }

    /** One pass of the inner loop of alloc_addr_space: page `p`, the j-th of the table at `pt`. */
    method AddPage(j: nat, pt: nat, store: array<nat>, fo: nat, ghost n: nat, ghost c0: seq<nat>, ghost w0: seq<nat>,
        ghost i: nat, ghost p: nat)
      returns (error: bool)
      requires Valid() && Apart(store) && p < n && i == p / ENTRIES && j == p % ENTRIES && |c0| == counts.Length
      requires Doing(store, fo, n, c0, w0, PageAt(p), i, p) && pt == Free(c0)[TableAt(i)] * FRAME_LEN
      modifies counts, ns, phys, store
      ensures Beside(old(store[..]), store[..], fo, n)
      ensures error <==> PageAt(p) == |Free(c0)|
      ensures !error ==> Doing(store, fo, n, c0, w0, PageAt(p) + 1, i, p + 1)
    {
      hide Swapped, Progress, Recorded, PageAt, Free, Increasing;
      FreeIncreasing(c0);
      var page;
      page, error := NextFrame(c0, PageAt(p));
      ghost var f := store[fo..fo + n];
      store[fo + j] := page + 1;
      if error { return; }
      assert store[fo..fo + n] == f[j := page + 1];
      RecordPage(f, Free(c0), p);
      TookOne(w0, phys[..], Free(c0), PageAt(p), i, p);
      ghost var at := AddedPage(w0, phys[..], Free(c0), PageAt(p) + 1, i, p);
      phys[pt / 4 + j] := Entry(store[fo + j]);
    }

    /** The inner loop of alloc_addr_space: up to a table full of the `left0` pages that remain, for table
        `i`, whose frame is at `pt`. */
    method FillTable(i: nat, n: nat, left0: nat, pt: nat, store: array<nat>, fo: nat, ghost c0: seq<nat>,
        ghost w0: seq<nat>)
      returns (ok: bool, left: nat, ghost p: nat)
      requires Valid() && Apart(store)
      requires |c0| == counts.Length && i < NumTables(n) && left0 == n - i * ENTRIES && TableAt(i) < |Free(c0)|
      requires Doing(store, fo, n, c0, w0, TableAt(i) + 1, i, i * ENTRIES) && pt == Free(c0)[TableAt(i)] * FRAME_LEN
      modifies counts, ns, phys, store
      ensures p == if left0 < ENTRIES then n else (i + 1) * ENTRIES
      ensures Beside(old(store[..]), store[..], fo, n)
      ensures ok <==> TableAt(i) + 1 + p - i * ENTRIES <= |Free(c0)|
      ensures ok ==> left == n - p && Doing(store, fo, n, c0, w0, TableAt(i) + 1 + p - i * ENTRIES, i, p)
    {
      hide Doing, Beside, TableAt, PageAt, NumTables, Free;
      InStore(store, fo, n, c0, w0, TableAt(i) + 1, i, i * ENTRIES);
      TableTurn(i, n);
      ghost var v0 := store[..];
      BesideSelf(v0, fo, n);
      var j := 0;
      left := left0;
      p := if left0 < ENTRIES then n else (i + 1) * ENTRIES;
      while j < ENTRIES && left != 0
        invariant j <= ENTRIES && left == n - (i * ENTRIES + j) && i * ENTRIES + j <= p
        invariant TableAt(i) + 1 + j <= |Free(c0)| && Beside(v0, store[..], fo, n)
        invariant Doing(store, fo, n, c0, w0, TableAt(i) + 1 + j, i, i * ENTRIES + j)
      {
        PageStep(i, j);
        ghost var v := store[..];
        var error := AddPage(j, pt, store, fo, n, c0, w0, i, i * ENTRIES + j);
        BesideOn(v0, v, store[..], fo, n);
        if error { return false, left, p; }
        left, j := left - 1, j + 1;
      }
      ok := true;
    }

    lemma InStore(store: array<nat>, fo: nat, n: nat, c0: seq<nat>, w0: seq<nat>, x: nat, i: nat, p: nat)
      requires Doing(store, fo, n, c0, w0, x, i, p)
      ensures fo + n <= store.Length
    {
    }

    /** bzero( as->pd, FRAME_LEN ) */
    method ZeroFrame(f: nat)
      requires Valid() && f < counts.Length
      modifies phys
      ensures Zeroed(old(phys[..]), phys[..], f, ENTRIES)
    {
      for i := 0 to ENTRIES
        invariant Zeroed(old(phys[..]), phys[..], f, i)
      {
        phys[f * ENTRIES + i] := 0;
      }
    }

    /** The last loop of alloc_addr_space. */
    method CopyKernelHalf(pd: nat, kern: nat)
      requires Valid() && pd < counts.Length && kern < counts.Length && pd != kern
      modifies phys
      ensures HalfCopied(old(phys[..]), phys[..], pd, kern, KERN_PD)
    {
      ghost var w := phys[..];
      for i := 0 to KERN_PD
        invariant HalfCopied(w, phys[..], pd, kern, i)
      {
        ghost var v := phys[..];
        phys[pd * ENTRIES + i] := phys[kern * ENTRIES + i];
        forall k | 0 <= k < i + 1 ensures HalfWord(w, phys[..], pd, kern, k) {
          if k < i { assert HalfWord(w, v, pd, kern, k); }
        }
      }
    }

    /** The table at `pt` goes into the directory as the i-th. */
    method EnterTable(i: nat, pd: nat, pt: nat, ghost store: array<nat>, ghost fo: nat, ghost n: nat,
        ghost c0: seq<nat>, ghost w0: seq<nat>, ghost p: nat)
      requires Valid() && Apart(store) && Doing(store, fo, n, c0, w0, 2 + i + p, i, p)
      requires |c0| == counts.Length && TableAt(i) < 2 + i + p && KERN_PD + i < ENTRIES && Free(c0) != []
      requires pd == Free(c0)[0] * FRAME_LEN && pt == Free(c0)[TableAt(i)] * FRAME_LEN
      modifies phys
      ensures Doing(store, fo, n, c0, w0, 2 + i + p, i + 1, p)
    {
      hide Swapped, Progress, Recorded, Taken, Free, Increasing, TableAt;
      FreeIncreasing(c0);
      ghost var at := AddedTable(w0, phys[..], Free(c0), 2 + i + p, i, p);
      phys[pd / 4 + KERN_PD + i] := Entry(pt);
    }

    /** One pass of the outer loop of alloc_addr_space: table `i` and its pages. */
    method AddTable(i: nat, n: nat, left0: nat, pd: nat, store: array<nat>, fo: nat, po: nat, ghost c0: seq<nat>,
        ghost w0: seq<nat>)
      returns (ok: bool, left: nat)
      requires Valid() && Apart(store) && TwoRanges(store.Length, fo, n, po, NumTables(n)) && |c0| == counts.Length
      requires i < NumTables(n) && KERN_PD + NumTables(n) <= ENTRIES && left0 == n - i * ENTRIES
      requires Doing(store, fo, n, c0, w0, TableAt(i), i, i * ENTRIES) && pd == Free(c0)[0] * FRAME_LEN
      requires RecordedTables(store[po..po + NumTables(n)], Free(c0), i)
      modifies counts, ns, phys, store
      ensures BesideBoth(old(store[..]), store[..], fo, n, po, NumTables(n))
      ensures ok <==> 2 + i + PagesIn(i + 1, n) <= |Free(c0)|
      ensures ok ==> left == n - PagesIn(i + 1, n)
      ensures ok ==> Doing(store, fo, n, c0, w0, 2 + i + PagesIn(i + 1, n), i + 1, PagesIn(i + 1, n))
      ensures ok ==> RecordedTables(store[po..po + NumTables(n)], Free(c0), i + 1)
    {
      hide Swapped, Progress, Recorded, RecordedTables, NumTables, TableAt, PagesIn, Taken, Free, Increasing, Beside,
        BesideBoth, Need, Entry;
      TableTurn(i, n);
      ghost var v0 := store[..];
      var ok1, pt := TakeTable(i, n, store, fo, po, c0, w0);
      ghost var v1 := store[..];
      if !ok1 { return false, left0; }
      ghost var p;
      ok, left, p := FillTable(i, n, left0, pt, store, fo, c0, w0);
      PagesStored(v0, v1, store[..], fo, n, po, NumTables(n));
      SliceAt(v1, po, NumTables(n), i);
      SliceAt(store[..], po, NumTables(n), i);
      if ok {
        assert TableAt(i) + 1 + p - i * ENTRIES == 2 + i + p && p == PagesIn(i + 1, n);
        EnterTable(i, pd, store[po + i], store, fo, n, c0, w0, p);
      }
    }

    /** A frame for the i-th table, which the record of the tables names. */
    method TakeTable(i: nat, n: nat, store: array<nat>, fo: nat, po: nat, ghost c0: seq<nat>, ghost w0: seq<nat>)
      returns (ok: bool, pt: nat)
      requires Valid() && Apart(store) && TwoRanges(store.Length, fo, n, po, NumTables(n)) && |c0| == counts.Length
      requires i < NumTables(n) && Doing(store, fo, n, c0, w0, TableAt(i), i, i * ENTRIES)
      requires RecordedTables(store[po..po + NumTables(n)], Free(c0), i)
      modifies counts, ns, store
      ensures BesideBoth(old(store[..]), store[..], fo, n, po, NumTables(n))
      ensures ok <==> TableAt(i) < |Free(c0)|
      ensures ok ==> pt == Free(c0)[TableAt(i)] * FRAME_LEN == store[po + i]
      ensures ok ==> Doing(store, fo, n, c0, w0, TableAt(i) + 1, i, i * ENTRIES)
      ensures ok ==> RecordedTables(store[po..po + NumTables(n)], Free(c0), i + 1)
    {
      hide Swapped, Progress, Recorded, RecordedTables, NumTables, TableAt, Taken, Free, BesideBoth;
      var error;
      pt, error := NextFrame(c0, TableAt(i));
      ghost var v0, ps := store[..], store[po..po + NumTables(n)];
      store[po + i] := pt;
      TableStored(v0, store[..], fo, n, po, NumTables(n), i, pt);
      if error { return false, pt; }
      RecordTable(ps, Free(c0), i);
      TookOne(w0, phys[..], Free(c0), TableAt(i), i, i * ENTRIES);
      ok := true;
    }

    /** The directory, in the lowest free frame, cleared. */
    method TakeDirectory(ghost store: array<nat>, ghost fo: nat, ghost n: nat) returns (pd: nat, error: bool)
      requires Valid() && Apart(store) && fo + n <= store.Length
      modifies counts, ns, phys
      ensures error <==> old(Free(counts[..])) == []
      ensures error ==> counts[..] == old(counts[..]) && phys[..] == old(phys[..])
      ensures !error ==> pd == old(Free(counts[..]))[0] * FRAME_LEN && pd / FRAME_LEN < counts.Length
      ensures !error ==> Doing(store, fo, n, old(counts[..]), old(phys[..]), 1, 0, 0)
    {
      hide Swapped, Progress, Recorded, Free, Taken, Zeroed;
      ghost var c0 := counts[..];
      NoneTaken(c0, ns[..], phys[..]);
      pd, error := NextFrame(c0, 0);
      if !error {
        ZeroFrame(pd / FRAME_LEN);
        ZeroedDirectory(old(phys[..]), phys[..], Free(c0));
        NothingRecorded(store[fo..fo + n], [], Free(c0));
      }
    }

    /** alloc_addr_space, once there is memory for its record: `n` words of `store` from `fo` on for the pages,
        and as many as there are tables from `po` on.  Where the source goes into a countdown of an unsigned
        index, which does not end, the outcome is Stuck. */
    method Build(n: nat, kern: nat, store: array<nat>, fo: nat, po: nat) returns (o: Outcome)
      requires Valid() && n > 0 && KERN_PD + NumTables(n) <= ENTRIES && kern < counts.Length && counts[kern] != 0
      requires Apart(store) && TwoRanges(store.Length, fo, n, po, NumTables(n))
      modifies counts, ns, phys, store
      ensures BesideBoth(old(store[..]), store[..], fo, n, po, NumTables(n))
      ensures o.Built? <==> Need(n) <= |old(Free(counts[..]))|
      ensures o.NoDirectory? <==> old(Free(counts[..])) == []
      ensures o.NoDirectory? ==> counts[..] == old(counts[..]) && phys[..] == old(phys[..])
      ensures o.Built? ==> BuiltFrom(old(counts[..]), counts[..], old(phys[..]), phys[..], n, kern)
      ensures o.Built? ==> Swapped(ns[..], old(Free(counts[..])), Need(n))
      ensures o.Built? ==> var l := old(Free(counts[..]));
        && l != [] && o.pd == l[0] * FRAME_LEN
        && Recorded(store[fo..fo + n], l, n) && RecordedTables(store[po..po + NumTables(n)], l, NumTables(n))
    {
      hide Swapped, Progress, Recorded, RecordedTables, BuiltFrom, Free, Taken, TableAt, Increasing, NumTables,
        BesideBoth;
      ghost var c0, w0, v0 := counts[..], phys[..], store[..];
      BothSelf(v0, fo, n, po, NumTables(n));
      ghost var l := Free(c0);
      var pd, error := TakeDirectory(store, fo, n);
      if error { return NoDirectory; }
      NothingRecorded([], store[po..po + NumTables(n)], l);
      FirstTable(n);
      var i, left := 0, n;
      while i < NumTables(n)
        invariant i <= NumTables(n) && left == n - PagesIn(i, n)
        invariant BesideBoth(v0, store[..], fo, n, po, NumTables(n))
        invariant Doing(store, fo, n, c0, w0, 1 + i + PagesIn(i, n), i, PagesIn(i, n))
        invariant RecordedTables(store[po..po + NumTables(n)], l, i)
      {
        TableTurn(i, n);
        ghost var v := store[..];
        var ok;
        ok, left := AddTable(i, n, left, pd, store, fo, po, c0, w0);
        BothOn(v0, v, store[..], fo, n, po, NumTables(n));
        if !ok { return Stuck; }
        i := i + 1;
        assert 2 + (i - 1) + PagesIn(i, n) == 1 + i + PagesIn(i, n);
      }
      AllPages(n);
      ghost var w := phys[..];
      KernelKept(c0, l, kern);
      FreeIncreasing(c0);
      CopyKernelHalf(pd / FRAME_LEN, kern);
      CopiedKernel(w0, w, phys[..], l, Need(n), NumTables(n), n, kern);
      AllBuilt(c0, w0, phys[..], n, kern);
      return Built(pd);
    }

    /** A loop of free_addr_space: each frame recorded in the `n` words gives up one reference. */
    method DropRange(store: array<nat>, fo: nat, n: nat)
      requires Valid() && Apart(store) && fo + n <= store.Length
      requires AllBelow(FramesOf(store[fo..fo + n]), counts.Length)
      modifies counts
      ensures counts[..] == DropAll(old(counts[..]), FramesOf(store[fo..fo + n]))
    {
      ghost var c0, fs := counts[..], FramesOf(store[fo..fo + n]);
      for i := 0 to n
        invariant counts[..] == DropAll(c0, fs[..i])
      {
        assert fs[..i + 1] == fs[..i] + [fs[i]];
        DropSnoc(c0, fs[..i], fs[i]);
        FreeFrame(store[fo + i] / FRAME_LEN);
      }
      assert fs[..n] == fs;
    }

    /** The frame half of free_addr_space: pages, tables and directory each give up one reference. */
    method Release(store: array<nat>, fo: nat, n: nat, po: nat, t: nat, pd: nat)
      requires Valid() && Apart(store) && FrameOf(pd) < counts.Length
      requires fo + n <= store.Length && po + t <= store.Length
      requires AllBelow(FramesOf(store[fo..fo + n]), counts.Length)
      requires AllBelow(FramesOf(store[po..po + t]), counts.Length)
      modifies counts
      ensures counts[..] ==
        DropAll(old(counts[..]), FramesOf(store[fo..fo + n]) + FramesOf(store[po..po + t]) + [FrameOf(pd)])
    {
      hide DropAll, FramesOf;
      ghost var c0, fs, ps := counts[..], FramesOf(store[fo..fo + n]), FramesOf(store[po..po + t]);
      DropRange(store, fo, n);
      DropRange(store, po, t);
      DropConcat(c0, fs, ps);
      DropSnoc(c0, fs + ps, FrameOf(pd));
      FreeFrame(pd / FRAME_LEN);
    }
  }

  lemma {:induction false} DropConcat(counts: seq<nat>, a: seq<nat>, b: seq<nat>)
    requires AllBelow(a, |counts|) && AllBelow(b, |counts|)
    ensures DropAll(counts, a + b) == DropAll(DropAll(counts, a), b)
    decreases |a|
  {
    if a == [] {
      assert [] + b == b;
    } else {
      assert (a + b)[1..] == a[1..] + b;
      DropConcat(counts[a[0] := if counts[a[0]] != 0 then counts[a[0]] - 1 else 0], a[1..], b);
    }
  }

  predicate AllBelow(s: seq<nat>, m: nat) { forall i :: 0 <= i < |s| ==> s[i] < m }

  /** Two stretches of words that do not overlap. */
  predicate TwoRanges(size: nat, fo: nat, n: nat, po: nat, t: nat)
  {
    fo + n <= size && po + t <= size && (fo + n <= po || po + t <= fo)
  }

  /** Only words of the stretch differ. */
  ghost predicate Beside(v: seq<nat>, v': seq<nat>, fo: nat, n: nat)
  {
    && |v| == |v'| && fo + n <= |v|
    && (forall k :: 0 <= k < fo ==> v'[k] == v[k])
    && (forall k :: fo + n <= k < |v| ==> v'[k] == v[k])
  }

  /** Only words of the two stretches differ. */
  ghost predicate BesideBoth(v: seq<nat>, v': seq<nat>, fo: nat, n: nat, po: nat, t: nat)
  {
    && |v| == |v'| && TwoRanges(|v|, fo, n, po, t)
    && forall k :: 0 <= k < |v| && !(fo <= k < fo + n) && !(po <= k < po + t) ==> v'[k] == v[k]
  }

  lemma BesideSelf(v: seq<nat>, fo: nat, n: nat)
    requires fo + n <= |v|
    ensures Beside(v, v, fo, n)
  {
  }

  lemma BesideOn(v0: seq<nat>, v1: seq<nat>, v2: seq<nat>, fo: nat, n: nat)
    requires Beside(v0, v1, fo, n) && Beside(v1, v2, fo, n)
    ensures Beside(v0, v2, fo, n)
  {
  }

  lemma TableStored(v0: seq<nat>, v1: seq<nat>, fo: nat, n: nat, po: nat, t: nat, i: nat, pt: nat)
    requires TwoRanges(|v0|, fo, n, po, t) && i < t && v1 == v0[po + i := pt]
    ensures BesideBoth(v0, v1, fo, n, po, t)
    ensures v1[fo..fo + n] == v0[fo..fo + n] && v1[po..po + t] == v0[po..po + t][i := pt]
  {
  }

  lemma SliceAt(v: seq<nat>, o: nat, n: nat, i: nat)
    requires o + n <= |v| && i < n
    ensures v[o..o + n][i] == v[o + i]
  {
  }

  lemma PagesStored(v0: seq<nat>, v1: seq<nat>, v2: seq<nat>, fo: nat, n: nat, po: nat, t: nat)
    requires BesideBoth(v0, v1, fo, n, po, t) && Beside(v1, v2, fo, n)
    ensures BesideBoth(v0, v2, fo, n, po, t)
    ensures TwoRanges(|v1|, fo, n, po, t) && |v2| == |v1| && v2[po..po + t] == v1[po..po + t]
  {
  }

  lemma BothSelf(v: seq<nat>, fo: nat, n: nat, po: nat, t: nat)
    requires TwoRanges(|v|, fo, n, po, t)
    ensures BesideBoth(v, v, fo, n, po, t)
  {
  }

  lemma BothOn(v0: seq<nat>, v1: seq<nat>, v2: seq<nat>, fo: nat, n: nat, po: nat, t: nat)
    requires BesideBoth(v0, v1, fo, n, po, t) && BesideBoth(v1, v2, fo, n, po, t)
    ensures BesideBoth(v0, v2, fo, n, po, t)
  {
  }

  lemma RecordTable(pts: seq<nat>, l: seq<nat>, i: nat)
    requires RecordedTables(pts, l, i) && i < |pts| && TableAt(i) < |l|
    ensures RecordedTables(pts[i := l[TableAt(i)] * FRAME_LEN], l, i + 1)
  {
  }

  lemma FirstTable(n: nat)
    ensures PagesIn(0, n) == 0
  {
  }

  lemma AllPages(n: nat)
    ensures PagesIn(NumTables(n), n) == n
  {
  }

  function FramesOf(s: seq<nat>): (r: seq<nat>)
    ensures |r| == |s| && forall i :: 0 <= i < |s| ==> r[i] == FrameOf(s[i])
  {
    seq(|s|, i requires 0 <= i < |s| => FrameOf(s[i]))
  }

  /** The record alloc_addr_space leaves is the list of the pages exactly for spaces of at most one full
      table: beyond that the record of the first page has been overwritten. */
  lemma RecordIsExact(frames: seq<nat>, l: seq<nat>, n: nat)
    requires 0 < n && Recorded(frames, l, n) && Increasing(l) && Need(n) <= |l|
    ensures (forall k :: 0 <= k < n && k < ENTRIES ==> PageRecord(frames, l, k)) <==> n <= ENTRIES
  {
    hide PageAt, Need, Last;
    PlacesInRange(n, 0);
    if n > ENTRIES {
      LastIs(n, 0);
      PlacesInRange(n, Last(n, 0));
      PlacesDistinct(0, Last(n, 0));
      assert !PageRecord(frames, l, 0);
    } else {
      forall k | 0 <= k < n ensures PageRecord(frames, l, k) {
        PlacesInRange(n, k);
        LastIs(n, k);
      }
    }
  }

  lemma LastIs(n: nat, k: nat)
    requires k < n && k < ENTRIES
    ensures n <= ENTRIES ==> Last(n, k) == k
    ensures n > ENTRIES && k == 0 ==> Last(n, k) > 0
  {
  }

  /** Slot `k` of the record is the address of page `k`, plus one. */
  ghost predicate PageRecord(frames: seq<nat>, l: seq<nat>, k: nat)
  {
    PageAt(k) < |l| && k < |frames| && frames[k] == l[PageAt(k)] * FRAME_LEN + 1
  }

  /** What free_addr_space reads from the record are the frames of the space, each once. */
  lemma RecordReleases(frames: seq<nat>, pts: seq<nat>, l: seq<nat>, n: nat)
    requires 0 < n <= ENTRIES && |frames| == n && |pts| == NumTables(n) && Need(n) <= |l|
    requires Recorded(frames, l, n) && RecordedTables(pts, l, NumTables(n)) && Increasing(l)
    ensures FramesOf(frames) + FramesOf(pts) + [FrameOf(l[0] * FRAME_LEN)] == DropOrder(l[..Need(n)], n)
  {
    var a, r := l[..Need(n)], FramesOf(frames) + FramesOf(pts) + [FrameOf(l[0] * FRAME_LEN)];
    RecordIsExact(frames, l, n);
    forall i | 0 <= i < |r| ensures r[i] == DropOrder(a, n)[i] {
      var x := DropPlace(a, n, i);
      PlusOneHarmless(l[x]);
      if i < n { assert PageRecord(frames, l, i); }
    }
  }

  lemma PageStep(i: nat, j: nat)
    requires j < ENTRIES
    ensures (i * ENTRIES + j) / ENTRIES == i && (i * ENTRIES + j) % ENTRIES == j
    ensures PageAt(i * ENTRIES + j) == TableAt(i) + 1 + j
  {
  }

  lemma TableTurn(i: nat, n: nat)
    requires i < NumTables(n)
    ensures i * ENTRIES <= n && PagesIn(i, n) == i * ENTRIES && TableAt(i) == 1 + i + i * ENTRIES
    ensures PagesIn(i + 1, n) == if n - i * ENTRIES < ENTRIES then n else (i + 1) * ENTRIES
  {
  }

  lemma NoneTaken(c0: seq<nat>, ns: seq<nat>, w: seq<nat>)
    requires |w| == |c0| * ENTRIES
    ensures InRange(w, Free(c0)) && forall i :: 0 <= i < |Free(c0)| ==> Free(c0)[i] < |c0|
    ensures Taken(c0, Free(c0)[..0]) == c0 && Swapped(ns, Free(c0), 0)
  {
  }

  lemma NothingRecorded(frames: seq<nat>, pts: seq<nat>, l: seq<nat>)
    ensures Recorded(frames, l, 0) && RecordedTables(pts, l, 0)
  {
  }

  lemma KernelKept(c0: seq<nat>, l: seq<nat>, kern: nat)
    requires kern < |c0| && c0[kern] != 0 && l == Free(c0)
    ensures kern !in l && forall x :: 0 <= x <= |l| ==> kern !in l[..x]
  {
  }

  lemma PagePrefix(w: seq<nat>, l: seq<nat>, m: nat, k: nat)
    requires m <= |l| && InRange(w, l) && PageAt(k) < m && TableAt(k / ENTRIES) < m && PageEntry(w, l, k)
    ensures InRange(w, l[..m]) && PageEntry(w, l[..m], k)
  {
    var x, y := TableAt(k / ENTRIES), PageAt(k);
    assert l[..m][x] == l[x] && l[..m][y] == l[y];
  }

  lemma DirPrefix(w: seq<nat>, l: seq<nat>, m: nat, t: nat)
    requires m <= |l| && InRange(w, l) && TableAt(t) < m && KERN_PD + t < ENTRIES && DirEntry(w, l, t)
    ensures InRange(w, l[..m]) && DirEntry(w, l[..m], t)
  {
    var x := TableAt(t);
    assert l[..m][x] == l[x] && l[..m][0] == l[0];
  }

  lemma AllBuilt(c0: seq<nat>, w0: seq<nat>, w: seq<nat>, n: nat, kern: nat)
    requires Need(n) <= |Free(c0)| && Progress(w0, w, Free(c0), Need(n), NumTables(n), n)
    requires (kern + 1) * ENTRIES <= |w| && KernelHalf(w, Free(c0)[0], kern)
    ensures BuiltFrom(c0, Taken(c0, Free(c0)[..Need(n)]), w0, w, n, kern)
  {
    hide PageAt, TableAt, Free, PageEntry, DirEntry;
    var l, m := Free(c0), Need(n);
    forall t | 0 <= t < NumTables(n) ensures TableAt(t) < m && InRange(w, l[..m]) && DirEntry(w, l[..m], t) {
      PlacesInRange(n, t);
      DirPrefix(w, l, m, t);
    }
    forall k | 0 <= k < n
      ensures TableAt(k / ENTRIES) < m && PageAt(k) < m && InRange(w, l[..m]) && PageEntry(w, l[..m], k)
    {
      PlacesInRange(n, k);
      PlacesInRange(n, k / ENTRIES);
      PagePrefix(w, l, m, k);
    }
    forall t | NumTables(n) <= t < ENTRIES - KERN_PD ensures DirZero(w, l[..m], t) {
      assert DirZero(w, l, t);
    }
  }

  /** What the counts and memory are after a space of `n` pages has been built. */
  ghost predicate BuiltFrom(c0: seq<nat>, c: seq<nat>, w0: seq<nat>, w: seq<nat>, n: nat, kern: nat)
  {
    Need(n) <= |Free(c0)| &&
    var a := Free(c0)[..Need(n)];
    && c == Taken(c0, a)
    && Mapped(w, a, n) && SameOutside(w0, w, a)
    && (kern + 1) * ENTRIES <= |w| && KernelHalf(w, a[0], kern)
    && (forall t :: NumTables(n) <= t < ENTRIES - KERN_PD ==> DirZero(w, a, t))
  }

  lemma FreeIncreasing(c0: seq<nat>)
    ensures Increasing(Free(c0))
  {
  }

  lemma RecordPage(frames: seq<nat>, l: seq<nat>, p: nat)
    requires Recorded(frames, l, p) && p < |frames| && PageAt(p) < |l|
    ensures Recorded(frames[p % ENTRIES := l[PageAt(p)] * FRAME_LEN + 1], l, p + 1)
  {
    hide Last;
    var frames' := frames[p % ENTRIES := l[PageAt(p)] * FRAME_LEN + 1];
    forall j | 0 <= j < p + 1 && j < ENTRIES
      ensures PageAt(Last(p + 1, j)) < |l| && frames'[j] == l[PageAt(Last(p + 1, j))] * FRAME_LEN + 1
    {
      LastNext(p, j);
      if j != p % ENTRIES { assert PageAt(Last(p, j)) < |l| && frames'[j] == frames[j]; }
    }
  }

  lemma LastNext(p: nat, j: nat)
    requires j <= p && j < ENTRIES
    ensures j != p % ENTRIES ==> j < p
    ensures Last(p + 1, j) == if j == p % ENTRIES then p else Last(p, j)
  {
  }

  /** How many pages the first `i` tables hold. */
  function PagesIn(i: nat, n: nat): nat { if i * ENTRIES < n then i * ENTRIES else n }

  ghost predicate Zeroed(w: seq<nat>, w': seq<nat>, f: nat, n: nat)
  {
    && |w| == |w'| && (f + 1) * ENTRIES <= |w| && n <= ENTRIES
    && (forall i :: f * ENTRIES <= i < f * ENTRIES + n ==> w'[i] == 0)
    && (forall i :: 0 <= i < f * ENTRIES ==> w'[i] == w[i])
    && (forall i :: f * ENTRIES + n <= i < |w| ==> w'[i] == w[i])
  }

  /** bzero of the new directory. */
  lemma ZeroedDirectory(w0: seq<nat>, w: seq<nat>, l: seq<nat>)
    requires |l| > 0 && InRange(w, l) && Zeroed(w0, w, l[0], ENTRIES)
    ensures Progress(w0, w, l, 1, 0, 0)
  {
    forall i | 0 <= i < |w| && i / ENTRIES !in l[..1] ensures w[i] == w0[i] {
      assert l[..1][0] == l[0];
    }
  }

  /** The first `n` words of frame `kern` have been copied to frame `pd`. */
  ghost predicate HalfCopied(w: seq<nat>, w': seq<nat>, pd: nat, kern: nat, n: nat)
  {
    && |w| == |w'| && (pd + 1) * ENTRIES <= |w| && (kern + 1) * ENTRIES <= |w| && n <= KERN_PD
    && (forall k :: 0 <= k < n ==> HalfWord(w, w', pd, kern, k))
    && (forall k :: 0 <= k < pd * ENTRIES ==> w'[k] == w[k])
    && (forall k :: pd * ENTRIES + n <= k < |w| ==> w'[k] == w[k])
  }

  ghost predicate HalfWord(w: seq<nat>, w': seq<nat>, pd: nat, kern: nat, k: nat)
    requires |w| == |w'| && (pd + 1) * ENTRIES <= |w| && (kern + 1) * ENTRIES <= |w| && k < ENTRIES
  {
    w'[pd * ENTRIES + k] == w[kern * ENTRIES + k]
  }

  /** The kernel's half: words of the new directory that no other entry is in. */
  lemma CopiedKernel(w0: seq<nat>, w: seq<nat>, w': seq<nat>, l: seq<nat>, x: nat, i: nat, p: nat, kern: nat)
    requires Progress(w0, w, l, x, i, p) && Increasing(l) && kern !in l[..x] && (kern + 1) * ENTRIES <= |w|
    requires HalfCopied(w, w', l[0], kern, KERN_PD)
    ensures Progress(w0, w', l, x, i, p) && KernelHalf(w', l[0], kern)
  {
    forall t | 0 <= t < i ensures DirEntry(w', l, t) { assert DirEntry(w, l, t); }
    forall t | i <= t < ENTRIES - KERN_PD ensures DirZero(w', l, t) { assert DirZero(w, l, t); }
    forall k | 0 <= k < p ensures PageEntry(w', l, k) {
      assert PageEntry(w, l, k);
    }
    forall k | 0 <= k < |w| && k / ENTRIES !in l[..x] ensures w'[k] == w0[k] {
      if l[0] * ENTRIES <= k < l[0] * ENTRIES + KERN_PD { InFrame(l, x, 0, k - l[0] * ENTRIES); }
    }
    forall k | 0 <= k < KERN_PD ensures KernelEntry(w', l[0], kern, k) {
      assert l[..x][0] == l[0];
      assert HalfWord(w, w', l[0], kern, k) && kern != l[0];
    }
  }

  lemma {:induction false} NoneFree(counts: seq<nat>, from: nat)
    requires from <= |counts| && forall k :: from <= k < |counts| ==> counts[k] != 0
    ensures FreeList(counts, from) == []
    decreases |counts| - from
  {
    if from < |counts| { NoneFree(counts, from + 1); }
  }

  lemma {:induction false} LowestFreeFrom(counts: seq<nat>, from: nat, i: nat)
    requires from <= i < |counts| && counts[i] == 0 && forall k :: from <= k < i ==> counts[k] != 0
    ensures FreeList(counts, from) != [] && FreeList(counts, from)[0] == i
    decreases i - from
  {
    if from < i { LowestFreeFrom(counts, from + 1, i); }
  }

  lemma LowestFree(counts: seq<nat>, i: nat)
    requires i < |counts| && counts[i] == 0 && forall k :: 0 <= k < i ==> counts[k] != 0
    ensures Free(counts) != [] && Free(counts)[0] == i
  {
    LowestFreeFrom(counts, 0, i);
  }
}
