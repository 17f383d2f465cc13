/** What every run of the allocator keeps, and what it gives back. */
module HeapLemmas {
  import opened Wrappers
  import opened SeqLemmas
  import opened HeapModel

  // ---------------------------------------------------------------- one cut, one join

  /** Cutting a slot in two keeps the tiling. */
  lemma CutTiles(all: set<Slot>, length: nat, p: Slot, n: nat)
    requires Tiles(all, length) && p in all && n + HEADER <= p.len
    ensures Slot(p.at, n) !in all && Slot(p.at + HEADER + n, p.len - n - HEADER) !in all
    ensures Tiles(all - {p} + {Slot(p.at, n)} + {Slot(p.at + HEADER + n, p.len - n - HEADER)}, length)
  {
    var q, k := Slot(p.at, n), Slot(p.at + HEADER + n, p.len - n - HEADER);
    var after := all - {p} + {q} + {k};
    forall x | 8 <= x < length ensures Owned(after, x) {
      assert Owned(all, x);
      var s :| s in all && Covers(s, x);
      assert s in after || Covers(q, x) || Covers(k, x);
    }
  }

  /** Joining two neighbours keeps the tiling. */
  lemma JoinTiles(all: set<Slot>, length: nat, s: Slot, t: Slot)
    requires Tiles(all, length) && s in all && t in all && s.End() == t.at
    ensures Slot(s.at, s.len + HEADER + t.len) !in all
    ensures Tiles(all - {s} - {t} + {Slot(s.at, s.len + HEADER + t.len)}, length)
  {
    var m := Slot(s.at, s.len + HEADER + t.len);
    var after := all - {s} - {t} + {m};
    forall x | 8 <= x < length ensures Owned(after, x) {
      assert Owned(all, x);
      var y :| y in all && Covers(y, x);
      assert y in after || Covers(m, x);
    }
    assert forall y :: y in all && y != s && y != t ==> Apart(y, m) by {
      forall y | y in all && y != s && y != t ensures Apart(y, m) {
        assert Apart(y, s) && Apart(y, t);
      }
    }
  }

  /** In a tiling two slots with a byte in common are the same slot. */
  lemma OnlyOwner(all: set<Slot>, length: nat, s: Slot, t: Slot, x: int)
    requires Tiles(all, length) && s in all && t in all && Covers(s, x) && Covers(t, x)
    ensures s == t
  {
  }

  lemma PairApart(all: set<Slot>, length: nat, s: Slot, t: Slot)
    requires Tiles(all, length) && s in all && t in all
    ensures s == t || Apart(s, t)
  {
  }

  // ---------------------------------------------------------------- alloc

  lemma CutNoneAdjacent(free: set<Slot>, p: Slot, q: Slot, k: Slot)
    requires NoneAdjacent(free) && p in free
    requires k.End() == p.End() && p.at < k.at
    requires forall s :: s in free && s != p ==> Apart(s, p)
    ensures NoneAdjacent(free - {p} + {k})
  {
    forall s, t | s in free - {p} + {k} && t in free - {p} + {k} ensures s.End() != t.at {
      if s == k && t != k {
        assert p.End() != t.at;
      } else if s != k && t == k {
        assert Apart(s, p);
      }
    }
  }

  lemma AllocSets(free: set<Slot>, used: set<Slot>, length: nat, p: Slot, n: nat, q: Slot, k: Slot)
    requires WellFormed(free, used, length) && p in free && n % 4 == 0 && n + HEADER <= p.len
    requires q == Slot(p.at, n) && k == Slot(p.at + HEADER + n, p.len - n - HEADER)
    ensures q !in used && k !in free
    ensures WellFormed(free - {p} + {k}, used + {q}, length)
  {
    CutTiles(free + used, length, p, n);
    assert (free + used) - {p} + {q} + {k} == (free - {p} + {k}) + (used + {q});
    assert NoneAdjacent(free - {p} + {k}) by {
      assert forall s :: s in free ==> s in free + used;
      CutNoneAdjacent(free, p, q, k);
    }
  }

  /** What alloc did when it found a slot. */
  lemma AllocStep(h: State, size: nat, i: nat) returns (q: Slot, k: Slot)
    requires i == FirstFit(h.free, Round(size) + HEADER) < |h.free|
    ensures q == Slot(h.free[i].at, Round(size))
    ensures k == Slot(h.free[i].at + HEADER + Round(size), h.free[i].len - Round(size) - HEADER)
    ensures Alloc(h, size) == (State(h.length, [k] + RemoveAt(h.free, i), [q] + h.used), Some(q.at + HEADER))
  {
    q := Slot(h.free[i].at, Round(size));
    k := Slot(h.free[i].at + HEADER + Round(size), h.free[i].len - Round(size) - HEADER);
  }

  lemma AllocNothing(h: State, size: nat)
    requires FirstFit(h.free, Round(size) + HEADER) == |h.free|
    ensures Alloc(h, size) == (h, None)
  {
  }

  lemma AllocInv(h: State, size: nat)
    requires Inv(h)
    ensures Inv(Alloc(h, size).0) && Alloc(h, size).0.length == h.length
  {
    var i := FirstFit(h.free, Round(size) + HEADER);
    if i < |h.free| {
      var q, k := AllocStep(h, size, i);
      AllocLists(h, i, Round(size), q, k);
    }
  }

  lemma AllocLists(h: State, i: nat, n: nat, q: Slot, k: Slot)
    requires Inv(h) && i < |h.free| && n % 4 == 0 && n + HEADER <= h.free[i].len
    requires q == Slot(h.free[i].at, n) && k == Slot(h.free[i].at + HEADER + n, h.free[i].len - n - HEADER)
    ensures Inv(State(h.length, [k] + RemoveAt(h.free, i), [q] + h.used))
  {
    AllocSets(Elems(h.free), Elems(h.used), h.length, h.free[i], n, q, k);
    RemoveElems(h.free, i);
    PrependElems(k, RemoveAt(h.free, i));
    PrependElems(q, h.used);
  }

  // ---------------------------------------------------------------- free

  /** `u` returned to the free slots and joined with the free slot before it, if `before` names one,
      and with the one after it, if `after` names one. */
  function Merged(u: Slot, before: Option<Slot>, after: Option<Slot>): Slot
  {
    var at := if before.Some? then before.value.at else u.at;
    Slot(at, (if before.Some? then before.value.len + HEADER else 0) + u.len
             + (if after.Some? then HEADER + after.value.len else 0))
  }

  ghost function Opt(o: Option<Slot>): set<Slot> { if o.Some? then {o.value} else {} }

  ghost predicate Neighbours(free: set<Slot>, u: Slot, before: Option<Slot>, after: Option<Slot>)
  {
    && (before.Some? ==> before.value in free && before.value.End() == u.at)
    && (before.None? ==> forall s :: s in free ==> s.End() != u.at)
    && (after.Some? ==> after.value in free && after.value.at == u.End())
    && (after.None? ==> forall s :: s in free ==> s.at != u.End())
  }

  lemma MergeTiles(all: set<Slot>, length: nat, u: Slot, before: Option<Slot>, after: Option<Slot>)
    requires Tiles(all, length) && u in all && Opt(before) <= all && Opt(after) <= all
    requires before.Some? ==> before.value.End() == u.at
    requires after.Some? ==> after.value.at == u.End()
    ensures before.Some? || after.Some? ==> Merged(u, before, after) !in all
    ensures Tiles(all - {u} - Opt(before) - Opt(after) + {Merged(u, before, after)}, length)
  {
    var m := Merged(u, None, after);
    if after.Some? {
      JoinTiles(all, length, u, after.value);
      assert all - {u} - {after.value} + {m} == all - {u} - Opt(after) + {m};
    } else {
      assert all - {u} - Opt(after) + {m} == all;
    }
    var mid := all - {u} - Opt(after) + {m};
    if before.Some? {
      JoinTiles(mid, length, before.value, m);
      assert mid - {before.value} - {m} + {Merged(u, before, after)}
          == all - {u} - Opt(before) - Opt(after) + {Merged(u, before, after)};
    } else {
      assert mid == all - {u} - Opt(before) - Opt(after) + {Merged(u, before, after)};
    }
  }

  lemma MergeNoneAdjacent(free: set<Slot>, u: Slot, before: Option<Slot>, after: Option<Slot>)
    requires NoneAdjacent(free) && Neighbours(free, u, before, after)
    ensures NoneAdjacent(free - Opt(before) - Opt(after) + {Merged(u, before, after)})
  {
  }

  lemma FreeSets(free: set<Slot>, used: set<Slot>, length: nat, u: Slot, before: Option<Slot>, after: Option<Slot>)
    requires WellFormed(free, used, length) && u in used && Neighbours(free, u, before, after)
    ensures Merged(u, before, after) !in free && Merged(u, before, after) !in used - {u}
    ensures WellFormed(free - Opt(before) - Opt(after) + {Merged(u, before, after)}, used - {u}, length)
  {
    var m := Merged(u, before, after);
    MergedTiles(free, used, length, u, before, after, m);
    MergeNoneAdjacent(free, u, before, after);
    MergedAligned(free, used, length, u, before, after);
  }

  lemma MergedTiles(free: set<Slot>, used: set<Slot>, length: nat, u: Slot, before: Option<Slot>,
      after: Option<Slot>, m: Slot)
    requires free !! used && Tiles(free + used, length) && u in used
    requires Neighbours(free, u, before, after) && m == Merged(u, before, after)
    ensures m !in free && m !in used - {u}
    ensures Tiles((free - Opt(before) - Opt(after) + {m}) + (used - {u}), length)
  {
    MergeTiles(free + used, length, u, before, after);
    if before.None? && after.None? {
      assert m == u;
    }
    assert (free + used) - {u} - Opt(before) - Opt(after) + {m}
        == (free - Opt(before) - Opt(after) + {m}) + (used - {u});
  }

  lemma MergedAligned(free: set<Slot>, used: set<Slot>, length: nat, u: Slot, before: Option<Slot>, after: Option<Slot>)
    requires Aligned(free, used, length) && u in used && Neighbours(free, u, before, after)
    requires forall s :: s in used ==> s.End() <= length
    ensures Aligned(free - Opt(before) - Opt(after) + {Merged(u, before, after)}, used - {u}, length)
  {
    if before.Some? {
      assert before.value.at % 4 == 0 && (before.value.len % 4 == 0 || before.value.End() == length);
      assert u.at % 4 == 0 && u.len % 4 == 0;
    }
  }

  /** The list operations of free compute exactly the merged set. */
  lemma CoalesceElems(free: seq<Slot>, u: Slot, before: Option<Slot>, after: Option<Slot>)
    requires NoDup(free) && Merged(u, before, after) !in free
    requires before == FreeBefore(free, u) && after == FreeAfter(free, u)
    requires before.Some? && after.Some? ==> before.value != after.value
    ensures NoDup(Coalesce(free, u))
    ensures Elems(Coalesce(free, u)) == Elems(free) - Opt(before) - Opt(after) + {Merged(u, before, after)}
  {
    hide NoDup, Elems, RemoveAt, IndexEnd, IndexAt;
    var b, a := IndexEnd(free, u.at), IndexAt(free, u.End());
    var m := Merged(u, before, after);
    var grown := if b < |free| then free[b := m] else free;
    if b < |free| { UpdateElems(free, b, m); }
    if a < |free| { RemoveElems(grown, a); }
    var rest := if a < |free| then RemoveAt(grown, a) else grown;
    if b == |free| { PrependElems(m, rest); }
  }

  function FreeBefore(free: seq<Slot>, u: Slot): Option<Slot>
  {
    var b := IndexEnd(free, u.at);
    if b < |free| then Some(free[b]) else None
  }

  function FreeAfter(free: seq<Slot>, u: Slot): Option<Slot>
  {
    var a := IndexAt(free, u.End());
    if a < |free| then Some(free[a]) else None
  }

  lemma FoundNeighbours(free: seq<Slot>, u: Slot)
    ensures Neighbours(Elems(free), u, FreeBefore(free, u), FreeAfter(free, u))
  {
  }

  lemma FreeInv(h: State, at: int)
    requires Inv(h)
    ensures Inv(Free(h, at).0) && Free(h, at).0.length == h.length
  {
    var i := IndexAt(h.used, at);
    if i < |h.used| {
      var u := h.used[i];
      var before, after := FreeBefore(h.free, u), FreeAfter(h.free, u);
      FoundNeighbours(h.free, u);
      FreeSets(Elems(h.free), Elems(h.used), h.length, u, before, after);
      CoalesceElems(h.free, u, before, after);
      RemoveElems(h.used, i);
    }
  }

  // ---------------------------------------------------------------- the free set is determined

  /** A free slot of one layout is a free slot of every other layout with the same used slots. */
  lemma FreeSlotIsShared(f1: set<Slot>, f2: set<Slot>, used: set<Slot>, length: nat, s: Slot)
    requires WellFormed(f1, used, length) && WellFormed(f2, used, length) && s in f1
    ensures s in f2
  {
    assert Covers(s, s.at);
    var t := SharedOwner(f1, f2, used, length, s, s.at);
    if t.at < s.at {
      var r := SharedOwner(f2, f1, used, length, t, s.at - 1);
      assert false by { PairApart(f1 + used, length, r, s); }
    }
    if t.End() > s.End() {
      var r := SharedOwner(f2, f1, used, length, t, s.End());
      assert false by { PairApart(f1 + used, length, r, s); }
    }
    if t.End() < s.End() {
      var r := SharedOwner(f1, f2, used, length, s, t.End());
      assert false by { PairApart(f2 + used, length, r, t); }
    }
  }

  /** A byte inside a free slot of one layout lies in a free slot of the other. */
  lemma SharedOwner(f1: set<Slot>, f2: set<Slot>, used: set<Slot>, length: nat, s: Slot, x: int) returns (t: Slot)
    requires WellFormed(f1, used, length) && WellFormed(f2, used, length) && s in f1 && Covers(s, x)
    ensures t in f2 && Covers(t, x)
  {
    assert Owned(f2 + used, x);
    t :| t in f2 + used && Covers(t, x);
    if t in used { OnlyOwner(f1 + used, length, s, t, x); }
  }

  lemma FreeSetDetermined(h1: State, h2: State)
    requires Inv(h1) && Inv(h2) && h1.length == h2.length && Elems(h1.used) == Elems(h2.used)
    ensures Elems(h1.free) == Elems(h2.free)
  {
    forall s | s in Elems(h1.free) ensures s in Elems(h2.free) {
      FreeSlotIsShared(Elems(h1.free), Elems(h2.free), Elems(h1.used), h1.length, s);
    }
    forall s | s in Elems(h2.free) ensures s in Elems(h1.free) {
      FreeSlotIsShared(Elems(h2.free), Elems(h1.free), Elems(h1.used), h1.length, s);
    }
  }

  // ---------------------------------------------------------------- bytes are conserved

  /** The bytes of a list: data and headers. */
  function Bytes(s: seq<Slot>): nat
  {
    if s == [] then 0 else HEADER + s[0].len + Bytes(s[1..])
  }

  lemma {:induction false} BytesRemove(s: seq<Slot>, i: nat)
    requires i < |s|
    ensures Bytes(s) == HEADER + s[i].len + Bytes(RemoveAt(s, i))
  {
    if i > 0 {
      BytesRemove(s[1..], i - 1);
      assert RemoveAt(s, i)[1..] == RemoveAt(s[1..], i - 1);
    } else {
      assert RemoveAt(s, 0) == s[1..];
    }
  }

  lemma {:induction false} BytesUpdate(s: seq<Slot>, i: nat, x: Slot)
    requires i < |s|
    ensures Bytes(s[i := x]) == Bytes(s) - s[i].len + x.len
  {
    if i > 0 {
      BytesUpdate(s[1..], i - 1, x);
      assert s[i := x][1..] == s[1..][i - 1 := x];
    } else {
      assert s[0 := x][1..] == s[1..];
    }
  }

  lemma CoalesceBytes(free: seq<Slot>, u: Slot)
    ensures Bytes(Coalesce(free, u)) == Bytes(free) + HEADER + u.len
  {
    var b, a := IndexEnd(free, u.at), IndexAt(free, u.End());
    var len := u.len + (if a < |free| then HEADER + free[a].len else 0);
    var grown := if b < |free| then free[b := Slot(free[b].at, free[b].len + HEADER + len)] else free;
    if b < |free| { BytesUpdate(free, b, Slot(free[b].at, free[b].len + HEADER + len)); }
    if a < |free| { BytesRemove(grown, a); }
    var rest := if a < |free| then RemoveAt(grown, a) else grown;
    assert ([Slot(u.at, len)] + rest)[1..] == rest;
  }

  // ---------------------------------------------------------------- runs

  datatype Op = DoAlloc(size: nat) | DoFree(at: int)

  function Step(h: State, op: Op): State
  {
    match op
    case DoAlloc(size) => Alloc(h, size).0
    case DoFree(at) => Free(h, at).0
  }

  function Run(h: State, ops: seq<Op>): State
    decreases |ops|
  {
    if ops == [] then h else Run(Step(h, ops[0]), ops[1..])
  }

  lemma InitInv(length: nat)
    requires length >= 16
    ensures Inv(Init(length))
  {
    var s := Slot(8, length - 16);
    assert Elems([s]) == {s} && Elems<Slot>([]) == {};
    forall x | 8 <= x < length ensures Owned({s} + {}, x) { assert Covers(s, x); }
  }

  /** Whatever is asked of the allocator, the slots tile the region, no two free slots touch and
      every header is word aligned. */
  lemma {:induction false} RunInv(h: State, ops: seq<Op>)
    requires Inv(h)
    ensures Inv(Run(h, ops)) && Run(h, ops).length == h.length
    decreases |ops|
  {
    if ops != [] {
      match ops[0] {
        case DoAlloc(size) => AllocInv(h, size);
        case DoFree(at) => FreeInv(h, at);
      }
      RunInv(Step(h, ops[0]), ops[1..]);
    }
  }

  /** Headers and data of all slots together always fill the region behind the two list heads. */
  lemma {:induction false} RunConservesBytes(h: State, ops: seq<Op>)
    ensures Bytes(Run(h, ops).free) + Bytes(Run(h, ops).used) == Bytes(h.free) + Bytes(h.used)
    decreases |ops|
  {
    if ops != [] {
      match ops[0] {
        case DoAlloc(size) =>
          var i := FirstFit(h.free, Round(size) + HEADER);
          if i < |h.free| {
            BytesRemove(h.free, i);
            var q, k := AllocStep(h, size, i);
            assert ([k] + RemoveAt(h.free, i))[1..] == RemoveAt(h.free, i) && ([q] + h.used)[1..] == h.used;
          }
        case DoFree(at) =>
          var i := IndexAt(h.used, at);
          if i < |h.used| {
            CoalesceBytes(h.free, h.used[i]);
            BytesRemove(h.used, i);
          }
      }
      RunConservesBytes(Step(h, ops[0]), ops[1..]);
    }
  }

  /** A run that ends with the slots in use that it began with ends with the same free slots. */
  lemma BalancedRunRestoresFree(h: State, ops: seq<Op>)
    requires Inv(h) && Elems(Run(h, ops).used) == Elems(h.used)
    ensures Elems(Run(h, ops).free) == Elems(h.free)
  {
    RunInv(h, ops);
    FreeSetDetermined(h, Run(h, ops));
  }

  /** Once everything is freed, in whatever order, the initial single free slot is back. */
  lemma FreeingAllRestoresInit(length: nat, ops: seq<Op>)
    requires length >= 16 && Run(Init(length), ops).used == []
    ensures Run(Init(length), ops) == Init(length)
  {
    InitInv(length);
    RunInv(Init(length), ops);
    var h := Run(Init(length), ops);
    BalancedRunRestoresFree(Init(length), ops);
    assert Elems(h.free) == {Slot(8, length - 16)};
    OnlyElement(h.free, Slot(8, length - 16));
  }

  /** Freeing what alloc returned puts both lists back to what they held. */
  lemma AllocThenFree(h: State, size: nat)
    requires Inv(h) && Alloc(h, size).1.Some?
    ensures var (h1, p) := Alloc(h, size);
            var (h2, ok) := Free(h1, p.value - HEADER);
            ok && h2.used == h.used && Elems(h2.free) == Elems(h.free)
  {
    var i := FirstFit(h.free, Round(size) + HEADER);
    var q, k := AllocStep(h, size, i);
    var h1 := Alloc(h, size).0;
    assert IndexAt(h1.used, q.at) == 0;
    assert RemoveAt(h1.used, 0) == h.used;
    AllocInv(h, size);
    FreeInv(h1, q.at);
    FreeSetDetermined(h, Free(h1, q.at).0);
  }

  /** alloc gives memory exactly when some free slot can hold the rounded size and a header more. */
  lemma AllocSucceedsIff(h: State, size: nat)
    ensures Alloc(h, size).1.Some? <==> exists s :: s in h.free && s.len >= Round(size) + HEADER
  {
    var i := FirstFit(h.free, Round(size) + HEADER);
    if i < |h.free| { assert h.free[i] in h.free; }
  }

  /** The payload handed out lies in the region, is word aligned and overlaps no other live one. */
  lemma AllocPayload(h: State, size: nat)
    requires Inv(h) && Alloc(h, size).1.Some?
    ensures var (h1, p) := Alloc(h, size);
            var q := Slot(p.value - HEADER, Round(size));
            && h1.used == [q] + h.used
            && q !in h.used && q.at % 4 == 0 && q.End() <= h.length
            && forall s :: s in h.used ==> Apart(q, s)
  {
    hide Inv, Alloc, FirstFit;
    AllocFits(h, size);
    var q, k := AllocStep(h, size, FirstFit(h.free, Round(size) + HEADER));
    AllocInv(h, size);
    var h1 := Alloc(h, size).0;
    assert h1.used[0] == q;
    UsedFacts(h1, 0, 0);
    forall s | s in h.used ensures s != q && Apart(q, s) {
      var j :| 0 <= j < |h.used| && h.used[j] == s;
      assert h1.used[j + 1] == s;
      UsedFacts(h1, 0, j + 1);
    }
  }

  lemma AllocFits(h: State, size: nat)
    requires Alloc(h, size).1.Some?
    ensures FirstFit(h.free, Round(size) + HEADER) < |h.free|
  {
  }

  lemma UsedFacts(h: State, i: nat, j: nat)
    requires Inv(h) && i < |h.used| && j < |h.used|
    ensures h.used[i].at % 4 == 0 && h.used[i].End() <= h.length
    ensures i != j ==> h.used[i] != h.used[j] && Apart(h.used[i], h.used[j])
  {
    PairApart(Elems(h.free) + Elems(h.used), h.length, h.used[i], h.used[j]);
  }
}
