/** The allocator of kernel/alloc.c on memory words.  Word 0 of the region holds the head of the free
    list and word 1 the head of the used list; a slot's header is its `next` pointer and its `len`,
    in the two words before its data.  The ghost field `st` is the abstract state. */
module Heap {
  import opened Words
  import opened SeqLemmas
  import opened HeapModel
  import opened HeapLemmas

  /** The word that holds the byte at a word aligned offset. */
  function W(at: nat): nat { at / 4 }

  /** The pointer to the i-th slot of a list; null behind the last. */
  function Ptr(base: nat, l: seq<Slot>, i: nat): nat
    requires i <= |l|
  {
    if i < |l| then base + l[i].at else 0
  }

  ghost predicate HeaderIn(m: seq<nat>, s: Slot) { s.at % 4 == 0 && 2 <= W(s.at) && W(s.at) + 1 < |m| }

  ghost predicate Node(m: seq<nat>, base: nat, l: seq<Slot>, i: nat)
    requires i < |l|
  {
    HeaderIn(m, l[i]) && m[W(l[i].at)] == Ptr(base, l, i + 1) && m[W(l[i].at) + 1] == l[i].len
  }

  /** `head` is the first pointer of the list `l` as it stands in the words `m`. */
  ghost predicate Linked(m: seq<nat>, base: nat, head: nat, l: seq<Slot>)
  {
    head == Ptr(base, l, 0) && forall i :: 0 <= i < |l| ==> Node(m, base, l, i)
  }

  /** No word belongs to two headers. */
  predicate Clear(a: Slot, b: Slot) { W(a.at) + 2 <= W(b.at) || W(b.at) + 2 <= W(a.at) }

  ghost predicate Spread(l: seq<Slot>)
  {
    forall i, j :: 0 <= i < |l| && 0 <= j < |l| && i != j ==> Clear(l[i], l[j])
  }

  /** The two memories agree on every header of `l`. */
  ghost predicate SameHeaders(m: seq<nat>, m': seq<nat>, l: seq<Slot>)
  {
    && |m| == |m'|
    && forall i :: 0 <= i < |l| && HeaderIn(m, l[i]) ==>
         m'[W(l[i].at)] == m[W(l[i].at)] && m'[W(l[i].at) + 1] == m[W(l[i].at) + 1]
  }

  lemma LinkedFrame(m: seq<nat>, m': seq<nat>, base: nat, head: nat, l: seq<Slot>)
    requires Linked(m, base, head, l) && SameHeaders(m, m', l)
    ensures Linked(m', base, head, l)
  {
    forall i | 0 <= i < |l| ensures Node(m', base, l, i) { assert Node(m, base, l, i); }
  }

  lemma UnlinkHead(m: seq<nat>, base: nat, head: nat, l: seq<Slot>)
    requires Linked(m, base, head, l) && |l| > 0
    ensures HeaderIn(m, l[0]) && Linked(m, base, m[W(l[0].at)], RemoveAt(l, 0))
  {
    assert Node(m, base, l, 0);
    var r := RemoveAt(l, 0);
    forall i | 0 <= i < |r| ensures Node(m, base, r, i) { assert Node(m, base, l, i + 1); }
  }

  lemma UnlinkNext(m: seq<nat>, base: nat, head: nat, l: seq<Slot>, i: nat)
    requires Linked(m, base, head, l) && Spread(l) && 0 < i < |l|
    ensures HeaderIn(m, l[i]) && HeaderIn(m, l[i - 1])
    ensures Linked(m[W(l[i - 1].at) := m[W(l[i].at)]], base, head, RemoveAt(l, i))
  {
    assert Node(m, base, l, i) && Node(m, base, l, i - 1);
    var r, m' := RemoveAt(l, i), m[W(l[i - 1].at) := m[W(l[i].at)]];
    forall k | 0 <= k < |r| ensures Node(m', base, r, k) {
      var o := if k < i then k else k + 1;
      assert Node(m, base, l, o);
      if o != i - 1 { assert Clear(l[o], l[i - 1]); }
    }
  }

  lemma LinkFront(m: seq<nat>, base: nat, head: nat, l: seq<Slot>, s: Slot)
    requires Linked(m, base, head, l) && HeaderIn(m, s)
    requires forall i :: 0 <= i < |l| ==> Clear(s, l[i])
    ensures Linked(m[W(s.at) := head][W(s.at) + 1 := s.len], base, base + s.at, [s] + l)
  {
    var m', r := m[W(s.at) := head][W(s.at) + 1 := s.len], [s] + l;
    forall k | 0 <= k < |r| ensures Node(m', base, r, k) {
      if k > 0 { assert Node(m, base, l, k - 1); }
    }
  }

  lemma Relength(m: seq<nat>, base: nat, head: nat, l: seq<Slot>, i: nat, len: nat)
    requires Linked(m, base, head, l) && Spread(l) && i < |l|
    ensures HeaderIn(m, l[i])
    ensures Linked(m[W(l[i].at) + 1 := len], base, head, l[i := Slot(l[i].at, len)])
  {
    assert Node(m, base, l, i);
    var m', r := m[W(l[i].at) + 1 := len], l[i := Slot(l[i].at, len)];
    forall k | 0 <= k < |r| ensures Node(m', base, r, k) {
      assert Node(m, base, l, k);
      if k != i { assert Clear(l[k], l[i]); }
    }
  }

  /** The search loop of alloc stops where FirstFit does. */
  lemma {:induction false} FirstFitIs(free: seq<Slot>, need: nat, i: nat)
    requires i <= |free| && forall k :: 0 <= k < i ==> free[k].len < need
    requires i < |free| ==> free[i].len >= need
    ensures FirstFit(free, need) == i
  {
    if i > 0 {
      assert free[0].len < need;
      FirstFitIs(free[1..], need, i - 1);
    }
  }

  lemma {:induction false} IndexAtIs(l: seq<Slot>, at: int, i: nat)
    requires i <= |l| && forall k :: 0 <= k < i ==> l[k].at != at
    requires i < |l| ==> l[i].at == at
    ensures IndexAt(l, at) == i
  {
    if i > 0 {
      assert l[0].at != at;
      IndexAtIs(l[1..], at, i - 1);
    }
  }

  // ---------------------------------------------------------------- words of a tiled region

  /** What the invariant says of two slots, in terms of words. */
  lemma TwoSlots(h: State, s: Slot, t: Slot)
    requires Inv(h) && s in h.free + h.used && t in h.free + h.used && s != t
    ensures Apart(s, t) && Clear(s, t) && s.at % 4 == 0 && t.at % 4 == 0
  {
    PairApart(Elems(h.free) + Elems(h.used), h.length, s, t);
  }

  lemma OneSlot(h: State, m: seq<nat>, s: Slot)
    requires Inv(h) && |m| == h.length / 4 && s in h.free + h.used
    ensures HeaderIn(m, s) && s.End() <= h.length && (s in h.used ==> s.len % 4 == 0)
  {
    assert s in Elems(h.free) + Elems(h.used);
  }

  lemma ListsSpread(h: State)
    requires Inv(h)
    ensures Spread(h.free) && Spread(h.used)
    ensures forall i, j :: 0 <= i < |h.free| && 0 <= j < |h.used| ==> Clear(h.free[i], h.used[j])
  {
    hide WellFormed;
    forall i, j | 0 <= i < |h.free| && 0 <= j < |h.free| && i != j ensures Clear(h.free[i], h.free[j]) {
      assert h.free[i] != h.free[j];
      TwoSlots(h, h.free[i], h.free[j]);
    }
    forall i, j | 0 <= i < |h.used| && 0 <= j < |h.used| && i != j ensures Clear(h.used[i], h.used[j]) {
      assert h.used[i] != h.used[j];
      TwoSlots(h, h.used[i], h.used[j]);
    }
    forall i, j | 0 <= i < |h.free| && 0 <= j < |h.used| ensures Clear(h.free[i], h.used[j]) {
      NotBoth(h, h.free[i], h.used[j]);
      TwoSlots(h, h.free[i], h.used[j]);
    }
  }

  lemma NotBoth(h: State, s: Slot, t: Slot)
    requires Inv(h) && s in h.free && t in h.used
    ensures s != t
  {
    assert s in Elems(h.free) && t in Elems(h.used);
  }

  /** Word `w` holds data of the slot `s`. */
  predicate Data(s: Slot, w: nat) { W(s.at) + 2 <= w < W(s.End()) }

  ghost predicate Encodes(m: seq<nat>, base: nat, h: State)
  {
    && |m| == h.length / 4 && |m| >= 4
    && Linked(m, base, m[0], h.free)
    && Linked(m, base, m[1], h.used)
  }

  /** The words after the i-th slot has been taken off the list whose head is in word `root`. */
  function Unlinked(m: seq<nat>, root: nat, l: seq<Slot>, i: nat): (r: seq<nat>)
    requires root < |m| && i < |l| && W(l[i].at) < |m| && (i > 0 ==> W(l[i - 1].at) < |m|)
    ensures |r| == |m|
  {
    m[(if i == 0 then root else W(l[i - 1].at)) := m[W(l[i].at)]]
  }

  /** The words after slot `s`, with `len` bytes, has been put at the front of the list at `root`. */
  function Pushed(m: seq<nat>, base: nat, root: nat, s: Slot): (r: seq<nat>)
    requires root < |m| && W(s.at) + 1 < |m|
    ensures |r| == |m|
  {
    m[W(s.at) := m[root]][W(s.at) + 1 := s.len][root := base + s.at]
  }

  lemma UnlinkedLinked(m: seq<nat>, base: nat, root: nat, l: seq<Slot>, i: nat)
    requires root < 2 <= |m| && Linked(m, base, m[root], l) && Spread(l) && i < |l|
    ensures W(l[i].at) < |m| && (i > 0 ==> W(l[i - 1].at) < |m|)
    ensures var m' := Unlinked(m, root, l, i); Linked(m', base, m'[root], RemoveAt(l, i)) && m'[1 - root] == m[1 - root]
  {
    assert Node(m, base, l, i);
    if i == 0 {
      UnlinkHead(m, base, m[root], l);
      LinkedFrame(m, Unlinked(m, root, l, i), base, m[W(l[0].at)], RemoveAt(l, 0));
    } else {
      assert Node(m, base, l, i - 1);
      UnlinkNext(m, base, m[root], l, i);
    }
  }

  lemma PushedLinked(m: seq<nat>, base: nat, root: nat, l: seq<Slot>, s: Slot)
    requires root < 2 <= |m| && Linked(m, base, m[root], l) && HeaderIn(m, s)
    requires forall i :: 0 <= i < |l| ==> Clear(s, l[i])
    ensures var m' := Pushed(m, base, root, s); Linked(m', base, m'[root], [s] + l)
  {
    LinkFront(m, base, m[root], l, s);
    LinkedFrame(m[W(s.at) := m[root]][W(s.at) + 1 := s.len], Pushed(m, base, root, s), base, base + s.at, [s] + l);
  }

  /** `s` keeps clear of a header that lies inside a slot apart from it. */
  lemma ClearInside(s: Slot, p: Slot, t: Slot)
    requires Apart(s, p) && s.at % 4 == 0 && t.at % 4 == 0 && p.at <= t.at && t.End() <= p.End()
    ensures Clear(t, s)
    ensures s.len % 4 == 0 ==> forall w: nat :: Data(s, w) ==> w != W(t.at) && w != W(t.at) + 1
  {
  }

  /** The two slots alloc makes of the i-th free slot keep clear of all others. */
  lemma AllocClear(h: State, m: seq<nat>, i: nat, q: Slot, k: Slot)
    requires Inv(h) && |m| == h.length / 4 && i < |h.free|
    requires q.at == h.free[i].at && k.at % 4 == 0 && q.End() == k.at && k.End() == h.free[i].End()
    ensures HeaderIn(m, q) && HeaderIn(m, k) && Clear(q, k)
    ensures forall j :: 0 <= j < |h.free| - 1 ==> Clear(k, RemoveAt(h.free, i)[j]) && Clear(q, RemoveAt(h.free, i)[j])
    ensures forall j :: 0 <= j < |h.used| ==> Clear(k, h.used[j]) && Clear(q, h.used[j])
  {
    hide WellFormed;
    var p, rest := h.free[i], RemoveAt(h.free, i);
    OneSlot(h, m, p);
    forall j | 0 <= j < |rest| ensures Clear(k, rest[j]) && Clear(q, rest[j]) {
      var o := if j < i then j else j + 1;
      assert rest[j] == h.free[o];
      TwoSlots(h, h.free[o], p);
      ClearInside(h.free[o], p, k);
      ClearInside(h.free[o], p, q);
    }
    forall j | 0 <= j < |h.used| ensures Clear(k, h.used[j]) && Clear(q, h.used[j]) {
      NotBoth(h, p, h.used[j]);
      TwoSlots(h, h.used[j], p);
      ClearInside(h.used[j], p, k);
      ClearInside(h.used[j], p, q);
    }
  }

  /** No header inside a free slot shares a word with the data of a slot in use. */
  lemma DataOutside(h: State, p: Slot, t: Slot)
    requires Inv(h) && p in h.free && t.at % 4 == 0 && p.at <= t.at && t.End() <= p.End()
    ensures forall s, w: nat :: s in h.used && Data(s, w) ==> w != W(t.at) && w != W(t.at) + 1
  {
    hide WellFormed;
    forall s, w: nat | s in h.used && Data(s, w) ensures w != W(t.at) && w != W(t.at) + 1 {
      NotBoth(h, p, s);
      TwoSlots(h, s, p);
      OneSlot(h, seq(h.length / 4, i => 0), s);
      ClearInside(s, p, t);
    }
  }

  /** What alloc writes when it takes the i-th free slot. */
  function AllocMem(m: seq<nat>, base: nat, h: State, i: nat, q: Slot, k: Slot): seq<nat>
    requires |m| >= 2 && i < |h.free| && W(h.free[i].at) < |m| && (i > 0 ==> W(h.free[i - 1].at) < |m|)
    requires W(q.at) + 1 < |m| && W(k.at) + 1 < |m|
  {
    Pushed(Pushed(Unlinked(m, 0, h.free, i), base, 0, k), base, 1, q)
  }

  lemma AllocLinked(h: State, m: seq<nat>, base: nat, i: nat, q: Slot, k: Slot)
    requires Encodes(m, base, h) && i < |h.free| && HeaderIn(m, q) && HeaderIn(m, k) && Clear(q, k)
    requires Spread(h.free)
    requires forall j, l :: 0 <= j < |h.free| && 0 <= l < |h.used| ==> Clear(h.free[j], h.used[l])
    requires forall j :: 0 <= j < |h.free| - 1 ==> Clear(k, RemoveAt(h.free, i)[j]) && Clear(q, RemoveAt(h.free, i)[j])
    requires forall j :: 0 <= j < |h.used| ==> Clear(k, h.used[j]) && Clear(q, h.used[j])
    ensures HeaderIn(m, h.free[i]) && (i > 0 ==> HeaderIn(m, h.free[i - 1]))
    ensures Encodes(AllocMem(m, base, h, i, q, k), base, State(h.length, [k] + RemoveAt(h.free, i), [q] + h.used))
  {
    assert Node(m, base, h.free, i) && (i > 0 ==> Node(m, base, h.free, i - 1));
    UnlinkedLinked(m, base, 0, h.free, i);
    LinkedFrame(m, Unlinked(m, 0, h.free, i), base, m[1], h.used);
    AllocPushes(Unlinked(m, 0, h.free, i), base, RemoveAt(h.free, i), h.used, q, k);
  }

  /** The words then encode the new state, and no data of a slot in use has changed. */
  lemma AllocWords(h: State, m: seq<nat>, base: nat, size: nat, i: nat, q: Slot, k: Slot)
    requires Inv(h) && Encodes(m, base, h) && i == FirstFit(h.free, Round(size) + HEADER) < |h.free|
    requires q == Slot(h.free[i].at, Round(size))
    requires k == Slot(h.free[i].at + HEADER + Round(size), h.free[i].len - Round(size) - HEADER)
    ensures HeaderIn(m, q) && HeaderIn(m, k) && HeaderIn(m, h.free[i]) && (i > 0 ==> HeaderIn(m, h.free[i - 1]))
    ensures Encodes(AllocMem(m, base, h, i, q, k), base, HeapModel.Alloc(h, size).0)
    ensures forall s, w: nat :: s in h.used && Data(s, w) && w < |m| ==> AllocMem(m, base, h, i, q, k)[w] == m[w]
  {
    hide HeapModel.Inv, Spread, Linked;
    OneSlot(h, m, h.free[i]);
    AllocClear(h, m, i, q, k);
    ListsSpread(h);
    AllocLinked(h, m, base, i, q, k);
    DataOutside(h, h.free[i], q);
    DataOutside(h, h.free[i], k);
    if i > 0 { DataOutside(h, h.free[i - 1], h.free[i - 1]); }
  }

  lemma AllocPushes(m: seq<nat>, base: nat, rest: seq<Slot>, used: seq<Slot>, q: Slot, k: Slot)
    requires |m| >= 4 && Linked(m, base, m[0], rest) && Linked(m, base, m[1], used)
    requires HeaderIn(m, q) && HeaderIn(m, k) && Clear(q, k)
    requires forall j :: 0 <= j < |rest| ==> Clear(k, rest[j]) && Clear(q, rest[j])
    requires forall j :: 0 <= j < |used| ==> Clear(k, used[j]) && Clear(q, used[j])
    ensures var m' := Pushed(Pushed(m, base, 0, k), base, 1, q);
            |m'| == |m| && Linked(m', base, m'[0], [k] + rest) && Linked(m', base, m'[1], [q] + used)
  {
    PushedLinked(m, base, 0, rest, k);
    var m2 := Pushed(m, base, 0, k);
    LinkedFrame(m, m2, base, m[1], used);
    PushedLinked(m2, base, 1, used, q);
    var m3 := Pushed(m2, base, 1, q);
    LinkedFrame(m2, m3, base, m2[0], [k] + rest);
  }

  /** `b` is the index of a slot among the first `n` that ends at `x`; |l| when there is none. */
  ghost predicate EndsAt(l: seq<Slot>, n: nat, x: nat, b: nat)
    requires n <= |l|
  {
    if b == |l| then forall k :: 0 <= k < n ==> l[k].End() != x else b < n && l[b].End() == x
  }

  ghost predicate BeginsAt(l: seq<Slot>, n: nat, x: nat, a: nat)
    requires n <= |l|
  {
    if a == |l| then forall k :: 0 <= k < n ==> l[k].at != x else a < n && l[a].at == x
  }

  /** At most one free slot ends, and at most one begins, at a given place. */
  lemma OnlyNeighbours(h: State, u: Slot, b: nat, a: nat)
    requires Inv(h)
    requires EndsAt(h.free, |h.free|, u.at, b) && BeginsAt(h.free, |h.free|, u.End(), a)
    ensures b == IndexEnd(h.free, u.at) && a == IndexAt(h.free, u.End())
  {
    hide WellFormed;
    var b', a' := IndexEnd(h.free, u.at), IndexAt(h.free, u.End());
    if b < |h.free| && b != b' {
      TwoSlots(h, h.free[b], h.free[b']);
      assert false;
    }
    if a < |h.free| && a != a' {
      TwoSlots(h, h.free[a], h.free[a']);
      assert false;
    }
  }

  // ---------------------------------------------------------------- what free writes

  /** The length word that free writes, and its value. */
  function Total(h: State, i: nat, b: nat, a: nat): nat
    requires i < |h.used| && b <= |h.free| && a <= |h.free|
  {
    var len := h.used[i].len + (if a < |h.free| then HEADER + h.free[a].len else 0);
    if b < |h.free| then h.free[b].len + HEADER + len else len
  }

  /** The words after the slot at index `i` of the used list has been returned. */
  function FreeMem(m: seq<nat>, base: nat, h: State, i: nat, b: nat, a: nat): seq<nat>
    requires |m| >= 2 && i < |h.used| && b <= |h.free| && a <= |h.free|
    requires forall s :: s in h.free + h.used ==> W(s.at) + 1 < |m|
  {
    var g := if b < |h.free| then h.free[b].at else h.used[i].at;
    Rehung(Unlinked(m, 1, h.used, i)[W(g) + 1 := Total(h, i, b, a)], base, h, i, b, a)
  }

  /** The words after the free list has lost the slot behind and, if there is none before, got the freed one. */
  function Rehung(m: seq<nat>, base: nat, h: State, i: nat, b: nat, a: nat): seq<nat>
    requires |m| >= 2 && i < |h.used| && b <= |h.free| && a <= |h.free|
    requires forall s :: s in h.free + h.used ==> W(s.at) + 1 < |m|
  {
    var m3 := if a < |h.free| then Unlinked(m, 0, h.free, a) else m;
    if b < |h.free| then m3 else Pushed(m3, base, 0, Slot(h.used[i].at, Total(h, i, b, a)))
  }

  /** The free list as free leaves it, given the indices of the neighbours. */
  function Rejoined(free: seq<Slot>, u: Slot, b: nat, a: nat): seq<Slot>
    requires b <= |free| && a <= |free|
  {
    var len := u.len + (if a < |free| then HEADER + free[a].len else 0);
    var grown := if b < |free| then free[b := Slot(free[b].at, free[b].len + HEADER + len)] else free;
    var rest := if a < |free| then RemoveAt(grown, a) else grown;
    if b < |free| then rest else [Slot(u.at, len)] + rest
  }

  /** A word of a header that keeps clear of a list, or the head of the other list, is no part of the list. */
  lemma ClearFrame(m: seq<nat>, base: nat, head: nat, l: seq<Slot>, x: Slot, k: nat, v: nat)
    requires Linked(m, base, head, l) && k < |m| && W(x.at) <= k <= W(x.at) + 1
    requires forall j :: 0 <= j < |l| ==> Clear(x, l[j])
    ensures Linked(m[k := v], base, head, l)
  {
    LinkedFrame(m, m[k := v], base, head, l);
  }

  lemma UnlinkedFrame(m: seq<nat>, base: nat, root: nat, l: seq<Slot>, a: nat, head: nat, other: seq<Slot>)
    requires root < 2 <= |m| && Linked(m, base, head, other) && a < |l|
    requires W(l[a].at) < |m| && (a > 0 ==> W(l[a - 1].at) < |m|)
    requires a > 0 ==> forall j :: 0 <= j < |other| ==> Clear(l[a - 1], other[j])
    ensures Linked(Unlinked(m, root, l, a), base, head, other)
  {
    if a > 0 {
      ClearFrame(m, base, head, other, l[a - 1], W(l[a - 1].at), m[W(l[a].at)]);
    } else {
      LinkedFrame(m, Unlinked(m, root, l, a), base, head, other);
    }
  }

  lemma UnlinkedAgain(m: seq<nat>, base: nat, root: nat, l: seq<Slot>, l': seq<Slot>, a: nat)
    requires root < 2 <= |m| && Linked(m, base, m[root], l') && Spread(l) && a < |l| == |l'|
    requires forall k :: 0 <= k < |l| ==> l'[k].at == l[k].at
    ensures W(l[a].at) < |m| && (a > 0 ==> W(l[a - 1].at) < |m|)
    ensures var m' := Unlinked(m, root, l, a); Linked(m', base, m'[root], RemoveAt(l', a))
  {
    forall i, j | 0 <= i < |l'| && 0 <= j < |l'| && i != j ensures Clear(l'[i], l'[j]) {
      assert Clear(l[i], l[j]);
    }
    UnlinkedLinked(m, base, root, l', a);
  }

  lemma RejoinedBefore(free: seq<Slot>, u: Slot, b: nat, a: nat)
    requires b < |free| && a <= |free|
    ensures var len := u.len + (if a < |free| then HEADER + free[a].len else 0);
      var grown := free[b := Slot(free[b].at, free[b].len + HEADER + len)];
      Rejoined(free, u, b, a) == if a < |free| then RemoveAt(grown, a) else grown
  {
    hide RemoveAt;
  }

  /** Merging into the slot before: the free list after it. */
  lemma FreeIntoBefore(m: seq<nat>, base: nat, free: seq<Slot>, used: seq<Slot>, u: Slot, b: nat, a: nat)
    requires |m| >= 4 && Linked(m, base, m[0], free) && Linked(m, base, m[1], used) && Spread(free)
    requires forall j, l :: 0 <= j < |free| && 0 <= l < |used| ==> Clear(free[j], used[l])
    requires b < |free| && a <= |free|
    ensures W(free[b].at) + 1 < |m| && (a < |free| ==> W(free[a].at) < |m| && (a > 0 ==> W(free[a - 1].at) < |m|))
    ensures var len := u.len + (if a < |free| then HEADER + free[a].len else 0);
            var m2 := m[W(free[b].at) + 1 := free[b].len + HEADER + len];
            var m3 := if a < |free| then Unlinked(m2, 0, free, a) else m2;
            Linked(m3, base, m3[0], Rejoined(free, u, b, a)) && Linked(m3, base, m3[1], used)
  {
    var len := u.len + (if a < |free| then HEADER + free[a].len else 0);
    var total := free[b].len + HEADER + len;
    hide Linked, Spread, Clear, Unlinked, RemoveAt, Rejoined;
    RejoinedBefore(free, u, b, a);
    LinkedNode(m, base, m[0], free, b);
    if a < |free| { LinkedNode(m, base, m[0], free, a); }
    if 0 < a <= |free| { LinkedNode(m, base, m[0], free, a - 1); }
    var m2 := m[W(free[b].at) + 1 := total];
    Relength(m, base, m[0], free, b, total);
    ClearFrame(m, base, m[1], used, free[b], W(free[b].at) + 1, total);
    WithoutAfter(m2, base, free, free[b := Slot(free[b].at, total)], used, a);
  }

  /** The slot behind, if there is one, leaves the free list. */
  lemma WithoutAfter(m: seq<nat>, base: nat, free: seq<Slot>, grown: seq<Slot>, used: seq<Slot>, a: nat)
    requires |m| >= 4 && Linked(m, base, m[0], grown) && Linked(m, base, m[1], used) && Spread(free)
    requires forall j, l :: 0 <= j < |free| && 0 <= l < |used| ==> Clear(free[j], used[l])
    requires a <= |free| == |grown| && forall k :: 0 <= k < |free| ==> grown[k].at == free[k].at
    ensures a < |free| ==> W(free[a].at) < |m| && (a > 0 ==> W(free[a - 1].at) < |m|)
    ensures var m3 := if a < |free| then Unlinked(m, 0, free, a) else m;
      Linked(m3, base, m3[0], if a < |free| then RemoveAt(grown, a) else grown) && Linked(m3, base, m3[1], used)
  {
    if a < |free| {
      UnlinkedAgain(m, base, 0, free, grown, a);
      hide Linked, Spread;
      if a > 0 { assert Node(m, base, grown, a - 1) by { LinkedNode(m, base, m[0], grown, a - 1); } }
      UnlinkedFrame(m, base, 0, free, a, m[1], used);
    }
  }

  lemma LinkedNode(m: seq<nat>, base: nat, head: nat, l: seq<Slot>, i: nat)
    requires Linked(m, base, head, l) && i < |l|
    ensures Node(m, base, l, i)
  {
  }

  /** No slot before: the freed slot goes to the front. */
  lemma FreeToFront(m: seq<nat>, base: nat, free: seq<Slot>, used: seq<Slot>, u: Slot, a: nat)
    requires |m| >= 4 && Linked(m, base, m[0], free) && Linked(m, base, m[1], used) && Spread(free)
    requires forall j, l :: 0 <= j < |free| && 0 <= l < |used| ==> Clear(free[j], used[l])
    requires forall j :: 0 <= j < |free| ==> Clear(u, free[j])
    requires forall j :: 0 <= j < |used| ==> Clear(u, used[j])
    requires HeaderIn(m, u) && a <= |free|
    ensures a < |free| ==> W(free[a].at) < |m| && (a > 0 ==> W(free[a - 1].at) < |m|)
    ensures var len := u.len + (if a < |free| then HEADER + free[a].len else 0);
            var m2 := m[W(u.at) + 1 := len];
            var m3 := if a < |free| then Unlinked(m2, 0, free, a) else m2;
            var m4 := Pushed(m3, base, 0, Slot(u.at, len));
            Linked(m4, base, m4[0], Rejoined(free, u, |free|, a)) && Linked(m4, base, m4[1], used)
  {
    hide Linked, Spread, Pushed;
    var len := u.len + (if a < |free| then HEADER + free[a].len else 0);
    var m2 := m[W(u.at) + 1 := len];
    ClearFrame(m, base, m[0], free, u, W(u.at) + 1, len);
    ClearFrame(m, base, m[1], used, u, W(u.at) + 1, len);
    if a < |free| {
      UnlinkedLinked(m2, base, 0, free, a);
      var m3 := Unlinked(m2, 0, free, a);
      UnlinkedFrame(m2, base, 0, free, a, m[1], used);
      PushedBoth(m3, base, RemoveAt(free, a), used, Slot(u.at, len));
    } else {
      PushedBoth(m2, base, free, used, Slot(u.at, len));
    }
  }

  lemma PushedBoth(m: seq<nat>, base: nat, free: seq<Slot>, used: seq<Slot>, s: Slot)
    requires |m| >= 4 && Linked(m, base, m[0], free) && Linked(m, base, m[1], used) && HeaderIn(m, s)
    requires forall j :: 0 <= j < |free| ==> Clear(s, free[j])
    requires forall j :: 0 <= j < |used| ==> Clear(s, used[j])
    ensures var m' := Pushed(m, base, 0, s); Linked(m', base, m'[0], [s] + free) && Linked(m', base, m'[1], used)
  {
    PushedLinked(m, base, 0, free, s);
    LinkedFrame(m, Pushed(m, base, 0, s), base, m[1], used);
  }

  /** No header shares a word with the data of a slot in use. */
  lemma DataNotHeader(h: State, t: Slot)
    requires Inv(h) && t in h.free + h.used
    ensures forall s, w: nat :: s in h.used && Data(s, w) ==> w != W(t.at) && w != W(t.at) + 1 && w >= 2
  {
    hide WellFormed;
    forall s, w: nat | s in h.used && Data(s, w) ensures w != W(t.at) && w != W(t.at) + 1 && w >= 2 {
      OneSlot(h, seq(h.length / 4, i => 0), s);
      if s != t {
        TwoSlots(h, s, t);
        ClearInside(s, t, t);
      }
    }
  }

  // ---------------------------------------------------------------- payloads

  /** The data of a slot in use is whole words of the region, and no other slot's. */
  lemma DataWords(h: State, s: Slot)
    requires Inv(h) && s in h.used
    ensures s.at % 4 == 0 && s.len % 4 == 0 && 2 <= W(s.at) && W(s.End()) == W(s.at) + 2 + s.len / 4 <= h.length / 4
  {
    OneSlot(h, seq(h.length / 4, i => 0), s);
  }

  lemma DataApart(h: State, s: Slot, t: Slot)
    requires Inv(h) && s in h.used && t in h.used && s != t
    ensures forall w: nat :: !(Data(s, w) && Data(t, w))
  {
    hide HeapModel.Inv;
    DataWords(h, s);
    DataWords(h, t);
    TwoSlots(h, s, t);
  }

  /** Whatever is written into the data of two slots in use, the lists stand. */
  lemma StoreKeeps(h: State, m: seq<nat>, m': seq<nat>, base: nat, s: Slot, t: Slot)
    requires Inv(h) && Encodes(m, base, h) && s in h.used && t in h.used && |m'| == |m|
    requires forall w: nat :: w < |m| && !Data(s, w) && !Data(t, w) ==> m'[w] == m[w]
    ensures Encodes(m', base, h)
  {
    hide HeapModel.Inv, Linked, Data;
    forall x | x in h.free + h.used
      ensures !Data(s, W(x.at)) && !Data(s, W(x.at) + 1) && !Data(t, W(x.at)) && !Data(t, W(x.at) + 1)
    {
      DataNotHeader(h, x);
    }
    assert s in h.free + h.used;
    DataNotHeader(h, s);
    assert !Data(s, 0) && !Data(s, 1) && !Data(t, 0) && !Data(t, 1);
    assert SameHeaders(m, m', h.free) && SameHeaders(m, m', h.used);
    LinkedFrame(m, m', base, m[0], h.free);
    LinkedFrame(m, m', base, m[1], h.used);
  }

  /** `b` and `a` name the free slots before and after the i-th slot in use. */
  ghost predicate Found(h: State, i: nat, b: nat, a: nat)
  {
    i < |h.used| && b == IndexEnd(h.free, h.used[i].at) && a == IndexAt(h.free, h.used[i].End())
  }

  /** The lengths that free reads. */
  ghost predicate Headers(m: seq<nat>, h: State, i: nat, b: nat, a: nat)
  {
    && i < |h.used| && HeaderIn(m, h.used[i]) && m[W(h.used[i].at) + 1] == h.used[i].len
    && (b < |h.free| ==> HeaderIn(m, h.free[b]) && m[W(h.free[b].at) + 1] == h.free[b].len)
    && (a < |h.free| ==> HeaderIn(m, h.free[a]) && m[W(h.free[a].at) + 1] == h.free[a].len)
    && (i > 0 ==> HeaderIn(m, h.used[i - 1]))
    && (0 < a < |h.free| ==> HeaderIn(m, h.free[a - 1]))
  }

  lemma FreeStep(h: State, i: nat, b: nat, a: nat)
    requires Found(h, i, b, a) && i == IndexAt(h.used, h.used[i].at)
    ensures HeapModel.Free(h, h.used[i].at)
         == (State(h.length, Rejoined(h.free, h.used[i], b, a), RemoveAt(h.used, i)), true)
    ensures forall s :: s in RemoveAt(h.used, i) ==> s in h.used
  {
  }

  lemma FreeLinked(h: State, m: seq<nat>, base: nat, i: nat, b: nat, a: nat)
    requires Encodes(m, base, h) && i < |h.used| && b <= |h.free| && a <= |h.free|
    requires forall s :: s in h.free + h.used ==> W(s.at) + 1 < |m|
    requires Spread(h.free) && Spread(h.used)
    requires forall j, l :: 0 <= j < |h.free| && 0 <= l < |h.used| ==> Clear(h.free[j], h.used[l])
    ensures Encodes(FreeMem(m, base, h, i, b, a), base,
                    State(h.length, Rejoined(h.free, h.used[i], b, a), RemoveAt(h.used, i)))
  {
    hide Linked, Spread, Unlinked, Pushed, Rejoined;
    var m1 := Unlinked(m, 1, h.used, i);
    OffUsed(m, base, h, i);
    if b < |h.free| {
      FreeIntoBefore(m1, base, h.free, RemoveAt(h.used, i), h.used[i], b, a);
    } else {
      FreeToFront(m1, base, h.free, RemoveAt(h.used, i), h.used[i], a);
    }
  }

  lemma OffUsed(m: seq<nat>, base: nat, h: State, i: nat)
    requires Encodes(m, base, h) && i < |h.used| && Spread(h.used)
    requires forall j, l :: 0 <= j < |h.free| && 0 <= l < |h.used| ==> Clear(h.free[j], h.used[l])
    ensures HeaderIn(m, h.used[i]) && (i > 0 ==> HeaderIn(m, h.used[i - 1]))
    ensures var m1, used' := Unlinked(m, 1, h.used, i), RemoveAt(h.used, i);
            && Linked(m1, base, m1[0], h.free) && Linked(m1, base, m1[1], used')
            && (forall j, l :: 0 <= j < |h.free| && 0 <= l < |used'| ==> Clear(h.free[j], used'[l]))
            && (forall l :: 0 <= l < |used'| ==> Clear(h.used[i], used'[l]))
  {
    assert Node(m, base, h.used, i) && (i > 0 ==> Node(m, base, h.used, i - 1));
    UnlinkedLinked(m, base, 1, h.used, i);
    LinkedFrame(m, Unlinked(m, 1, h.used, i), base, m[0], h.free);
    var used' := RemoveAt(h.used, i);
    forall l | 0 <= l < |used'| ensures Clear(h.used[i], used'[l]) {
      assert used'[l] == h.used[if l < i then l else l + 1];
    }
    forall j, l | 0 <= j < |h.free| && 0 <= l < |used'| ensures Clear(h.free[j], used'[l]) {
      assert used'[l] == h.used[if l < i then l else l + 1];
    }
  }

  lemma FreeKeepsData(h: State, m: seq<nat>, base: nat, i: nat, b: nat, a: nat)
    requires Inv(h) && |m| == h.length / 4 && |m| >= 4 && i < |h.used| && b <= |h.free| && a <= |h.free|
    requires forall s :: s in h.free + h.used ==> W(s.at) + 1 < |m|
    ensures forall s, w: nat :: s in h.used && Data(s, w) && w < |m| ==> FreeMem(m, base, h, i, b, a)[w] == m[w]
  {
    hide HeapModel.Inv;
    DataNotHeader(h, h.used[i]);
    if i > 0 { DataNotHeader(h, h.used[i - 1]); }
    if b < |h.free| { DataNotHeader(h, h.free[b]); }
    if 0 < a <= |h.free| { DataNotHeader(h, h.free[a - 1]); }
  }

  /** What free writes encodes the new state and changes no data of a slot in use. */
  lemma FreeWords(h: State, m: seq<nat>, base: nat, i: nat, b: nat, a: nat)
    requires Inv(h) && Encodes(m, base, h) && Found(h, i, b, a) && i == IndexAt(h.used, h.used[i].at)
    ensures forall s :: s in h.free + h.used ==> W(s.at) + 1 < |m| && HeaderIn(m, s)
    ensures Encodes(FreeMem(m, base, h, i, b, a), base, HeapModel.Free(h, h.used[i].at).0)
    ensures HeapModel.Free(h, h.used[i].at).1 && HeapModel.Free(h, h.used[i].at).0.length == h.length
    ensures forall s :: s in HeapModel.Free(h, h.used[i].at).0.used ==> s in h.used
    ensures forall s, w: nat :: s in h.used && Data(s, w) && w < |m| ==> FreeMem(m, base, h, i, b, a)[w] == m[w]
  {
    hide HeapModel.Inv;
    forall s | s in h.free + h.used ensures HeaderIn(m, s) { OneSlot(h, m, s); }
    ListsSpread(h);
    FreeLinked(h, m, base, i, b, a);
    FreeStep(h, i, b, a);
    FreeKeepsData(h, m, base, i, b, a);
  }

  /** The headers that free reads and writes are distinct words. */
  ghost predicate Separate(h: State, i: nat, b: nat, a: nat)
    requires i < |h.used|
  {
    && (i > 0 ==> Clear(h.used[i - 1], h.used[i]))
    && (i > 0 && b < |h.free| ==> Clear(h.used[i - 1], h.free[b]))
    && (i > 0 && a < |h.free| ==> Clear(h.used[i - 1], h.free[a]))
    && (a < |h.free| && b < |h.free| ==> Clear(h.free[b], h.free[a]))
    && (a < |h.free| ==> Clear(h.used[i], h.free[a]) && (a > 0 ==> Clear(h.used[i], h.free[a - 1])))
  }

  lemma FreeClear(h: State, i: nat, b: nat, a: nat)
    requires Inv(h) && Found(h, i, b, a)
    ensures Separate(h, i, b, a)
  {
    hide HeapModel.Inv;
    ListsSpread(h);
  }

  lemma FreeHeaders(h: State, m: seq<nat>, base: nat, i: nat, b: nat, a: nat)
    requires Encodes(m, base, h) && i < |h.used|
    ensures Headers(m, h, i, b, a) && m[0] == Ptr(base, h.free, 0)
  {
    assert Node(m, base, h.used, i);
    if i > 0 { assert Node(m, base, h.used, i - 1); }
    if b < |h.free| { assert Node(m, base, h.free, b); }
    if a < |h.free| { assert Node(m, base, h.free, a); }
    if 0 < a < |h.free| { assert Node(m, base, h.free, a - 1); }
  }

  lemma HeadersOffUsed(m: seq<nat>, h: State, i: nat, b: nat, a: nat)
    requires |m| >= 4 && i < |h.used| && Headers(m, h, i, b, a) && Separate(h, i, b, a)
    ensures Headers(Unlinked(m, 1, h.used, i), h, i, b, a)
    ensures Unlinked(m, 1, h.used, i)[0] == m[0]
  {
  }

  lemma OffFreeKeeps(m: seq<nat>, h: State, i: nat, a: nat)
    requires |m| >= 4 && i < |h.used| && HeaderIn(m, h.used[i])
    requires a < |h.free| ==> W(h.free[a].at) < |m|
    requires 0 < a < |h.free| ==> W(h.free[a - 1].at) < |m| && Clear(h.used[i], h.free[a - 1])
    ensures a < |h.free| ==> Unlinked(m, 0, h.free, a)[W(h.used[i].at) + 1] == m[W(h.used[i].at) + 1]
  {
  }

  /** The word alloc compares a slot's length with: the rounded size and a header, in 32 bits. */
  function Need32(size: nat): nat { ((Round(size) % WORD32) + HEADER) % WORD32 }

  /** It is the true need exactly up to this size; above it, it has wrapped to almost nothing. */
  lemma NeedWraps(size: nat)
    requires size < WORD32
    ensures Need32(size) == Round(size) + HEADER <==> size <= 0xFFFF_FFF4
    ensures size > 0xFFFF_FFF4 ==> Need32(size) <= HEADER
  {
  }

  class Region {
    const base: nat
    const mem: array<nat>
    ghost var st: State

    ghost predicate Valid()
      reads this, mem
    {
      Inv(st) && st.length >= 16 && base + st.length < WORD32 && Encodes(mem[..], base, st)
    }

    /** The index of the word a pointer points to. */
    function Ix(p: nat): int { (p - base) / 4 }

    constructor (base: nat, length: nat)
      requires length >= 16 && base + length < WORD32
      ensures Valid() && fresh(mem) && this.base == base && st == Init(length)
    {
      this.base := base;
      mem := new nat[length / 4];
      st := Init(length);
      new;
      InitInv(length);
      mem[1] := 0;
      mem[2] := 0;
      mem[3] := length - 8 - HEADER;
      mem[0] := base + 8;
      assert Node(mem[..], base, st.free, 0);
    }

    /** The search loop of alloc: the first free slot with enough data, and the one before it. */
    method FindFit(need: nat) returns (p: nat, j: nat, ghost i: nat)
      requires Valid()
      ensures i == FirstFit(st.free, need) && p == Ptr(base, st.free, i)
      ensures j == if i == 0 then 0 else base + st.free[i - 1].at
      ensures p == 0 <==> i == |st.free|
      ensures i < |st.free| ==> Node(mem[..], base, st.free, i)
      ensures i == 0 ==> p == mem[0]
    {
      hide HeapModel.Inv;
      i := 0;
      p, j := mem[0], 0;
      while p != 0 && mem[Ix(p) + 1] < need
        invariant i <= |st.free| && p == Ptr(base, st.free, i)
        invariant i < |st.free| ==> Node(mem[..], base, st.free, i)
        invariant j == if i == 0 then 0 else base + st.free[i - 1].at
        invariant forall k :: 0 <= k < i ==> st.free[k].len < need
        decreases |st.free| - i
      {
        j, p, i := p, mem[Ix(p)], i + 1;
        assert i < |st.free| ==> Node(mem[..], base, st.free, i);
      }
      FirstFitIs(st.free, need, i);
    }

    /** Take the slot at `p`, the i-th of `l`, off the list at `root`; `j` is the slot before it. */
    method Unlink(root: nat, p: nat, j: nat, ghost l: seq<Slot>, ghost i: nat)
      requires root < 2 <= mem.Length && i < |l|
      requires HeaderIn(mem[..], l[i]) && p == base + l[i].at
      requires i == 0 ==> j == 0 && p == mem[root]
      requires i > 0 ==> HeaderIn(mem[..], l[i - 1]) && j == base + l[i - 1].at
      modifies mem
      ensures mem[..] == Unlinked(old(mem[..]), root, l, i)
    {
      if j == 0 {
        mem[root] := mem[Ix(mem[root])];
      } else {
        mem[Ix(j)] := mem[Ix(p)];
      }
    }

    /** Put the slot at `p` at the front of the list at `root`, with `len` bytes of data. */
    method Push(root: nat, p: nat, len: nat)
      requires root < 2 <= mem.Length && p >= base && HeaderIn(mem[..], Slot(p - base, len))
      modifies mem
      ensures mem[..] == Pushed(old(mem[..]), base, root, Slot(p - base, len))
    {
      mem[Ix(p)] := mem[root];
      mem[Ix(p) + 1] := len;
      mem[root] := p;
    }

    /** alloc, once a slot is found: the slot at `p`, after the one at `j`, is split at `n` bytes. */
    method Carve(p: nat, j: nat, n: nat, ghost i: nat, ghost q: Slot, ghost k: Slot)
      requires mem.Length >= 2 && i < |st.free| && Node(mem[..], base, st.free, i)
      requires p == base + st.free[i].at && st.free[i].len >= n + HEADER
      requires i == 0 ==> j == 0 && p == mem[0]
      requires i > 0 ==> HeaderIn(mem[..], st.free[i - 1]) && j == base + st.free[i - 1].at
      requires q == Slot(p - base, n) && k == Slot(q.End(), st.free[i].len - n - HEADER)
      requires HeaderIn(mem[..], q) && HeaderIn(mem[..], k)
      modifies mem
      ensures mem[..] == AllocMem(old(mem[..]), base, st, i, q, k)
    {
      hide Pushed, Unlinked;
      var len := mem[Ix(p) + 1];
      Unlink(0, p, j, st.free, i);
      if len >= n + HEADER {
        // Split it; the rest goes to the front of the free list.
        Push(0, p + HEADER + n, len - n - HEADER);
        len := n;
      }
      Push(1, p, len);
    }

    /** kernel/alloc.c, alloc: the address of the data, or null. */
    method Alloc(size: nat) returns (r: nat)
      requires Valid() && size <= 0xFFFF_FFF4
      modifies this`st, mem
      ensures Valid()
      ensures st == HeapModel.Alloc(old(st), size).0
      ensures r == match HeapModel.Alloc(old(st), size).1 case None => 0 case Some(at) => base + at
      ensures forall s, w: nat :: s in old(st.used) && Data(s, w) && w < mem.Length ==> mem[w] == old(mem[w])
    {
      hide HeapModel.Inv, Linked, HeapModel.Alloc, AllocMem, FirstFit, RemoveAt, HeaderIn;
      var n := if size % 4 != 0 then size + (4 - size % 4) else size;
      var p, j, i := FindFit((n % WORD32 + HEADER) % WORD32);
      if p == 0 {
        AllocNothing(st, size);
        return 0;
      }
      ghost var q, k := AllocStep(st, size, i);
      AllocWords(st, mem[..], base, size, i, q, k);
      AllocInv(st, size);
      Carve(p, j, n, i, q, k);
      st := HeapModel.Alloc(st, size).0;
      return p + HEADER;
    }

    /** The first loop of free: the slot at `f` on the used list, and the one before it. */
    method FindUsed(f: nat) returns (p: nat, j: nat, ghost i: nat)
      requires Valid()
      ensures i == IndexAt(st.used, f - base) && p == Ptr(base, st.used, i)
      ensures j == if i == 0 then 0 else base + st.used[i - 1].at
      ensures p == 0 <==> i == |st.used|
      ensures i < |st.used| ==> p == f && Node(mem[..], base, st.used, i)
      ensures i == 0 ==> p == mem[1]
    {
      hide HeapModel.Inv;
      i := 0;
      p, j := mem[1], 0;
      while p != 0 && p != f
        invariant i <= |st.used| && p == Ptr(base, st.used, i)
        invariant i < |st.used| ==> Node(mem[..], base, st.used, i)
        invariant j == if i == 0 then 0 else base + st.used[i - 1].at
        invariant forall k :: 0 <= k < i ==> st.used[k].at != f - base
        decreases |st.used| - i
      {
        j, p, i := p, mem[Ix(p)], i + 1;
        assert i < |st.used| ==> Node(mem[..], base, st.used, i);
      }
      IndexAtIs(st.used, f - base, i);
    }

    /** The second loop of free: the free slots that end where the slot at `f` begins and begin where
        it ends, and the slot before the latter on the free list. */
    method FindNeighbours(f: nat, ghost u: Slot) returns (before: nat, after: nat, prev: nat, ghost b: nat,
        ghost a: nat)
      requires Valid() && u in st.used && f == base + u.at
      requires HeaderIn(mem[..], u) && mem[W(u.at) + 1] == u.len
      ensures b == IndexEnd(st.free, u.at) && a == IndexAt(st.free, u.End())
      ensures before == Ptr(base, st.free, b) && after == Ptr(base, st.free, a)
      ensures prev == if a == 0 || a == |st.free| then 0 else base + st.free[a - 1].at
    {
      hide HeapModel.Inv;
      before, after, prev := 0, 0, 0;
      b, a := |st.free|, |st.free|;
      ghost var i := 0;
      var p, j := mem[0], 0;
      while p != 0
        invariant i <= |st.free| && p == Ptr(base, st.free, i)
        invariant i < |st.free| ==> Node(mem[..], base, st.free, i)
        invariant j == if i == 0 then 0 else base + st.free[i - 1].at
        invariant EndsAt(st.free, i, u.at, b) && BeginsAt(st.free, i, u.End(), a)
        invariant before == Ptr(base, st.free, b) && after == Ptr(base, st.free, a)
        invariant prev == if a == 0 || a == |st.free| then 0 else base + st.free[a - 1].at
        decreases |st.free| - i
      {
        if p + HEADER + mem[Ix(p) + 1] == f {
          before, b := p, i;
        } else if f + HEADER + mem[Ix(f) + 1] == p {
          after, prev, a := p, j, i;
        }
        j, p, i := p, mem[Ix(p)], i + 1;
        assert i < |st.free| ==> Node(mem[..], base, st.free, i);
      }
      OnlyNeighbours(st, u, b, a);
    }

    /** free joins the lengths: the slot at `g` grows over the one at `f` and the one at `after`. */
    method Grow(f: nat, before: nat, after: nat, ghost i: nat, ghost b: nat, ghost a: nat) returns (g: nat)
      requires i < |st.used| && b <= |st.free| && a <= |st.free| && Separate(st, i, b, a)
      requires Headers(mem[..], st, i, b, a)
      requires f == base + st.used[i].at && before == Ptr(base, st.free, b) && after == Ptr(base, st.free, a)
      modifies mem
      ensures g == base + if b < |st.free| then st.free[b].at else st.used[i].at
      ensures g >= base && W(g - base) + 1 < mem.Length
      ensures mem[..] == old(mem[..])[W(g - base) + 1 := Total(st, i, b, a)]
    {
      g := f;
      if before != 0 {
        mem[Ix(before) + 1] := mem[Ix(before) + 1] + HEADER + mem[Ix(f) + 1];
        g := before;
      }
      if after != 0 {
        mem[Ix(g) + 1] := mem[Ix(g) + 1] + HEADER + mem[Ix(after) + 1];
      }
    }

    /** free, once the slot at `f` and its neighbours are found. */
    method Return(f: nat, j: nat, before: nat, after: nat, prev: nat, ghost i: nat, ghost b: nat, ghost a: nat)
      requires mem.Length >= 4 && i < |st.used| && b <= |st.free| && a <= |st.free| && Separate(st, i, b, a)
      requires forall s :: s in st.free + st.used ==> W(s.at) + 1 < mem.Length
      requires f == Ptr(base, st.used, i) && Headers(mem[..], st, i, b, a)
      requires j == (if i == 0 then 0 else base + st.used[i - 1].at) && (i == 0 ==> mem[1] == f)
      requires before == Ptr(base, st.free, b) && after == Ptr(base, st.free, a) && mem[0] == Ptr(base, st.free, 0)
      requires prev == if a == 0 || a == |st.free| then 0 else base + st.free[a - 1].at
      modifies mem
      ensures mem[..] == FreeMem(old(mem[..]), base, st, i, b, a)
    {
      hide Pushed, Unlinked, Total, Rehung;
      ghost var m0 := mem[..];
      Unlink(1, f, j, st.used, i);
      HeadersOffUsed(m0, st, i, b, a);
      var g := Grow(f, before, after, i, b, a);
      Rehang(g, before, after, prev, i, b, a);
    }

    /** The free list after that: the slot behind leaves it, and the slot at `g` enters it if there was no slot
        before. */
    method Rehang(g: nat, before: nat, after: nat, prev: nat, ghost i: nat, ghost b: nat, ghost a: nat)
      requires mem.Length >= 4 && i < |st.used| && b <= |st.free| && a <= |st.free| && Separate(st, i, b, a)
      requires forall s :: s in st.free + st.used ==> W(s.at) + 1 < mem.Length
      requires HeaderIn(mem[..], st.used[i]) && (b == |st.free| ==> g == base + st.used[i].at)
      requires b == |st.free| ==> mem[W(st.used[i].at) + 1] == Total(st, i, b, a)
      requires a < |st.free| ==> HeaderIn(mem[..], st.free[a])
      requires 0 < a < |st.free| ==> HeaderIn(mem[..], st.free[a - 1])
      requires before == Ptr(base, st.free, b) && after == Ptr(base, st.free, a) && mem[0] == Ptr(base, st.free, 0)
      requires prev == if a == 0 || a == |st.free| then 0 else base + st.free[a - 1].at
      requires b < |st.free| ==> base + st.free[b].at > 0
      modifies mem
      ensures mem[..] == Rehung(old(mem[..]), base, st, i, b, a)
    {
      hide Pushed, Unlinked, Total;
      ghost var m2 := mem[..];
      if after != 0 {
        Unlink(0, after, prev, st.free, a);
      }
      if before == 0 {
        assert mem[Ix(g) + 1] == Total(st, i, b, a) by { OffFreeKeeps(m2, st, i, a); }
        Push(0, g, mem[Ix(g) + 1]);
      }
    }

    /** free, once the slot is found on the used list: the i-th, at `f`, after the one at `j`. */
    method FreeUsed(f: nat, j: nat, ghost i: nat)
      requires Valid() && i < |st.used| && f == base + st.used[i].at && Node(mem[..], base, st.used, i)
      requires i == IndexAt(st.used, st.used[i].at)
      requires j == (if i == 0 then 0 else base + st.used[i - 1].at) && (i == 0 ==> mem[1] == f)
      modifies this`st, mem
      ensures Valid() && st == HeapModel.Free(old(st), old(st.used[i].at)).0
      ensures forall s, w: nat :: s in old(st.used) && Data(s, w) && w < mem.Length ==> mem[w] == old(mem[w])
      ensures forall s :: s in st.used ==> s in old(st.used)
    {
      hide HeapModel.Inv, Linked, Headers, Separate, FreeMem, HeapModel.Free, HeaderIn;
      OneSlot(st, mem[..], st.used[i]);
      var before, after, prev, b, a := FindNeighbours(f, st.used[i]);
      FreeWords(st, mem[..], base, i, b, a);
      FreeInv(st, st.used[i].at);
      FreeClear(st, i, b, a);
      FreeHeaders(st, mem[..], base, i, b, a);
      Return(f, j, before, after, prev, i, b, a);
      st := HeapModel.Free(st, st.used[i].at).0;
    }

    /** kernel/alloc.c, free: 1, or -1 when `slot` is not the data of a slot in use. */
    method Free(slot: nat) returns (r: int)
      requires Valid() && slot < WORD32
      modifies this`st, mem
      ensures Valid()
      ensures (st, r == 1) == HeapModel.Free(old(st), slot - HEADER - base) && (r == 1 || r == -1)
      ensures forall s :: s in st.used ==> s in old(st.used)
      ensures forall s, w: nat :: s in st.used && Data(s, w) && w < mem.Length ==> mem[w] == old(mem[w])
    {
      hide HeapModel.Inv, Encodes, HeapModel.Free, Node, Data;
      SlotPlace(slot, base, st);
      var f := (slot - HEADER) % WORD32;
      var p, j, i := FindUsed(f);
      FreeFinds(st, slot - HEADER - base);
      if p == 0 { return -1; }
      FreeUsed(f, j, i);
      return 1;
    }
  }

  /** The subtraction of the header wraps only for addresses in front of any slot. */
  lemma SlotPlace(slot: nat, base: nat, h: State)
    requires slot < WORD32 && base + h.length < WORD32 && Inv(h)
    ensures IndexAt(h.used, (slot - HEADER) % WORD32 - base) == IndexAt(h.used, slot - HEADER - base)
  {
    hide HeapModel.Inv, IndexAt;
    if slot < HEADER {
      assert (slot - HEADER) % WORD32 == slot - HEADER + WORD32;
      forall k | 0 <= k < |h.used| ensures 0 <= h.used[k].at && h.used[k].End() <= h.length { UsedFacts(h, k, k); }
    } else {
      assert (slot - HEADER) % WORD32 == slot - HEADER;
    }
  }

  lemma FreeFinds(h: State, at: int)
    ensures var i := IndexAt(h.used, at);
      HeapModel.Free(h, at) == if i == |h.used| then (h, false) else (HeapModel.Free(h, h.used[i].at).0, true)
    ensures var i := IndexAt(h.used, at); i < |h.used| ==> h.used[i].at == at
  {
  }
}
