/** The allocator of kernel/alloc.c as a value: the free and the used list, in list order.
    Slot positions are byte offsets from the base of the region; a slot is an 8 byte header
    followed by `len` bytes of data.  The class Heap (Heap.dfy) implements these operations on
    memory words. */
module HeapModel {
  import opened Wrappers
  import opened SeqLemmas

  const HEADER: nat := 8

  datatype Slot = Slot(at: nat, len: nat) {
    function End(): nat { at + HEADER + len }
  }

  datatype State = State(length: nat, free: seq<Slot>, used: seq<Slot>)

  // ---------------------------------------------------------------- the operations

  /** The requested size rounded up to whole words. */
  function Round(size: nat): (r: nat)
    ensures r % 4 == 0 && size <= r < size + 4
  {
    if size % 4 != 0 then size + (4 - size % 4) else size
  }

  /** The first slot, in list order, with at least `need` bytes of data; |free| when there is none. */
  function FirstFit(free: seq<Slot>, need: nat): (i: nat)
    ensures i <= |free|
    ensures forall k :: 0 <= k < i ==> free[k].len < need
    ensures i < |free| ==> free[i].len >= need
  {
    if free == [] || free[0].len >= need then 0 else 1 + FirstFit(free[1..], need)
  }

  function Init(length: nat): State
    requires length >= 16
  {
    State(length, [Slot(8, length - 16)], [])
  }

  /** Every allocation splits: the slot found has room for the data and for another header. */
  function Alloc(h: State, size: nat): (State, Option<nat>)
  {
    var n := Round(size);
    var i := FirstFit(h.free, n + HEADER);
    if i == |h.free| then (h, None)
    else
      var p := h.free[i];
      var k := Slot(p.at + HEADER + n, p.len - n - HEADER);
      (State(h.length, [k] + RemoveAt(h.free, i), [Slot(p.at, n)] + h.used), Some(p.at + HEADER))
  }

  /** The index of the slot that starts at `at`; |s| when there is none. */
  function IndexAt(s: seq<Slot>, at: int): (i: nat)
    ensures i <= |s|
    ensures i < |s| ==> s[i].at == at
    ensures i == |s| ==> forall k :: 0 <= k < |s| ==> s[k].at != at
  {
    if s == [] then 0
    else if s[0].at == at then 0
    else
      var j := IndexAt(s[1..], at);
      assert forall k :: 1 <= k < |s| ==> s[k] == s[1..][k - 1];
      1 + j
  }

  /** The index of the slot that ends at `end`; |s| when there is none. */
  function IndexEnd(s: seq<Slot>, end: nat): (i: nat)
    ensures i <= |s|
    ensures i < |s| ==> s[i].End() == end
    ensures i == |s| ==> forall k :: 0 <= k < |s| ==> s[k].End() != end
  {
    if s == [] then 0
    else if s[0].End() == end then 0
    else
      var j := IndexEnd(s[1..], end);
      assert forall k :: 1 <= k < |s| ==> s[k] == s[1..][k - 1];
      1 + j
  }

  /** The free list after `u` has been returned to it, merged with its free neighbours.
      A slot before `u` absorbs it in place, a slot after `u` leaves the list, and `u` itself is
      put at the front unless a slot before it absorbed it. */
  function Coalesce(free: seq<Slot>, u: Slot): seq<Slot>
  {
    var b := IndexEnd(free, u.at);
    var a := IndexAt(free, u.End());
    var len := u.len + (if a < |free| then HEADER + free[a].len else 0);
    var m := if b < |free| then Slot(free[b].at, free[b].len + HEADER + len) else Slot(u.at, len);
    var grown := if b < |free| then free[b := m] else free;
    var rest := if a < |free| then RemoveAt(grown, a) else grown;
    if b < |free| then rest else [m] + rest
  }

  /** `at` is the offset of the header to be freed, as computed from the caller's pointer. */
  function Free(h: State, at: int): (State, bool)
  {
    var i := IndexAt(h.used, at);
    if i == |h.used| then (h, false)
    else (State(h.length, Coalesce(h.free, h.used[i]), RemoveAt(h.used, i)), true)
  }

  // ---------------------------------------------------------------- the invariant

  predicate Apart(a: Slot, b: Slot) { a.End() <= b.at || b.End() <= a.at }

  predicate Covers(s: Slot, x: int) { s.at <= x < s.End() }

  /** The slots of `all` tile [8, length): they lie in it, do not overlap and leave no byte out. */
  ghost predicate Tiles(all: set<Slot>, length: nat)
  {
    && (forall s :: s in all ==> 8 <= s.at && s.End() <= length)
    && (forall s, t :: s in all && t in all && s != t ==> Apart(s, t))
    && (forall x :: 8 <= x < length ==> Owned(all, x))
  }

  ghost predicate Owned(all: set<Slot>, x: int) { exists s :: s in all && Covers(s, x) }

  ghost predicate NoneAdjacent(free: set<Slot>)
  {
    forall s, t :: s in free && t in free ==> s.End() != t.at
  }

  /** Headers are word aligned; only a free slot at the very end may hold a part of a word. */
  ghost predicate Aligned(free: set<Slot>, used: set<Slot>, length: nat)
  {
    && (forall s :: s in used ==> s.at % 4 == 0 && s.len % 4 == 0)
    && (forall s :: s in free ==> s.at % 4 == 0 && (s.len % 4 == 0 || s.End() == length))
  }

  ghost predicate WellFormed(free: set<Slot>, used: set<Slot>, length: nat)
  {
    && free !! used
    && Tiles(free + used, length)
    && NoneAdjacent(free)
    && Aligned(free, used, length)
  }

  ghost predicate Inv(h: State)
  {
    NoDup(h.free) && NoDup(h.used) && WellFormed(Elems(h.free), Elems(h.used), h.length)
  }
}
