/** Address spaces as values: which frames they are made of, what their tables say, and what building
    and releasing them does to the rest of memory (kernel/memman.c). */
module Spaces {
  import opened SeqLemmas
  import opened Frames

  /** (size/FRAME_LEN)+1 */
  function NumFrames(size: nat): (n: nat) ensures n >= 1 { size / FRAME_LEN + 1 }

  /** (num_frames/PT_ENTRIES)+1 */
  function NumTables(n: nat): (t: nat) ensures t >= 1 { n / ENTRIES + 1 }

  /** One frame for the directory, one for each table, one for each page. */
  function Need(n: nat): (r: nat) ensures r >= 3 || n == 0 { 1 + NumTables(n) + n }

  /** There is room in the tables for one page more at least: the last table stays empty exactly when the pages
      fill those before it.  Likewise the last page is there although the size may fill those before it. */
  lemma TablesAndPages(n: nat, size: nat)
    ensures (NumTables(n) - 1) * 1024 <= n < NumTables(n) * 1024
    ensures n == (NumTables(n) - 1) * 1024 <==> n % 1024 == 0
    ensures (NumFrames(size) - 1) * 4096 <= size < NumFrames(size) * 4096
  {
  }

  // The frames of a space, in the order in which they are allocated: the directory, then each table
  // followed by its pages.

  function TableAt(t: nat): nat { 1 + t * (ENTRIES + 1) }

  function PageAt(k: nat): nat { 2 + k + k / ENTRIES }

  /** Place `x` of the order is the directory, a table or a page, and only one of them. */
  lemma Places(n: nat, x: nat)
    requires 0 < x < Need(n)
    ensures if (x - 1) % (ENTRIES + 1) == 0
            then x == TableAt((x - 1) / (ENTRIES + 1)) && (x - 1) / (ENTRIES + 1) < NumTables(n)
            else var k := (x - 2) - (x - 2) / (ENTRIES + 1); k < n && x == PageAt(k)
  {
  }

  lemma PlacesInRange(n: nat, k: nat)
    ensures k < n ==> 1 < PageAt(k) < Need(n)
    ensures k < NumTables(n) ==> 0 < TableAt(k) < Need(n)
  {
  }

  lemma PlacesDistinct(k: nat, l: nat)
    ensures PageAt(k) == PageAt(l) ==> k == l
    ensures PageAt(k) != TableAt(l)
  {
  }

  // ---------------------------------------------------------------- what the tables say

  ghost predicate InRange(words: seq<nat>, a: seq<nat>)
  {
    forall i :: 0 <= i < |a| ==> (a[i] + 1) * ENTRIES <= |words|
  }

  ghost predicate DirEntry(words: seq<nat>, a: seq<nat>, t: nat)
    requires InRange(words, a) && TableAt(t) < |a| && KERN_PD + t < ENTRIES
  {
    words[a[0] * ENTRIES + KERN_PD + t] == Entry(a[TableAt(t)] * FRAME_LEN)
  }

  ghost predicate PageEntry(words: seq<nat>, a: seq<nat>, k: nat)
    requires InRange(words, a) && TableAt(k / ENTRIES) < |a| && PageAt(k) < |a|
  {
    words[a[TableAt(k / ENTRIES)] * ENTRIES + k % ENTRIES] == Entry(a[PageAt(k)] * FRAME_LEN + 1)
  }

  /** Directory and tables map the `n` pages of the space made of the frames `a`. */
  ghost predicate Mapped(words: seq<nat>, a: seq<nat>, n: nat)
  {
    && |a| == Need(n) && KERN_PD + NumTables(n) <= ENTRIES && InRange(words, a)
    && (forall t :: 0 <= t < NumTables(n) ==> DirEntry(words, a, t))
    && (forall k :: 0 <= k < n ==> PageEntry(words, a, k))
  }

  /** The lower half of the directory is the kernel's, whose directory is in frame `kern`. */
  ghost predicate KernelHalf(words: seq<nat>, pd: nat, kern: nat)
    requires (pd + 1) * ENTRIES <= |words| && (kern + 1) * ENTRIES <= |words|
  {
    forall i :: 0 <= i < KERN_PD ==> KernelEntry(words, pd, kern, i)
  }

  ghost predicate KernelEntry(words: seq<nat>, pd: nat, kern: nat, i: nat)
    requires (pd + 1) * ENTRIES <= |words| && (kern + 1) * ENTRIES <= |words| && i < ENTRIES
  {
    words[pd * ENTRIES + i] == words[kern * ENTRIES + i]
  }

  /** The walk of the k-th user page reaches the k-th allocated page frame. */
  lemma WalkReaches(words: seq<nat>, a: seq<nat>, n: nat, k: nat)
    requires Mapped(words, a, n) && k < n
    ensures a[0] * ENTRIES + (USER_MEM + k * FRAME_LEN) / (FRAME_LEN * ENTRIES) < |words|
    ensures PageAt(k) < |a| && Walk(words, a[0], USER_MEM + k * FRAME_LEN) == a[PageAt(k)]
  {
    PlacesInRange(n, k);
    PlacesInRange(n, k / ENTRIES);
    assert DirEntry(words, a, k / ENTRIES) && PageEntry(words, a, k);
    UserIndex(k);
    PlusOneHarmless(a[TableAt(k / ENTRIES)]);
    PlusOneHarmless(a[PageAt(k)]);
  }

  /** Both entries on the way of every user page are present, and a user's process can read and write through
      them: they are the address of the frame and these three bits. */
  lemma WalkIsOpen(words: seq<nat>, a: seq<nat>, n: nat, k: nat)
    requires Mapped(words, a, n) && k < n
    ensures var va := USER_MEM + k * FRAME_LEN;
      && a[0] * ENTRIES + va / (FRAME_LEN * ENTRIES) < |words| && TableAt(k / ENTRIES) < |a| && PageAt(k) < |a|
      && DirWord(words, a[0], va) == a[TableAt(k / ENTRIES)] * 0x1000 + 7 && Open(DirWord(words, a[0], va))
      && PageWord(words, a[0], va) == a[PageAt(k)] * 0x1000 + 7 && Open(PageWord(words, a[0], va))
  {
    PlacesInRange(n, k);
    PlacesInRange(n, k / ENTRIES);
    assert DirEntry(words, a, k / ENTRIES) && PageEntry(words, a, k);
    UserIndex(k);
    EntryOpen(a[TableAt(k / ENTRIES)]);
    EntryOpen(a[PageAt(k)]);
  }

  lemma UserIndex(k: nat)
    ensures (USER_MEM + k * FRAME_LEN) / (FRAME_LEN * ENTRIES) == KERN_PD + k / ENTRIES
    ensures (USER_MEM + k * FRAME_LEN) / FRAME_LEN % ENTRIES == k % ENTRIES
  {
  }

  // ---------------------------------------------------------------- what building one changes

  /** No word outside the frames `a` differs. */
  ghost predicate SameOutside(w: seq<nat>, w': seq<nat>, a: seq<nat>)
  {
    |w| == |w'| && forall i :: 0 <= i < |w| && i / ENTRIES !in a ==> w'[i] == w[i]
  }

  ghost predicate Disjoint(a: seq<nat>, b: seq<nat>) { forall f :: f in a ==> f !in b }

  /** Building a space in other frames leaves every mapping of this one as it is. */
  lemma MappedElsewhere(w: seq<nat>, w': seq<nat>, a: seq<nat>, b: seq<nat>, m: nat)
    requires Mapped(w, b, m) && SameOutside(w, w', a) && Disjoint(a, b)
    ensures Mapped(w', b, m)
  {
    forall t | 0 <= t < NumTables(m) ensures DirEntry(w', b, t) {
      PlacesInRange(m, t);
      assert DirEntry(w, b, t);
      Untouched(w, w', a, b, 0, KERN_PD + t);
    }
    forall k | 0 <= k < m ensures PageEntry(w', b, k) {
      PlacesInRange(m, k);
      PlacesInRange(m, k / ENTRIES);
      assert PageEntry(w, b, k);
      Untouched(w, w', a, b, TableAt(k / ENTRIES), k % ENTRIES);
    }
  }

  lemma Untouched(w: seq<nat>, w': seq<nat>, a: seq<nat>, b: seq<nat>, x: nat, i: nat)
    requires SameOutside(w, w', a) && Disjoint(a, b) && InRange(w, b) && x < |b| && i < ENTRIES
    ensures w'[b[x] * ENTRIES + i] == w[b[x] * ENTRIES + i]
  {
    assert b[x] in b;
    assert (b[x] * ENTRIES + i) / ENTRIES == b[x];
  }

  // ---------------------------------------------------------------- what releasing one changes

  /** memman_free_frame on each frame of `s` in turn. */
  function DropAll(counts: seq<nat>, s: seq<nat>): (r: seq<nat>)
    requires forall i :: 0 <= i < |s| ==> s[i] < |counts|
    ensures |r| == |counts|
    decreases |s|
  {
    if s == [] then counts
    else DropAll(counts[s[0] := if counts[s[0]] != 0 then counts[s[0]] - 1 else 0], s[1..])
  }

  lemma {:induction false} DropSnoc(counts: seq<nat>, s: seq<nat>, f: nat)
    requires f < |counts| && forall i :: 0 <= i < |s| ==> s[i] < |counts|
    ensures var c := DropAll(counts, s); DropAll(counts, s + [f]) == c[f := if c[f] != 0 then c[f] - 1 else 0]
    decreases |s|
  {
    if s == [] {
      assert [] + [f] == [f] && [f][1..] == [];
    } else {
      assert (s + [f])[1..] == s[1..] + [f];
      DropSnoc(counts[s[0] := if counts[s[0]] != 0 then counts[s[0]] - 1 else 0], s[1..], f);
    }
  }

  lemma {:induction false} DropEach(counts: seq<nat>, s: seq<nat>)
    requires NoDup(s) && forall i :: 0 <= i < |s| ==> s[i] < |counts|
    ensures forall f :: 0 <= f < |counts| ==>
      DropAll(counts, s)[f] == if f in s && counts[f] != 0 then counts[f] - 1 else counts[f]
    decreases |s|
  {
    if s != [] {
      var c := counts[s[0] := if counts[s[0]] != 0 then counts[s[0]] - 1 else 0];
      DropEach(c, s[1..]);
      assert s[0] !in s[1..];
      assert s == [s[0]] + s[1..];
    }
  }

  /** The frames of a space in the order in which free_addr_space drops them: pages, tables, directory. */
  function DropOrder(a: seq<nat>, n: nat): (r: seq<nat>)
    requires |a| == Need(n)
    ensures |r| == |a|
  {
    seq(n, k requires 0 <= k < n => (PlacesInRange(n, k); a[PageAt(k)]))
    + seq(NumTables(n), t requires 0 <= t < NumTables(n) => (PlacesInRange(n, t); a[TableAt(t)]))
    + [a[0]]
  }

  /** Each frame of the space is dropped exactly once. */
  lemma DropOrderElems(a: seq<nat>, n: nat)
    requires |a| == Need(n) && NoDup(a)
    ensures NoDup(DropOrder(a, n)) && Elems(DropOrder(a, n)) == Elems(a)
  {
    var r := DropOrder(a, n);
    forall i, j | 0 <= i < j < |r| ensures r[i] != r[j] {
      var x := DropPlace(a, n, i);
      var y := DropPlace(a, n, j);
      DropPlacesDiffer(n, i, j);
      assert a[if x < y then x else y] != a[if x < y then y else x];
    }
    forall f | f in Elems(a) ensures f in Elems(r) {
      var x :| 0 <= x < |a| && a[x] == f;
      if x == 0 {
        assert r[|r| - 1] == f;
      } else {
        Places(n, x);
        if (x - 1) % (ENTRIES + 1) == 0 {
          assert r[n + (x - 1) / (ENTRIES + 1)] == f;
        } else {
          assert r[(x - 2) - (x - 2) / (ENTRIES + 1)] == f;
        }
      }
    }
    forall f | f in Elems(r) ensures f in Elems(a) {
      var i :| 0 <= i < |r| && r[i] == f;
      var x := DropPlace(a, n, i);
    }
  }

  function PlaceOf(n: nat, i: nat): nat
  {
    if i < n then PageAt(i) else if i < n + NumTables(n) then TableAt(i - n) else 0
  }

  lemma DropPlace(a: seq<nat>, n: nat, i: nat) returns (x: nat)
    requires |a| == Need(n) && i < |a|
    ensures x == PlaceOf(n, i) && x < |a| && DropOrder(a, n)[i] == a[x]
  {
    x := PlaceOf(n, i);
    if i < n { PlacesInRange(n, i); }
    else if i < n + NumTables(n) { PlacesInRange(n, i - n); }
  }

  lemma DropPlacesDiffer(n: nat, i: nat, j: nat)
    requires i < j < Need(n)
    ensures PlaceOf(n, i) != PlaceOf(n, j)
  {
    PlacesDistinct(i, j);
    if i < n <= j < n + NumTables(n) { PlacesDistinct(i, j - n); }
  }

  /** Releasing what was taken restores every count. */
  lemma ReleaseRestores(counts: seq<nat>, a: seq<nat>, n: nat)
    requires |a| == Need(n) && NoDup(a) && forall i :: 0 <= i < |a| ==> a[i] < |counts| && counts[a[i]] == 0
    ensures forall i :: 0 <= i < |a| ==> DropOrder(a, n)[i] < |counts|
    ensures DropAll(Taken(counts, a), DropOrder(a, n)) == counts
  {
    var r := DropOrder(a, n);
    DropOrderElems(a, n);
    forall i | 0 <= i < |r| ensures r[i] < |counts| && counts[r[i]] == 0 {
      assert r[i] in Elems(r);
    }
    DropEach(Taken(counts, a), r);
    forall f | 0 <= f < |counts| ensures DropAll(Taken(counts, a), r)[f] == counts[f] {
      assert f in r <==> f in a by { assert f in Elems(r) <==> f in Elems(a); }
    }
  }
}
