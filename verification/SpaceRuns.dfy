/** Runs that build and release address spaces, in any order. */
module SpaceRuns {
  import opened SeqLemmas
  import opened Frames
  import opened Spaces
  import opened MemMan

  /** A space of `n` pages made of the frames `a`. */
  datatype Space = Space(n: nat, a: seq<nat>)

  /** Counts and words of memory, and the spaces that are live, by name. */
  datatype Machine = Machine(counts: seq<nat>, words: seq<nat>, live: map<nat, Space>)

  datatype Op = DoBuild(id: nat, n: nat) | DoRelease(id: nat)

  /** alloc_addr_space succeeds for `n` pages. */
  ghost predicate BuildStep(m: Machine, m': Machine, id: nat, n: nat, kern: nat)
  {
    && id !in m.live && n > 0
    && BuiltFrom(m.counts, m'.counts, m.words, m'.words, n, kern)
    && m'.live == m.live[id := Space(n, Free(m.counts)[..Need(n)])]
  }

  /** free_addr_space, of a space whose record of its pages is right. */
  ghost predicate ReleaseStep(m: Machine, m': Machine, id: nat)
  {
    && id in m.live && m.live[id].n <= ENTRIES && |m.live[id].a| == Need(m.live[id].n)
    && (forall i :: 0 <= i < |m.live[id].a| ==> DropOrder(m.live[id].a, m.live[id].n)[i] < |m.counts|)
    && m'.counts == DropAll(m.counts, DropOrder(m.live[id].a, m.live[id].n))
    && m'.words == m.words && m'.live == m.live - {id}
  }

  ghost predicate Step(m: Machine, m': Machine, op: Op, kern: nat)
  {
    match op
    case DoBuild(id, n) => BuildStep(m, m', id, n, kern)
    case DoRelease(id) => ReleaseStep(m, m', id)
  }

  // ---------------------------------------------------------------- the invariant

  /** A live space is mapped, with the kernel in its lower half, and its frames are counted once, where
      before any space was built they were free. */
  ghost predicate Sound(m: Machine, s: Space, base: seq<nat>, kern: nat)
  {
    && Mapped(m.words, s.a, s.n) && NoDup(s.a)
    && (kern + 1) * ENTRIES <= |m.words| && KernelHalf(m.words, s.a[0], kern)
    && forall f :: f in s.a ==> f < |base| && base[f] == 0
  }

  predicate Owned(live: map<nat, Space>, f: nat) { exists id :: id in live && f in live[id].a }

  ghost predicate Inv(m: Machine, base: seq<nat>, kern: nat)
  {
    && kern < |base| && base[kern] != 0 && |m.counts| == |base|
    && (forall id :: id in m.live ==> Sound(m, m.live[id], base, kern))
    && (forall id, jd :: id in m.live && jd in m.live && id != jd ==> Disjoint(m.live[id].a, m.live[jd].a))
    && (forall f :: 0 <= f < |base| ==> m.counts[f] == if Owned(m.live, f) then 1 else base[f])
  }

  /** A space built in other frames leaves a live space as it was. */
  lemma StaysSound(m: Machine, m': Machine, s: Space, a: seq<nat>, base: seq<nat>, kern: nat)
    requires Sound(m, s, base, kern) && SameOutside(m.words, m'.words, a) && Disjoint(a, s.a) && kern !in a
    ensures Sound(m', s, base, kern)
  {
    MappedElsewhere(m.words, m'.words, a, s.a, s.n);
    forall i | 0 <= i < KERN_PD ensures KernelEntry(m'.words, s.a[0], kern, i) {
      assert KernelEntry(m.words, s.a[0], kern, i);
      Untouched(m.words, m'.words, a, s.a, 0, i);
      Untouched(m.words, m'.words, a, [kern], 0, i);
    }
  }

  /** The frames a new space is made of are the kernel's no more than any live space's. */
  lemma FreshFrames(m: Machine, n: nat, base: seq<nat>, kern: nat)
    requires Inv(m, base, kern) && Need(n) <= |Free(m.counts)|
    ensures var a := Free(m.counts)[..Need(n)];
            && NoDup(a) && kern !in a
            && (forall f :: f in a ==> f < |base| && base[f] == 0 && m.counts[f] == 0 && !Owned(m.live, f))
            && forall id :: id in m.live ==> Disjoint(a, m.live[id].a) && Disjoint(m.live[id].a, a)
  {
    var a := Free(m.counts)[..Need(n)];
    forall f | f in a ensures f < |base| && m.counts[f] == 0 && base[f] == 0 && !Owned(m.live, f) {
      var i :| 0 <= i < |a| && a[i] == f;
      assert m.counts[Free(m.counts)[i]] == 0;
    }
    forall id, f | id in m.live && f in m.live[id].a ensures f !in a {
      assert Owned(m.live, f);
    }
  }

  lemma BuildInv(m: Machine, m': Machine, id: nat, n: nat, base: seq<nat>, kern: nat)
    requires Inv(m, base, kern) && BuildStep(m, m', id, n, kern)
    ensures Inv(m', base, kern)
    ensures forall jd :: jd in m.live ==> jd in m'.live && m'.live[jd] == m.live[jd]
  {
    hide Mapped, KernelHalf, DirZero;
    var a := Free(m.counts)[..Need(n)];
    FreshFrames(m, n, base, kern);
    forall jd | jd in m.live ensures Sound(m', m.live[jd], base, kern) {
      StaysSound(m, m', m.live[jd], a, base, kern);
    }
    OwnedAfterBuild(m.live, id, Space(n, a));
  }

  lemma OwnedAfterBuild(live: map<nat, Space>, id: nat, s: Space)
    requires id !in live
    ensures forall f :: Owned(live[id := s], f) <==> Owned(live, f) || f in s.a
  {
    forall f ensures Owned(live[id := s], f) <==> Owned(live, f) || f in s.a {
      if Owned(live, f) {
        var jd :| jd in live && f in live[jd].a;
        assert jd in live[id := s] && f in live[id := s][jd].a;
      }
      if f in s.a { assert f in live[id := s][id].a; }
    }
  }

  lemma OwnedAfterRelease(live: map<nat, Space>, id: nat)
    requires id in live && forall jd :: jd in live && jd != id ==> Disjoint(live[id].a, live[jd].a)
    ensures forall f :: Owned(live - {id}, f) <==> Owned(live, f) && f !in live[id].a
  {
    forall f ensures Owned(live - {id}, f) <==> Owned(live, f) && f !in live[id].a {
      if Owned(live, f) && f !in live[id].a {
        var jd :| jd in live && f in live[jd].a;
        assert jd in live - {id};
      }
    }
  }

  lemma ReleaseInv(m: Machine, m': Machine, id: nat, base: seq<nat>, kern: nat)
    requires Inv(m, base, kern) && ReleaseStep(m, m', id)
    ensures Inv(m', base, kern)
  {
    hide Mapped, KernelHalf;
    var s := m.live[id];
    assert Sound(m, s, base, kern);
    DropOrderElems(s.a, s.n);
    DropEach(m.counts, DropOrder(s.a, s.n));
    OwnedAfterRelease(m.live, id);
    forall f | 0 <= f < |base| ensures m'.counts[f] == if Owned(m'.live, f) then 1 else base[f] {
      assert f in Elems(DropOrder(s.a, s.n)) <==> f in Elems(s.a);
      if f in s.a { assert Owned(m.live, f); }
    }
    forall jd | jd in m'.live ensures Sound(m', m'.live[jd], base, kern) {
      assert Sound(m, m.live[jd], base, kern);
    }
  }

  // ---------------------------------------------------------------- runs

  ghost predicate IsRun(ms: seq<Machine>, ops: seq<Op>, kern: nat)
  {
    |ms| == |ops| + 1 && forall i :: 0 <= i < |ops| ==> Step(ms[i], ms[i + 1], ops[i], kern)
  }

  /** A machine on which no space has been built; the kernel's directory is in a counted frame. */
  predicate Fresh(m: Machine, kern: nat) { m.live == map[] && kern < |m.counts| && m.counts[kern] != 0 }

  lemma FreshInv(m: Machine, kern: nat)
    requires Fresh(m, kern)
    ensures Inv(m, m.counts, kern)
  {
  }

  lemma {:induction false} RunInv(ms: seq<Machine>, ops: seq<Op>, i: nat, base: seq<nat>, kern: nat)
    requires IsRun(ms, ops, kern) && Inv(ms[0], base, kern) && i < |ms|
    ensures Inv(ms[i], base, kern)
  {
    if i > 0 {
      RunInv(ms, ops, i - 1, base, kern);
      assert Step(ms[i - 1], ms[i], ops[i - 1], kern);
      match ops[i - 1] {
        case DoBuild(id, n) => BuildInv(ms[i - 1], ms[i], id, n, base, kern);
        case DoRelease(id) => ReleaseInv(ms[i - 1], ms[i], id, base, kern);
      }
    }
  }

  /** At any time two live spaces have no frame in common, and every page of each is reached through
      its own directory at its own frame, open to its process: other spaces come and go without a trace in it. */
  lemma Isolation(ms: seq<Machine>, ops: seq<Op>, i: nat, id: nat, jd: nat, k: nat, base: seq<nat>, kern: nat)
    requires IsRun(ms, ops, kern) && Inv(ms[0], base, kern) && i < |ms|
    requires id in ms[i].live && jd in ms[i].live && id != jd
    ensures Disjoint(ms[i].live[id].a, ms[i].live[jd].a)
    ensures var s := ms[i].live[id]; k < s.n ==>
      && |s.a| > PageAt(k)
      && s.a[0] * ENTRIES + (USER_MEM + k * FRAME_LEN) / (FRAME_LEN * ENTRIES) < |ms[i].words|
      && Walk(ms[i].words, s.a[0], USER_MEM + k * FRAME_LEN) == s.a[PageAt(k)]
      && Open(DirWord(ms[i].words, s.a[0], USER_MEM + k * FRAME_LEN))
      && Open(PageWord(ms[i].words, s.a[0], USER_MEM + k * FRAME_LEN))
  {
    RunInv(ms, ops, i, base, kern);
    var s := ms[i].live[id];
    assert Sound(ms[i], s, base, kern);
    if k < s.n {
      WalkReaches(ms[i].words, s.a, s.n, k);
      WalkIsOpen(ms[i].words, s.a, s.n, k);
    }
  }

  /** A space keeps its frames from step to step until it is itself released. */
  lemma KeepsItsFrames(m: Machine, m': Machine, op: Op, id: nat, kern: nat)
    requires Step(m, m', op, kern) && id in m.live && op != DoRelease(id)
    ensures id in m'.live && m'.live[id] == m.live[id]
  {
  }

  /** So between its building and its release the translation of its pages never changes. */
  lemma {:induction false} TranslationStays(ms: seq<Machine>, ops: seq<Op>, i: nat, j: nat, id: nat, k: nat,
      base: seq<nat>, kern: nat)
    requires IsRun(ms, ops, kern) && Inv(ms[0], base, kern) && i <= j < |ms|
    requires id in ms[i].live && k < ms[i].live[id].n && forall x :: i <= x < j ==> ops[x] != DoRelease(id)
    ensures id in ms[j].live && ms[j].live[id] == ms[i].live[id]
    ensures ms[i].live[id].a != []
    ensures var pd, va := ms[i].live[id].a[0], USER_MEM + k * FRAME_LEN;
      && pd * ENTRIES + va / (FRAME_LEN * ENTRIES) < |ms[i].words|
      && pd * ENTRIES + va / (FRAME_LEN * ENTRIES) < |ms[j].words|
      && Walk(ms[j].words, pd, va) == Walk(ms[i].words, pd, va)
    decreases j - i
  {
    RunInv(ms, ops, i, base, kern);
    var s := ms[i].live[id];
    assert Sound(ms[i], s, base, kern);
    WalkReaches(ms[i].words, s.a, s.n, k);
    if i < j {
      assert Step(ms[i], ms[i + 1], ops[i], kern);
      KeepsItsFrames(ms[i], ms[i + 1], ops[i], id, kern);
      RunInv(ms, ops, i + 1, base, kern);
      assert Sound(ms[i + 1], s, base, kern);
      WalkReaches(ms[i + 1].words, s.a, s.n, k);
      TranslationStays(ms, ops, i + 1, j, id, k, base, kern);
    }
  }

  /** When no space is left, every reference count is what it was before the first was built. */
  lemma AllReleased(ms: seq<Machine>, ops: seq<Op>, kern: nat)
    requires IsRun(ms, ops, kern) && Fresh(ms[0], kern) && ms[|ms| - 1].live == map[]
    ensures ms[|ms| - 1].counts == ms[0].counts
  {
    var base := ms[0].counts;
    FreshInv(ms[0], kern);
    RunInv(ms, ops, |ms| - 1, base, kern);
    forall f | 0 <= f < |base| ensures ms[|ms| - 1].counts[f] == base[f] {
      assert !Owned(ms[|ms| - 1].live, f);
    }
  }
}
