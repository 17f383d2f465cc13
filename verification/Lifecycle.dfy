/** Processes from creation to kill (kernel/arch/i386/process.c, kernel/sched.c): the five kalloc
    blocks, the frames and the table slot of each are given back once, whatever the order. */
module Lifecycle {
  import opened Wrappers
  import opened SeqLemmas
  import H = HeapModel
  import HL = HeapLemmas
  import opened Frames
  import opened Spaces
  import R = SpaceRuns

  const DATA_LEN: nat := 0x10000
  const ADDR_SPACE_SIZE: nat := 20
  const PROC_INFO_SIZE: nat := 4
  const TSS_SIZE: nat := 104
  const WORD: nat := 4

  /** The heap offsets of the headers of a process's five blocks. */
  datatype Proc = Proc(frames: nat, pts: nat, space: nat, arch: nat, tss: nat, n: nat)

  /** The blocks, in the order in which they are allocated. */
  function Blocks(p: Proc): (r: seq<H.Slot>)
    ensures |r| == 5
  {
    [H.Slot(p.frames, H.Round(p.n * WORD)), H.Slot(p.pts, H.Round(NumTables(p.n) * WORD)),
     H.Slot(p.space, H.Round(ADDR_SPACE_SIZE)), H.Slot(p.arch, H.Round(PROC_INFO_SIZE)),
     H.Slot(p.tss, H.Round(TSS_SIZE))]
  }

  /** The blocks in the order in which free_addr_space and then destroy_process free them. */
  function FreeOrder(p: Proc): seq<int> { [p.frames, p.pts, p.tss, p.arch, p.space] }

  // ---------------------------------------------------------------- allocating and freeing blocks

  /** Every request is granted. */
  predicate Granted(h: H.State, sizes: seq<nat>)
    decreases |sizes|
  {
    sizes == [] || (H.Alloc(h, sizes[0]).1.Some? && Granted(H.Alloc(h, sizes[0]).0, sizes[1..]))
  }

  /** The state after the requests, and the blocks granted. */
  function AllocAll(h: H.State, sizes: seq<nat>): (H.State, seq<H.Slot>)
    requires Granted(h, sizes)
    decreases |sizes|
  {
    if sizes == [] then (h, [])
    else
      var (h1, p) := H.Alloc(h, sizes[0]);
      var (h2, rest) := AllocAll(h1, sizes[1..]);
      (h2, [H.Slot(p.value - H.HEADER, H.Round(sizes[0]))] + rest)
  }

  /** Every block is in use when its turn to be freed comes. */
  predicate Freeable(h: H.State, ats: seq<int>)
    decreases |ats|
  {
    ats == [] || (H.Free(h, ats[0]).1 && Freeable(H.Free(h, ats[0]).0, ats[1..]))
  }

  function FreeAll(h: H.State, ats: seq<int>): H.State
    decreases |ats|
  {
    if ats == [] then h else FreeAll(H.Free(h, ats[0]).0, ats[1..])
  }

  /** The blocks granted are new and distinct, and with the old ones they are all that is in use. */
  lemma {:induction false} AllocAllAdds(h: H.State, sizes: seq<nat>)
    requires H.Inv(h) && Granted(h, sizes)
    ensures var (h', bs) := AllocAll(h, sizes);
            && H.Inv(h') && h'.length == h.length && |bs| == |sizes| && NoDup(bs)
            && (forall s :: s in bs ==> s !in h.used)
            && Elems(h'.used) == Elems(h.used) + Elems(bs)
    decreases |sizes|
  {
    hide H.Inv, H.Alloc;
    if sizes != [] {
      var h1 := H.Alloc(h, sizes[0]).0;
      HL.AllocInv(h, sizes[0]);
      HL.AllocPayload(h, sizes[0]);
      AllocAllAdds(h1, sizes[1..]);
      var (h', bs) := AllocAll(h, sizes);
      var rest := AllocAll(h1, sizes[1..]).1;
      assert bs == [bs[0]] + rest && h1.used == [bs[0]] + h.used;
      assert bs[0] in h1.used;
      assert forall s :: s in h.used ==> s in h1.used;
      assert Elems(h1.used) == Elems(h.used) + {bs[0]};
      assert Elems(bs) == Elems(rest) + {bs[0]};
    }
  }

  lemma FreeOne(h: H.State, s: H.Slot)
    requires H.Inv(h) && s in h.used
    ensures H.Free(h, s.at).1 && Elems(H.Free(h, s.at).0.used) == Elems(h.used) - {s}
    ensures H.Inv(H.Free(h, s.at).0) && H.Free(h, s.at).0.length == h.length
  {
    HL.FreeInv(h, s.at);
    var i := H.IndexAt(h.used, s.at);
    var k :| 0 <= k < |h.used| && h.used[k] == s;
    assert i < |h.used|;
    assert h.used[i] in Elems(h.free) + Elems(h.used) && s in Elems(h.free) + Elems(h.used);
    HL.PairApart(Elems(h.free) + Elems(h.used), h.length, h.used[i], s);
    RemoveElems(h.used, i);
  }

  /** Blocks in use are freed each once, in any order. */
  lemma {:induction false} FreeAllRemoves(h: H.State, ats: seq<int>, bs: seq<H.Slot>)
    requires H.Inv(h) && |ats| == |bs| && NoDup(bs)
    requires forall i :: 0 <= i < |bs| ==> bs[i] in h.used && bs[i].at == ats[i]
    ensures Freeable(h, ats) && H.Inv(FreeAll(h, ats)) && FreeAll(h, ats).length == h.length
    ensures Elems(FreeAll(h, ats).used) == Elems(h.used) - Elems(bs)
    decreases |ats|
  {
    hide H.Inv, H.Free;
    if ats != [] {
      FreeOne(h, bs[0]);
      var h1 := H.Free(h, ats[0]).0;
      forall i | 0 <= i < |bs[1..]| ensures bs[1..][i] in h1.used {
        assert bs[1..][i] == bs[i + 1] && bs[i + 1] in Elems(h.used) - {bs[0]};
        assert bs[i + 1] in Elems(h1.used);
      }
      FreeAllRemoves(h1, ats[1..], bs[1..]);
      assert bs == [bs[0]] + bs[1..];
    }
  }

  // ---------------------------------------------------------------- the system

  /** The heap, the frames with the live spaces, the processes created and not yet killed, and the
      process table, whose slots name processes. */
  datatype Sys = Sys(heap: H.State, machine: R.Machine, procs: map<nat, Proc>, tab: seq<Option<nat>>)

  datatype Event = Create(id: nat, textLen: nat) | Refuse(textLen: nat) | Add(id: nat) | Kill(pid: nat)

  function Pages(textLen: nat): nat { NumFrames(textLen + DATA_LEN) }

  function Sizes(n: nat): seq<nat> { [n * WORD, NumTables(n) * WORD, ADDR_SPACE_SIZE, PROC_INFO_SIZE, TSS_SIZE] }

  /** A process of `textLen` bytes and 64 KB of data: a page more than their whole pages, a word for each page and
      each table, and the three structs. */
  lemma SizesAre(textLen: nat)
    ensures var n := (textLen + 0x10000) / 4096 + 1;
      Pages(textLen) == n && Sizes(n) == [4 * n, 4 * (n / 1024 + 1), 20, 4, 104]
  {
  }

  /** create_process succeeds: five blocks and the frames of a space. */
  ghost predicate CreateStep(s: Sys, s': Sys, id: nat, n: nat, kern: nat)
  {
    && id !in s.procs && n <= ENTRIES
    && Granted(s.heap, Sizes(n))
    && id in s'.procs && s'.procs == s.procs[id := s'.procs[id]]
    && s'.procs[id].n == n && AllocAll(s.heap, Sizes(n)) == (s'.heap, Blocks(s'.procs[id]))
    && R.BuildStep(s.machine, s'.machine, id, n, kern)
    && s'.tab == s.tab
  }

  /** create_process fails for want of a frame for the directory: the two blocks it had are given back. */
  ghost predicate RefuseStep(s: Sys, s': Sys)
  {
    && Free(s.machine.counts) == []
    && H.Inv(s'.heap) && s'.heap.length == s.heap.length
    && Elems(s'.heap.used) == Elems(s.heap.used) && Elems(s'.heap.free) == Elems(s.heap.free)
    && s'.machine == s.machine && s'.procs == s.procs && s'.tab == s.tab
  }

  /** sched_add of a process that is not in the table yet: it gets the lowest free slot above 0. */
  ghost predicate AddStep(s: Sys, s': Sys, id: nat)
  {
    && id in s.procs && Some(id) !in s.tab
    && (exists slot :: 0 < slot < |s.tab| && s.tab[slot].None? && s'.tab == s.tab[slot := Some(id)]
                    && forall i :: 0 < i < slot ==> s.tab[i].Some?)
    && s'.heap == s.heap && s'.machine == s.machine && s'.procs == s.procs
  }

  /** process_kill: free_addr_space, then destroy_process. */
  ghost predicate KillStep(s: Sys, s': Sys, pid: nat)
  {
    && pid < |s.tab| && s.tab[pid].Some? && s.tab[pid].value in s.procs
    && var id := s.tab[pid].value;
    && s'.heap == FreeAll(s.heap, FreeOrder(s.procs[id]))
    && R.ReleaseStep(s.machine, s'.machine, id)
    && s'.procs == s.procs - {id} && s'.tab == s.tab[pid := None]
  }

  ghost predicate Step(s: Sys, s': Sys, e: Event, kern: nat)
  {
    match e
    case Create(id, textLen) => CreateStep(s, s', id, Pages(textLen), kern)
    case Refuse(textLen) => RefuseStep(s, s')
    case Add(id) => AddStep(s, s', id)
    case Kill(pid) => KillStep(s, s', pid)
  }

  // ---------------------------------------------------------------- the invariant

  predicate InBlocks(procs: map<nat, Proc>, b: H.Slot) { exists id :: id in procs && b in Blocks(procs[id]) }

  /** In use are the blocks that were in use at the start, and five distinct ones per process. */
  ghost predicate BlocksSound(used: set<H.Slot>, procs: map<nat, Proc>, used0: set<H.Slot>)
  {
    && (forall b :: b in used <==> b in used0 || InBlocks(procs, b))
    && (forall id :: id in procs ==> NoDup(Blocks(procs[id])))
    && (forall id, b :: id in procs && b in Blocks(procs[id]) ==> b !in used0)
    && (forall id, jd, b :: id in procs && jd in procs && id != jd && b in Blocks(procs[id]) ==>
         b !in Blocks(procs[jd]))
  }

  ghost predicate Inv(s: Sys, h0: H.State, base: seq<nat>, kern: nat)
  {
    && H.Inv(s.heap) && s.heap.length == h0.length
    && BlocksSound(Elems(s.heap.used), s.procs, Elems(h0.used))
    && R.Inv(s.machine, base, kern)
    && s.machine.live.Keys == s.procs.Keys
    && (forall i :: 0 <= i < |s.tab| && s.tab[i].Some? ==> s.tab[i].value in s.procs)
    && (forall i, j :: 0 <= i < j < |s.tab| && s.tab[i].Some? ==> s.tab[i] != s.tab[j])
  }

  lemma BlocksAdded(used: set<H.Slot>, used': set<H.Slot>, procs: map<nat, Proc>, used0: set<H.Slot>, id: nat, p: Proc)
    requires BlocksSound(used, procs, used0) && id !in procs && NoDup(Blocks(p))
    requires used' == used + Elems(Blocks(p)) && forall b :: b in Blocks(p) ==> b !in used
    ensures BlocksSound(used', procs[id := p], used0)
  {
    hide Blocks;
    var procs' := procs[id := p];
    forall b ensures b in used' <==> b in used0 || InBlocks(procs', b) {
      if InBlocks(procs, b) {
        var jd :| jd in procs && b in Blocks(procs[jd]);
        assert jd in procs' && b in Blocks(procs'[jd]);
      }
      if b in Blocks(p) { assert b in Blocks(procs'[id]); }
    }
    forall jd, b | jd in procs && b in Blocks(procs[jd]) ensures b !in Blocks(p) {
      assert InBlocks(procs, b);
    }
  }

  lemma BlocksGone(used: set<H.Slot>, procs: map<nat, Proc>, used0: set<H.Slot>, id: nat)
    requires BlocksSound(used, procs, used0) && id in procs
    ensures BlocksSound(used - Elems(Blocks(procs[id])), procs - {id}, used0)
  {
    hide Blocks;
    var procs' := procs - {id};
    forall b ensures b in used - Elems(Blocks(procs[id])) <==> b in used0 || InBlocks(procs', b) {
      if InBlocks(procs, b) && b !in Blocks(procs[id]) {
        var jd :| jd in procs && b in Blocks(procs[jd]);
        assert jd in procs' && b in Blocks(procs'[jd]);
      }
      if InBlocks(procs', b) {
        var jd :| jd in procs' && b in Blocks(procs'[jd]);
        assert jd in procs && b in Blocks(procs[jd]);
      }
    }
  }

  lemma CreateInv(s: Sys, s': Sys, id: nat, n: nat, h0: H.State, base: seq<nat>, kern: nat)
    requires Inv(s, h0, base, kern) && CreateStep(s, s', id, n, kern)
    ensures Inv(s', h0, base, kern)
  {
    hide H.Inv, BlocksSound, R.Inv;
    AllocAllAdds(s.heap, Sizes(n));
    BlocksAdded(Elems(s.heap.used), Elems(s'.heap.used), s.procs, Elems(h0.used), id, s'.procs[id]);
    R.BuildInv(s.machine, s'.machine, id, n, base, kern);
  }

  lemma RefuseInv(s: Sys, s': Sys, h0: H.State, base: seq<nat>, kern: nat)
    requires Inv(s, h0, base, kern) && RefuseStep(s, s')
    ensures Inv(s', h0, base, kern)
  {
    hide H.Inv, BlocksSound, R.Inv;
  }

  lemma AddInv(s: Sys, s': Sys, id: nat, h0: H.State, base: seq<nat>, kern: nat)
    requires Inv(s, h0, base, kern) && AddStep(s, s', id)
    ensures Inv(s', h0, base, kern)
  {
    hide H.Inv, BlocksSound, R.Inv;
  }

  /** The blocks of a process in the order in which they are freed. */
  function FreedBlocks(p: Proc): (r: seq<H.Slot>)
    ensures |r| == 5 && Elems(r) == Elems(Blocks(p)) && (NoDup(Blocks(p)) ==> NoDup(r))
    ensures forall i :: 0 <= i < 5 ==> r[i].at == FreeOrder(p)[i] && r[i] in Blocks(p)
  {
    var b := Blocks(p);
    assert b == [b[0], b[1], b[2], b[3], b[4]];
    [b[0], b[1], b[4], b[3], b[2]]
  }

  /** Killing a process frees each of its five blocks exactly once, and every free succeeds. */
  lemma KillFrees(s: Sys, id: nat, h0: H.State, base: seq<nat>, kern: nat)
    requires Inv(s, h0, base, kern) && id in s.procs
    ensures var p := s.procs[id];
      && Freeable(s.heap, FreeOrder(p)) && H.Inv(FreeAll(s.heap, FreeOrder(p)))
      && FreeAll(s.heap, FreeOrder(p)).length == s.heap.length
      && Elems(FreeAll(s.heap, FreeOrder(p)).used) == Elems(s.heap.used) - Elems(Blocks(p))
  {
    hide H.Inv, R.Inv, Blocks;
    var p := s.procs[id];
    forall i | 0 <= i < 5 ensures FreedBlocks(p)[i] in s.heap.used {
      assert InBlocks(s.procs, FreedBlocks(p)[i]);
      assert FreedBlocks(p)[i] in Elems(s.heap.used);
    }
    FreeAllRemoves(s.heap, FreeOrder(p), FreedBlocks(p));
  }

  lemma KillInv(s: Sys, s': Sys, pid: nat, h0: H.State, base: seq<nat>, kern: nat)
    requires Inv(s, h0, base, kern) && KillStep(s, s', pid)
    ensures Inv(s', h0, base, kern)
  {
    hide H.Inv, BlocksSound, R.Inv, Blocks;
    var id := s.tab[pid].value;
    KillFrees(s, id, h0, base, kern);
    BlocksGone(Elems(s.heap.used), s.procs, Elems(h0.used), id);
    R.ReleaseInv(s.machine, s'.machine, id, base, kern);
    forall i | 0 <= i < |s'.tab| && s'.tab[i].Some? ensures s'.tab[i].value in s'.procs {
      assert s.tab[i] != s.tab[pid] by { assert i != pid; }
    }
  }

  // ---------------------------------------------------------------- runs

  ghost predicate IsRun(ss: seq<Sys>, es: seq<Event>, kern: nat)
  {
    |ss| == |es| + 1 && forall i :: 0 <= i < |es| ==> Step(ss[i], ss[i + 1], es[i], kern)
  }

  lemma {:induction false} RunInv(ss: seq<Sys>, es: seq<Event>, i: nat, h0: H.State, base: seq<nat>, kern: nat)
    requires IsRun(ss, es, kern) && Inv(ss[0], h0, base, kern) && i < |ss|
    ensures Inv(ss[i], h0, base, kern)
  {
    hide Inv;
    if i > 0 {
      RunInv(ss, es, i - 1, h0, base, kern);
      assert Step(ss[i - 1], ss[i], es[i - 1], kern);
      match es[i - 1] {
        case Create(id, textLen) => CreateInv(ss[i - 1], ss[i], id, Pages(textLen), h0, base, kern);
        case Refuse(textLen) => RefuseInv(ss[i - 1], ss[i], h0, base, kern);
        case Add(id) => AddInv(ss[i - 1], ss[i], id, h0, base, kern);
        case Kill(pid) => KillInv(ss[i - 1], ss[i], pid, h0, base, kern);
      }
    }
  }

  /** A system without processes, whatever else is on its heap. */
  ghost predicate Fresh(s: Sys, kern: nat)
  {
    && H.Inv(s.heap) && R.Fresh(s.machine, kern) && s.procs == map[]
    && forall i :: 0 <= i < |s.tab| ==> s.tab[i].None?
  }

  lemma FreshInv(s: Sys, kern: nat)
    requires Fresh(s, kern)
    ensures Inv(s, s.heap, s.machine.counts, kern)
  {
    hide H.Inv, R.Inv;
    R.FreshInv(s.machine, kern);
  }

  /** Conservation: when every process of a run has been killed, the heap's used and free sets and all
      reference counts are what they were at its start. */
  lemma AllKilled(ss: seq<Sys>, es: seq<Event>, kern: nat)
    requires IsRun(ss, es, kern) && Fresh(ss[0], kern) && ss[|ss| - 1].procs == map[]
    ensures Elems(ss[|ss| - 1].heap.used) == Elems(ss[0].heap.used)
    ensures Elems(ss[|ss| - 1].heap.free) == Elems(ss[0].heap.free)
    ensures ss[|ss| - 1].machine.counts == ss[0].machine.counts
  {
    var s0, s1 := ss[0], ss[|ss| - 1];
    FreshInv(s0, kern);
    RunInv(ss, es, |ss| - 1, s0.heap, s0.machine.counts, kern);
    NoBlocks(Elems(s1.heap.used), Elems(s0.heap.used));
    HL.FreeSetDetermined(s0.heap, s1.heap);
    NoSpaces(s1.machine, s0.machine.counts, kern);
  }

  lemma NoBlocks(used: set<H.Slot>, used0: set<H.Slot>)
    requires BlocksSound(used, map[], used0)
    ensures used == used0
  {
  }

  lemma NoSpaces(m: R.Machine, base: seq<nat>, kern: nat)
    requires R.Inv(m, base, kern) && m.live.Keys == {}
    ensures m.counts == base
  {
    forall f | 0 <= f < |base| ensures m.counts[f] == base[f] { assert !R.Owned(m.live, f); }
  }
}
