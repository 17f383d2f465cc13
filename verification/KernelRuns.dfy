/** The kernel in place takes exactly the steps of the runs in Lifecycle: process structs, process table,
    heap and frames together. */
module KernelRuns {
  import opened Wrappers
  import opened SeqLemmas
  import H = HeapModel
  import opened Frames
  import opened Spaces
  import opened MemMan
  import R = SpaceRuns
  import opened Heap
  import opened Lifecycle
  import opened Process
  import S = Sched

  /** The struct of a process names its blocks, and in the first two of them, in the words of the heap, are the
      frames of its space. */
  ghost predicate Held(m: seq<nat>, r: Record, p: Proc, s: R.Space)
  {
    && r.blocks == p && s.n == p.n && 0 < p.n <= ENTRIES
    && |s.a| == Need(p.n) && Increasing(s.a) && RecordOf(m, r, s.a, p.n)
  }

  /** There is a struct for each process, and it is right. */
  ghost predicate AllHeld(m: seq<nat>, structs: map<nat, Record>, s: Sys)
  {
    && structs.Keys == s.procs.Keys == s.machine.live.Keys
    && forall id :: id in structs ==> Held(m, structs[id], s.procs[id], s.machine.live[id])
  }

  /** A slot of the table is free exactly when no process is in it. */
  ghost predicate SameSlots(st: seq<S.Status>, tab: seq<Option<nat>>)
  {
    |st| == |tab| && forall i :: 0 <= i < |st| ==> (st[i] == S.Null <==> tab[i].None?)
  }

  class Processes {
    const kernel: Kernel
    const sched: S.Scheduler
    /** Which process is in a slot of proctab. */
    var slots: seq<Option<nat>>
    /** The process structs, by the names of the processes. */
    var structs: map<nat, Record>
    ghost var sys: Sys
    ghost const start: Sys

    /** What the structs and the table say is what the state of the run says. */
    ghost predicate Linked()
      reads this, sched, sched.proctab, kernel.heap, kernel.heap.mem
    {
      && sys.tab == slots && SameSlots(sched.proctab[..], slots)
      && AllHeld(kernel.heap.mem[..], structs, sys)
    }

    ghost predicate Valid()
      reads this, kernel, kernel.heap, kernel.heap.mem, kernel.mm, kernel.mm.counts, kernel.mm.ns, kernel.mm.phys
      reads sched, sched.proctab
    {
      && kernel.Valid() && sched.Valid()
      && sys.heap == kernel.heap.st
      && sys.machine.counts == kernel.mm.counts[..] && sys.machine.words == kernel.mm.phys[..]
      && Linked() && Lifecycle.Inv(sys, start.heap, start.machine.counts, kernel.kern)
    }

    constructor (kernel: Kernel, sched: S.Scheduler)
      requires kernel.Valid() && sched.Valid()
      requires forall i :: 0 <= i < sched.proctab.Length ==> sched.proctab[i] == S.Null
      ensures Valid() && sys == start && Lifecycle.Fresh(sys, kernel.kern)
      ensures this.kernel == kernel && this.sched == sched && structs == map[]
    {
      this.kernel, this.sched := kernel, sched;
      slots := seq(sched.proctab.Length, i => None);
      structs := map[];
      var s := Sys(kernel.heap.st, R.Machine(kernel.mm.counts[..], kernel.mm.phys[..], map[]), map[],
        seq(sched.proctab.Length, i => None));
      sys, start := s, s;
      new;
      FreshInv(sys, kernel.kern);
    }

    /** create_process.  Of its failures that for want of a directory is a step, too. */
    method Create(id: nat, textLen: nat) returns (c: CreateResult)
      requires Valid() && id !in structs && textLen + DATA_LEN < 0xBFFF_F000 && Pages(textLen) <= ENTRIES
      modifies this`structs, this`sys
      modifies kernel.heap`st, kernel.heap.mem, kernel.mm.counts, kernel.mm.ns, kernel.mm.phys
      ensures Foretold(c, old(kernel.heap.st), old(Free(kernel.mm.counts[..])), Pages(textLen))
      ensures c.Created? ==> Valid() && Step(old(sys), sys, Event.Create(id, textLen), kernel.kern)
      ensures c.NoFrames? ==> Valid() && Step(old(sys), sys, Refuse(textLen), kernel.kern)
    {
      hide Lifecycle.Inv, BuiltFrom, CreatedFrom, AllHeld, CreateStep, SameSlots, RecordOf, PayloadKept, HeapKept,
        Free, H.Inv, Encodes, Foretold;
      ghost var s, m, structs0 := sys, kernel.heap.mem[..], structs;
      HeldNames(m, structs, s);
      c := kernel.Create(textLen);
      match c {
        case Created(r) =>
          structs := structs[id := r];
          sys := CreatedSys(s, id, r, Pages(textLen), kernel.heap.st, kernel.mm.counts[..], kernel.mm.phys[..]);
          CreateKeeps(m, kernel.heap.mem[..], structs0, s, sys, id, r, Pages(textLen), kernel.kern, start);
        case NoFrames =>
          sys := s.(heap := kernel.heap.st);
          NoneWasFree(c, s.heap, Free(s.machine.counts), Pages(textLen));
          RefuseKeeps(m, kernel.heap.mem[..], structs, s, sys, kernel.kern, start);
        case _ =>
      }
    }

    /** sched_add of a process that is in no slot. */
    method Add(id: nat) returns (slot: Option<nat>)
      requires Valid() && id in structs && Some(id) !in slots
      modifies this`slots, this`sys, sched.proctab
      ensures Valid()
      ensures slot.Some? ==> slot.value < |slots| && slots[slot.value] == Some(id)
      ensures slot.Some? ==> Step(old(sys), sys, Event.Add(id), kernel.kern)
      ensures slot.None? ==> sys == old(sys) && forall i :: 0 < i < |slots| ==> slots[i].Some?
    {
      hide Lifecycle.Inv, H.Inv, Held, Encodes;
      ghost var s := sys;
      slot := sched.Add();
      if slot.Some? {
        slots := slots[slot.value := Some(id)];
        sys := s.(tab := slots);
        AddInv(s, sys, id, start.heap, start.machine.counts, kernel.kern);
      }
    }

    /** free_addr_space and destroy_process, for the process in a slot. */
    method Destroy(pid: nat, id: nat)
      requires Valid() && pid < |slots| && slots[pid] == Some(id) && id in structs
      modifies this`structs, kernel.heap`st, kernel.heap.mem, kernel.mm.counts
      ensures structs == old(structs) - {id} && kernel.heap.Valid() && kernel.mm.Valid()
      ensures Killed(sys, old(structs[id]), id, kernel.heap.st, kernel.mm.counts[..])
      ensures PayloadKept(old(kernel.heap.mem[..]), kernel.heap.mem[..], kernel.heap.st.used)
    {
      hide Lifecycle.Inv, H.Inv, Held, SameSlots, Encodes, InCounts, RecordOf, Increasing, DropAll, FreeAll,
        PayloadKept, DropOrder, Blocks, Freeable;
      MayKill(sys, pid, start.heap, start.machine.counts, kernel.kern);
      var r := structs[id];
      HeldRecord(kernel.heap.mem[..], r, sys.procs[id], sys.machine.live[id]);
      CountsBound(sys.machine.live[id].a, sys.machine.counts);
      kernel.Kill(r, sys.machine.live[id].a);
      structs := structs - {id};
    }

    /** process_kill */
    method Kill(pid: nat) returns (o: S.Outcome)
      requires Valid() && pid < |slots| && slots[pid].Some?
      modifies this`slots, this`structs, this`sys, sched`curproc, sched.proctab
      modifies kernel.heap`st, kernel.heap.mem, kernel.mm.counts
      ensures Valid() && Step(old(sys), sys, Event.Kill(pid), kernel.kern)
      ensures sched.curproc == S.Next(sched.proctab[..], old(sched.curproc))
      ensures o.Switch? ==> o.to == sched.curproc && o.from == old(sched.curproc) != sched.curproc
      ensures o.Switch? ==> slots[sched.curproc].Some? && sched.curproc != pid
      ensures o == S.OutcomeOf(sched.proctab[..], old(sched.curproc))
    {
      hide Lifecycle.Inv, H.Inv, AllHeld, KillStep, SameSlots, S.Next, S.OutcomeOf, Killed, Encodes, PayloadKept;
      ghost var s, m, before := sys, kernel.heap.mem[..], structs;
      MayKill(s, pid, start.heap, start.machine.counts, kernel.kern);
      var id := slots[pid].value;
      HeldNames(m, structs, s);
      ghost var r := structs[id];
      SameLength(sched.proctab[..], s.tab);
      KillSlot(sched.proctab[..], s.tab, pid);
      Destroy(pid, id);
      slots := slots[pid := None];
      o := sched.Kill(pid);
      sys := Sys(kernel.heap.st,
        R.Machine(kernel.mm.counts[..], s.machine.words, s.machine.live - {id}), s.procs - {id}, slots);
      KillIsStep(s, sys, pid, r);
      if o.Switch? { RunsProcess(sched.proctab[..], slots, sched.curproc); }
      KillInv(s, sys, pid, start.heap, start.machine.counts, kernel.kern);
      Counted(sys, start.heap, start.machine.counts, kernel.kern);
      HeldLess(m, before, s, sys, id);
      StaysHeld(m, kernel.heap.mem[..], structs, sys, start.heap, start.machine.counts, kernel.kern);
    }
  }

  /** What Kill promises of heap and counts, for a struct that holds on to process `id`. */
  ghost predicate Killed(s: Sys, r: Record, id: nat, h: H.State, counts: seq<nat>)
  {
    && id in s.procs && id in s.machine.live && r.blocks == s.procs[id]
    && var a, n := s.machine.live[id].a, r.blocks.n;
    && s.machine.live[id].n == n <= ENTRIES && |a| == Need(n)
    && (forall i :: 0 <= i < Need(n) ==> DropOrder(a[..Need(n)], n)[i] < |s.machine.counts|)
    && counts == DropAll(s.machine.counts, DropOrder(a[..Need(n)], n))
    && h == FreeAll(s.heap, FreeOrder(r.blocks))
  }

  /** The state with the new process. */
  ghost function CreatedSys(s: Sys, id: nat, r: Record, n: nat, h: H.State, counts: seq<nat>, words: seq<nat>): Sys
  {
    var free := Free(s.machine.counts);
    var space := R.Space(n, if Need(n) <= |free| then free[..Need(n)] else free);
    Sys(h, R.Machine(counts, words, s.machine.live[id := space]), s.procs[id := r.blocks], s.tab)
  }

  /** What Create promises of the heap, the frames and the struct is a step, and the struct holds on to what
      was allocated. */
  lemma CreateIsStep(m: seq<nat>, s: Sys, s': Sys, id: nat, r: Record, n: nat, kern: nat)
    requires id !in s.procs && s.machine.live.Keys == s.procs.Keys && 0 < n <= ENTRIES
    requires CreatedFrom(s.heap, s'.heap, r.blocks, n) && RecordOf(m, r, Free(s.machine.counts), n)
    requires BuiltFrom(s.machine.counts, s'.machine.counts, s.machine.words, s'.machine.words, n, kern)
    requires s' == CreatedSys(s, id, r, n, s'.heap, s'.machine.counts, s'.machine.words)
    ensures CreateStep(s, s', id, n, kern) && Held(m, r, r.blocks, s'.machine.live[id])
  {
    hide Free, Recorded, RecordedTables, BuiltFrom;
    var l := Free(s.machine.counts);
    BuiltNeeds(s.machine.counts, s'.machine.counts, s.machine.words, s'.machine.words, n, kern);
    FreeIncreasing(s.machine.counts);
    var fo, po := First(r.blocks.frames), First(r.blocks.pts);
    RecordPrefix(m[fo..fo + n], m[po..po + NumTables(n)], l, n);
  }

  // ---------------------------------------------------------------- what the structs say, over the steps

  /** A process's first two blocks are in use, and hold the arrays. */
  lemma ArraysInUse(s: Sys, id: nat, h0: H.State, base: seq<nat>, kern: nat)
    requires Lifecycle.Inv(s, h0, base, kern) && id in s.procs
    ensures var p := s.procs[id]; H.Inv(s.heap) && ArraysIn(s.heap, p.frames, p.pts, p.n)
  {
    hide H.Inv, R.Inv, BlocksSound;
    var p := s.procs[id];
    BlocksInUse(s, id, Elems(s.heap.used), h0);
    assert Blocks(p)[0] == FramesBlock(p.frames, p.n) && Blocks(p)[1] == PtsBlock(p.pts, p.n);
  }

  /** As long as the data of the blocks in use stands, so does what the structs say. */
  lemma StaysHeld(m: seq<nat>, m': seq<nat>, structs: map<nat, Record>, s: Sys, h0: H.State, base: seq<nat>, kern: nat)
    requires AllHeld(m, structs, s) && Lifecycle.Inv(s, h0, base, kern) && PayloadKept(m, m', s.heap.used)
    ensures AllHeld(m', structs, s)
  {
    hide Lifecycle.Inv, H.Inv, RecordOf, PayloadKept, ArraysIn, Increasing;
    forall id | id in structs ensures Held(m', structs[id], s.procs[id], s.machine.live[id]) {
      assert Held(m, structs[id], s.procs[id], s.machine.live[id]);
      ArraysInUse(s, id, h0, base, kern);
      ArraysStay(m, m', s.heap, structs[id], s.machine.live[id].a);
    }
  }

  lemma HeldLess(m: seq<nat>, structs: map<nat, Record>, s: Sys, s': Sys, id: nat)
    requires AllHeld(m, structs, s) && s'.procs == s.procs - {id} && s'.machine.live == s.machine.live - {id}
    ensures AllHeld(m, structs - {id}, s')
  {
    hide Held;
  }

  lemma HeldNames(m: seq<nat>, structs: map<nat, Record>, s: Sys)
    requires AllHeld(m, structs, s)
    ensures structs.Keys == s.procs.Keys == s.machine.live.Keys
  {
  }

  /** After a creation: a step, the invariant, and the new struct with the old ones. */
  lemma CreateKeeps(m: seq<nat>, m': seq<nat>, structs: map<nat, Record>, s: Sys, s': Sys, id: nat, r: Record, n: nat,
      kern: nat, start: Sys)
    requires AllHeld(m, structs, s) && Lifecycle.Inv(s, start.heap, start.machine.counts, kern) && id !in structs
    requires 0 < n <= ENTRIES && CreatedFrom(s.heap, s'.heap, r.blocks, n)
    requires RecordOf(m', r, Free(s.machine.counts), n) && PayloadKept(m, m', s.heap.used)
    requires BuiltFrom(s.machine.counts, s'.machine.counts, s.machine.words, s'.machine.words, n, kern)
    requires s' == CreatedSys(s, id, r, n, s'.heap, s'.machine.counts, s'.machine.words)
    ensures CreateStep(s, s', id, n, kern) && Lifecycle.Inv(s', start.heap, start.machine.counts, kern)
    ensures AllHeld(m', structs[id := r], s') && s'.tab == s.tab
    ensures kern < |s'.machine.counts| && s'.machine.counts[kern] != 0
  {
    hide Held, Lifecycle.Inv, PayloadKept, BuiltFrom, CreatedFrom, RecordOf, CreateStep, Free;
    CreateIsStep(m', s, s', id, r, n, kern);
    CreateInv(s, s', id, n, start.heap, start.machine.counts, kern);
    Counted(s', start.heap, start.machine.counts, kern);
    StaysHeld(m, m', structs, s, start.heap, start.machine.counts, kern);
  }

  /** After a refusal: the arrays of the others stand. */
  lemma RefuseKeeps(m: seq<nat>, m': seq<nat>, structs: map<nat, Record>, s: Sys, s': Sys, kern: nat, start: Sys)
    requires AllHeld(m, structs, s) && Lifecycle.Inv(s, start.heap, start.machine.counts, kern)
    requires PayloadKept(m, m', s.heap.used) && H.Inv(s'.heap) && HeapKept(s.heap, s'.heap) && s' == s.(heap := s'.heap)
    requires Free(s.machine.counts) == []
    ensures RefuseStep(s, s') && Lifecycle.Inv(s', start.heap, start.machine.counts, kern) && AllHeld(m', structs, s')
  {
    hide Held, Lifecycle.Inv, PayloadKept, Free;
    RefuseInv(s, s', start.heap, start.machine.counts, kern);
    StaysHeld(m, m', structs, s, start.heap, start.machine.counts, kern);
  }

  /** That, with the slot emptied, is a step. */
  lemma KillIsStep(s: Sys, s': Sys, pid: nat, r: Record)
    requires pid < |s.tab| && s.tab[pid].Some? && Killed(s, r, s.tab[pid].value, s'.heap, s'.machine.counts)
    requires var id := s.tab[pid].value;
      && s'.machine.words == s.machine.words && s'.machine.live == s.machine.live - {id}
      && s'.procs == s.procs - {id} && s'.tab == s.tab[pid := None]
    ensures KillStep(s, s', pid)
  {
    hide DropAll, FreeAll, DropOrder;
    var a := s.machine.live[s.tab[pid].value].a;
    assert a[..Need(r.blocks.n)] == a;
  }

  lemma HeldRecord(m: seq<nat>, r: Record, p: Proc, s: R.Space)
    requires Held(m, r, p, s)
    ensures r.blocks == p && s.n == p.n && 0 < p.n <= ENTRIES
    ensures |s.a| == Need(p.n) && Increasing(s.a) && RecordOf(m, r, s.a, p.n)
  {
  }

  /** The record names only frames that were taken. */
  lemma RecordPrefix(frames: seq<nat>, pts: seq<nat>, l: seq<nat>, n: nat)
    requires n <= ENTRIES && Need(n) <= |l| && Recorded(frames, l, n) && RecordedTables(pts, l, NumTables(n))
    ensures Recorded(frames, l[..Need(n)], n) && RecordedTables(pts, l[..Need(n)], NumTables(n))
  {
    var a := l[..Need(n)];
    forall j | 0 <= j < n && j < ENTRIES
      ensures PageAt(Last(n, j)) < |a| && frames[j] == a[PageAt(Last(n, j))] * FRAME_LEN + 1
    {
      PlacesInRange(n, Last(n, j));
    }
    forall t | 0 <= t < NumTables(n) ensures TableAt(t) < |a| && pts[t] == a[TableAt(t)] * FRAME_LEN {
      PlacesInRange(n, t);
    }
  }

  /** A process in the table can be killed: its blocks are in use, each once, and its frames exist. */
  lemma MayKill(s: Sys, pid: nat, h0: H.State, base: seq<nat>, kern: nat)
    requires Lifecycle.Inv(s, h0, base, kern) && pid < |s.tab| && s.tab[pid].Some?
    ensures var id := s.tab[pid].value;
      && id in s.procs && id in s.machine.live
      && NoDup(Blocks(s.procs[id])) && (forall b :: b in Blocks(s.procs[id]) ==> b in s.heap.used)
      && InCounts(s.machine.live[id].a, s.machine.counts)
  {
    hide H.Inv, R.Inv, Blocks, InCounts, NoDup;
    var id := s.tab[pid].value;
    BlocksInUse(s, id, Elems(s.heap.used), h0);
    FramesExist(s.machine, id, base, kern);
  }

  ghost predicate InCounts(a: seq<nat>, counts: seq<nat>) { forall i :: 0 <= i < |a| ==> a[i] < |counts| }

  lemma CountsBound(a: seq<nat>, counts: seq<nat>)
    requires InCounts(a, counts)
    ensures forall i :: 0 <= i < |a| ==> a[i] < |counts|
  {
  }

  lemma SameLength(st: seq<S.Status>, tab: seq<Option<nat>>)
    requires SameSlots(st, tab)
    ensures |st| == |tab|
  {
  }

  lemma NoneWasFree(c: CreateResult, h: H.State, free: seq<nat>, n: nat)
    requires Foretold(c, h, free, n) && c.NoFrames?
    ensures free == []
  {
  }

  lemma RunsProcess(st: seq<S.Status>, tab: seq<Option<nat>>, i: nat)
    requires SameSlots(st, tab) && i < |st| && st[i] == S.Run
    ensures i < |tab| && tab[i].Some?
  {
  }

  lemma KillSlot(st: seq<S.Status>, tab: seq<Option<nat>>, pid: nat)
    requires SameSlots(st, tab) && pid < |tab|
    ensures pid < |st| && SameSlots(st[pid := S.Null], tab[pid := None])
  {
  }

  lemma BlocksInUse(s: Sys, id: nat, used: set<H.Slot>, h0: H.State)
    requires BlocksSound(used, s.procs, Elems(h0.used)) && used == Elems(s.heap.used) && id in s.procs
    ensures NoDup(Blocks(s.procs[id])) && forall b :: b in Blocks(s.procs[id]) ==> b in s.heap.used
  {
    hide Blocks, NoDup;
    forall b | b in Blocks(s.procs[id]) ensures b in s.heap.used {
      assert InBlocks(s.procs, b);
      assert b in used;
    }
  }

  lemma FramesExist(m: R.Machine, id: nat, base: seq<nat>, kern: nat)
    requires R.Inv(m, base, kern) && id in m.live
    ensures InCounts(m.live[id].a, m.counts)
  {
    hide Mapped, KernelHalf;
    var a := m.live[id].a;
    assert R.Sound(m, m.live[id], base, kern);
    forall i | 0 <= i < |a| ensures a[i] < |m.counts| { assert a[i] in a; }
  }

  /** The frame of the kernel's directory is never given up. */
  lemma KernelCounted(m: R.Machine, base: seq<nat>, kern: nat)
    requires R.Inv(m, base, kern)
    ensures kern < |m.counts| && m.counts[kern] != 0
  {
    hide Mapped, KernelHalf;
  }

  lemma Counted(s: Sys, h0: H.State, base: seq<nat>, kern: nat)
    requires Lifecycle.Inv(s, h0, base, kern)
    ensures kern < |s.machine.counts| && s.machine.counts[kern] != 0
  {
    hide H.Inv, R.Inv, BlocksSound;
    KernelCounted(s.machine, base, kern);
  }

  lemma BuiltNeeds(c0: seq<nat>, c: seq<nat>, w0: seq<nat>, w: seq<nat>, n: nat, kern: nat)
    requires BuiltFrom(c0, c, w0, w, n, kern)
    ensures Need(n) <= |Free(c0)|
  {
    hide Mapped, KernelHalf, SameOutside;
  }
}
