/** The round robin scheduler of kernel/sched.c, for a process table of any size. */
module Sched {
  import opened Wrappers

  datatype Status = Null | Run | Wait | Zombie

  /** What a call of schedule comes to: a context switch, a return to the same process, a halt until
      an interrupt, or the end of the kernel. */
  datatype Outcome = Switch(to: nat, from: nat) | Same | Idle | End

  /** The slot `d` places after `last` in a circle of `n`. */
  function Around(last: nat, d: nat, n: nat): (i: nat)
    requires last < n && d <= n
    ensures i < n
  {
    if last + d < n then last + d else last + d - n
  }

  /** How far the circular search has to go from `last` to `p`. */
  function Dist(last: nat, p: nat, n: nat): (d: nat)
    requires last < n && p < n
    ensures 1 <= d <= n && Around(last, d, n) == p
  {
    if p > last then p - last else p + n - last
  }

  predicate Runnable(tab: seq<Status>, i: nat) { 0 < i < |tab| && tab[i] == Run }

  /** The distance at which the search that starts after `last` stops, from distance `d` on. */
  function Scan(tab: seq<Status>, last: nat, d: nat): (r: nat)
    requires last < |tab| && 1 <= d <= |tab|
    ensures d <= r <= |tab|
    ensures forall e :: d <= e < r ==> !Runnable(tab, Around(last, e, |tab|))
    ensures r == |tab| || Runnable(tab, Around(last, r, |tab|))
    decreases |tab| - d
  {
    if d == |tab| || Runnable(tab, Around(last, d, |tab|)) then d else Scan(tab, last, d + 1)
  }

  /** The process a call of schedule settles on. */
  function Next(tab: seq<Status>, last: nat): (cur: nat)
    requires last < |tab|
    ensures cur < |tab|
  {
    Around(last, Scan(tab, last, 1), |tab|)
  }

  function OutcomeOf(tab: seq<Status>, last: nat): Outcome
    requires last < |tab|
  {
    var cur := Next(tab, last);
    if tab[cur] != Run then if Wait in tab then Idle else End
    else if cur == last then Same
    else Switch(cur, last)
  }

  // ---------------------------------------------------------------- what the search finds

  /** Every slot of the table lies on the way around. */
  lemma Reached(tab: seq<Status>, last: nat, i: nat)
    requires last < |tab| && Runnable(tab, i)
    ensures Scan(tab, last, 1) <= Dist(last, i, |tab|)
    ensures Runnable(tab, Next(tab, last))
  {
    assert Around(last, Dist(last, i, |tab|), |tab|) == i;
    if Scan(tab, last, 1) == |tab| {
      assert Dist(last, i, |tab|) == |tab| && i == last;
    }
  }

  /** The kernel ends exactly when nothing runs or waits; it idles exactly when something waits and
      nothing runs; it goes on with the same process exactly when that is the only runnable one; otherwise it
      switches from the previous slot to the nearest runnable one after it. */
  lemma OutcomeExact(tab: seq<Status>, last: nat)
    requires last < |tab| && tab[0] == Null
    ensures OutcomeOf(tab, last).End? <==> Run !in tab && Wait !in tab
    ensures OutcomeOf(tab, last).Idle? <==> Run !in tab && Wait in tab
    ensures OutcomeOf(tab, last).Same? <==> Runnable(tab, last) && forall i :: Runnable(tab, i) ==> i == last
    ensures OutcomeOf(tab, last).Switch? <==> exists i :: Runnable(tab, i) && i != last
    ensures Run in tab ==> Runnable(tab, Next(tab, last))
    ensures forall i :: Runnable(tab, i) ==> Dist(last, Next(tab, last), |tab|) <= Dist(last, i, |tab|)
    ensures var o := OutcomeOf(tab, last);
      o.Switch? ==> o.from == last && o.to != last && Runnable(tab, o.to) && NearestAfter(tab, last, o.to)
  {
    if Run in tab {
      var i :| 0 <= i < |tab| && tab[i] == Run;
      Reached(tab, last, i);
    } else {
      assert tab[Next(tab, last)] in tab;
    }
    forall i | Runnable(tab, i)
      ensures Dist(last, Next(tab, last), |tab|) <= Dist(last, i, |tab|)
      ensures i != last ==> Next(tab, last) != last
    {
      Reached(tab, last, i);
    }
  }

  /** Every other runnable slot comes later on the way up from `last` to the end of the table and on from its
      beginning. */
  ghost predicate NearestAfter(tab: seq<Status>, last: nat, to: nat)
  {
    forall i: nat :: Runnable(tab, i) && i != to ==>
      if to > last then i > to || i <= last else to < i <= last
  }

  // ---------------------------------------------------------------- fairness

  /** The current process after the first `k` calls, the table being `tabs[j]` at the j-th call. */
  function CurAfter(tabs: seq<seq<Status>>, cur: nat, n: nat, k: nat): (r: nat)
    requires cur < n && k <= |tabs| && forall j :: 0 <= j < |tabs| ==> |tabs[j]| == n
    ensures r < n
  {
    if k == 0 then cur else Next(tabs[k - 1], CurAfter(tabs, cur, n, k - 1))
  }

  /** A call brings the search strictly nearer to a process that stays runnable, or to it. */
  lemma Nearer(tab: seq<Status>, last: nat, p: nat)
    requires last < |tab| && Runnable(tab, p) && last != p
    ensures Next(tab, last) == p || Dist(Next(tab, last), p, |tab|) < Dist(last, p, |tab|)
  {
    Reached(tab, last, p);
  }

  /** However the table changes between calls, a process that is runnable at each of them is chosen
      again within as many calls as it is places away, which is at most N - 1. */
  lemma {:induction false} Fairness(tabs: seq<seq<Status>>, cur: nat, n: nat, p: nat, k: nat)
    requires cur < n && 0 < p < n && k <= |tabs|
    requires forall j :: 0 <= j < |tabs| ==> |tabs[j]| == n && Runnable(tabs[j], p)
    requires CurAfter(tabs, cur, n, k) != p
    requires k + Dist(CurAfter(tabs, cur, n, k), p, n) <= |tabs|
    ensures Dist(CurAfter(tabs, cur, n, k), p, n) <= n - 1
    ensures exists m :: k < m <= k + Dist(CurAfter(tabs, cur, n, k), p, n) && CurAfter(tabs, cur, n, m) == p
    decreases |tabs| - k
  {
    var last := CurAfter(tabs, cur, n, k);
    Nearer(tabs[k], last, p);
    assert CurAfter(tabs, cur, n, k + 1) == Next(tabs[k], last);
    if CurAfter(tabs, cur, n, k + 1) != p {
      Fairness(tabs, cur, n, p, k + 1);
      var m :| k + 1 < m <= k + 1 + Dist(CurAfter(tabs, cur, n, k + 1), p, n) && CurAfter(tabs, cur, n, m) == p;
      assert k < m <= k + Dist(last, p, n);
    }
  }

  /** A process that stays runnable becomes the current one within N - 1 calls. */
  lemma FairWithinTable(tabs: seq<seq<Status>>, cur: nat, n: nat, p: nat)
    requires cur < n && 0 < p < n && cur != p && |tabs| >= n - 1
    requires forall j :: 0 <= j < |tabs| ==> |tabs[j]| == n && Runnable(tabs[j], p)
    ensures exists m :: 1 <= m <= n - 1 && CurAfter(tabs, cur, n, m) == p
  {
    Fairness(tabs, cur, n, p, 0);
    var m :| 0 < m <= 0 + Dist(cur, p, n) && CurAfter(tabs, cur, n, m) == p;
  }

  // ---------------------------------------------------------------- the table in place

  lemma OneOn(last: nat, d: nat, n: nat)
    requires last < n && d < n
    ensures (Around(last, d, n) + 1) % n == Around(last, d + 1, n)
  {
    var c := Around(last, d, n);
    if c + 1 < n {
      assert (c + 1) % n == c + 1;
    } else {
      assert c + 1 == n && n % n == 0;
    }
  }

  /** Some slot within the first `d` places after `last` waits. */
  ghost predicate SawWait(tab: seq<Status>, last: nat, d: nat)
    requires last < |tab| && d <= |tab|
  {
    exists e :: 1 <= e <= d && tab[Around(last, e, |tab|)] == Wait
  }

  class Scheduler {
    const proctab: array<Status>
    var curproc: nat

    predicate Valid()
      reads this, proctab
    {
      proctab.Length >= 2 && curproc < proctab.Length && proctab[0] == Null
    }

    /** kernel/sched.c, init_sched, on a table that starts as zeros. */
    constructor (n: nat)
      requires n >= 2
      ensures Valid() && fresh(proctab) && proctab.Length == n && curproc == 0
      ensures forall i :: 0 <= i < n ==> proctab[i] == Null
    {
      proctab := new Status[n](i => Null);
      curproc := 0;
    }

    /** sched_add: the process goes to the lowest free slot above 0; None when there is none. */
    method Add() returns (slot: Option<nat>)
      requires Valid()
      modifies proctab
      ensures Valid()
      ensures slot.None? <==> forall i :: 0 < i < proctab.Length ==> old(proctab[i]) != Null
      ensures slot.None? ==> proctab[..] == old(proctab[..])
      ensures slot.Some? ==>
        && 0 < slot.value < proctab.Length && old(proctab[slot.value]) == Null
        && (forall i :: 0 < i < slot.value ==> old(proctab[i]) != Null)
        && proctab[..] == old(proctab[..])[slot.value := Run]
    {
      for i := 1 to proctab.Length
        invariant proctab[..] == old(proctab[..])
        invariant forall k :: 0 < k < i ==> proctab[k] != Null
      {
        if proctab[i] == Null {
          proctab[i] := Run;
          return Some(i);
        }
      }
      return None;
    }

    /** schedule.  The first pass of the do-while loop is made before the loop. */
    method Schedule() returns (o: Outcome)
      requires Valid()
      modifies this`curproc
      ensures Valid()
      ensures curproc == Next(proctab[..], old(curproc)) && o == OutcomeOf(proctab[..], old(curproc))
      ensures o.Switch? ==> o.to == curproc && o.from == old(curproc) != curproc && proctab[curproc] == Run
      ensures o.Same? ==> curproc == old(curproc) && proctab[curproc] == Run
    {
      var lastproc, waiting := curproc, false;
      ghost var d, n, tab := 1, proctab.Length, proctab[..];
      OneOn(lastproc, 0, n);
      curproc := (curproc + 1) % proctab.Length;
      if proctab[curproc] == Wait { waiting := true; }
      while (proctab[curproc] != Run || curproc == 0) && lastproc != curproc
        invariant 1 <= d <= n && curproc == Around(lastproc, d, n)
        invariant tab == proctab[..] && Scan(tab, lastproc, 1) == Scan(tab, lastproc, d)
        invariant waiting <==> SawWait(tab, lastproc, d)
        decreases n - d
      {
        OneOn(lastproc, d, n);
        curproc := (curproc + 1) % proctab.Length;
        d := d + 1;
        if proctab[curproc] == Wait { waiting := true; }
      }
      if proctab[curproc] != Run {
        WaitSeen(tab, lastproc);
        if waiting { return Idle; }
        return End;
      }
      if lastproc == curproc { return Same; }
      return Switch(curproc, lastproc);
    }

    /** The part of process_kill that the scheduler sees: the slot is emptied, then another is chosen. */
    method Kill(pid: nat) returns (o: Outcome)
      requires Valid() && pid < proctab.Length
      modifies this`curproc, proctab
      ensures Valid() && proctab[..] == old(proctab[..])[pid := Null]
      ensures curproc == Next(proctab[..], old(curproc)) && o == OutcomeOf(proctab[..], old(curproc))
      ensures o.Switch? ==> o.to == curproc && o.from == old(curproc) != curproc && proctab[curproc] == Run
      ensures o.Same? ==> curproc == old(curproc) && proctab[curproc] == Run
      ensures o.Switch? ==> curproc != pid
    {
      proctab[pid] := Null;
      o := Schedule();
    }
  }

  /** A full turn sees every slot. */
  lemma WaitSeen(tab: seq<Status>, last: nat)
    requires last < |tab|
    ensures Wait in tab <==> SawWait(tab, last, |tab|)
  {
    if Wait in tab {
      var i :| 0 <= i < |tab| && tab[i] == Wait;
      assert tab[Around(last, Dist(last, i, |tab|), |tab|)] == Wait;
    }
  }
}
