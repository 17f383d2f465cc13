/** The timer list of kernel/timer.c: events count down once a tick, fire at zero, and one-shot events
    leave the list while the tick still walks it. */
module Timer {
  import opened Words
  import opened SeqLemmas

  // ---------------------------------------------------------------- one event

  /** What an event counts: the ticks that remain and the interval it is reset to, 0 for one-shot. */
  datatype Timing = Timing(remaining: nat, interval: nat)

  /** --(t_remaining) in 32 bits. */
  function Dec(n: nat): nat { if n == 0 then WORD32 - 1 else n - 1 }

  predicate Fires(t: Timing) { Dec(t.remaining) == 0 }

  predicate Dies(t: Timing) { Fires(t) && t.interval == 0 }

  function Ticked(t: Timing): Timing
  {
    t.(remaining := if Fires(t) then t.interval else Dec(t.remaining))
  }

  /** The tick at which an event first fires: a remaining count of 0 first goes all the way round. */
  function FirstFire(t: Timing): nat { if t.remaining == 0 then WORD32 else t.remaining }

  /** How often an event fires in `n` ticks. */
  function FireCount(t: Timing, n: nat): nat
  {
    if n < FirstFire(t) then 0
    else if t.interval == 0 then 1
    else 1 + Rounds(n - FirstFire(t), t.interval)
  }

  /** How many intervals end within `n` ticks. */
  function Rounds(n: nat, interval: nat): nat
    requires interval > 0
  {
    n / interval
  }

  // ---------------------------------------------------------------- the list

  datatype Entry<+T> = Entry(who: T, t: Timing)

  /** The entries on the list after a tick, in order. */
  function Survivors<T>(es: seq<Entry<T>>): seq<Entry<T>>
  {
    if es == [] then []
    else (if Dies(es[0].t) then [] else [Entry(es[0].who, Ticked(es[0].t))]) + Survivors(es[1..])
  }

  /** The events that fire at a tick, in order. */
  function Firing<T>(es: seq<Entry<T>>): seq<T>
  {
    if es == [] then [] else (if Fires(es[0].t) then [es[0].who] else []) + Firing(es[1..])
  }

  datatype Timers<T> = Timers(es: seq<Entry<T>>, log: seq<T>)

  function Tick<T>(l: Timers<T>): Timers<T> { Timers(Survivors(l.es), l.log + Firing(l.es)) }

  function Ticks<T>(l: Timers<T>, n: nat): Timers<T>
    decreases n
  {
    if n == 0 then l else Ticks(Tick(l), n - 1)
  }

  predicate Listed<T(==)>(es: seq<Entry<T>>, x: T) { exists i :: 0 <= i < |es| && es[i].who == x }

  /** No event is on the list twice. */
  ghost predicate Proper<T>(es: seq<Entry<T>>)
  {
    forall i, j :: 0 <= i < j < |es| ==> es[i].who != es[j].who
  }

  // ---------------------------------------------------------------- one tick

  lemma {:induction false} NotListed<T>(es: seq<Entry<T>>, x: T)
    requires !Listed(es, x)
    ensures !Listed(Survivors(es), x) && multiset(Firing(es))[x] == 0
  {
    hide Survivors, Firing, Listed, Fires, Dies;
    if es == [] {
      NoneListed(es, x);
    } else {
      assert es == [es[0]] + es[1..];
      ListedRest(es, x);
      NotListed(es[1..], x);
      FiringCons(es[0], es[1..], x);
    }
  }

  lemma NoneListed<T>(es: seq<Entry<T>>, x: T)
    requires es == []
    ensures !Listed(Survivors(es), x) && Firing(es) == []
  {
  }

  lemma ListedRest<T>(es: seq<Entry<T>>, x: T)
    requires es != []
    ensures Listed(es, x) <==> es[0].who == x || Listed(es[1..], x)
  {
    assert forall i :: 0 <= i < |es[1..]| ==> es[1..][i] == es[i + 1];
    if Listed(es, x) && es[0].who != x {
      var i :| 0 <= i < |es| && es[i].who == x;
      assert es[1..][i - 1].who == x;
    }
  }

  /** A tick counts the i-th event once, whatever happens to the events before and after it. */
  lemma {:induction false} OneTick<T>(es: seq<Entry<T>>, i: nat)
    requires Proper(es) && i < |es|
    ensures multiset(Firing(es))[es[i].who] == if Fires(es[i].t) then 1 else 0
    ensures Dies(es[i].t) ==> !Listed(Survivors(es), es[i].who)
    ensures !Dies(es[i].t) ==> Entry(es[i].who, Ticked(es[i].t)) in Survivors(es)
  {
    hide Survivors, Firing, Fires, Dies, Listed;
    var rest := es[1..];
    assert es == [es[0]] + rest;
    FiringCons(es[0], rest, es[i].who);
    if i == 0 {
      RestUnlisted(es);
      NotListed(rest, es[0].who);
    } else {
      assert rest[i - 1] == es[i] && es[0].who != es[i].who;
      assert Proper(rest);
      OneTick(rest, i - 1);
    }
  }

  lemma RestUnlisted<T>(es: seq<Entry<T>>)
    requires Proper(es) && es != []
    ensures !Listed(es[1..], es[0].who)
  {
    forall k | 0 <= k < |es[1..]| ensures es[1..][k].who != es[0].who { assert es[1..][k] == es[k + 1]; }
  }

  /** What the first event adds to the tick of the rest, as far as `x` is concerned. */
  lemma FiringCons<T>(e: Entry<T>, rest: seq<Entry<T>>, x: T)
    ensures multiset(Firing([e] + rest))[x] == multiset(Firing(rest))[x] + if Fires(e.t) && e.who == x then 1 else 0
    ensures Listed(Survivors([e] + rest), x) <==> Listed(Survivors(rest), x) || (!Dies(e.t) && e.who == x)
    ensures !Dies(e.t) ==> Entry(e.who, Ticked(e.t)) in Survivors([e] + rest)
    ensures forall y :: y in Survivors(rest) ==> y in Survivors([e] + rest)
  {
    assert ([e] + rest)[1..] == rest;
    var head := if Dies(e.t) then [] else [Entry(e.who, Ticked(e.t))];
    var s := Survivors([e] + rest);
    assert s == head + Survivors(rest);
    if Listed(Survivors(rest), x) {
      var k :| 0 <= k < |Survivors(rest)| && Survivors(rest)[k].who == x;
      assert s[k + |head|].who == x;
    }
    if !Dies(e.t) && e.who == x { assert s[0].who == x; }
    if Listed(s, x) && !(!Dies(e.t) && e.who == x) {
      var k :| 0 <= k < |s| && s[k].who == x;
      assert Survivors(rest)[k - |head|].who == x;
    }
  }

  lemma {:induction false} TickProper<T>(es: seq<Entry<T>>)
    requires Proper(es)
    ensures Proper(Survivors(es))
    ensures forall e :: e in Survivors(es) ==> Listed(es, e.who)
  {
    if es != [] {
      var rest, s := es[1..], Survivors(es[1..]);
      assert Proper(rest) by { assert forall i :: 0 <= i < |rest| ==> rest[i] == es[i + 1]; }
      TickProper(rest);
      forall e | e in s ensures Listed(es, e.who) && e.who != es[0].who {
        var k :| 0 <= k < |rest| && rest[k].who == e.who;
        assert es[k + 1].who == e.who;
      }
      if !Dies(es[0].t) {
        assert Survivors(es) == [Entry(es[0].who, Ticked(es[0].t))] + s;
        assert forall i :: 0 <= i < |s| ==> s[i] in s;
        assert Listed(es, es[0].who);
      }
    }
  }

  // ---------------------------------------------------------------- many ticks

  lemma {:induction false} NeverListed<T>(l: Timers<T>, x: T, n: nat)
    requires !Listed(l.es, x)
    ensures multiset(Ticks(l, n).log)[x] == multiset(l.log)[x] && !Listed(Ticks(l, n).es, x)
    decreases n
  {
    if n > 0 {
      NotListed(l.es, x);
      NeverListed(Tick(l), x, n - 1);
    }
  }

  lemma CountStep(t: Timing, n: nat)
    requires n > 0
    ensures FireCount(t, n) == (if Fires(t) then 1 else 0) + (if Dies(t) then 0 else FireCount(Ticked(t), n - 1))
  {
    hide Rounds;
    if Fires(t) && !Dies(t) {
      RoundsStep(n - 1, t.interval);
    }
  }

  lemma NoFireYet(t: Timing)
    ensures FireCount(t, 0) == 0
  {
  }

  lemma RoundsStep(x: nat, d: nat)
    requires d > 0
    ensures Rounds(x, d) == if x < d then 0 else 1 + Rounds(x - d, d)
  {
    if x >= d { DivStep(x, d); }
  }

  lemma DivStep(x: nat, d: nat)
    requires 0 < d <= x
    ensures x / d == 1 + (x - d) / d
  {
    var q, r := (x - d) / d, (x - d) % d;
    assert x - d == q * d + r;
    DivUnique(x, d, q + 1, r);
  }

  lemma DivUnique(x: nat, d: nat, q: nat, r: nat)
    requires d > 0 && x == q * d + r && r < d
    ensures x / d == q
  {
    var p := x / d;
    assert x == p * d + x % d;
    if p < q { Product(p + 1, q, d); }
    if q < p { Product(q + 1, p, d); }
  }

  lemma Product(a: nat, b: nat, d: nat)
    requires a <= b
    ensures a * d <= b * d && (a > 0 ==> a * d == (a - 1) * d + d)
  {
    assert b * d == a * d + (b - a) * d;
  }

  /** Timer exactness: in n ticks every event of every list fires as often as its count and interval
      say, independently of the other events; a one-shot event is off the list once it has fired and
      every other event is still on it. */
  lemma {:induction false} TickExact<T>(l: Timers<T>, i: nat, n: nat)
    requires Proper(l.es) && i < |l.es|
    ensures multiset(Ticks(l, n).log)[l.es[i].who] == multiset(l.log)[l.es[i].who] + FireCount(l.es[i].t, n)
    ensures Listed(Ticks(l, n).es, l.es[i].who) <==> !(l.es[i].t.interval == 0 && n >= FirstFire(l.es[i].t))
    decreases n
  {
    hide Survivors, Firing, FireCount, Proper;
    if n == 0 {
      assert FireCount(l.es[i].t, 0) == 0 && FirstFire(l.es[i].t) > 0 by { NoFireYet(l.es[i].t); }
    } else {
      var e := l.es[i];
      OneTick(l.es, i);
      TickProper(l.es);
      CountStep(e.t, n);
      if Dies(e.t) {
        NeverListed(Tick(l), e.who, n - 1);
      } else {
        var k :| 0 <= k < |Tick(l).es| && Tick(l).es[k] == Entry(e.who, Ticked(e.t));
        TickExact(Tick(l), k, n - 1);
      }
    }
  }

  // ---------------------------------------------------------------- the linked list

  class Event {
    var remaining: nat
    var interval: nat
    var next: Event?

    constructor ()
      ensures remaining == 0 && interval == 0 && next == null
    {
      remaining, interval, next := 0, 0, null;
    }
  }

  function NodeAt(es: seq<Event>, i: nat): Event? { if i < |es| then es[i] else null }

  ghost predicate Link(es: seq<Event>, i: nat)
    requires i < |es|
    reads es
  {
    es[i].next == NodeAt(es, i + 1)
  }

  class TimerList {
    var head: Event?
    ghost var events: seq<Event>
    ghost var log: seq<Event>  // the callbacks made so far

    ghost predicate Valid()
      reads this, events
    {
      && NoDup(events)
      && head == NodeAt(events, 0)
      && (forall i :: 0 <= i < |events| ==> Link(events, i))
      && (forall i :: 0 <= i < |events| ==> events[i].remaining < WORD32 && events[i].interval < WORD32)
    }

    /** The abstract list. */
    ghost function Entries(): (r: seq<Entry<Event>>)
      reads this, events
      ensures |r| == |events|
    {
      EntriesOf(events)
    }

    constructor ()
      ensures Valid() && events == [] && log == []
    {
      head, events, log := null, [], [];
    }

    /** time_event_del: `e` leaves the list if it is on it; its own `next` stays as it is. */
    method Delete(e: Event) returns (ghost i: nat)
      requires Valid()
      modifies this`head, this`events, events`next
      ensures Valid() && log == old(log) && e.next == old(e.next)
      ensures e !in old(events) ==> events == old(events)
      ensures e in old(events) ==> i < |old(events)| && old(events)[i] == e && events == RemoveAt(old(events), i)
    {
      var j: Event?, p := null, head;
      i := 0;
      while p != null && p != e
        invariant i <= |events| && p == NodeAt(events, i)
        invariant j == if i == 0 then null else events[i - 1]
        invariant forall k :: 0 <= k < i ==> events[k] != e
        decreases |events| - i
      {
        assert Link(events, i);
        j, p, i := p, p.next, i + 1;
      }
      if p != e { return; }
      assert Link(events, i);
      if j == null {
        head := head.next;
      } else {
        j.next := p.next;
      }
      events := RemoveAt(events, i);
      StillNoDup(old(events), i, events);
      forall k | 0 <= k < |events| ensures Link(events, k) {
        assert old(Link(events, if k < i then k else k + 1));
        assert i > 0 ==> old(Link(events, i));
      }
    }

    /** Whether `e` is on the list. */
    method Active(e: Event) returns (b: bool)
      requires Valid()
      ensures b <==> e in events
    {
      var p := head;
      ghost var i := 0;
      while p != null && p != e
        invariant i <= |events| && p == NodeAt(events, i)
        invariant forall k :: 0 <= k < i ==> events[k] != e
        decreases |events| - i
      {
        assert Link(events, i);
        p, i := p.next, i + 1;
      }
      return p == e;
    }

    /** time_event_add: `e` goes to the front unless it is on the list already. */
    method Add(e: Event)
      requires Valid() && e.remaining < WORD32 && e.interval < WORD32
      modifies this`head, this`events, e`next
      ensures Valid() && log == old(log)
      ensures events == if e in old(events) then old(events) else [e] + old(events)
    {
      var active := Active(e);
      if active { return; }
      e.next := head;
      head := e;
      events := [e] + events;
      forall k | 0 <= k < |events| ensures Link(events, k) {
        assert k > 0 ==> old(Link(events, k - 1));
      }
    }

    /** The body of timer_interrupt's loop for the event `p`: whatever happens to it, the walk goes on
        with the event that followed it. */
    method Visit(p: Event, ghost kept: seq<Event>, ghost rest: seq<Event>, ghost own: set<Event>) returns (next: Event?)
      requires Valid() && events == kept + [p] + rest && forall e :: e in events ==> e in own
      modifies this, own
      ensures Valid() && next == NodeAt(rest, 0)
      ensures var t := Timing(old(p.remaining), p.interval);
              && events == kept + (if Dies(t) then [] else [p]) + rest
              && p.remaining == Ticked(t).remaining
              && log == old(log) + if Fires(t) then [p] else []
      ensures forall e :: e in own ==> e.interval == old(e.interval) && (e != p ==> e.remaining == old(e.remaining))
    {
      hide NoDup;
      assert events[|kept|] == p && NodeAt(events, |kept| + 1) == NodeAt(rest, 0) && Link(events, |kept|);
      p.remaining := if p.remaining == 0 then WORD32 - 1 else p.remaining - 1;
      StillLinked(events);
      if p.remaining == 0 {
        if p.interval == 0 {
          ghost var d := Delete(p);
          RemoveMiddle(kept, p, rest, d);
        } else {
          p.remaining := p.interval;
          StillLinked(events);
        }
        log := log + [p];
      }
      next := p.next;
    }

    /** The walk of a tick has come to the i-th of `all`, the events there were at first: of those before
        it `kept` are left on the list, and those that fired have been called. */
    ghost predicate Walked(all: seq<Event>, before: seq<Entry<Event>>, log0: seq<Event>, kept: seq<Event>, i: nat)
      reads this, events, all, kept
    {
      && Valid() && |before| == |all| && i <= |all| && events == kept + all[i..]
      && EntriesOf(kept) == Survivors(before[..i]) && EntriesOf(all[i..]) == before[i..]
      && log == log0 + Firing(before[..i])
    }

    /** One pass of the loop, in terms of the whole walk. */
    method Pass(p: Event, ghost all: seq<Event>, ghost before: seq<Entry<Event>>, ghost log0: seq<Event>,
                ghost kept: seq<Event>, ghost i: nat, ghost own: set<Event>)
      returns (next: Event?, ghost kept': seq<Event>)
      requires Walked(all, before, log0, kept, i) && i < |all| && p == all[i] && forall e :: e in events ==> e in own
      modifies this, own
      ensures Walked(all, before, log0, kept', i + 1) && next == NodeAt(all, i + 1)
        && forall e :: e in events ==> e in own
    {
      hide NoDup, Survivors, Firing, EntriesOf;
      var t := before[i].t;
      TickUpTo(before, i);
      Around(kept, all, i);
      EntriesFrom(all, i);
      next := Visit(p, kept, all[i + 1..], own);
      EntriesKept(kept);
      EntriesKept(all[i + 1..]);
      EntriesSnoc(kept, p);
      kept' := kept + if Dies(t) then [] else [p];
    }

    lemma WalkBegins()
      requires Valid()
      ensures Walked(events, Entries(), log, [], 0)
    {
      hide NoDup, EntriesOf;
      assert events[0..] == events && Entries()[..0] == [] && Entries()[0..] == Entries();
      EntriesNone();
      TickNone<Event>();
    }

    lemma WalkEnds(all: seq<Event>, before: seq<Entry<Event>>, log0: seq<Event>, kept: seq<Event>)
      requires Walked(all, before, log0, kept, |all|)
      ensures Valid() && Entries() == Survivors(before) && log == log0 + Firing(before)
    {
      hide NoDup, Survivors, Firing, EntriesOf;
      assert before[..|all|] == before && all[|all|..] == [] && kept + [] == kept;
    }

    /** timer_interrupt: `p` walks the list while one-shot events that fire are deleted under it. */
    method Interrupt()
      requires Valid()
      modifies this, events
      ensures Valid()
      ensures Entries() == Survivors(old(Entries()))
      ensures log == old(log) + Firing(old(Entries()))
    {
      hide Walked, Survivors, Firing, EntriesOf;
      ghost var all, before, kept: seq<Event>, i := events, Entries(), [], 0;
      ghost var own := set e | e in all;
      WalkBegins();
      var p := head;
      while p != null
        invariant i <= |all| && p == NodeAt(all, i)
        invariant Walked(all, before, old(log), kept, i)
        invariant forall e :: e in events ==> e in own
        decreases |all| - i
      {
        p, kept := Pass(p, all, before, old(log), kept, i, own);
        i := i + 1;
      }
      WalkEnds(all, before, old(log), kept);
    }

    /** time_event_set: an event that is on the list is left alone. */
    method Set(e: Event, interval: nat, repeat: nat)
      requires Valid() && interval < WORD32
      modifies e
      ensures Valid()
      ensures e in events ==> e.remaining == old(e.remaining) && e.interval == old(e.interval) && e.next == old(e.next)
      ensures e !in events ==> e.remaining == interval && e.interval == (if repeat == 1 then interval else 0)
    {
      var active := Active(e);
      if active { return; }
      e.remaining := interval;
      e.interval := if repeat == 1 then interval else 0;
      e.next := null;
    }
  }

  /** A tick of a list is a tick of all but the last, then of the last. */
  lemma {:induction false} TickSnoc<T>(es: seq<Entry<T>>, e: Entry<T>)
    ensures Survivors(es + [e]) == Survivors(es) + if Dies(e.t) then [] else [Entry(e.who, Ticked(e.t))]
    ensures Firing(es + [e]) == Firing(es) + if Fires(e.t) then [e.who] else []
  {
    if es != [] {
      TickSnoc(es[1..], e);
      assert (es + [e])[1..] == es[1..] + [e];
    } else {
      assert es + [e] == [e] && [e][1..] == [];
    }
  }

  lemma TickNone<T>()
    ensures Survivors<T>([]) == [] && Firing<T>([]) == []
  {
  }

  /** The list around the event that the walk has reached. */
  lemma Around(kept: seq<Event>, all: seq<Event>, i: nat)
    requires i < |all| && NoDup(kept + all[i..])
    ensures kept + all[i..] == kept + [all[i]] + all[i + 1..]
    ensures all[i] !in kept && all[i] !in all[i + 1..]
  {
    var s := kept + all[i..];
    assert s[|kept|] == all[i];
    assert forall k :: 0 <= k < |kept| ==> s[k] == kept[k];
    assert forall k :: i < k < |all| ==> s[k - i + |kept|] == all[k];
  }

  lemma RemoveMiddle(kept: seq<Event>, p: Event, rest: seq<Event>, d: nat)
    requires NoDup(kept + [p] + rest) && d < |kept + [p] + rest| && (kept + [p] + rest)[d] == p
    ensures RemoveAt(kept + [p] + rest, d) == kept + rest
  {
    assert (kept + [p] + rest)[|kept|] == p;
    assert d == |kept|;
  }

  twostate lemma StillLinked(es: seq<Event>)
    requires forall e :: e in es ==> e.next == old(e.next)
    requires forall i :: 0 <= i < |es| ==> old(Link(es, i))
    ensures forall i :: 0 <= i < |es| ==> Link(es, i)
  {
    forall i | 0 <= i < |es| ensures Link(es, i) { assert old(Link(es, i)); }
  }

  twostate lemma EntriesKept(es: seq<Event>)
    requires forall e :: e in es ==> e.remaining == old(e.remaining) && e.interval == old(e.interval)
    ensures EntriesOf(es) == old(EntriesOf(es))
  {
  }

  lemma EntriesSnoc(es: seq<Event>, e: Event)
    ensures EntriesOf(es + [e]) == EntriesOf(es) + [Entry(e, Timing(e.remaining, e.interval))]
    ensures es + [] == es
  {
  }

  lemma EntriesNone()
    ensures EntriesOf([]) == []
  {
  }

  lemma EntriesFrom(es: seq<Event>, i: nat)
    requires i < |es|
    ensures EntriesOf(es[i..]) == [Entry(es[i], Timing(es[i].remaining, es[i].interval))] + EntriesOf(es[i + 1..])
  {
  }

  lemma TickUpTo<T>(es: seq<Entry<T>>, i: nat)
    requires i < |es|
    ensures Survivors(es[..i + 1]) ==
      Survivors(es[..i]) + if Dies(es[i].t) then [] else [Entry(es[i].who, Ticked(es[i].t))]
    ensures Firing(es[..i + 1]) == Firing(es[..i]) + if Fires(es[i].t) then [es[i].who] else []
    ensures es[i..] == [es[i]] + es[i + 1..]
  {
    assert es[..i + 1] == es[..i] + [es[i]];
    TickSnoc(es[..i], es[i]);
  }

  lemma StillNoDup(before: seq<Event>, i: nat, after: seq<Event>)
    requires i < |before| && NoDup(before) && after == RemoveAt(before, i)
    ensures NoDup(after)
  {
  }

  ghost function EntriesOf(es: seq<Event>): (r: seq<Entry<Event>>)
    reads es
    ensures |r| == |es|
    ensures forall i :: 0 <= i < |es| ==> r[i] == Entry(es[i], Timing(es[i].remaining, es[i].interval))
  {
    if es == [] then [] else [Entry(es[0], Timing(es[0].remaining, es[0].interval))] + EntriesOf(es[1..])
  }
}
