/** The mutex of src/ipc.c with priority inheritance, for the threads 0 .. n - 1 and one
    mutex.  A smaller number is a more urgent priority. */
module Mutex {
  import opened WaitList
  import opened Lists

  const HOLD_MAX: nat := 255
  const VALUE_MAX: nat := 65535
  const NOBODY: int := -1

  type Waiters = Numbered

  /** `arrivals` counts the threads that ever waited. */
  datatype Mutex = Mutex(
    flag: Flag, value: nat, owner: int, hold: nat, original: nat,
    waiters: Waiters, priority: seq<nat>, arrivals: nat)

  datatype Outcome = Ok | Full | TimedOut | NotOwner | Blocked

  // ----- Operations

  function Boosted(m: Mutex, t: nat): seq<nat>
    requires t < |m.priority| && 0 <= m.owner < |m.priority|
  {
    if m.priority[t] < m.priority[m.owner] then m.priority[m.owner := m.priority[t]] else m.priority
  }

  function Newcomer(m: Mutex, t: nat): Waiter<nat>
    requires t < |m.priority|
  {
    Waiter(t, m.priority[t], m.arrivals)
  }

  /** rt_mutex_take by a running thread t, up to where it returns or blocks. */
  function Take(m: Mutex, t: nat, mayWait: bool): (Mutex, Outcome)
    requires t < |m.priority| && (m.value == 0 ==> 0 <= m.owner < |m.priority|)
  {
    if m.owner == t then
      if m.hold < HOLD_MAX then (m.(hold := m.hold + 1), Ok) else (m, Full)
    else if m.value > 0 then
      var taken := m.(value := m.value - 1, owner := t, original := m.priority[t]);
      if m.hold < HOLD_MAX then (taken.(hold := m.hold + 1), Ok) else (taken, Full)
    else if !mayWait then (m, TimedOut)
    else
      (m.(priority := Boosted(m, t), waiters := Joined(m.waiters, Newcomer(m, t), m.flag), arrivals := m.arrivals + 1), Blocked)
  }

  /** rt_mutex_release by a running thread t. */
  function Release(m: Mutex, t: nat): (Mutex, Outcome)
    requires t < |m.priority| && (m.owner == t ==> m.hold > 0)
    requires m.waiters != [] ==> m.waiters[0].thread < |m.priority|
  {
    if m.owner != t then (m, NotOwner)
    else if m.hold > 1 then (m.(hold := m.hold - 1), Ok)
    else
      var restored := m.priority[t := m.original];
      if m.waiters != [] then
        var next := m.waiters[0].thread;
        (m.(hold := 1, owner := next, original := restored[next], priority := restored, waiters := m.waiters[1..]), Ok)
      else if m.value < VALUE_MAX then
        (m.(hold := 0, value := m.value + 1, owner := NOBODY, original := 0xFF, priority := restored), Ok)
      else
        (m.(hold := 0, priority := restored), Full)
  }

  /** rt_thread_timeout of the i-th waiter. */
  function Timeout(m: Mutex, i: nat): Mutex
    requires i < |m.waiters|
  {
    m.(waiters := Without(m.waiters, i))
  }

  // ----- The invariant

  /** A waiter is a thread, not the owner, and waits at its own priority. */
  ghost predicate Waits(w: Waiter<nat>, owner: int, base: seq<nat>) {
    w.thread < |base| && w.thread != owner && w.priority == base[w.thread]
  }

  ghost predicate AllWait(ws: Waiters, owner: int, base: seq<nat>) {
    forall i | 0 <= i < |ws| :: Waits(ws[i], owner, base)
  }

  ghost predicate Apart(ws: Waiters) {
    forall i, j | 0 <= i < j < |ws| :: ws[i].thread != ws[j].thread
  }

  /** Everyone but the owner runs at its own priority; the owner at its own or a more
      urgent one. */
  ghost predicate Inherits(priority: seq<nat>, owner: int, base: seq<nat>) {
    |priority| == |base| &&
    forall t | 0 <= t < |base| :: if t == owner then priority[t] <= base[t] else priority[t] == base[t]
  }

  /** The mutex is free: value 1, no owner, no hold, nobody waiting; or it is held. */
  ghost predicate FreeOrHeld(m: Mutex, base: seq<nat>) {
    if m.owner == NOBODY then m.value == 1 && m.hold == 0 && m.waiters == []
    else m.value == 0 && 1 <= m.hold <= HOLD_MAX && 0 <= m.owner < |base| && m.original == base[m.owner]
  }

  ghost predicate MostUrgent(priority: nat, ws: Waiters) {
    forall i | 0 <= i < |ws| :: priority <= ws[i].priority
  }

  /** The owner is at least as urgent as everyone who waits for it. */
  ghost predicate OwnerUrgent(m: Mutex)
    requires m.owner < |m.priority|
  {
    m.owner >= 0 ==> MostUrgent(m.priority[m.owner], m.waiters)
  }

  /** `base` are the threads' own priorities. */
  ghost predicate Inv(m: Mutex, base: seq<nat>) {
    && FreeOrHeld(m, base)
    && Inherits(m.priority, m.owner, base)
    && AllWait(m.waiters, m.owner, base) && Apart(m.waiters) && Aged(m.waiters, m.flag, m.arrivals)
    && (m.flag == Prio ==> Sorted(m.waiters) && OwnerUrgent(m))
  }

  /** t is not suspended on the mutex, so it can make a call. */
  ghost predicate Running(m: Mutex, t: nat) {
    t < |m.priority| && forall i | 0 <= i < |m.waiters| :: m.waiters[i].thread != t
  }

  // ----- Every operation keeps it

  lemma JoinedWaits(ws: Waiters, w: Waiter<nat>, flag: Flag, owner: int, base: seq<nat>)
    requires AllWait(ws, owner, base) && Waits(w, owner, base)
    ensures AllWait(Joined(ws, w, flag), owner, base)
  {
  }

  lemma JoinedApart(ws: Waiters, w: Waiter<nat>, flag: Flag)
    requires Apart(ws) && forall i | 0 <= i < |ws| :: ws[i].thread != w.thread
    ensures Apart(Joined(ws, w, flag))
  {
  }

  lemma JoinedUrgent(ws: Waiters, w: Waiter<nat>, flag: Flag, p: nat)
    requires MostUrgent(p, ws) && p <= w.priority
    ensures MostUrgent(p, Joined(ws, w, flag))
  {
  }

  lemma BoostedUrgent(m: Mutex, t: nat, base: seq<nat>)
    requires Inv(m, base) && m.value == 0 && t < |m.priority| && m.owner != t
    ensures Inherits(Boosted(m, t), m.owner, base)
    ensures Boosted(m, t)[m.owner] <= m.priority[m.owner] && Boosted(m, t)[m.owner] <= m.priority[t]
  {
  }

  lemma TakeKeeps(m: Mutex, t: nat, mayWait: bool, base: seq<nat>)
    requires Inv(m, base) && Running(m, t)
    ensures Inv(Take(m, t, mayWait).0, base)
    ensures Take(m, t, mayWait).1 == Full <==> m.owner == t && m.hold == HOLD_MAX
  {
    if m.owner != t && m.value == 0 && mayWait {
      var w := Newcomer(m, t);
      JoinedAged(m.waiters, w, m.flag);
      BoostedUrgent(m, t, base);
      JoinedWaits(m.waiters, w, m.flag, m.owner, base);
      JoinedApart(m.waiters, w, m.flag);
      if m.flag == Prio {
        JoinedIsFair(m.waiters, w);
        JoinedUrgent(m.waiters, w, m.flag, Boosted(m, t)[m.owner]);
      }
    }
  }

  lemma ReleaseKeeps(m: Mutex, t: nat, base: seq<nat>)
    requires Inv(m, base) && Running(m, t)
    ensures Inv(Release(m, t).0, base)
    ensures Release(m, t).1 != Full
  {
  }

  lemma TimeoutKeeps(m: Mutex, i: nat, base: seq<nat>)
    requires Inv(m, base) && i < |m.waiters|
    ensures Inv(Timeout(m, i), base)
  {
  }

  // ----- Whole runs

  datatype Event = Takes(t: nat, mayWait: bool) | Releases(t: nat) | TimesOut(i: nat)

  ghost predicate Enabled(m: Mutex, e: Event) {
    match e
    case Takes(t, _) => Running(m, t)
    case Releases(t) => Running(m, t)
    case TimesOut(i) => i < |m.waiters|
  }

  /** The step follows no bad owner or waiter and does not count a hold below zero. */
  ghost predicate Defined(m: Mutex, e: Event) {
    match e
    case Takes(t, _) => m.value == 0 ==> 0 <= m.owner < |m.priority|
    case Releases(t) =>
      (m.owner == t ==> m.hold > 0) && (m.waiters != [] ==> m.waiters[0].thread < |m.priority|)
    case TimesOut(i) => true
  }

  ghost function Next(m: Mutex, e: Event): Mutex
    requires Enabled(m, e) && Defined(m, e)
  {
    match e
    case Takes(t, mayWait) => Take(m, t, mayWait).0
    case Releases(t) => Release(m, t).0
    case TimesOut(i) => Timeout(m, i)
  }

  /** After a step that is not defined anything could happen. */
  ghost predicate Step(m: Mutex, e: Event, m': Mutex) {
    Enabled(m, e) && (Defined(m, e) ==> m' == Next(m, e))
  }

  /** rt_mutex_init, with every thread at its own priority. */
  function Fresh(flag: Flag, base: seq<nat>): Mutex {
    Mutex(flag, 1, NOBODY, 0, 0xFF, [], base, 0)
  }

  ghost predicate Run(flag: Flag, base: seq<nat>, states: seq<Mutex>, events: seq<Event>) {
    && |states| == |events| + 1
    && states[0] == Fresh(flag, base)
    && forall k | 0 <= k < |events| :: Step(states[k], events[k], states[k + 1])
  }

  lemma NextKeeps(m: Mutex, e: Event, base: seq<nat>)
    requires Inv(m, base) && Enabled(m, e)
    ensures Defined(m, e) && Inv(Next(m, e), base) && Next(m, e).flag == m.flag
  {
    match e
    case Takes(t, mayWait) => TakeKeeps(m, t, mayWait, base);
    case Releases(t) => ReleaseKeeps(m, t, base);
    case TimesOut(i) => TimeoutKeeps(m, i, base);
  }

  lemma {:induction false} RunsKeep(flag: Flag, base: seq<nat>, states: seq<Mutex>, events: seq<Event>, k: nat)
    requires Run(flag, base, states, events) && k <= |events|
    ensures Inv(states[k], base) && states[k].flag == flag
    ensures k < |events| ==> Defined(states[k], events[k])
  {
    if k > 0 {
      RunsKeep(flag, base, states, events, k - 1);
      assert Step(states[k - 1], events[k - 1], states[k]);
      NextKeeps(states[k - 1], events[k - 1], base);
    }
    if k < |events| {
      assert Step(states[k], events[k], states[k + 1]);
      NextKeeps(states[k], events[k], base);
    }
  }

  /** In every state of every run: value is 1 exactly when there is no owner and exactly
      when hold is 0, and then nobody waits; and with the PRIO flag the wait list is
      sorted and the owner is at least as urgent as everyone in it. */
  lemma RunsAreSafe(flag: Flag, base: seq<nat>, states: seq<Mutex>, events: seq<Event>, k: nat)
    requires Run(flag, base, states, events) && k <= |events|
    ensures var m := states[k];
      (m.value == 1 <==> m.owner == NOBODY) && (m.value == 1 <==> m.hold == 0) && m.value <= 1 &&
      (m.value == 1 ==> m.waiters == []) && |m.priority| == |base| && m.owner < |base| &&
      (flag == Prio ==> Sorted(m.waiters) && OwnerUrgent(m))
  {
    RunsKeep(flag, base, states, events, k);
  }

  /** In every state of every run a thread that does not own the mutex is back at its
      own priority, and the owner is nowhere less urgent than its own. */
  lemma RunsRestorePriority(flag: Flag, base: seq<nat>, states: seq<Mutex>, events: seq<Event>, k: nat, t: nat)
    requires Run(flag, base, states, events) && k <= |events| && t < |base|
    ensures |states[k].priority| == |base| && states[k].priority[t] <= base[t]
    ensures states[k].owner != t ==> states[k].priority[t] == base[t]
  {
    RunsKeep(flag, base, states, events, k);
  }

  /** In every run the only overflow return ever taken is that of the owner taking the
      mutex again while it holds it 255 times. */
  lemma OnlyRecursionOverflows(flag: Flag, base: seq<nat>, states: seq<Mutex>, events: seq<Event>, k: nat)
    requires Run(flag, base, states, events) && k < |events|
    ensures Defined(states[k], events[k])
    ensures var m := states[k];
      match events[k]
      case Takes(t, mayWait) => t < |m.priority| && (Take(m, t, mayWait).1 == Full <==> m.owner == t && m.hold == HOLD_MAX)
      case Releases(t) => t < |m.priority| && Release(m, t).1 != Full
      case TimesOut(i) => true
  {
    RunsKeep(flag, base, states, events, k);
    assert Step(states[k], events[k], states[k + 1]);
    match events[k]
    case Takes(t, mayWait) => TakeKeeps(states[k], t, mayWait, base);
    case Releases(t) => ReleaseKeeps(states[k], t, base);
    case TimesOut(i) =>
  }

  // ----- One thread's time as the owner

  /** Thread o owns the mutex from state j to state k, and did not before. */
  ghost predicate Owns(states: seq<Mutex>, o: nat, j: nat, k: nat) {
    0 < j <= k < |states| && states[j - 1].owner != o && forall i | j <= i <= k :: states[i].owner == o
  }

  /** The takes of o that succeeded less its releases, from state j to state k, counting as
      one the take or hand-over that made it the owner. */
  ghost function Net(states: seq<Mutex>, events: seq<Event>, o: nat, j: nat, k: nat): int
    requires j <= k <= |events| < |states|
    decreases k
  {
    if k == j then 1
    else
      var e := events[k - 1];
      Net(states, events, o, j, k - 1) +
      (if e.Takes? && e.t == o && states[k - 1].hold < 255 then 1 else if e.Releases? && e.t == o then -1 else 0)
  }

  /** The most urgent of o's own priority and those of the threads that came to wait for it
      from state j to state k, whether or not they gave up since. */
  ghost function Inherited(events: seq<Event>, base: seq<nat>, o: nat, j: nat, k: nat): nat
    requires j <= k <= |events| && o < |base|
    decreases k
  {
    if k == j then base[o]
    else
      var e, u := events[k - 1], Inherited(events, base, o, j, k - 1);
      if e.Takes? && e.mayWait && e.t != o && e.t < |base| && base[e.t] < u then base[e.t] else u
  }

  lemma BecomesOwner(m: Mutex, e: Event, base: seq<nat>)
    requires Inv(m, base) && Enabled(m, e) && Defined(m, e) && Next(m, e).owner != m.owner && Next(m, e).owner >= 0
    ensures Next(m, e).hold == 1 && Next(m, e).owner < |base| == |Next(m, e).priority|
    ensures Next(m, e).priority[Next(m, e).owner] == base[Next(m, e).owner]
  {
    if e.Releases? {
      assert Waits(m.waiters[0], m.owner, base);
    }
  }

  lemma StaysOwner(m: Mutex, e: Event, base: seq<nat>)
    requires Inv(m, base) && Enabled(m, e) && Defined(m, e) && m.owner >= 0
    ensures var m', o := Next(m, e), m.owner;
      && o < |base| == |m'.priority| == |m.priority|
      && (m'.owner != o <==> e.Releases? && e.t == o && m.hold == 1)
      && (m'.owner == o ==>
            && m'.hold == m.hold + (if e.Takes? && e.t == o && m.hold < 255 then 1 else if e.Releases? && e.t == o then -1 else 0)
            && m'.priority[o] == (if e.Takes? && e.mayWait && e.t != o && base[e.t] < m.priority[o] then base[e.t] else m.priority[o]))
  {
    if e.Releases? && m.waiters != [] {
      assert Waits(m.waiters[0], m.owner, base);
    }
  }

  /** In every run, while a thread owns the mutex, `hold` is its successful takes less its
      releases, and its priority is the most urgent of its own and those of all who came to
      wait for it; and it ceases to be the owner exactly at the release that brings the
      difference to 0. */
  lemma {:induction false} RunsCountHolds(flag: Flag, base: seq<nat>, states: seq<Mutex>, events: seq<Event>, o: nat, j: nat, k: nat)
    requires Run(flag, base, states, events) && Owns(states, o, j, k)
    ensures o < |base| == |states[k].priority|
    ensures states[k].hold == Net(states, events, o, j, k) > 0
    ensures states[k].priority[o] == Inherited(events, base, o, j, k)
    ensures k < |events| ==>
      (states[k + 1].owner != o <==> events[k] == Releases(o) && Net(states, events, o, j, k) == 1)
    decreases k
  {
    hide Inv, Next;
    RunsKeep(flag, base, states, events, k);
    assert Step(states[k - 1], events[k - 1], states[k]);
    RunsKeep(flag, base, states, events, k - 1);
    if k == j {
      BecomesOwner(states[k - 1], events[k - 1], base);
    } else {
      RunsCountHolds(flag, base, states, events, o, j, k - 1);
      StaysOwner(states[k - 1], events[k - 1], base);
    }
    if k < |events| {
      assert Step(states[k], events[k], states[k + 1]);
      StaysOwner(states[k], events[k], base);
    }
  }

  // ----- Hand-over

  /** In every run: a take of a free mutex makes the taker its owner; one of a mutex that
      another thread owns joins the waiters if it may, and else changes nothing. */
  lemma TakesProceedOrWait(flag: Flag, base: seq<nat>, states: seq<Mutex>, events: seq<Event>, k: nat)
    requires Run(flag, base, states, events) && k < |events| && events[k].Takes?
    ensures var m, m', t, mayWait := states[k], states[k + 1], events[k].t, events[k].mayWait;
      && t < |base|
      && (m'.owner == t <==> m.owner == t || m.owner == NOBODY)
      && m'.waiters == (if m.owner != NOBODY && m.owner != t && mayWait then Joined(m.waiters, Waiter(t, base[t], m.arrivals), flag)
                        else m.waiters)
      && (m' == m <==> (m.owner == t && m.hold == 255) || (m.owner != NOBODY && m.owner != t && !mayWait))
  {
    RunsKeep(flag, base, states, events, k);
    hide Aged, Apart, AllWait;
    assert Step(states[k], events[k], states[k + 1]);
  }

  /** In every run a mutex goes from one thread to the next by hand-over, to the waiter that
      is ahead of all the others, and these go on waiting. */
  lemma HandsToTheFirst(flag: Flag, base: seq<nat>, states: seq<Mutex>, events: seq<Event>, k: nat, w: Waiter<nat>)
    requires Run(flag, base, states, events) && k < |events| && w in states[k].waiters
    requires states[k].owner >= 0 && states[k + 1].owner != states[k].owner
    ensures var m, m' := states[k], states[k + 1];
      && m'.owner == m.waiters[0].thread && (w == m.waiters[0] || Ahead(m.waiters[0], w, flag))
      && m'.waiters == m.waiters[1..] && (w == m.waiters[0] || w in m'.waiters)
  {
    RunsKeep(flag, base, states, events, k);
    var m := states[k];
    assert Step(m, events[k], states[k + 1]);
    StaysOwner(m, events[k], base);
    FirstIsAhead(m.waiters, flag, m.arrivals, w);
    if w != m.waiters[0] {
      WithoutHasRest(m.waiters, 0, w);
    }
  }

  /** In every run a thread that waits goes on waiting until the mutex is handed to it or
      its own time is up. */
  lemma NobodyIsDropped(flag: Flag, base: seq<nat>, states: seq<Mutex>, events: seq<Event>, k: nat, w: Waiter<nat>)
    requires Run(flag, base, states, events) && k < |events| && w in states[k].waiters
    ensures var m, m', e := states[k], states[k + 1], events[k];
      w in m'.waiters || m'.owner == w.thread || (e.TimesOut? && e.i < |m.waiters| && m.waiters[e.i] == w)
  {
    RunsKeep(flag, base, states, events, k);
    hide Aged, Apart, AllWait, Sorted;
    var m := states[k];
    assert Step(m, events[k], states[k + 1]);
    match events[k]
    case Takes(t, mayWait) => JoinedKeepsMember(m.waiters, Newcomer(m, t), m.flag, w);
    case Releases(t) =>
      if w != m.waiters[0] {
        WithoutHasRest(m.waiters, 0, w);
      }
    case TimesOut(i) =>
      if w != m.waiters[i] {
        WithoutHasRest(m.waiters, i, w);
      }
  }

  /** A final release by the owner while others wait. */
  ghost predicate HandsOver(m: Mutex, e: Event) {
    e.Releases? && m.owner == e.t && m.hold == 1 && m.waiters != []
  }

  /** A hand-over with the PRIO flag goes to a waiter nobody waiting is more urgent than,
      and among those as urgent to the one that has waited longest. */
  lemma HandsToMostUrgent(m: Mutex, base: seq<nat>, i: nat)
    requires Inv(m, base) && m.flag == Prio && m.owner >= 0 && m.hold == 1 && i < |m.waiters|
    ensures var r, w := Release(m, m.owner).0, m.waiters[i];
      w.thread == r.owner || base[r.owner] < w.priority ||
      (base[r.owner] == w.priority && m.waiters[0].thread == r.owner && m.waiters[0].call < w.call)
  {
    assert Waits(m.waiters[0], m.owner, base);
  }

  /** With the FIFO flag the new owner is as urgent as those still waiting exactly when
      nobody behind it in the list was more urgent: a hand-over does not boost it. */
  lemma FifoHandOver(m: Mutex, base: seq<nat>)
    requires Inv(m, base) && m.flag == Fifo && m.owner >= 0 && m.hold == 1 && m.waiters != []
    ensures var r := Release(m, m.owner).0;
      r.owner < |r.priority| && (OwnerUrgent(r) <==> MostUrgent(m.waiters[0].priority, m.waiters))
  {
    assert Waits(m.waiters[0], m.owner, base);
    var r := Release(m, m.owner).0;
    ReleaseKeeps(m, m.owner, base);
    if OwnerUrgent(r) {
      forall i | 0 <= i < |m.waiters|
        ensures m.waiters[0].priority <= m.waiters[i].priority
      {
        if i > 0 {
          assert r.waiters[i - 1] == m.waiters[i];
        }
      }
    }
  }

  /** Every other step leaves a FIFO owner as urgent as everyone waiting. */
  lemma OtherStepsKeepUrgent(m: Mutex, e: Event, base: seq<nat>)
    requires Inv(m, base) && m.flag == Fifo && Enabled(m, e) && !HandsOver(m, e) && OwnerUrgent(m)
    ensures Defined(m, e) && Next(m, e).owner < |Next(m, e).priority| && OwnerUrgent(Next(m, e))
  {
    NextKeeps(m, e, base);
    if e.Takes? && m.owner != e.t && m.value == 0 && e.mayWait {
      BoostedUrgent(m, e.t, base);
      JoinedUrgent(m.waiters, Newcomer(m, e.t), m.flag, Boosted(m, e.t)[m.owner]);
    }
  }

  /** The owner of a FIFO mutex is as urgent as everyone waiting in every state of a run
      if and only if at every hand-over nobody waiting is more urgent than the first. */
  lemma {:induction false} FifoRunsAreUrgent(base: seq<nat>, states: seq<Mutex>, events: seq<Event>, k: nat)
    requires Run(Fifo, base, states, events) && k <= |events|
    ensures forall j | 0 <= j <= k :: states[j].owner < |states[j].priority|
    ensures (forall j | 0 <= j <= k :: OwnerUrgent(states[j])) <==>
      (forall j | 0 <= j < k && HandsOver(states[j], events[j]) :: MostUrgent(states[j].waiters[0].priority, states[j].waiters))
  {
    RunsKeep(Fifo, base, states, events, k);
    if k > 0 {
      FifoRunsAreUrgent(base, states, events, k - 1);
      RunsKeep(Fifo, base, states, events, k - 1);
      var m, e := states[k - 1], events[k - 1];
      assert Step(m, e, states[k]);
      if HandsOver(m, e) {
        FifoHandOver(m, base);
      } else if OwnerUrgent(m) {
        OtherStepsKeepUrgent(m, e, base);
      }
    }
  }

  /** Thread 0 hands a FIFO mutex to thread 1 while the more urgent thread 2 waits. */
  lemma FifoInversion()
    ensures var base := [10, 20, 5];
      var events := [Takes(0, true), Takes(1, true), Takes(2, true), Releases(0)];
      exists states: seq<Mutex> :: Run(Fifo, base, states, events) &&
        states[4].owner == 1 && states[4].priority == base && states[4].waiters == [Waiter(2, 5, 1)]
  {
    var base := [10, 20, 5];
    var w1, w2 := Waiter(1, 20, 0), Waiter(2, 5, 1);
    var s0 := Fresh(Fifo, base);
    var s1 := Mutex(Fifo, 0, 0, 1, 10, [], base, 0);
    var s2 := s1.(waiters := [w1], arrivals := 1);
    var s3 := s2.(waiters := [w1, w2], priority := [5, 20, 5], arrivals := 2);
    var s4 := Mutex(Fifo, 0, 1, 1, 20, [w2], base, 2);
    var events := [Takes(0, true), Takes(1, true), Takes(2, true), Releases(0)];
    assert Step(s0, events[0], s1);
    assert Step(s1, events[1], s2);
    assert base[0 := 5] == [5, 20, 5];
    assert Step(s2, events[2], s3);
    assert [5, 20, 5][0 := 10] == base;
    assert Step(s3, events[3], s4);
    assert Run(Fifo, base, [s0, s1, s2, s3, s4], events);
  }

  // ----- The object

  class Lock {
    const flag: Flag
    var value: nat
    var owner: int
    var hold: nat
    var original: nat
    var waiters: seq<Waiter<()>>
    var priority: seq<nat>
    ghost var numbered: Waiters
    ghost var arrivals: nat

    ghost predicate Valid()
      reads this
    {
      waiters == Plain(numbered)
    }

    ghost function Value(): Mutex
      reads this
    {
      Mutex(flag, value, owner, hold, original, numbered, priority, arrivals)
    }

    constructor (flag: Flag, priority: seq<nat>)
      ensures Valid() && Value() == Fresh(flag, priority)
    {
      this.flag := flag;
      this.priority := priority;
      value, owner, original, hold, waiters := 1, NOBODY, 0xFF, 0, [];
      numbered, arrivals := [], 0;
    }

    method TakeLock(t: nat, mayWait: bool, ghost base: seq<nat>) returns (r: Outcome)
      requires Valid() && Inv(Value(), base) && Running(Value(), t)
      modifies this
      ensures (Value(), r) == Take(old(Value()), t, mayWait) && Valid() && Inv(Value(), base)
    {
      hide Inv, Plain, Joined;
      InRange(Value(), base);
      TakeKeeps(Value(), t, mayWait, base);
      if owner == t {
        if hold < HOLD_MAX {
          hold := hold + 1;
          return Ok;
        }
        return Full;
      }
      if value > 0 {
        value := value - 1;
        owner := t;
        original := priority[t];
        hold := hold + 1;
        return Ok;
      }
      if !mayWait {
        return TimedOut;
      }
      var w := Waiter(t, priority[t], ());
      ghost var newcomer := Newcomer(Value(), t);
      if priority[t] < priority[owner] {
        priority := priority[owner := priority[t]];
      }
      PlainJoined(numbered, newcomer, flag);
      waiters := Suspend(waiters, w, flag);
      numbered, arrivals := Joined(numbered, newcomer, flag), arrivals + 1;
      return Blocked;
    }

    method ReleaseLock(t: nat, ghost base: seq<nat>) returns (r: Outcome)
      requires Valid() && Inv(Value(), base) && Running(Value(), t)
      modifies this
      ensures (Value(), r) == Release(old(Value()), t) && Valid() && Inv(Value(), base)
    {
      hide Inv, Plain;
      InRange(Value(), base);
      ReleaseKeeps(Value(), t, base);
      if owner != t {
        return NotOwner;
      }
      hold := hold - 1;
      if hold == 0 {
        if original != priority[owner] {
          priority := priority[owner := original];
        }
        assert priority == old(priority)[t := original];
        if waiters != [] {
          PlainTail(numbered);
          owner := waiters[0].thread;
          original := priority[owner];
          hold := hold + 1;
          waiters := waiters[1..];
          numbered := numbered[1..];
        } else {
          value := value + 1;
          owner := NOBODY;
          original := 0xFF;
        }
      }
      return Ok;
    }
  }

  /** What the calls rely on when they index and count. */
  lemma InRange(m: Mutex, base: seq<nat>)
    requires Inv(m, base)
    ensures |m.priority| == |base| && m.value <= 1
    ensures if m.value == 0 then 0 <= m.owner < |base| && m.hold > 0 else m.owner == NOBODY && m.hold == 0
    ensures m.waiters != [] ==> m.waiters[0].thread < |base|
  {
    if m.waiters != [] {
      assert Waits(m.waiters[0], m.owner, base);
    }
  }
}
