/** The single-processor scheduler of src/scheduler.c and the thread operations of
    src/thread.c that move threads in and out of it.  Threads are numbered; a smaller
    number is a more urgent priority.  The ready group is the set of its one bits. */
module Scheduler {
  import opened Lists
  import F = Ffs

  const LEVELS: nat := 32
  const NONE: int := -1

  datatype Stat = Init | Ready | Suspended | Running | Closed

  datatype Sched = Sched(
    stat: seq<Stat>, priority: seq<nat>, yielding: seq<bool>,
    table: seq<seq<nat>>, group: set<nat>, current: int, locks: nat)

  /** The lowest priority in the group that is at least p, or 32. */
  function First(group: set<nat>, p: nat): (r: nat)
    requires p <= LEVELS
    ensures p <= r <= LEVELS && (r < LEVELS ==> r in group)
    ensures forall q | p <= q < r :: q !in group
    decreases LEVELS - p
  {
    if p == LEVELS || p in group then p else First(group, p + 1)
  }

  // ----- The ready queue

  ghost predicate Shape(s: Sched) {
    && |s.table| == LEVELS
    && |s.priority| == |s.stat| == |s.yielding|
    && (forall t | 0 <= t < |s.stat| :: s.priority[t] < LEVELS)
    && NONE <= s.current < |s.stat|
  }

  /** rt_schedule_insert_thread */
  function Insert(s: Sched, t: nat): Sched
    requires t < |s.stat| && |s.priority| == |s.stat| && s.priority[t] < |s.table|
  {
    if t == s.current then s.(stat := s.stat[t := Running])
    else
      var p := s.priority[t];
      s.(stat := s.stat[t := Ready], table := s.table[p := s.table[p] + [t]], group := s.group + {p})
  }

  /** rt_schedule_remove_thread, as to the ready queue. */
  function Remove(s: Sched, t: nat): Sched
    requires t < |s.priority| && s.priority[t] < |s.table|
  {
    var p := s.priority[t];
    var left := Removed(s.table[p], t);
    s.(table := s.table[p := left], group := if left == [] then s.group - {p} else s.group)
  }

  function Switch(s: Sched, to: nat, insert: bool): Sched
    requires to < |s.stat| && |s.priority| == |s.stat| && s.priority[to] < |s.table|
    requires insert ==> 0 <= s.current < |s.stat| && s.priority[s.current] < |s.table|
  {
    var switched := s.(current := to);
    var queued := if insert then Insert(switched, s.current) else switched;
    var chosen := Remove(queued, to);
    chosen.(stat := chosen.stat[to := Running])
  }

  /** rt_schedule needs a current thread, and a thread in every list the group names. */
  ghost predicate CanSchedule(s: Sched) {
    s.locks == 0 && s.group != {} ==>
      Shape(s) && 0 <= s.current && First(s.group, 0) < LEVELS &&
      s.table[First(s.group, 0)] != [] && s.table[First(s.group, 0)][0] < |s.stat|
  }

  /** rt_schedule */
  function Schedule(s: Sched): Sched
    requires CanSchedule(s)
  {
    if s.locks > 0 || s.group == {} then s
    else
      var highest := First(s.group, 0);
      var to := s.table[highest][0];
      var c := s.current;
      if s.stat[c] == Running then
        var calm := s.(yielding := s.yielding[c := false]);
        if s.priority[c] < highest || (s.priority[c] == highest && !s.yielding[c]) then
          var kept := Remove(calm, c);
          kept.(stat := kept.stat[c := Running])
        else Switch(calm, to, true)
      else Switch(s, to, false)
  }

  // ----- The invariant

  /** Whoever is in list p is ready, at that priority, and not running. */
  ghost predicate Placed(s: Sched, p: nat, t: nat)
    requires Shape(s)
  {
    t < |s.stat| && s.stat[t] == Ready && s.priority[t] == p
  }

  ghost predicate ListRight(s: Sched, p: nat)
    requires Shape(s) && p < LEVELS
  {
    && Distinct(s.table[p])
    && (p in s.group <==> s.table[p] != [])
    && forall t :: t in s.table[p] <==> Placed(s, p, t)
  }

  /** Bit p of the group is set exactly when list p is not empty, and every ready thread
      stands exactly once, in the list of its priority. */
  ghost predicate Queued(s: Sched) {
    && Shape(s)
    && (forall p | p in s.group :: p < LEVELS)
    && (forall p | 0 <= p < LEVELS :: ListRight(s, p))
  }

  /** Only the current thread runs, and it is in no list. */
  ghost predicate Solo(s: Sched)
    requires Shape(s)
  {
    && (forall t | 0 <= t < |s.stat| :: s.stat[t] == Running ==> t == s.current)
    && (s.current >= 0 ==> s.stat[s.current] != Ready)
  }

  ghost predicate Inv(s: Sched) {
    Queued(s) && Solo(s)
  }

  /** A change of state that makes nobody ready or not ready moves nobody. */
  lemma RestateKeeps(s: Sched, t: nat, stat: Stat)
    requires Queued(s) && t < |s.stat| && s.stat[t] != Ready && stat != Ready
    ensures Queued(s.(stat := s.stat[t := stat]))
  {
    var s' := s.(stat := s.stat[t := stat]);
    forall p | 0 <= p < LEVELS
      ensures ListRight(s', p)
    {
      assert ListRight(s, p);
      forall x
        ensures Placed(s', p, x) <==> Placed(s, p, x)
      {
      }
    }
  }

  lemma InsertQueues(s: Sched, t: nat)
    requires Queued(s) && t < |s.stat| && s.stat[t] != Ready && t != s.current
    ensures Queued(Insert(s, t))
  {
    var s' := Insert(s, t);
    forall p | 0 <= p < LEVELS
      ensures ListRight(s', p)
    {
      assert ListRight(s, p);
      assert t !in s.table[p];
      forall x
        ensures Placed(s', p, x) <==> Placed(s, p, x) || (x == t && p == s.priority[t])
      {
      }
    }
  }

  lemma InsertKeeps(s: Sched, t: nat)
    requires Inv(s) && t < |s.stat| && s.stat[t] != Ready
    ensures Inv(Insert(s, t))
  {
    if t == s.current {
      RestateKeeps(s, t, Running);
    } else {
      InsertQueues(s, t);
    }
  }

  lemma RemoveQueues(s: Sched, t: nat, stat: Stat)
    requires Queued(s) && t < |s.stat| && stat != Ready
    ensures Queued(Remove(s, t).(stat := s.stat[t := stat]))
  {
    var s', p0 := Remove(s, t).(stat := s.stat[t := stat]), s.priority[t];
    assert ListRight(s, p0);
    RemovedMembers(s.table[p0], t);
    forall p | 0 <= p < LEVELS
      ensures ListRight(s', p)
    {
      assert ListRight(s, p);
      forall x
        ensures Placed(s', p, x) <==> Placed(s, p, x) && x != t
      {
      }
    }
  }

  lemma RemoveKeeps(s: Sched, t: nat, stat: Stat)
    requires Inv(s) && t < |s.stat| && stat != Ready && (stat == Running ==> t == s.current)
    ensures Inv(Remove(s, t).(stat := s.stat[t := stat]))
  {
    RemoveQueues(s, t, stat);
  }

  lemma Highest(s: Sched)
    requires Queued(s) && s.group != {}
    ensures var h := First(s.group, 0);
      h < LEVELS && s.table[h] != [] && Placed(s, h, s.table[h][0]) &&
      forall t | 0 <= t < |s.stat| && s.stat[t] == Ready :: h <= s.priority[t]
  {
    var h := First(s.group, 0);
    var p :| p in s.group;
    assert p < LEVELS && h < LEVELS;
    assert ListRight(s, h);
    assert s.table[h][0] in s.table[h];
    forall t | 0 <= t < |s.stat| && s.stat[t] == Ready
      ensures h <= s.priority[t]
    {
      assert ListRight(s, s.priority[t]);
      assert Placed(s, s.priority[t], t);
    }
  }

  lemma SwitchKeeps(s: Sched, to: nat, insert: bool)
    requires Inv(s) && to < |s.stat| && s.stat[to] == Ready
    requires insert <==> s.current >= 0 && s.stat[s.current] == Running
    ensures Inv(Switch(s, to, insert))
    ensures Switch(s, to, insert).stat == if insert then s.stat[s.current := Ready][to := Running] else s.stat[to := Running]
  {
    var switched := s.(current := to);
    assert Queued(switched) by {
      forall p | 0 <= p < LEVELS
        ensures ListRight(switched, p)
      {
        assert ListRight(s, p);
        forall x
          ensures Placed(switched, p, x) <==> Placed(s, p, x)
        {
        }
      }
    }
    if insert {
      InsertQueues(switched, s.current);
    }
    var queued := if insert then Insert(switched, s.current) else switched;
    RemoveQueues(queued, to, Running);
  }

  // ----- Scheduling

  /** The current thread runs, and nobody ready is more urgent. */
  ghost predicate Dispatched(s: Sched) {
    Shape(s) && s.current >= 0 && s.stat[s.current] == Running &&
    forall t | 0 <= t < |s.stat| && s.stat[t] == Ready :: s.priority[s.current] <= s.priority[t]
  }

  lemma StayKeeps(s: Sched, c: nat)
    requires Inv(s) && s.current == c && s.stat[c] == Running
    ensures Remove(s, c) == s
  {
    var p := s.priority[c];
    assert ListRight(s, p);
    assert !Placed(s, p, c);
    RemovedAbsent(s.table[p], c);
    assert s.table[p := s.table[p]] == s.table;
  }

  lemma CalmKeeps(s: Sched, yielding: seq<bool>)
    requires Inv(s) && |yielding| == |s.yielding|
    ensures Inv(s.(yielding := yielding))
  {
    var s' := s.(yielding := yielding);
    forall p | 0 <= p < LEVELS
      ensures ListRight(s', p)
    {
      assert ListRight(s, p);
      forall x
        ensures Placed(s', p, x) <==> Placed(s, p, x)
      {
      }
    }
  }

  /** Scheduling keeps the queues right; unlocked, with a thread ready or running, it
      leaves the most urgent one running. */
  lemma ScheduleKeeps(s: Sched)
    requires Inv(s) && s.current >= 0
    ensures CanSchedule(s) && Inv(Schedule(s)) && Schedule(s).current >= 0
    ensures s.locks == 0 && (s.group != {} || s.stat[s.current] == Running) ==> Dispatched(Schedule(s))
  {
    var c := s.current;
    if s.group != {} {
      Highest(s);
      var highest := First(s.group, 0);
      var to := s.table[highest][0];
      var calm := s.(yielding := s.yielding[c := false]);
      CalmKeeps(s, calm.yielding);
      if s.stat[c] == Running {
        StayKeeps(calm, c);
        assert calm.stat[c := Running] == calm.stat;
        SwitchKeeps(calm, to, true);
      } else {
        SwitchKeeps(s, to, false);
      }
    } else {
      NobodyReady(s);
    }
  }

  lemma NobodyReady(s: Sched)
    requires Queued(s) && s.group == {}
    ensures forall t | 0 <= t < |s.stat| :: s.stat[t] != Ready
  {
    forall t | 0 <= t < |s.stat|
      ensures s.stat[t] != Ready
    {
      assert ListRight(s, s.priority[t]);
      assert Placed(s, s.priority[t], t) <==> s.stat[t] == Ready;
    }
  }

  lemma SwitchMoves(s: Sched, to: nat, insert: bool)
    requires Inv(s) && to < |s.stat| && s.stat[to] == Ready && s.table[s.priority[to]] != [] && s.table[s.priority[to]][0] == to
    requires insert <==> s.current >= 0 && s.stat[s.current] == Running
    ensures var s' := Switch(s, to, insert);
      && s'.current == to && s'.priority == s.priority && s'.yielding == s.yielding && s'.locks == s.locks
      && |s'.table| == LEVELS
      && (insert ==> Last(s'.table[s.priority[s.current]], s.current))
  {
    if insert {
      var c, p := s.current, s.priority[s.current];
      assert ListRight(s, p) && !Placed(s, p, c);
      RemovedLast(s.table[p], c, to);
      assert Last(s.table[p] + [c], c);
    }
  }

  ghost predicate Last(list: seq<nat>, t: int) {
    list != [] && list[|list| - 1] == t
  }

  lemma {:induction false} RemovedLast(list: seq<nat>, c: nat, t: nat)
    requires c != t
    ensures Last(Removed(list + [c], t), c)
  {
    if list != [] {
      assert (list + [c])[1..] == list[1..] + [c];
      if list[0] != t {
        RemovedLast(list[1..], c, t);
      }
    }
  }

  /** When a running thread keeps the processor: exactly while everybody ready is less
      urgent, or as urgent and it has not yielded; it then leaves every list as it was.
      Otherwise it goes to the end of the list of its priority, and the first of the most
      urgent list takes over. */
  lemma ScheduleIsFair(s: Sched)
    requires Inv(s) && s.current >= 0 && s.locks == 0 && s.stat[s.current] == Running
    ensures CanSchedule(s)
    ensures var s', c := Schedule(s), s.current;
      && s'.current >= 0 && s'.priority == s.priority && s'.locks == 0
      && s'.yielding == (if s.group == {} then s.yielding else s.yielding[c := false])
      && (s'.current == c <==>
            forall t | 0 <= t < |s.stat| && s.stat[t] == Ready ::
              s.priority[c] < s.priority[t] || (s.priority[c] == s.priority[t] && !s.yielding[c]))
      && (s'.current == c ==> s'.table == s.table && s'.stat == s.stat && s'.group == s.group)
      && (s'.current != c ==>
            && s'.stat == s.stat[c := Ready][s'.current := Running]
            && (s.priority[s'.current] < s.priority[c] || (s.priority[s'.current] == s.priority[c] && s.yielding[c]))
            && Last(s'.table[s.priority[c]], c)
            && s.table[s.priority[s'.current]] != [] && s.table[s.priority[s'.current]][0] == s'.current)
  {
    ScheduleKeeps(s);
    var c := s.current;
    if s.group == {} {
      NobodyReady(s);
    } else {
      Highest(s);
      var highest := First(s.group, 0);
      var to := s.table[highest][0];
      var calm := s.(yielding := s.yielding[c := false]);
      CalmKeeps(s, calm.yielding);
      StayKeeps(calm, c);
      assert calm.stat[c := Running] == calm.stat;
      if !(s.priority[c] < highest || (s.priority[c] == highest && !s.yielding[c])) {
        SwitchKeeps(calm, to, true);
        SwitchMoves(calm, to, true);
        assert s.stat[to] == Ready;
      }
    }
  }

  /** A thread that stopped running is not put back: the first of the most urgent list
      takes over, if there is one, and nothing else changes state. */
  lemma ScheduleReplaces(s: Sched)
    requires Inv(s) && s.current >= 0 && s.locks == 0 && s.stat[s.current] != Running
    ensures CanSchedule(s)
    ensures var s' := Schedule(s);
      && s'.current >= 0 && s'.priority == s.priority && s'.locks == 0 && s'.yielding == s.yielding
      && (s.group == {} ==> s' == s)
      && (s.group != {} ==>
            && s'.current != s.current && s'.stat == s.stat[s'.current := Running]
            && s.table[s.priority[s'.current]] != [] && s.table[s.priority[s'.current]][0] == s'.current)
  {
    ScheduleKeeps(s);
    if s.group != {} {
      Highest(s);
      var to := s.table[First(s.group, 0)][0];
      SwitchKeeps(s, to, false);
      SwitchMoves(s, to, false);
    }
  }

  // ----- Thread operations

  /** rt_thread_suspend */
  function Suspend(s: Sched, t: nat): Sched
    requires Shape(s) && t < |s.stat|
  {
    if s.stat[t] != Ready && s.stat[t] != Running then s
    else Remove(s, t).(stat := s.stat[t := Suspended])
  }

  /** rt_thread_resume */
  function Resume(s: Sched, t: nat): Sched
    requires Shape(s) && t < |s.stat|
  {
    if s.stat[t] != Suspended then s else Insert(s, t)
  }

  /** rt_thread_control with RT_THREAD_CTRL_CHANGE_PRIORITY */
  function SetPriority(s: Sched, t: nat, p: nat): Sched
    requires Shape(s) && t < |s.stat| && p < LEVELS
  {
    if s.stat[t] == Ready then Insert(Remove(s, t).(priority := s.priority[t := p]), t)
    else s.(priority := s.priority[t := p])
  }

  /** What rt_thread_startup does before it schedules. */
  function Start(s: Sched, t: nat, p: nat): Sched
    requires Shape(s) && t < |s.stat| && p < LEVELS
  {
    Resume(s.(priority := s.priority[t := p], stat := s.stat[t := Suspended], yielding := s.yielding[t := false]), t)
  }

  /** What rt_thread_exit, rt_thread_detach and rt_thread_delete do to the queues. */
  function Close(s: Sched, t: nat): Sched
    requires Shape(s) && t < |s.stat|
  {
    if s.stat[t] == Closed then s
    else
      var gone := if s.stat[t] == Init then s else Remove(s, t);
      gone.(stat := s.stat[t := Closed], yielding := s.yielding[t := false])
  }

  lemma ReprioritizeKeeps(s: Sched, t: nat, p: nat)
    requires Queued(s) && t < |s.stat| && p < LEVELS && s.stat[t] != Ready
    ensures Queued(s.(priority := s.priority[t := p]))
  {
    var s' := s.(priority := s.priority[t := p]);
    forall q | 0 <= q < LEVELS
      ensures ListRight(s', q)
    {
      assert ListRight(s, q);
      forall x
        ensures Placed(s', q, x) <==> Placed(s, q, x)
      {
      }
    }
  }

  lemma SetPriorityKeeps(s: Sched, t: nat, p: nat)
    requires Inv(s) && t < |s.stat| && p < LEVELS
    ensures Inv(SetPriority(s, t, p))
  {
    if s.stat[t] == Ready {
      RemoveQueues(s, t, Suspended);
      var out := Remove(s, t).(stat := s.stat[t := Suspended]);
      ReprioritizeKeeps(out, t, p);
      var moved := out.(priority := out.priority[t := p]);
      InsertQueues(moved, t);
      assert moved.stat[t := Ready] == s.stat == s.stat[t := Ready];
      assert Insert(moved, t) == SetPriority(s, t, p);
    } else {
      ReprioritizeKeeps(s, t, p);
    }
  }

  lemma StartKeeps(s: Sched, t: nat, p: nat)
    requires Inv(s) && t < |s.stat| && p < LEVELS && s.stat[t] == Init
    ensures Inv(Start(s, t, p))
  {
    CalmKeeps(s, s.yielding[t := false]);
    var calm := s.(yielding := s.yielding[t := false]);
    ReprioritizeKeeps(calm, t, p);
    var placed := calm.(priority := s.priority[t := p]);
    RestateKeeps(placed, t, Suspended);
    InsertKeeps(placed.(stat := s.stat[t := Suspended]), t);
  }

  lemma CloseKeeps(s: Sched, t: nat)
    requires Inv(s) && t < |s.stat|
    ensures Inv(Close(s, t))
  {
    if s.stat[t] == Init {
      RestateKeeps(s, t, Closed);
      CalmKeeps(s.(stat := s.stat[t := Closed]), s.yielding[t := false]);
    } else if s.stat[t] != Closed {
      RemoveKeeps(s, t, Closed);
      CalmKeeps(Remove(s, t).(stat := s.stat[t := Closed]), s.yielding[t := false]);
    }
  }

  // ----- Whole runs

  datatype Event =
    | Starts(t: nat, p: nat)
    | Suspends(t: nat)
    | Resumes(t: nat)
    | TimesOut(t: nat)
    | Reprioritizes(t: nat, p: nat)
    | Yields
    | Exits
    | Closes(t: nat)
    | Schedules
    | Enters
    | Leaves
    | Begins

  /** What the kernel's callers may do: a thread is started once, only a suspended
      thread times out, and there is a current thread once the scheduler has begun,
      which needs somebody to run. */
  ghost predicate Enabled(s: Sched, e: Event) {
    match e
    case Starts(t, p) => t < |s.stat| && s.stat[t] == Init && p < LEVELS
    case Suspends(t) => t < |s.stat|
    case Resumes(t) => t < |s.stat|
    case TimesOut(t) => t < |s.stat| && s.stat[t] == Suspended && s.current >= 0
    case Reprioritizes(t, p) => t < |s.stat| && p < LEVELS
    case Closes(t) => t < |s.stat|
    case Enters => true
    case Leaves => true
    case Begins => s.current == NONE && s.group != {}
    case _ => s.current >= 0
  }

  /** What the operation does to the queues before it reschedules. */
  ghost function Prepared(s: Sched, e: Event): Sched
    requires Shape(s) && Enabled(s, e)
  {
    match e
    case Starts(t, p) => Start(s, t, p)
    case Suspends(t) => Suspend(s, t)
    case Resumes(t) => Resume(s, t)
    case TimesOut(t) => Insert(s, t)
    case Reprioritizes(t, p) => SetPriority(s, t, p)
    case Yields => s.(yielding := s.yielding[s.current := true])
    case Exits => Close(s, s.current)
    case Closes(t) => Close(s, t)
    case Schedules => s
    case Enters => s.(locks := s.locks + 1)
    case Leaves => s.(locks := if s.locks > 1 then s.locks - 1 else 0)
    case Begins => s
  }

  /** The operation ends in rt_schedule. */
  ghost predicate Reschedules(s: Sched, e: Event)
    requires Shape(s) && Enabled(s, e)
  {
    match e
    case Starts(_, _) => s.current >= 0
    case TimesOut(_) => true
    case Yields => true
    case Exits => true
    case Schedules => true
    case Leaves => s.locks <= 1 && s.current >= 0
    case _ => false
  }

  ghost predicate Defined(s: Sched, e: Event) {
    Shape(s) &&
    (Enabled(s, e) ==>
      (Reschedules(s, e) ==> CanSchedule(Prepared(s, e))) &&
      (e.Begins? ==> var h := First(s.group, 0);
        h < LEVELS && s.table[h] != [] && s.table[h][0] < |s.stat|))
  }

  ghost function Next(s: Sched, e: Event): Sched
    requires Enabled(s, e) && Defined(s, e)
  {
    if e.Begins? then Switch(s, s.table[First(s.group, 0)][0], false)
    else if Reschedules(s, e) then Schedule(Prepared(s, e))
    else Prepared(s, e)
  }

  lemma RelockKeeps(s: Sched, locks: nat)
    requires Inv(s)
    ensures Inv(s.(locks := locks))
  {
    var s' := s.(locks := locks);
    forall p | 0 <= p < LEVELS
      ensures ListRight(s', p)
    {
      assert ListRight(s, p);
      forall x
        ensures Placed(s', p, x) <==> Placed(s, p, x)
      {
      }
    }
  }

  lemma PreparedKeeps(s: Sched, e: Event)
    requires Inv(s) && Enabled(s, e)
    ensures Inv(Prepared(s, e)) && Prepared(s, e).current == s.current
  {
    match e
    case Starts(t, p) => StartKeeps(s, t, p);
    case Suspends(t) => if s.stat[t] == Ready || s.stat[t] == Running { RemoveKeeps(s, t, Suspended); }
    case Resumes(t) => if s.stat[t] == Suspended { InsertKeeps(s, t); }
    case TimesOut(t) => InsertKeeps(s, t);
    case Reprioritizes(t, p) => SetPriorityKeeps(s, t, p);
    case Yields => CalmKeeps(s, s.yielding[s.current := true]);
    case Exits => CloseKeeps(s, s.current);
    case Closes(t) => CloseKeeps(s, t);
    case Enters => RelockKeeps(s, s.locks + 1);
    case Leaves => RelockKeeps(s, if s.locks > 1 then s.locks - 1 else 0);
    case _ =>
  }

  lemma NextKeeps(s: Sched, e: Event)
    requires Inv(s) && Enabled(s, e)
    ensures Defined(s, e) && Inv(Next(s, e))
  {
    PreparedKeeps(s, e);
    if e.Begins? {
      Highest(s);
      SwitchKeeps(s, s.table[First(s.group, 0)][0], false);
    } else if Reschedules(s, e) {
      ScheduleKeeps(Prepared(s, e));
    }
  }

  /** After a step that is not defined anything could happen. */
  ghost predicate Step(s: Sched, e: Event, s': Sched) {
    Enabled(s, e) && (Defined(s, e) ==> s' == Next(s, e))
  }

  /** rt_system_scheduler_init, before any of n threads is started. */
  function Booted(n: nat): Sched {
    Sched(seq(n, i => Init), seq(n, i => 0), seq(n, i => false), seq(LEVELS, i => []), {}, NONE, 0)
  }

  ghost predicate Run(n: nat, states: seq<Sched>, events: seq<Event>) {
    && |states| == |events| + 1
    && states[0] == Booted(n)
    && forall k | 0 <= k < |events| :: Step(states[k], events[k], states[k + 1])
  }

  lemma BootedInv(n: nat)
    ensures Inv(Booted(n))
  {
    var s := Booted(n);
    forall p | 0 <= p < LEVELS
      ensures ListRight(s, p)
    {
      assert forall x :: !Placed(s, p, x);
    }
  }

  /** In every state of every run: bit p of the ready group is set exactly when list p
      is not empty, every ready thread stands exactly once, in the list of its priority,
      only the current thread runs, and it is in no list.  No step is undefined. */
  lemma {:induction false} RunsAreSafe(n: nat, states: seq<Sched>, events: seq<Event>, k: nat)
    requires Run(n, states, events) && k <= |events|
    ensures Inv(states[k])
    ensures k < |events| ==> Defined(states[k], events[k])
  {
    if k == 0 {
      BootedInv(n);
    } else {
      RunsAreSafe(n, states, events, k - 1);
      assert Step(states[k - 1], events[k - 1], states[k]);
      NextKeeps(states[k - 1], events[k - 1]);
    }
    if k < |events| {
      assert Step(states[k], events[k], states[k + 1]);
      NextKeeps(states[k], events[k]);
    }
  }

  lemma PreparedFlags(s: Sched, e: Event)
    requires Inv(s) && Enabled(s, e) && s.current >= 0 && s.stat[s.current] == Running && !e.Exits? && Reschedules(s, e)
    ensures var ready := Prepared(s, e);
      ready.stat[s.current] == Running && |ready.stat| == |s.stat| && (ready.yielding[s.current] ==> s.yielding[s.current] || e.Yields?)
  {
    PreparedKeeps(s, e);
  }

  /** In every run a running thread loses the processor only by exiting, to a more urgent
      thread, or to one as urgent after it has yielded; and then it is ready, last in the
      list of its priority. */
  lemma RunsPreemptFairly(n: nat, states: seq<Sched>, events: seq<Event>, k: nat)
    requires Run(n, states, events) && k < |events|
    ensures var s, s', e := states[k], states[k + 1], events[k];
      Shape(s) && Shape(s') && |s'.stat| == |s.stat| &&
      (s.current >= 0 && s.stat[s.current] == Running && s'.current != s.current ==> s'.current >= 0) &&
      (s.current >= 0 && s.stat[s.current] == Running && s'.current != s.current && !e.Exits? ==>
        var mine, its := s'.priority[s.current], s'.priority[s'.current];
        && (its < mine || (its == mine && (s.yielding[s.current] || e.Yields?)))
        && s'.stat[s.current] == Ready && Last(s'.table[mine], s.current))
  {
    RunsAreSafe(n, states, events, k);
    RunsAreSafe(n, states, events, k + 1);
    var s, e := states[k], events[k];
    assert Step(s, e, states[k + 1]);
    PreparedKeeps(s, e);
    if s.current >= 0 && s.stat[s.current] == Running && Reschedules(s, e) && !e.Exits? {
      var ready := Prepared(s, e);
      PreparedFlags(s, e);
      hide Prepared, Inv;
      if ready.locks > 0 {
        assert states[k + 1] == ready;
      } else {
        ScheduleIsFair(ready);
      }
    }
  }

  predicate OnQueue(stat: Stat) {
    stat == Ready || stat == Running
  }

  /** At most who is ready and who is running has changed. */
  ghost predicate OnlySwaps(stat: seq<Stat>, stat': seq<Stat>) {
    |stat'| == |stat| && forall x | 0 <= x < |stat| :: stat'[x] == stat[x] || (OnQueue(stat[x]) && OnQueue(stat'[x]))
  }

  lemma HeadReady(s: Sched, t: nat)
    requires Inv(s) && t < |s.stat| && s.table[s.priority[t]] != [] && s.table[s.priority[t]][0] == t
    ensures s.stat[t] == Ready
  {
    assert ListRight(s, s.priority[t]);
    assert t in s.table[s.priority[t]];
    assert Placed(s, s.priority[t], t);
  }

  lemma ScheduleOnlySwaps(s: Sched)
    requires Inv(s) && s.current >= 0
    ensures CanSchedule(s) && OnlySwaps(s.stat, Schedule(s).stat)
    ensures Schedule(s).priority == s.priority && Schedule(s).locks == s.locks
  {
    if s.locks == 0 {
      if s.stat[s.current] == Running {
        ScheduleIsFair(s);
        if Schedule(s).current != s.current {
          HeadReady(s, Schedule(s).current);
        }
      } else {
        ScheduleReplaces(s);
        if s.group != {} {
          HeadReady(s, Schedule(s).current);
        }
      }
    }
  }

  /** What an operation makes of the states of the threads; where it may reschedule, apart
      from who of them runs. */
  ghost predicate Becomes(s: Sched, e: Event, stat: seq<Stat>)
    requires Shape(s) && Enabled(s, e)
  {
    match e
    case Starts(t, _) => OnlySwaps(s.stat[t := Ready], stat)
    case Suspends(t) => stat == if OnQueue(s.stat[t]) then s.stat[t := Suspended] else s.stat
    case Resumes(t) =>
      stat == if s.stat[t] != Suspended then s.stat else if t == s.current then s.stat[t := Running] else s.stat[t := Ready]
    case TimesOut(t) => OnlySwaps(s.stat[t := Ready], stat)
    case Reprioritizes(_, _) => stat == s.stat
    case Exits => OnlySwaps(s.stat[s.current := Closed], stat)
    case Closes(t) => stat == s.stat[t := Closed]
    case Enters => stat == s.stat
    case _ => OnlySwaps(s.stat, stat)
  }

  lemma PreparedBecomes(s: Sched, e: Event)
    requires Inv(s) && Enabled(s, e)
    ensures var r := Prepared(s, e);
      && Becomes(s, e, r.stat)
      && r.priority == (if e.Starts? || e.Reprioritizes? then s.priority[e.t := e.p] else s.priority)
      && r.locks == (if e.Enters? then s.locks + 1 else if e.Leaves? && s.locks > 0 then s.locks - 1 else s.locks)
  {
  }

  /** In every run: a thread started, resumed or timed out is ready or running, one that is
      suspended or closed is that, and beyond that nobody's state changes but between ready
      and running; priorities and the lock count change as asked and not otherwise. */
  lemma OperationsTakeEffect(n: nat, states: seq<Sched>, events: seq<Event>, k: nat)
    requires Run(n, states, events) && k < |events|
    ensures Shape(states[k]) && Enabled(states[k], events[k])
    ensures var s, s', e := states[k], states[k + 1], events[k];
      && Becomes(s, e, s'.stat)
      && s'.priority == (if e.Starts? || e.Reprioritizes? then s.priority[e.t := e.p] else s.priority)
      && s'.locks == (if e.Enters? then s.locks + 1 else if e.Leaves? && s.locks > 0 then s.locks - 1 else s.locks)
  {
    RunsAreSafe(n, states, events, k);
    var s, e := states[k], events[k];
    assert Step(s, e, states[k + 1]);
    PreparedKeeps(s, e);
    PreparedBecomes(s, e);
    if e.Begins? {
      Highest(s);
      SwitchKeeps(s, s.table[First(s.group, 0)][0], false);
      SwitchMoves(s, s.table[First(s.group, 0)][0], false);
    } else if Reschedules(s, e) {
      ScheduleOnlySwaps(Prepared(s, e));
    }
  }

  /** The operations after which the kernel promises that the most urgent thread runs. */
  predicate Settles(s: Sched, e: Event) {
    e.Begins? || (s.current >= 0 && (e.Starts? || e.TimesOut? || e.Yields? || e.Exits? || e.Schedules? || e.Leaves?))
  }

  /** In every run these operations, unless the scheduler is locked, leave the most urgent
      of the ready and running threads running, if there is any. */
  lemma RunsDispatchTheMostUrgent(n: nat, states: seq<Sched>, events: seq<Event>, k: nat, t: nat)
    requires Run(n, states, events) && k < |events| && Settles(states[k], events[k]) && states[k + 1].locks == 0
    requires t < |states[k + 1].stat| && OnQueue(states[k + 1].stat[t])
    ensures Dispatched(states[k + 1])
  {
    RunsAreSafe(n, states, events, k);
    var s, e := states[k], events[k];
    assert Step(s, e, states[k + 1]);
    PreparedKeeps(s, e);
    PreparedBecomes(s, e);
    if e.Begins? {
      Highest(s);
      SwitchKeeps(s, s.table[First(s.group, 0)][0], false);
      SwitchMoves(s, s.table[First(s.group, 0)][0], false);
      return;
    }
    var ready := Prepared(s, e);
    ScheduleOnlySwaps(ready);
    ScheduleKeeps(ready);
    if ready.group == {} {
      NobodyReady(ready);
    }
  }

  /** A thread that becomes ready, or changes its priority while it is, goes to the end of
      the list of its priority. */
  lemma ReadyIsLast(s: Sched, e: Event)
    requires Inv(s) && Enabled(s, e)
    requires e.Resumes? || e.TimesOut? || e.Starts? || e.Reprioritizes?
    ensures var r := Prepared(s, e);
      r.stat[e.t] == Ready && (e.Reprioritizes? || s.stat[e.t] != Ready) ==> Last(r.table[r.priority[e.t]], e.t)
  {
    PreparedKeeps(s, e);
  }

  // ----- Round robin

  /** The running thread and those queued behind it at its priority, in turn order. */
  ghost function Circle(s: Sched): seq<nat>
    requires Shape(s) && s.current >= 0
  {
    [s.current as nat] + s.table[s.priority[s.current]]
  }

  ghost function Rotated(list: seq<nat>, j: nat): seq<nat>
    requires j <= |list|
  {
    list[j..] + list[..j]
  }

  ghost function Yield(s: Sched): Sched
    requires Shape(s) && s.current >= 0 && CanSchedule(s.(yielding := s.yielding[s.current := true]))
  {
    Schedule(s.(yielding := s.yielding[s.current := true]))
  }

  lemma YieldSwitches(s: Sched)
    requires Inv(s) && Dispatched(s) && s.locks == 0 && s.table[s.priority[s.current]] != []
    ensures CanSchedule(s.(yielding := s.yielding[s.current := true]))
    ensures var p, c, s' := s.priority[s.current], s.current, Yield(s);
      s'.current == s.table[p][0] && s'.table[p] == s.table[p][1..] + [c] &&
      s'.priority == s.priority && s'.locks == 0 && s.priority[s'.current] == p
  {
    var p, c := s.priority[s.current], s.current;
    var list := s.table[p];
    assert ListRight(s, p);
    Highest(s);
    var h := First(s.group, 0);
    assert h == p;
    assert list[0] in list && Placed(s, p, list[0]);
    assert Removed(list + [c], list[0]) == (list + [c])[1..] == list[1..] + [c];
  }

  lemma YieldStays(s: Sched)
    requires Inv(s) && Dispatched(s) && s.locks == 0 && s.table[s.priority[s.current]] == []
    ensures CanSchedule(s.(yielding := s.yielding[s.current := true]))
    ensures Yield(s).current == s.current && Yield(s).table == s.table
    ensures Yield(s).priority == s.priority && Yield(s).locks == 0
  {
    var p, c := s.priority[s.current], s.current;
    CalmKeeps(s, s.yielding[c := true]);
    var y := s.(yielding := s.yielding[c := true]);
    ScheduleKeeps(y);
    assert ListRight(s, p);
    if s.group != {} {
      Highest(s);
      CalmKeeps(y, y.yielding[c := false]);
      StayKeeps(y.(yielding := y.yielding[c := false]), c);
    }
  }

  lemma YieldRotates(s: Sched)
    requires Inv(s) && Dispatched(s) && s.locks == 0
    ensures CanSchedule(s.(yielding := s.yielding[s.current := true]))
    ensures var s' := Yield(s);
      Inv(s') && Dispatched(s') && s'.locks == 0 && Circle(s') == Rotated(Circle(s), 1)
  {
    CalmKeeps(s, s.yielding[s.current := true]);
    ScheduleKeeps(s.(yielding := s.yielding[s.current := true]));
    if s.table[s.priority[s.current]] == [] {
      YieldStays(s);
    } else {
      YieldSwitches(s);
    }
  }

  /** The states of j yields in a row. */
  ghost predicate YieldRun(states: seq<Sched>) {
    |states| > 0 && Inv(states[0]) && Dispatched(states[0]) && states[0].locks == 0 &&
    forall k | 0 <= k < |states| - 1 :: YieldStep(states[k], states[k + 1])
  }

  ghost predicate YieldStep(s: Sched, s': Sched) {
    Shape(s) && s.current >= 0 && CanSchedule(s.(yielding := s.yielding[s.current := true])) ==> s' == Yield(s)
  }

  lemma RotateOnce(list: seq<nat>, j: nat)
    requires j < |list|
    ensures Rotated(Rotated(list, j), 1) == Rotated(list, j + 1)
  {
  }

  /** After j yields among k threads of the top priority the j-th in turn runs and the
      queue has turned j places; so in k yields each runs exactly once, and the k-th
      yield restores the order. */
  lemma {:induction false} YieldsGoRound(states: seq<Sched>, j: nat)
    requires YieldRun(states) && j < |states| && j <= |Circle(states[0])|
    ensures Inv(states[j]) && Dispatched(states[j]) && states[j].locks == 0
    ensures Circle(states[j]) == Rotated(Circle(states[0]), j)
    ensures j < |Circle(states[0])| ==> states[j].current == Circle(states[0])[j]
    ensures Distinct(Circle(states[0]))
    ensures j == |Circle(states[0])| ==> Circle(states[j]) == Circle(states[0])
  {
    var list := Circle(states[0]);
    assert Distinct(list) by {
      var s := states[0];
      assert ListRight(s, s.priority[s.current]);
      assert !Placed(s, s.priority[s.current], s.current);
    }
    if j > 0 {
      YieldsGoRound(states, j - 1);
      assert YieldStep(states[j - 1], states[j]);
      YieldRotates(states[j - 1]);
      RotateOnce(list, j - 1);
      assert states[j].current == Circle(states[j])[0];
      assert j < |list| ==> Rotated(list, j)[0] == list[j];
    }
  }

  // ----- The object

  /** What __rt_ffs finds in the ready group, counted from 0, is its lowest member. */
  lemma FfsIsFirst(word: bv32, group: set<nat>)
    requires F.Represents(word, group) && group != {} && forall p | p in group :: p < LEVELS
    ensures F.Ffs(word) > 0 && F.Ffs(word) - 1 == First(group, 0)
  {
    F.FfsFindsLowest(word);
    var p :| p in group;
    assert F.Bit(word, p);
    F.NonzeroIfBit(word, p);
    var lowest := F.Ffs(word) - 1;
    assert lowest in group;
    FirstIs(group, 0, lowest);
  }

  lemma {:induction false} FirstIs(group: set<nat>, p: nat, r: nat)
    requires p <= r < LEVELS && r in group && forall q | p <= q < r :: q !in group
    ensures First(group, p) == r
  {
  }

  class Cpu {
    var stat: seq<Stat>
    var priority: seq<nat>
    var yielding: seq<bool>
    var table: seq<seq<nat>>
    var word: bv32
    ghost var group: set<nat>
    var current: int
    var locks: nat

    /** The word is the ready group. */
    ghost predicate Valid()
      reads this
    {
      F.Represents(word, group)
    }

    ghost function Value(): Sched
      reads this
    {
      Sched(stat, priority, yielding, table, group, current, locks)
    }

    constructor (n: nat)
      ensures Valid() && Value() == Booted(n) && Inv(Value())
    {
      stat, priority, yielding := seq(n, i => Init), seq(n, i => 0), seq(n, i => false);
      table, word, group, current, locks := seq(LEVELS, i => []), 0, {}, NONE, 0;
      new;
      F.ZeroRepresents();
      BootedInv(n);
    }

    method InsertThread(t: nat)
      requires Valid() && Shape(Value()) && t < |stat|
      modifies this
      ensures Valid() && Value() == Insert(old(Value()), t)
    {
      if t == current {
        stat := stat[t := Running];
        return;
      }
      var p := priority[t];
      stat := stat[t := Ready];
      table := table[p := table[p] + [t]];
      word := F.Set(word, p, group);
      group := group + {p};
    }

    method RemoveThread(t: nat)
      requires Valid() && Shape(Value()) && t < |stat|
      modifies this
      ensures Valid() && Value() == Remove(old(Value()), t)
    {
      var p := priority[t];
      table := table[p := Removed(table[p], t)];
      if table[p] == [] {
        word := F.Clear(word, p, group);
        group := group - {p};
      }
    }

    /** _get_highest_priority_thread */
    method HighestReady() returns (highest: nat, thread: nat)
      requires Valid() && Inv(Value()) && group != {}
      ensures highest == First(group, 0) && highest < LEVELS && table[highest] != [] && thread == table[highest][0]
      ensures thread < |stat| && stat[thread] == Ready && priority[thread] == highest
      ensures forall t | 0 <= t < |stat| && stat[t] == Ready :: highest <= priority[t]
    {
      Highest(Value());
      FfsIsFirst(word, group);
      highest := F.Ffs(word) - 1;
      thread := table[highest][0];
    }

    /** rt_schedule */
    method Dispatch()
      requires Valid() && Inv(Value()) && current >= 0
      modifies this
      ensures CanSchedule(old(Value())) && Value() == Schedule(old(Value()))
      ensures Valid() && Inv(Value())
    {
      hide ListRight, F.Represents;
      ScheduleKeeps(Value());
      F.ZeroIffEmpty(word, group);
      if locks == 0 && word != 0 {
        var highest, to := HighestReady();
        var from, insert := current, false;
        if stat[current] == Running {
          if priority[current] < highest || (priority[current] == highest && !yielding[current]) {
            to := current;
          } else {
            insert := true;
          }
          yielding := yielding[current := false];
        }
        if to != current {
          current := to;
          if insert {
            InsertThread(from);
          }
          RemoveThread(to);
          stat := stat[to := Running];
        } else {
          RemoveThread(current);
          stat := stat[current := Running];
        }
      }
    }
  }
}
