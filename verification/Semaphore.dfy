/** The semaphore of src/ipc.c.  A release with threads waiting hands its unit to the
    first of them and does not touch the value. */
module Semaphore {
  import opened WaitList
  import opened Lists

  const VALUE_MAX: nat := 65535

  /** `start`, `released` and `granted` count since the last reset: the value set, the
      releases that succeeded, and the takes that did, at once or by hand-over; `arrivals`
      counts the threads that ever waited. */
  datatype Sem = Sem(
    flag: Flag, value: nat, waiters: Numbered, start: nat, released: nat, granted: nat, arrivals: nat)

  datatype Outcome = Ok | Full | TimedOut | Blocked

  /** rt_sem_take, up to where it returns or blocks. */
  function Take(s: Sem, w: Waiter<()>, mayWait: bool): (Sem, Outcome) {
    if s.value > 0 then (s.(value := s.value - 1, granted := s.granted + 1), Ok)
    else if !mayWait then (s, TimedOut)
    else (s.(waiters := Joined(s.waiters, Newcomer(s, w), s.flag), arrivals := s.arrivals + 1), Blocked)
  }

  function Newcomer(s: Sem, w: Waiter<()>): Waiter<nat> {
    Waiter(w.thread, w.priority, s.arrivals)
  }

  /** rt_sem_release */
  function Release(s: Sem): (Sem, Outcome) {
    if s.waiters != [] then
      (s.(waiters := s.waiters[1..], released := s.released + 1, granted := s.granted + 1), Ok)
    else if s.value < VALUE_MAX then (s.(value := s.value + 1, released := s.released + 1), Ok)
    else (s, Full)
  }

  datatype Event = Takes(w: Waiter<()>, mayWait: bool) | Releases | TimesOut(i: nat) | Resets(value: nat)

  predicate Enabled(s: Sem, e: Event) {
    e.TimesOut? ==> e.i < |s.waiters|
  }

  function Next(s: Sem, e: Event): Sem
    requires Enabled(s, e)
  {
    match e
    case Takes(w, mayWait) => Take(s, w, mayWait).0
    case Releases => Release(s).0
    case TimesOut(i) => s.(waiters := Without(s.waiters, i))
    case Resets(value) =>
      var v := value % (VALUE_MAX + 1);
      Sem(s.flag, v, [], v, 0, 0, s.arrivals)
  }

  ghost predicate Inv(s: Sem) {
    && s.start + s.released == s.value + s.granted
    && (s.value > 0 ==> s.waiters == [])
    && s.value <= VALUE_MAX
    && (s.flag == Prio ==> Sorted(s.waiters)) && Aged(s.waiters, s.flag, s.arrivals)
  }

  lemma NextKeeps(s: Sem, e: Event)
    requires Inv(s) && Enabled(s, e)
    ensures Inv(Next(s, e)) && Next(s, e).flag == s.flag
    ensures e.Releases? ==> (Release(s).1 == Full <==> s.value == VALUE_MAX)
  {
    if e.Takes? && s.value == 0 {
      var w := Newcomer(s, e.w);
      JoinedAged(s.waiters, w, s.flag);
      if s.flag == Prio {
        JoinedIsFair(s.waiters, w);
      }
    }
  }

  ghost predicate Run(flag: Flag, value: nat, states: seq<Sem>, events: seq<Event>) {
    && |states| == |events| + 1 && value <= VALUE_MAX
    && states[0] == Sem(flag, value, [], value, 0, 0, 0)
    && forall k | 0 <= k < |events| :: Step(states[k], events[k], states[k + 1])
  }

  ghost predicate Step(s: Sem, e: Event, s': Sem) {
    Enabled(s, e) && s' == Next(s, e)
  }

  /** In every state of every run: no unit is lost or made up, nobody waits while the
      semaphore has a unit, and with the PRIO flag the most urgent waiter is first. */
  lemma {:induction false} RunsConserve(flag: Flag, value: nat, states: seq<Sem>, events: seq<Event>, k: nat)
    requires Run(flag, value, states, events) && k <= |events|
    ensures var s := states[k];
      s.start + s.released == s.value + s.granted && (s.value > 0 ==> s.waiters == []) &&
      s.value <= VALUE_MAX && s.flag == flag && (flag == Prio ==> Sorted(s.waiters)) && Aged(s.waiters, flag, s.arrivals)
  {
    if k > 0 {
      RunsConserve(flag, value, states, events, k - 1);
      assert Step(states[k - 1], events[k - 1], states[k]);
      NextKeeps(states[k - 1], events[k - 1]);
    }
  }

  // ----- What becomes of a call

  /** In every run: a take gets a unit exactly if there is one, waits if there is none and it
      may, and else changes nothing; a release goes to the first waiter, if there is one,
      and else adds a unit up to 65535.  The counts follow. */
  lemma CallsProceedOrWait(flag: Flag, value: nat, states: seq<Sem>, events: seq<Event>, k: nat)
    requires Run(flag, value, states, events) && k < |events|
    ensures var s, s' := states[k], states[k + 1];
      match events[k]
      case Takes(w, mayWait) =>
        var taken := if s.value > 0 then 1 else 0;
        && s'.value == s.value - taken && s'.granted == s.granted + taken && s'.released == s.released
        && s'.waiters ==
             (if s.value == 0 && mayWait then Joined(s.waiters, Waiter(w.thread, w.priority, s.arrivals), flag) else s.waiters)
        && (s' == s <==> s.value == 0 && !mayWait)
      case Releases =>
        var handed, added := s.waiters != [], s.waiters == [] && s.value < 65535;
        && s'.value == s.value + (if added then 1 else 0) && s'.waiters == (if handed then s.waiters[1..] else [])
        && s'.released == s.released + (if handed || added then 1 else 0)
        && s'.granted == s.granted + (if handed then 1 else 0)
      case TimesOut(i) => i < |s.waiters| && s' == s.(waiters := Without(s.waiters, i))
      case Resets(v) => s'.value == v % 65536 && s'.waiters == []
  {
    RunsConserve(flag, value, states, events, k);
    assert Step(states[k], events[k], states[k + 1]);
  }

  // ----- Who gets the units

  /** The waiter a step hands a unit to. */
  function Granted(s: Sem, e: Event): Numbered {
    if e.Releases? && s.waiters != [] then [s.waiters[0]] else []
  }

  /** In every run a release goes to the waiter that is ahead of all the others. */
  lemma GrantsTheFirst(flag: Flag, value: nat, states: seq<Sem>, events: seq<Event>, k: nat, w: Waiter<nat>)
    requires Run(flag, value, states, events) && k < |events| && Granted(states[k], events[k]) != []
    requires w in states[k].waiters
    ensures var g := Granted(states[k], events[k])[0]; w == g || Ahead(g, w, flag)
  {
    RunsConserve(flag, value, states, events, k);
    FirstIsAhead(states[k].waiters, flag, states[k].arrivals, w);
  }

  /** Neither a reset nor its own timeout takes waiter w off the list at this step. */
  ghost predicate Undisturbed(s: Sem, e: Event, w: Waiter<nat>) {
    !e.Resets? && (e.TimesOut? && e.i < |s.waiters| ==> s.waiters[e.i] != w)
  }

  lemma StaysOrIsGranted(s: Sem, e: Event, w: Waiter<nat>)
    requires Enabled(s, e) && w in s.waiters && Undisturbed(s, e, w)
    ensures w in Next(s, e).waiters || Granted(s, e) == [w]
  {
    match e
    case Takes(v, mayWait) =>
      if s.value == 0 && mayWait {
        JoinedKeepsMember(s.waiters, Newcomer(s, v), s.flag, w);
      }
    case Releases =>
    case TimesOut(i) => WithoutHasRest(s.waiters, i, w);
    case Resets(_) =>
  }

  lemma {:induction false} StillWaitsOrWasGranted(
    flag: Flag, value: nat, states: seq<Sem>, events: seq<Event>, j: nat, k: nat, w: Waiter<nat>)
    requires Run(flag, value, states, events) && j <= k <= |events| && w in states[j].waiters
    requires forall i | j <= i < k :: Undisturbed(states[i], events[i], w)
    ensures w in states[k].waiters || exists i | j <= i < k :: Granted(states[i], events[i]) == [w]
    decreases k - j
  {
    if k > j {
      StillWaitsOrWasGranted(flag, value, states, events, j, k - 1, w);
      if w in states[k - 1].waiters {
        assert Step(states[k - 1], events[k - 1], states[k]);
        StaysOrIsGranted(states[k - 1], events[k - 1], w);
      }
    }
  }

  /** Nobody is passed over: when a release goes to a waiter, everyone who waited earlier
      and is ahead of it (came first, or with the PRIO flag is more urgent, or as urgent and
      came first) was granted a unit before, resets and its own timeout aside. */
  lemma NobodyIsPassedOver(flag: Flag, value: nat, states: seq<Sem>, events: seq<Event>, j: nat, k: nat, w: Waiter<nat>)
    requires Run(flag, value, states, events) && j <= k < |events| && w in states[j].waiters
    requires forall i | j <= i < k :: Undisturbed(states[i], events[i], w)
    requires Granted(states[k], events[k]) != [] && Ahead(w, Granted(states[k], events[k])[0], flag)
    ensures exists i | j <= i < k :: Granted(states[i], events[i]) == [w]
  {
    StillWaitsOrWasGranted(flag, value, states, events, j, k, w);
    if w in states[k].waiters {
      GrantsTheFirst(flag, value, states, events, k, w);
      assert false;
    }
  }

  class Object {
    const flag: Flag
    var value: nat
    var waiters: seq<Waiter<()>>
    ghost var numbered: Numbered
    ghost var start: nat
    ghost var released: nat
    ghost var granted: nat
    ghost var arrivals: nat

    ghost predicate Valid()
      reads this
    {
      waiters == Plain(numbered)
    }

    ghost function Value(): Sem
      reads this
    {
      Sem(flag, value, numbered, start, released, granted, arrivals)
    }

    constructor (flag: Flag, value: nat)
      requires value <= VALUE_MAX
      ensures Valid() && Value() == Sem(flag, value, [], value, 0, 0, 0) && Inv(Value())
    {
      this.flag := flag;
      this.value := value;
      waiters := [];
      numbered, start, released, granted, arrivals := [], value, 0, 0, 0;
    }

    method TakeUnit(w: Waiter<()>, mayWait: bool) returns (r: Outcome)
      requires Valid() && Inv(Value())
      modifies this
      ensures (Value(), r) == Take(old(Value()), w, mayWait) && Valid() && Inv(Value())
    {
      hide Aged;
      NextKeeps(Value(), Takes(w, mayWait));
      if value > 0 {
        value := value - 1;
        granted := granted + 1;
        return Ok;
      }
      if !mayWait {
        return TimedOut;
      }
      ghost var newcomer := Newcomer(Value(), w);
      PlainJoined(numbered, newcomer, flag);
      waiters := Suspend(waiters, Waiter(w.thread, w.priority, ()), flag);
      numbered, arrivals := Joined(numbered, newcomer, flag), arrivals + 1;
      return Blocked;
    }

    method ReleaseUnit() returns (r: Outcome)
      requires Valid() && Inv(Value())
      modifies this
      ensures (Value(), r) == Release(old(Value())) && Valid() && Inv(Value())
    {
      hide Aged;
      NextKeeps(Value(), Releases);
      if waiters != [] {
        PlainTail(numbered);
        waiters := waiters[1..];
        numbered := numbered[1..];
        granted := granted + 1;
      } else if value < VALUE_MAX {
        value := value + 1;
      } else {
        return Full;
      }
      released := released + 1;
      return Ok;
    }
  }
}
