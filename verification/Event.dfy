/** The event object of src/ipc.c: 32 flags, and threads that wait for all or for some of
    a set of them. */
module Event {
  import opened WaitList
  import opened Lists

  /** One of the 32 flags. */
  type Bit = b: nat | b < 32

  /** A 32-bit mask, as the set of its one bits. */
  type Flags = set<Bit>

  datatype Mode = All | Some

  /** What a receiver asked for.  A receiver that passes both RT_EVENT_FLAG_AND and
      RT_EVENT_FLAG_OR gets `All`. */
  datatype Want = Want(flags: Flags, mode: Mode, clear: bool)

  type Waiters = seq<Waiter<Want>>

  datatype Event = Event(flag: Flag, flags: Flags, waiters: Waiters)

  /** A thread that was resumed, with the flags it is told it received. */
  datatype Grant = Grant(w: Waiter<Want>, received: Flags)

  datatype Outcome = Received(flags: Flags) | TimedOut | Error | Blocked

  predicate Satisfied(want: Want, flags: Flags) {
    match want.mode
    case All => want.flags <= flags
    case Some => flags * want.flags != {}
  }

  // ----- Operations

  /** The flags an immediate receive leaves. */
  function AfterReceive(want: Want, flags: Flags): Flags {
    if want.clear then flags - want.flags else flags
  }

  /** rt_event_recv, up to where it returns or blocks. */
  function Receive(e: Event, thread: nat, priority: nat, want: Want, mayWait: bool): (Event, Outcome) {
    if want.flags == {} then (e, Error)
    else if Satisfied(want, e.flags) then
      (e.(flags := AfterReceive(want, e.flags)), Received(e.flags * want.flags))
    else if !mayWait then (e, TimedOut)
    else (e.(waiters := Joined(e.waiters, Waiter(thread, priority, want), e.flag)), Blocked)
  }

  /** What rt_event_send tells a waiter it resumes. */
  function Told(want: Want, flags: Flags): Flags {
    if want.mode == All then want.flags else want.flags * flags
  }

  function AfterGrant(want: Want, flags: Flags): Flags {
    if want.clear then flags - Told(want, flags) else flags
  }

  /** One pass of rt_event_send over the waiters: who stays, which flags are left, and
      who is resumed with what. */
  function Sweep(ws: Waiters, flags: Flags): (Waiters, Flags, seq<Grant>) {
    if ws == [] then ([], flags, [])
    else if Satisfied(ws[0].call, flags) then
      var (stay, left, grants) := Sweep(ws[1..], AfterGrant(ws[0].call, flags));
      (stay, left, [Grant(ws[0], Told(ws[0].call, flags))] + grants)
    else
      var (stay, left, grants) := Sweep(ws[1..], flags);
      ([ws[0]] + stay, left, grants)
  }

  /** rt_event_send */
  function Send(e: Event, flags: Flags): (Event, seq<Grant>) {
    if flags == {} then (e, [])
    else
      var (stay, left, grants) := Sweep(e.waiters, e.flags + flags);
      (e.(waiters := stay, flags := left), grants)
  }

  // ----- One pass is enough

  ghost predicate Within(a: Flags, b: Flags) {
    a <= b
  }

  lemma FewerFlags(want: Want, a: Flags, b: Flags)
    requires Within(a, b) && Satisfied(want, a)
    ensures Satisfied(want, b)
  {
  }

  lemma WithinChain(a: Flags, b: Flags, c: Flags)
    requires Within(a, b) && Within(b, c)
    ensures Within(a, c)
  {
  }

  lemma ClearShrinks(flags: Flags, off: Flags, left: Flags)
    requires left == flags - off
    ensures Within(left, flags)
  {
  }

  lemma GrantShrinks(want: Want, flags: Flags)
    ensures Within(AfterGrant(want, flags), flags)
  {
    if want.clear {
      ClearShrinks(flags, Told(want, flags), AfterGrant(want, flags));
    } else {
      assert AfterGrant(want, flags) == flags;
    }
  }

  ghost predicate NoneSatisfied(ws: Waiters, flags: Flags) {
    forall i | 0 <= i < |ws| :: !Satisfied(ws[i].call, flags)
  }

  lemma {:induction false} SweepShrinks(ws: Waiters, flags: Flags)
    ensures Within(Sweep(ws, flags).1, flags)
    decreases |ws|
  {
    if ws == [] {
    } else if Satisfied(ws[0].call, flags) {
      SweepShrinks(ws[1..], AfterGrant(ws[0].call, flags));
      GrantShrinks(ws[0].call, flags);
      WithinChain(Sweep(ws, flags).1, AfterGrant(ws[0].call, flags), flags);
    } else {
      SweepShrinks(ws[1..], flags);
    }
  }

  /** Grants only take flags away, so a waiter passed over stays unsatisfied. */
  lemma {:induction false} SweepSuffices(ws: Waiters, flags: Flags)
    ensures NoneSatisfied(Sweep(ws, flags).0, Sweep(ws, flags).1)
    decreases |ws|
  {
    if ws == [] {
    } else if Satisfied(ws[0].call, flags) {
      SweepSuffices(ws[1..], AfterGrant(ws[0].call, flags));
    } else {
      SweepSuffices(ws[1..], flags);
      SweepShrinks(ws[1..], flags);
      if Satisfied(ws[0].call, Sweep(ws, flags).1) {
        FewerFlags(ws[0].call, Sweep(ws, flags).1, flags);
      }
    }
  }

  // ----- A blocked receive is an immediate receive, delayed

  /** Every waiter in turn simply tries again, without waiting. */
  function Retry(e: Event, ws: Waiters): (Waiters, Flags, seq<Grant>)
    decreases |ws|
  {
    if ws == [] then ([], e.flags, [])
    else
      var (e', outcome) := Receive(e, ws[0].thread, ws[0].priority, ws[0].call, false);
      var (stay, left, grants) := Retry(e', ws[1..]);
      if outcome.Received? then (stay, left, [Grant(ws[0], outcome.flags)] + grants)
      else ([ws[0]] + stay, left, grants)
  }

  ghost predicate Asking(ws: Waiters) {
    forall i | 0 <= i < |ws| :: ws[i].call.flags != {}
  }

  lemma ToldIsReceived(want: Want, flags: Flags)
    requires Satisfied(want, flags)
    ensures Told(want, flags) == flags * want.flags
  {
  }

  lemma GrantLeaves(want: Want, flags: Flags)
    ensures AfterGrant(want, flags) == AfterReceive(want, flags)
  {
    assert flags - want.flags * flags == flags - want.flags;
  }

  lemma GrantIsReceive(e: Event, w: Waiter<Want>)
    requires w.call.flags != {} && Satisfied(w.call, e.flags)
    ensures Receive(e, w.thread, w.priority, w.call, false) ==
      (e.(flags := AfterGrant(w.call, e.flags)), Received(Told(w.call, e.flags)))
  {
    ToldIsReceived(w.call, e.flags);
    GrantLeaves(w.call, e.flags);
  }

  /** A send resumes exactly the waiters that would now succeed if they called again in
      list order, reports to each what that call would return, and leaves the flags
      those calls would leave. */
  lemma {:induction false} SweepIsRetry(e: Event, ws: Waiters)
    requires Asking(ws)
    ensures Sweep(ws, e.flags) == Retry(e, ws)
    decreases |ws|
  {
    if ws != [] {
      if Satisfied(ws[0].call, e.flags) {
        GrantIsReceive(e, ws[0]);
      }
      SweepIsRetry(Receive(e, ws[0].thread, ws[0].priority, ws[0].call, false).0, ws[1..]);
    }
  }

  // ----- Whole runs

  datatype Call =
    | Receives(thread: nat, priority: nat, want: Want, mayWait: bool)
    | Sends(flags: Flags)
    | TimesOut(i: nat)
    | Resets

  predicate Enabled(e: Event, c: Call) {
    c.TimesOut? ==> c.i < |e.waiters|
  }

  function Next(e: Event, c: Call): Event
    requires Enabled(e, c)
  {
    match c
    case Receives(thread, priority, want, mayWait) => Receive(e, thread, priority, want, mayWait).0
    case Sends(flags) => Send(e, flags).0
    case TimesOut(i) => e.(waiters := Without(e.waiters, i))
    case Resets => e.(waiters := [], flags := {})
  }

  ghost predicate Run(states: seq<Event>, calls: seq<Call>) {
    && |states| == |calls| + 1
    && states[0].flags == {} && states[0].waiters == []
    && forall k | 0 <= k < |calls| :: Step(states[k], calls[k], states[k + 1])
  }

  ghost predicate Step(e: Event, c: Call, e': Event) {
    Enabled(e, c) && e' == Next(e, c)
  }

  ghost predicate Inv(e: Event) {
    Asking(e.waiters) && NoneSatisfied(e.waiters, e.flags)
  }

  lemma JoinedKeeps(ws: Waiters, w: Waiter<Want>, flag: Flag, flags: Flags)
    requires Asking(ws) && NoneSatisfied(ws, flags) && w.call.flags != {} && !Satisfied(w.call, flags)
    ensures Asking(Joined(ws, w, flag)) && NoneSatisfied(Joined(ws, w, flag), flags)
  {
    hide Satisfied, Place;
  }

  lemma FewerStillNone(ws: Waiters, flags: Flags, off: Flags)
    requires NoneSatisfied(ws, flags)
    ensures NoneSatisfied(ws, flags - off)
  {
    var left := flags - off;
    ClearShrinks(flags, off, left);
    forall i | 0 <= i < |ws|
      ensures !Satisfied(ws[i].call, left)
    {
      if Satisfied(ws[i].call, left) {
        FewerFlags(ws[i].call, left, flags);
      }
    }
  }

  lemma ReceiveKeeps(e: Event, thread: nat, priority: nat, want: Want, mayWait: bool)
    requires Inv(e)
    ensures Inv(Receive(e, thread, priority, want, mayWait).0)
  {
    if want.flags == {} {
    } else if Satisfied(want, e.flags) {
      FewerStillNone(e.waiters, e.flags, want.flags);
    } else {
      JoinedKeeps(e.waiters, Waiter(thread, priority, want), e.flag, e.flags);
    }
  }

  lemma {:induction false} SweepKeepsAsking(ws: Waiters, flags: Flags)
    requires Asking(ws)
    ensures Asking(Sweep(ws, flags).0)
    decreases |ws|
  {
    if ws != [] {
      SweepKeepsAsking(ws[1..], flags);
      SweepKeepsAsking(ws[1..], AfterGrant(ws[0].call, flags));
    }
  }

  lemma NextKeeps(e: Event, c: Call)
    requires Inv(e) && Enabled(e, c)
    ensures Inv(Next(e, c))
  {
    match c
    case Receives(thread, priority, want, mayWait) => ReceiveKeeps(e, thread, priority, want, mayWait);
    case Sends(flags) =>
      SweepSuffices(e.waiters, e.flags + flags);
      SweepKeepsAsking(e.waiters, e.flags + flags);
    case TimesOut(i) =>
    case Resets =>
  }

  /** In every state of every run no suspended thread's condition is met. */
  lemma {:induction false} NobodyWaitsInVain(states: seq<Event>, calls: seq<Call>, k: nat)
    requires Run(states, calls) && k <= |calls|
    ensures NoneSatisfied(states[k].waiters, states[k].flags) && Asking(states[k].waiters)
  {
    if k > 0 {
      NobodyWaitsInVain(states, calls, k - 1);
      assert Step(states[k - 1], calls[k - 1], states[k]);
      NextKeeps(states[k - 1], calls[k - 1]);
    }
  }

  /** In every run, what a send does is what the waiters' own retries would do. */
  lemma SendsAreRetries(states: seq<Event>, calls: seq<Call>, k: nat)
    requires Run(states, calls) && k < |calls| && calls[k].Sends? && calls[k].flags != {}
    ensures var e := states[k].(flags := states[k].flags + calls[k].flags);
      var (stay, left, grants) := Retry(e, states[k].waiters);
      states[k + 1] == e.(waiters := stay, flags := left) && Send(states[k], calls[k].flags).1 == grants
  {
    NobodyWaitsInVain(states, calls, k);
    assert Step(states[k], calls[k], states[k + 1]);
    SweepIsRetry(states[k].(flags := states[k].flags + calls[k].flags), states[k].waiters);
  }

  // ----- What becomes of a call

  /** Every flag asked for is up, or with RT_EVENT_FLAG_OR at least one of them. */
  ghost predicate Met(want: Want, flags: Flags) {
    if want.mode == All then forall b | b in want.flags :: b in flags else exists b | b in want.flags :: b in flags
  }

  lemma SatisfiedIsMet(want: Want, flags: Flags)
    ensures Satisfied(want, flags) <==> Met(want, flags)
  {
    if want.mode != All {
      if b :| b in want.flags && b in flags {
        assert b in flags * want.flags;
      }
      if b :| b in flags * want.flags {
        assert b in want.flags && b in flags;
      }
    }
  }

  /** In every run: a receive that asks for nothing is an error; one whose flags are up, all
      or any as it asks, returns those that are and clears what it asked for if it says so;
      any other waits if it may, and else changes nothing. */
  lemma ReceivesProceedOrWait(states: seq<Event>, calls: seq<Call>, k: nat)
    requires Run(states, calls) && k < |calls| && calls[k].Receives?
    ensures var e, e', c := states[k], states[k + 1], calls[k];
      var outcome := Receive(e, c.thread, c.priority, c.want, c.mayWait).1;
      if c.want.flags == {} then outcome == Error && e' == e
      else if Met(c.want, e.flags) then
        && outcome.Received? && (forall b :: b in outcome.flags <==> b in c.want.flags && b in e.flags)
        && (forall b :: b in e'.flags <==> b in e.flags && !(c.want.clear && b in c.want.flags))
        && e'.waiters == e.waiters
      else
        && outcome == (if c.mayWait then Blocked else TimedOut) && e'.flags == e.flags
        && e'.waiters == (if c.mayWait then Joined(e.waiters, Waiter(c.thread, c.priority, c.want), e.flag) else e.waiters)
  {
    assert Step(states[k], calls[k], states[k + 1]);
    SatisfiedIsMet(calls[k].want, states[k].flags);
  }

  /** In every run: a timeout takes exactly its waiter off the list, a reset clears all flags
      and leaves nobody waiting, and a send of no flags changes nothing. */
  lemma OtherCallsDo(states: seq<Event>, calls: seq<Call>, k: nat)
    requires Run(states, calls) && k < |calls|
    ensures var e, e' := states[k], states[k + 1];
      match calls[k]
      case TimesOut(i) => i < |e.waiters| && e'.waiters == Without(e.waiters, i) && e'.flags == e.flags
      case Resets => e'.waiters == [] && e'.flags == {}
      case Sends(flags) => flags == {} ==> e' == e
      case Receives(_, _, _, _) => true
  {
    assert Step(states[k], calls[k], states[k + 1]);
  }

  function Resumed(grants: seq<Grant>): seq<Waiter<Want>> {
    if grants == [] then [] else [grants[0].w] + Resumed(grants[1..])
  }

  /** What those that asked for it have cleared. */
  function Cleared(grants: seq<Grant>): Flags {
    if grants == [] then {} else (if grants[0].w.call.clear then grants[0].received else {}) + Cleared(grants[1..])
  }

  /** Told of flags it asked for: all of them, or with RT_EVENT_FLAG_OR at least one. */
  ghost predicate Honest(g: Grant, flags: Flags) {
    && g.received <= flags && g.received <= g.w.call.flags
    && if g.w.call.mode == All then g.received == g.w.call.flags else g.received != {}
  }

  lemma FewerHonest(g: Grant, a: Flags, b: Flags)
    requires Honest(g, a) && Within(a, b)
    ensures Honest(g, b)
  {
  }

  lemma ToldHonestly(w: Waiter<Want>, flags: Flags)
    requires Satisfied(w.call, flags)
    ensures Honest(Grant(w, Told(w.call, flags)), flags)
  {
    assert w.call.flags * flags == flags * w.call.flags;
  }

  lemma {:induction false} SweepResumesOrKeeps(ws: Waiters, flags: Flags)
    ensures multiset(ws) == multiset(Sweep(ws, flags).0) + multiset(Resumed(Sweep(ws, flags).2))
    decreases |ws|
  {
    if ws != [] {
      hide Satisfied, AfterGrant, Told;
      var after := if Satisfied(ws[0].call, flags) then AfterGrant(ws[0].call, flags) else flags;
      var (stay, left, grants) := Sweep(ws[1..], after);
      SweepResumesOrKeeps(ws[1..], after);
      HeadToEither(ws, stay, Resumed(grants));
    }
  }

  lemma {:induction false} SweepClears(ws: Waiters, flags: Flags)
    ensures Sweep(ws, flags).1 == flags - Cleared(Sweep(ws, flags).2)
    decreases |ws|
  {
    if ws != [] {
      hide Satisfied, Told;
      SweepClears(ws[1..], flags);
      SweepClears(ws[1..], AfterGrant(ws[0].call, flags));
    }
  }

  lemma {:induction false} SweepIsHonest(ws: Waiters, flags: Flags)
    ensures forall i | 0 <= i < |Sweep(ws, flags).2| :: Honest(Sweep(ws, flags).2[i], flags)
    decreases |ws|
  {
    if ws != [] {
      var w, after := ws[0], AfterGrant(ws[0].call, flags);
      var rest := Sweep(ws[1..], after).2;
      SweepIsHonest(ws[1..], flags);
      SweepIsHonest(ws[1..], after);
      GrantShrinks(w.call, flags);
      if Satisfied(w.call, flags) {
        ToldHonestly(w, flags);
      }
      hide Satisfied, Told, Honest, AfterGrant;
      forall i | 0 <= i < |rest|
        ensures Honest(rest[i], flags)
      {
        FewerHonest(rest[i], after, flags);
      }
    }
  }

  /** In every run: a send resumes each waiter or leaves it waiting, tells those it resumes
      of flags that are up and that they asked for, and leaves the flags that none of them
      cleared. */
  lemma SendsAreHonest(states: seq<Event>, calls: seq<Call>, k: nat)
    requires Run(states, calls) && k < |calls| && calls[k].Sends? && calls[k].flags != {}
    ensures var e, e', grants := states[k], states[k + 1], Send(states[k], calls[k].flags).1;
      && multiset(e.waiters) == multiset(e'.waiters) + multiset(Resumed(grants))
      && e'.flags == e.flags + calls[k].flags - Cleared(grants)
      && forall i | 0 <= i < |grants| :: Honest(grants[i], e.flags + calls[k].flags)
  {
    hide Honest;
    assert Step(states[k], calls[k], states[k + 1]);
    var flags := states[k].flags + calls[k].flags;
    SweepResumesOrKeeps(states[k].waiters, flags);
    SweepClears(states[k].waiters, flags);
    SweepIsHonest(states[k].waiters, flags);
  }

  // ----- The object

  /** The first n waiters are dealt with; the rest of the pass starts from `flags`. */
  ghost predicate Swept(ws: Waiters, start: Flags, n: nat, kept: Waiters, flags: Flags, grants: seq<Grant>) {
    n <= |ws| &&
    var whole, rest := Sweep(ws, start), Sweep(ws[n..], flags);
    whole.0 == kept + rest.0 && whole.1 == rest.1 && whole.2 == grants + rest.2
  }

  lemma SweptStep(ws: Waiters, start: Flags, n: nat, kept: Waiters, flags: Flags, grants: seq<Grant>)
    requires Swept(ws, start, n, kept, flags, grants) && n < |ws|
    ensures var w := ws[n];
      if Satisfied(w.call, flags) then
        Swept(ws, start, n + 1, kept, AfterGrant(w.call, flags), grants + [Grant(w, Told(w.call, flags))])
      else
        Swept(ws, start, n + 1, kept + [w], flags, grants)
  {
    assert ws[n..][1..] == ws[n + 1..];
  }

  lemma SweptAll(ws: Waiters, start: Flags, kept: Waiters, flags: Flags, grants: seq<Grant>)
    requires Swept(ws, start, |ws|, kept, flags, grants)
    ensures Sweep(ws, start) == (kept, flags, grants)
  {
    assert ws[|ws|..] == [];
    var whole := Sweep(ws, start);
    assert whole.0 == kept && whole.2 == grants;
  }

  /** The loop of rt_event_send over the suspended threads. */
  method Pass(ws: Waiters, start: Flags) returns (kept: Waiters, flags: Flags, grants: seq<Grant>)
    ensures (kept, flags, grants) == Sweep(ws, start)
  {
    kept, flags, grants := [], start, [];
    var n := 0;
    while n < |ws|
      invariant 0 <= n <= |ws|
      invariant Swept(ws, start, n, kept, flags, grants)
    {
      var w := ws[n];
      SweptStep(ws, start, n, kept, flags, grants);
      if Satisfied(w.call, flags) {
        grants := grants + [Grant(w, Told(w.call, flags))];
        flags := AfterGrant(w.call, flags);
      } else {
        kept := kept + [w];
      }
      n := n + 1;
    }
    SweptAll(ws, start, kept, flags, grants);
  }

  class Object {
    const flag: Flag
    var flags: Flags
    var waiters: Waiters

    function Value(): Event
      reads this
    {
      Event(flag, flags, waiters)
    }

    constructor (flag: Flag)
      ensures Value() == Event(flag, {}, []) && Inv(Value())
    {
      this.flag := flag;
      flags, waiters := {}, [];
    }

    method SendFlags(added: Flags) returns (ok: bool, grants: seq<Grant>)
      requires Inv(Value())
      modifies this
      ensures ok == (added != {}) && (Value(), grants) == Send(old(Value()), added) && Inv(Value())
    {
      NextKeeps(Value(), Sends(added));
      if added == {} {
        return false, [];
      }
      flags := flags + added;
      waiters, flags, grants := Pass(waiters, flags);
      return true, grants;
    }

    method ReceiveFlags(thread: nat, priority: nat, want: Want, mayWait: bool) returns (r: Outcome)
      requires Inv(Value())
      modifies this
      ensures (Value(), r) == Receive(old(Value()), thread, priority, want, mayWait) && Inv(Value())
    {
      ReceiveKeeps(Value(), thread, priority, want, mayWait);
      if want.flags == {} {
        return Error;
      }
      if Satisfied(want, flags) {
        r := Received(flags * want.flags);
        flags := AfterReceive(want, flags);
        return;
      }
      if !mayWait {
        return TimedOut;
      }
      waiters := Suspend(waiters, Waiter(thread, priority, want), flag);
      return Blocked;
    }
  }
}
