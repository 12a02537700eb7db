/** The mailbox of src/ipc.c: a ring of mails, with threads waiting at both ends.  Every
    step is one region the source runs with interrupts disabled. */
module Mailbox {
  import opened WaitList
  import opened Lists
  import opened Handoff

  const ENTRY_MAX: nat := 65535

  type Mail = nat

  /** `mails` remembers what was sent and not yet received, in order. */
  datatype Box = Box(
    flag: Flag, pool: seq<Mail>, inOffset: nat, outOffset: nat, entry: nat,
    senders: seq<Waiter<Mail>>, receivers: seq<Waiter<()>>,
    wokenSenders: seq<Waiter<Mail>>, wokenReceivers: seq<Waiter<()>>,
    mails: seq<Mail>)

  // ----- Steps

  function Advance(offset: nat, size: nat): nat {
    if offset + 1 >= size then 0 else offset + 1
  }

  function WakeReceiver(b: Box): Box {
    if b.receivers == [] then b
    else b.(receivers := b.receivers[1..], wokenReceivers := b.wokenReceivers + [b.receivers[0]])
  }

  function WakeSender(b: Box): Box {
    if b.senders == [] then b
    else b.(senders := b.senders[1..], wokenSenders := b.wokenSenders + [b.senders[0]])
  }

  function Post(b: Box, mail: Mail): Box
    requires b.inOffset < |b.pool|
  {
    var posted := b.(pool := b.pool[b.inOffset := mail], inOffset := Advance(b.inOffset, |b.pool|), mails := b.mails + [mail]);
    if b.entry < ENTRY_MAX then WakeReceiver(posted.(entry := b.entry + 1)) else posted
  }

  /** The region of rt_mb_send_wait, on entry and again after each wake-up. */
  function TrySend(b: Box, w: Waiter<Mail>, mayWait: bool): Box
    requires b.entry != |b.pool| ==> b.inOffset < |b.pool|
  {
    if b.entry != |b.pool| then Post(b, w.call)
    else if mayWait then b.(senders := Joined(b.senders, w, b.flag))
    else b
  }

  function Fetch(b: Box): Box
    requires b.mails != []
  {
    WakeSender(b.(outOffset := Advance(b.outOffset, |b.pool|), entry := if b.entry > 0 then b.entry - 1 else 0, mails := b.mails[1..]))
  }

  /** The region of rt_mb_recv, on entry and again after each wake-up. */
  function TryReceive(b: Box, w: Waiter<()>, mayWait: bool): Box
    requires b.entry > 0 ==> b.mails != []
  {
    if b.entry > 0 then Fetch(b)
    else if mayWait then b.(receivers := Joined(b.receivers, w, b.flag))
    else b
  }

  datatype Event =
    | SendEnter(s: Waiter<Mail>, mayWait: bool)
    | SendRetry(i: nat, mayWait: bool)
    | ReceiveEnter(r: Waiter<()>, mayWait: bool)
    | ReceiveRetry(i: nat, mayWait: bool)
    | SenderTimeout(i: nat)
    | ReceiverTimeout(i: nat)
    | SenderResumed(i: nat)
    | ReceiverResumed(i: nat)
    | Reset

  predicate Enabled(b: Box, e: Event) {
    match e
    case SendRetry(i, _) => i < |b.wokenSenders|
    case ReceiveRetry(i, _) => i < |b.wokenReceivers|
    case SenderTimeout(i) => i < |b.senders|
    case SenderResumed(i) => i < |b.senders|
    case ReceiverTimeout(i) => i < |b.receivers|
    case ReceiverResumed(i) => i < |b.receivers|
    case _ => true
  }

  /** The mail is written and read inside the ring. */
  predicate Defined(b: Box, e: Event) {
    if e.SendEnter? || e.SendRetry? then b.entry != |b.pool| ==> b.inOffset < |b.pool|
    else if e.ReceiveEnter? || e.ReceiveRetry? then b.entry > 0 ==> b.outOffset < |b.pool| && b.mails != []
    else true
  }

  function Next(b: Box, e: Event): Box
    requires Enabled(b, e) && Defined(b, e)
  {
    match e
    case SendEnter(w, mayWait) => TrySend(b, w, mayWait)
    case SendRetry(i, mayWait) => TrySend(b.(wokenSenders := Without(b.wokenSenders, i)), b.wokenSenders[i], mayWait)
    case ReceiveEnter(w, mayWait) => TryReceive(b, w, mayWait)
    case ReceiveRetry(i, mayWait) => TryReceive(b.(wokenReceivers := Without(b.wokenReceivers, i)), b.wokenReceivers[i], mayWait)
    case SenderTimeout(i) => b.(senders := Without(b.senders, i))
    case ReceiverTimeout(i) => b.(receivers := Without(b.receivers, i))
    case SenderResumed(i) =>
      b.(senders := Without(b.senders, i), wokenSenders := b.wokenSenders + [b.senders[i]])
    case ReceiverResumed(i) =>
      b.(receivers := Without(b.receivers, i), wokenReceivers := b.wokenReceivers + [b.receivers[i]])
    case Reset => b.(senders := [], receivers := [], entry := 0, inOffset := 0, outOffset := 0, mails := [])
  }

  // ----- The ring

  /** i places on from `offset`, round the ring. */
  function Around(offset: nat, i: nat, size: nat): nat {
    if offset + i < size then offset + i else offset + i - size
  }

  lemma AroundIsModulo(offset: nat, i: nat, size: nat)
    requires offset < size && i <= size
    ensures Around(offset, i, size) == (offset + i) % size
  {
    var x, r := offset + i, Around(offset, i, size);
    var q := if x < size then 0 else 1;
    assert x == q * size + r;
    Remainder(x, q, r, size);
  }

  lemma Remainder(x: nat, q: nat, r: nat, n: nat)
    requires r < n && x == q * n + r
    ensures x % n == r
  {
    var d := x / n - q;
    assert d * n == r - x % n;
    if d >= 1 {
      Multiple(d, n);
    } else if d <= -1 {
      Multiple(-d, n);
    }
  }

  lemma Multiple(d: int, n: nat)
    requires d >= 1
    ensures d * n >= n
  {
  }

  ghost predicate Holds(pool: seq<Mail>, offset: nat, mails: seq<Mail>) {
    |mails| <= |pool| && (|pool| > 0 ==> offset < |pool|) &&
    forall i | 0 <= i < |mails| :: pool[Around(offset, i, |pool|)] == mails[i]
  }

  lemma PostHolds(pool: seq<Mail>, offset: nat, mails: seq<Mail>, mail: Mail)
    requires Holds(pool, offset, mails) && |mails| < |pool|
    ensures Holds(pool[Around(offset, |mails|, |pool|) := mail], offset, mails + [mail])
    ensures Advance(Around(offset, |mails|, |pool|), |pool|) == Around(offset, |mails| + 1, |pool|)
  {
  }

  lemma FetchHolds(pool: seq<Mail>, offset: nat, mails: seq<Mail>)
    requires Holds(pool, offset, mails) && mails != []
    ensures pool[offset] == mails[0] && Holds(pool, Advance(offset, |pool|), mails[1..])
    ensures Around(Advance(offset, |pool|), |mails| - 1, |pool|) == Around(offset, |mails|, |pool|)
  {
    var out := Advance(offset, |pool|);
    forall i | 0 <= i < |mails| - 1
      ensures pool[Around(out, i, |pool|)] == mails[1..][i]
    {
      assert Around(out, i, |pool|) == Around(offset, i + 1, |pool|);
    }
    assert Around(offset, 0, |pool|) == offset;
  }

  // ----- The invariant

  ghost predicate Sound(b: Box) {
    && |b.pool| <= ENTRY_MAX
    && b.entry == |b.mails|
    && Holds(b.pool, b.outOffset, b.mails)
    && b.inOffset == Around(b.outOffset, b.entry, |b.pool|)
  }

  ghost predicate Inv(b: Box) {
    && Sound(b)
    && NotStranded(|b.mails|, |b.receivers|, |b.wokenReceivers|)
    && NotStranded(|b.pool| - |b.mails|, |b.senders|, |b.wokenSenders|)
  }

  lemma PostKeeps(b: Box, mail: Mail)
    requires Sound(b) && b.entry != |b.pool|
    ensures b.inOffset < |b.pool| && Sound(Post(b, mail))
  {
    PostHolds(b.pool, b.outOffset, b.mails, mail);
  }

  lemma FetchKeeps(b: Box)
    requires Sound(b) && b.entry > 0
    ensures b.pool[b.outOffset] == b.mails[0] && Sound(Fetch(b))
  {
    FetchHolds(b.pool, b.outOffset, b.mails);
  }

  lemma NextKeeps(b: Box, e: Event)
    requires Inv(b) && Enabled(b, e)
    ensures Defined(b, e) && Inv(Next(b, e)) && |Next(b, e).pool| == |b.pool|
    ensures (e.SendEnter? || e.SendRetry?) && b.entry != |b.pool| ==> b.entry < ENTRY_MAX
  {
    match e
    case SendEnter(w, mayWait) => if b.entry != |b.pool| { PostKeeps(b, w.call); }
    case SendRetry(i, mayWait) =>
      if b.entry != |b.pool| { PostKeeps(b.(wokenSenders := Without(b.wokenSenders, i)), b.wokenSenders[i].call); }
    case ReceiveEnter(w, mayWait) => if b.entry > 0 { FetchKeeps(b); }
    case ReceiveRetry(i, mayWait) =>
      if b.entry > 0 { FetchKeeps(b.(wokenReceivers := Without(b.wokenReceivers, i))); }
    case _ =>
  }

  // ----- Whole runs

  /** rt_mb_init */
  function Fresh(flag: Flag, pool: seq<Mail>): Box {
    Box(flag, pool, 0, 0, 0, [], [], [], [], [])
  }

  /** After a step that is not defined anything could happen. */
  ghost predicate Step(b: Box, e: Event, b': Box) {
    Enabled(b, e) && (Defined(b, e) ==> b' == Next(b, e))
  }

  ghost predicate Run(flag: Flag, pool: seq<Mail>, states: seq<Box>, events: seq<Event>) {
    && |states| == |events| + 1 && |pool| <= ENTRY_MAX
    && states[0] == Fresh(flag, pool)
    && forall k | 0 <= k < |events| :: Step(states[k], events[k], states[k + 1])
  }

  lemma {:induction false} RunsKeep(flag: Flag, pool: seq<Mail>, states: seq<Box>, events: seq<Event>, k: nat)
    requires Run(flag, pool, states, events) && k <= |events|
    ensures Inv(states[k]) && |states[k].pool| == |pool|
    ensures k < |events| ==> Defined(states[k], events[k])
  {
    if k > 0 {
      RunsKeep(flag, pool, states, events, k - 1);
      assert Step(states[k - 1], events[k - 1], states[k]);
      NextKeeps(states[k - 1], events[k - 1]);
    }
    if k < |events| {
      assert Step(states[k], events[k], states[k + 1]);
      NextKeeps(states[k], events[k]);
    }
  }

  /** In every state of every run of a mailbox with room for at least one mail, the
      offsets and the entry count agree, and nobody waits for what is there to be had. */
  lemma RunsAreSafe(flag: Flag, pool: seq<Mail>, states: seq<Box>, events: seq<Event>, k: nat)
    requires Run(flag, pool, states, events) && k <= |events| && |pool| > 0
    ensures var b := states[k];
      b.inOffset == (b.outOffset + b.entry) % |pool| && b.outOffset < |pool| && b.entry <= |pool| &&
      (b.receivers != [] ==> b.entry <= |b.wokenReceivers|) &&
      (b.senders != [] ==> |pool| - b.entry <= |b.wokenSenders|)
  {
    RunsKeep(flag, pool, states, events, k);
    AroundIsModulo(states[k].outOffset, states[k].entry, |pool|);
  }

  // ----- What becomes of a call

  /** In every run: a send with room for its mail is done, one without waits if it may, and
      else leaves everything as it was; and so does a receive, which needs a mail. */
  lemma CallsProceedOrWait(flag: Flag, pool: seq<Mail>, states: seq<Box>, events: seq<Event>, k: nat)
    requires Run(flag, pool, states, events) && k < |events|
    ensures var b, b' := states[k], states[k + 1];
      match events[k]
      case SendEnter(w, mayWait) =>
        && b'.entry == b.entry + (if b.entry < |pool| then 1 else 0)
        && b'.senders == (if b.entry == |pool| && mayWait then Joined(b.senders, w, b.flag) else b.senders)
        && (b' == b <==> b.entry == |pool| && !mayWait)
      case SendRetry(i, mayWait) =>
        && i < |b.wokenSenders| && b'.wokenSenders == Without(b.wokenSenders, i)
        && b'.entry == b.entry + (if b.entry < |pool| then 1 else 0)
        && b'.senders == (if b.entry == |pool| && mayWait then Joined(b.senders, b.wokenSenders[i], b.flag) else b.senders)
      case ReceiveEnter(w, mayWait) =>
        && b'.entry == b.entry - (if b.entry > 0 then 1 else 0)
        && b'.receivers == (if b.entry == 0 && mayWait then Joined(b.receivers, w, b.flag) else b.receivers)
        && (b' == b <==> b.entry == 0 && !mayWait)
      case ReceiveRetry(i, mayWait) =>
        && i < |b.wokenReceivers| && b'.wokenReceivers == Without(b.wokenReceivers, i)
        && b'.entry == b.entry - (if b.entry > 0 then 1 else 0)
        && b'.receivers == (if b.entry == 0 && mayWait then Joined(b.receivers, b.wokenReceivers[i], b.flag) else b.receivers)
      case _ => |b'.senders| <= |b.senders| && |b'.receivers| <= |b.receivers| && (b'.entry == b.entry || b'.entry == 0)
  {
    RunsKeep(flag, pool, states, events, k);
    hide Holds, NotStranded;
    assert Step(states[k], events[k], states[k + 1]);
  }

  /** In every run: a mail posted wakes the first receiver waiting, a mail fetched the first
      sender; no other step of a call wakes anybody, and after a reset the ring is empty and
      nobody waits. */
  lemma WakesTheFirst(flag: Flag, pool: seq<Mail>, states: seq<Box>, events: seq<Event>, k: nat)
    requires Run(flag, pool, states, events) && k < |events|
    ensures var b, b', e := states[k], states[k + 1], events[k];
      var posted, fetched := b'.entry > b.entry, b'.entry < b.entry && !e.Reset?;
      && (posted && b.receivers != [] ==>
            b'.wokenReceivers == b.wokenReceivers + [b.receivers[0]] && b'.receivers == b.receivers[1..])
      && (fetched && b.senders != [] ==>
            b'.wokenSenders == b.wokenSenders + [b.senders[0]] && b'.senders == b.senders[1..])
      && (|b'.wokenReceivers| > |b.wokenReceivers| <==> (posted && b.receivers != []) || e.ReceiverResumed?)
      && (|b'.wokenSenders| > |b.wokenSenders| <==> (fetched && b.senders != []) || e.SenderResumed?)
      && (e.Reset? ==> b'.entry == 0 && b'.senders == [] && b'.receivers == [])
  {
    RunsKeep(flag, pool, states, events, k);
    hide Holds, NotStranded;
    assert Step(states[k], events[k], states[k + 1]);
  }

  lemma SendersStay(b: Box, e: Event, w: Waiter<Mail>)
    requires Enabled(b, e) && Defined(b, e) && w in b.senders
    ensures w in Next(b, e).senders || w in Next(b, e).wokenSenders || e.Reset? || (e.SenderTimeout? && b.senders[e.i] == w)
  {
    if (e.ReceiveEnter? || e.ReceiveRetry?) && w != b.senders[0] {
      WithoutHasRest(b.senders, 0, w);
    }
    match e
    case SendEnter(v, mayWait) => JoinedKeepsMember(b.senders, v, b.flag, w);
    case SendRetry(i, mayWait) => JoinedKeepsMember(b.senders, b.wokenSenders[i], b.flag, w);
    case SenderTimeout(i) =>
      if w != b.senders[i] {
        WithoutHasRest(b.senders, i, w);
      }
    case SenderResumed(i) =>
      if w != b.senders[i] {
        WithoutHasRest(b.senders, i, w);
      }
    case _ =>
  }

  lemma ReceiversStay(b: Box, e: Event, w: Waiter<()>)
    requires Enabled(b, e) && Defined(b, e) && w in b.receivers
    ensures w in Next(b, e).receivers || w in Next(b, e).wokenReceivers || e.Reset? || (e.ReceiverTimeout? && b.receivers[e.i] == w)
  {
    if (e.SendEnter? || e.SendRetry?) && w != b.receivers[0] {
      WithoutHasRest(b.receivers, 0, w);
    }
    match e
    case ReceiveEnter(v, mayWait) => JoinedKeepsMember(b.receivers, v, b.flag, w);
    case ReceiveRetry(i, mayWait) => JoinedKeepsMember(b.receivers, b.wokenReceivers[i], b.flag, w);
    case ReceiverTimeout(i) =>
      if w != b.receivers[i] {
        WithoutHasRest(b.receivers, i, w);
      }
    case ReceiverResumed(i) =>
      if w != b.receivers[i] {
        WithoutHasRest(b.receivers, i, w);
      }
    case _ =>
  }

  /** In every run a thread that waits goes on waiting until it is woken, its own time is
      up, or the mailbox is reset. */
  lemma NobodyIsDropped(flag: Flag, pool: seq<Mail>, states: seq<Box>, events: seq<Event>, k: nat, s: Waiter<Mail>, r: Waiter<()>)
    requires Run(flag, pool, states, events) && k < |events|
    ensures var b, b', e := states[k], states[k + 1], events[k];
      && (s in b.senders && !e.Reset? && !(e.SenderTimeout? && e.i < |b.senders| && b.senders[e.i] == s) ==>
            s in b'.senders || s in b'.wokenSenders)
      && (r in b.receivers && !e.Reset? && !(e.ReceiverTimeout? && e.i < |b.receivers| && b.receivers[e.i] == r) ==>
            r in b'.receivers || r in b'.wokenReceivers)
  {
    RunsKeep(flag, pool, states, events, k);
    hide Inv;
    assert Step(states[k], events[k], states[k + 1]);
    if s in states[k].senders {
      SendersStay(states[k], events[k], s);
    }
    if r in states[k].receivers {
      ReceiversStay(states[k], events[k], r);
    }
  }

  // ----- In which order

  /** The mail a step puts into the ring. */
  function Sent(b: Box, e: Event): seq<Mail> {
    if b.entry == |b.pool| then []
    else if e.SendEnter? then [e.s.call]
    else if e.SendRetry? && e.i < |b.wokenSenders| then [b.wokenSenders[e.i].call]
    else []
  }

  /** What a receiver finds in the ring, at `outOffset`. */
  function Delivered(b: Box, e: Event): seq<Mail> {
    if (e.ReceiveEnter? || e.ReceiveRetry?) && b.entry > 0 && b.outOffset < |b.pool| then [b.pool[b.outOffset]] else []
  }

  /** The mails sent in the steps from j to k. */
  function SentSince(states: seq<Box>, events: seq<Event>, j: nat, k: nat): seq<Mail>
    requires j <= k <= |events| < |states|
    decreases k - j
  {
    if k == j then [] else SentSince(states, events, j, k - 1) + Sent(states[k - 1], events[k - 1])
  }

  function DeliveredSince(states: seq<Box>, events: seq<Event>, j: nat, k: nat): seq<Mail>
    requires j <= k <= |events| < |states|
    decreases k - j
  {
    if k == j then [] else DeliveredSince(states, events, j, k - 1) + Delivered(states[k - 1], events[k - 1])
  }

  lemma NextIsFifo(b: Box, e: Event)
    requires Inv(b) && Enabled(b, e) && Defined(b, e) && !e.Reset?
    ensures b.mails + Sent(b, e) == Delivered(b, e) + Next(b, e).mails
  {
    if Delivered(b, e) != [] {
      FetchHolds(b.pool, b.outOffset, b.mails);
      assert b.mails == [b.mails[0]] + b.mails[1..];
    }
  }

  /** First in, first out: over any stretch of any run without a reset, the mails in the
      ring at its start and then those sent are exactly the mails delivered and then
      those in the ring at its end, in that order. */
  lemma {:induction false} RunsAreFifo(flag: Flag, pool: seq<Mail>, states: seq<Box>, events: seq<Event>, j: nat, k: nat)
    requires Run(flag, pool, states, events) && j <= k <= |events|
    requires forall i | j <= i < k :: !events[i].Reset?
    ensures states[j].mails + SentSince(states, events, j, k) == DeliveredSince(states, events, j, k) + states[k].mails
    ensures |states[k].mails| == states[k].entry
    decreases k - j
  {
    RunsKeep(flag, pool, states, events, k);
    if k > j {
      var b, e := states[k - 1], events[k - 1];
      RunsAreFifo(flag, pool, states, events, j, k - 1);
      RunsKeep(flag, pool, states, events, k - 1);
      assert Step(b, e, states[k]);
      NextIsFifo(b, e);
      FifoStep(states[j].mails, SentSince(states, events, j, k - 1), DeliveredSince(states, events, j, k - 1), b.mails,
               Sent(b, e), Delivered(b, e), states[k].mails);
    }
  }

  // ----- The object

  class Object {
    const flag: Flag
    var pool: seq<Mail>
    var inOffset: nat
    var outOffset: nat
    var entry: nat
    var senders: seq<Waiter<Mail>>
    var receivers: seq<Waiter<()>>
    var wokenSenders: seq<Waiter<Mail>>
    var wokenReceivers: seq<Waiter<()>>
    ghost var mails: seq<Mail>

    ghost function Value(): Box
      reads this
    {
      Box(flag, pool, inOffset, outOffset, entry, senders, receivers, wokenSenders, wokenReceivers, mails)
    }

    constructor (flag: Flag, pool: seq<Mail>)
      requires |pool| <= ENTRY_MAX
      ensures Value() == Fresh(flag, pool) && Inv(Value())
    {
      this.flag := flag;
      this.pool := pool;
      inOffset, outOffset, entry, mails := 0, 0, 0, [];
      senders, receivers, wokenSenders, wokenReceivers := [], [], [], [];
    }

    /** What rt_mb_send_wait does on entry; it is done, refused or suspended. */
    method Send(w: Waiter<Mail>, mayWait: bool) returns (sent: bool)
      requires Inv(Value())
      modifies this
      ensures Defined(old(Value()), SendEnter(w, mayWait)) && Value() == TrySend(old(Value()), w, mayWait)
      ensures Inv(Value()) && sent == (old(entry) != |pool|)
    {
      hide Holds;
      NextKeeps(Value(), SendEnter(w, mayWait));
      if entry == |pool| {
        if mayWait {
          senders := Suspend(senders, w, flag);
        }
        return false;
      }
      pool := pool[inOffset := w.call];
      inOffset := inOffset + 1;
      if inOffset >= |pool| {
        inOffset := 0;
      }
      mails := mails + [w.call];
      entry := entry + 1;
      if receivers != [] {
        wokenReceivers := wokenReceivers + [receivers[0]];
        receivers := receivers[1..];
      }
      return true;
    }

    /** What rt_mb_recv does on entry; a mail received is the oldest one sent. */
    method Receive(w: Waiter<()>, mayWait: bool) returns (received: bool, mail: Mail)
      requires Inv(Value())
      modifies this
      ensures Defined(old(Value()), ReceiveEnter(w, mayWait)) && Value() == TryReceive(old(Value()), w, mayWait)
      ensures Inv(Value()) && received == (old(entry) > 0) && (received ==> mail == old(mails)[0])
    {
      hide Holds, Joined;
      NextKeeps(Value(), ReceiveEnter(w, mayWait));
      mail := 0;
      if entry == 0 {
        if mayWait {
          receivers := Suspend(receivers, w, flag);
        }
        return false, mail;
      }
      FetchHolds(pool, outOffset, mails);
      mail := pool[outOffset];
      outOffset := outOffset + 1;
      if outOffset >= |pool| {
        outOffset := 0;
      }
      entry := entry - 1;
      mails := mails[1..];
      if senders != [] {
        wokenSenders := wokenSenders + [senders[0]];
        senders := senders[1..];
      }
      return true, mail;
    }
  }
}
