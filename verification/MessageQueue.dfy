/** The message queue of src/ipc.c as a protocol.  Every step is one region the source
    runs with interrupts disabled, or one byte of a copy it makes with interrupts
    enabled; steps of different calls interleave freely. */
module MessageQueue {
  import opened WaitList
  import opened Lists
  import opened Handoff

  type Bytes = seq<bv8>

  const ENTRY_MAX: nat := 65535

  /** A send that owns a slot and is copying its message into it. */
  datatype Send = Send(slot: nat, message: Bytes, copied: nat, urgent: bool)

  /** A receive that owns a slot and is copying it out.  `message` remembers what the
      sender of that slot had sent. */
  datatype Receive = Receive(slot: nat, want: nat, message: Bytes, got: Bytes)

  /** What was sent in a slot, whether urgently, and as the how-manieth message. */
  datatype Letter = Letter(bytes: Bytes, urgent: bool, stamp: nat)

  /** `letters` remembers what was sent in the queued slots (the source does not store
      the length of a message), `stamps` how many messages were sent. */
  datatype Queue = Queue(
    msgSize: nat, flag: Flag,
    data: seq<Bytes>, free: seq<nat>, queue: seq<nat>, entry: nat,
    sending: seq<Send>, receiving: seq<Receive>,
    senders: seq<Waiter<Bytes>>, receivers: seq<Waiter<nat>>,
    wokenSenders: seq<Waiter<Bytes>>, wokenReceivers: seq<Waiter<nat>>,
    letters: seq<Letter>, stamps: nat)

  // ----- Steps

  function WakeReceiver(q: Queue): Queue {
    if q.receivers == [] then q
    else q.(receivers := q.receivers[1..], wokenReceivers := q.wokenReceivers + [q.receivers[0]])
  }

  function WakeSender(q: Queue): Queue {
    if q.senders == [] then q
    else q.(senders := q.senders[1..], wokenSenders := q.wokenSenders + [q.senders[0]])
  }

  function TakeFree(q: Queue, message: Bytes, urgent: bool): Queue
    requires q.free != []
  {
    q.(free := q.free[1..], sending := q.sending + [Send(q.free[0], message, 0, urgent)])
  }

  /** The region at the head of rt_mq_send_wait, on entry and again after each wake-up. */
  function TrySend(q: Queue, w: Waiter<Bytes>, mayWait: bool): Queue {
    if q.free != [] then TakeFree(q, w.call, false)
    else if mayWait then q.(senders := Joined(q.senders, w, q.flag))
    else q
  }

  function CopyIn(q: Queue, i: nat): Queue
    requires i < |q.sending| && var c := q.sending[i];
      c.copied < |c.message| && c.slot < |q.data| && c.copied < |q.data[c.slot]|
  {
    var c := q.sending[i];
    q.(data := q.data[c.slot := q.data[c.slot][c.copied := c.message[c.copied]]],
       sending := q.sending[i := c.(copied := c.copied + 1)])
  }

  function Stamped(q: Queue, c: Send): Letter {
    Letter(c.message, c.urgent, q.stamps)
  }

  /** The second region of rt_mq_send_wait and rt_mq_urgent. */
  function Publish(q: Queue, i: nat): Queue
    requires i < |q.sending|
  {
    var c := q.sending[i];
    var linked := q.(
      sending := Without(q.sending, i),
      queue := if c.urgent then [c.slot] + q.queue else q.queue + [c.slot],
      letters := if c.urgent then [Stamped(q, c)] + q.letters else q.letters + [Stamped(q, c)],
      stamps := q.stamps + 1);
    if q.entry < ENTRY_MAX then WakeReceiver(linked.(entry := q.entry + 1)) else linked
  }

  function TakeHead(q: Queue, want: nat): Queue
    requires q.queue != [] && q.letters != []
  {
    q.(queue := q.queue[1..], letters := q.letters[1..],
       entry := if q.entry > 0 then q.entry - 1 else 0,
       receiving := q.receiving + [Receive(q.queue[0], want, q.letters[0].bytes, [])])
  }

  /** The region at the head of rt_mq_recv, on entry and again after each wake-up. */
  function TryReceive(q: Queue, w: Waiter<nat>, mayWait: bool): Queue
    requires q.entry > 0 ==> q.queue != [] && q.letters != []
  {
    if q.entry > 0 then TakeHead(q, w.call)
    else if mayWait then q.(receivers := Joined(q.receivers, w, q.flag))
    else q
  }

  /** How much rt_mq_recv copies. */
  function Length(q: Queue, want: nat): nat {
    if want > q.msgSize then q.msgSize else want
  }

  function CopyOut(q: Queue, i: nat): Queue
    requires i < |q.receiving| && var c := q.receiving[i]; c.slot < |q.data| && |c.got| < |q.data[c.slot]|
  {
    var c := q.receiving[i];
    q.(receiving := q.receiving[i := c.(got := c.got + [q.data[c.slot][|c.got|]])])
  }

  /** The last region of rt_mq_recv. */
  function Release(q: Queue, i: nat): Queue
    requires i < |q.receiving|
  {
    WakeSender(q.(receiving := Without(q.receiving, i), free := [q.receiving[i].slot] + q.free))
  }

  /** rt_mq_control with RT_IPC_CMD_RESET */
  function Reset(q: Queue): Queue {
    q.(receivers := [], senders := [], free := Reversed(q.queue) + q.free, queue := [], letters := [], entry := 0)
  }

  datatype Event =
    | SendEnter(w: Waiter<Bytes>, mayWait: bool)
    | SendRetry(i: nat, mayWait: bool)
    | UrgentEnter(message: Bytes)
    | CopiesIn(i: nat)
    | Publishes(i: nat)
    | ReceiveEnter(r: Waiter<nat>, mayWait: bool)
    | ReceiveRetry(i: nat, mayWait: bool)
    | CopiesOut(i: nat)
    | Releases(i: nat)
    | SenderTimeout(i: nat)
    | ReceiverTimeout(i: nat)
    | SenderResumed(i: nat)
    | ReceiverResumed(i: nat)
    | Resets

  /** What the program and the clock may do next. */
  predicate Enabled(q: Queue, e: Event) {
    match e
    case SendRetry(i, _) => i < |q.wokenSenders|
    case CopiesIn(i) => i < |q.sending| && q.sending[i].copied < |q.sending[i].message|
    case Publishes(i) => i < |q.sending| && q.sending[i].copied == |q.sending[i].message|
    case ReceiveRetry(i, _) => i < |q.wokenReceivers|
    case CopiesOut(i) => i < |q.receiving| && |q.receiving[i].got| < Length(q, q.receiving[i].want)
    case Releases(i) => i < |q.receiving| && |q.receiving[i].got| == Length(q, q.receiving[i].want)
    case SenderTimeout(i) => i < |q.senders|
    case SenderResumed(i) => i < |q.senders|
    case ReceiverTimeout(i) => i < |q.receivers|
    case ReceiverResumed(i) => i < |q.receivers|
    case _ => true
  }

  /** The step dereferences no bad slot: a copy stays inside its slot, and the queue
      has a head whenever it counts an entry. */
  predicate Defined(q: Queue, e: Event) {
    match e
    case CopiesIn(i) => Enabled(q, e) ==> var c := q.sending[i];
      c.slot < |q.data| && c.copied < |q.data[c.slot]|
    case CopiesOut(i) => Enabled(q, e) ==> var c := q.receiving[i];
      c.slot < |q.data| && |c.got| < |q.data[c.slot]|
    case ReceiveEnter(_, _) => q.entry > 0 ==> q.queue != [] && q.letters != []
    case ReceiveRetry(_, _) => q.entry > 0 ==> q.queue != [] && q.letters != []
    case _ => true
  }

  function Next(q: Queue, e: Event): Queue
    requires Enabled(q, e) && Defined(q, e)
  {
    match e
    case SendEnter(w, mayWait) => if |w.call| > q.msgSize then q else TrySend(q, w, mayWait)
    case SendRetry(i, mayWait) =>
      TrySend(q.(wokenSenders := Without(q.wokenSenders, i)), q.wokenSenders[i], mayWait)
    case UrgentEnter(message) =>
      if |message| > q.msgSize || q.free == [] then q else TakeFree(q, message, true)
    case CopiesIn(i) => CopyIn(q, i)
    case Publishes(i) => Publish(q, i)
    case ReceiveEnter(w, mayWait) => TryReceive(q, w, mayWait)
    case ReceiveRetry(i, mayWait) =>
      TryReceive(q.(wokenReceivers := Without(q.wokenReceivers, i)), q.wokenReceivers[i], mayWait)
    case CopiesOut(i) => CopyOut(q, i)
    case Releases(i) => Release(q, i)
    case SenderTimeout(i) => q.(senders := Without(q.senders, i))
    case ReceiverTimeout(i) => q.(receivers := Without(q.receivers, i))
    case SenderResumed(i) =>
      q.(senders := Without(q.senders, i), wokenSenders := q.wokenSenders + [q.senders[i]])
    case ReceiverResumed(i) =>
      q.(receivers := Without(q.receivers, i), wokenReceivers := q.wokenReceivers + [q.receivers[i]])
    case Resets => Reset(q)
  }

  // ----- The invariant

  ghost function SendSlots(xs: seq<Send>): seq<nat> {
    seq(|xs|, i requires 0 <= i < |xs| => xs[i].slot)
  }

  ghost function ReceiveSlots(xs: seq<Receive>): seq<nat> {
    seq(|xs|, i requires 0 <= i < |xs| => xs[i].slot)
  }

  /** Every slot is in exactly one place: free, queued, or owned by one call. */
  ghost predicate Partition(n: nat, free: seq<nat>, queue: seq<nat>, sending: seq<nat>, receiving: seq<nat>) {
    forall x: nat :: multiset(free)[x] + multiset(queue)[x] + multiset(sending)[x] + multiset(receiving)[x] == One(n, x)
  }

  ghost function One(n: nat, x: nat): nat {
    if x < n then 1 else 0
  }

  ghost predicate Slots(n: nat, size: nat, data: seq<Bytes>) {
    |data| == n && forall x | 0 <= x < n :: |data[x]| == size
  }

  ghost predicate Starts(data: seq<Bytes>, x: nat, m: Bytes) {
    x < |data| && m <= data[x]
  }

  /** The queued slots hold the messages that were sent, in order. */
  ghost predicate Carries(data: seq<Bytes>, queue: seq<nat>, letters: seq<Letter>) {
    |letters| == |queue| && forall i | 0 <= i < |queue| :: Starts(data, queue[i], letters[i].bytes)
  }

  /** Letter a is to be received before letter b: urgent ones first, the last sent
      before the others; then the rest as they were sent. */
  predicate Due(a: Letter, b: Letter) {
    if a.urgent then b.urgent ==> b.stamp < a.stamp else !b.urgent && a.stamp < b.stamp
  }

  /** The letters stand in the order in which they are due. */
  ghost predicate InTurn(letters: seq<Letter>, stamps: nat) {
    && (forall i | 0 <= i < |letters| :: letters[i].stamp < stamps)
    && (forall i, j | 0 <= i < j < |letters| :: Due(letters[i], letters[j]))
  }

  ghost predicate Filling(data: seq<Bytes>, size: nat, c: Send) {
    c.copied <= |c.message| <= size && Starts(data, c.slot, c.message[..c.copied])
  }

  ghost predicate Draining(data: seq<Bytes>, size: nat, c: Receive) {
    Starts(data, c.slot, c.message) && Starts(data, c.slot, c.got) && |c.got| <= size && |c.got| <= c.want
  }

  ghost predicate AllFilling(data: seq<Bytes>, size: nat, xs: seq<Send>) {
    forall i | 0 <= i < |xs| :: Filling(data, size, xs[i])
  }

  ghost predicate AllDraining(data: seq<Bytes>, size: nat, xs: seq<Receive>) {
    forall i | 0 <= i < |xs| :: Draining(data, size, xs[i])
  }

  ghost predicate Fit(size: nat, ws: seq<Waiter<Bytes>>) {
    forall i | 0 <= i < |ws| :: |ws[i].call| <= size
  }

  /** Nothing is lost, shared or overwritten. */
  ghost predicate Sound(q: Queue) {
    && |q.data| <= ENTRY_MAX
    && Slots(|q.data|, q.msgSize, q.data)
    && Partition(|q.data|, q.free, q.queue, SendSlots(q.sending), ReceiveSlots(q.receiving))
    && q.entry == |q.queue|
    && Carries(q.data, q.queue, q.letters)
    && InTurn(q.letters, q.stamps)
    && AllFilling(q.data, q.msgSize, q.sending)
    && AllDraining(q.data, q.msgSize, q.receiving)
    && Fit(q.msgSize, q.senders) && Fit(q.msgSize, q.wokenSenders)
  }

  ghost predicate Inv(q: Queue) {
    && Sound(q)
    && NotStranded(|q.queue|, |q.receivers|, |q.wokenReceivers|)
    && NotStranded(|q.free|, |q.senders|, |q.wokenSenders|)
  }

  // ----- Slots move, and are never lost or shared

  lemma Moved(n: nat, a: seq<nat>, b: seq<nat>, c: seq<nat>, d: seq<nat>, a': seq<nat>, b': seq<nat>, c': seq<nat>, d': seq<nat>)
    requires Partition(n, a, b, c, d)
    requires multiset(a) + multiset(b) + multiset(c) + multiset(d) == multiset(a') + multiset(b') + multiset(c') + multiset(d')
    ensures Partition(n, a', b', c', d')
  {
    var all, all' := multiset(a) + multiset(b) + multiset(c) + multiset(d), multiset(a') + multiset(b') + multiset(c') + multiset(d');
    forall x: nat
      ensures multiset(a')[x] + multiset(b')[x] + multiset(c')[x] + multiset(d')[x] == One(n, x)
    {
      assert all[x] == all'[x];
    }
  }

  lemma HeadMembers(s: seq<nat>)
    requires s != []
    ensures multiset(s) == multiset{s[0]} + multiset(s[1..])
  {
    assert s == [s[0]] + s[1..];
  }

  lemma FreeToSending(n: nat, free: seq<nat>, queue: seq<nat>, sending: seq<nat>, receiving: seq<nat>)
    requires Partition(n, free, queue, sending, receiving) && free != []
    ensures Partition(n, free[1..], queue, sending + [free[0]], receiving)
  {
    HeadMembers(free);
    Moved(n, free, queue, sending, receiving, free[1..], queue, sending + [free[0]], receiving);
  }

  lemma SendingToQueue(n: nat, free: seq<nat>, queue: seq<nat>, sending: seq<nat>, receiving: seq<nat>, i: nat, queue': seq<nat>)
    requires Partition(n, free, queue, sending, receiving) && i < |sending|
    requires queue' == queue + [sending[i]] || queue' == [sending[i]] + queue
    ensures Partition(n, free, queue', Without(sending, i), receiving)
  {
    WithoutMembers(sending, i);
    Moved(n, free, queue, sending, receiving, free, queue', Without(sending, i), receiving);
  }

  lemma QueueToReceiving(n: nat, free: seq<nat>, queue: seq<nat>, sending: seq<nat>, receiving: seq<nat>)
    requires Partition(n, free, queue, sending, receiving) && queue != []
    ensures Partition(n, free, queue[1..], sending, receiving + [queue[0]])
  {
    HeadMembers(queue);
    Moved(n, free, queue, sending, receiving, free, queue[1..], sending, receiving + [queue[0]]);
  }

  lemma ReceivingToFree(n: nat, free: seq<nat>, queue: seq<nat>, sending: seq<nat>, receiving: seq<nat>, i: nat)
    requires Partition(n, free, queue, sending, receiving) && i < |receiving|
    ensures Partition(n, [receiving[i]] + free, queue, sending, Without(receiving, i))
  {
    WithoutMembers(receiving, i);
    Moved(n, free, queue, sending, receiving, [receiving[i]] + free, queue, sending, Without(receiving, i));
  }

  /** A slot a sender owns is in no other hands. */
  lemma OwnedAlone(n: nat, free: seq<nat>, queue: seq<nat>, sending: seq<nat>, receiving: seq<nat>, i: nat)
    requires Partition(n, free, queue, sending, receiving) && i < |sending|
    ensures var x := sending[i];
      x < n && x !in free && x !in queue && x !in receiving && forall j | 0 <= j < |sending| && j != i :: sending[j] != x
  {
    var x := sending[i];
    assert x in multiset(sending) && One(n, x) <= 1;
    assert x in free ==> x in multiset(free);
    assert x in queue ==> x in multiset(queue);
    assert x in receiving ==> x in multiset(receiving);
    forall j | 0 <= j < |sending| && j != i
      ensures sending[j] != x
    {
      WithoutMembers(sending, i);
      var rest := Without(sending, i);
      assert rest[if j < i then j else j - 1] in multiset(rest);
    }
  }

  /** Nor is a slot a receiver owns. */
  lemma ReceivedAlone(n: nat, free: seq<nat>, queue: seq<nat>, sending: seq<nat>, receiving: seq<nat>, i: nat)
    requires Partition(n, free, queue, sending, receiving) && i < |receiving|
    ensures var x := receiving[i]; x < n && x !in free && x !in queue && x !in sending
  {
    var x := receiving[i];
    assert x in multiset(receiving) && One(n, x) <= 1;
    assert x in free ==> x in multiset(free);
    assert x in queue ==> x in multiset(queue);
    assert x in sending ==> x in multiset(sending);
  }

  /** Slots below n are all that is ever handed out, and there are n of them. */
  lemma Size(n: nat, free: seq<nat>, queue: seq<nat>, sending: seq<nat>, receiving: seq<nat>)
    requires Partition(n, free, queue, sending, receiving)
    ensures |free| + |queue| + |sending| + |receiving| == n
  {
    var all := multiset(free) + multiset(queue) + multiset(sending) + multiset(receiving);
    var whole := seq(n, i => i);
    forall x: nat
      ensures all[x] == multiset(whole)[x]
    {
      CountBelow(n, x);
    }
    assert all == multiset(whole);
    assert |all| == |whole|;
  }

  lemma {:induction false} CountBelow(n: nat, x: nat)
    ensures multiset(seq<nat>(n, i => i))[x] == One(n, x)
  {
    if n > 0 {
      CountBelow(n - 1, x);
      assert seq<nat>(n, i => i) == seq<nat>(n - 1, i => i) + [n - 1];
    }
  }

  lemma SendSlotsAdd(xs: seq<Send>, c: Send)
    ensures SendSlots(xs + [c]) == SendSlots(xs) + [c.slot]
  {
  }

  lemma ReceiveSlotsAdd(xs: seq<Receive>, c: Receive)
    ensures ReceiveSlots(xs + [c]) == ReceiveSlots(xs) + [c.slot]
  {
  }

  lemma SendSlotsWithout(xs: seq<Send>, i: nat)
    requires i < |xs|
    ensures |SendSlots(xs)| == |xs| && SendSlots(Without(xs, i)) == Without(SendSlots(xs), i) && SendSlots(xs)[i] == xs[i].slot
  {
  }

  lemma ReceiveSlotsWithout(xs: seq<Receive>, i: nat)
    requires i < |xs|
    ensures ReceiveSlots(Without(xs, i)) == Without(ReceiveSlots(xs), i) && ReceiveSlots(xs)[i] == xs[i].slot
  {
  }

  // ----- Every step keeps the invariant

  lemma TakeFreeKeeps(q: Queue, message: Bytes, urgent: bool)
    requires Inv(q) && q.free != [] && |message| <= q.msgSize
    ensures Inv(TakeFree(q, message, urgent))
  {
    var c := Send(q.free[0], message, 0, urgent);
    SendSlotsAdd(q.sending, c);
    var sending, receiving := SendSlots(q.sending), ReceiveSlots(q.receiving);
    FreeToSending(|q.data|, q.free, q.queue, sending, receiving);
    OwnedAlone(|q.data|, q.free[1..], q.queue, sending + [q.free[0]], receiving, |sending|);
    assert Filling(q.data, q.msgSize, c);
  }

  lemma JoinedFits(size: nat, ws: seq<Waiter<Bytes>>, w: Waiter<Bytes>, flag: Flag)
    requires Fit(size, ws) && |w.call| <= size
    ensures Fit(size, Joined(ws, w, flag))
  {
  }

  lemma TrySendKeeps(q: Queue, w: Waiter<Bytes>, mayWait: bool)
    requires Inv(q) && |w.call| <= q.msgSize
    ensures Inv(TrySend(q, w, mayWait))
  {
    if q.free != [] {
      TakeFreeKeeps(q, w.call, false);
    } else {
      JoinedFits(q.msgSize, q.senders, w, q.flag);
    }
  }

  lemma TakeHeadKeeps(q: Queue, want: nat)
    requires Inv(q) && q.entry > 0
    ensures Inv(TakeHead(q, want))
  {
    var c := Receive(q.queue[0], want, q.letters[0].bytes, []);
    ReceiveSlotsAdd(q.receiving, c);
    QueueToReceiving(|q.data|, q.free, q.queue, SendSlots(q.sending), ReceiveSlots(q.receiving));
    assert Starts(q.data, q.queue[0], q.letters[0].bytes);
    assert Draining(q.data, q.msgSize, c);
  }

  lemma TryReceiveKeeps(q: Queue, w: Waiter<nat>, mayWait: bool)
    requires Inv(q)
    ensures Inv(TryReceive(q, w, mayWait))
  {
    if q.entry > 0 {
      TakeHeadKeeps(q, w.call);
    }
  }

  /** The queue is never too full to count: the overflow return is never taken. */
  lemma PublishCounts(q: Queue, i: nat)
    requires Inv(q) && i < |q.sending|
    ensures q.entry < ENTRY_MAX
  {
    Size(|q.data|, q.free, q.queue, SendSlots(q.sending), ReceiveSlots(q.receiving));
  }

  lemma WakeReceiverKeeps(q: Queue)
    requires Sound(q)
    ensures Sound(WakeReceiver(q))
  {
  }

  lemma WakeSenderKeeps(q: Queue)
    requires Sound(q)
    ensures Sound(WakeSender(q))
  {
  }

  lemma PublishLinks(data: seq<Bytes>, size: nat, c: Send, queue: seq<nat>, letters: seq<Letter>, l: Letter)
    requires Filling(data, size, c) && c.copied == |c.message| && Carries(data, queue, letters) && l.bytes == c.message
    ensures Carries(data, [c.slot] + queue, [l] + letters)
    ensures Carries(data, queue + [c.slot], letters + [l])
  {
    assert c.message[..c.copied] == c.message;
  }

  lemma StampedIsInTurn(letters: seq<Letter>, stamps: nat, l: Letter)
    requires InTurn(letters, stamps) && l.stamp == stamps
    ensures l.urgent ==> InTurn([l] + letters, stamps + 1)
    ensures !l.urgent ==> InTurn(letters + [l], stamps + 1)
  {
  }

  lemma PublishKeeps(q: Queue, i: nat)
    requires Inv(q) && Enabled(q, Publishes(i))
    ensures Inv(Publish(q, i))
  {
    hide InTurn, Carries, Partition, AllDraining, Fit, Slots, SendSlots, ReceiveSlots, Filling;
    PublishCounts(q, i);
    var c := q.sending[i];
    var queue := if c.urgent then [c.slot] + q.queue else q.queue + [c.slot];
    var l := Stamped(q, c);
    var letters := if c.urgent then [l] + q.letters else q.letters + [l];
    StampedIsInTurn(q.letters, q.stamps, l);
    SendSlotsWithout(q.sending, i);
    SendingToQueue(|q.data|, q.free, q.queue, SendSlots(q.sending), ReceiveSlots(q.receiving), i, queue);
    PublishLinks(q.data, q.msgSize, c, q.queue, q.letters, l);
    WakeReceiverKeeps(q.(sending := Without(q.sending, i), queue := queue, letters := letters, stamps := q.stamps + 1, entry := q.entry + 1));
  }

  lemma ReleaseKeeps(q: Queue, i: nat)
    requires Inv(q) && i < |q.receiving|
    ensures Inv(Release(q, i))
  {
    ReceiveSlotsWithout(q.receiving, i);
    ReceivingToFree(|q.data|, q.free, q.queue, SendSlots(q.sending), ReceiveSlots(q.receiving), i);
    WakeSenderKeeps(q.(receiving := Without(q.receiving, i), free := [q.receiving[i].slot] + q.free));
  }

  lemma CopyOutKeeps(q: Queue, i: nat)
    requires Inv(q) && Enabled(q, CopiesOut(i))
    ensures q.receiving[i].slot < |q.data| && |q.receiving[i].got| < |q.data[q.receiving[i].slot]|
    ensures Inv(CopyOut(q, i))
  {
    var c := q.receiving[i];
    assert Draining(q.data, q.msgSize, c);
    var c' := c.(got := c.got + [q.data[c.slot][|c.got|]]);
    assert Draining(q.data, q.msgSize, c');
    assert ReceiveSlots(q.receiving[i := c']) == ReceiveSlots(q.receiving);
  }

  lemma ResetKeeps(q: Queue)
    requires Inv(q)
    ensures Inv(Reset(q))
  {
    var sending, receiving := SendSlots(q.sending), ReceiveSlots(q.receiving);
    Moved(|q.data|, q.free, q.queue, sending, receiving, Reversed(q.queue) + q.free, [], sending, receiving);
  }

  /** Writing into one slot does not show in another. */
  lemma WriteShowsHere(data: seq<Bytes>, x: nat, row: Bytes, y: nat, m: Bytes)
    requires x < |data| && y != x
    ensures Starts(data[x := row], y, m) <==> Starts(data, y, m)
  {
  }

  lemma QueueUntouched(data: seq<Bytes>, x: nat, row: Bytes, queue: seq<nat>, letters: seq<Letter>)
    requires Carries(data, queue, letters) && x < |data| && x !in queue
    ensures Carries(data[x := row], queue, letters)
  {
    forall k | 0 <= k < |queue|
      ensures Starts(data[x := row], queue[k], letters[k].bytes)
    {
      WriteShowsHere(data, x, row, queue[k], letters[k].bytes);
    }
  }

  lemma ReceiversUntouched(data: seq<Bytes>, size: nat, x: nat, row: Bytes, receiving: seq<Receive>)
    requires AllDraining(data, size, receiving) && x < |data| && x !in ReceiveSlots(receiving)
    ensures AllDraining(data[x := row], size, receiving)
  {
    forall k | 0 <= k < |receiving|
      ensures Draining(data[x := row], size, receiving[k])
    {
      var c := receiving[k];
      assert ReceiveSlots(receiving)[k] == c.slot;
      assert Draining(data, size, c);
      WriteShowsHere(data, x, row, c.slot, c.message);
      WriteShowsHere(data, x, row, c.slot, c.got);
    }
  }

  lemma CopyInFills(data: seq<Bytes>, size: nat, c: Send)
    requires Filling(data, size, c) && c.copied < |c.message| && Slots(|data|, size, data)
    ensures var row := data[c.slot][c.copied := c.message[c.copied]];
      Filling(data[c.slot := row], size, c.(copied := c.copied + 1))
  {
  }

  lemma SendersAdvance(data: seq<Bytes>, size: nat, sending: seq<Send>, i: nat)
    requires AllFilling(data, size, sending) && i < |sending| && sending[i].copied < |sending[i].message|
    requires forall j | 0 <= j < |sending| && j != i :: SendSlots(sending)[j] != sending[i].slot
    requires Slots(|data|, size, data) && sending[i].slot < |data|
    ensures var c := sending[i];
      AllFilling(data[c.slot := data[c.slot][c.copied := c.message[c.copied]]], size, sending[i := c.(copied := c.copied + 1)])
  {
    var c := sending[i];
    var row := data[c.slot][c.copied := c.message[c.copied]];
    var sending' := sending[i := c.(copied := c.copied + 1)];
    forall k | 0 <= k < |sending'|
      ensures Filling(data[c.slot := row], size, sending'[k])
    {
      assert Filling(data, size, sending[k]);
      if k == i {
        CopyInFills(data, size, c);
      } else {
        assert SendSlots(sending)[k] == sending[k].slot;
        WriteShowsHere(data, c.slot, row, sending[k].slot, sending[k].message[..sending[k].copied]);
      }
    }
  }

  lemma CopyInKeeps(q: Queue, i: nat)
    requires Inv(q) && Enabled(q, CopiesIn(i))
    ensures q.sending[i].slot < |q.data| && q.sending[i].copied < |q.data[q.sending[i].slot]|
    ensures Inv(CopyIn(q, i))
  {
    hide InTurn, Carries, Partition, AllDraining, Fit;
    var c := q.sending[i];
    assert Filling(q.data, q.msgSize, c);
    var row := q.data[c.slot][c.copied := c.message[c.copied]];
    SendSlotsWithout(q.sending, i);
    OwnedAlone(|q.data|, q.free, q.queue, SendSlots(q.sending), ReceiveSlots(q.receiving), i);
    QueueUntouched(q.data, c.slot, row, q.queue, q.letters);
    ReceiversUntouched(q.data, q.msgSize, c.slot, row, q.receiving);
    SendersAdvance(q.data, q.msgSize, q.sending, i);
    assert SendSlots(q.sending[i := c.(copied := c.copied + 1)]) == SendSlots(q.sending);
  }

  lemma WaitersKeep(q: Queue, e: Event)
    requires Inv(q) && Enabled(q, e)
    requires e.SenderTimeout? || e.ReceiverTimeout? || e.SenderResumed? || e.ReceiverResumed?
    ensures Inv(Next(q, e))
  {
    hide InTurn, Carries, Partition, Slots, AllFilling, AllDraining, SendSlots, ReceiveSlots;
  }

  lemma SendRetryKeeps(q: Queue, i: nat, mayWait: bool)
    requires Inv(q) && i < |q.wokenSenders|
    ensures Inv(TrySend(q.(wokenSenders := Without(q.wokenSenders, i)), q.wokenSenders[i], mayWait))
  {
    var w, p := q.wokenSenders[i], q.(wokenSenders := Without(q.wokenSenders, i));
    if q.free != [] {
      TakeFreeKeeps(q, w.call, false);
    } else {
      JoinedFits(q.msgSize, q.senders, w, q.flag);
    }
  }

  lemma ReceiveRetryKeeps(q: Queue, i: nat, mayWait: bool)
    requires Inv(q) && i < |q.wokenReceivers|
    ensures Inv(TryReceive(q.(wokenReceivers := Without(q.wokenReceivers, i)), q.wokenReceivers[i], mayWait))
  {
    if q.entry > 0 {
      TakeHeadKeeps(q, q.wokenReceivers[i].call);
    }
  }

  lemma NextKeeps(q: Queue, e: Event)
    requires Inv(q) && Enabled(q, e)
    ensures Defined(q, e) && Inv(Next(q, e))
  {
    match e
    case SendEnter(w, mayWait) => if |w.call| <= q.msgSize { TrySendKeeps(q, w, mayWait); }
    case SendRetry(i, mayWait) => SendRetryKeeps(q, i, mayWait);
    case UrgentEnter(message) => if |message| <= q.msgSize && q.free != [] { TakeFreeKeeps(q, message, true); }
    case CopiesIn(i) => CopyInKeeps(q, i);
    case Publishes(i) => PublishKeeps(q, i);
    case ReceiveEnter(w, mayWait) => TryReceiveKeeps(q, w, mayWait);
    case ReceiveRetry(i, mayWait) => ReceiveRetryKeeps(q, i, mayWait);
    case CopiesOut(i) => CopyOutKeeps(q, i);
    case Releases(i) => ReleaseKeeps(q, i);
    case Resets => ResetKeeps(q);
    case _ => WaitersKeep(q, e);
  }

  // ----- Whole runs

  /** rt_mq_init: the slots are pushed on the free list in address order. */
  function Initial(size: nat, flag: Flag, data: seq<Bytes>): Queue {
    Queue(size, flag, data, Countdown(|data|), [], 0, [], [], [], [], [], [], [], 0)
  }

  function Countdown(n: nat): (r: seq<nat>)
    ensures |r| == n
  {
    if n == 0 then [] else [n - 1] + Countdown(n - 1)
  }

  lemma {:induction false} CountdownMembers(n: nat, x: nat)
    ensures multiset(Countdown(n))[x] == One(n, x)
  {
    if n > 0 {
      CountdownMembers(n - 1, x);
    }
  }

  lemma InitialInv(size: nat, flag: Flag, data: seq<Bytes>)
    requires |data| <= ENTRY_MAX && Slots(|data|, size, data)
    ensures Inv(Initial(size, flag, data))
  {
    forall x: nat
      ensures multiset(Countdown(|data|))[x] == One(|data|, x)
    {
      CountdownMembers(|data|, x);
    }
    var none: seq<nat> := [];
    assert SendSlots([]) == none && ReceiveSlots([]) == none;
    assert Partition(|data|, Countdown(|data|), none, none, none);
  }

  /** Any interleaving of calls, copies, timeouts, resumptions and resets.  After a step
      that is not defined anything could happen. */
  ghost predicate Run(states: seq<Queue>, events: seq<Event>) {
    && |states| == |events| + 1
    && (exists data: seq<Bytes>, flag: Flag, size: nat | |data| <= ENTRY_MAX && Slots(|data|, size, data) ::
          states[0] == Initial(size, flag, data))
    && forall k | 0 <= k < |events| :: Step(states[k], events[k], states[k + 1])
  }

  ghost predicate Step(q: Queue, e: Event, q': Queue) {
    Enabled(q, e) && (Defined(q, e) ==> q' == Next(q, e))
  }

  /** In every state of every run the slots are partitioned, `entry` counts the queue,
      held and queued bytes are intact and nobody waits for what is there to be had;
      and no step is undefined or reaches an overflow return. */
  lemma {:induction false} RunsAreSafe(states: seq<Queue>, events: seq<Event>, k: nat)
    requires Run(states, events) && k <= |events|
    ensures Inv(states[k])
    ensures k < |events| ==> Defined(states[k], events[k])
    ensures k < |events| && events[k].Publishes? ==> states[k].entry < ENTRY_MAX
  {
    if k == 0 {
      var data: seq<Bytes>, flag: Flag, size: nat :|
        |data| <= ENTRY_MAX && Slots(|data|, size, data) && states[0] == Initial(size, flag, data);
      InitialInv(size, flag, data);
    } else {
      RunsAreSafe(states, events, k - 1);
      assert Step(states[k - 1], events[k - 1], states[k]);
      NextKeeps(states[k - 1], events[k - 1]);
    }
    if k < |events| {
      assert Step(states[k], events[k], states[k + 1]);
      NextKeeps(states[k], events[k]);
      if events[k].Publishes? {
        PublishCounts(states[k], events[k].i);
      }
    }
  }

  /** No lost wake-up: in every state of every run, while a receiver is suspended each
      queued message is matched by a receiver already woken for it, and while a sender
      is suspended so is each free slot; the slots in use are all accounted for. */
  lemma NobodyIsStranded(states: seq<Queue>, events: seq<Event>, k: nat)
    requires Run(states, events) && k <= |events|
    ensures var q := states[k];
      (q.receivers != [] ==> |q.queue| <= |q.wokenReceivers|) &&
      (q.senders != [] ==> |q.free| <= |q.wokenSenders|) &&
      q.entry == |q.queue| && |q.free| + |q.queue| + |q.sending| + |q.receiving| == |q.data|
  {
    RunsAreSafe(states, events, k);
    var q := states[k];
    Size(|q.data|, q.free, q.queue, SendSlots(q.sending), ReceiveSlots(q.receiving));
  }

  // ----- What becomes of a call

  /** In every run: a send of a message that fits gets the first free slot if there is one,
      waits if there is none and it may, and else leaves everything as it was; one that
      does not fit always does.  An urgent send never waits. */
  lemma SendsProceedOrWait(states: seq<Queue>, events: seq<Event>, k: nat)
    requires Run(states, events) && k < |events|
    ensures var q, q' := states[k], states[k + 1];
      match events[k]
      case SendEnter(w, mayWait) =>
        var fits := |w.call| <= q.msgSize;
        && q'.sending == q.sending + (if fits && q.free != [] then [Send(q.free[0], w.call, 0, false)] else [])
        && q'.senders == (if fits && q.free == [] && mayWait then Joined(q.senders, w, q.flag) else q.senders)
        && (q' == q <==> !fits || (q.free == [] && !mayWait))
      case UrgentEnter(message) =>
        var served := |message| <= q.msgSize && q.free != [];
        && q'.sending == q.sending + (if served then [Send(q.free[0], message, 0, true)] else [])
        && q'.senders == q.senders && (q' == q <==> !served)
      case SendRetry(i, mayWait) =>
        && i < |q.wokenSenders|
        && var w := q.wokenSenders[i];
        && q'.sending == q.sending + (if q.free != [] then [Send(q.free[0], w.call, 0, false)] else [])
        && q'.senders == (if q.free == [] && mayWait then Joined(q.senders, w, q.flag) else q.senders)
        && q'.wokenSenders == Without(q.wokenSenders, i)
      case _ => |q'.sending| <= |q.sending| && |q'.senders| <= |q.senders|
  {
    RunsAreSafe(states, events, k);
    hide Inv;
    assert Step(states[k], events[k], states[k + 1]);
  }

  /** In every run: a receive takes the first message if there is one, with as much of it
      as the caller asked for to come, waits if there is none and it may, and else leaves
      everything as it was. */
  lemma ReceivesProceedOrWait(states: seq<Queue>, events: seq<Event>, k: nat)
    requires Run(states, events) && k < |events|
    ensures var q, q' := states[k], states[k + 1];
      |q.letters| == |q.queue| &&
      match events[k]
      case ReceiveEnter(w, mayWait) =>
        && q'.receiving == q.receiving + (if q.queue != [] then [Receive(q.queue[0], w.call, q.letters[0].bytes, [])] else [])
        && q'.receivers == (if q.queue == [] && mayWait then Joined(q.receivers, w, q.flag) else q.receivers)
        && (q' == q <==> q.queue == [] && !mayWait)
      case ReceiveRetry(i, mayWait) =>
        && i < |q.wokenReceivers|
        && var w := q.wokenReceivers[i];
        && q'.receiving == q.receiving + (if q.queue != [] then [Receive(q.queue[0], w.call, q.letters[0].bytes, [])] else [])
        && q'.receivers == (if q.queue == [] && mayWait then Joined(q.receivers, w, q.flag) else q.receivers)
        && q'.wokenReceivers == Without(q.wokenReceivers, i)
      case _ => |q'.receiving| <= |q.receiving| && |q'.receivers| <= |q.receivers|
  {
    RunsAreSafe(states, events, k);
    hide Partition, InTurn, Slots, AllFilling, AllDraining, Fit;
    assert Step(states[k], events[k], states[k + 1]);
  }

  /** In every run: what is published is the message the send came with, whole, at the
      head of the queue if it was urgent and else at its end. */
  lemma PublishesTheMessage(states: seq<Queue>, events: seq<Event>, k: nat)
    requires Run(states, events) && k < |events| && events[k].Publishes?
    ensures events[k].i < |states[k].sending|
    ensures var q, q', c := states[k], states[k + 1], states[k].sending[events[k].i];
      && c.copied == |c.message| && c.slot < |q.data| && c.message <= q.data[c.slot]
      && var letter := Letter(c.message, c.urgent, q.stamps);
      && q'.letters == (if c.urgent then [letter] + q.letters else q.letters + [letter])
      && q'.queue == (if c.urgent then [c.slot] + q.queue else q.queue + [c.slot])
  {
    RunsAreSafe(states, events, k);
    hide Partition, InTurn, Slots, AllDraining, Fit, Carries;
    assert Step(states[k], events[k], states[k + 1]);
    var q := states[k];
    var c := q.sending[events[k].i];
    assert Filling(q.data, q.msgSize, c);
    assert c.message[..c.copied] == c.message;
  }

  /** In every run: whoever publishes a message wakes the first receiver waiting, and
      whoever gives a slot back the first sender; no other step of a call wakes anybody, and
      after a reset nothing is queued and nobody waits. */
  lemma WakesTheFirst(states: seq<Queue>, events: seq<Event>, k: nat)
    requires Run(states, events) && k < |events|
    ensures var q, q', e := states[k], states[k + 1], events[k];
      && (e.Publishes? && q.receivers != [] ==>
            q'.wokenReceivers == q.wokenReceivers + [q.receivers[0]] && q'.receivers == q.receivers[1..])
      && (e.Releases? && q.senders != [] ==>
            q'.wokenSenders == q.wokenSenders + [q.senders[0]] && q'.senders == q.senders[1..])
      && (|q'.wokenReceivers| > |q.wokenReceivers| <==> (e.Publishes? && q.receivers != []) || e.ReceiverResumed?)
      && (|q'.wokenSenders| > |q.wokenSenders| <==> (e.Releases? && q.senders != []) || e.SenderResumed?)
      && (e.Resets? ==> q'.queue == [] && q'.senders == [] && q'.receivers == [])
  {
    RunsAreSafe(states, events, k);
    hide Inv;
    assert Step(states[k], events[k], states[k + 1]);
  }

  lemma SendersStay(q: Queue, e: Event, w: Waiter<Bytes>)
    requires Enabled(q, e) && Defined(q, e) && w in q.senders
    ensures w in Next(q, e).senders || w in Next(q, e).wokenSenders || e.Resets? || (e.SenderTimeout? && q.senders[e.i] == w)
  {
    match e
    case SendEnter(v, mayWait) => JoinedKeepsMember(q.senders, v, q.flag, w);
    case SendRetry(i, mayWait) => JoinedKeepsMember(q.senders, q.wokenSenders[i], q.flag, w);
    case Releases(i) =>
      if w != q.senders[0] {
        WithoutHasRest(q.senders, 0, w);
      }
    case SenderTimeout(i) =>
      if w != q.senders[i] {
        WithoutHasRest(q.senders, i, w);
      }
    case SenderResumed(i) =>
      if w != q.senders[i] {
        WithoutHasRest(q.senders, i, w);
      }
    case _ =>
  }

  lemma ReceiversStay(q: Queue, e: Event, w: Waiter<nat>)
    requires Enabled(q, e) && Defined(q, e) && w in q.receivers
    ensures w in Next(q, e).receivers || w in Next(q, e).wokenReceivers || e.Resets? || (e.ReceiverTimeout? && q.receivers[e.i] == w)
  {
    match e
    case ReceiveEnter(v, mayWait) => JoinedKeepsMember(q.receivers, v, q.flag, w);
    case ReceiveRetry(i, mayWait) => JoinedKeepsMember(q.receivers, q.wokenReceivers[i], q.flag, w);
    case Publishes(i) =>
      if w != q.receivers[0] {
        WithoutHasRest(q.receivers, 0, w);
      }
    case ReceiverTimeout(i) =>
      if w != q.receivers[i] {
        WithoutHasRest(q.receivers, i, w);
      }
    case ReceiverResumed(i) =>
      if w != q.receivers[i] {
        WithoutHasRest(q.receivers, i, w);
      }
    case _ =>
  }

  /** In every run a thread that waits goes on waiting until it is woken, its own time is
      up, or the queue is reset. */
  lemma NobodyIsDropped(states: seq<Queue>, events: seq<Event>, k: nat, s: Waiter<Bytes>, r: Waiter<nat>)
    requires Run(states, events) && k < |events|
    ensures var q, q', e := states[k], states[k + 1], events[k];
      && (s in q.senders && !e.Resets? && !(e.SenderTimeout? && e.i < |q.senders| && q.senders[e.i] == s) ==>
            s in q'.senders || s in q'.wokenSenders)
      && (r in q.receivers && !e.Resets? && !(e.ReceiverTimeout? && e.i < |q.receivers| && q.receivers[e.i] == r) ==>
            r in q'.receivers || r in q'.wokenReceivers)
  {
    RunsAreSafe(states, events, k);
    hide Inv;
    assert Step(states[k], events[k], states[k + 1]);
    if s in states[k].senders {
      SendersStay(states[k], events[k], s);
    }
    if r in states[k].receivers {
      ReceiversStay(states[k], events[k], r);
    }
  }

  // ----- What is delivered

  lemma NextKeepsSize(q: Queue, e: Event)
    requires Enabled(q, e) && Defined(q, e)
    ensures Next(q, e).msgSize == q.msgSize
  {
  }

  lemma {:induction false} RunsKeepSize(states: seq<Queue>, events: seq<Event>, k: nat)
    requires Run(states, events) && k <= |events|
    ensures states[k].msgSize == states[0].msgSize
  {
    hide Initial, Next, Slots;
    if k > 0 {
      RunsKeepSize(states, events, k - 1);
      RunsAreSafe(states, events, k - 1);
      assert Step(states[k - 1], events[k - 1], states[k]);
      NextKeepsSize(states[k - 1], events[k - 1]);
    }
  }

  /** What a receive hands over when it is done, however other calls were interleaved: as
      many bytes as its buffer has, but at most a slot, which agree with the message its
      slot was sent with as far as both go; so a buffer as long as the message gets the
      whole of it. */
  lemma DeliversTheMessage(states: seq<Queue>, events: seq<Event>, k: nat)
    requires Run(states, events) && k < |events| && events[k].Releases?
    ensures events[k].i < |states[k].receiving|
    ensures var c, size := states[k].receiving[events[k].i], states[0].msgSize;
      && |c.got| == (if c.want < size then c.want else size)
      && |c.message| <= size
      && if |c.message| <= c.want then c.message <= c.got else c.got <= c.message
  {
    RunsAreSafe(states, events, k);
    RunsKeepSize(states, events, k);
    var q := states[k];
    assert Step(q, events[k], states[k + 1]);
    var c := q.receiving[events[k].i];
    assert Draining(q.data, q.msgSize, c);
    assert forall i | 0 <= i < |c.got| && i < |c.message| :: c.got[i] == q.data[c.slot][i] == c.message[i];
  }

  // ----- In which order

  /** The letter a step puts into the queue. */
  function Sent(q: Queue, e: Event): seq<Letter> {
    if e.Publishes? && e.i < |q.sending| then [Stamped(q, q.sending[e.i])] else []
  }

  /** The letter a step takes out of the queue. */
  function Taken(q: Queue, e: Event): seq<Letter> {
    if (e.ReceiveEnter? || e.ReceiveRetry?) && q.entry > 0 && q.letters != [] then [q.letters[0]] else []
  }

  /** The letters sent in the steps from j to k, in the order sent. */
  function SentSince(states: seq<Queue>, events: seq<Event>, j: nat, k: nat): seq<Letter>
    requires j <= k <= |events| < |states|
    decreases k - j
  {
    if k == j then [] else SentSince(states, events, j, k - 1) + Sent(states[k - 1], events[k - 1])
  }

  function TakenSince(states: seq<Queue>, events: seq<Event>, j: nat, k: nat): seq<Letter>
    requires j <= k <= |events| < |states|
    decreases k - j
  {
    if k == j then [] else TakenSince(states, events, j, k - 1) + Taken(states[k - 1], events[k - 1])
  }

  /** A stretch of a run without a reset. */
  ghost predicate Stretch(states: seq<Queue>, events: seq<Event>, j: nat, k: nat) {
    |states| == |events| + 1 && Run(states, events) && j <= k <= |events| && forall i | j <= i < k :: !events[i].Resets?
  }

  /** What a step that sends s or takes t makes of the queued letters. */
  function Rest(letters: seq<Letter>, s: seq<Letter>, t: seq<Letter>): seq<Letter> {
    if t != [] && letters != [] then letters[1..]
    else if s == [] then letters
    else if s[0].urgent then s + letters
    else letters + s
  }

  lemma NextMoves(q: Queue, e: Event)
    requires Inv(q) && Enabled(q, e) && Defined(q, e) && !e.Resets?
    ensures Next(q, e).letters == Rest(q.letters, Sent(q, e), Taken(q, e))
    ensures Taken(q, e) == [] || (q.letters != [] && Taken(q, e) == [q.letters[0]] && Sent(q, e) == [])
  {
    hide Inv, Joined, Without;
  }

  lemma RestKeeps(letters: seq<Letter>, s: seq<Letter>, t: seq<Letter>)
    requires |s| <= 1 && (t == [] || (letters != [] && t == [letters[0]] && s == []))
    ensures multiset(letters) + multiset(s) == multiset(t) + multiset(Rest(letters, s, t))
    ensures Ordinary(letters) + Ordinary(s) == Ordinary(t) + Ordinary(Rest(letters, s, t))
  {
    if t != [] {
      assert letters == t + letters[1..];
      OrdinaryConcat(t, letters[1..]);
    } else if s != [] {
      OrdinaryConcat(s, letters);
      OrdinaryConcat(letters, s);
      assert s[0].urgent ==> Ordinary(s) == [];
    }
  }

  /** The letters that are not urgent. */
  function Ordinary(letters: seq<Letter>): seq<Letter> {
    if letters == [] then []
    else (if letters[0].urgent then [] else [letters[0]]) + Ordinary(letters[1..])
  }

  lemma {:induction false} OrdinaryConcat(a: seq<Letter>, b: seq<Letter>)
    ensures Ordinary(a + b) == Ordinary(a) + Ordinary(b)
  {
    if a == [] {
      assert a + b == b;
    } else {
      assert (a + b)[1..] == a[1..] + b;
      OrdinaryConcat(a[1..], b);
    }
  }

  lemma StepMoves(states: seq<Queue>, events: seq<Event>, k: nat)
    requires Run(states, events) && k < |events| && !events[k].Resets?
    ensures var q, e, q' := states[k], events[k], states[k + 1];
      multiset(q.letters) + multiset(Sent(q, e)) == multiset(Taken(q, e)) + multiset(q'.letters) &&
      Ordinary(q.letters) + Ordinary(Sent(q, e)) == Ordinary(Taken(q, e)) + Ordinary(q'.letters)
  {
    hide Sound;
    var q, e := states[k], events[k];
    RunsAreSafe(states, events, k);
    assert Step(q, e, states[k + 1]);
    NextMoves(q, e);
    RestKeeps(q.letters, Sent(q, e), Taken(q, e));
  }

  /** Nothing lost, nothing doubled: over any stretch without a reset the letters queued
      at its start and those sent are those taken and those queued at its end. */
  lemma {:induction false} RunsConserve(states: seq<Queue>, events: seq<Event>, j: nat, k: nat)
    requires Stretch(states, events, j, k)
    ensures multiset(states[j].letters) + multiset(SentSince(states, events, j, k)) ==
      multiset(TakenSince(states, events, j, k)) + multiset(states[k].letters)
    decreases k - j
  {
    hide Run, Ordinary, Sent, Taken;
    if k > j {
      var q, e := states[k - 1], events[k - 1];
      RunsConserve(states, events, j, k - 1);
      StepMoves(states, events, k - 1);
      ConserveStep(states[j].letters, SentSince(states, events, j, k - 1), TakenSince(states, events, j, k - 1), q.letters,
                   Sent(q, e), Taken(q, e), states[k].letters);
    }
  }

  /** First in, first out: over any stretch without a reset, whatever urgent messages are
      sent meanwhile, the ordinary letters queued at its start and then those sent are
      those taken and then those queued at its end, in that order. */
  lemma {:induction false} RunsAreFifo(states: seq<Queue>, events: seq<Event>, j: nat, k: nat)
    requires Stretch(states, events, j, k)
    ensures Ordinary(states[j].letters) + Ordinary(SentSince(states, events, j, k)) ==
      Ordinary(TakenSince(states, events, j, k)) + Ordinary(states[k].letters)
    decreases k - j
  {
    hide Run, Sent, Taken;
    if k > j {
      var q, e := states[k - 1], events[k - 1];
      RunsAreFifo(states, events, j, k - 1);
      StepMoves(states, events, k - 1);
      OrdinaryConcat(SentSince(states, events, j, k - 1), Sent(q, e));
      OrdinaryConcat(TakenSince(states, events, j, k - 1), Taken(q, e));
      FifoStep(Ordinary(states[j].letters), Ordinary(SentSince(states, events, j, k - 1)),
               Ordinary(TakenSince(states, events, j, k - 1)), Ordinary(q.letters),
               Ordinary(Sent(q, e)), Ordinary(Taken(q, e)), Ordinary(states[k].letters));
    }
  }

  /** In every run a receive takes the letter that is due: the urgent one sent last, and
      if none is urgent the one sent first. */
  lemma TakesWhatIsDue(states: seq<Queue>, events: seq<Event>, k: nat, l: Letter)
    requires Run(states, events) && k < |events| && Taken(states[k], events[k]) != []
    requires l in states[k].letters
    ensures var t := Taken(states[k], events[k])[0];
      t == l || (t.urgent && l.urgent && l.stamp < t.stamp) || (t.urgent && !l.urgent) ||
      (!t.urgent && !l.urgent && t.stamp < l.stamp)
  {
    RunsAreSafe(states, events, k);
    var letters := states[k].letters;
    var i :| 0 <= i < |letters| && letters[i] == l;
    assert i > 0 ==> Due(letters[0], letters[i]);
  }

  /** Nobody is passed over: when a letter is taken, every letter that was queued earlier
      and due before it has been taken meanwhile.  So urgent letters are received before
      ordinary ones, the last sent first, however long they were queued. */
  lemma NobodyIsPassedOver(states: seq<Queue>, events: seq<Event>, j: nat, k: nat, l: Letter)
    requires Stretch(states, events, j, k) && k < |events| && Taken(states[k], events[k]) != []
    requires l in states[j].letters && Due(l, Taken(states[k], events[k])[0])
    ensures l in TakenSince(states, events, j, k)
  {
    RunsConserve(states, events, j, k);
    if l in states[k].letters {
      TakesWhatIsDue(states, events, k, l);
      assert false;
    }
    assert l in multiset(states[j].letters) + multiset(SentSince(states, events, j, k));
    assert l !in multiset(states[k].letters);
  }

  /** An urgent message is what the very next receive takes. */
  lemma UrgentIsNext(q: Queue, i: nat, w: Waiter<nat>, mayWait: bool)
    requires Inv(q) && Enabled(q, Publishes(i)) && q.sending[i].urgent
    ensures Defined(Publish(q, i), ReceiveEnter(w, mayWait))
    ensures Taken(Publish(q, i), ReceiveEnter(w, mayWait)) == [Stamped(q, q.sending[i])]
  {
    PublishKeeps(q, i);
    NextKeeps(Publish(q, i), ReceiveEnter(w, mayWait));
  }
}
