/** The slots of a message queue as src/ipc.c links them: one chain of free slots and one
    chain of queued ones, threaded through the same `next` fields. */
module MessagePool {
  import opened Lists
  import WaitList
  import Q = MessageQueue

  ghost predicate Below(n: nat, s: seq<nat>) {
    forall i | 0 <= i < |s| :: s[i] < n
  }

  /** Pointing the last slot of a chain at a slot that points nowhere appends it. */
  lemma {:induction false} ChainAppend(next: seq<int>, first: int, s: seq<nat>, x: nat)
    requires Chain(next, first, s) && s != [] && Distinct(s)
    requires x < |next| && x !in s && next[x] == NULL
    ensures s[|s| - 1] < |next| && Chain(next[s[|s| - 1] := x], first, s + [x])
    decreases |s|
  {
    var last := s[|s| - 1];
    if |s| == 1 {
      var next' := next[last := x];
      assert Chain(next', NULL, [x][1..]);
      assert Chain(next', x, [x]);
      assert (s + [x])[1..] == [x];
    } else {
      assert s[1..][|s| - 2] == last;
      ChainAppend(next, next[s[0]], s[1..], x);
      assert (s + [x])[1..] == s[1..] + [x];
    }
  }

  lemma {:induction false} ChainBelow(next: seq<int>, first: int, s: seq<nat>)
    requires Chain(next, first, s)
    ensures Below(|next|, s)
    decreases |s|
  {
    if s != [] {
      ChainBelow(next, next[s[0]], s[1..]);
    }
  }

  lemma {:induction false} Pigeonhole(n: nat, s: seq<nat>)
    requires Distinct(s) && Below(n, s)
    ensures |s| <= n
    decreases n
  {
    if i :| 0 <= i < |s| && s[i] == n - 1 {
      Pigeonhole(n - 1, Without(s, i));
    } else if s != [] {
      assert s[0] < n;
      Pigeonhole(n - 1, s);
    }
  }

  lemma ReversedMoves(queue: seq<nat>, spare: seq<nat>)
    requires queue != []
    ensures Reversed(queue[1..]) + ([queue[0]] + spare) == Reversed(queue) + spare
  {
  }

  class Links {
    var next: seq<int>
    var free: int
    var head: int
    var tail: int
    var entry: nat
    ghost var spare: seq<nat>
    ghost var queue: seq<nat>

    ghost predicate Valid()
      reads this
    {
      && |next| <= Q.ENTRY_MAX
      && Chain(next, free, spare) && Chain(next, head, queue)
      && Distinct(spare) && Distinct(queue) && (forall x :: x in spare ==> x !in queue)
      && tail == (if queue == [] then NULL else queue[|queue| - 1])
      && entry == |queue|
    }

    /** A slot some call owns: in neither chain. */
    ghost predicate Owned(x: int)
      reads this
    {
      0 <= x < |next| && x !in spare && x !in queue
    }

    /** rt_mq_init over `max` slots */
    constructor (max: nat)
      requires max <= Q.ENTRY_MAX
      ensures Valid() && |next| == max && spare == Q.Countdown(max) && queue == []
    {
      head, tail, entry := NULL, NULL, 0;
      queue := [];
      var links: seq<int> := seq(max, i => NULL);
      var first := NULL;
      ghost var pushed: seq<nat> := [];
      for temp := 0 to max
        invariant |links| == max && pushed == Q.Countdown(temp)
        invariant Chain(links, first, pushed) && Distinct(pushed) && Below(temp, pushed)
      {
        ChainFrame(links, first, pushed, temp, first);
        links := links[temp := first];
        first := temp;
        pushed := [temp] + pushed;
        assert pushed[1..] == Q.Countdown(temp);
      }
      next, free, spare := links, first, pushed;
    }

    /** Takes the first free slot, if there is one; its link is cut. */
    method TakeFree() returns (slot: int)
      requires Valid()
      modifies this
      ensures Valid() && queue == old(queue) && |next| == old(|next|)
      ensures old(spare) == [] ==> slot == NULL && spare == [] && next == old(next)
      ensures old(spare) != [] ==> slot == old(spare)[0] && spare == old(spare)[1..]
      ensures old(spare) != [] ==> Owned(slot) && next[slot] == NULL
      ensures forall x | 0 <= x < |next| && x != slot :: next[x] == old(next)[x]
    {
      slot := free;
      if slot == NULL {
        return;
      }
      ChainFrame(next, next[slot], spare[1..], slot, NULL);
      assert slot !in queue;
      ChainFrame(next, head, queue, slot, NULL);
      free := next[slot];
      spare := spare[1..];
      next := next[slot := NULL];
    }

    ghost method Count(slot: int)
      requires Valid() && Owned(slot)
      ensures entry < Q.ENTRY_MAX
    {
      ChainBelow(next, head, queue);
      assert Distinct(queue + [slot]) && Below(|next|, queue + [slot]);
      Pigeonhole(|next|, queue + [slot]);
    }

    /** Links a filled slot behind the queue, as rt_mq_send_wait does. */
    method Append(slot: nat) returns (ok: bool)
      requires Valid() && Owned(slot) && next[slot] == NULL
      modifies this
      ensures Valid() && ok && queue == old(queue) + [slot] && spare == old(spare)
      ensures |next| == old(|next|) && forall x | 0 <= x < |next| && x !in old(queue) :: next[x] == old(next)[x]
    {
      Count(slot);
      if tail != NULL {
        ChainAppend(next, head, queue, slot);
        assert tail !in spare;
        ChainFrame(next, free, spare, tail, slot);
        next := next[tail := slot];
      }
      tail := slot;
      if head == NULL {
        head := slot;
      }
      queue := queue + [slot];
      ok := entry < Q.ENTRY_MAX;
      if ok {
        entry := entry + 1;
      }
    }

    /** Links a filled slot before the queue, as rt_mq_urgent does. */
    method Prepend(slot: nat) returns (ok: bool)
      requires Valid() && Owned(slot)
      modifies this
      ensures Valid() && ok && queue == [slot] + old(queue) && spare == old(spare)
      ensures |next| == old(|next|) && forall x | 0 <= x < |next| && x != slot :: next[x] == old(next)[x]
    {
      Count(slot);
      ChainFrame(next, head, queue, slot, head);
      ChainFrame(next, free, spare, slot, head);
      next := next[slot := head];
      head := slot;
      if tail == NULL {
        tail := slot;
      }
      queue := [slot] + queue;
      assert queue[1..] == old(queue);
      ok := entry < Q.ENTRY_MAX;
      if ok {
        entry := entry + 1;
      }
    }

    /** Unlinks the slot at the head of the queue. */
    method TakeHead() returns (slot: nat)
      requires Valid() && entry > 0
      modifies this
      ensures Valid() && slot == old(queue)[0] && queue == old(queue)[1..] && spare == old(spare)
      ensures Owned(slot) && next == old(next)
    {
      slot := head;
      head := next[slot];
      if tail == slot {
        tail := NULL;
      }
      queue := queue[1..];
      if entry > 0 {
        entry := entry - 1;
      }
    }

    /** Gives a slot back. */
    method Release(slot: nat)
      requires Valid() && Owned(slot)
      modifies this
      ensures Valid() && spare == [slot] + old(spare) && queue == old(queue)
      ensures |next| == old(|next|) && forall x | 0 <= x < |next| && x != slot :: next[x] == old(next)[x]
    {
      ChainFrame(next, free, spare, slot, free);
      ChainFrame(next, head, queue, slot, free);
      next := next[slot := free];
      free := slot;
      spare := [slot] + spare;
      assert spare[1..] == old(spare);
    }

    /** The loop of rt_mq_control that empties the queue. */
    method Reset()
      requires Valid()
      modifies this
      ensures Valid() && queue == [] && spare == Reversed(old(queue)) + old(spare)
      ensures |next| == old(|next|) && forall x | 0 <= x < |next| && x !in old(queue) :: next[x] == old(next)[x]
    {
      hide Distinct;
      while head != NULL
        invariant Valid()
        invariant Reversed(queue) + spare == Reversed(old(queue)) + old(spare)
        invariant |next| == old(|next|) && forall x :: x in queue ==> x in old(queue)
        invariant forall x | 0 <= x < |next| && x !in old(queue) :: next[x] == old(next)[x]
        decreases |queue|
      {
        ReversedMoves(queue, spare);
        var slot := TakeHead();
        Release(slot);
      }
      entry := 0;
    }

    // ----- The chains implement the protocol

    /** The chains hold what the protocol calls its free and its queued slots, and the slot
        of every send under way is cut off. */
    ghost predicate Mirrors(q: Q.Queue)
      reads this
    {
      Valid() && |next| == |q.data| && spare == q.free && queue == q.queue && entry == q.entry && CutOff(next, q.sending)
    }

    /** A send gets the first free slot, or there is none. */
    method FollowSend(q: Q.Queue, message: Q.Bytes, urgent: bool)
      requires Mirrors(q) && Q.Inv(q)
      modifies this
      ensures Mirrors(if q.free == [] then q else Q.TakeFree(q, message, urgent))
    {
      hide Q.Inv, Chain, Distinct;
      HeldApart(q);
      ghost var was := next;
      var slot := TakeFree();
      if slot != NULL {
        assert spare == q.free[1..];
        StillCutOff(was, next, q.sending);
      }
    }

    method FollowPublish(q: Q.Queue, i: nat)
      requires Mirrors(q) && Q.Inv(q) && i < |q.sending|
      modifies this
      ensures Mirrors(Q.Publish(q, i))
    {
      hide Q.Inv, Chain, Distinct;
      HeldApart(q);
      ghost var was := next;
      var slot := q.sending[i].slot;
      Count(slot);
      var ok: bool;
      if q.sending[i].urgent {
        ok := Prepend(slot);
      } else {
        ok := Append(slot);
      }
      StillCutOff(was, next, Without(q.sending, i));
    }

    method FollowReceive(q: Q.Queue, w: WaitList.Waiter<nat>, mayWait: bool)
      requires Mirrors(q) && (q.entry > 0 ==> q.letters != [])
      modifies this
      ensures (q.entry > 0 ==> q.queue != []) && Mirrors(Q.TryReceive(q, w, mayWait))
    {
      hide Chain, Distinct, CutOff;
      if entry > 0 {
        var slot := TakeHead();
      }
    }

    method FollowRelease(q: Q.Queue, i: nat)
      requires Mirrors(q) && Q.Inv(q) && i < |q.receiving|
      modifies this
      ensures Mirrors(Q.Release(q, i))
    {
      hide Q.Inv, Chain, Distinct;
      HeldApart(q);
      ghost var was := next;
      Release(q.receiving[i].slot);
      StillCutOff(was, next, q.sending);
    }

    method FollowReset(q: Q.Queue)
      requires Mirrors(q) && Q.Inv(q)
      modifies this
      ensures Mirrors(Q.Reset(q))
    {
      hide Q.Inv, Chain, Distinct;
      HeldApart(q);
      ghost var was := next;
      Reset();
      StillCutOff(was, next, q.sending);
    }

    /** Whatever step the protocol makes, the calls that step stands for may be made on the
        chains, and leave them holding what the protocol then holds. */
    method Follow(q: Q.Queue, e: Q.Event)
      requires Mirrors(q) && Q.Inv(q) && Q.Enabled(q, e)
      modifies this
      ensures Q.Defined(q, e) && Mirrors(Q.Next(q, e))
    {
      hide Q.Inv, Chain, Distinct, CutOff, Without, Reversed;
      Q.NextKeeps(q, e);
      match e
      case SendEnter(w, mayWait) =>
        if |w.call| <= q.msgSize {
          FollowSend(q, w.call, false);
        }
      case SendRetry(i, mayWait) =>
        FollowSend(q, q.wokenSenders[i].call, false);
      case CopiesIn(i) =>
        CopyLeavesCutOff(next, q, i);
      case UrgentEnter(message) =>
        if |message| <= q.msgSize {
          FollowSend(q, message, true);
        }
      case Publishes(i) =>
        FollowPublish(q, i);
      case ReceiveEnter(w, mayWait) =>
        FollowReceive(q, w, mayWait);
      case ReceiveRetry(i, mayWait) =>
        FollowReceive(q.(wokenReceivers := Without(q.wokenReceivers, i)), q.wokenReceivers[i], mayWait);
      case Releases(i) =>
        FollowRelease(q, i);
      case Resets =>
        FollowReset(q);
      case _ =>
    }
  }

  /** The slots of these sends point nowhere. */
  ghost predicate CutOff(next: seq<int>, sending: seq<Q.Send>) {
    forall i | 0 <= i < |sending| :: sending[i].slot < |next| && next[sending[i].slot] == NULL
  }

  lemma StillCutOff(next: seq<int>, next': seq<int>, sending: seq<Q.Send>)
    requires CutOff(next, sending) && |next'| == |next|
    requires forall i | 0 <= i < |sending| :: next'[sending[i].slot] == next[sending[i].slot]
    ensures CutOff(next', sending)
  {
  }

  lemma CopyLeavesCutOff(next: seq<int>, q: Q.Queue, i: nat)
    requires Q.Enabled(q, Q.CopiesIn(i)) && Q.Defined(q, Q.CopiesIn(i)) && CutOff(next, q.sending)
    ensures CutOff(next, Q.CopyIn(q, i).sending)
  {
  }

  /** A slot that a call holds is a slot of the pool in neither chain and in no other
      call's hands. */
  lemma HeldApart(q: Q.Queue)
    requires Q.Inv(q)
    ensures forall i | 0 <= i < |q.sending| ::
      var x := q.sending[i].slot; x < |q.data| && x !in q.free && x !in q.queue
    ensures forall i, j | 0 <= i < |q.sending| && 0 <= j < |q.sending| && i != j :: q.sending[i].slot != q.sending[j].slot
    ensures forall i | 0 <= i < |q.receiving| ::
      var x := q.receiving[i].slot; x < |q.data| && x !in q.free && x !in q.queue
    ensures forall i, j | 0 <= i < |q.receiving| && 0 <= j < |q.sending| :: q.receiving[i].slot != q.sending[j].slot
  {
    hide Q.Partition;
    var sending, receiving := Q.SendSlots(q.sending), Q.ReceiveSlots(q.receiving);
    forall i | 0 <= i < |q.sending|
      ensures var x := q.sending[i].slot;
        x < |q.data| && x !in q.free && x !in q.queue && forall j | 0 <= j < |q.sending| && j != i :: q.sending[j].slot != x
    {
      Q.OwnedAlone(|q.data|, q.free, q.queue, sending, receiving, i);
      assert forall j | 0 <= j < |q.sending| :: sending[j] == q.sending[j].slot;
    }
    forall i | 0 <= i < |q.receiving|
      ensures var x := q.receiving[i].slot;
        x < |q.data| && x !in q.free && x !in q.queue && forall j | 0 <= j < |q.sending| :: q.sending[j].slot != x
    {
      Q.ReceivedAlone(|q.data|, q.free, q.queue, sending, receiving, i);
      assert forall j | 0 <= j < |q.sending| :: sending[j] == q.sending[j].slot && sending[j] in sending;
    }
  }
}
