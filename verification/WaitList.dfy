/** The suspend lists of src/ipc.c: who waits for an IPC object, in which order, and
    what a waiter asked for. */
module WaitList {

  datatype Flag = Fifo | Prio

  /** A suspended thread; a smaller number is a more urgent priority. */
  datatype Waiter<T> = Waiter(thread: nat, priority: nat, call: T)

  ghost predicate Sorted<T>(list: seq<Waiter<T>>) {
    forall i, j | 0 <= i < j < |list| :: list[i].priority <= list[j].priority
  }

  /** Before the first waiter that is strictly less urgent, or at the end. */
  function Place<T>(list: seq<Waiter<T>>, priority: nat): (p: nat)
    ensures p <= |list|
    ensures forall i | 0 <= i < p :: list[i].priority <= priority
    ensures p < |list| ==> priority < list[p].priority
  {
    if list == [] || priority < list[0].priority then 0 else 1 + Place(list[1..], priority)
  }

  function Inserted<T>(list: seq<Waiter<T>>, p: nat, w: Waiter<T>): (r: seq<Waiter<T>>)
    requires p <= |list|
    ensures |r| == |list| + 1 && r[p] == w
    ensures forall i | 0 <= i < p :: r[i] == list[i]
    ensures forall i | p < i < |r| :: r[i] == list[i - 1]
  {
    list[..p] + [w] + list[p..]
  }

  function Joined<T>(list: seq<Waiter<T>>, w: Waiter<T>, flag: Flag): seq<Waiter<T>> {
    if flag == Fifo then list + [w] else Inserted(list, Place(list, w.priority), w)
  }

  lemma {:induction false} PlaceIs<T>(list: seq<Waiter<T>>, priority: nat, p: nat)
    requires p <= |list| && forall i | 0 <= i < p :: list[i].priority <= priority
    requires p == |list| || priority < list[p].priority
    ensures Place(list, priority) == p
  {
    if p > 0 {
      PlaceIs(list[1..], priority, p - 1);
    }
  }

  /** rt_ipc_list_suspend, as to the list. */
  method Suspend<T>(list: seq<Waiter<T>>, w: Waiter<T>, flag: Flag) returns (r: seq<Waiter<T>>)
    ensures r == Joined(list, w, flag)
  {
    match flag
    case Fifo =>
      r := list + [w];
    case Prio =>
      var n := 0;
      while n < |list|
        invariant 0 <= n <= |list|
        invariant forall i | 0 <= i < n :: list[i].priority <= w.priority
      {
        if w.priority < list[n].priority {
          PlaceIs(list, w.priority, n);
          return Inserted(list, n, w);
        }
        n := n + 1;
      }
      PlaceIs(list, w.priority, n);
      r := list + [w];
      assert r == Inserted(list, n, w);
  }

  lemma AfterPlace<T>(list: seq<Waiter<T>>, priority: nat, i: nat)
    requires Sorted(list) && Place(list, priority) <= i < |list|
    ensures priority < list[i].priority
  {
  }

  lemma InOrder<T>(list: seq<Waiter<T>>, i: nat, j: nat)
    requires Sorted(list) && i < j < |list|
    ensures list[i].priority <= list[j].priority
  {
  }

  lemma InsertedPair<T>(list: seq<Waiter<T>>, w: Waiter<T>, i: nat, j: nat)
    requires Sorted(list) && i < j <= |list|
    ensures var r := Inserted(list, Place(list, w.priority), w); r[i].priority <= r[j].priority
  {
    hide Sorted, Place, Inserted;
    var p := Place(list, w.priority);
    var r := Inserted(list, p, w);
    if j < p {
      InOrder(list, i, j);
    } else if i < p && p < j {
      if i < j - 1 {
        InOrder(list, i, j - 1);
      }
    } else if i == p {
      AfterPlace(list, w.priority, j - 1);
    } else if i > p {
      InOrder(list, i - 1, j - 1);
    }
  }

  /** With the PRIO flag the list stays sorted, and a newcomer waits behind everyone
      as urgent as itself and ahead of everyone less urgent; nobody else moves. */
  lemma JoinedIsFair<T>(list: seq<Waiter<T>>, w: Waiter<T>)
    requires Sorted(list)
    ensures var r, p := Joined(list, w, Prio), Place(list, w.priority);
      Sorted(r) && r == Inserted(list, p, w) &&
      (forall i | 0 <= i < p :: list[i].priority <= w.priority) &&
      forall i | p <= i < |list| :: w.priority < list[i].priority
  {
    var r, p := Joined(list, w, Prio), Place(list, w.priority);
    forall i | p <= i < |list|
      ensures w.priority < list[i].priority
    {
      AfterPlace(list, w.priority, i);
    }
    forall i, j | 0 <= i < j < |r|
      ensures r[i].priority <= r[j].priority
    {
      InsertedPair(list, w, i, j);
    }
  }

  /** Joining adds that waiter, once, and with the FIFO flag at the end. */
  lemma JoinedAdds<T>(list: seq<Waiter<T>>, w: Waiter<T>, flag: Flag)
    ensures multiset(Joined(list, w, flag)) == multiset(list) + multiset{w}
    ensures flag == Fifo ==> Joined(list, w, flag)[|list|] == w && Joined(list, w, flag)[..|list|] == list
  {
    var p := Place(list, w.priority);
    assert list == list[..p] + list[p..];
  }

  lemma JoinedKeepsMember<T>(ws: seq<Waiter<T>>, v: Waiter<T>, flag: Flag, w: Waiter<T>)
    requires w in ws
    ensures w in Joined(ws, v, flag)
  {
    var i :| 0 <= i < |ws| && ws[i] == w;
    var r := Joined(ws, v, flag);
    assert r[if flag == Fifo || i < Place(ws, v.priority) then i else i + 1] == w;
  }

  // ----- Arrival numbers

  /** Waiters that remember how many had come to wait before them. */
  type Numbered = seq<Waiter<nat>>

  /** Whoever came later stands behind, with the PRIO flag among equals. */
  ghost predicate Aged(ws: Numbered, flag: Flag, arrivals: nat) {
    && (forall i | 0 <= i < |ws| :: ws[i].call < arrivals)
    && (forall i, j | 0 <= i < j < |ws| && (flag == Fifo || ws[i].priority == ws[j].priority) :: ws[i].call < ws[j].call)
  }

  lemma JoinedAged(ws: Numbered, w: Waiter<nat>, flag: Flag)
    requires Aged(ws, flag, w.call) && (flag == Prio ==> Sorted(ws))
    ensures Aged(Joined(ws, w, flag), flag, w.call + 1)
  {
    if flag == Prio {
      JoinedIsFair(ws, w);
    }
  }

  /** Waiter a is to be served before waiter b: it came first, with the PRIO flag among
      those as urgent, and otherwise the more urgent one is. */
  predicate Ahead(a: Waiter<nat>, b: Waiter<nat>, flag: Flag) {
    if flag == Fifo || a.priority == b.priority then a.call < b.call else a.priority < b.priority
  }

  /** The first of the list is ahead of everyone else in it. */
  lemma FirstIsAhead(ws: Numbered, flag: Flag, arrivals: nat, w: Waiter<nat>)
    requires Aged(ws, flag, arrivals) && (flag == Prio ==> Sorted(ws)) && w in ws
    ensures w == ws[0] || Ahead(ws[0], w, flag)
  {
    var i :| 0 <= i < |ws| && ws[i] == w;
  }

  /** The list as the source has it, without the numbers. */
  function Plain(ws: Numbered): (r: seq<Waiter<()>>)
    ensures |r| == |ws| && forall i | 0 <= i < |ws| :: r[i] == Waiter(ws[i].thread, ws[i].priority, ())
  {
    if ws == [] then [] else [Waiter(ws[0].thread, ws[0].priority, ())] + Plain(ws[1..])
  }

  lemma PlainJoined(ws: Numbered, w: Waiter<nat>, flag: Flag)
    ensures Plain(Joined(ws, w, flag)) == Joined(Plain(ws), Waiter(w.thread, w.priority, ()), flag)
  {
    hide Plain, Place;
    PlaceIs(Plain(ws), w.priority, Place(ws, w.priority));
  }

  lemma PlainTail(ws: Numbered)
    requires ws != []
    ensures Plain(ws[1..]) == Plain(ws)[1..]
  {
  }
}
