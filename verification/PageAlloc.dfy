/** The page allocator under src/slab.c: a list of free extents in address order.  Pages
    are numbered by address. */
module PageAlloc {
  import opened Lists

  datatype Extent = Extent(start: nat, count: nat)

  type Extents = seq<Extent>

  function End(b: Extent): nat { b.start + b.count }

  // ----- What the list means

  /** Page x is free. */
  ghost predicate Has(list: Extents, x: nat) {
    list != [] && (list[0].start <= x < End(list[0]) || Has(list[1..], x))
  }

  /** In address order, without overlap, and with a gap between neighbours: whatever
      could be joined is joined. */
  ghost predicate Canonical(list: Extents) {
    list == [] ||
    (list[0].count > 0 && (|list| > 1 ==> End(list[0]) < list[1].start) && Canonical(list[1..]))
  }

  /** Everything further down the list lies beyond the gap. */
  lemma {:induction false} TailIsBeyond(list: Extents, x: nat)
    requires Canonical(list) && list != [] && Has(list[1..], x)
    ensures End(list[0]) < x
  {
    if !(list[1].start <= x < End(list[1])) {
      TailIsBeyond(list[1..], x);
    }
  }

  lemma FirstIsFree(list: Extents)
    requires Canonical(list) && list != []
    ensures Has(list, list[0].start) && !Has(list, End(list[0]))
    ensures forall x: nat | Has(list, x) :: list[0].start <= x
  {
    forall x: nat | Has(list[1..], x)
      ensures End(list[0]) < x
    {
      TailIsBeyond(list, x);
    }
  }

  /** The list is determined by the set of free pages. */
  lemma {:induction false} PagesDetermineList(a: Extents, b: Extents)
    requires Canonical(a) && Canonical(b)
    requires forall x: nat :: Has(a, x) <==> Has(b, x)
    ensures a == b
    decreases |a|
  {
    if a == [] || b == [] {
      if a != [] {
        FirstIsFree(a);
      } else if b != [] {
        FirstIsFree(b);
      }
    } else {
      HeadsAgree(a, b);
      forall x: nat
        ensures Has(a[1..], x) <==> Has(b[1..], x)
      {
        TailsAgree(a, b, x);
        TailsAgree(b, a, x);
      }
      PagesDetermineList(a[1..], b[1..]);
      assert a == [a[0]] + a[1..] && b == [b[0]] + b[1..];
    }
  }

  lemma TailsAgree(a: Extents, b: Extents, x: nat)
    requires Canonical(a) && Canonical(b) && a != [] && b != [] && a[0] == b[0]
    requires Has(a, x) <==> Has(b, x)
    ensures Has(a[1..], x) ==> Has(b[1..], x)
  {
    if Has(a[1..], x) {
      TailIsBeyond(a, x);
    }
  }

  lemma HeadsAgree(a: Extents, b: Extents)
    requires Canonical(a) && Canonical(b) && a != [] && b != []
    requires forall x: nat :: Has(a, x) <==> Has(b, x)
    ensures a[0] == b[0]
  {
    FirstIsFree(a);
    FirstIsFree(b);
    assert a[0].start == b[0].start;
    assert Has(a, End(b[0])) <==> Has(b, End(b[0]));
    assert Has(a, End(a[0])) <==> Has(b, End(a[0]));
  }

  // ----- Freeing

  /** rt_page_free of n pages from a on. */
  function Freed(list: Extents, a: nat, n: nat): Extents {
    if list == [] then [Extent(a, n)]
    else
      var b := list[0];
      if End(b) == a then
        if |list| > 1 && End(b) + n == list[1].start then [Extent(b.start, b.count + n + list[1].count)] + list[2..]
        else [Extent(b.start, b.count + n)] + list[1..]
      else if b.start == a + n then [Extent(a, b.count + n)] + list[1..]
      else if b.start > a + n then [Extent(a, n)] + list
      else [b] + Freed(list[1..], a, n)
  }

  /** None of the n pages from a on is free. */
  ghost predicate Taken(list: Extents, a: nat, n: nat) {
    forall x | a <= x < a + n :: !Has(list, x)
  }

  lemma TakenClear(list: Extents, a: nat, n: nat)
    requires Canonical(list) && list != [] && n > 0 && Taken(list, a, n)
    ensures End(list[0]) <= a || a + n <= list[0].start
    ensures Taken(list[1..], a, n)
  {
    var x := if a < list[0].start then list[0].start else a;
    assert a <= x < a + n ==> !Has(list, x);
    forall x | a <= x < a + n
      ensures !Has(list[1..], x)
    {
      assert !Has(list, x);
    }
  }

  lemma {:induction false} FreedKeepsCanonical(list: Extents, a: nat, n: nat)
    requires Canonical(list) && n > 0 && Taken(list, a, n)
    ensures Canonical(Freed(list, a, n))
    ensures Freed(list, a, n) != [] && Freed(list, a, n)[0].start == if list == [] || a < list[0].start then a else list[0].start
  {
    if list != [] {
      TakenClear(list, a, n);
      var b := list[0];
      if |list| > 1 {
        TakenClear(list[1..], a, n);
      }
      if End(b) == a {
      } else if b.start == a + n {
      } else if b.start > a + n {
        assert ([Extent(a, n)] + list)[1..] == list;
      } else {
        FreedKeepsCanonical(list[1..], a, n);
        assert ([b] + Freed(list[1..], a, n))[1..] == Freed(list[1..], a, n);
      }
    }
  }

  lemma {:induction false} FreedPages(list: Extents, a: nat, n: nat, x: nat)
    requires Canonical(list) && n > 0 && Taken(list, a, n)
    ensures Has(Freed(list, a, n), x) <==> Has(list, x) || a <= x < a + n
  {
    if list != [] {
      TakenClear(list, a, n);
      var b := list[0];
      if End(b) == a {
        if |list| > 1 && End(b) + n == list[1].start {
          assert list[1..][1..] == list[2..];
        }
      } else if b.start == a + n {
      } else if b.start > a + n {
        assert ([Extent(a, n)] + list)[1..] == list;
      } else {
        FreedPages(list[1..], a, n, x);
        assert ([b] + Freed(list[1..], a, n))[1..] == Freed(list[1..], a, n);
      }
    }
  }

  // ----- Allocating

  /** rt_page_alloc of n pages: the first extent that is large enough, or nothing. */
  function Allocated(list: Extents, n: nat): (Extents, Option<nat>) {
    if n == 0 || list == [] then (list, None)
    else
      var b := list[0];
      if b.count > n then ([Extent(b.start + n, b.count - n)] + list[1..], Some(b.start))
      else if b.count == n then (list[1..], Some(b.start))
      else
        var (rest, r) := Allocated(list[1..], n);
        ([b] + rest, r)
  }

  lemma {:induction false} AllocatedKeepsCanonical(list: Extents, n: nat)
    requires Canonical(list)
    ensures var list' := Allocated(list, n).0;
      Canonical(list') && (list' != [] ==> list != [] && list[0].start <= list'[0].start)
  {
    if n > 0 && list != [] && list[0].count < n {
      AllocatedKeepsCanonical(list[1..], n);
      var rest := Allocated(list[1..], n).0;
      assert ([list[0]] + rest)[1..] == rest;
    } else if n > 0 && list != [] && list[0].count > n {
      var b := list[0];
      assert ([Extent(b.start + n, b.count - n)] + list[1..])[1..] == list[1..];
    }
  }

  /** The pages handed out were free and are the only ones that no longer are. */
  lemma {:induction false} AllocatedPages(list: Extents, n: nat, x: nat)
    requires Canonical(list)
    ensures var (list', r) := Allocated(list, n);
      match r
      case None => list' == list
      case Some(a) => Has(list', x) <==> Has(list, x) && !(a <= x < a + n)
    ensures var (_, r) := Allocated(list, n);
      r.Some? && r.value <= x < r.value + n ==> Has(list, x)
  {
    if n == 0 || list == [] {
    } else {
      var b := list[0];
      if Has(list[1..], x) {
        TailIsBeyond(list, x);
      }
      if b.count > n {
        assert ([Extent(b.start + n, b.count - n)] + list[1..])[1..] == list[1..];
      } else if b.count < n {
        AllocatedPages(list[1..], n, x);
        var (rest, r) := Allocated(list[1..], n);
        assert ([b] + rest)[1..] == rest;
        assert r.None? ==> [b] + rest == list;
      }
    }
  }

  /** First fit: the result is the lowest extent of at least n pages, and there is none
      exactly when every extent is too small. */
  lemma {:induction false} AllocatedIsFirstFit(list: Extents, n: nat)
    requires n > 0
    ensures var r := Allocated(list, n).1;
      match r
      case None => forall i | 0 <= i < |list| :: list[i].count < n
      case Some(a) => exists i | 0 <= i < |list| ::
        list[i].start == a && list[i].count >= n && forall j | 0 <= j < i :: list[j].count < n
  {
    if list != [] && list[0].count < n {
      AllocatedIsFirstFit(list[1..], n);
      var r := Allocated(list[1..], n).1;
      if r.Some? {
        var i :| 0 <= i < |list[1..]| && list[1..][i].start == r.value && list[1..][i].count >= n &&
          forall j | 0 <= j < i :: list[1..][j].count < n;
        assert list[i + 1] == list[1..][i];
        forall j | 0 <= j < i + 1
          ensures list[j].count < n
        {
          assert j > 0 ==> list[j] == list[1..][j - 1];
        }
      } else {
        forall i | 0 <= i < |list|
          ensures list[i].count < n
        {
          assert i > 0 ==> list[i] == list[1..][i - 1];
        }
      }
    } else if list != [] {
      assert list[0].count >= n;
    }
  }

  // ----- Round trips

  /** Freeing what was just allocated restores the list, extent for extent. */
  lemma FreeUndoesAlloc(list: Extents, n: nat)
    requires Canonical(list) && Allocated(list, n).1.Some?
    ensures var (list', r) := Allocated(list, n); Freed(list', r.value, n) == list
  {
    var (list', r) := Allocated(list, n);
    var a := r.value;
    AllocatedKeepsCanonical(list, n);
    forall x: nat
      ensures Has(list', x) <==> Has(list, x) && !(a <= x < a + n)
      ensures a <= x < a + n ==> Has(list, x)
    {
      AllocatedPages(list, n, x);
    }
    AllocatesSome(list, n);
    FreedKeepsCanonical(list', a, n);
    forall x: nat
      ensures Has(Freed(list', a, n), x) <==> Has(list, x)
    {
      FreedPages(list', a, n, x);
    }
    PagesDetermineList(Freed(list', a, n), list);
  }

  lemma AllocatesSome(list: Extents, n: nat)
    requires Allocated(list, n).1.Some?
    ensures n > 0
  {
  }

  /** In whatever order two extents are freed, the list is the same. */
  lemma FreesCommute(list: Extents, a: nat, m: nat, b: nat, n: nat)
    requires Canonical(list) && m > 0 && n > 0 && Taken(list, a, m) && Taken(list, b, n)
    requires a + m <= b || b + n <= a
    ensures Freed(Freed(list, a, m), b, n) == Freed(Freed(list, b, n), a, m)
  {
    FreedBoth(list, a, m, b, n);
    FreedBoth(list, b, n, a, m);
    PagesDetermineList(Freed(Freed(list, a, m), b, n), Freed(Freed(list, b, n), a, m));
  }

  lemma FreedBoth(list: Extents, a: nat, m: nat, b: nat, n: nat)
    requires Canonical(list) && m > 0 && n > 0 && Taken(list, a, m) && Taken(list, b, n)
    requires a + m <= b || b + n <= a
    ensures var r := Freed(Freed(list, a, m), b, n);
      Canonical(r) && forall x: nat :: Has(r, x) <==> Has(list, x) || a <= x < a + m || b <= x < b + n
  {
    FreedKeepsCanonical(list, a, m);
    forall x: nat
      ensures Has(Freed(list, a, m), x) <==> Has(list, x) || a <= x < a + m
    {
      FreedPages(list, a, m, x);
    }
    FreedKeepsCanonical(Freed(list, a, m), b, n);
    forall x: nat
      ensures Has(Freed(Freed(list, a, m), b, n), x) <==> Has(Freed(list, a, m), x) || b <= x < b + n
    {
      FreedPages(Freed(list, a, m), b, n, x);
    }
  }

  // ----- Whole runs

  /** The free list, and the extents that were handed out and not freed yet. */
  datatype Heap = Heap(list: Extents, live: Extents)

  datatype Call = Allocs(n: nat) | Frees(i: nat)

  ghost predicate Apart(live: Extents) {
    forall i, j | 0 <= i < j < |live| :: End(live[i]) <= live[j].start || End(live[j]) <= live[i].start
  }

  /** Page x belongs to a live extent. */
  ghost predicate Lives(live: Extents, x: nat) {
    exists i | 0 <= i < |live| :: live[i].start <= x < End(live[i])
  }

  /** The pool is split, page for page, into what is free and the live extents. */
  ghost predicate Inv(h: Heap, pool: Extent) {
    && Canonical(h.list)
    && Apart(h.live) && (forall i | 0 <= i < |h.live| :: h.live[i].count > 0)
    && (forall x: nat :: (pool.start <= x < End(pool)) <==> Has(h.list, x) || Lives(h.live, x))
    && (forall x: nat :: Has(h.list, x) ==> !Lives(h.live, x))
  }

  predicate Enabled(h: Heap, c: Call) {
    c.Frees? ==> c.i < |h.live|
  }

  function Next(h: Heap, c: Call): Heap
    requires Enabled(h, c)
  {
    match c
    case Allocs(n) =>
      var (list, r) := Allocated(h.list, n);
      if r.Some? then Heap(list, h.live + [Extent(r.value, n)]) else h
    case Frees(i) =>
      Heap(Freed(h.list, h.live[i].start, h.live[i].count), Without(h.live, i))
  }

  lemma LivesAdd(live: Extents, b: Extent, x: nat)
    ensures Lives(live + [b], x) <==> Lives(live, x) || b.start <= x < End(b)
  {
    var live' := live + [b];
    if Lives(live, x) {
      var i :| 0 <= i < |live| && live[i].start <= x < End(live[i]);
      assert live'[i] == live[i];
    }
    assert live'[|live|] == b;
  }

  lemma DroppedLives(live: Extents, i: nat, x: nat)
    requires Apart(live) && i < |live| && Lives(Without(live, i), x)
    ensures Lives(live, x) && !(live[i].start <= x < End(live[i]))
  {
    var live' := Without(live, i);
    var k :| 0 <= k < |live'| && live'[k].start <= x < End(live'[k]);
    var m := if k < i then k else k + 1;
    assert live[m] == live'[k] && m != i;
  }

  lemma LivesOn(live: Extents, i: nat, x: nat)
    requires i < |live| && Lives(live, x) && !(live[i].start <= x < End(live[i]))
    ensures Lives(Without(live, i), x)
  {
    var k :| 0 <= k < |live| && live[k].start <= x < End(live[k]);
    assert Without(live, i)[if k < i then k else k - 1] == live[k];
  }

  lemma LivesWithout(live: Extents, i: nat, x: nat)
    requires Apart(live) && i < |live|
    ensures Lives(Without(live, i), x) <==> Lives(live, x) && !(live[i].start <= x < End(live[i]))
  {
    if Lives(Without(live, i), x) {
      DroppedLives(live, i, x);
    } else if Lives(live, x) && !(live[i].start <= x < End(live[i])) {
      LivesOn(live, i, x);
    }
  }

  lemma AllocKeeps(h: Heap, n: nat, pool: Extent)
    requires Inv(h, pool) && Allocated(h.list, n).1.Some?
    ensures Inv(Next(h, Allocs(n)), pool)
  {
    var (list, r) := Allocated(h.list, n);
    var b := Extent(r.value, n);
    AllocatesSome(h.list, n);
    AllocatedKeepsCanonical(h.list, n);
    forall x: nat
      ensures Has(list, x) <==> Has(h.list, x) && !(b.start <= x < End(b))
      ensures b.start <= x < End(b) ==> Has(h.list, x)
      ensures Lives(h.live + [b], x) <==> Lives(h.live, x) || b.start <= x < End(b)
    {
      AllocatedPages(h.list, n, x);
      LivesAdd(h.live, b, x);
    }
    NewIsApart(h, b);
  }

  lemma NewIsApart(h: Heap, b: Extent)
    requires Apart(h.live) && b.count > 0 && (forall i | 0 <= i < |h.live| :: h.live[i].count > 0)
    requires forall x: nat | b.start <= x < End(b) :: !Lives(h.live, x)
    ensures Apart(h.live + [b])
  {
    forall i | 0 <= i < |h.live|
      ensures End(h.live[i]) <= b.start || End(b) <= h.live[i].start
    {
      var x := if h.live[i].start < b.start then b.start else h.live[i].start;
      assert b.start <= x < End(b) ==> !Lives(h.live, x);
    }
  }

  lemma FreeKeeps(h: Heap, i: nat, pool: Extent)
    requires Inv(h, pool) && i < |h.live|
    ensures Inv(Next(h, Frees(i)), pool)
  {
    var b := h.live[i];
    var live := Without(h.live, i);
    forall x | b.start <= x < End(b)
      ensures !Has(h.list, x)
    {
      assert Lives(h.live, x);
    }
    FreedKeepsCanonical(h.list, b.start, b.count);
    forall x: nat
      ensures Has(Freed(h.list, b.start, b.count), x) <==> Has(h.list, x) || b.start <= x < End(b)
      ensures Lives(live, x) <==> Lives(h.live, x) && !(b.start <= x < End(b))
    {
      FreedPages(h.list, b.start, b.count, x);
      LivesWithout(h.live, i, x);
    }
    forall x: nat | b.start <= x < End(b)
      ensures Lives(h.live, x)
    {
    }
  }

  lemma InitialInv(pool: Extent)
    requires pool.count > 0
    ensures Inv(Heap([pool], []), pool)
  {
    assert forall x: nat :: !Lives([], x);
    assert forall x: nat :: Has([pool], x) <==> pool.start <= x < End(pool);
  }

  ghost predicate Run(pool: Extent, states: seq<Heap>, calls: seq<Call>) {
    && |states| == |calls| + 1
    && states[0] == Heap(Freed([], pool.start, pool.count), [])
    && forall k | 0 <= k < |calls| :: Enabled(states[k], calls[k]) && states[k + 1] == Next(states[k], calls[k])
  }

  /** After rt_page_init and any calls that free live extents, the list is in canonical
      form, the live extents are disjoint, and every page of the pool is either free or
      in exactly one of them. */
  lemma {:induction false} RunsAreSafe(pool: Extent, states: seq<Heap>, calls: seq<Call>, k: nat)
    requires Run(pool, states, calls) && pool.count > 0 && k <= |calls|
    ensures Inv(states[k], pool)
  {
    if k == 0 {
      InitialInv(pool);
    } else {
      RunsAreSafe(pool, states, calls, k - 1);
      var h, c := states[k - 1], calls[k - 1];
      if c.Frees? {
        FreeKeeps(h, c.i, pool);
      } else if Allocated(h.list, c.n).1.Some? {
        AllocKeeps(h, c.n, pool);
      }
    }
  }

  /** Once everything is freed again, in whatever order, the list is the one extent the
      allocator was initialised with. */
  lemma DrainedIsInitial(pool: Extent, states: seq<Heap>, calls: seq<Call>, k: nat)
    requires Run(pool, states, calls) && pool.count > 0 && k <= |calls| && states[k].live == []
    ensures states[k].list == [pool]
  {
    RunsAreSafe(pool, states, calls, k);
    var list := states[k].list;
    assert forall x: nat :: !Lives([], x);
    assert forall x: nat :: Has([pool], x) <==> pool.start <= x < End(pool);
    PagesDetermineList(list, [pool]);
  }

  // ----- The loops

  lemma Peel(list: Extents, k: nat, rest: Extents)
    requires 0 < k <= |list|
    ensures list[1..][k - 1..] == list[k..]
    ensures [list[0]] + (list[1..][..k - 1] + rest) == list[..k] + rest
  {
  }

  lemma {:induction false} AllocatedAt(list: Extents, n: nat, k: nat)
    requires n > 0 && k <= |list| && forall j | 0 <= j < k :: list[j].count < n
    ensures Allocated(list, n).0 == list[..k] + Allocated(list[k..], n).0
    ensures Allocated(list, n).1 == Allocated(list[k..], n).1
    decreases k
  {
    if k > 0 {
      AllocatedAt(list[1..], n, k - 1);
      Peel(list, k, Allocated(list[k..], n).0);
    } else {
      assert list[0..] == list;
    }
  }

  /** Extent b lies before the n pages from a on and does not touch them. */
  predicate Passed(b: Extent, a: nat, n: nat) {
    End(b) != a && b.start < a + n
  }

  lemma {:induction false} FreedAt(list: Extents, a: nat, n: nat, k: nat)
    requires k <= |list| && forall j | 0 <= j < k :: Passed(list[j], a, n)
    ensures Freed(list, a, n) == list[..k] + Freed(list[k..], a, n)
    decreases k
  {
    if k > 0 {
      assert Passed(list[0], a, n);
      FreedAt(list[1..], a, n, k - 1);
      Peel(list, k, Freed(list[k..], a, n));
    } else {
      assert list[0..] == list;
    }
  }

  lemma AllocatedHere(list: Extents, n: nat, k: nat)
    requires n > 0 && k < |list| && (forall j | 0 <= j < k :: list[j].count < n) && list[k].count >= n
    ensures var b := list[k];
      var rest := if b.count > n then [Extent(b.start + n, b.count - n)] + list[k + 1..] else list[k + 1..];
      Allocated(list, n) == (list[..k] + rest, Some(b.start))
  {
    AllocatedAt(list, n, k);
    assert list[k..][1..] == list[k + 1..];
  }

  /** Where the loop of rt_page_free stops, and what it does there. */
  lemma FreedHere(list: Extents, a: nat, n: nat, k: nat)
    requires k <= |list| && forall j | 0 <= j < k :: Passed(list[j], a, n)
    requires k < |list| ==> !Passed(list[k], a, n)
    ensures Freed(list, a, n) == list[..k] + (
      if k < |list| && End(list[k]) == a then
        if k + 1 < |list| && End(list[k]) + n == list[k + 1].start then
          [Extent(list[k].start, list[k].count + n + list[k + 1].count)] + list[k + 2..]
        else [Extent(list[k].start, list[k].count + n)] + list[k + 1..]
      else if k < |list| && list[k].start == a + n then [Extent(a, list[k].count + n)] + list[k + 1..]
      else [Extent(a, n)] + list[k..])
  {
    FreedAt(list, a, n, k);
    if k < |list| {
      assert list[k..][1..] == list[k + 1..];
      if k + 1 < |list| {
        assert list[k..][2..] == list[k + 2..];
      }
    }
  }

  method Give(list: Extents, a: nat, n: nat) returns (r: Extents)
    ensures r == Freed(list, a, n)
  {
    var k := 0;
    while k < |list| && Passed(list[k], a, n)
      invariant 0 <= k <= |list|
      invariant forall j | 0 <= j < k :: Passed(list[j], a, n)
    {
      k := k + 1;
    }
    FreedHere(list, a, n, k);
    if k < |list| && End(list[k]) == a {
      var b := list[k].(count := list[k].count + n);
      if k + 1 < |list| && End(b) == list[k + 1].start {
        r := list[..k] + ([b.(count := b.count + list[k + 1].count)] + list[k + 2..]);
      } else {
        r := list[..k] + ([b] + list[k + 1..]);
      }
    } else if k < |list| && list[k].start == a + n {
      r := list[..k] + ([Extent(a, list[k].count + n)] + list[k + 1..]);
    } else {
      r := list[..k] + ([Extent(a, n)] + list[k..]);
    }
  }

  // ----- The object

  class Pages {
    var list: Extents

    constructor (start: nat, count: nat)
      requires count > 0
      ensures Canonical(list) && list == [Extent(start, count)]
    {
      list := [];
      new;
      FreePages(start, count);
    }

    /** rt_page_alloc */
    method AllocPages(n: nat) returns (r: Option<nat>)
      requires Canonical(list)
      modifies this
      ensures (list, r) == Allocated(old(list), n) && Canonical(list)
    {
      AllocatedKeepsCanonical(list, n);
      if n == 0 {
        return None;
      }
      var k := 0;
      while k < |list|
        invariant 0 <= k <= |list| && list == old(list)
        invariant forall j | 0 <= j < k :: list[j].count < n
      {
        var b := list[k];
        if b.count >= n {
          AllocatedHere(list, n, k);
          if b.count > n {
            list := list[..k] + ([Extent(b.start + n, b.count - n)] + list[k + 1..]);
          } else {
            list := list[..k] + list[k + 1..];
          }
          return Some(b.start);
        }
        k := k + 1;
      }
      AllocatedAt(list, n, |list|);
      assert list[|list|..] == [] && list[..|list|] + [] == list;
      return None;
    }

    /** rt_page_free */
    method FreePages(a: nat, n: nat)
      requires Canonical(list) && n > 0 && Taken(list, a, n)
      modifies this
      ensures list == Freed(old(list), a, n) && Canonical(list)
    {
      FreedKeepsCanonical(list, a, n);
      list := Give(list, a, n);
    }
  }
}
