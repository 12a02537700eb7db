/** The memory pool of src/mempool.c: blocks of one size, a chain of the free ones, and
    threads that wait for a block. */
module MemPool {
  import opened Lists
  import opened Handoff

  /** A suspended call, by its thread. */
  type Thread = nat

  /** `live` are the blocks handed out. */
  datatype Pool = Pool(total: nat, free: seq<nat>, count: nat, live: set<nat>, waiters: seq<Thread>, woken: seq<Thread>)

  // ----- Steps

  /** The region of rt_mp_alloc, on entry and again after each wake-up.  The newest
      waiter is put first. */
  function TryAlloc(p: Pool, t: Thread, mayWait: bool): Pool
    requires p.count > 0 ==> p.free != []
  {
    if p.count > 0 then p.(count := p.count - 1, free := p.free[1..], live := p.live + {p.free[0]})
    else if mayWait then p.(waiters := [t] + p.waiters)
    else p
  }

  /** rt_mp_free */
  function Free(p: Pool, block: nat): Pool {
    var freed := p.(count := p.count + 1, free := [block] + p.free, live := p.live - {block});
    if p.waiters == [] then freed else freed.(waiters := p.waiters[1..], woken := p.woken + [p.waiters[0]])
  }

  datatype Event =
    | Allocs(t: Thread, mayWait: bool)
    | Retries(i: nat, mayWait: bool)
    | Frees(block: nat)
    | TimesOut(i: nat)
    | Resumed(i: nat)

  /** Only a block that was handed out is freed. */
  predicate Enabled(p: Pool, e: Event) {
    match e
    case Allocs(_, _) => true
    case Retries(i, _) => i < |p.woken|
    case Frees(block) => block in p.live
    case TimesOut(i) => i < |p.waiters|
    case Resumed(i) => i < |p.waiters|
  }

  predicate Defined(p: Pool, e: Event) {
    e.Allocs? || e.Retries? ==> p.count > 0 ==> p.free != []
  }

  function Next(p: Pool, e: Event): Pool
    requires Enabled(p, e) && Defined(p, e)
  {
    match e
    case Allocs(t, mayWait) => TryAlloc(p, t, mayWait)
    case Retries(i, mayWait) => TryAlloc(p.(woken := Without(p.woken, i)), p.woken[i], mayWait)
    case Frees(block) => Free(p, block)
    case TimesOut(i) => p.(waiters := Without(p.waiters, i))
    case Resumed(i) => p.(waiters := Without(p.waiters, i), woken := p.woken + [p.waiters[i]])
  }

  // ----- The invariant

  /** Every block is either free, once, or handed out; the count is that of the chain;
      and somebody waits only while every free block is spoken for. */
  ghost predicate Inv(p: Pool) {
    && p.count == |p.free|
    && Distinct(p.free)
    && (forall b: nat :: b in p.free || b in p.live <==> b < p.total)
    && (forall b :: b in p.free ==> b !in p.live)
    && NotStranded(|p.free|, |p.waiters|, |p.woken|)
  }

  lemma TakeKeeps(p: Pool, t: Thread, mayWait: bool)
    requires Inv(p) && p.count > 0
    ensures Inv(TryAlloc(p, t, mayWait)) && p.free[0] !in p.live && p.free[0] < p.total
  {
    HeadApart(p.free);
    assert p.free[0] in p.free;
  }

  lemma FreeKeeps(p: Pool, block: nat)
    requires Inv(p) && block in p.live
    ensures Inv(Free(p, block))
  {
    assert block !in p.free;
    assert ([block] + p.free)[1..] == p.free;
  }

  lemma NextKeeps(p: Pool, e: Event)
    requires Inv(p) && Enabled(p, e)
    ensures Defined(p, e) && Inv(Next(p, e)) && Next(p, e).total == p.total
  {
    match e
    case Allocs(t, mayWait) => if p.count > 0 { TakeKeeps(p, t, mayWait); }
    case Retries(i, mayWait) => if p.count > 0 { TakeKeeps(p, p.woken[i], mayWait); }
    case Frees(block) => FreeKeeps(p, block);
    case _ =>
  }

  // ----- Whole runs

  function Ascending(n: nat): (r: seq<nat>)
    ensures |r| == n && forall i | 0 <= i < n :: r[i] == i
  {
    seq(n, i => i)
  }

  /** rt_mp_init over `total` blocks */
  function Fresh(total: nat): Pool {
    Pool(total, Ascending(total), total, {}, [], [])
  }

  /** After a step that is not defined anything could happen. */
  ghost predicate Step(p: Pool, e: Event, p': Pool) {
    Enabled(p, e) && (Defined(p, e) ==> p' == Next(p, e))
  }

  ghost predicate Run(total: nat, states: seq<Pool>, events: seq<Event>) {
    && |states| == |events| + 1
    && states[0] == Fresh(total)
    && forall k | 0 <= k < |events| :: Step(states[k], events[k], states[k + 1])
  }

  lemma FreshInv(total: nat)
    ensures Inv(Fresh(total))
  {
    var free := Ascending(total);
    forall b: nat
      ensures b in free <==> b < total
    {
      if b < total {
        assert free[b] == b;
      }
    }
  }

  /** In every state of every run the free count is the length of the chain, free and
      handed-out blocks partition the pool, and while a thread is suspended each free
      block is matched by a thread already woken for it. */
  lemma {:induction false} RunsAreSafe(total: nat, states: seq<Pool>, events: seq<Event>, k: nat)
    requires Run(total, states, events) && k <= |events|
    ensures Inv(states[k]) && states[k].total == total
    ensures states[k].waiters != [] ==> |states[k].free| <= |states[k].woken|
    ensures k < |events| ==> Defined(states[k], events[k])
  {
    if k == 0 {
      FreshInv(total);
    } else {
      RunsAreSafe(total, states, events, k - 1);
      assert Step(states[k - 1], events[k - 1], states[k]);
      NextKeeps(states[k - 1], events[k - 1]);
    }
    if k < |events| {
      assert Step(states[k], events[k], states[k + 1]);
      NextKeeps(states[k], events[k]);
    }
  }

  // ----- What becomes of a call

  /** In every run: a call gets the first free block if there is one, waits if there is none
      and it may, before everyone who waits already, and else changes nothing; a block given
      back is the next to be handed out, and wakes the thread that came to wait last. */
  lemma CallsProceedOrWait(total: nat, states: seq<Pool>, events: seq<Event>, k: nat)
    requires Run(total, states, events) && k < |events|
    ensures var p, p' := states[k], states[k + 1];
      match events[k]
      case Allocs(t, mayWait) =>
        && p'.live == p.live + (if p.free != [] then {p.free[0]} else {})
        && p'.waiters == (if p.free == [] && mayWait then [t] else []) + p.waiters
        && (p' == p <==> p.free == [] && !mayWait)
      case Retries(i, mayWait) =>
        && i < |p.woken| && p'.woken == Without(p.woken, i)
        && p'.live == p.live + (if p.free != [] then {p.free[0]} else {})
        && p'.waiters == (if p.free == [] && mayWait then [p.woken[i]] else []) + p.waiters
      case Frees(block) =>
        && p'.live == p.live - {block} && p'.free == [block] + p.free
        && p'.waiters == (if p.waiters == [] then [] else p.waiters[1..])
        && p'.woken == p.woken + (if p.waiters == [] then [] else [p.waiters[0]])
      case TimesOut(i) => i < |p.waiters| && p' == p.(waiters := Without(p.waiters, i))
      case Resumed(i) =>
        i < |p.waiters| && p'.waiters == Without(p.waiters, i) && p'.woken == p.woken + [p.waiters[i]] && p'.live == p.live
  {
    RunsAreSafe(total, states, events, k);
    hide Distinct, NotStranded;
    assert Step(states[k], events[k], states[k + 1]);
    var p := states[k];
    if p.free != [] {
      assert p.free[0] in p.free && p.free[0] !in p.live;
    }
  }

  // ----- The chain through the blocks

  /** What stands in the first word of a block that is handed out. */
  const POOL: int := -2

  class Blocks {
    var link: seq<int>
    var list: int
    var count: nat
    ghost var free: seq<nat>

    ghost predicate Valid()
      reads this
    {
      Chain(link, list, free) && Distinct(free) && count == |free|
    }

    /** rt_mp_init; the source writes before its pool when there is no block. */
    constructor (total: nat)
      requires total > 0
      ensures Valid() && |link| == total && free == Ascending(total)
    {
      var words: seq<int> := seq(total, i => NULL);
      for offset := 0 to total
        invariant |words| == total
        invariant forall i | 0 <= i < offset :: words[i] == i + 1
      {
        words := words[offset := offset + 1];
      }
      words := words[total - 1 := NULL];
      AscendingChain(words, 0);
      assert Ascending(total)[0..] == Ascending(total);
      link, list, count, free := words, 0, total, Ascending(total);
    }

    /** The block handed out by rt_mp_alloc. */
    method Take() returns (block: nat)
      requires Valid() && count > 0
      modifies this
      ensures Valid() && block == old(free)[0] && free == old(free)[1..] && count == old(count) - 1
      ensures block < |link| == old(|link|) && block !in free && link[block] == POOL
      ensures forall x | 0 <= x < |link| && x != block :: link[x] == old(link)[x]
    {
      count := count - 1;
      block := list;
      HeadApart(free);
      ChainFrame(link, link[block], free[1..], block, POOL);
      list := link[block];
      link := link[block := POOL];
      free := free[1..];
    }

    /** The part of rt_mp_free that links the block. */
    method Give(block: nat)
      requires Valid() && block < |link| && block !in free
      modifies this
      ensures Valid() && free == [block] + old(free) && count == old(count) + 1 && |link| == old(|link|)
      ensures forall x | 0 <= x < |link| && x != block :: link[x] == old(link)[x]
    {
      count := count + 1;
      ChainFrame(link, list, free, block, list);
      link := link[block := list];
      list := block;
      free := [block] + free;
      assert free[1..] == old(free);
    }

    /** The chain holds what the protocol calls free, and the first word of every block
        handed out names the pool, which is where rt_mp_free finds it. */
    ghost predicate Mirrors(p: Pool)
      reads this
    {
      && Valid() && |link| == p.total && free == p.free && count == p.count
      && forall b | b in p.live && 0 <= b < |link| :: link[b] == POOL
    }

    /** Whatever step the protocol makes, the calls that step stands for may be made on the
        chain, and leave it holding what the protocol then holds. */
    method Follow(p: Pool, e: Event)
      requires Mirrors(p) && Inv(p) && Enabled(p, e)
      modifies this
      ensures Defined(p, e) && Mirrors(Next(p, e)) && Inv(Next(p, e))
    {
      NextKeeps(p, e);
      match e
      case Allocs(_, _) =>
        if count > 0 {
          var block := Take();
        }
      case Retries(_, _) =>
        if count > 0 {
          var block := Take();
        }
      case Frees(block) =>
        Give(block);
      case _ =>
    }
  }

  lemma {:induction false} AscendingChain(words: seq<int>, k: nat)
    requires k < |words| && forall i | 0 <= i < |words| - 1 :: words[i] == i + 1
    requires words[|words| - 1] == NULL
    ensures Chain(words, k, Ascending(|words|)[k..])
    decreases |words| - k
  {
    var rest := Ascending(|words|)[k..];
    assert rest[0] == k && rest[1..] == Ascending(|words|)[k + 1..];
    if k + 1 < |words| {
      AscendingChain(words, k + 1);
    }
  }
}
