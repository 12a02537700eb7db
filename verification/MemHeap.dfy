/** The memory heap of src/memheap.c: every block lies on a circular list in
    address order, every free block also on a circular free list, and the number
    of free bytes is kept up to date.

    `used`, `next`, `prev`, `nextFree` and `prevFree` are the header fields, by
    block address relative to the pool; FREE_HEADER is the address of the free
    list's own header, which is not in the pool. */
module MemHeap {
  import opened Alignment
  import opened RingList
  import opened Words

  const HEADER := 24     // RT_MEMHEAP_SIZE
  const MINI_ALLOC := 12 // RT_MEMHEAP_MINIALLOC
  const FREE_HEADER := -1
  const MAGIC := 0x1ea0_1ea0
  const PREV_FIELD := 12 // of struct rt_memheap_item
  const POOL := 0        // stands for the address of the heap object

  datatype Pointer = Null | At(offset: int)

  ghost predicate Ordered(next: Links, p: int, q: int)
    requires p in next
  {
    p < q ==> next[p] <= q
  }

  /** The headers in `blocks` tile [0, tail) with at least MINI_ALLOC bytes of data
      each; `next` runs through them in address order and round, `prev` back. */
  ghost predicate Tiled(next: Links, prev: Links, blocks: set<int>, tail: int) {
    && 0 < tail && 0 in blocks && tail in blocks
    && (forall p | p in blocks :: 0 <= p <= tail && p in next && p in prev)
    && next[tail] == 0 && prev[0] == tail
    && (forall p {:trigger next[p]} | p in blocks && p < tail :: next[p] in blocks && p + HEADER + MINI_ALLOC <= next[p])
    && (forall p, q {:trigger Ordered(next, p, q)} | p in blocks && q in blocks && p < tail :: Ordered(next, p, q))
    && (forall p {:trigger prev[p]} | p in blocks && 0 < p :: prev[p] in blocks && prev[p] < p && next[prev[p]] == p)
  }

  lemma Apart(next: Links, prev: Links, blocks: set<int>, tail: int, p: int, q: int)
    requires Tiled(next, prev, blocks, tail) && p in blocks && q in blocks
    ensures p == q || (p < q && next[p] <= q) || (q < p && next[q] <= p)
  {
    assert p < tail ==> Ordered(next, p, q);
    assert q < tail ==> Ordered(next, q, p);
  }

  lemma BackThenOn(next: Links, prev: Links, blocks: set<int>, tail: int, p: int)
    requires Tiled(next, prev, blocks, tail) && p in blocks
    ensures p in prev && prev[p] in blocks && prev[p] in next && next[prev[p]] == p
  {
    hide Ordered;
    if p > 0 {
      assert prev[p] in blocks && next[prev[p]] == p;
    }
  }

  lemma OnThenBack(next: Links, prev: Links, blocks: set<int>, tail: int, p: int)
    requires Tiled(next, prev, blocks, tail) && p in blocks
    ensures p in next && next[p] in blocks && next[p] in prev && prev[next[p]] == p
  {
    if p < tail {
      OnlyPrev(next, prev, blocks, tail, p, next[p]);
    } else {
      assert p == tail;
    }
  }

  /** prev is the inverse of next, all the way round. */
  lemma PrevInvertsNext(next: Links, prev: Links, blocks: set<int>, tail: int, p: int)
    requires Tiled(next, prev, blocks, tail) && p in blocks
    ensures p in next && next[p] in blocks && next[p] in prev && prev[next[p]] == p
    ensures p in prev && prev[p] in blocks && prev[p] in next && next[prev[p]] == p
  {
    hide Tiled;
    BackThenOn(next, prev, blocks, tail, p);
    OnThenBack(next, prev, blocks, tail, p);
  }

  lemma OnlyPrev(next: Links, prev: Links, blocks: set<int>, tail: int, p: int, q: int)
    requires Tiled(next, prev, blocks, tail) && p in blocks && p < tail && q == next[p]
    ensures q in blocks && prev[q] == p
  {
    var r := prev[q];
    assert 0 < q && r in blocks && r < q && next[r] == q;
    assert Ordered(next, p, r) && Ordered(next, r, p);
  }

  lemma OnlyOnePrev(next: Links, prev: Links, blocks: set<int>, tail: int, h: int)
    requires Tiled(next, prev, blocks, tail) && h in blocks && 0 < h
    ensures forall p {:trigger next[p]} | p in blocks && p < tail && p != prev[h] :: next[p] != h
  {
    forall p | p in blocks && p < tail && p != prev[h]
      ensures next[p] != h
    {
      PrevInvertsNext(next, prev, blocks, tail, p);
    }
  }

  lemma SplitKeepsTiling(next: Links, prev: Links, blocks: set<int>, tail: int, p: int, m: int, next': Links, prev': Links)
    requires Tiled(next, prev, blocks, tail) && p in blocks && p < tail
    requires p + HEADER + MINI_ALLOC <= m && m + HEADER + MINI_ALLOC <= next[p]
    requires next' == next[m := next[p]][p := m] && prev' == prev[m := p][next[p] := m]
    ensures Tiled(next', prev', blocks + {m}, tail) && m !in blocks
  {
    var b, n := blocks + {m}, next[p];
    assert m !in blocks by {
      if m in blocks {
        Apart(next, prev, blocks, tail, p, m);
      }
    }
    forall x, y | x in b && y in b && x < tail
      ensures Ordered(next', x, y)
    {
      if x != m && x != p {
        assert Ordered(next, x, if y == m then p else y);
        Apart(next, prev, blocks, tail, x, p);
      } else if y != m {
        Apart(next, prev, blocks, tail, p, y);
      }
    }
    forall x {:trigger next'[x]} | x in b && x < tail
      ensures next'[x] in b && x + HEADER + MINI_ALLOC <= next'[x]
    {
      if x != m && x != p {
        assert next'[x] == next[x];
      }
    }
    forall x {:trigger prev'[x]} | x in b && 0 < x
      ensures prev'[x] in b && prev'[x] < x && next'[prev'[x]] == x
    {
      if x != m && x != n {
        assert prev'[x] == prev[x] && next[prev[x]] == x;
      }
    }
  }

  lemma MergeKeepsTiling(next: Links, prev: Links, blocks: set<int>, tail: int, p: int, next': Links, prev': Links)
    requires Tiled(next, prev, blocks, tail) && p in blocks && p < tail && next[p] < tail
    requires next' == next[p := next[next[p]]] && prev' == prev[next[next[p]] := p]
    ensures Tiled(next', prev', blocks - {next[p]}, tail)
  {
    var m := next[p];
    var b, n := blocks - {m}, next[m];
    forall x, y | x in b && y in b && x < tail
      ensures Ordered(next', x, y)
    {
      Apart(next, prev, blocks, tail, x, y);
      if x == p {
        Apart(next, prev, blocks, tail, m, y);
      }
    }
    forall x {:trigger next'[x]} | x in b && x < tail
      ensures next'[x] in b && x + HEADER + MINI_ALLOC <= next'[x]
    {
      if x != p {
        assert next'[x] == next[x];
        Apart(next, prev, blocks, tail, x, p);
        Apart(next, prev, blocks, tail, x, m);
      }
    }
    forall x {:trigger prev'[x]} | x in b && 0 < x
      ensures prev'[x] in b && prev'[x] < x && next'[prev'[x]] == x
    {
      if x != n {
        assert prev'[x] == prev[x] && next[prev[x]] == x && prev[x] != m && prev[x] != p;
      }
    }
  }

  // ----- Free blocks

  type Flags = map<int, bool>

  ghost predicate Flagged(used: Flags, blocks: set<int>, tail: int) {
    tail in blocks && (forall p | p in blocks :: p in used) && used[tail]
  }

  ghost predicate SettledAt(used: Flags, next: Links, p: int) {
    p in next && p in used && next[p] in used && (used[p] || used[next[p]])
  }

  /** No two neighbouring blocks are both free, except perhaps `x` and the block
      after it; with x == -1, nowhere. */
  ghost predicate CoalescedFrom(used: Flags, next: Links, blocks: set<int>, tail: int, x: int) {
    forall p {:trigger SettledAt(used, next, p)} | p in blocks && p < tail && p != x :: SettledAt(used, next, p)
  }

  ghost predicate IsFree(used: Flags, blocks: set<int>, p: int) {
    p in blocks && p in used && !used[p]
  }

  ghost predicate ListedIffFree(used: Flags, blocks: set<int>, free: seq<int>, out: int, p: int) {
    p in free <==> IsFree(used, blocks, p) && p != out
  }

  /** The free list holds every free block once and nothing else, except that
      block `out` is not on it; with out == -1, exactly the free blocks. */
  ghost predicate ListsFree(used: Flags, blocks: set<int>, free: seq<int>, out: int) {
    && Distinct(free)
    && (forall p {:trigger ListedIffFree(used, blocks, free, out, p)} :: ListedIffFree(used, blocks, free, out, p))
  }

  /** The same exception on both sides of `x`. */
  ghost predicate CoalescedAround(used: Flags, next: Links, blocks: set<int>, tail: int, x: int) {
    forall p {:trigger SettledAt(used, next, p)} | p in blocks && p < tail && p != x && p in next && next[p] != x ::
      SettledAt(used, next, p)
  }

  /** Free data bytes of the block at `a`, if there is one. */
  ghost function Weight(used: Flags, next: Links, blocks: set<int>, a: int): int {
    if a in blocks && a in used && a in next && !used[a] then next[a] - a - HEADER else 0
  }

  ghost function FreeBelow(used: Flags, next: Links, blocks: set<int>, n: nat): int {
    if n == 0 then 0 else FreeBelow(used, next, blocks, n - 1) + Weight(used, next, blocks, n - 1)
  }

  ghost function Gain(used: Flags, next: Links, blocks: set<int>, used': Flags, next': Links, blocks': set<int>, a: int, n: int): int {
    if 0 <= a < n then Weight(used', next', blocks', a) - Weight(used, next, blocks, a) else 0
  }

  /** When at most two blocks change weight the sum moves by what they gained. */
  lemma {:induction false} FreeBelowChange(used: Flags, next: Links, blocks: set<int>,
                                           used': Flags, next': Links, blocks': set<int>, p: int, q: int, n: nat)
    requires p != q
    requires forall a | 0 <= a < n && a != p && a != q :: Weight(used, next, blocks, a) == Weight(used', next', blocks', a)
    ensures FreeBelow(used', next', blocks', n) == FreeBelow(used, next, blocks, n)
            + Gain(used, next, blocks, used', next', blocks', p, n) + Gain(used, next, blocks, used', next', blocks', q, n)
  {
    if n > 0 {
      FreeBelowChange(used, next, blocks, used', next', blocks', p, q, n - 1);
    }
  }

  /** Everything but coalescing and the link structure of the free list: flags, list
      contents and byte count agree, with block `out` not on the free list. */
  ghost predicate Books(used: Flags, next: Links, prev: Links, available: int, blocks: set<int>, free: seq<int>,
                        tail: int, out: int)
  {
    && Tiled(next, prev, blocks, tail) && Flagged(used, blocks, tail) && AllOnWord(blocks)
    && ListsFree(used, blocks, free, out)
    && available == FreeBelow(used, next, blocks, tail)
  }

  /** Marking the free block `h`, entry k of the free list, used. */
  lemma TakeEffect(used: Flags, next: Links, prev: Links, available: int, blocks: set<int>, free: seq<int>,
                   tail: int, h: int, k: int)
    requires Books(used, next, prev, available, blocks, free, tail, -1) && CoalescedFrom(used, next, blocks, tail, -1)
    requires 0 <= k < |free| && free[k] == h && h in next
    ensures Books(used[h := true], next, prev, available - (next[h] - h - HEADER), blocks, Without(free, k), tail, -1)
    ensures CoalescedFrom(used[h := true], next, blocks, tail, -1)
  {
    assert ListedIffFree(used, blocks, free, -1, h);
    TakeListing(used, blocks, free, h, k);
    TakeSettles(used, next, blocks, tail, h);
    FreeBelowChange(used, next, blocks, used[h := true], next, blocks, h, -1, tail);
  }

  lemma TakeListing(used: Flags, blocks: set<int>, free: seq<int>, h: int, k: int)
    requires ListsFree(used, blocks, free, -1) && 0 <= k < |free| && free[k] == h
    ensures ListsFree(used[h := true], blocks, Without(free, k), -1)
  {
    var used' := used[h := true];
    WithoutMembers(free, k);
    forall p ensures ListedIffFree(used', blocks, Without(free, k), -1, p) {
      assert ListedIffFree(used, blocks, free, -1, p);
    }
  }

  lemma TakeSettles(used: Flags, next: Links, blocks: set<int>, tail: int, h: int)
    requires CoalescedFrom(used, next, blocks, tail, -1)
    ensures CoalescedFrom(used[h := true], next, blocks, tail, -1)
  {
    forall p | p in blocks && p < tail && p != -1
      ensures SettledAt(used[h := true], next, p)
    {
      assert SettledAt(used, next, p);
    }
  }

  /** Splitting the free block `h` at `m` and marking the front used. */
  lemma SplitTakeEffect(used: Flags, next: Links, prev: Links, available: int, blocks: set<int>, free: seq<int>,
                        tail: int, h: int, m: int, k: int, next': Links, prev': Links)
    requires Books(used, next, prev, available, blocks, free, tail, -1) && CoalescedFrom(used, next, blocks, tail, -1)
    requires 0 <= k < |free| && free[k] == h && h in next && h < m && OnWord(m) && m !in blocks
    requires Tiled(next', prev', blocks + {m}, tail) && next' == next[m := next[h]][h := m]
    ensures Books(used[m := false][h := true], next', prev', available - (m - h), blocks + {m}, [m] + Without(free, k), tail, -1)
    ensures CoalescedFrom(used[m := false][h := true], next', blocks + {m}, tail, -1)
    ensures m !in Without(free, k)
  {
    assert ListedIffFree(used, blocks, free, -1, h);
    SwapListing(used, blocks, free, h, m, k);
    SplitSettles(used, next, blocks, tail, h, m, next');
    SplitCounts(used, next, blocks, tail, h, m, next');
    SplitFlags(used, blocks, tail, h, m);
    hide Tiled, CoalescedFrom, ListsFree, FreeBelow;
  }

  lemma SplitFlags(used: Flags, blocks: set<int>, tail: int, h: int, m: int)
    requires Flagged(used, blocks, tail) && AllOnWord(blocks) && OnWord(m) && m != tail
    ensures Flagged(used[m := false][h := true], blocks + {m}, tail) && AllOnWord(blocks + {m})
  {
  }

  lemma SplitCounts(used: Flags, next: Links, blocks: set<int>, tail: nat, h: int, m: int, next': Links)
    requires h in blocks && h in used && !used[h] && h in next && 0 <= h < m < tail && m !in blocks
    requires next' == next[m := next[h]][h := m]
    ensures FreeBelow(used[m := false][h := true], next', blocks + {m}, tail) == FreeBelow(used, next, blocks, tail) - (m - h)
  {
    FreeBelowChange(used, next, blocks, used[m := false][h := true], next', blocks + {m}, h, m, tail);
  }

  lemma SwapListing(used: Flags, blocks: set<int>, free: seq<int>, h: int, m: int, k: int)
    requires ListsFree(used, blocks, free, -1) && 0 <= k < |free| && free[k] == h && m !in blocks && m != -1
    ensures ListsFree(used[m := false][h := true], blocks + {m}, [m] + Without(free, k), -1)
    ensures m !in Without(free, k)
  {
    var used' := used[m := false][h := true];
    assert ListedIffFree(used, blocks, free, -1, m) && ListedIffFree(used, blocks, free, -1, h);
    WithoutMembers(free, k);
    ConsMembers(m, Without(free, k));
    forall p ensures ListedIffFree(used', blocks + {m}, [m] + Without(free, k), -1, p) {
      assert ListedIffFree(used, blocks, free, -1, p);
    }
  }

  lemma SplitSettles(used: Flags, next: Links, blocks: set<int>, tail: int, h: int, m: int, next': Links)
    requires CoalescedFrom(used, next, blocks, tail, -1)
    requires h in blocks && 0 <= h < tail && h in used && !used[h] && h in next && m !in blocks && m != -1
    requires next' == next[m := next[h]][h := m]
    requires forall p {:trigger next[p]} | p in blocks && p < tail :: p in next && next[p] in blocks
    requires next[h] != h
    ensures CoalescedFrom(used[m := false][h := true], next', blocks + {m}, tail, -1)
  {
    assert SettledAt(used, next, h);
    forall p | p in blocks + {m} && p < tail && p != -1
      ensures SettledAt(used[m := false][h := true], next', p)
    {
      if p != m {
        assert SettledAt(used, next, p);
      }
    }
  }

  /** Marking the used block `h` free, before it is listed or merged. */
  lemma UnmarkEffect(used: Flags, next: Links, prev: Links, available: int, blocks: set<int>, free: seq<int>, tail: int, h: int)
    requires Books(used, next, prev, available, blocks, free, tail, -1) && CoalescedFrom(used, next, blocks, tail, -1)
    requires h in blocks && h < tail && used[h]
    ensures Books(used[h := false], next, prev, available + (next[h] - h - HEADER), blocks, free, tail, h)
    ensures CoalescedAround(used[h := false], next, blocks, tail, h)
  {
    var used' := used[h := false];
    forall p
      ensures ListedIffFree(used', blocks, free, h, p)
    {
      assert ListedIffFree(used, blocks, free, -1, p);
    }
    forall p | p in blocks && p < tail && p != h && p in next && next[p] != h
      ensures SettledAt(used', next, p)
    {
      assert SettledAt(used, next, p);
    }
    FreeBelowChange(used, next, blocks, used', next, blocks, h, -1, tail);
  }

  /** Free block `x` has taken in `h`, the unlisted free block after it. */
  lemma MergeLeftEffect(used: Flags, next: Links, prev: Links, available: int, blocks: set<int>, free: seq<int>, tail: int,
                        x: int, h: int, next': Links, prev': Links)
    requires Books(used, next, prev, available, blocks, free, tail, h) && CoalescedAround(used, next, blocks, tail, h)
    requires x in blocks && h in blocks && x < tail && h < tail && next[x] == h && !used[x] && !used[h]
    requires Tiled(next', prev', blocks - {h}, tail) && next' == next[x := next[h]]
    ensures Books(used, next', prev', available + HEADER, blocks - {h}, free, tail, -1)
    ensures CoalescedFrom(used, next', blocks - {h}, tail, x)
  {
    var b := blocks - {h};
    PrevInvertsNext(next, prev, blocks, tail, x);
    OnlyOnePrev(next, prev, blocks, tail, h);
    forall p
      ensures ListedIffFree(used, b, free, -1, p)
    {
      assert ListedIffFree(used, blocks, free, h, p);
    }
    forall p | p in b && p < tail && p != x
      ensures SettledAt(used, next', p)
    {
      assert SettledAt(used, next, p);
    }
    FreeBelowChange(used, next, blocks, used, next', b, x, h, tail);
  }

  lemma NoLeftEffect(used: Flags, next: Links, prev: Links, blocks: set<int>, tail: int, h: int)
    requires Tiled(next, prev, blocks, tail) && Flagged(used, blocks, tail) && h in blocks && used[prev[h]]
    requires CoalescedAround(used, next, blocks, tail, h)
    ensures CoalescedFrom(used, next, blocks, tail, h)
  {
    forall p | p in blocks && p < tail && p != h
      ensures SettledAt(used, next, p)
    {
      PrevInvertsNext(next, prev, blocks, tail, p);
    }
  }

  /** Free block `x` has taken in `n`, the listed free block after it. */
  lemma MergeRightEffect(used: Flags, next: Links, prev: Links, available: int, blocks: set<int>, free: seq<int>, tail: int,
                         out: int, x: int, k: int, next': Links, prev': Links)
    requires Books(used, next, prev, available, blocks, free, tail, out) && CoalescedFrom(used, next, blocks, tail, x)
    requires x in blocks && x < tail && next[x] < tail && !used[x] && !used[next[x]] && (out == x || out == -1)
    requires 0 <= k < |free| && free[k] == next[x]
    requires Tiled(next', prev', blocks - {next[x]}, tail) && next' == next[x := next[next[x]]]
    ensures Books(used, next', prev', available + HEADER, blocks - {next[x]}, Without(free, k), tail, out)
    ensures CoalescedFrom(used, next', blocks - {next[x]}, tail, -1)
  {
    var n := next[x];
    var b := blocks - {n};
    WithoutMembers(free, k);
    forall p
      ensures ListedIffFree(used, b, Without(free, k), out, p)
    {
      assert ListedIffFree(used, blocks, free, out, p);
    }
    PrevInvertsNext(next, prev, blocks, tail, x);
    OnlyOnePrev(next, prev, blocks, tail, n);
    assert SettledAt(used, next, n);
    forall p | p in b && p < tail && p != -1
      ensures SettledAt(used, next', p)
    {
      assert p != x ==> SettledAt(used, next, p);
    }
    FreeBelowChange(used, next, blocks, used, next', b, x, n, tail);
  }

  /** A free, unlisted block `m` has been cut from the end of the used block `h`. */
  lemma CutEffect(used: Flags, next: Links, prev: Links, available: int, blocks: set<int>, free: seq<int>, tail: int,
                  h: int, m: int, next': Links, prev': Links)
    requires Books(used, next, prev, available, blocks, free, tail, -1) && CoalescedFrom(used, next, blocks, tail, -1)
    requires h in blocks && h < m < tail && used[h] && OnWord(m) && m !in blocks
    requires Tiled(next', prev', blocks + {m}, tail) && next' == next[m := next[h]][h := m]
    ensures Books(used[m := false], next', prev', available + (next[h] - m - HEADER), blocks + {m}, free, tail, m)
    ensures CoalescedFrom(used[m := false], next', blocks + {m}, tail, m)
  {
    CutListing(used, used[m := false], blocks, free, m);
    CutSettles(used, used[m := false], next, blocks, tail, h, m, next');
    CutCounts(used, used[m := false], next, blocks, tail, h, m, next');
  }

  lemma CutCounts(used: Flags, used': Flags, next: Links, blocks: set<int>, tail: nat, h: int, m: int, next': Links)
    requires h in blocks && h in used && used[h] && h in next && 0 <= m < tail && m !in blocks && m != h
    requires used' == used[m := false] && next' == next[m := next[h]][h := m]
    ensures FreeBelow(used', next', blocks + {m}, tail) == FreeBelow(used, next, blocks, tail) + (next[h] - m - HEADER)
  {
    FreeBelowChange(used, next, blocks, used', next', blocks + {m}, h, m, tail);
  }

  lemma CutListing(used: Flags, used': Flags, blocks: set<int>, free: seq<int>, m: int)
    requires ListsFree(used, blocks, free, -1) && m !in blocks && used' == used[m := false] && -1 !in blocks
    ensures ListsFree(used', blocks + {m}, free, m)
  {
    forall p
      ensures ListedIffFree(used', blocks + {m}, free, m, p)
    {
      assert ListedIffFree(used, blocks, free, -1, p);
    }
  }

  lemma CutSettles(used: Flags, used': Flags, next: Links, blocks: set<int>, tail: int, h: int, m: int, next': Links)
    requires CoalescedFrom(used, next, blocks, tail, -1) && used' == used[m := false] && -1 !in blocks
    requires h in blocks && h in used && used[h] && h in next && m !in blocks && next' == next[m := next[h]][h := m]
    requires forall p {:trigger next[p]} | p in blocks && p < tail :: p in next && next[p] in blocks
    ensures CoalescedFrom(used', next', blocks + {m}, tail, m)
  {
    forall p | p in blocks + {m} && p < tail && p != m
      ensures SettledAt(used', next', p)
    {
      assert SettledAt(used, next, p);
    }
  }

  /** The used block `h` has grown into `n`, the free block after it; the free rest
      now starts at `m`. */
  lemma GrowEffect(used: Flags, next: Links, prev: Links, available: int, blocks: set<int>, free: seq<int>, tail: int,
                   h: int, m: int, k: int, next': Links, prev': Links)
    requires Books(used, next, prev, available, blocks, free, tail, -1) && CoalescedFrom(used, next, blocks, tail, -1)
    requires h in blocks && h < tail && used[h] && next[h] < m < tail && !used[next[h]]
    requires OnWord(m) && m !in blocks && 0 <= k < |free| && free[k] == next[h]
    requires var n := next[h];
             Tiled(next', prev', blocks - {n} + {m}, tail) && next' == next[h := next[n]][m := next[n]][h := m]
    ensures var n := next[h];
            && Books(used[m := false], next', prev', available - (m - n), blocks - {n} + {m}, [m] + Without(free, k), tail, -1)
            && CoalescedFrom(used[m := false], next', blocks - {n} + {m}, tail, -1)
    ensures m !in Without(free, k)
  {
    var n := next[h];
    var b, used' := blocks - {n} + {m}, used[m := false];
    GrowListing(used, used', blocks, free, n, m, k);
    GrowSettles(used, used', next, prev, blocks, tail, h, m, next');
    GrowCounts(used, used', next, blocks, tail, h, n, m, next');
  }

  lemma GrowCounts(used: Flags, used': Flags, next: Links, blocks: set<int>, tail: nat, h: int, n: int, m: int, next': Links)
    requires h in blocks && h in used && used[h] && n in blocks && n in used && !used[n] && n in next && h in next
    requires 0 <= n < m < tail && m !in blocks && used' == used[m := false]
    requires next' == next[h := next[n]][m := next[n]][h := m]
    ensures FreeBelow(used', next', blocks - {n} + {m}, tail) == FreeBelow(used, next, blocks, tail) - (m - n)
  {
    FreeBelowChange(used, next, blocks, used', next', blocks - {n} + {m}, n, m, tail);
  }

  lemma GrowListing(used: Flags, used': Flags, blocks: set<int>, free: seq<int>, n: int, m: int, k: int)
    requires ListsFree(used, blocks, free, -1) && m !in blocks && used' == used[m := false] && m != -1
    requires 0 <= k < |free| && free[k] == n
    ensures ListsFree(used', blocks - {n} + {m}, [m] + Without(free, k), -1) && m !in Without(free, k)
  {
    assert ListedIffFree(used, blocks, free, -1, m);
    WithoutMembers(free, k);
    ConsMembers(m, Without(free, k));
    forall p
      ensures ListedIffFree(used', blocks - {n} + {m}, [m] + Without(free, k), -1, p)
    {
      assert ListedIffFree(used, blocks, free, -1, p);
    }
  }

  lemma GrowSettles(used: Flags, used': Flags, next: Links, prev: Links, blocks: set<int>, tail: int, h: int, m: int, next': Links)
    requires Tiled(next, prev, blocks, tail) && CoalescedFrom(used, next, blocks, tail, -1)
    requires h in blocks && h < tail && h in used && used[h] && next[h] < tail && next[h] in used && !used[next[h]]
    requires m !in blocks && used' == used[m := false]
    requires var n := next[h]; next' == next[h := next[n]][m := next[n]][h := m]
    ensures CoalescedFrom(used', next', blocks - {next[h]} + {m}, tail, -1)
  {
    var n := next[h];
    PrevInvertsNext(next, prev, blocks, tail, h);
    OnlyOnePrev(next, prev, blocks, tail, n);
    assert SettledAt(used, next, n);
    forall p | p in blocks - {n} + {m} && p < tail && p != -1
      ensures SettledAt(used', next', p)
    {
      if p != m {
        assert SettledAt(used, next, p);
      }
    }
  }

  lemma ListEffect(used: Flags, next: Links, prev: Links, available: int, blocks: set<int>, free: seq<int>, tail: int, x: int)
    requires Books(used, next, prev, available, blocks, free, tail, x) && x in blocks && x in used && !used[x]
    ensures Books(used, next, prev, available, blocks, [x] + free, tail, -1)
    ensures x !in free
  {
    assert ListedIffFree(used, blocks, free, x, x);
    ConsMembers(x, free);
    forall p
      ensures ListedIffFree(used, blocks, [x] + free, -1, p)
    {
      assert ListedIffFree(used, blocks, free, x, p);
    }
  }

  /** Entry k is the first on the free list with room for `sz` bytes. */
  ghost predicate FirstFit(next: Links, free: seq<int>, k: int, sz: int) {
    && 0 <= k < |free| && free[k] in next && next[free[k]] - free[k] - HEADER >= sz
    && (forall j {:trigger free[j]} | 0 <= j < k :: free[j] in next && next[free[j]] - free[j] - HEADER < sz)
  }

  ghost predicate NoFit(next: Links, free: seq<int>, sz: int) {
    forall j {:trigger free[j]} | 0 <= j < |free| :: free[j] in next && next[free[j]] - free[j] - HEADER < sz
  }

  /** Every used block other than `x` is still there, used, and as large as before. */
  ghost predicate KeepsLive(used: Flags, next: Links, blocks: set<int>, used': Flags, next': Links, blocks': set<int>,
                            tail: int, x: int)
  {
    forall p {:trigger StillLive(next, used', next', blocks', p)}
      | p in blocks && p < tail && p != x && p in used && used[p] :: StillLive(next, used', next', blocks', p)
  }

  ghost predicate StillLive(next: Links, used': Flags, next': Links, blocks': set<int>, p: int) {
    p in blocks' && p in used' && used'[p] && p in next && p in next' && next'[p] == next[p]
  }

  lemma KeptAlive(used: Flags, next: Links, blocks: set<int>, used': Flags, next': Links, blocks': set<int>, tail: int, x: int, p: int)
    requires KeepsLive(used, next, blocks, used', next', blocks', tail, x)
    requires p in blocks && p < tail && p != x && p in used && used[p]
    ensures StillLive(next, used', next', blocks', p)
  {
  }

  lemma NothingMoved(used: Flags, next: Links, prev: Links, available: int, blocks: set<int>, free: seq<int>, tail: int, x: int)
    requires Books(used, next, prev, available, blocks, free, tail, -1)
    ensures KeepsLive(used, next, blocks, used, next, blocks, tail, x)
  {
  }

  // ----- Data bytes

  /** The data area of block `p` holds what it held. */
  ghost predicate SameData(next: Links, data: Ram, data': Ram, p: int) {
    p in next && forall a {:trigger data'[a]} | p + HEADER <= a < next[p] :: 0 <= a < |data| && a < |data'| && data'[a] == data[a]
  }

  /** No live block but `x` has lost a byte. */
  ghost predicate KeepsData(used: Flags, next: Links, blocks: set<int>, data: Ram, data': Ram, tail: int, x: int) {
    forall p {:trigger SameData(next, data, data', p)} | p in blocks && p < tail && p != x && p in used && used[p] ::
      SameData(next, data, data', p)
  }

  /** Writing inside block `h` leaves the data of all others alone. */
  lemma WriteInBlock(used: Flags, next: Links, prev: Links, available: int, blocks: set<int>, free: seq<int>, tail: int,
                     data: Ram, data': Ram, h: int, lo: int, n: int, x: int)
    requires Books(used, next, prev, available, blocks, free, tail, -1) && h in blocks && h < tail && tail <= |data|
    requires h <= lo && lo + n <= next[h] && OnlyWrote(data, data', lo, n) && (x == h || !used[h])
    ensures KeepsData(used, next, blocks, data, data', tail, x)
  {
    forall p | p in blocks && p < tail && p != x && p in used && used[p]
      ensures SameData(next, data, data', p)
    {
      DataDisjoint(used, next, prev, available, blocks, free, tail, p, h);
    }
  }

  /** The same for a used block `h` and the free one after it. */
  lemma WriteInPair(used: Flags, next: Links, prev: Links, available: int, blocks: set<int>, free: seq<int>, tail: int,
                    data: Ram, data': Ram, h: int, lo: int, n: int)
    requires Books(used, next, prev, available, blocks, free, tail, -1) && h in blocks && h < tail && tail <= |data|
    requires !used[next[h]] && h <= lo && lo + n <= next[next[h]] && OnlyWrote(data, data', lo, n)
    ensures KeepsData(used, next, blocks, data, data', tail, h)
  {
    forall p | p in blocks && p < tail && p != h && p in used && used[p]
      ensures SameData(next, data, data', p)
    {
      DataDisjoint(used, next, prev, available, blocks, free, tail, p, h);
      DataDisjoint(used, next, prev, available, blocks, free, tail, p, next[h]);
    }
  }

  /** The block after `h` is free: it is not the last, and both lie in the pool. */
  lemma FreeNext(used: Flags, next: Links, prev: Links, available: int, blocks: set<int>, free: seq<int>, tail: int, h: int)
    requires Books(used, next, prev, available, blocks, free, tail, -1) && h in blocks && h < tail && !used[next[h]]
    ensures 0 <= h && h + HEADER + MINI_ALLOC <= next[h] && next[h] in next
    ensures next[h] + HEADER + MINI_ALLOC <= next[next[h]] <= tail
  {
    SizesInPool(used, next, prev, available, blocks, free, tail, h);
    SizesInPool(used, next, prev, available, blocks, free, tail, next[h]);
  }

  lemma ExpandKeepsData(used: Flags, next: Links, prev: Links, available: int, blocks: set<int>, free: seq<int>, tail: int,
                        data: Ram, data': Ram, h: int, m: int)
    requires Books(used, next, prev, available, blocks, free, tail, -1) && h in blocks && h < tail && tail <= |data|
    requires !used[next[h]] && OnlyWrote(data, data', m, HEADER)
    requires (next[h] < m && m + HEADER <= next[next[h]]) || h < m < h + HEADER
    ensures KeepsData(used, next, blocks, data, data', tail, if m < h + HEADER then h else -1)
  {
    FreeNext(used, next, prev, available, blocks, free, tail, h);
    if m < h + HEADER {
      WriteInPair(used, next, prev, available, blocks, free, tail, data, data', h, m, HEADER);
    } else {
      WriteInBlock(used, next, prev, available, blocks, free, tail, data, data', next[h], m, HEADER, -1);
    }
  }

  lemma KeptPrefix(used: Flags, next: Links, blocks: set<int>, data: Ram, data': Ram, tail: int, h: int, n: int)
    requires KeepsData(used, next, blocks, data, data', tail, -1) && h in blocks && 0 <= h < tail && h in used && used[h]
    requires h in next && n <= next[h] - h - HEADER && next[h] <= |data| == |data'|
    ensures SamePrefix(data, h + HEADER, data', h + HEADER, n)
  {
    assert SameData(next, data, data', h);
    forall i | 0 <= i < n && i % 4 == 0
      ensures SameWord(data, h + HEADER, data', h + HEADER, i)
    {
      assert data'[h + HEADER + i] == data[h + HEADER + i];
    }
  }

  lemma PrefixOutside(data: Ram, data': Ram, src: int, n: int, lo: int, k: int)
    requires OnlyWrote(data, data', lo, k) && 0 <= src && src + n <= lo && src + n <= |data|
    ensures SamePrefix(data, src, data', src, n)
  {
    forall i | 0 <= i < n && i % 4 == 0
      ensures SameWord(data, src, data', src, i)
    {
    }
  }

  /** A block moved to `nb`: what was served, copied and freed left the others' data alone. */
  lemma MovedData(used: Flags, next: Links, blocks: set<int>, data: Ram,
                  used1: Flags, next1: Links, prev1: Links, available1: int, blocks1: set<int>, free1: seq<int>, data1: Ram,
                  data2: Ram, tail: int, h: int, nb: int, n: int)
    requires KeepsData(used, next, blocks, data, data1, tail, -1) && KeepsLive(used, next, blocks, used1, next1, blocks1, tail, -1)
    requires Books(used1, next1, prev1, available1, blocks1, free1, tail, -1) && -1 !in blocks && tail <= |data1|
    requires h in blocks && h < tail && h in used && used[h] && h in next && n == next[h] - h - HEADER
    requires nb in blocks1 && nb < tail && nb + HEADER + n <= next1[nb] && !(nb in used && used[nb])
    requires OnlyWrote(data1, data2, nb + HEADER, n) && SamePrefix(data1, h + HEADER, data2, nb + HEADER, n)
    ensures KeepsData(used, next, blocks, data, data2, tail, h)
    ensures SamePrefix(data, h + HEADER, data2, nb + HEADER, n)
  {
    forall p | p in blocks && p < tail && p != h && p in used && used[p]
      ensures SameData(next, data, data2, p)
    {
      assert SameData(next, data, data1, p) && StillLive(next, used1, next1, blocks1, p);
      DataDisjoint(used1, next1, prev1, available1, blocks1, free1, tail, p, nb);
    }
    assert SameData(next, data, data1, h);
    forall i | 0 <= i < n && i % 4 == 0
      ensures SameWord(data, h + HEADER, data2, nb + HEADER, i)
    {
      assert SameWord(data1, h + HEADER, data2, nb + HEADER, i);
    }
  }

  lemma WroteBoth(data: Ram, data1: Ram, data2: Ram, lo: int, n: int, lo1: int, n1: int, lo2: int, n2: int)
    requires OnlyWrote(data, data1, lo1, n1) && OnlyWrote(data1, data2, lo2, n2)
    requires lo <= lo1 && lo1 + n1 <= lo + n && lo <= lo2 && lo2 + n2 <= lo + n
    ensures OnlyWrote(data, data2, lo, n)
  {
  }

  /** The head of the free list has its links. */
  lemma HeadLinks(nextFree: Links, prevFree: Links, free: seq<int>)
    requires Ring(nextFree, prevFree, [FREE_HEADER] + free) && free != []
    ensures free[0] in nextFree && free[0] in prevFree && prevFree[free[0]] == FREE_HEADER
  {
    assert LinkedAt(nextFree, prevFree, [FREE_HEADER] + free, 1);
  }

  lemma HeaderOnWord(used: Flags, next: Links, prev: Links, available: int, blocks: set<int>, free: seq<int>, tail: int,
                     h: int, size: int)
    requires Books(used, next, prev, available, blocks, free, tail, -1) && h in blocks && OnWord(size)
    ensures OnWord(h + HEADER + size)
  {
    hide Tiled, ListsFree, FreeBelow, Flagged;
    assert OnWord(h);
  }

  lemma SizeOnWord(used: Flags, next: Links, prev: Links, available: int, blocks: set<int>, free: seq<int>, tail: int, h: int)
    requires Books(used, next, prev, available, blocks, free, tail, -1) && h in blocks && h < tail
    ensures h in next && (next[h] - h - HEADER) % 4 == 0
  {
    assert OnWord(h) && OnWord(next[h]);
  }

  lemma BorderOnWord(used: Flags, next: Links, prev: Links, available: int, blocks: set<int>, free: seq<int>, tail: int,
                     h: int, want: int)
    requires Books(used, next, prev, available, blocks, free, tail, -1) && h in blocks && OnWord(want) && want < WORD_LIMIT
    ensures OnWord(Border(h, want)) && (Wraps(want) ==> h + MINI_ALLOC <= Border(h, want) < h + HEADER)
  {
    assert OnWord(h);
    if Wraps(want) {
      WrappedBorder(h, want);
    }
  }

  lemma NeighboursOf(used: Flags, next: Links, prev: Links, available: int, blocks: set<int>, free: seq<int>, tail: int, h: int)
    requires Books(used, next, prev, available, blocks, free, tail, -1) && h in blocks
    ensures h in next && h in prev && h in used && next[h] in used && prev[h] in used && next[h] in next
  {
    PrevInvertsNext(next, prev, blocks, tail, h);
  }

  lemma SizesInPool(used: Flags, next: Links, prev: Links, available: int, blocks: set<int>, free: seq<int>, tail: int, h: int)
    requires Books(used, next, prev, available, blocks, free, tail, -1) && h in blocks && h < tail
    ensures h in next && 0 < next[h] - h - HEADER <= tail - HEADER && 0 <= h && next[h] <= tail
    ensures next[h] in next && next[h] in used && (!used[next[h]] ==> next[next[h]] - next[h] - HEADER >= MINI_ALLOC)
  {
    Apart(next, prev, blocks, tail, h, tail);
  }

  lemma Untiled(used: Flags, next: Links, prev: Links, available: int, blocks: set<int>, free: seq<int>, tail: int)
    requires forall b, p :: !Tiled(next, p, b, tail)
    ensures !Books(used, next, prev, available, blocks, free, tail, -1)
  {
  }

  lemma TakeKeepsLive(used: Flags, next: Links, prev: Links, available: int, blocks: set<int>, free: seq<int>, tail: int, h: int)
    requires Books(used, next, prev, available, blocks, free, tail, -1)
    ensures KeepsLive(used, next, blocks, used[h := true], next, blocks, tail, -1)
  {
  }

  /** Whatever is listed is a free block. */
  lemma ListedAreFree(used: Flags, next: Links, prev: Links, available: int, blocks: set<int>, free: seq<int>, tail: int)
    requires Books(used, next, prev, available, blocks, free, tail, -1)
    ensures forall k {:trigger free[k]} | 0 <= k < |free| :: IsFree(used, blocks, free[k]) && free[k] < tail
    ensures -1 !in blocks
  {
    forall k | 0 <= k < |free|
      ensures IsFree(used, blocks, free[k]) && free[k] < tail
    {
      assert ListedIffFree(used, blocks, free, -1, free[k]);
    }
  }

  lemma SplitKeepsLive(used: Flags, next: Links, blocks: set<int>, tail: int, h: int, m: int)
    requires IsFree(used, blocks, h) && m !in blocks && h in next && forall p | p in blocks :: p in next
    ensures KeepsLive(used, next, blocks, used[m := false][h := true], next[m := next[h]][h := m], blocks + {m}, tail, -1)
  {
  }

  /** Clearing the flag of `h` and relinking free block `x` keeps the live blocks. */
  lemma RelinkKeepsLive(used: Flags, next: Links, blocks: set<int>, used': Flags, blocks': set<int>, tail: int, h: int, x: int, n: int)
    requires used' == used[h := false] || used' == used
    requires x in used' && !used'[x] && forall p | p in blocks :: p in next
    requires forall p | p in blocks && p in used' && used'[p] :: p in blocks'
    ensures KeepsLive(used, next, blocks, used', next[x := n], blocks', tail, h)
    ensures KeepsLive(used, next, blocks, used', next, blocks', tail, h)
  {
  }

  lemma KeepsLiveThen(used: Flags, next: Links, blocks: set<int>, used1: Flags, next1: Links, blocks1: set<int>,
                      used2: Flags, next2: Links, blocks2: set<int>, tail: int, h: int)
    requires -1 !in blocks
    requires KeepsLive(used, next, blocks, used1, next1, blocks1, tail, h)
          || KeepsLive(used, next, blocks, used1, next1, blocks1, tail, -1)
    requires KeepsLive(used1, next1, blocks1, used2, next2, blocks2, tail, h)
          || KeepsLive(used1, next1, blocks1, used2, next2, blocks2, tail, -1)
    ensures KeepsLive(used, next, blocks, used2, next2, blocks2, tail, h)
  {
    forall p | p in blocks && p < tail && p != h && p in used && used[p]
      ensures StillLive(next, used2, next2, blocks2, p)
    {
      assert StillLive(next, used1, next1, blocks1, p);
      assert p != -1 ==> StillLive(next1, used2, next2, blocks2, p);
    }
  }

  lemma GrowKeepsLive(used: Flags, next: Links, blocks: set<int>, tail: int, h: int, m: int)
    requires h in next && next[h] in next && next[h] in used && !used[next[h]] && m !in blocks
    requires forall p | p in blocks :: p in next
    ensures KeepsLive(used, next, blocks, used[m := false], next[h := next[next[h]]][m := next[next[h]]][h := m],
                      blocks - {next[h]} + {m}, tail, h)
  {
  }

  lemma CutKeepsLive(used: Flags, next: Links, blocks: set<int>, tail: int, h: int, m: int)
    requires h in next && m !in blocks && forall p | p in blocks :: p in next
    ensures KeepsLive(used, next, blocks, used[m := false], next[m := next[h]][h := m], blocks + {m}, tail, h)
  {
  }

  // ----- Link surgery, on the link fields it touches

  /** Takes entry k, the block `x`, off the free list. */
  method Unlink(nextFree: Links, prevFree: Links, x: int, ghost free: seq<int>, ghost k: int)
    returns (nf: Links, pf: Links)
    requires Ring(nextFree, prevFree, [FREE_HEADER] + free) && 0 <= k < |free| && free[k] == x
    ensures Ring(nf, pf, [FREE_HEADER] + Without(free, k))
  {
    ghost var ring := [FREE_HEADER] + free;
    assert ring[k + 1] == x && LinkedAt(nextFree, prevFree, ring, k + 1);
    pf := prevFree[nextFree[x] := prevFree[x]];
    nf := nextFree[prevFree[x] := nextFree[x]];
    UnlinkKeepsRing(nextFree, prevFree, ring, k + 1, nf, pf);
    assert [FREE_HEADER] + Without(free, k) == Without(ring, k + 1);
  }

  /** Puts `x` at the head of the free list. */
  method Push(nextFree: Links, prevFree: Links, x: int, ghost free: seq<int>) returns (nf: Links, pf: Links)
    requires Ring(nextFree, prevFree, [FREE_HEADER] + free) && x !in free && x != FREE_HEADER
    ensures Ring(nf, pf, [FREE_HEADER] + ([x] + free))
  {
    ghost var ring := [FREE_HEADER] + free;
    assert LinkedAt(nextFree, prevFree, ring, 0) && ring[0] == FREE_HEADER;
    var first := nextFree[FREE_HEADER];
    nf := nextFree[x := first];
    pf := prevFree[x := FREE_HEADER];
    pf := pf[first := x];
    nf := nf[FREE_HEADER := x];
    LinkKeepsRing(nextFree, prevFree, ring, 1, x, nf, pf);
    assert [FREE_HEADER] + ([x] + free) == Inserted(ring, 1, x);
  }

  /** Puts a header at `m` inside block `p`. */
  method Split(next: Links, prev: Links, p: int, m: int, ghost blocks: set<int>, ghost tail: int)
    returns (nx: Links, pv: Links)
    requires Tiled(next, prev, blocks, tail) && p in blocks && p < tail
    requires p + HEADER + MINI_ALLOC <= m && m + HEADER + MINI_ALLOC <= next[p]
    ensures m !in blocks && Tiled(nx, pv, blocks + {m}, tail) && nx == next[m := next[p]][p := m]
  {
    var n := next[p];
    pv := prev[m := p];
    nx := next[m := n];
    pv := pv[n := m];
    nx := nx[p := m];
    SplitKeepsTiling(next, prev, blocks, tail, p, m, nx, pv);
  }

  /** Takes the header after `p` away. */
  method Absorb(next: Links, prev: Links, p: int, ghost blocks: set<int>, ghost tail: int) returns (nx: Links, pv: Links)
    requires Tiled(next, prev, blocks, tail) && p in blocks && p < tail && next[p] < tail
    ensures Tiled(nx, pv, blocks - {next[p]}, tail) && nx == next[p := next[next[p]]]
  {
    var n := next[next[p]];
    pv := prev[n := p];
    nx := next[p := n];
    MergeKeepsTiling(next, prev, blocks, tail, p, nx, pv);
  }

  /** Splits the free block `h` at `m`: `m` joins the free list, `h` leaves it. */
  method Carve(used: Flags, next: Links, prev: Links, nextFree: Links, prevFree: Links, available: int, h: int, m: int,
               ghost blocks: set<int>, ghost free: seq<int>, ghost tail: int, ghost k: int)
    returns (nx: Links, pv: Links, nf: Links, pf: Links)
    requires Books(used, next, prev, available, blocks, free, tail, -1) && CoalescedFrom(used, next, blocks, tail, -1)
    requires Ring(nextFree, prevFree, [FREE_HEADER] + free)
    requires 0 <= k < |free| && free[k] == h && h in next && OnWord(m)
    requires h + HEADER + MINI_ALLOC <= m && m + HEADER + MINI_ALLOC <= next[h]
    ensures Books(used[m := false][h := true], nx, pv, available - (m - h), blocks + {m}, [m] + Without(free, k), tail, -1)
    ensures CoalescedFrom(used[m := false][h := true], nx, blocks + {m}, tail, -1)
    ensures Ring(nf, pf, [FREE_HEADER] + ([m] + Without(free, k)))
    ensures KeepsLive(used, next, blocks, used[m := false][h := true], nx, blocks + {m}, tail, -1)
    ensures h in nx && nx[h] == m
  {
    assert ListedIffFree(used, blocks, free, -1, h);
    nx, pv := Split(next, prev, h, m, blocks, tail);
    SplitTakeEffect(used, next, prev, available, blocks, free, tail, h, m, k, nx, pv);
    SplitKeepsLive(used, next, blocks, tail, h, m);
    nf, pf := Unlink(nextFree, prevFree, h, free, k);
    nf, pf := Push(nf, pf, m, Without(free, k));
  }

  /** rt_memheap_free, "merged with the previous neighbor" */
  method MergeLeft(used: Flags, next: Links, prev: Links, available: int, h: int,
                   ghost blocks: set<int>, ghost free: seq<int>, ghost tail: int)
    returns (nx: Links, pv: Links, av: int, x: int, insert: bool)
    requires Books(used, next, prev, available, blocks, free, tail, h) && CoalescedAround(used, next, blocks, tail, h)
    requires h in blocks && h < tail && !used[h]
    ensures insert <==> used[prev[h]]
    ensures x == (if insert then h else prev[h]) && x < tail
    ensures Books(used, nx, pv, av, if insert then blocks else blocks - {h}, free, tail, if insert then h else -1)
    ensures CoalescedFrom(used, nx, if insert then blocks else blocks - {h}, tail, x)
    ensures x in blocks && x in nx && nx[x] == next[h] && !used[x]
    ensures nx == (if insert then next else next[x := next[h]])
    ensures av == available + (if insert then 0 else HEADER)
  {
    nx, pv, av, x, insert := next, prev, available, h, true;
    if !used[prev[h]] {
      av := av + HEADER;
      x, insert := prev[h], false;
      nx, pv := Absorb(next, prev, x, blocks, tail);
      MergeLeftEffect(used, next, prev, available, blocks, free, tail, x, h, nx, pv);
    } else {
      NoLeftEffect(used, next, prev, blocks, tail, h);
    }
  }

  /** rt_memheap_free, "merged with the next neighbor" */
  method MergeRight(used: Flags, next: Links, prev: Links, nextFree: Links, prevFree: Links, available: int, x: int,
                    ghost blocks: set<int>, ghost free: seq<int>, ghost tail: int, ghost out: int)
    returns (nx: Links, pv: Links, nf: Links, pf: Links, av: int, ghost b: set<int>, ghost f: seq<int>)
    requires Books(used, next, prev, available, blocks, free, tail, out) && CoalescedFrom(used, next, blocks, tail, x)
    requires Ring(nextFree, prevFree, [FREE_HEADER] + free) && (out == x || out == -1)
    requires x in blocks && x < tail && !used[x]
    ensures Books(used, nx, pv, av, b, f, tail, out) && CoalescedFrom(used, nx, b, tail, -1)
    ensures Ring(nf, pf, [FREE_HEADER] + f)
    ensures b == (if used[next[x]] then blocks else blocks - {next[x]})
    ensures !used[next[x]] ==> next[x] in free
    ensures f == (if used[next[x]] then free else Without(free, Position(free, next[x])))
    ensures nx == (if used[next[x]] then next else next[x := next[next[x]]])
    ensures av == available + (if used[next[x]] then 0 else HEADER)
  {
    nx, pv, nf, pf, av, b, f := next, prev, nextFree, prevFree, available, blocks, free;
    var n := next[x];
    if !used[n] {
      assert ListedIffFree(used, blocks, free, out, n);
      ghost var k := Position(free, n);
      av := av + HEADER;
      nx, pv := Absorb(next, prev, x, blocks, tail);
      nf, pf := Unlink(nextFree, prevFree, n, free, k);
      MergeRightEffect(used, next, prev, available, blocks, free, tail, out, x, k, nx, pv);
      b, f := blocks - {n}, Without(free, k);
    } else {
      assert CoalescedFrom(used, next, blocks, tail, -1) by {
        forall p | p in blocks && p < tail && p != -1
          ensures SettledAt(used, next, p)
        {
          assert p != x ==> SettledAt(used, next, p);
        }
      }
    }
  }

  /** rt_memheap_free, up to the merge with the next neighbour */
  method UnmarkAndMergeLeft(used: Flags, next: Links, prev: Links, available: int, h: int,
                            ghost blocks: set<int>, ghost free: seq<int>, ghost tail: int)
    returns (us: Flags, nx: Links, pv: Links, av: int, x: int, insert: bool)
    requires Books(used, next, prev, available, blocks, free, tail, -1) && CoalescedFrom(used, next, blocks, tail, -1)
    requires h in blocks && h < tail && used[h]
    ensures us == used[h := false] && prev[h] != h && next[h] != h
    ensures (insert <==> used[prev[h]]) && x == (if insert then h else prev[h])
    ensures Books(us, nx, pv, av, if insert then blocks else blocks - {h}, free, tail, if insert then h else -1)
    ensures CoalescedFrom(us, nx, if insert then blocks else blocks - {h}, tail, x)
    ensures x in blocks && x < tail && x in nx && nx[x] == next[h] && x in us && !us[x]
    ensures KeepsLive(used, next, blocks, us, nx, if insert then blocks else blocks - {h}, tail, h)
    ensures av == available + Size(next, h) + (if insert then 0 else HEADER)
  {
    UnmarkEffect(used, next, prev, available, blocks, free, tail, h);
    PrevInvertsNext(next, prev, blocks, tail, h);
    us := used[h := false];
    nx, pv, av, x, insert := MergeLeft(us, next, prev, available + (next[h] - h - HEADER), h, blocks, free, tail);
    RelinkKeepsLive(used, next, blocks, us, if insert then blocks else blocks - {h}, tail, h, x, next[h]);
  }

  /** rt_memheap_free, from the merge with the next neighbour to the end */
  method MergeRightAndList(used: Flags, next: Links, prev: Links, nextFree: Links, prevFree: Links, available: int, x: int,
                           insert: bool, ghost blocks: set<int>, ghost free: seq<int>, ghost tail: int)
    returns (nx: Links, pv: Links, nf: Links, pf: Links, av: int, ghost b: set<int>, ghost f: seq<int>)
    requires Books(used, next, prev, available, blocks, free, tail, if insert then x else -1)
    requires CoalescedFrom(used, next, blocks, tail, x) && Ring(nextFree, prevFree, [FREE_HEADER] + free)
    requires x in blocks && x < tail && !used[x]
    ensures Books(used, nx, pv, av, b, f, tail, -1) && CoalescedFrom(used, nx, b, tail, -1)
    ensures Ring(nf, pf, [FREE_HEADER] + f)
    ensures b == (if used[next[x]] then blocks else blocks - {next[x]})
    ensures !used[next[x]] ==> next[x] in free
    ensures var rest := if used[next[x]] then free else Without(free, Position(free, next[x]));
            f == if insert then [x] + rest else rest
    ensures KeepsLive(used, next, blocks, used, nx, b, tail, -1)
    ensures av == available + (if used[next[x]] then 0 else HEADER)
  {
    nx, pv, nf, pf, av, b, f :=
      MergeRight(used, next, prev, nextFree, prevFree, available, x, blocks, free, tail, if insert then x else -1);
    RelinkKeepsLive(used, next, blocks, used, b, tail, -1, x, next[next[x]]);
    if insert {
      ListEffect(used, nx, pv, av, b, f, tail, x);
      nf, pf := Push(nf, pf, x, f);
      f := [x] + f;
    }
  }

  /** What releasing the live block `h` leaves behind: one free block in its place,
      neighbours that were free merged into it. */
  ghost predicate Released(used: Flags, next: Links, prev: Links, blocks: set<int>, free: seq<int>, available: int, h: int,
                           used': Flags, blocks': set<int>, free': seq<int>, available': int)
    requires h in next && h in prev && h in used && prev[h] in used && next[h] in used
  {
    var left, n := !used[prev[h]], next[h];
    var right := !used[n];
    && used' == used[h := false]
    && var mid := if left then blocks - {h} else blocks;
    && blocks' == (if right then mid - {n} else mid)
    && (right ==> n in free)
    && var rest := if right then Without(free, Position(free, n)) else free;
    && free' == (if left then rest else [h] + rest)
    && available' == available + Size(next, h) + (if left then HEADER else 0) + (if right then HEADER else 0)
  }

  /** rt_memheap_free */
  method Release(used: Flags, next: Links, prev: Links, nextFree: Links, prevFree: Links, available: int, h: int,
                 ghost blocks: set<int>, ghost free: seq<int>, ghost tail: int)
    returns (us: Flags, nx: Links, pv: Links, nf: Links, pf: Links, av: int, ghost b: set<int>, ghost f: seq<int>)
    requires Books(used, next, prev, available, blocks, free, tail, -1) && CoalescedFrom(used, next, blocks, tail, -1)
    requires Ring(nextFree, prevFree, [FREE_HEADER] + free) && h in blocks && h < tail && used[h]
    ensures Books(us, nx, pv, av, b, f, tail, -1) && CoalescedFrom(us, nx, b, tail, -1)
    ensures Ring(nf, pf, [FREE_HEADER] + f) && av >= available
    ensures Released(used, next, prev, blocks, free, available, h, us, b, f, av)
    ensures KeepsLive(used, next, blocks, us, nx, b, tail, h)
  {
    var x, insert;
    us, nx, pv, av, x, insert := UnmarkAndMergeLeft(used, next, prev, available, h, blocks, free, tail);
    ghost var nx1, b1 := nx, if insert then blocks else blocks - {h};
    nx, pv, nf, pf, av, b, f := MergeRightAndList(us, nx, pv, nextFree, prevFree, av, x, insert,
                                                  b1, free, tail);
    KeepsLiveThen(used, next, blocks, us, nx1, b1, us, nx, b, tail, h);
  }

  /** The links after block `n`, the one after `h`, is taken away and a header is built
      at `m` behind `h`. */
  function Regrown(next: Links, h: int, n: int, m: int): Links
    requires n in next
  {
    next[h := next[n]][m := next[n]][h := m]
  }

  function RegrownBack(next: Links, prev: Links, h: int, n: int, m: int): Links
    requires n in next
  {
    prev[next[n] := h][m := h][next[n] := m]
  }

  lemma GrowTiles(next: Links, prev: Links, blocks: set<int>, tail: int, h: int, m: int)
    requires Tiled(next, prev, blocks, tail) && h in blocks && h < tail && next[h] < tail
    requires next[h] < m && m + HEADER + MINI_ALLOC <= next[next[h]]
    ensures var n := next[h];
      m !in blocks && Tiled(Regrown(next, h, n, m), RegrownBack(next, prev, h, n, m), blocks - {n} + {m}, tail)
  {
    var n := next[h];
    var nx, pv := next[h := next[n]], prev[next[n] := h];
    MergeKeepsTiling(next, prev, blocks, tail, h, nx, pv);
    assert m in blocks ==> Ordered(next, n, m);
    SplitKeepsTiling(nx, pv, blocks - {n}, tail, h, m, Regrown(next, h, n, m), RegrownBack(next, prev, h, n, m));
  }

  /** Whatever tiles the pool after `h` was relinked still has every block up to `h`. */
  lemma {:induction false} StillReached(next: Links, prev: Links, blocks: set<int>, tail: int, h: int, nx: Links, pv: Links,
                                        b: set<int>, q: int)
    requires Tiled(next, prev, blocks, tail) && h in blocks && h < tail && Tiled(nx, pv, b, tail)
    requires forall p {:trigger next[p]} | p in blocks && p < h :: p in nx && nx[p] == next[p]
    requires q in blocks && q <= h
    ensures q in b
    decreases q
  {
    if 0 < q {
      var p := prev[q];
      StillReached(next, prev, blocks, tail, h, nx, pv, b, p);
      assert next[p] == q && nx[p] == q;
    }
  }

  /** A header built inside the header of `h` itself cannot belong to any tiling of the
      pool, whichever addresses are taken for block headers. */
  lemma OverrunBreaks(next: Links, prev: Links, blocks: set<int>, tail: int, h: int, n: int, m: int, nx: Links, pv: Links,
                      b: set<int>)
    requires Tiled(next, prev, blocks, tail) && h in blocks && h < tail && h < m < h + HEADER && n in next
    requires nx == Regrown(next, h, n, m)
    ensures !Tiled(nx, pv, b, tail)
  {
    if Tiled(nx, pv, b, tail) {
      StillReached(next, prev, blocks, tail, h, nx, pv, b, h);
      assert false;
    }
  }

  lemma NotListed(used: Flags, next: Links, prev: Links, available: int, blocks: set<int>, free: seq<int>, tail: int, h: int, m: int)
    requires Books(used, next, prev, available, blocks, free, tail, -1) && h in blocks && h < tail && h < m < next[h]
    ensures m !in blocks && m !in free
  {
    assert m in blocks ==> Ordered(next, h, m);
    assert ListedIffFree(used, blocks, free, -1, m);
  }

  /** rt_memheap_realloc, taking over the start of the free block after `h`.  The border
      `m` is in that block, or, after an overflow, in the header of `h`. */
  method Grow(used: Flags, next: Links, prev: Links, nextFree: Links, prevFree: Links, available: int, h: int, m: int,
              ghost blocks: set<int>, ghost free: seq<int>, ghost tail: int)
    returns (nx: Links, pv: Links, nf: Links, pf: Links, ghost k: int)
    requires Books(used, next, prev, available, blocks, free, tail, -1) && CoalescedFrom(used, next, blocks, tail, -1)
    requires Ring(nextFree, prevFree, [FREE_HEADER] + free)
    requires h in blocks && h < tail && used[h] && !used[next[h]] && OnWord(m)
    requires (next[h] < m && m + HEADER + MINI_ALLOC <= next[next[h]]) || h < m < h + HEADER
    ensures 0 <= k < |free| && free[k] == next[h] && m !in Without(free, k)
    ensures nx == Regrown(next, h, next[h], m) && pv == RegrownBack(next, prev, h, next[h], m)
    ensures Ring(nf, pf, [FREE_HEADER] + ([m] + Without(free, k)))
    ensures next[h] < m ==>
      Books(used[m := false], nx, pv, available - (m - next[h]), blocks - {next[h]} + {m}, [m] + Without(free, k), tail, -1) &&
      CoalescedFrom(used[m := false], nx, blocks - {next[h]} + {m}, tail, -1) &&
      KeepsLive(used, next, blocks, used[m := false], nx, blocks - {next[h]} + {m}, tail, h) &&
      h in blocks - {next[h]} + {m} && h != m
    ensures m < h + HEADER ==> forall b, p :: !Tiled(nx, p, b, tail)
  {
    var n := next[h];
    assert ListedIffFree(used, blocks, free, -1, n);
    PrevInvertsNext(next, prev, blocks, tail, h);
    k := Position(free, n);
    nf, pf := Unlink(nextFree, prevFree, n, free, k);
    pv := prev[next[n] := prev[n]];
    nx := next[prev[n] := next[n]];
    pv := pv[m := h];
    nx := nx[m := nx[h]];
    pv := pv[nx[h] := m];
    nx := nx[h := m];
    GrowLinked(used, next, prev, available, blocks, free, tail, h, m, k);
    nf, pf := Push(nf, pf, m, Without(free, k));
  }

  lemma GrowLinked(used: Flags, next: Links, prev: Links, available: int, blocks: set<int>, free: seq<int>, tail: int,
                   h: int, m: int, k: int)
    requires Books(used, next, prev, available, blocks, free, tail, -1) && CoalescedFrom(used, next, blocks, tail, -1)
    requires h in blocks && h < tail && used[h] && !used[next[h]] && OnWord(m)
    requires (next[h] < m && m + HEADER + MINI_ALLOC <= next[next[h]]) || h < m < h + HEADER
    requires 0 <= k < |free| && free[k] == next[h]
    ensures m !in Without(free, k) && m != FREE_HEADER
    ensures var n := next[h];
      var nx, pv, b := Regrown(next, h, n, m), RegrownBack(next, prev, h, n, m), blocks - {n} + {m};
      (n < m ==>
        Books(used[m := false], nx, pv, available - (m - n), b, [m] + Without(free, k), tail, -1) &&
        CoalescedFrom(used[m := false], nx, b, tail, -1) &&
        KeepsLive(used, next, blocks, used[m := false], nx, b, tail, h) && h in b && h != m) &&
      (m < h + HEADER ==> forall s, p :: !Tiled(nx, p, s, tail))
  {
    var n := next[h];
    var nx, pv := Regrown(next, h, n, m), RegrownBack(next, prev, h, n, m);
    if n < m {
      GrowTiles(next, prev, blocks, tail, h, m);
      GrowEffect(used, next, prev, available, blocks, free, tail, h, m, k, nx, pv);
      GrowKeepsLive(used, next, blocks, tail, h, m);
    } else {
      NotListed(used, next, prev, available, blocks, free, tail, h, m);
      WithoutMembers(free, k);
      forall s, p
        ensures !Tiled(nx, p, s, tail)
      {
        OverrunBreaks(next, prev, blocks, tail, h, n, m, nx, p, s);
      }
    }
  }

  /** rt_memheap_realloc, giving back the end of `h` from `m` on */
  method Cut(used: Flags, next: Links, prev: Links, available: int, h: int, m: int,
             ghost blocks: set<int>, ghost free: seq<int>, ghost tail: int)
    returns (nx: Links, pv: Links)
    requires Books(used, next, prev, available, blocks, free, tail, -1) && CoalescedFrom(used, next, blocks, tail, -1)
    requires h in blocks && h < tail && used[h] && OnWord(m)
    requires h + HEADER + MINI_ALLOC <= m && m + HEADER + MINI_ALLOC <= next[h]
    ensures m !in blocks && nx == next[m := next[h]][h := m]
    ensures Books(used[m := false], nx, pv, available + (next[h] - m - HEADER), blocks + {m}, free, tail, m)
    ensures CoalescedFrom(used[m := false], nx, blocks + {m}, tail, m)
  {
    nx, pv := Split(next, prev, h, m, blocks, tail);
    CutEffect(used, next, prev, available, blocks, free, tail, h, m, nx, pv);
  }

  /** rt_memheap_realloc, giving back the end of `h`, merged with a free block after it */
  method CutAndList(used: Flags, next: Links, prev: Links, nextFree: Links, prevFree: Links, available: int, h: int, m: int,
                    ghost blocks: set<int>, ghost free: seq<int>, ghost tail: int)
    returns (nx: Links, pv: Links, nf: Links, pf: Links, av: int, ghost b: set<int>, ghost f: seq<int>)
    requires Books(used, next, prev, available, blocks, free, tail, -1) && CoalescedFrom(used, next, blocks, tail, -1)
    requires Ring(nextFree, prevFree, [FREE_HEADER] + free)
    requires h in blocks && h < tail && used[h] && OnWord(m)
    requires h + HEADER + MINI_ALLOC <= m && m + HEADER + MINI_ALLOC <= next[h]
    ensures Books(used[m := false], nx, pv, av, b, f, tail, -1) && CoalescedFrom(used[m := false], nx, b, tail, -1)
    ensures Ring(nf, pf, [FREE_HEADER] + f)
    ensures b == (if used[next[h]] then blocks + {m} else blocks + {m} - {next[h]})
    ensures av == available + (next[h] - m - HEADER) + (if used[next[h]] then 0 else HEADER)
    ensures KeepsLive(used, next, blocks, used[m := false], nx, b, tail, h)
    ensures h in b && h != m && h in nx && nx[h] == m && m in b && f != [] && f[0] == m
  {
    nx, pv := Cut(used, next, prev, available, h, m, blocks, free, tail);
    CutKeepsLive(used, next, blocks, tail, h, m);
    ghost var nx1 := nx;
    nx, pv, nf, pf, av, b, f :=
      MergeRightAndList(used[m := false], nx, pv, nextFree, prevFree, available + (next[h] - m - HEADER), m, true,
                        blocks + {m}, free, tail);
    assert StillLive(nx1, used[m := false], nx, b, h);
    KeepsLiveThen(used, next, blocks, used[m := false], nx1, blocks + {m}, used[m := false], nx, b, tail, h);
  }

  // ----- The heap

  /** Data size of block `p`. */
  function Size(next: Links, p: int): int
    requires p in next
  {
    next[p] - p - HEADER
  }

  lemma InitialBooks(used: Flags, next: Links, prev: Links, blocks: set<int>, free: seq<int>, tail: nat)
    requires tail >= HEADER + MINI_ALLOC && tail % 4 == 0
    requires used == map[0 := false, tail := true] && next == map[0 := tail, tail := 0] && prev == next
    requires blocks == {0, tail} && free == [0]
    ensures Books(used, next, prev, tail - HEADER, blocks, free, tail, -1) && CoalescedFrom(used, next, blocks, tail, -1)
  {
    assert Tiled(next, prev, blocks, tail);
    FreeOnlyFirst(used, next, blocks, tail);
    assert SettledAt(used, next, 0);
    forall p
      ensures ListedIffFree(used, blocks, free, -1, p)
    {
    }
  }

  lemma {:induction false} FreeOnlyFirst(used: Flags, next: Links, blocks: set<int>, n: nat)
    requires 0 < n && 0 in blocks && 0 in used && !used[0] && 0 in next
    requires forall a | 0 < a < n :: a !in blocks
    ensures FreeBelow(used, next, blocks, n) == next[0] - HEADER
  {
    if n > 1 {
      FreeOnlyFirst(used, next, blocks, n - 1);
    } else {
      assert FreeBelow(used, next, blocks, 0) == 0;
    }
  }

  /** Data areas of different blocks are word aligned, disjoint and at least MINI_ALLOC
      bytes large. */
  lemma DataDisjoint(used: Flags, next: Links, prev: Links, available: int, blocks: set<int>, free: seq<int>, tail: int,
                     p: int, q: int)
    requires Books(used, next, prev, available, blocks, free, tail, -1)
    requires p in blocks && q in blocks && p < tail && q < tail && p != q
    ensures 0 <= p && OnWord(p + HEADER) && p + HEADER + MINI_ALLOC <= next[p] <= tail
    ensures next[p] <= q || next[q] <= p
  {
    assert OnWord(p);
    Apart(next, prev, blocks, tail, p, q);
    Apart(next, prev, blocks, tail, p, tail);
  }

  /** Once nothing is in use the heap is again the single free block it started with. */
  lemma DrainedIsInitial(used: Flags, next: Links, prev: Links, available: int, blocks: set<int>, free: seq<int>, tail: int)
    requires Books(used, next, prev, available, blocks, free, tail, -1) && CoalescedFrom(used, next, blocks, tail, -1)
    requires forall p | p in blocks && p < tail :: !used[p]
    ensures blocks == {0, tail} && next[0] == tail && free == [0] && available == tail - HEADER
  {
    assert SettledAt(used, next, 0);
    forall p | p in blocks
      ensures p in {0, tail}
    {
      Apart(next, prev, blocks, tail, 0, p);
    }
    forall p
      ensures p in free <==> p == 0
    {
      assert ListedIffFree(used, blocks, free, -1, p);
    }
    OnlyMember(free, 0);
    FreeOnlyFirst(used, next, blocks, tail);
  }

  /** The data size rt_memheap_alloc looks for; the rounding wraps at 32 bits. */
  function Wanted(size: int): (r: int)
    requires 0 <= size < WORD_LIMIT
    ensures OnWord(r)
    ensures if 12 < size <= WORD_LIMIT - 4 then size <= r < size + 4 else r == 12
  {
    Max(Align(size), MINI_ALLOC)
  }

  /** Entry k of the free list has been allocated with room for `sz` bytes. */
  ghost predicate Taken(used: Flags, next: Links, blocks: set<int>, free: seq<int>, available: int,
                        used': Flags, next': Links, blocks': set<int>, free': seq<int>, available': int, k: int, sz: int)
  {
    && 0 <= k < |free| && free[k] in next
    && var h := free[k];
    && var m := h + HEADER + sz;
    && h in next'
    && if Size(next, h) >= sz + HEADER + MINI_ALLOC then
         && blocks' == blocks + {m} && free' == [m] + Without(free, k) && used' == used[m := false][h := true]
         && next'[h] == m && available' == available - sz - HEADER
       else
         && blocks' == blocks && free' == Without(free, k) && used' == used[h := true]
         && next'[h] == next[h] && available' == available - Size(next, h)
  }

  /** Block `p` serves a request for `size` bytes and wastes little on it: it has fewer than
      36 bytes too many, and when the free block had that many bytes to spare it has exactly
      those asked for, with the rest behind it, still free. */
  ghost predicate Tight(next: Links, used': Flags, next': Links, p: int, size: int) {
    && p in next && p in next'
    && var before, after := next[p] - p - 24, next'[p] - p - 24;
    && size <= after < size + 36
    && if before >= size + 36 then after == size && next'[p] in used' && !used'[next'[p]] else after == before
  }

  lemma TakenIsTight(used: Flags, next: Links, blocks: set<int>, free: seq<int>, available: int,
                     used': Flags, next': Links, blocks': set<int>, free': seq<int>, available': int, k: int, sz: int)
    requires Taken(used, next, blocks, free, available, used', next', blocks', free', available', k, sz)
    requires sz <= Size(next, free[k]) && 0 <= sz
    ensures Tight(next, used', next', free[k], sz)
  {
  }

  /** Freeing another block leaves a tight block tight. */
  lemma StillTight(next: Links, used1: Flags, next1: Links, used': Flags, next': Links, p: int, size: int)
    requires Tight(next, used1, next1, p, size) && p in next' && next'[p] == next1[p]
    requires forall q | q in used1 && !used1[q] :: q in used' && !used'[q]
    ensures Tight(next, used', next', p, size)
  {
  }

  lemma ReleasedKeepsFree(used: Flags, next: Links, prev: Links, blocks: set<int>, free: seq<int>, available: int, h: int,
                          used': Flags, blocks': set<int>, free': seq<int>, available': int)
    requires h in next && h in prev && h in used && prev[h] in used && next[h] in used
    requires Released(used, next, prev, blocks, free, available, h, used', blocks', free', available')
    ensures forall q | q in used && !used[q] :: q in used' && !used'[q]
  {
  }

  /** Free bytes given up when `sz` bytes are taken from a free block of `size`. */
  function Cost(size: int, sz: int): int {
    if size >= sz + HEADER + MINI_ALLOC then sz + HEADER else size
  }

  /** The answer to a request for `sz` bytes: refused when that is all the heap has
      or no listed block is large enough, else served from the first one that is. */
  ghost predicate Served(used: Flags, next: Links, blocks: set<int>, free: seq<int>, available: int,
                         used': Flags, next': Links, blocks': set<int>, free': seq<int>, available': int,
                         r: Pointer, sz: int, k: int)
  {
    if sz >= available || NoFit(next, free, sz) then
      r == Null && used' == used && next' == next && blocks' == blocks && free' == free && available' == available
    else
      && FirstFit(next, free, k, sz) && r == At(free[k] + HEADER)
      && Taken(used, next, blocks, free, available, used', next', blocks', free', available', k, sz)
  }

  /** A fresh heap refuses a request for all its bytes, although its one block fits it
      exactly, and serves every smaller one from that block. */
  lemma WholePoolRefused(used: Flags, next: Links, blocks: set<int>, tail: int,
                         used': Flags, next': Links, blocks': set<int>, free': seq<int>, available': int, r: Pointer, sz: int, k: int)
    requires 0 in next && next[0] == tail && MINI_ALLOC <= sz
    requires Served(used, next, blocks, [0], tail - HEADER, used', next', blocks', free', available', r, sz, k)
    ensures sz <= tail - HEADER ==> FirstFit(next, [0], 0, sz)
    ensures r.Null? <==> sz >= tail - HEADER
  {
    assert [0][0] == 0;
  }

  /** Nothing but `x` has become live. */
  ghost predicate NoneNew(used: Flags, blocks: set<int>, used': Flags, blocks': set<int>, tail: int, x: int) {
    forall p | p in blocks' && p < tail && p in used' && used'[p] && p != x :: p in blocks && p in used && used[p]
  }

  /** A served request leaves the live block `h` alone and yields another one. */
  lemma BesideEffect(used: Flags, next: Links, blocks: set<int>, free: seq<int>, available: int,
                     used': Flags, next': Links, blocks': set<int>, free': seq<int>, available': int,
                     tail: int, h: int, r: Pointer, sz: int, k: int)
    requires Served(used, next, blocks, free, available, used', next', blocks', free', available', r, sz, k) && r.At?
    requires KeepsLive(used, next, blocks, used', next', blocks', tail, -1) && MINI_ALLOC <= sz
    requires forall i {:trigger free[i]} | 0 <= i < |free| :: IsFree(used, blocks, free[i]) && free[i] < tail
    requires h in blocks && h < tail && h != -1 && h in used && used[h]
    ensures StillLive(next, used', next', blocks', h)
    ensures var nb := r.offset - HEADER;
            nb != h && nb < tail && nb in blocks' && nb in used' && used'[nb] && nb in next' && nb in next &&
            NoneNew(used, blocks, used', blocks', tail, nb) &&
            available' == available - Cost(Size(next, nb), sz)
  {
    assert IsFree(used, blocks, free[k]);
    assert StillLive(next, used', next', blocks', h);
  }

  lemma ReleasedNoneNew(used: Flags, next: Links, prev: Links, blocks: set<int>, free: seq<int>, available: int, h: int,
                        used': Flags, blocks': set<int>, free': seq<int>, available': int,
                        used0: Flags, blocks0: set<int>, tail: int, nb: int)
    requires h in next && h in prev && h in used && prev[h] in used && next[h] in used
    requires Released(used, next, prev, blocks, free, available, h, used', blocks', free', available')
    requires NoneNew(used0, blocks0, used, blocks, tail, nb)
    ensures NoneNew(used0, blocks0, used', blocks', tail, nb) && !(h in blocks' && h in used' && used'[h])
  {
  }

  // ----- The 32-bit sum in rt_memheap_realloc

  /** `want` + RT_MEMHEAP_MINIALLOC does not fit into 32 bits. */
  predicate Wraps(want: int) {
    want + MINI_ALLOC >= WORD_LIMIT
  }

  /** Where rt_memheap_realloc builds the header behind a block that is to grow in place:
      `want` bytes after its data starts, in 32-bit arithmetic. */
  function Border(h: int, want: int): int {
    if Wraps(want) then h + HEADER + want - WORD_LIMIT else h + HEADER + want
  }

  /** A wrapped size is so large that the border comes to lie in the block's own header. */
  lemma WrappedBorder(h: int, want: int)
    requires OnWord(want) && Wraps(want) && want < WORD_LIMIT
    ensures h + MINI_ALLOC <= Border(h, want) < h + HEADER
  {
  }

  /** One wrapped request and the block that breaks: block 0, with a free block after it,
      is asked to grow to 0xFFFFFFF8 bytes.  The 32-bit guard lets it, the new header goes
      to address 16, inside the header of block 0, and no set of headers tiles the pool. */
  lemma WrapBreaks(b: set<int>)
    ensures var next, prev, blocks := map[0 := 36, 36 := 96, 96 := 0], map[0 := 96, 36 := 0, 96 := 36], {0, 36, 96};
      var want := 0xFFFF_FFF8;
      Wanted(want) == want && Wraps(want) && Border(0, want) == 16 &&
      Tiled(next, prev, blocks, 96) && Size(next, 0) + Size(next, 36) > (want + MINI_ALLOC) % WORD_LIMIT &&
      !Tiled(Regrown(next, 0, 36, 16), RegrownBack(next, prev, 0, 36, 16), b, 96)
  {
    var next, prev, blocks := map[0 := 36, 36 := 96, 96 := 0], map[0 := 96, 36 := 0, 96 := 36], {0, 36, 96};
    forall p, q | p in blocks && q in blocks && p < 96
      ensures Ordered(next, p, q)
    {
    }
    assert Tiled(next, prev, blocks, 96);
    OverrunBreaks(next, prev, blocks, 96, 0, 36, 16, Regrown(next, 0, 36, 16), RegrownBack(next, prev, 0, 36, 16), b);
  }

  class Heap {
    const poolSize: int
    var used: Flags
    var next: Links
    var prev: Links
    var nextFree: Links
    var prevFree: Links
    var available: int
    var maxUsed: int
    var data: Ram
    ghost var blocks: set<int>
    ghost var free: seq<int>
    ghost var past: seq<int>

    ghost function Tail(): int { poolSize - HEADER }

    /** `past` are the numbers of bytes in use so far; the mark is the largest. */
    ghost predicate Valid()
      reads this
    {
      && Books(used, next, prev, available, blocks, free, Tail(), -1)
      && Ring(nextFree, prevFree, [FREE_HEADER] + free)
      && CoalescedFrom(used, next, blocks, Tail(), -1)
      && HighWater(past, poolSize - available, maxUsed)
      && |data| == poolSize < WORD_LIMIT
    }

    twostate predicate Still()
      reads this
    {
      && used == old(used) && next == old(next) && blocks == old(blocks) && free == old(free)
      && available == old(available) && maxUsed == old(maxUsed) && data == old(data) && past == old(past)
    }

    /** The count of bytes in use has moved on and the mark has followed it. */
    twostate predicate Marked()
      reads this
    {
      past == old(past) + [poolSize - available] && maxUsed == Max(old(maxUsed), poolSize - available)
    }

    /** Stores the link fields. */
    method SetLinks(nx: Links, pv: Links, nf: Links, pf: Links)
      modifies this`next, this`prev, this`nextFree, this`prevFree
      ensures next == nx && prev == pv && nextFree == nf && prevFree == pf
    {
      next, prev, nextFree, prevFree := nx, pv, nf, pf;
    }

    /** Stores the flags and the byte count, and raises the high-water mark. */
    method SetFlags(us: Flags, av: int, ghost b: set<int>, ghost f: seq<int>)
      requires HighWater(past, poolSize - available, maxUsed)
      modifies this`used, this`available, this`maxUsed, this`blocks, this`free, this`past
      ensures used == us && available == av && blocks == b && free == f && Marked()
      ensures HighWater(past, poolSize - available, maxUsed)
      ensures old(available) <= av ==> maxUsed == old(maxUsed)
    {
      MarkFollows(past, poolSize - available, maxUsed, poolSize - av);
      used, available, blocks, free := us, av, b, f;
      past := past + [poolSize - av];
      if poolSize - available > maxUsed {
        maxUsed := poolSize - available;
      }
    }

    /** Fills in the header at `m`: six words, whatever they lie on. */
    method PutHeader(m: int)
      requires 0 <= m && m + HEADER <= |data| && m in next && m in prev && m in nextFree && m in prevFree
      modifies this`data
      ensures OnlyWrote(old(data), data, m, HEADER)
      ensures data[m] == MAGIC && data[m + 8] == next[m] && data[m + 12] == prev[m]
      ensures data[m + 16] == nextFree[m] && data[m + 20] == prevFree[m]
    {
      data := data[m := MAGIC][m + 4 := POOL][m + 8 := next[m]][m + 12 := prev[m]];
      data := data[m + 16 := nextFree[m]][m + 20 := prevFree[m]];
    }

    ghost predicate Live(h: int)
      reads this
    {
      h in blocks && h < Tail() && h in used && used[h] && h in next
    }

    // ----- Allocation

    /** rt_memheap_alloc, the search of the free list */
    method Search(sz: int) returns (h: int, freeSize: int, ghost k: int)
      requires Valid() && 0 < sz
      ensures freeSize >= sz ==> FirstFit(next, free, k, sz) && h == free[k] && freeSize == Size(next, h)
      ensures freeSize < sz ==> NoFit(next, free, sz)
    {
      ghost var ring := [FREE_HEADER] + free;
      assert LinkedAt(nextFree, prevFree, ring, 0);
      h, freeSize, k := nextFree[FREE_HEADER], 0, 0;
      while h != FREE_HEADER && freeSize < sz
        invariant 0 <= k <= |free| && h == ring[Succ(k, |ring|)]
        invariant NoFit(next, free[..k], sz)
        invariant freeSize >= sz ==> k < |free| && h == free[k] && h in next && freeSize == Size(next, h)
        decreases |free| - k, if freeSize < sz then 1 else 0
      {
        assert h == free[k] == ring[k + 1];
        assert ListedIffFree(used, blocks, free, -1, h) && LinkedAt(nextFree, prevFree, ring, k + 1);
        freeSize := next[h] - h - HEADER;
        if freeSize < sz {
          assert free[..k + 1] == free[..k] + [h];
          h := nextFree[h];
          k := k + 1;
        }
      }
      assert k < |free| ==> h == free[k];
      assert k == |free| ==> free[..k] == free;
      assert forall j {:trigger free[j]} | 0 <= j < k :: free[j] == free[..k][j];
    }

    /** rt_memheap_alloc, splitting the block found */
    method TakeSplit(h: int, sz: int, ghost k: int)
      requires Valid() && 0 <= k < |free| && free[k] == h && MINI_ALLOC <= sz && OnWord(sz)
      requires h in next && Size(next, h) >= sz + HEADER + MINI_ALLOC
      modifies this
      ensures Valid() && Taken(old(used), old(next), old(blocks), old(free), old(available), used, next, blocks, free, available, k, sz)
      ensures Marked() && OnlyWrote(old(data), data, h + HEADER + sz, HEADER)
      ensures KeepsLive(old(used), old(next), old(blocks), used, next, blocks, Tail(), -1)
      ensures KeepsData(old(used), old(next), old(blocks), old(data), data, Tail(), -1)
    {
      var m := h + sz + HEADER;
      hide Books, CoalescedFrom, Ring, KeepsLive, HighWater, KeepsData;
      ListedAreFree(used, next, prev, available, blocks, free, Tail());
      SizesInPool(used, next, prev, available, blocks, free, Tail(), h);
      HeaderOnWord(used, next, prev, available, blocks, free, Tail(), h, sz);
      var nx, pv, nf, pf := Carve(used, next, prev, nextFree, prevFree, available, h, m, blocks, free, Tail(), k);
      SetLinks(nx, pv, nf, pf);
      SetFlags(used[m := false][h := true], available - sz - HEADER, blocks + {m}, [m] + Without(free, k));
      HeadLinks(nextFree, prevFree, free);
      NeighboursOf(used, next, prev, available, blocks, free, Tail(), m);
      PutHeader(m);
      WriteInBlock(old(used), old(next), old(prev), old(available), old(blocks), old(free), Tail(), old(data), data, h, m, HEADER, -1);
    }

    /** rt_memheap_alloc, taking the whole block found */
    method TakeWhole(h: int, freeSize: int, ghost sz: int, ghost k: int)
      requires Valid() && 0 <= k < |free| && free[k] == h && h in next && freeSize == Size(next, h)
      requires freeSize < sz + HEADER + MINI_ALLOC
      modifies this
      ensures Valid() && Taken(old(used), old(next), old(blocks), old(free), old(available), used, next, blocks, free, available, k, sz)
      ensures Marked() && data == old(data)
      ensures KeepsLive(old(used), old(next), old(blocks), used, next, blocks, Tail(), -1)
      ensures KeepsData(old(used), old(next), old(blocks), old(data), data, Tail(), -1)
    {
      hide Books, CoalescedFrom, Ring, HighWater, KeepsData;
      ListedAreFree(used, next, prev, available, blocks, free, Tail());
      SizesInPool(used, next, prev, available, blocks, free, Tail(), h);
      WriteInBlock(used, next, prev, available, blocks, free, Tail(), data, data, h, h, 0, -1);
      TakeKeepsLive(used, next, prev, available, blocks, free, Tail(), h);
      TakeEffect(used, next, prev, available, blocks, free, Tail(), h, k);
      var nf, pf := Unlink(nextFree, prevFree, h, free, k);
      SetLinks(next, prev, nf, pf);
      SetFlags(used[h := true], available - freeSize, blocks, Without(free, k));
    }

    /** rt_memheap_alloc, once the request has been rounded */
    method AllocRounded(sz: int) returns (r: Pointer, ghost k: int)
      requires Valid() && MINI_ALLOC <= sz && OnWord(sz)
      modifies this
      ensures Valid() && Answered(r, sz, k)
    {
      k := 0;
      hide Books, CoalescedFrom, Ring, KeepsLive, HighWater, KeepsData;
      NothingMoved(used, next, prev, available, blocks, free, Tail(), -1);
      if sz < available {
        var h, freeSize, i := Search(sz);
        if freeSize >= sz {
          k := i;
          assert !NoFit(next, free, sz) by {
            assert Size(next, free[k]) >= sz;
          }
          if freeSize >= sz + HEADER + MINI_ALLOC {
            TakeSplit(h, sz, k);
          } else {
            TakeWhole(h, freeSize, sz, k);
          }
          TakenIsTight(old(used), old(next), old(blocks), old(free), old(available), used, next, blocks, free, available, k, sz);
          r := At(h + HEADER);
          return;
        }
      }
      r := Null;
    }

    /** What a request for `sz` bytes leaves behind: nothing changed when it is refused,
        else the block taken, the count, the list and the mark; a header is built behind
        it when it is split, and no live block loses a byte. */
    twostate predicate Answered(r: Pointer, sz: int, k: int)
      reads this
    {
      && Served(old(used), old(next), old(blocks), old(free), old(available), used, next, blocks, free, available, r, sz, k)
      && KeepsLive(old(used), old(next), old(blocks), used, next, blocks, Tail(), -1)
      && if r.Null? then Still()
         else
           && Marked() && KeepsData(old(used), old(next), old(blocks), old(data), data, Tail(), -1)
           && var h := r.offset - HEADER;
           && h in old(next) && Tight(old(next), used, next, h, sz)
           && if Size(old(next), h) >= sz + HEADER + MINI_ALLOC then OnlyWrote(old(data), data, h + HEADER + sz, HEADER)
              else data == old(data)
    }

    // ----- Release

    /** What freeing leaves behind. */
    twostate predicate Freed(ptr: Pointer)
      requires old(Valid()) && (ptr.At? ==> old(Live(ptr.offset - HEADER)))
      reads this
    {
      if ptr.Null? then Still()
      else
        var h := ptr.offset - HEADER;
        && Released(old(used), old(next), old(prev), old(blocks), old(free), old(available), h, used, blocks, free, available)
        && KeepsLive(old(used), old(next), old(blocks), used, next, blocks, Tail(), h)
        && past == old(past) + [poolSize - available] && maxUsed == old(maxUsed) && data == old(data)
    }

    /** rt_memheap_free */
    method Free(ptr: Pointer)
      requires Valid() && (ptr.At? ==> Live(ptr.offset - HEADER))
      modifies this
      ensures Valid() && Freed(ptr)
    {
      hide Books, CoalescedFrom, Ring, KeepsLive, HighWater, Released;
      if ptr.Null? {
        return;
      }
      NeighboursOf(used, next, prev, available, blocks, free, Tail(), ptr.offset - HEADER);
      var us, nx, pv, nf, pf, av, b, f :=
        Release(used, next, prev, nextFree, prevFree, available, ptr.offset - HEADER, blocks, free, Tail());
      SetLinks(nx, pv, nf, pf);
      SetFlags(us, av, b, f);
    }

    // ----- Entry points

    /** rt_memheap_alloc */
    method Alloc(size: int) returns (r: Pointer, ghost k: int)
      requires Valid() && 0 <= size < WORD_LIMIT
      modifies this
      ensures Valid() && Answered(r, Wanted(size), k)
    {
      hide Books, CoalescedFrom, Ring, KeepsLive, HighWater, KeepsData;
      var sz := Align(size);
      if sz < MINI_ALLOC {
        sz := MINI_ALLOC;
      }
      r, k := AllocRounded(sz);
    }

    /** rt_memheap_init */
    constructor (size: int, memory: Ram)
      requires 0 <= size < WORD_LIMIT && AlignDown(size) >= 2 * HEADER + MINI_ALLOC && |memory| == AlignDown(size)
      ensures Valid() && poolSize == AlignDown(size)
      ensures blocks == {0, poolSize - HEADER} && free == [0] && available == poolSize - 2 * HEADER
      ensures maxUsed == poolSize - available && past == [maxUsed]
    {
      var pool := AlignDown(size);
      var tail := pool - HEADER;
      poolSize := pool;
      available := pool - 2 * HEADER;
      maxUsed := 2 * HEADER;
      used := map[0 := false, tail := true];
      next := map[0 := tail, tail := 0];
      prev := map[0 := tail, tail := 0];
      nextFree := map[FREE_HEADER := 0, 0 := FREE_HEADER];
      prevFree := map[FREE_HEADER := 0, 0 := FREE_HEADER];
      data := memory;
      blocks := {0, tail};
      free := [0];
      past := [2 * HEADER];
      new;
      InitialBooks(used, next, prev, blocks, free, Tail());
      assert [FREE_HEADER] + free == [FREE_HEADER, 0];
    }

    // ----- Resizing

    /** What the caller of rt_memheap_realloc relies on, however it was done: block `nb` has
        the bytes asked for and at most 36 more, and begins with the data block `h` had. */
    twostate predicate CarriedOver(h: int, nb: int, want: int)
      reads this
    {
      && Live(nb) && want <= next[nb] - nb - 24 <= want + 36
      && h in old(next) && SamePrefix(old(data), h + 24, data, nb + 24, Min(old(next)[h] - h - 24, want))
    }

    /** What growing the live block `h` into the free block after it leaves behind.  The
        new header is written over whatever is at the border: free bytes, or, when the sum
        wraps, the end of the header of `h` and the first bytes of its own data. */
    twostate predicate Expanded(h: int, want: int)
      requires old(Valid()) && old(Live(h)) && old(next)[h] in old(next)
      reads this
    {
      var n, m := old(next)[h], Border(h, want);
      && next == Regrown(old(next), h, n, m) && blocks == old(blocks) - {n} + {m} && used == old(used)[m := false]
      && available == old(available) - (want - Size(old(next), h)) + (if Wraps(want) then WORD_LIMIT else 0)
      && Marked() && OnlyWrote(old(data), data, m, HEADER) && KeepsData(old(used), old(next), old(blocks), old(data), data, Tail(), if Wraps(want) then h else -1)
      && 0 <= m && m + HEADER <= |data| && data[m + 8] == old(next)[n] && data[m + PREV_FIELD] == h
      && (!Wraps(want) ==> Live(h) && Size(next, h) == want && KeepsLive(old(used), old(next), old(blocks), used, next, blocks, Tail(), h))
      && (Wraps(want) ==> forall b, p :: !Tiled(next, p, b, Tail()))
    }

    /** The links, the flags and the count, before the header at the border is filled in. */
    method MoveBorder(h: int, want: int)
      requires Valid() && Live(h) && OnWord(want) && want < WORD_LIMIT && next[h] in next && next[h] in used && !used[next[h]]
      requires Size(next, h) < want && Size(next, next[h]) + Size(next, h) > (want + MINI_ALLOC) % WORD_LIMIT
      modifies this
      ensures data == old(data) && Marked()
      ensures var n, m := old(next)[h], Border(h, want);
        && next == Regrown(old(next), h, n, m) && blocks == old(blocks) - {n} + {m} && used == old(used)[m := false]
        && available == old(available) - (want - Size(old(next), h)) + (if Wraps(want) then WORD_LIMIT else 0)
        && m in prev && prev[m] == h && m in nextFree && m in prevFree
        && 0 <= h < m && m + HEADER <= |data| && next[m] == old(next)[n]
        && if Wraps(want) then m < h + HEADER else n < m && h + HEADER < m && m + HEADER <= old(next)[n]
      ensures !Wraps(want) ==>
        Valid() && Live(h) && KeepsLive(old(used), old(next), old(blocks), used, next, blocks, Tail(), h)
      ensures Wraps(want) ==> forall b, p :: !Tiled(next, p, b, Tail())
    {
      hide Books, CoalescedFrom, Ring, KeepsLive, HighWater, Tiled, Without;
      var m, n := Border(h, want), next[h];
      BorderOnWord(used, next, prev, available, blocks, free, Tail(), h, want);
      FreeNext(used, next, prev, available, blocks, free, Tail(), h);
      var nx, pv, nf, pf, k := Grow(used, next, prev, nextFree, prevFree, available, h, m, blocks, free, Tail());
      SetLinks(nx, pv, nf, pf);
      SetFlags(used[m := false], available - (want - (n - h - HEADER)) + (if Wraps(want) then WORD_LIMIT else 0),
               blocks - {n} + {m}, [m] + Without(free, k));
      HeadLinks(nextFree, prevFree, free);
    }

    /** rt_memheap_realloc, growing into the free block that follows.  A size whose sum
        with RT_MEMHEAP_MINIALLOC wraps gets here too, and destroys the heap. */
    method Expand(h: int, want: int)
      requires Valid() && Live(h) && OnWord(want) && want < WORD_LIMIT && next[h] in next && next[h] in used && !used[next[h]]
      requires Size(next, h) < want && Size(next, next[h]) + Size(next, h) > (want + MINI_ALLOC) % WORD_LIMIT
      modifies this
      ensures Expanded(h, want) && (Valid() <==> !Wraps(want))
      ensures !Wraps(want) ==> CarriedOver(h, h, want)
    {
      hide Books, CoalescedFrom, Ring, KeepsLive, HighWater, KeepsData, Tiled, OnlyWrote, SamePrefix;
      SizesInPool(used, next, prev, available, blocks, free, Tail(), h);
      var m := Border(h, want);
      MoveBorder(h, want);
      PutHeader(m);
      if m == h + PREV_FIELD {
        prev := prev[h := MAGIC];
      }
      ExpandKeepsData(old(used), old(next), old(prev), old(available), old(blocks), old(free), Tail(), old(data), data, h, m);
      if Wraps(want) {
        Untiled(used, next, prev, available, blocks, free, Tail());
      } else {
        KeptPrefix(old(used), old(next), old(blocks), old(data), data, Tail(), h, old(next)[h] - h - HEADER);
      }
    }

    /** What cutting the live block `h` down to `want` bytes leaves behind. */
    twostate predicate Shrunk(h: int, want: int)
      requires old(Valid()) && old(Live(h)) && old(next)[h] in old(used)
      reads this
    {
      var m := h + HEADER + want;
      && Live(h) && Size(next, h) == want && used == old(used)[m := false]
      && blocks == (if old(used)[old(next)[h]] then old(blocks) + {m} else old(blocks) + {m} - {old(next)[h]})
      && available == old(available) + (Size(old(next), h) - want) - (if old(used)[old(next)[h]] then HEADER else 0)
      && past == old(past) + [poolSize - available] && maxUsed == old(maxUsed)
      && OnlyWrote(old(data), data, m, HEADER) && SamePrefix(old(data), h + HEADER, data, h + HEADER, want)
      && KeepsLive(old(used), old(next), old(blocks), used, next, blocks, Tail(), h)
      && KeepsData(old(used), old(next), old(blocks), old(data), data, Tail(), h)
    }

    /** rt_memheap_realloc, giving back the end of the block */
    method Shrink(h: int, want: int)
      requires Valid() && Live(h) && OnWord(want) && MINI_ALLOC <= want && next[h] in used
      requires want + HEADER + MINI_ALLOC < Size(next, h)
      modifies this
      ensures Valid() && Shrunk(h, want) && CarriedOver(h, h, want)
    {
      hide Books, CoalescedFrom, Ring, KeepsLive, HighWater, KeepsData;
      var m := h + HEADER + want;
      HeaderOnWord(used, next, prev, available, blocks, free, Tail(), h, want);
      SizesInPool(used, next, prev, available, blocks, free, Tail(), h);
      var nx, pv, nf, pf, av, b, f := CutAndList(used, next, prev, nextFree, prevFree, available, h, m, blocks, free, Tail());
      SetLinks(nx, pv, nf, pf);
      SetFlags(used[m := false], av, b, f);
      HeadLinks(nextFree, prevFree, free);
      NeighboursOf(used, next, prev, available, blocks, free, Tail(), m);
      PutHeader(m);
      WriteInBlock(old(used), old(next), old(prev), old(available), old(blocks), old(free), Tail(), old(data), data, h, m, HEADER, h);
      PrefixOutside(old(data), data, h + HEADER, want, m, HEADER);
    }

    /** The rt_memheap_alloc call of rt_memheap_realloc: block `h` is not touched. */
    method AllocBeside(h: int, want: int) returns (r: Pointer, ghost k: int)
      requires Valid() && Live(h) && OnWord(want) && MINI_ALLOC <= want
      modifies this
      ensures Valid() && Answered(r, want, k) && -1 !in old(blocks)
      ensures r.At? ==>
        var nb := r.offset - HEADER;
        && Live(h) && next[h] == old(next)[h] && nb != h && Live(nb) && nb in old(next)
        && NoneNew(old(used), old(blocks), used, blocks, Tail(), nb)
        && poolSize - available == poolSize - old(available) + Cost(Size(old(next), nb), want)
        && Tight(old(next), used, next, nb, want)
        && IsFree(old(used), old(blocks), nb) && OnlyWrote(old(data), data, nb, old(next)[nb] - nb)
    {
      hide Books, CoalescedFrom, Ring, KeepsLive, HighWater, KeepsData;
      ghost var used0, next0, blocks0, free0, available0 := used, next, blocks, free, available;
      ListedAreFree(used, next, prev, available, blocks, free, Tail());
      r, k := AllocRounded(want);
      if r.At? {
        BesideEffect(used0, next0, blocks0, free0, available0, used, next, blocks, free, available, Tail(), h, r, want, k);
      }
    }

    /** The copy made by rt_memheap_realloc: it stays inside the data of `nb`. */
    method CopyData(h: int, nb: int)
      requires Valid() && Live(h) && Live(nb) && h != nb && Size(next, h) <= Size(next, nb)
      modifies this`data
      ensures |data| == poolSize
      ensures SamePrefix(old(data), h + HEADER, data, nb + HEADER, Size(next, h))
      ensures OnlyWrote(old(data), data, nb + HEADER, Size(next, h))
    {
      hide Books, CoalescedFrom, Ring, HighWater, SamePrefix, OnlyWrote;
      DataDisjoint(used, next, prev, available, blocks, free, Tail(), h, nb);
      DataDisjoint(used, next, prev, available, blocks, free, Tail(), nb, h);
      SizeOnWord(used, next, prev, available, blocks, free, Tail(), h);
      data := CopyWords(data, nb + HEADER, h + HEADER, next[h] - h - HEADER);
    }

    /** The rt_memheap_free call of rt_memheap_realloc, measured from an earlier state. */
    method FreeSince(h: int, nb: int, ghost used0: Flags, ghost next0: Links, ghost blocks0: set<int>)
      requires Valid() && Live(h) && Live(nb) && nb != h && -1 !in blocks0
      requires KeepsLive(used0, next0, blocks0, used, next, blocks, Tail(), -1)
      requires NoneNew(used0, blocks0, used, blocks, Tail(), nb)
      modifies this
      ensures Valid() && Live(nb) && Size(next, nb) == old(Size(next, nb)) && !Live(h)
      ensures past == old(past) + [poolSize - available] && maxUsed == old(maxUsed) && data == old(data)
      ensures KeepsLive(used0, next0, blocks0, used, next, blocks, Tail(), h)
      ensures NoneNew(used0, blocks0, used, blocks, Tail(), nb)
      ensures forall q | q in old(used) && !old(used)[q] :: q in used && !used[q]
    {
      hide Books, CoalescedFrom, Ring, HighWater, NoneNew, KeepsLive, Released;
      NeighboursOf(used, next, prev, available, blocks, free, Tail(), h);
      Free(At(h + HEADER));
      KeptAlive(old(used), old(next), old(blocks), used, next, blocks, Tail(), h, nb);
      KeepsLiveThen(used0, next0, blocks0, old(used), old(next), old(blocks), used, next, blocks, Tail(), h);
      ReleasedNoneNew(old(used), old(next), old(prev), old(blocks), old(free), old(available), h, used, blocks, free, available,
                      used0, blocks0, Tail(), nb);
      ReleasedKeepsFree(old(used), old(next), old(prev), old(blocks), old(free), old(available), h, used, blocks, free, available);
    }

    /** Block `h` has been given up for the block `nb`, entry k of the old free list; its
        data has moved there, nothing was written outside that block, no other live block
        has lost a byte, and the mark has seen both at once. */
    twostate predicate Moved(h: int, want: int, nb: int, k: int)
      requires old(Valid()) && old(Live(h))
      reads this
    {
      && FirstFit(old(next), old(free), k, want) && nb == old(free)[k]
      && Live(nb) && Tight(old(next), used, next, nb, want) && !Live(h)
      && KeepsLive(old(used), old(next), old(blocks), used, next, blocks, Tail(), h)
      && NoneNew(old(used), old(blocks), used, blocks, Tail(), nb)
      && SamePrefix(old(data), h + HEADER, data, nb + HEADER, Size(old(next), h))
      && OnlyWrote(old(data), data, nb, old(next)[nb] - nb) && KeepsData(old(used), old(next), old(blocks), old(data), data, Tail(), h)
      && var high := poolSize - old(available) + Cost(Size(old(next), nb), want);
      && past == old(past) + [high, poolSize - available] && maxUsed == Max(old(maxUsed), high)
    }

    /** rt_memheap_realloc, moving the block */
    method Move(h: int, want: int) returns (r: Pointer, ghost k: int)
      requires Valid() && Live(h) && OnWord(want) && MINI_ALLOC <= want && Size(next, h) < want
      modifies this
      ensures Valid()
      ensures r.Null? <==> want >= old(available) || NoFit(old(next), old(free), want)
      ensures r.Null? ==> Still()
      ensures r.At? ==> Moved(h, want, r.offset - HEADER, k) && CarriedOver(h, r.offset - HEADER, want)
    {
      hide Books, CoalescedFrom, Ring, KeepsLive, NoFit, HighWater, NoneNew, SamePrefix, OnlyWrote, KeepsData;
      r, k := AllocBeside(h, want);
      if r.At? {
        var nb := r.offset - HEADER;
        ghost var data1, n := data, next[h] - h - HEADER;
        CopyData(h, nb);
        MovedData(old(used), old(next), old(blocks), old(data), used, next, prev, available, blocks, free, data1, data, Tail(), h, nb, n);
        WroteBoth(old(data), data1, data, nb, old(next)[nb] - nb, nb, old(next)[nb] - nb, nb + HEADER, n);
        ghost var used1, next1 := used, next;
        FreeSince(h, nb, old(used), old(next), old(blocks));
        StillTight(old(next), used1, next1, used, next, nb, want);
      }
    }

    /** What rt_memheap_realloc makes of the live block `h`: kept, cut down, grown in place,
        refused, or moved with its data.  The test for growing is in 32-bit arithmetic. */
    twostate predicate Resized(h: int, want: int, r: Pointer, k: int)
      requires old(Valid()) && old(Live(h)) && old(next)[h] in old(used) && old(next)[h] in old(next)
      reads this
    {
      var size, n := Size(old(next), h), old(next)[h];
      if want <= size <= want + 36 then r == At(h + HEADER) && Still()
      else if want < size then r == At(h + HEADER) && Shrunk(h, want)
      else if !old(used)[n] && Size(old(next), n) + size > (want + 12) % WORD_LIMIT then r == At(h + HEADER) && Expanded(h, want)
      else if want >= old(available) || NoFit(old(next), old(free), want) then r.Null? && Still()
      else r.At? && Moved(h, want, r.offset - HEADER, k)
    }

    /** The request makes the sum wrap although the next block is free. */
    ghost predicate Destroys(h: int, want: int)
      reads this
    {
      Wraps(want) && h in next && next[h] in used && !used[next[h]]
    }

    /** rt_memheap_realloc of a live block, once the request has been rounded.  The heap
        survives exactly the requests that do not wrap, or wrap before a used block. */
    method Resize(h: int, want: int) returns (r: Pointer, ghost k: int)
      requires Valid() && Live(h) && next[h] in used && next[h] in next && OnWord(want) && MINI_ALLOC <= want < WORD_LIMIT
      modifies this
      ensures Resized(h, want, r, k)
      ensures r.At? && !old(Destroys(h, want)) ==> CarriedOver(h, r.offset - HEADER, want)
      ensures Valid() <==> !old(Destroys(h, want))
    {
      k := 0;
      hide Books, CoalescedFrom, Ring, KeepsLive, NoFit, FirstFit, HighWater, NoneNew, SamePrefix, Expanded, Shrunk, Moved;
      SizesInPool(used, next, prev, available, blocks, free, Tail(), h);
      var oldsize := next[h] - h - HEADER;
      if want > oldsize {
        if !used[next[h]] && (next[next[h]] - next[h] - HEADER) + oldsize > (want + MINI_ALLOC) % WORD_LIMIT {
          Expand(h, want);
          r := At(h + HEADER);
        } else {
          r, k := Move(h, want);
        }
      } else if want + HEADER + MINI_ALLOC >= oldsize {
        SamePlace(data, h + HEADER, want);
        r := At(h + HEADER);
      } else {
        Shrink(h, want);
        r := At(h + HEADER);
      }
    }

    /** rt_memheap_realloc.  For a live block the heap stays in order if and only if the
        rounded size plus 12 fits into 32 bits or the block after it is used. */
    method Realloc(ptr: Pointer, newsize: int) returns (r: Pointer, ghost k: int)
      requires Valid() && 0 <= newsize < WORD_LIMIT && (ptr.At? ==> Live(ptr.offset - HEADER))
      modifies this
      ensures newsize == 0 ==> r.Null? && Freed(ptr)
      ensures newsize > 0 && ptr.Null? ==> Answered(r, Wanted(newsize), k)
      ensures newsize > 0 && ptr.At? ==> Resized(ptr.offset - HEADER, Wanted(newsize), r, k)
      ensures newsize > 0 && ptr.At? && r.At? && !old(Destroys(ptr.offset - HEADER, Wanted(newsize))) ==>
        CarriedOver(ptr.offset - HEADER, r.offset - HEADER, Wanted(newsize))
      ensures Valid() <==> !(newsize > 0 && ptr.At? && old(Destroys(ptr.offset - HEADER, Wanted(newsize))))
    {
      k := 0;
      hide Books, CoalescedFrom, Ring, KeepsLive, NoFit, FirstFit, HighWater, KeepsData;
      if newsize == 0 {
        Free(ptr);
        r := Null;
        return;
      }
      var want := Align(newsize);
      if want < MINI_ALLOC {
        want := MINI_ALLOC;
      }
      if ptr.Null? {
        r, k := AllocRounded(want);
        return;
      }
      NeighboursOf(used, next, prev, available, blocks, free, Tail(), ptr.offset - HEADER);
      r, k := Resize(ptr.offset - HEADER, want);
    }
  }
}
