/** The first-fit heap of src/mem.c.

    The heap is one stretch of memory addressed by byte offset.  A block starts
    with a three-word header (tag, next, prev) and its data runs up to the next
    header; the last header, at offset `end`, is a permanently used sentinel.
    `ram[a]` is the 32-bit word stored at byte offset `a`, so headers and user
    data share one store and a stray header write would be seen as damaged data.

    The invariant is local: a ghost set holds the offsets of all headers, and the
    header fields are constrained one block at a time. */
module SmallHeap {
  import opened Alignment
  import opened Words

  const HEADER := 12           // SIZEOF_STRUCT_MEM
  const MIN_SIZE := 12         // MIN_SIZE_ALIGNED
  const FREE_TAG := 0x0000_1EA0  // HEAP_MAGIC, used == 0
  const USED_TAG := 0x0001_1EA0  // HEAP_MAGIC, used == 1


  /** A C pointer into the heap, relative to heap_ptr. */
  datatype Pointer = Null | At(offset: int)

  function Next(ram: Ram, p: int): int
    requires 0 <= p && p + 4 < |ram|
  {
    ram[p + 4]
  }

  function Prev(ram: Ram, p: int): int
    requires 0 <= p && p + 8 < |ram|
  {
    ram[p + 8]
  }

  predicate Used(ram: Ram, p: int)
    requires 0 <= p < |ram|
  {
    ram[p] == USED_TAG
  }

  /** Nothing starts strictly inside block `p`. */
  ghost predicate Ordered(ram: Ram, p: int, q: int)
    requires 0 <= p && p + 4 < |ram|
  {
    p < q ==> Next(ram, p) <= q
  }

  /** The headers in `blocks` tile [0, end) exactly, and every back-link except
      the sentinel's is right. */
  ghost predicate Tiled(ram: Ram, blocks: set<int>, end: int) {
    && end >= 0 && |ram| == end + HEADER
    && 0 in blocks && end in blocks
    && (forall p | p in blocks :: 0 <= p <= end)
    && (forall p | p in blocks :: ram[p] == FREE_TAG || ram[p] == USED_TAG)
    && Used(ram, end) && Next(ram, end) == end && Prev(ram, 0) == 0
    && (forall p {:trigger Next(ram, p)} | p in blocks && p < end ::
          Next(ram, p) in blocks && p + HEADER + 4 <= Next(ram, p))
    && (forall p, q {:trigger Ordered(ram, p, q)} | p in blocks && q in blocks && 0 <= p <= end :: Ordered(ram, p, q))
    && (forall p {:trigger Prev(ram, p)} | p in blocks && 0 < p < end ::
          Prev(ram, p) in blocks && Prev(ram, p) < p && Next(ram, Prev(ram, p)) == p)
  }

  ghost predicate SettledAt(ram: Ram, blocks: set<int>, end: int, p: int)
    requires Tiled(ram, blocks, end) && p in blocks && p < end
  {
    Used(ram, p) || Used(ram, Next(ram, p))
  }

  /** `l` is the lowest free block, or the sentinel when every block is used. */
  ghost predicate LowestFree(ram: Ram, blocks: set<int>, end: int, l: int)
    requires Tiled(ram, blocks, end)
  {
    && l in blocks
    && (l < end ==> !Used(ram, l))
    && (forall q | q in blocks && q < l :: Used(ram, q))
  }

  /** `l` is the lowest free block, except that the free block `x` or its
      predecessor may have been missed by the last step. */
  ghost predicate NearlyLowest(ram: Ram, blocks: set<int>, end: int, l: int, x: int)
    requires Tiled(ram, blocks, end) && x in blocks && x < end
  {
    && l in blocks
    && (l < end ==> !Used(ram, l))
    && (forall q {:trigger q in blocks} | q in blocks && q < l && !Used(ram, q) ::
          (q == x || q == Prev(ram, x)) && (l == x || (l == Next(ram, x) && l < end)))
  }

  /** What the header at offset `a`, if there is one, adds to used_mem. */
  ghost function Weight(ram: Ram, blocks: set<int>, a: int): int
    requires 0 <= a && a + 4 < |ram|
  {
    if a in blocks && Used(ram, a) then Next(ram, a) - a else 0
  }

  ghost function UsedBelow(ram: Ram, blocks: set<int>, n: nat): int
    requires n + 4 <= |ram|
  {
    if n == 0 then 0 else UsedBelow(ram, blocks, n - 1) + Weight(ram, blocks, n - 1)
  }

  /** A change of state that alters the weight of at most the header at `p`. */
  lemma {:induction false} UsedBelowChange(ram: Ram, blocks: set<int>, ram': Ram, blocks': set<int>, p: int, n: nat)
    requires n + 4 <= |ram| && n + 4 <= |ram'|
    requires forall a | 0 <= a < n && a != p :: Weight(ram, blocks, a) == Weight(ram', blocks', a)
    ensures UsedBelow(ram', blocks', n) ==
            UsedBelow(ram, blocks, n) +
            if 0 <= p < n then Weight(ram', blocks', p) - Weight(ram, blocks, p) else 0
  {
    if n > 0 {
      UsedBelowChange(ram, blocks, ram', blocks', p, n - 1);
    }
  }

  // ----- The two ways the block list changes shape

  /** Headers of `blocks` are the same in both memories, apart from the next
      field of `p` and the prev field of `n`. */
  ghost predicate SameHeaders(ram: Ram, ram': Ram, blocks: set<int>, p: int, n: int)
    requires forall q | q in blocks :: 0 <= q && q + 8 < |ram| == |ram'|
  {
    && (forall q {:trigger ram'[q]} | q in blocks :: ram'[q] == ram[q])
    && (forall q {:trigger Next(ram', q)} | q in blocks && q != p :: Next(ram', q) == Next(ram, q))
    && (forall q {:trigger Prev(ram', q)} | q in blocks && q != n :: Prev(ram', q) == Prev(ram, q))
  }

  /** A free header appears at `m`, inside block `p`. */
  ghost predicate SplitAt(ram: Ram, ram': Ram, blocks: set<int>, end: int, p: int, m: int)
    requires Tiled(ram, blocks, end) && p in blocks && p < end
  {
    var n := Next(ram, p);
    && |ram'| == |ram| && p + HEADER + 4 <= m && m + HEADER + 4 <= n
    && SameHeaders(ram, ram', blocks, p, n)
    && ram'[m] == FREE_TAG && Next(ram', m) == n && Prev(ram', m) == p && Next(ram', p) == m
    && (n < end ==> Prev(ram', n) == m)
  }

  lemma SplitKeepsTiling(ram: Ram, ram': Ram, blocks: set<int>, end: int, p: int, m: int)
    requires Tiled(ram, blocks, end) && p in blocks && p < end
    requires SplitAt(ram, ram', blocks, end, p, m)
    ensures Tiled(ram', blocks + {m}, end)
  {
    var b := blocks + {m};
    forall x, y | x in b && y in b && 0 <= x <= end
      ensures Ordered(ram', x, y)
    {
      if x != m {
        assert y != m ==> Ordered(ram, x, y);
        Apart(ram, blocks, end, x, p);
      } else if y != m {
        Apart(ram, blocks, end, p, y);
      }
    }
  }

  /** Block `p` swallows its successor. */
  ghost predicate MergedAt(ram: Ram, ram': Ram, blocks: set<int>, end: int, p: int)
    requires Tiled(ram, blocks, end) && p in blocks && p < end && Next(ram, p) < end
  {
    var m := Next(ram, p);
    var n := Next(ram, m);
    && |ram'| == |ram|
    && SameHeaders(ram, ram', blocks, p, n)
    && Next(ram', p) == n && Prev(ram', n) == p
  }

  lemma MergeKeepsTiling(ram: Ram, ram': Ram, blocks: set<int>, end: int, p: int)
    requires Tiled(ram, blocks, end) && p in blocks && p < end && Next(ram, p) < end
    requires MergedAt(ram, ram', blocks, end, p)
    ensures Tiled(ram', blocks - {Next(ram, p)}, end)
  {
    var m := Next(ram, p);
    var n, b := Next(ram, m), blocks - {m};
    forall x {:trigger Next(ram', x)} | x in b && x < end
      ensures Next(ram', x) in b && x + HEADER + 4 <= Next(ram', x)
    {
      Apart(ram, blocks, end, x, p);
      Apart(ram, blocks, end, x, m);
    }
    forall x, y | x in b && y in b && 0 <= x <= end
      ensures Ordered(ram', x, y)
    {
      assert Ordered(ram, x, y) && Ordered(ram, m, y);
    }
    forall x {:trigger Prev(ram', x)} | x in b && 0 < x < end
      ensures Prev(ram', x) in b && Prev(ram', x) < x && Next(ram', Prev(ram', x)) == x
    {
      assert x != n ==> Prev(ram', x) == Prev(ram, x) && Prev(ram, x) != m && Prev(ram, x) != p;
    }
  }

  // ----- User data

  /** The used block `q` is still there, as large as before, with its data. */
  ghost predicate Kept(ram: Ram, ram': Ram, blocks': set<int>, q: int)
    requires 0 <= q && q + 4 < |ram| && q + 4 < |ram'|
  {
    && q in blocks' && Used(ram', q) && Next(ram', q) == Next(ram, q)
    && Next(ram, q) <= |ram| && Next(ram, q) <= |ram'|
    && (forall a {:trigger ram'[a]} | q + HEADER <= a < Next(ram, q) :: ram'[a] == ram[a])
  }

  /** Every used block other than `x` is kept. */
  ghost predicate OthersKept(ram: Ram, blocks: set<int>, ram': Ram, blocks': set<int>, end: int, x: int)
    requires Tiled(ram, blocks, end) && |ram'| == |ram|
  {
    forall q {:trigger Kept(ram, ram', blocks', q)} | q in blocks && q < end && q != x && Used(ram, q) ::
      Kept(ram, ram', blocks', q)
  }

  /** At most the words in `w` differ. */
  ghost predicate Writes(ram: Ram, ram': Ram, w: set<int>) {
    |ram'| == |ram| && forall a {:trigger ram'[a]} | 0 <= a < |ram| && a !in w :: ram'[a] == ram[a]
  }

  lemma UnwrittenIsKept(ram: Ram, blocks: set<int>, ram': Ram, blocks': set<int>, end: int, w: set<int>, q: int)
    requires Tiled(ram, blocks, end) && Writes(ram, ram', w)
    requires q in blocks && q < end && Used(ram, q) && q in blocks'
    requires forall a | a in w :: a < q || a == q + 8 || Next(ram, q) <= a
    ensures Kept(ram, ram', blocks', q)
  {
    assert q + 4 !in w && q !in w;
  }

  /** Two blocks are the same, or one lies wholly before the other. */
  lemma Apart(ram: Ram, blocks: set<int>, end: int, p: int, q: int)
    requires Tiled(ram, blocks, end) && p in blocks && q in blocks
    ensures q + HEADER + 4 <= Next(ram, q) <= p || q == p || p + HEADER + 4 <= Next(ram, p) <= q
  {
    assert Ordered(ram, p, q) && Ordered(ram, q, p);
  }

  /** Building a free header at `m` inside block `p` touches no other block's
      data, and no header but those of `p` and of its old successor. */
  lemma SplitWrites(ram: Ram, ram': Ram, blocks: set<int>, end: int, p: int, m: int)
    requires Tiled(ram, blocks, end) && p in blocks && p < end
    requires p + HEADER + 4 <= m && m + HEADER + 4 <= Next(ram, p)
    requires Writes(ram, ram', {m, m + 4, m + 8, p + 4, Next(ram, p) + 8})
    requires ram'[m] == FREE_TAG && ram'[m + 4] == Next(ram, p) && ram'[m + 8] == p && ram'[p + 4] == m
    requires Next(ram, p) < end ==> ram'[Next(ram, p) + 8] == m
    ensures SplitAt(ram, ram', blocks, end, p, m)
    ensures OthersKept(ram, blocks, ram', blocks + {m}, end, p)
  {
    var n := Next(ram, p);
    var w := {m, m + 4, m + 8, p + 4, n + 8};
    forall q | q in blocks
      ensures q !in w && (q != p ==> q + 4 !in w) && (q != n ==> q + 8 !in w)
      ensures q < end && q != p && Used(ram, q) ==> Kept(ram, ram', blocks + {m}, q)
    {
      Apart(ram, blocks, end, p, q);
      Apart(ram, blocks, end, n, q);
      if q < end && q != p && Used(ram, q) {
        UnwrittenIsKept(ram, blocks, ram', blocks + {m}, end, w, q);
      }
    }
  }

  /** Two free neighbours merge without touching any used block. */
  lemma MergeWrites(ram: Ram, ram': Ram, blocks: set<int>, end: int, p: int)
    requires Tiled(ram, blocks, end) && p in blocks && p < end && Next(ram, p) < end
    requires !Used(ram, p) && !Used(ram, Next(ram, p))
    requires ram' == ram[p + 4 := Next(ram, Next(ram, p))][Next(ram, Next(ram, p)) + 8 := p]
    ensures MergedAt(ram, ram', blocks, end, p)
    ensures OthersKept(ram, blocks, ram', blocks - {Next(ram, p)}, end, p)
  {
    var m := Next(ram, p);
    var n, b := Next(ram, m), blocks - {m};
    var w := {p + 4, n + 8};
    assert Writes(ram, ram', w);
    forall q | q in blocks
      ensures q !in w && (q != p ==> q + 4 !in w) && (q != n ==> q + 8 !in w)
      ensures q < end && q != p && Used(ram, q) ==> Kept(ram, ram', b, q)
    {
      Apart(ram, blocks, end, p, q);
      Apart(ram, blocks, end, n, q);
      if q < end && q != p && Used(ram, q) {
        UnwrittenIsKept(ram, blocks, ram', b, end, w, q);
      }
    }
  }

  /** Changing one tag moves no header and touches no other block. */
  lemma RetagWrites(ram: Ram, ram': Ram, blocks: set<int>, end: int, p: int, tag: int)
    requires Tiled(ram, blocks, end) && p in blocks && p < end
    requires tag == FREE_TAG || tag == USED_TAG
    requires ram' == ram[p := tag]
    ensures Tiled(ram', blocks, end)
    ensures OthersKept(ram, blocks, ram', blocks, end, p)
    ensures forall q {:trigger Next(ram', q)} | q in blocks :: Next(ram', q) == Next(ram, q)
    ensures forall a | p + HEADER <= a < Next(ram, p) :: ram'[a] == ram[a]
  {
    assert Writes(ram, ram', {p});
    forall q | q in blocks
      ensures Next(ram', q) == Next(ram, q) && Prev(ram', q) == Prev(ram, q)
      ensures q < end && q != p && Used(ram, q) ==> Kept(ram, ram', blocks, q)
    {
      Apart(ram, blocks, end, p, q);
      if q < end && q != p && Used(ram, q) {
        UnwrittenIsKept(ram, blocks, ram', blocks, end, {p}, q);
      }
    }
    TilingByHeaders(ram, ram', blocks, end);
  }

  lemma TilingByHeaders(ram: Ram, ram': Ram, blocks: set<int>, end: int)
    requires Tiled(ram, blocks, end) && |ram'| == |ram|
    requires forall q {:trigger ram'[q]} | q in blocks :: ram'[q] == FREE_TAG || ram'[q] == USED_TAG
    requires forall q {:trigger Next(ram', q)} | q in blocks :: Next(ram', q) == Next(ram, q)
    requires forall q {:trigger Prev(ram', q)} | q in blocks :: Prev(ram', q) == Prev(ram, q)
    requires Used(ram', end)
    ensures Tiled(ram', blocks, end)
  {
    forall p, q | p in blocks && q in blocks && 0 <= p <= end
      ensures Ordered(ram', p, q)
    {
      assert Ordered(ram, p, q);
    }
  }

  /** Only block `x` may become used, cease to be used, or change its data:
      the shape of every operation's effect. */
  ghost predicate Evolves(ram: Ram, blocks: set<int>, ram': Ram, blocks': set<int>, end: int, x: int) {
    && Tiled(ram, blocks, end) && Tiled(ram', blocks', end)
    && OthersKept(ram, blocks, ram', blocks', end, x)
    && (forall q {:trigger ram'[q]} | q in blocks' && q < end && q != x && Used(ram', q) :: q in blocks && Used(ram, q))
  }

  lemma EvolvesThenEvolves(ram: Ram, blocks: set<int>, ram1: Ram, blocks1: set<int>, ram2: Ram, blocks2: set<int>,
                           end: int, x: int)
    requires Evolves(ram, blocks, ram1, blocks1, end, x) && Evolves(ram1, blocks1, ram2, blocks2, end, x)
    ensures Evolves(ram, blocks, ram2, blocks2, end, x)
  {
    forall q | q in blocks && q < end && q != x && Used(ram, q)
      ensures Kept(ram, ram2, blocks2, q)
    {
      assert Kept(ram, ram1, blocks1, q);
      assert Kept(ram1, ram2, blocks2, q);
    }
  }

  lemma StillThere(ram: Ram, blocks: set<int>, ram': Ram, blocks': set<int>, end: int, x: int, q: int)
    requires Evolves(ram, blocks, ram', blocks', end, x)
    requires q in blocks && q < end && q != x && Used(ram, q)
    ensures Kept(ram, ram', blocks', q)
  {
  }

  /** used_mem moves by exactly what block `x` gained or lost. */
  lemma Accounting(ram: Ram, blocks: set<int>, ram': Ram, blocks': set<int>, end: int, x: int)
    requires Evolves(ram, blocks, ram', blocks', end, x)
    ensures UsedBelow(ram', blocks', end) ==
            UsedBelow(ram, blocks, end) +
            if 0 <= x < end then Weight(ram', blocks', x) - Weight(ram, blocks, x) else 0
  {
    forall a | 0 <= a < end && a != x
      ensures Weight(ram, blocks, a) == Weight(ram', blocks', a)
    {
      if a in blocks && Used(ram, a) {
        assert Kept(ram, ram', blocks', a);
      }
    }
    UsedBelowChange(ram, blocks, ram', blocks', x, end);
  }

  /** No two neighbouring blocks are both free except, perhaps, around block `x`;
      with x == -1, nowhere. */
  ghost predicate CoalescedAround(ram: Ram, blocks: set<int>, end: int, x: int)
    requires Tiled(ram, blocks, end)
  {
    forall p {:trigger SettledAt(ram, blocks, end, p)} | p in blocks && p < end && p != x && Next(ram, p) != x ::
      SettledAt(ram, blocks, end, p)
  }

  /** After block `p` has swallowed a free successor, everything is settled but
      what was unsettled elsewhere. */
  lemma MergeSettles(ram: Ram, ram': Ram, blocks: set<int>, end: int, p: int, x: int)
    requires Tiled(ram, blocks, end) && p in blocks && p < end && Next(ram, p) < end
    requires MergedAt(ram, ram', blocks, end, p)
    requires Tiled(ram', blocks - {Next(ram, p)}, end)
    requires CoalescedAround(ram, blocks, end, x) && !Used(ram, Next(ram, p))
    requires x == p || (x == Next(ram, p) && Used(ram, Next(ram, x)))
    ensures CoalescedAround(ram', blocks - {Next(ram, p)}, end, if x == p then p else -1)
    ensures Used(ram', Next(ram', p))
  {
    var m := Next(ram, p);
    var n, b := Next(ram, m), blocks - {m};
    assert Used(ram, n) by {
      if x == p {
        assert SettledAt(ram, blocks, end, m);
      }
    }
    forall q | q in b && q < end && (x != p || (q != p && Next(ram', q) != p))
      ensures SettledAt(ram', b, end, q)
    {
      if q != p {
        Apart(ram, blocks, end, q, m);
        Apart(ram, blocks, end, q, p);
        assert SettledAt(ram, blocks, end, q);
      }
    }
  }

  /** The headers left once the free block `p` has merged with its neighbours. */
  ghost function Plugged(ram: Ram, blocks: set<int>, end: int, p: int): set<int>
    requires Tiled(ram, blocks, end) && p in blocks && p < end
  {
    blocks
    - (if Used(ram, Next(ram, p)) then {} else {Next(ram, p)})
    - (if p == 0 || Used(ram, Prev(ram, p)) then {} else {p})
  }

  /** Freeing `p` can unsettle only the pairs that `p` belongs to. */
  lemma RetagAround(ram: Ram, ram': Ram, blocks: set<int>, end: int, p: int)
    requires Tiled(ram, blocks, end) && Tiled(ram', blocks, end) && p in blocks && p < end
    requires CoalescedAround(ram, blocks, end, -1) && ram' == ram[p := FREE_TAG]
    requires forall q {:trigger Next(ram', q)} | q in blocks :: Next(ram', q) == Next(ram, q)
    ensures CoalescedAround(ram', blocks, end, p)
  {
    forall q | q in blocks && q < end && q != p && Next(ram', q) != p
      ensures SettledAt(ram', blocks, end, q)
    {
      assert SettledAt(ram, blocks, end, q);
    }
  }

  /** A free block the search may return: large enough, and not an exact fit that
      ends at the sentinel. */
  ghost predicate Candidate(ram: Ram, blocks: set<int>, end: int, p: int, size: int)
    requires Tiled(ram, blocks, end)
  {
    p in blocks && p < end && !Used(ram, p) && Next(ram, p) - (p + HEADER) >= size && p + HEADER + size < end
  }

  ghost predicate FirstFit(ram: Ram, blocks: set<int>, end: int, p: int, size: int)
    requires Tiled(ram, blocks, end)
  {
    && Candidate(ram, blocks, end, p, size)
    && (forall q | q in blocks && q < p :: !Candidate(ram, blocks, end, q, size))
  }

  /** The headers left once `size` bytes have been carved from the free block `p`. */
  ghost function Carved(ram: Ram, blocks: set<int>, end: int, p: int, size: int): set<int>
    requires Tiled(ram, blocks, end) && p in blocks && p < end
  {
    if Next(ram, p) - (p + HEADER) >= size + HEADER + MIN_SIZE then blocks + {p + HEADER + size} else blocks
  }

  /** The block `p` serves a request for `size` bytes and wastes little on it: it has fewer
      than 24 bytes too many, and when the free block had that many bytes to spare it has
      exactly those asked for, with the rest of the free block behind it, still free. */
  ghost predicate Tight(ram: Ram, blocks: set<int>, ram': Ram, blocks': set<int>, end: int, p: int, size: int)
    requires Tiled(ram, blocks, end) && Tiled(ram', blocks', end) && p in blocks && p in blocks' && p < end
  {
    var before, after := Next(ram, p) - p - 12, Next(ram', p) - p - 12;
    && size <= after < size + 24
    && if before >= size + 24 then after == size && !Used(ram', Next(ram', p)) else after == before
  }

  /** `l` is the lowest free block, or is the block `p` just taken with no free
      block below it. */
  ghost predicate LowestOr(ram: Ram, blocks: set<int>, end: int, l: int, p: int)
    requires Tiled(ram, blocks, end)
  {
    && l in blocks
    && (l < end && l != p ==> !Used(ram, l))
    && (forall q | q in blocks && q < l :: Used(ram, q))
  }

  /** Marking the free block `p` used. */
  lemma TakeEffect(ram: Ram, ram': Ram, blocks: set<int>, end: int, p: int, l: int)
    requires Tiled(ram, blocks, end) && p in blocks && p < end && !Used(ram, p)
    requires CoalescedAround(ram, blocks, end, -1) && ram' == ram[p := USED_TAG]
    requires LowestFree(ram, blocks, end, l)
    ensures Evolves(ram, blocks, ram', blocks, end, p) && Used(ram', p) && Next(ram', p) == Next(ram, p)
    ensures CoalescedAround(ram', blocks, end, -1) && LowestOr(ram', blocks, end, l, p)
    ensures UsedBelow(ram', blocks, end) == UsedBelow(ram, blocks, end) + Next(ram', p) - p
  {
    RetagWrites(ram, ram', blocks, end, p, USED_TAG);
    forall q | q in blocks && q < end
      ensures SettledAt(ram', blocks, end, q)
    {
      assert SettledAt(ram, blocks, end, q);
    }
    Accounting(ram, blocks, ram', blocks, end, p);
  }

  /** Splitting the free block `p` at `m` and marking the front used. */
  lemma SplitTakeEffect(ram: Ram, ram1: Ram, ram': Ram, blocks: set<int>, end: int, p: int, m: int, l: int)
    requires Tiled(ram, blocks, end) && p in blocks && p < end && !Used(ram, p)
    requires SplitAt(ram, ram1, blocks, end, p, m) && Evolves(ram, blocks, ram1, blocks + {m}, end, p)
    requires CoalescedAround(ram, blocks, end, -1) && ram' == ram1[p := USED_TAG]
    requires LowestFree(ram, blocks, end, l)
    ensures Evolves(ram, blocks, ram', blocks + {m}, end, p) && Used(ram', p) && Next(ram', p) == m
    ensures !Used(ram', m) && Next(ram', m) == Next(ram, p)
    ensures CoalescedAround(ram', blocks + {m}, end, -1) && LowestOr(ram', blocks + {m}, end, l, p)
    ensures UsedBelow(ram', blocks + {m}, end) == UsedBelow(ram, blocks, end) + m - p
  {
    var b := blocks + {m};
    RetagWrites(ram1, ram', b, end, p, USED_TAG);
    EvolvesThenEvolves(ram, blocks, ram1, b, ram', b, end, p);
    assert SettledAt(ram, blocks, end, p);
    forall q | q in b && q < end
      ensures SettledAt(ram', b, end, q)
    {
      if q != m {
        assert SettledAt(ram, blocks, end, q);
      }
    }
    Accounting(ram, blocks, ram', b, end, p);
  }

  /** No block of the whole heap can serve a request for `size` bytes. */
  ghost predicate NoCandidate(ram: Ram, blocks: set<int>, end: int, size: int)
    requires Tiled(ram, blocks, end)
  {
    forall q | q in blocks :: !Candidate(ram, blocks, end, q, size)
  }

  /** The data size rt_malloc looks for. */
  function Rounded(size: int): (r: int)
    requires 0 <= size < WORD_LIMIT
    ensures r % 4 == 0
    ensures if 12 < size <= WORD_LIMIT - 4 then size <= r < size + 4 else r == 12
  {
    Max(Align(size), MIN_SIZE)
  }

  /** A request is rounded up exactly when it is at most 0xFFFFFFFC; a larger one wraps to
      nothing, so that rt_realloc takes it for a request to free, and rt_malloc for one of
      the minimal size. */
  lemma WrappedRequests(size: int)
    requires 0 < size < WORD_LIMIT
    ensures size <= Align(size) <==> size <= 0xFFFF_FFFC
    ensures size <= Rounded(size) <==> size <= 0xFFFF_FFFC
    ensures Align(0xFFFF_FFFF) == 0 && Rounded(0xFFFF_FFFF) == MIN_SIZE
  {
  }

  /** mem_size_aligned for the region [begin, endAddr); negative when it is too
      small for two headers. */
  function RegionSize(begin: int, endAddr: int): int
    requires 0 <= begin < WORD_LIMIT && 0 <= endAddr < WORD_LIMIT
  {
    AlignDown(endAddr) - Align(begin) - 2 * HEADER
  }

  /** One free block spans the heap. */
  ghost predicate Pristine(ram: Ram, blocks: set<int>, end: int) {
    && blocks == {0, end} && 0 < end && |ram| == end + HEADER
    && ram[0] == FREE_TAG && Next(ram, 0) == end && Prev(ram, 0) == 0
    && Used(ram, end) && Next(ram, end) == end
  }

  lemma PristineHeap(ram: Ram, blocks: set<int>, end: int)
    requires Pristine(ram, blocks, end) && end >= HEADER + 4
    ensures Tiled(ram, blocks, end) && CoalescedAround(ram, blocks, end, -1) && LowestFree(ram, blocks, end, 0)
    ensures UsedBelow(ram, blocks, end) == 0
  {
    assert Tiled(ram, blocks, end);
    assert SettledAt(ram, blocks, end, 0);
    NothingUsed(ram, blocks, end);
  }

  lemma {:induction false} NothingUsed(ram: Ram, blocks: set<int>, n: nat)
    requires n + 4 <= |ram|
    requires forall p | p in blocks && 0 <= p < n :: !Used(ram, p)
    ensures UsedBelow(ram, blocks, n) == 0
  {
    if n > 0 {
      NothingUsed(ram, blocks, n - 1);
    }
  }

  /** Once nothing is in use the heap is the single initial free block again. */
  lemma DrainedIsPristine(ram: Ram, blocks: set<int>, end: int, l: int)
    requires Tiled(ram, blocks, end) && CoalescedAround(ram, blocks, end, -1) && LowestFree(ram, blocks, end, l) && 0 < end
    requires forall p | p in blocks && p < end :: !Used(ram, p)
    ensures Pristine(ram, blocks, end) && l == 0 && UsedBelow(ram, blocks, end) == 0
  {
    assert SettledAt(ram, blocks, end, 0);
    forall p | p in blocks
      ensures p in {0, end}
    {
      Apart(ram, blocks, end, 0, p);
    }
    NothingUsed(ram, blocks, end);
  }

  /** Building a free header inside the used block `p`. */
  lemma CutEffect(ram: Ram, ram': Ram, blocks: set<int>, end: int, p: int, m: int, l: int)
    requires Tiled(ram, blocks, end) && p in blocks && p < end && Used(ram, p)
    requires SplitAt(ram, ram', blocks, end, p, m) && Evolves(ram, blocks, ram', blocks + {m}, end, p)
    requires CoalescedAround(ram, blocks, end, -1) && LowestFree(ram, blocks, end, l)
    ensures CoalescedAround(ram', blocks + {m}, end, m)
    ensures NearlyLowest(ram', blocks + {m}, end, if m < l then m else l, m)
    ensures UsedBelow(ram', blocks + {m}, end) == UsedBelow(ram, blocks, end) - (Next(ram, p) - m)
  {
    forall q | q in blocks + {m} && q < end && q != m && Next(ram', q) != m
      ensures SettledAt(ram', blocks + {m}, end, q)
    {
      assert SettledAt(ram, blocks, end, q);
    }
    Accounting(ram, blocks, ram', blocks + {m}, end, p);
  }

  lemma PrefixSurvives(ram: Ram, ram1: Ram, ram2: Ram, blocks2: set<int>, p: int, n: int)
    requires 0 <= p && p + HEADER + n <= |ram| == |ram1| == |ram2| && 4 <= n
    requires forall a {:trigger ram1[a]} | p + HEADER <= a < p + HEADER + n :: ram1[a] == ram[a]
    requires Kept(ram1, ram2, blocks2, p) && Next(ram1, p) == p + HEADER + n
    ensures SamePrefix(ram, p + HEADER, ram2, p + HEADER, n)
  {
    forall k | 0 <= k < n && k % 4 == 0
      ensures SameWord(ram, p + HEADER, ram2, p + HEADER, k)
    {
      assert ram2[p + HEADER + k] == ram1[p + HEADER + k];
    }
  }

  /** Rewriting data words of the used block `p` disturbs nothing else. */
  lemma CopyEffect(ram: Ram, ram': Ram, blocks: set<int>, end: int, p: int, count: int, l: int)
    requires Tiled(ram, blocks, end) && p in blocks && p < end && Used(ram, p)
    requires |ram'| == |ram| && p + HEADER + count <= Next(ram, p)
    requires OnlyWrote(ram, ram', p + HEADER, count)
    requires CoalescedAround(ram, blocks, end, -1) && LowestFree(ram, blocks, end, l)
    ensures Evolves(ram, blocks, ram', blocks, end, p) && Used(ram', p) && Next(ram', p) == Next(ram, p)
    ensures CoalescedAround(ram', blocks, end, -1) && LowestFree(ram', blocks, end, l)
    ensures UsedBelow(ram', blocks, end) == UsedBelow(ram, blocks, end)
  {
    forall q | q in blocks
      ensures ram'[q] == ram[q] && Next(ram', q) == Next(ram, q) && Prev(ram', q) == Prev(ram, q)
      ensures q < end && q != p && Used(ram, q) ==> Kept(ram, ram', blocks, q)
    {
      Apart(ram, blocks, end, p, q);
    }
    TilingByHeaders(ram, ram', blocks, end);
    forall q | q in blocks && q < end
      ensures SettledAt(ram', blocks, end, q)
    {
      assert SettledAt(ram, blocks, end, q);
    }
    Accounting(ram, blocks, ram', blocks, end, p);
  }

  /** Every used block other than `x` was used before. */
  ghost predicate NoneNew(ram: Ram, blocks: set<int>, ram': Ram, blocks': set<int>, end: int, x: int)
    requires Tiled(ram, blocks, end) && Tiled(ram', blocks', end)
  {
    forall q {:trigger q in blocks'} | q in blocks' && q < end && q != x && Used(ram', q) :: q in blocks && Used(ram, q)
  }

  /** What was tight stays so while the block keeps its size and no other becomes used. */
  lemma StillTight(ram: Ram, blocks: set<int>, ram1: Ram, blocks1: set<int>, ram': Ram, blocks': set<int>, end: int, p: int, size: int)
    requires Tiled(ram, blocks, end) && Tiled(ram1, blocks1, end) && Tiled(ram', blocks', end)
    requires p in blocks && p in blocks1 && p in blocks' && p < end && Tight(ram, blocks, ram1, blocks1, end, p, size)
    requires Next(ram', p) == Next(ram1, p) && NoneNew(ram, blocks, ram', blocks', end, p)
    ensures Tight(ram, blocks, ram', blocks', end, p, size)
  {
    var n := Next(ram', p);
    if Next(ram, p) - p - 12 >= size + 24 && n in blocks {
      Apart(ram, blocks, end, p, n);
    }
  }

  /** Block `p` is gone and the first `n` bytes of its data are now in block `nb`. */
  ghost predicate SwappedOut(ram: Ram, blocks: set<int>, ram': Ram, blocks': set<int>, end: int, p: int, nb: int, n: int) {
    && Tiled(ram, blocks, end) && Tiled(ram', blocks', end)
    && (forall q {:trigger Kept(ram, ram', blocks', q)} | q in blocks && q < end && q != p && q != nb && Used(ram, q) ::
          Kept(ram, ram', blocks', q))
    && NoneNew(ram, blocks, ram', blocks', end, -1)
    && SamePrefix(ram, p + HEADER, ram', nb + HEADER, n)
    && !(p in blocks' && Used(ram', p))
  }

  /** Fill `nb`, then free `p`. */
  lemma RelocateEffect(ram: Ram, blocks: set<int>, ram1: Ram, ram2: Ram, blocks2: set<int>, end: int, p: int, nb: int, n: int)
    requires Evolves(ram, blocks, ram1, blocks, end, nb) && Evolves(ram1, blocks, ram2, blocks2, end, p)
    requires p != nb && nb in blocks && nb < end && Used(ram, nb) && Used(ram1, nb)
    requires SamePrefix(ram, p + HEADER, ram1, nb + HEADER, n) && nb + HEADER + n <= Next(ram1, nb)
    requires !(p in blocks2 && Used(ram2, p))
    ensures SwappedOut(ram, blocks, ram2, blocks2, end, p, nb, n)
    ensures Kept(ram1, ram2, blocks2, nb)
  {
    assert Kept(ram1, ram2, blocks2, nb);
    forall q | q in blocks && q < end && q != p && q != nb && Used(ram, q)
      ensures Kept(ram, ram2, blocks2, q)
    {
      assert Kept(ram, ram1, blocks, q);
      assert Kept(ram1, ram2, blocks2, q);
    }
    forall k | 0 <= k < n && k % 4 == 0
      ensures SameWord(ram, p + HEADER, ram2, nb + HEADER, k)
    {
      assert SameWord(ram, p + HEADER, ram1, nb + HEADER, k);
      assert ram2[nb + HEADER + k] == ram1[nb + HEADER + k];
    }
  }

  /** Allocate `nb`, then move block `p` into it. */
  lemma MoveEffect(ram: Ram, blocks: set<int>, ram1: Ram, blocks1: set<int>, ram2: Ram, blocks2: set<int>,
                   end: int, p: int, nb: int, n: int)
    requires Evolves(ram, blocks, ram1, blocks1, end, nb) && SwappedOut(ram1, blocks1, ram2, blocks2, end, p, nb, n)
    requires p in blocks && p < end && Used(ram, p) && p + HEADER + n <= Next(ram, p)
    requires nb in blocks && !Used(ram, nb)
    ensures OthersKept(ram, blocks, ram2, blocks2, end, p) && NoneNew(ram, blocks, ram2, blocks2, end, nb)
    ensures SamePrefix(ram, p + HEADER, ram2, nb + HEADER, n)
  {
    forall q | q in blocks && q < end && q != p && Used(ram, q)
      ensures Kept(ram, ram2, blocks2, q)
    {
      assert Kept(ram, ram1, blocks1, q);
      assert Kept(ram1, ram2, blocks2, q);
    }
    assert Kept(ram, ram1, blocks1, p);
    forall k | 0 <= k < n && k % 4 == 0
      ensures SameWord(ram, p + HEADER, ram2, nb + HEADER, k)
    {
      assert SameWord(ram1, p + HEADER, ram2, nb + HEADER, k);
      assert ram1[p + HEADER + k] == ram[p + HEADER + k];
    }
  }

  lemma SizeOnWord(ram: Ram, blocks: set<int>, end: int, p: int)
    requires Tiled(ram, blocks, end) && AllOnWord(blocks) && p in blocks && p < end
    ensures (Next(ram, p) - p - HEADER) % 4 == 0
  {
    assert OnWord(p) && OnWord(Next(ram, p));
  }

  // ----- What the invariant means for callers

  /** Every byte of the heap belongs to exactly one block. */
  lemma {:induction false} TilesExactly(ram: Ram, blocks: set<int>, end: int, a: int) returns (p: int)
    requires Tiled(ram, blocks, end) && 0 <= a < end
    ensures p in blocks && p <= a < Next(ram, p)
    ensures forall q | q in blocks && q <= a < Next(ram, q) :: q == p
  {
    p := 0;
    while Next(ram, p) <= a
      invariant p in blocks && p <= a
      decreases end - p
    {
      p := Next(ram, p);
    }
    forall q | q in blocks && q <= a < Next(ram, q)
      ensures q == p
    {
      Apart(ram, blocks, end, p, q);
    }
  }

  /** The set of headers fixes every link: two heaps with the same headers are
      linked the same way. */
  lemma HeadersFixLinks(ram: Ram, ram': Ram, blocks: set<int>, end: int, p: int)
    requires Tiled(ram, blocks, end) && Tiled(ram', blocks, end) && p in blocks && p < end
    ensures Next(ram', p) == Next(ram, p)
    ensures 0 < p ==> Prev(ram', p) == Prev(ram, p)
  {
    assert Ordered(ram, p, Next(ram', p)) && Ordered(ram', p, Next(ram, p));
    if 0 < p {
      assert Ordered(ram, Prev(ram, p), Prev(ram', p)) && Ordered(ram', Prev(ram', p), Prev(ram, p));
    }
  }

  /** Data areas of two different used blocks are word aligned and disjoint, and
      hold no header. */
  lemma LiveDataDisjoint(ram: Ram, blocks: set<int>, end: int, p: int, q: int)
    requires Tiled(ram, blocks, end) && AllOnWord(blocks)
    requires p in blocks && q in blocks && p < end && q < end && p != q
    ensures OnWord(p + HEADER) && p + HEADER < Next(ram, p) <= end
    ensures Next(ram, p) <= q || Next(ram, q) <= p
    ensures forall a | p <= a < Next(ram, p) && a != p :: a !in blocks
  {
    assert OnWord(p);
    Apart(ram, blocks, end, p, q);
    forall a | a in blocks && p <= a < Next(ram, p)
      ensures a == p
    {
      Apart(ram, blocks, end, p, a);
    }
  }

  /** A request is refused exactly when the only free blocks large enough, if any,
      are an exact fit that ends at the sentinel. */
  lemma RefusedMeansFull(ram: Ram, blocks: set<int>, end: int, size: int)
    requires Tiled(ram, blocks, end)
    ensures NoCandidate(ram, blocks, end, size) <==>
            forall p | p in blocks && p < end && !Used(ram, p) && Next(ram, p) - (p + HEADER) >= size ::
              Next(ram, p) == end && Next(ram, p) - (p + HEADER) == size
  {
    forall p | p in blocks && p < end && !Used(ram, p) && Next(ram, p) - (p + HEADER) >= size
      ensures Candidate(ram, blocks, end, p, size) <==> !(Next(ram, p) == end && Next(ram, p) - (p + HEADER) == size)
    {
      Apart(ram, blocks, end, p, end);
    }
  }

  /** The whole of an empty heap cannot be had in one piece. */
  lemma WholeHeapRefused(ram: Ram, blocks: set<int>, end: int)
    requires Pristine(ram, blocks, end) && end >= HEADER + 4
    ensures Tiled(ram, blocks, end) && NoCandidate(ram, blocks, end, end - HEADER)
    ensures forall size | 0 < size < end - HEADER :: FirstFit(ram, blocks, end, 0, size)
  {
    PristineHeap(ram, blocks, end);
  }

  class Heap {
    const memSize: int  // mem_size_aligned
    var ram: Ram
    var lfree: int
    var usedMem: int
    var maxMem: int
    ghost var blocks: set<int>
    ghost var past: seq<int>

    ghost function End(): int { memSize + HEADER }

    /** Valid, but the neighbourhood of block `x` may want merging. */
    ghost predicate ValidAround(x: int)
      reads this
    {
      && memSize >= MIN_SIZE && memSize % 4 == 0
      && Tiled(ram, blocks, End())
      && AllOnWord(blocks)
      && CoalescedAround(ram, blocks, End(), x)
      && usedMem == UsedBelow(ram, blocks, End())
    }

    /** `past` are the values `used_mem` has had so far; the mark is the largest. */
    ghost predicate Valid()
      reads this
    {
      && ValidAround(-1)
      && LowestFree(ram, blocks, End(), lfree)
      && HighWater(past, usedMem, maxMem)
    }

    /** One half of plug_holes: the free block `p` takes in its free successor. */
    method SwallowNext(p: int)
      requires Tiled(ram, blocks, End()) && p in blocks && p < End() && Next(ram, p) < End()
      requires !Used(ram, p) && !Used(ram, Next(ram, p))
      modifies this`ram, this`blocks
      ensures blocks == old(blocks) - {old(Next(ram, p))}
      ensures MergedAt(old(ram), ram, old(blocks), End(), p)
      ensures Evolves(old(ram), old(blocks), ram, blocks, End(), -1)
    {
      var n := Next(ram, p);
      var n2 := Next(ram, n);
      ram := ram[p + 4 := n2];
      ram := ram[n2 + 8 := p];
      blocks := blocks - {n};
      MergeWrites(old(ram), ram, old(blocks), End(), p);
      MergeKeepsTiling(old(ram), ram, old(blocks), End(), p);
    }

    /** plug_holes, "plug hole forward" */
    method PlugForward(mem: int)
      requires ValidAround(mem) && mem in blocks && mem < End() && !Used(ram, mem)
      requires NearlyLowest(ram, blocks, End(), lfree, mem)
      modifies this`ram, this`lfree, this`blocks
      ensures ValidAround(mem) && mem in blocks
      ensures NearlyLowest(ram, blocks, End(), lfree, mem) && lfree != Next(ram, mem)
      ensures Evolves(old(ram), old(blocks), ram, blocks, End(), -1)
      ensures !Used(ram, mem) && Used(ram, Next(ram, mem)) && Prev(ram, mem) == old(Prev(ram, mem))
      ensures blocks == old(blocks) - (if old(Used(ram, Next(ram, mem))) then {} else {old(Next(ram, mem))})
      ensures forall q {:trigger ram[q]} | q in blocks :: ram[q] == old(ram[q])
    {
      var nmem := Next(ram, mem);
      if mem != nmem && !Used(ram, nmem) && nmem != memSize + HEADER {
        if lfree == nmem {
          lfree := mem;
        }
        SwallowNext(mem);
        MergeSettles(old(ram), ram, old(blocks), End(), mem, mem);
        Accounting(old(ram), old(blocks), ram, blocks, End(), -1);
      }
    }

    /** plug_holes, "plug hole backward" */
    method PlugBackward(mem: int)
      requires ValidAround(mem) && mem in blocks && mem < End() && !Used(ram, mem)
      requires NearlyLowest(ram, blocks, End(), lfree, mem)
      requires Used(ram, Next(ram, mem)) && lfree != Next(ram, mem)
      modifies this`ram, this`lfree, this`blocks
      ensures ValidAround(-1) && LowestFree(ram, blocks, End(), lfree)
      ensures Evolves(old(ram), old(blocks), ram, blocks, End(), -1)
      ensures blocks == old(blocks) - (if mem == 0 || old(Used(ram, Prev(ram, mem))) then {} else {mem})
    {
      var pmem := Prev(ram, mem);
      if pmem != mem && !Used(ram, pmem) {
        if lfree == mem {
          lfree := pmem;
        }
        SwallowNext(pmem);
        MergeSettles(old(ram), ram, old(blocks), End(), pmem, mem);
        Accounting(old(ram), old(blocks), ram, blocks, End(), -1);
      } else {
        forall q | q in blocks && q < End()
          ensures SettledAt(ram, blocks, End(), q)
        {
          if Next(ram, q) == mem {
            Apart(ram, blocks, End(), q, pmem);
          }
        }
      }
    }

    /** plug_holes */
    method PlugHoles(mem: int)
      requires ValidAround(mem) && mem in blocks && mem < End() && !Used(ram, mem)
      requires NearlyLowest(ram, blocks, End(), lfree, mem)
      modifies this`ram, this`lfree, this`blocks
      ensures ValidAround(-1) && LowestFree(ram, blocks, End(), lfree)
      ensures Evolves(old(ram), old(blocks), ram, blocks, End(), -1)
      ensures blocks == old(Plugged(ram, blocks, End(), mem))
    {
      PlugForward(mem);
      label Forward:
      PlugBackward(mem);
      EvolvesThenEvolves(old(ram), old(blocks), old@Forward(ram), old@Forward(blocks), ram, blocks, End(), -1);
    }

    /** `offset` is the data address of a used block. */
    ghost predicate Live(offset: int)
      reads this
      requires Tiled(ram, blocks, End())
    {
      offset - HEADER in blocks && offset - HEADER < End() && Used(ram, offset - HEADER)
    }

    predicate InHeap(offset: int) {
      0 <= offset < memSize + HEADER
    }

    /** rt_free, up to the call of plug_holes */
    method Unmark(mem: int)
      requires Valid() && Live(mem + HEADER)
      modifies this`ram, this`lfree, this`usedMem, this`past
      ensures HighWater(past, usedMem, maxMem) && past == old(past) + [usedMem]
      ensures ValidAround(mem) && !Used(ram, mem) && NearlyLowest(ram, blocks, End(), lfree, mem)
      ensures Evolves(old(ram), blocks, ram, blocks, End(), mem)
      ensures Plugged(ram, blocks, End(), mem) == old(Plugged(ram, blocks, End(), mem))
      ensures usedMem == old(usedMem) - (old(Next(ram, mem)) - mem)
    {
      hide CoalescedAround, AllOnWord;
      ram := ram[mem := FREE_TAG];
      RetagWrites(old(ram), ram, blocks, End(), mem, FREE_TAG);
      if mem < lfree {
        lfree := mem;
      }
      usedMem := usedMem - (Next(ram, mem) - mem);
      MarkFollows(past, old(usedMem), maxMem, usedMem);
      past := past + [usedMem];
      Accounting(old(ram), blocks, ram, blocks, End(), mem);
      RetagAround(old(ram), ram, blocks, End(), mem);
    }

    /** What rt_free leaves behind. */
    twostate predicate Freed(rmem: Pointer)
      requires old(Valid()) && (rmem.At? && InHeap(rmem.offset) ==> old(Live(rmem.offset)))
      reads this
    {
      if rmem.Null? || !InHeap(rmem.offset) then
        Same(old(ram), old(lfree), old(usedMem), old(maxMem), old(blocks), old(past))
      else
        var mem := rmem.offset - HEADER;
        && Evolves(old(ram), old(blocks), ram, blocks, End(), mem)
        && !(mem in blocks && Used(ram, mem))
        && blocks == old(Plugged(ram, blocks, End(), mem))
        && usedMem == old(usedMem) - (old(Next(ram, mem)) - mem) && maxMem == old(maxMem) && past == old(past) + [usedMem]
    }

    /** rt_free */
    method Free(rmem: Pointer)
      requires Valid()
      requires rmem.At? && InHeap(rmem.offset) ==> Live(rmem.offset)
      modifies this
      ensures Valid() && Freed(rmem)
    {
      if rmem.Null? || rmem.offset < 0 || rmem.offset >= memSize + HEADER {
        return;
      }
      var mem := rmem.offset - HEADER;
      Unmark(mem);
      label Tagged:
      PlugHoles(mem);
      EvolvesThenEvolves(old(ram), old(blocks), old@Tagged(ram), old@Tagged(blocks), ram, blocks, End(), mem);
    }

    /** Builds a free header at `m` inside block `p`. */
    method SplitBlock(p: int, m: int)
      requires Tiled(ram, blocks, End()) && p in blocks && p < End()
      requires p + HEADER + 4 <= m && m + HEADER + 4 <= Next(ram, p)
      modifies this`ram, this`blocks
      ensures blocks == old(blocks) + {m}
      ensures SplitAt(old(ram), ram, old(blocks), End(), p, m)
      ensures Evolves(old(ram), old(blocks), ram, blocks, End(), p)
      ensures forall a {:trigger ram[a]} | p + HEADER <= a < m :: ram[a] == old(ram[a])
    {
      var n := Next(ram, p);
      ram := ram[m := FREE_TAG];
      ram := ram[m + 4 := n];
      ram := ram[m + 8 := p];
      ram := ram[p + 4 := m];
      if n != memSize + HEADER {
        ram := ram[n + 8 := m];
      }
      blocks := blocks + {m};
      assert Writes(old(ram), ram, {m, m + 4, m + 8, p + 4, n + 8});
      SplitWrites(old(ram), ram, old(blocks), End(), p, m);
      SplitKeepsTiling(old(ram), ram, old(blocks), End(), p, m);
    }

    /** rt_malloc, the search loop: starting at lfree finds the same block as
        starting at offset 0 would. */
    method FindFit(size: int) returns (found: bool, ptr: int)
      requires Valid() && 0 < size <= memSize
      ensures found ==> FirstFit(ram, blocks, End(), ptr, size)
      ensures !found ==> forall q | q in blocks :: !Candidate(ram, blocks, End(), q, size)
    {
      ptr := lfree;
      while ptr < memSize - size
        invariant ptr in blocks
        invariant forall q | q in blocks && q < ptr :: !Candidate(ram, blocks, End(), q, size)
        decreases End() - ptr
      {
        if !Used(ram, ptr) && Next(ram, ptr) - (ptr + HEADER) >= size {
          return true, ptr;
        }
        var next := Next(ram, ptr);
        forall q | q in blocks && q < next
          ensures !Candidate(ram, blocks, End(), q, size)
        {
          Apart(ram, blocks, End(), ptr, q);
        }
        ptr := next;
      }
      found := false;
    }

    /** rt_malloc, turning the free block found into a used one */
    method TakeBlock(ptr: int, size: int)
      requires Valid() && Candidate(ram, blocks, End(), ptr, size)
      requires size >= 4 && size % 4 == 0
      modifies this`ram, this`blocks, this`usedMem, this`maxMem, this`past
      ensures ValidAround(-1) && HighWater(past, usedMem, maxMem) && past == old(past) + [usedMem]
      ensures blocks == old(Carved(ram, blocks, End(), ptr, size))
      ensures Evolves(old(ram), old(blocks), ram, blocks, End(), ptr)
      ensures Used(ram, ptr) && Tight(old(ram), old(blocks), ram, blocks, End(), ptr, size)
      ensures old(Next(ram, ptr)) != Next(ram, ptr) ==> Next(ram, Next(ram, ptr)) == old(Next(ram, ptr))
      ensures usedMem == old(usedMem) + (Next(ram, ptr) - ptr)
      ensures maxMem == Max(old(maxMem), usedMem)
      ensures LowestOr(ram, blocks, End(), lfree, ptr)
    {
      hide HighWater, CoalescedAround, Evolves, LowestFree, LowestOr;
      if Next(ram, ptr) - (ptr + HEADER) >= size + HEADER + MIN_SIZE {
        StillOnWord(blocks, ptr, HEADER + size);
        var ptr2 := ptr + HEADER + size;
        SplitBlock(ptr, ptr2);
        SplitTakeEffect(old(ram), ram, ram[ptr := USED_TAG], old(blocks), End(), ptr, ptr2, lfree);
        ram := ram[ptr := USED_TAG];
        usedMem := usedMem + (size + HEADER);
      } else {
        TakeEffect(ram, ram[ptr := USED_TAG], blocks, End(), ptr, lfree);
        ram := ram[ptr := USED_TAG];
        usedMem := usedMem + (Next(ram, ptr) - ptr);
      }
      MarkFollows(past, old(usedMem), maxMem, usedMem);
      past := past + [usedMem];
      if maxMem < usedMem {
        maxMem := usedMem;
      }
    }

    /** rt_malloc, moving lfree on when the lowest free block was taken */
    method AdvanceLowest()
      requires Tiled(ram, blocks, End()) && lfree in blocks
      requires forall q | q in blocks && q < lfree :: Used(ram, q)
      modifies this`lfree
      ensures LowestFree(ram, blocks, End(), lfree)
    {
      while Used(ram, lfree) && lfree != memSize + HEADER
        invariant lfree in blocks
        invariant forall q | q in blocks && q < lfree :: Used(ram, q)
        decreases End() - lfree
      {
        var next := Next(ram, lfree);
        forall q | q in blocks && q < next
          ensures Used(ram, q)
        {
          Apart(ram, blocks, End(), lfree, q);
        }
        lfree := next;
      }
    }

    /** What a successful allocation of `sz` bytes at `offset` leaves behind. */
    twostate predicate Allocated(offset: int, sz: int)
      requires old(Valid())
      reads this
    {
      var mem := offset - HEADER;
      && old(FirstFit(ram, blocks, End(), mem, sz))
      && blocks == old(Carved(ram, blocks, End(), mem, sz))
      && Evolves(old(ram), old(blocks), ram, blocks, End(), mem)
      && Live(offset) && Tight(old(ram), old(blocks), ram, blocks, End(), mem, sz)
      && (old(Next(ram, mem)) != Next(ram, mem) ==> Next(ram, Next(ram, mem)) == old(Next(ram, mem)))
      && usedMem == old(usedMem) + (Next(ram, mem) - mem) && maxMem == Max(old(maxMem), usedMem)
      && past == old(past) + [usedMem]
    }

    /** The answer to a request for `sz` bytes. */
    twostate predicate Served(r: Pointer, sz: int)
      requires old(Valid())
      reads this
    {
      if old(NoCandidate(ram, blocks, End(), sz)) then
        r == Null && Same(old(ram), old(lfree), old(usedMem), old(maxMem), old(blocks), old(past))
      else
        r.At? && Allocated(r.offset, sz)
    }

    /** rt_malloc, once the request has been rounded */
    method Allocate(sz: int) returns (r: Pointer)
      requires Valid() && 4 <= sz <= memSize && sz % 4 == 0
      modifies this
      ensures Valid() && Served(r, sz)
    {
      var found, ptr := FindFit(sz);
      if !found {
        return Null;
      }
      TakeBlock(ptr, sz);
      if ptr == lfree {
        AdvanceLowest();
      }
      return At(ptr + HEADER);
    }

    /** rt_malloc */
    method Malloc(size: int) returns (r: Pointer)
      requires Valid() && 0 <= size < WORD_LIMIT
      modifies this
      ensures Valid()
      ensures if size == 0 || Align(size) > memSize then
                r == Null && Same(old(ram), old(lfree), old(usedMem), old(maxMem), old(blocks), old(past))
              else
                Served(r, Rounded(size))
    {
      if size == 0 {
        return Null;
      }
      var sz := Align(size);
      if sz > memSize {
        return Null;
      }
      if sz < MIN_SIZE {
        sz := MIN_SIZE;
      }
      r := Allocate(sz);
    }

    ghost predicate Same(ram0: Ram, lfree0: int, used0: int, max0: int, blocks0: set<int>, past0: seq<int>)
      reads this
    {
      ram == ram0 && lfree == lfree0 && usedMem == used0 && maxMem == max0 && blocks == blocks0 && past == past0
    }

    /** rt_system_heap_init, on memory with arbitrary contents */
    constructor (begin: int, endAddr: int, memory: Ram)
      requires 0 <= begin < WORD_LIMIT && 0 <= endAddr < WORD_LIMIT
      requires RegionSize(begin, endAddr) >= MIN_SIZE && |memory| == RegionSize(begin, endAddr) + 2 * HEADER
      ensures memSize == RegionSize(begin, endAddr)
      ensures Valid() && Pristine(ram, blocks, End()) && lfree == 0 && usedMem == 0 && maxMem == 0 && past == [0]
    {
      memSize := AlignDown(endAddr) - Align(begin) - 2 * HEADER;
      var end := AlignDown(endAddr) - Align(begin) - HEADER;
      ram := memory[4 := end][8 := 0][0 := FREE_TAG][end := USED_TAG][end + 4 := end][end + 8 := end];
      lfree, usedMem, maxMem := 0, 0, 0;
      blocks := {0, end};
      past := [0];
      new;
      PristineHeap(ram, blocks, End());
    }

    /** rt_realloc, giving back the tail of a block that is much too large, up to
        the call of plug_holes */
    method CutTail(mem: int, want: int)
      requires Valid() && Live(mem + HEADER) && 4 <= want && want % 4 == 0
      requires want + HEADER + MIN_SIZE < Next(ram, mem) - mem - HEADER
      modifies this`ram, this`lfree, this`usedMem, this`blocks, this`past
      ensures ValidAround(mem + HEADER + want)
      ensures HighWater(past, usedMem, maxMem) && past == old(past) + [usedMem]
      ensures blocks == old(blocks) + {mem + HEADER + want} && !Used(ram, mem + HEADER + want)
      ensures NearlyLowest(ram, blocks, End(), lfree, mem + HEADER + want)
      ensures Evolves(old(ram), old(blocks), ram, blocks, End(), mem)
      ensures SplitAt(old(ram), ram, old(blocks), End(), mem, mem + HEADER + want)
      ensures forall a {:trigger ram[a]} | mem + HEADER <= a < mem + HEADER + want :: ram[a] == old(ram[a])
      ensures usedMem == old(usedMem) - (old(Next(ram, mem)) - mem - HEADER - want)
    {
      StillOnWord(blocks, mem, HEADER + want);
      usedMem := usedMem - (Next(ram, mem) - mem - HEADER - want);
      MarkFollows(past, old(usedMem), maxMem, usedMem);
      past := past + [usedMem];
      var ptr2 := mem + HEADER + want;
      SplitBlock(mem, ptr2);
      CutEffect(old(ram), ram, old(blocks), End(), mem, ptr2, lfree);
      lfree := if ptr2 < lfree then ptr2 else lfree;
    }

    /** What cutting the live block at `mem` down to `want` bytes leaves behind. */
    twostate predicate Shrunk(mem: int, want: int)
      requires old(Valid()) && old(Live(mem + HEADER))
      reads this
    {
      && blocks == old(blocks) + {mem + HEADER + want}
                   - (if old(Used(ram, Next(ram, mem))) then {} else {old(Next(ram, mem))})
      && Evolves(old(ram), old(blocks), ram, blocks, End(), mem)
      && Live(mem + HEADER) && Next(ram, mem) == mem + HEADER + want
      && SamePrefix(old(ram), mem + HEADER, ram, mem + HEADER, want)
      && usedMem == old(usedMem) - (old(Next(ram, mem)) - Next(ram, mem)) && maxMem == old(maxMem)
      && past == old(past) + [usedMem]
    }

    method Shrink(mem: int, want: int)
      requires Valid() && Live(mem + HEADER) && 4 <= want && want % 4 == 0
      requires want + HEADER + MIN_SIZE < Next(ram, mem) - mem - HEADER
      modifies this
      ensures Valid() && Shrunk(mem, want)
    {
      CutTail(mem, want);
      label Cut:
      PlugHoles(mem + HEADER + want);
      EvolvesThenEvolves(old(ram), old(blocks), old@Cut(ram), old@Cut(blocks), ram, blocks, End(), mem);
      PrefixSurvives(old(ram), old@Cut(ram), ram, blocks, mem, want);
    }

    /** rt_memcpy between two word-aligned areas, a word at a time */
    method MemCopy(dst: int, src: int, count: int)
      requires 0 <= count && 0 <= dst && dst + count <= |ram| && 0 <= src && src + count <= |ram|
      requires dst + count <= src || src + count <= dst
      requires count % 4 == 0
      modifies this`ram
      ensures |ram| == old(|ram|)
      ensures SamePrefix(old(ram), src, ram, dst, count) && OnlyWrote(old(ram), ram, dst, count)
    {
      ram := CopyWords(ram, dst, src, count);
    }

    /** The copy made by rt_realloc: it stays inside the new block. */
    method CopyInto(nb: int, src: int, count: int)
      requires Valid() && Live(nb + HEADER) && Live(src + HEADER) && nb != src
      requires 0 <= count && count % 4 == 0
      requires nb + HEADER + count <= Next(ram, nb) && src + HEADER + count <= Next(ram, src)
      modifies this`ram
      ensures Valid() && Live(nb + HEADER) && Next(ram, nb) == old(Next(ram, nb))
      ensures Evolves(old(ram), blocks, ram, blocks, End(), nb)
      ensures SamePrefix(old(ram), src + HEADER, ram, nb + HEADER, count)
    {
      Apart(ram, blocks, End(), nb, src);
      MemCopy(nb + HEADER, src + HEADER, count);
      CopyEffect(old(ram), ram, blocks, End(), nb, count, lfree);
    }

    /** What moving the live block at `mem` to `offset` leaves behind. */
    twostate predicate Moved(mem: int, offset: int, want: int)
      requires old(Valid()) && old(Live(mem + HEADER))
      requires 0 <= want < WORD_LIMIT
      reads this
    {
      var nb := offset - HEADER;
      var size := old(Next(ram, mem)) - mem - HEADER;
      && old(FirstFit(ram, blocks, End(), nb, Rounded(want)))
      && Tiled(ram, blocks, End()) && Live(offset) && Tight(old(ram), old(blocks), ram, blocks, End(), nb, Rounded(want))
      && SamePrefix(old(ram), mem + HEADER, ram, offset, if size < want then size else want)
      && OthersKept(old(ram), old(blocks), ram, blocks, End(), mem)
      && !(mem in blocks && Used(ram, mem))
      && NoneNew(old(ram), old(blocks), ram, blocks, End(), nb)
      && usedMem == old(usedMem) + (Next(ram, nb) - nb) - (size + HEADER)
      && maxMem == Max(old(maxMem), old(usedMem) + (Next(ram, nb) - nb))
      && past == old(past) + [old(usedMem) + (Next(ram, nb) - nb), usedMem]
    }

    /** rt_realloc, copying into the new block `nb` and freeing the old one */
    method Relocate(mem: int, nb: int, n: int)
      requires Valid() && Live(nb + HEADER) && Live(mem + HEADER) && nb != mem
      requires 0 <= n && n % 4 == 0
      requires nb + HEADER + n <= Next(ram, nb) && mem + HEADER + n <= Next(ram, mem)
      modifies this
      ensures Valid() && Live(nb + HEADER) && Next(ram, nb) == old(Next(ram, nb))
      ensures SwappedOut(old(ram), old(blocks), ram, blocks, End(), mem, nb, n)
      ensures usedMem == old(usedMem) - (old(Next(ram, mem)) - mem) && maxMem == old(maxMem)
      ensures past == old(past) + [usedMem]
    {
      CopyInto(nb, mem, n);
      label Copied:
      assert Kept(old(ram), ram, blocks, mem);
      Free(At(mem + HEADER));
      RelocateEffect(old(ram), old(blocks), old@Copied(ram), ram, blocks, End(), mem, nb, n);
    }

    /** The same, with the effect measured from the state `ram0`, `blocks0` in which
        `nb` was still free. */
    method RelocateSince(mem: int, nb: int, n: int, ghost ram0: Ram, ghost blocks0: set<int>)
      requires Valid() && Live(nb + HEADER) && Live(mem + HEADER) && nb != mem
      requires 0 <= n && n % 4 == 0
      requires nb + HEADER + n <= Next(ram, nb) && mem + HEADER + n <= Next(ram, mem)
      requires Evolves(ram0, blocks0, ram, blocks, End(), nb)
      requires nb in blocks0 && !Used(ram0, nb) && mem in blocks0 && Used(ram0, mem)
      modifies this
      ensures Valid() && Live(nb + HEADER) && Next(ram, nb) == old(Next(ram, nb))
      ensures OthersKept(ram0, blocks0, ram, blocks, End(), mem) && NoneNew(ram0, blocks0, ram, blocks, End(), nb)
      ensures SamePrefix(ram0, mem + HEADER, ram, nb + HEADER, n) && !(mem in blocks && Used(ram, mem))
      ensures usedMem == old(usedMem) - (old(Next(ram, mem)) - mem) && maxMem == old(maxMem)
      ensures past == old(past) + [usedMem]
    {
      StillThere(ram0, blocks0, ram, blocks, End(), nb, mem);
      Relocate(mem, nb, n);
      MoveEffect(ram0, blocks0, old(ram), old(blocks), ram, blocks, End(), mem, nb, n);
    }

    /** The rt_malloc call of rt_realloc: the live block at `mem` is untouched. */
    method MallocBeside(mem: int, want: int) returns (r: Pointer)
      requires Valid() && Live(mem + HEADER) && 4 <= want <= memSize && want % 4 == 0 && want <= WORD_LIMIT - 4
      modifies this
      ensures Valid() && Served(r, Rounded(want))
      ensures r.At? ==> Live(mem + HEADER) && Next(ram, mem) == old(Next(ram, mem)) && r.offset - HEADER != mem
      ensures r.At? ==> r.offset - HEADER in old(blocks) && old(!Used(ram, r.offset - HEADER))
    {
      r := Malloc(want);
      if r.At? {
        assert Candidate(old(ram), old(blocks), End(), r.offset - HEADER, Rounded(want));
        StillThere(old(ram), old(blocks), ram, blocks, End(), r.offset - HEADER, mem);
      }
    }

    /** rt_realloc, "expand memory" */
    method Move(mem: int, want: int) returns (r: Pointer)
      requires Valid() && Live(mem + HEADER) && 4 <= want <= memSize && want % 4 == 0 && want <= WORD_LIMIT - 4
      modifies this
      ensures Valid()
      ensures r.Null? <==> old(NoCandidate(ram, blocks, End(), Rounded(want)))
      ensures r.Null? ==> Same(old(ram), old(lfree), old(usedMem), old(maxMem), old(blocks), old(past))
      ensures r.At? ==> Moved(mem, r.offset, want)
    {
      hide CoalescedAround, LowestFree, HighWater, Evolves, OthersKept, NoneNew, SamePrefix, AllOnWord, NoCandidate, FirstFit, UsedBelow;
      var size := Next(ram, mem) - mem - HEADER;
      var count := if size < want then size else want;
      SizeOnWord(ram, blocks, End(), mem);
      r := MallocBeside(mem, want);
      if r.At? {
        ghost var ram1, blocks1 := ram, blocks;
        RelocateSince(mem, r.offset - HEADER, count, old(ram), old(blocks));
        StillTight(old(ram), old(blocks), ram1, blocks1, ram, blocks, End(), r.offset - HEADER, Rounded(want));
      }
    }

    /** What rt_realloc makes of the live block at `mem`: kept, cut down in place,
        refused, or moved with its data. */
    twostate predicate Resized(mem: int, want: int, r: Pointer)
      requires old(Valid()) && old(Live(mem + HEADER)) && 0 <= want < WORD_LIMIT
      reads this
    {
      if old(Next(ram, mem)) == mem + HEADER + want then
        r == At(mem + HEADER) && Same(old(ram), old(lfree), old(usedMem), old(maxMem), old(blocks), old(past))
      else if old(Next(ram, mem)) - mem - 12 > want + 24 then
        r == At(mem + HEADER) && Shrunk(mem, want)
      else if old(NoCandidate(ram, blocks, End(), Rounded(want))) then
        r == Null && Same(old(ram), old(lfree), old(usedMem), old(maxMem), old(blocks), old(past))
      else
        r.At? && Moved(mem, r.offset, want)
    }

    /** What the caller of rt_realloc relies on, however it was done: the block at `offset`
        has the bytes asked for and fewer than 24 more (of at least 12), and begins with the
        data block `mem` had. */
    twostate predicate CarriedOver(mem: int, offset: int, want: int)
      requires old(Valid()) && old(Live(mem + HEADER)) && 0 <= want < WORD_LIMIT
      reads this
    {
      && Tiled(ram, blocks, End()) && Live(offset) && want <= Next(ram, offset - 12) - offset < Max(want, 12) + 24
      && SamePrefix(old(ram), mem + 12, ram, offset, Min(old(Next(ram, mem)) - mem - 12, want))
    }

    /** rt_realloc of a live block, once the request has been rounded */
    method Resize(mem: int, want: int) returns (r: Pointer)
      requires Valid() && Live(mem + HEADER) && 4 <= want <= memSize && want % 4 == 0 && want <= WORD_LIMIT - 4
      modifies this
      ensures Valid() && Resized(mem, want, r) && (r.At? ==> CarriedOver(mem, r.offset, want))
    {
      hide CoalescedAround, LowestFree, HighWater, Evolves, OthersKept, NoneNew, SamePrefix, AllOnWord, NoCandidate, FirstFit, UsedBelow;
      var size := Next(ram, mem) - mem - HEADER;
      if size == want {
        Apart(ram, blocks, End(), mem, End());
        SamePlace(ram, mem + HEADER, want);
        return At(mem + HEADER);
      }
      if want + HEADER + MIN_SIZE < size {
        Shrink(mem, want);
        return At(mem + HEADER);
      }
      r := Move(mem, want);
    }

    /** rt_realloc, once the request has been rounded and found possible */
    method ReallocRounded(rmem: Pointer, want: int) returns (r: Pointer)
      requires Valid() && 4 <= want <= memSize && want % 4 == 0 && want <= WORD_LIMIT - 4
      requires rmem.At? && InHeap(rmem.offset) ==> Live(rmem.offset)
      modifies this
      ensures Valid()
      ensures rmem.Null? ==> Served(r, Rounded(want))
      ensures rmem.At? && InHeap(rmem.offset) ==> Resized(rmem.offset - HEADER, want, r)
      ensures rmem.At? && InHeap(rmem.offset) && r.At? ==> CarriedOver(rmem.offset - HEADER, r.offset, want)
      ensures rmem.At? && !InHeap(rmem.offset) ==>
                r == rmem && Same(old(ram), old(lfree), old(usedMem), old(maxMem), old(blocks), old(past))
    {
      hide HighWater, CoalescedAround, LowestFree, AllOnWord, NoCandidate;
      if rmem.Null? {
        r := Malloc(want);
        return;
      }
      if rmem.offset < 0 || rmem.offset >= memSize + HEADER {
        return rmem;
      }
      r := Resize(rmem.offset - HEADER, want);
    }

    /** rt_realloc.  A request that wraps to zero frees the block, exactly as a
        request for zero bytes does. */
    method Realloc(rmem: Pointer, newsize: int) returns (r: Pointer)
      requires Valid() && 0 <= newsize < WORD_LIMIT
      requires rmem.At? && InHeap(rmem.offset) ==> Live(rmem.offset)
      modifies this
      ensures Valid()
      ensures Align(newsize) == 0 ==> r.Null? && Freed(rmem)
      ensures Align(newsize) > memSize ==>
                r.Null? && Same(old(ram), old(lfree), old(usedMem), old(maxMem), old(blocks), old(past))
      ensures 0 < Align(newsize) <= memSize ==>
                && (rmem.Null? ==> Served(r, Rounded(Align(newsize))))
                && (rmem.At? && InHeap(rmem.offset) ==> Resized(rmem.offset - HEADER, Align(newsize), r))
                && (rmem.At? && InHeap(rmem.offset) && r.At? ==> CarriedOver(rmem.offset - HEADER, r.offset, Align(newsize)))
                && (rmem.At? && !InHeap(rmem.offset) ==>
                      r == rmem && Same(old(ram), old(lfree), old(usedMem), old(maxMem), old(blocks), old(past)))
    {
      var want := Align(newsize);
      if want > memSize {
        return Null;
      } else if want == 0 {
        Free(rmem);
        return Null;
      }
      r := ReallocRounded(rmem, want);
    }
  }
}
