/** RT_ALIGN and its relatives, from include/rtdef.h, for a 4-byte alignment. */
module Alignment {

  const WORD_LIMIT := 0x1_0000_0000

  /** RT_ALIGN(n, 4) on a 32-bit unsigned n: the addition wraps. */
  function Align(n: int): (r: int)
    requires 0 <= n < WORD_LIMIT
    ensures r % 4 == 0 && 0 <= r < WORD_LIMIT
    ensures n <= WORD_LIMIT - 4 ==> n <= r < n + 4
    ensures n > WORD_LIMIT - 4 ==> r == 0
  {
    (n + 3) % WORD_LIMIT / 4 * 4
  }

  /** RT_ALIGN_DOWN(n, 4) */
  function AlignDown(n: int): (r: int)
    requires 0 <= n < WORD_LIMIT
    ensures r % 4 == 0 && 0 <= r <= n < r + 4
  {
    n / 4 * 4
  }

  ghost predicate OnWord(p: int) {
    p % 4 == 0
  }

  /** Every address in the set is word aligned. */
  ghost predicate AllOnWord(s: set<int>) {
    forall p {:trigger OnWord(p)} | p in s :: OnWord(p)
  }

  lemma StillOnWord(s: set<int>, p: int, d: int)
    requires AllOnWord(s) && p in s && d % 4 == 0
    ensures AllOnWord(s + {p + d})
  {
    assert OnWord(p);
  }

  function Min(a: int, b: int): int { if a < b then a else b }

  function Max(a: int, b: int): int { if a < b then b else a }
}
