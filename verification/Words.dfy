/** Memory as words at byte addresses, and a history of values with its high-water mark. */
module Words {

  type Ram = seq<int>

  ghost predicate SameWord(ram: Ram, src: int, ram': Ram, dst: int, k: int) {
    0 <= src + k < |ram| && 0 <= dst + k < |ram'| && ram'[dst + k] == ram[src + k]
  }

  /** The first `n` bytes at `dst` are, word for word, what was at `src`. */
  ghost predicate SamePrefix(ram: Ram, src: int, ram': Ram, dst: int, n: int) {
    forall k {:trigger SameWord(ram, src, ram', dst, k)} | 0 <= k < n && k % 4 == 0 :: SameWord(ram, src, ram', dst, k)
  }

  lemma SamePlace(ram: Ram, p: int, n: int)
    requires 0 <= p && p + n <= |ram|
    ensures SamePrefix(ram, p, ram, p, n)
  {
  }

  /** Only the `n` bytes at `dst` were written. */
  ghost predicate OnlyWrote(ram: Ram, ram': Ram, dst: int, n: int) {
    |ram'| == |ram| && forall a {:trigger ram'[a]} | 0 <= a < |ram| && !(dst <= a < dst + n) :: ram'[a] == ram[a]
  }

  /** rt_memcpy between two word-aligned areas, a word at a time */
  method CopyWords(ram: Ram, dst: int, src: int, count: int) returns (r: Ram)
    requires 0 <= count && 0 <= dst && dst + count <= |ram| && 0 <= src && src + count <= |ram|
    requires dst + count <= src || src + count <= dst
    requires count % 4 == 0
    ensures |r| == |ram| && SamePrefix(ram, src, r, dst, count) && OnlyWrote(ram, r, dst, count)
  {
    r := ram;
    var done := 0;
    while done < count
      invariant 0 <= done <= count && done % 4 == 0
      invariant SamePrefix(ram, src, r, dst, done) && OnlyWrote(ram, r, dst, done)
    {
      ghost var before := r;
      r := r[dst + done := r[src + done]];
      forall k | 0 <= k < done + 4 && k % 4 == 0
        ensures SameWord(ram, src, r, dst, k)
      {
        if k < done {
          assert SameWord(ram, src, before, dst, k);
        }
      }
      done := done + 4;
    }
  }

  /** `now` is the last of the past values and `mark` the largest of them. */
  ghost predicate HighWater(past: seq<int>, now: int, mark: int) {
    && |past| > 0 && past[|past| - 1] == now
    && (forall i | 0 <= i < |past| :: past[i] <= mark)
    && mark in past
  }

  lemma MarkFollows(past: seq<int>, now: int, mark: int, now': int)
    requires HighWater(past, now, mark)
    ensures HighWater(past + [now'], now', if mark < now' then now' else mark)
  {
    var past' := past + [now'];
    assert past'[|past|] == now';
    var i :| 0 <= i < |past| && past[i] == mark;
    assert past'[i] == mark;
  }

  // ----- rt_memcpy, byte by byte

  /** The memory with the bytes at `src` also at `dst`. */
  function Pasted(mem: seq<int>, dst: nat, src: nat, n: nat): seq<int>
    requires dst + n <= |mem| && src + n <= |mem|
  {
    mem[..dst] + mem[src..src + n] + mem[dst + n..]
  }

  /** Copying k more bytes after the first n. */
  lemma PastedMore(mem: seq<int>, dst: nat, src: nat, n: nat, k: nat)
    requires dst + n + k <= |mem| && src + n + k <= |mem|
    requires dst + n + k <= src || src + n + k <= dst
    ensures |Pasted(mem, dst, src, n)| == |mem|
    ensures Pasted(Pasted(mem, dst, src, n), dst + n, src + n, k) == Pasted(mem, dst, src, n + k)
  {
    var p := Pasted(mem, dst, src, n);
    assert p[src + n..src + n + k] == mem[src + n..src + n + k];
    assert p[..dst + n] == mem[..dst] + mem[src..src + n];
    assert p[dst + n + k..] == mem[dst + n + k..];
    assert mem[src..src + n] + mem[src + n..src + n + k] == mem[src..src + n + k];
  }

  /** rt_memcpy: words, four at a time and then singly, when both areas are aligned and
      there are enough; bytes for the rest, and for everything otherwise. */
  method MemCpy(mem: seq<int>, dst: nat, src: nat, count: nat) returns (r: seq<int>)
    requires dst + count <= |mem| && src + count <= |mem|
    requires dst + count <= src || src + count <= dst
    ensures r == Pasted(mem, dst, src, count)
  {
    r := mem;
    var done := 0;
    assert r == Pasted(mem, dst, src, 0);
    if count >= 16 && dst % 4 == 0 && src % 4 == 0 {
      while count - done >= 16
        invariant 0 <= done <= count && |r| == |mem| && r == Pasted(mem, dst, src, done)
        decreases count - done
      {
        hide Pasted;
        r, done := CopyUnit(mem, r, dst, src, count, done, 4);
        r, done := CopyUnit(mem, r, dst, src, count, done, 4);
        r, done := CopyUnit(mem, r, dst, src, count, done, 4);
        r, done := CopyUnit(mem, r, dst, src, count, done, 4);
      }
      while count - done >= 4
        invariant 0 <= done <= count && |r| == |mem| && r == Pasted(mem, dst, src, done)
        decreases count - done
      {
        hide Pasted;
        r, done := CopyUnit(mem, r, dst, src, count, done, 4);
      }
    }
    while done < count
      invariant 0 <= done <= count && |r| == |mem| && r == Pasted(mem, dst, src, done)
      decreases count - done
    {
      hide Pasted;
      r, done := CopyUnit(mem, r, dst, src, count, done, 1);
    }
  }

  /** Copies the next word or byte. */
  method CopyUnit(ghost mem: seq<int>, now: seq<int>, dst: nat, src: nat, count: nat, done: nat, k: nat)
    returns (r: seq<int>, done': nat)
    requires dst + count <= |mem| && src + count <= |mem| && (dst + count <= src || src + count <= dst)
    requires done + k <= count && |now| == |mem| && now == Pasted(mem, dst, src, done)
    ensures done' == done + k && |r| == |mem| && r == Pasted(mem, dst, src, done')
  {
    PastedMore(mem, dst, src, done, k);
    done' := done + k;
    r := now[..dst + done] + now[src + done..src + done'] + now[dst + done'..];
  }
}
