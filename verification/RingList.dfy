/** The circular doubly linked lists of include/rtservice.h, on which every queue
    of the kernel rests.  Nodes are addresses; `nxt` and `prv` are the two link
    fields of every node in memory.  A list is described by the sequence of its
    nodes, the list head first. */
module RingList {

  type Links = map<int, int>

  function Succ(i: int, n: int): int { if i + 1 == n then 0 else i + 1 }

  function Pred(i: int, n: int): int { if i == 0 then n - 1 else i - 1 }

  ghost predicate Differ(s: seq<int>, i: int, j: int)
    requires 0 <= i < |s| && 0 <= j < |s|
  {
    i != j ==> s[i] != s[j]
  }

  /** No node occurs twice. */
  ghost predicate Distinct(s: seq<int>) {
    forall i, j {:trigger Differ(s, i, j)} | 0 <= i < |s| && 0 <= j < |s| :: Differ(s, i, j)
  }

  /** Node i of `s` points at both its neighbours. */
  ghost predicate LinkedAt(nxt: Links, prv: Links, s: seq<int>, i: int)
    requires 0 <= i < |s|
  {
    s[i] in nxt && s[i] in prv && nxt[s[i]] == s[Succ(i, |s|)] && prv[s[i]] == s[Pred(i, |s|)]
  }

  /** Following nxt from s[0] runs through `s` and back, prv runs the other way. */
  ghost predicate Ring(nxt: Links, prv: Links, s: seq<int>) {
    && |s| > 0 && Distinct(s)
    && (forall i {:trigger LinkedAt(nxt, prv, s, i)} | 0 <= i < |s| :: LinkedAt(nxt, prv, s, i))
  }

  function Without(s: seq<int>, k: int): seq<int>
    requires 0 <= k < |s|
  {
    s[..k] + s[k + 1..]
  }

  function Inserted(s: seq<int>, k: int, n: int): seq<int>
    requires 0 <= k <= |s|
  {
    s[..k] + [n] + s[k..]
  }

  ghost function Position(s: seq<int>, x: int): (k: int)
    requires x in s
    ensures 0 <= k < |s| && s[k] == x
  {
    var k :| 0 <= k < |s| && s[k] == x;
    k
  }

  lemma DifferAt(s: seq<int>, i: int, j: int)
    requires Distinct(s) && 0 <= i < |s| && 0 <= j < |s| && i != j
    ensures s[i] != s[j]
  {
    assert Differ(s, i, j);
  }

  lemma OnlyMember(s: seq<int>, x: int)
    requires Distinct(s) && forall y :: y in s <==> y == x
    ensures s == [x]
  {
    assert x in s;
    assert forall i | 0 <= i < |s| :: s[i] in s;
    if |s| > 1 {
      DifferAt(s, 0, 1);
      assert false;
    }
  }

  lemma WithoutMembers(s: seq<int>, k: int)
    requires Distinct(s) && 0 <= k < |s|
    ensures Distinct(Without(s, k))
    ensures forall p :: p in Without(s, k) <==> p in s && p != s[k]
  {
    var t := Without(s, k);
    forall p | p in s && p != s[k]
      ensures p in t
    {
      var i :| 0 <= i < |s| && s[i] == p;
      assert t[if i < k then i else i - 1] == p;
    }
    forall i, j | 0 <= i < |t| && 0 <= j < |t|
      ensures Differ(t, i, j)
    {
      assert Differ(s, if i < k then i else i + 1, if j < k then j else j + 1);
    }
    forall p | p in t
      ensures p in s && p != s[k]
    {
      var i :| 0 <= i < |t| && t[i] == p;
      assert Differ(s, if i < k then i else i + 1, k);
    }
  }

  lemma ConsMembers(x: int, s: seq<int>)
    requires Distinct(s) && x !in s
    ensures Distinct([x] + s)
    ensures forall p :: p in [x] + s <==> p == x || p in s
  {
    var t := [x] + s;
    forall i, j | 0 <= i < |t| && 0 <= j < |t|
      ensures Differ(t, i, j)
    {
      if i != 0 && j != 0 {
        assert Differ(s, i - 1, j - 1);
      }
    }
  }

  /** Unlinking node k of a ring with another node in it. */
  lemma UnlinkKeepsRing(nxt: Links, prv: Links, s: seq<int>, k: int, nxt': Links, prv': Links)
    requires Ring(nxt, prv, s) && 0 <= k < |s| && |s| > 1
    requires LinkedAt(nxt, prv, s, k)
    requires nxt' == nxt[prv[s[k]] := nxt[s[k]]] && prv' == prv[nxt[s[k]] := prv[s[k]]]
    ensures Ring(nxt', prv', Without(s, k))
  {
    var t := Without(s, k);
    forall i | 0 <= i < |t|
      ensures LinkedAt(nxt', prv', t, i)
    {
      var j := if i < k then i else i + 1;
      assert t[i] == s[j] && LinkedAt(nxt, prv, s, j);
      assert Differ(s, j, Pred(k, |s|)) && Differ(s, j, Succ(k, |s|));
    }
    forall i, j | 0 <= i < |t| && 0 <= j < |t|
      ensures Differ(t, i, j)
    {
      assert Differ(s, if i < k then i else i + 1, if j < k then j else j + 1);
    }
  }

  /** Linking the new node `n` in front of position k; position |s| is the end. */
  lemma LinkKeepsRing(nxt: Links, prv: Links, s: seq<int>, k: int, n: int, nxt': Links, prv': Links)
    requires Ring(nxt, prv, s) && 0 < k <= |s| && n !in s
    requires var a, b := s[k - 1], s[if k == |s| then 0 else k];
             nxt' == nxt[n := b][a := n] && prv' == prv[n := a][b := n]
    ensures Ring(nxt', prv', Inserted(s, k, n))
  {
    var t := Inserted(s, k, n);
    var e := if k == |s| then 0 else k;
    forall i | 0 <= i < |t|
      ensures LinkedAt(nxt', prv', t, i)
    {
      if i != k {
        var j := if i < k then i else i - 1;
        assert t[i] == s[j] && LinkedAt(nxt, prv, s, j);
        assert Differ(s, j, k - 1) && Differ(s, j, e);
      }
    }
    forall i, j | 0 <= i < |t| && 0 <= j < |t|
      ensures Differ(t, i, j)
    {
      if i != k && j != k {
        assert Differ(s, if i < k then i else i - 1, if j < k then j else j - 1);
      }
    }
  }

  /** Writing links of nodes outside a ring leaves the ring alone. */
  lemma RingFrame(nxt: Links, prv: Links, nxt': Links, prv': Links, s: seq<int>)
    requires Ring(nxt, prv, s)
    requires forall i {:trigger LinkedAt(nxt, prv, s, i)} | 0 <= i < |s| && LinkedAt(nxt, prv, s, i) ::
               s[i] in nxt' && nxt'[s[i]] == nxt[s[i]] && s[i] in prv' && prv'[s[i]] == prv[s[i]]
    ensures Ring(nxt', prv', s)
  {
    forall i | 0 <= i < |s|
      ensures LinkedAt(nxt', prv', s, i)
    {
      assert LinkedAt(nxt, prv, s, i);
    }
  }

  // ----- The writes of the list operations

  function LinkedNext(nxt: Links, a: int, n: int, b: int): Links { nxt[n := b][a := n] }

  function LinkedPrev(prv: Links, a: int, n: int, b: int): Links { prv[n := a][b := n] }

  function UnlinkedNext(nxt: Links, prv: Links, n: int): Links
    requires n in nxt && n in prv
  {
    nxt[prv[n] := nxt[n]][n := n]
  }

  function UnlinkedPrev(nxt: Links, prv: Links, n: int): Links
    requires n in nxt && n in prv
  {
    prv[nxt[n] := prv[n]][n := n]
  }

  /** Removing what was just inserted restores every link in memory; the node itself
      points at itself. */
  lemma RemoveUndoesInsert(nxt: Links, prv: Links, s: seq<int>, k: int, n: int)
    requires Ring(nxt, prv, s) && 0 <= k < |s| && n !in s
    ensures var a, b := s[k], s[Succ(k, |s|)];
      var nxt1, prv1 := LinkedNext(nxt, a, n, b), LinkedPrev(prv, a, n, b);
      n in nxt1 && n in prv1 &&
      UnlinkedNext(nxt1, prv1, n) == nxt[n := n] && UnlinkedPrev(nxt1, prv1, n) == prv[n := n]
  {
    var a, b := s[k], s[Succ(k, |s|)];
    assert LinkedAt(nxt, prv, s, k) && LinkedAt(nxt, prv, s, Succ(k, |s|));
    assert a in s && b in s && nxt[a] == b && prv[b] == a;
    var nxt1, prv1 := LinkedNext(nxt, a, n, b), LinkedPrev(prv, a, n, b);
    assert prv1[n] == a && nxt1[n] == b;
  }

  /** All list nodes in memory. */
  class Nodes {
    var nxt: Links
    var prv: Links

    /** rt_list_init */
    method Init(l: int)
      modifies this
      ensures Ring(nxt, prv, [l])
      ensures nxt == old(nxt)[l := l] && prv == old(prv)[l := l]
    {
      nxt := nxt[l := l];
      prv := prv[l := l];
    }

    /** rt_list_insert_after the node at position k */
    method InsertAfter(l: int, n: int, ghost s: seq<int>, ghost k: int)
      requires Ring(nxt, prv, s) && 0 <= k < |s| && s[k] == l && n !in s
      modifies this
      ensures Ring(nxt, prv, Inserted(s, k + 1, n))
      ensures var b := s[Succ(k, |s|)]; nxt == LinkedNext(old(nxt), l, n, b) && prv == LinkedPrev(old(prv), l, n, b)
      ensures OnlyTouched(old(nxt), nxt, s + [n]) && OnlyTouched(old(prv), prv, s + [n])
    {
      assert LinkedAt(nxt, prv, s, k);
      prv := prv[nxt[l] := n];
      nxt := nxt[n := nxt[l]];
      nxt := nxt[l := n];
      prv := prv[n := l];
      var b := old(nxt)[l];
      assert prv == old(prv)[n := l][b := n];
      LinkKeepsRing(old(nxt), old(prv), s, k + 1, n, nxt, prv);
    }

    /** rt_list_insert_before; before the head means at the end */
    method InsertBefore(l: int, n: int, ghost s: seq<int>, ghost k: int)
      requires Ring(nxt, prv, s) && 0 < k <= |s| && s[if k == |s| then 0 else k] == l && n !in s
      modifies this
      ensures Ring(nxt, prv, Inserted(s, k, n))
      ensures nxt == LinkedNext(old(nxt), s[k - 1], n, l) && prv == LinkedPrev(old(prv), s[k - 1], n, l)
      ensures OnlyTouched(old(nxt), nxt, s + [n]) && OnlyTouched(old(prv), prv, s + [n])
    {
      assert LinkedAt(nxt, prv, s, if k == |s| then 0 else k);
      nxt := nxt[prv[l] := n];
      prv := prv[n := prv[l]];
      prv := prv[l := n];
      nxt := nxt[n := l];
      var a := old(prv)[l];
      assert nxt == old(nxt)[n := l][a := n];
      LinkKeepsRing(old(nxt), old(prv), s, k, n, nxt, prv);
    }

    /** rt_list_remove: the node leaves its ring and becomes a ring of its own; a node
        alone in its ring stays one */
    method Remove(n: int, ghost s: seq<int>, ghost k: int)
      requires Ring(nxt, prv, s) && 0 <= k < |s| && s[k] == n
      modifies this
      ensures Ring(nxt, prv, [n]) && (|s| > 1 ==> Ring(nxt, prv, Without(s, k)))
      ensures |s| == 1 ==> nxt == old(nxt) && prv == old(prv)
      ensures n in old(nxt) && n in old(prv)
      ensures nxt == UnlinkedNext(old(nxt), old(prv), n) && prv == UnlinkedPrev(old(nxt), old(prv), n)
      ensures OnlyTouched(old(nxt), nxt, s) && OnlyTouched(old(prv), prv, s)
    {
      assert LinkedAt(nxt, prv, s, k);
      prv := prv[nxt[n] := prv[n]];
      nxt := nxt[prv[n] := nxt[n]];
      ghost var nxt1, prv1 := nxt, prv;
      nxt := nxt[n := n];
      prv := prv[n := n];
      if |s| > 1 {
        UnlinkKeepsRing(old(nxt), old(prv), s, k, nxt1, prv1);
        WithoutMembers(s, k);
        assert forall i | 0 <= i < |Without(s, k)| :: Without(s, k)[i] in Without(s, k);
        RingFrame(nxt1, prv1, nxt, prv, Without(s, k));
      }
    }

    /** rt_list_isempty */
    method IsEmpty(l: int, ghost s: seq<int>) returns (r: bool)
      requires Ring(nxt, prv, s) && s[0] == l
      ensures r <==> |s| == 1
    {
      assert LinkedAt(nxt, prv, s, 0);
      assert Differ(s, 0, Succ(0, |s|));
      r := nxt[l] == l;
    }

    /** rt_list_len */
    method Len(l: int, ghost s: seq<int>) returns (len: nat)
      requires Ring(nxt, prv, s) && s[0] == l
      ensures len == |s| - 1
    {
      len := 0;
      var p := l;
      assert LinkedAt(nxt, prv, s, 0);
      while nxt[p] != l
        invariant len < |s| && p == s[len] && LinkedAt(nxt, prv, s, len)
        decreases |s| - len
      {
        assert Differ(s, 0, Succ(len, |s|));
        p := nxt[p];
        len := len + 1;
        assert LinkedAt(nxt, prv, s, len);
      }
      assert Differ(s, 0, Succ(len, |s|));
    }
  }

  ghost predicate OnlyTouched(m: Links, m': Links, s: seq<int>) {
    m.Keys <= m'.Keys && forall a {:trigger m'[a]} | a in m && a !in s :: m'[a] == m[a]
  }
}
