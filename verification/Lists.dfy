/** What the lists of the kernel share: taking one element out, and turning a list round. */
module Lists {

  datatype Option<T> = None | Some(value: T)

  function Without<T>(s: seq<T>, i: nat): (r: seq<T>)
    requires i < |s|
    ensures |r| == |s| - 1
    ensures forall k | 0 <= k < i :: r[k] == s[k]
    ensures forall k | i <= k < |r| :: r[k] == s[k + 1]
  {
    s[..i] + s[i + 1..]
  }

  lemma WithoutMembers<T>(s: seq<T>, i: nat)
    requires i < |s|
    ensures multiset(Without(s, i)) == multiset(s) - multiset{s[i]}
  {
    assert s == s[..i] + [s[i]] + s[i + 1..];
  }

  lemma HeadToEither<T>(s: seq<T>, a: seq<T>, b: seq<T>)
    requires s != [] && multiset(s[1..]) == multiset(a) + multiset(b)
    ensures multiset(s) == multiset([s[0]] + a) + multiset(b) && multiset(s) == multiset(a) + multiset([s[0]] + b)
  {
    assert s == [s[0]] + s[1..];
  }

  lemma WithoutHasRest<T>(s: seq<T>, i: nat, x: T)
    requires i < |s| && x in s && x != s[i]
    ensures x in Without(s, i)
  {
    var k :| 0 <= k < |s| && s[k] == x;
    assert Without(s, i)[if k < i then k else k - 1] == x;
  }

  lemma WithoutHad<T>(s: seq<T>, i: nat, x: T)
    requires i < |s| && x in Without(s, i)
    ensures x in s
  {
    var k :| 0 <= k < |s| - 1 && Without(s, i)[k] == x;
    assert s[if k < i then k else k + 1] == x;
  }

  function Reversed<T>(s: seq<T>): (r: seq<T>)
    ensures |r| == |s| && multiset(r) == multiset(s)
  {
    if s == [] then [] else
      assert s == [s[0]] + s[1..];
      Reversed(s[1..]) + [s[0]]
  }

  /** The list without t, wherever it stood. */
  function Removed(list: seq<nat>, t: nat): seq<nat> {
    if list == [] then [] else if list[0] == t then list[1..] else [list[0]] + Removed(list[1..], t)
  }

  ghost predicate Distinct(list: seq<nat>) {
    forall i, j | 0 <= i < j < |list| :: list[i] != list[j]
  }

  lemma HeadApart(list: seq<nat>)
    requires list != [] && Distinct(list)
    ensures list[0] !in list[1..] && Distinct(list[1..])
    ensures forall x :: x in list <==> x == list[0] || x in list[1..]
  {
    assert list == [list[0]] + list[1..];
  }

  lemma {:induction false} RemovedMembers(list: seq<nat>, t: nat)
    requires Distinct(list)
    ensures Distinct(Removed(list, t))
    ensures forall x :: x in Removed(list, t) <==> x in list && x != t
  {
    if list != [] {
      RemovedMembers(list[1..], t);
      assert list[0] !in list[1..];
      assert forall x :: x in list <==> x == list[0] || x in list[1..];
    }
  }

  lemma {:induction false} RemovedAbsent(list: seq<nat>, t: nat)
    requires t !in list
    ensures Removed(list, t) == list
  {
    if list != [] {
      RemovedAbsent(list[1..], t);
    }
  }

  lemma {:induction false} RemovedAt(list: seq<nat>, t: nat, k: nat)
    requires k < |list| && list[k] == t && forall j | 0 <= j < k :: list[j] != t
    ensures Removed(list, t) == list[..k] + list[k + 1..]
  {
    if k > 0 {
      RemovedAt(list[1..], t, k - 1);
      assert [list[0]] + (list[1..][..k - 1] + list[1..][k..]) == list[..k] + list[k + 1..];
    }
  }

  // ----- Chains through memory

  const NULL: int := -1

  /** Following `next` from `first` visits exactly s and then ends. */
  ghost predicate Chain(next: seq<int>, first: int, s: seq<nat>)
    decreases |s|
  {
    if s == [] then first == NULL
    else first == s[0] && s[0] < |next| && Chain(next, next[s[0]], s[1..])
  }

  lemma {:induction false} ChainFrame(next: seq<int>, first: int, s: seq<nat>, x: nat, v: int)
    requires Chain(next, first, s) && x !in s && x < |next|
    ensures Chain(next[x := v], first, s)
    decreases |s|
  {
    if s != [] {
      ChainFrame(next, next[s[0]], s[1..], x, v);
    }
  }
}
