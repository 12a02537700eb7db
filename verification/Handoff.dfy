/** What the blocking objects of the kernel have in common: resources, threads that wait
    for one, and threads that were woken to fetch one but have not run yet. */
module Handoff {

  /** Somebody waits only while every resource is spoken for by a woken thread. */
  ghost predicate NotStranded(resources: nat, waiting: nat, woken: nat) {
    waiting > 0 ==> resources <= woken
  }

  /** If what was there and then sent is what was taken and then queued, it stays so
      when a step sends s and takes t. */
  lemma FifoStep<T>(start: seq<T>, sent: seq<T>, taken: seq<T>, queued: seq<T>, s: seq<T>, t: seq<T>, queued': seq<T>)
    requires start + sent == taken + queued && queued + s == t + queued'
    ensures start + (sent + s) == (taken + t) + queued'
  {
    assert start + (sent + s) == (start + sent) + s == taken + (queued + s);
  }

  /** The same without the order. */
  lemma ConserveStep<T>(start: seq<T>, sent: seq<T>, taken: seq<T>, queued: seq<T>, s: seq<T>, t: seq<T>, queued': seq<T>)
    requires multiset(start) + multiset(sent) == multiset(taken) + multiset(queued)
    requires multiset(queued) + multiset(s) == multiset(t) + multiset(queued')
    ensures multiset(start) + multiset(sent + s) == multiset(taken + t) + multiset(queued')
  {
    assert multiset(start) + multiset(sent + s) == (multiset(start) + multiset(sent)) + multiset(s);
    assert (multiset(taken) + multiset(queued)) + multiset(s) == multiset(taken) + (multiset(queued) + multiset(s));
    assert multiset(taken) + (multiset(t) + multiset(queued')) == multiset(taken + t) + multiset(queued');
  }
}
