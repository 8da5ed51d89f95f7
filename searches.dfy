/**
  Queues of breadth-first searches: the states a queue lists, how many of
  its entries are already explored, and the destinations of a set of
  transitions.
 */
module Searches {
  import opened Automata

  /** How many entries of `queue` lie in `s`. */
  function CountIn(queue: seq<int>, s: set<int>): (n: nat)
    ensures n <= |queue|
  {
    if queue == [] then 0 else (if queue[0] in s then 1 else 0) + CountIn(queue[1..], s)
  }

  /** Entries outside `s` do not count. */
  lemma {:induction false} CountInAppend(queue: seq<int>, added: seq<int>, s: set<int>)
    requires forall i :: 0 <= i < |added| ==> added[i] !in s
    ensures CountIn(queue + added, s) == CountIn(queue, s)
    decreases |queue|
  {
    if queue == [] {
      CountNone(added, s);
      assert queue + added == added;
    } else {
      assert (queue + added)[1..] == queue[1..] + added;
      CountInAppend(queue[1..], added, s);
    }
  }

  lemma {:induction false} CountNone(queue: seq<int>, s: set<int>)
    requires forall i :: 0 <= i < |queue| ==> queue[i] !in s
    ensures CountIn(queue, s) == 0
    decreases |queue|
  {
    if queue != [] {
      CountNone(queue[1..], s);
    }
  }

  /** The destinations of the transitions of `ts`. */
  function Dests(ts: set<Transition>): set<int> {
    set t | t in ts :: t.to
  }

  lemma DestsAdd(ts: set<Transition>, t: Transition)
    ensures Dests(ts + {t}) == Dests(ts) + {t.to}
  {
  }

  /** The states listed in `queue`. */
  function Elems(queue: seq<int>): set<int> {
    set x | x in queue
  }

  lemma ElemsAppend(a: seq<int>, b: seq<int>)
    ensures Elems(a + b) == Elems(a) + Elems(b)
  {
  }
}
