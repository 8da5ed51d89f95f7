/**
  Minimization of a deterministic automaton in three passes: the states not
  reachable from the initial state are dropped, then the states from which
  no final state can be reached, and the remaining states are merged by a
  table of equivalent pairs refined to a fixed point.
 */
module Minimization {
  import opened Orders
  import opened Graphs
  import opened Numberings
  import opened Automata
  import opened Searches
  import opened Equivalence
  import opened Merging
  import opened Determinization

  // ---------------------------------------------------------------------
  // Removing unreachable states

  /**
    Appends to the queue, in the table's order, the destination of every
    transition of `ts` that is not explored yet; a destination reached by two
    transitions is appended twice.
   */
  method EnqueueUnexplored(ts: set<Transition>, explored: set<int>, queue0: seq<int>) returns (queue: seq<int>, ghost added: seq<int>)
    ensures queue == queue0 + added
    ensures forall i :: 0 <= i < |added| ==> added[i] !in explored
    ensures forall q :: q in added <==> q !in explored && q in Dests(ts)
  {
    queue, added := queue0, [];
    var rest := ts;
    while rest != {}
      invariant rest <= ts && queue == queue0 + added
      invariant forall i :: 0 <= i < |added| ==> added[i] !in explored
      invariant forall q :: q in added <==> q !in explored && q in Dests(ts - rest)
      decreases rest
    {
      var t :| t in rest;
      DestsAdd(ts - rest, t);
      assert ts - (rest - {t}) == (ts - rest) + {t};
      rest := rest - {t};
      if t.to !in explored {
        queue, added := queue + [t.to], added + [t.to];
      }
    }
    assert ts - rest == ts;
  }

  /**
    The bookkeeping of the search of `removeUnreachableStates`: explored and
    queued states are reachable states of the automaton, the successors of
    an explored state are explored or queued, and the root is one of them.
   */
  ghost predicate ForwardSearch(table: Table, states: set<int>, root: int, explored: set<int>, queue: seq<int>) {
    && explored <= states && Elems(queue) <= states
    && (forall q :: q in explored + Elems(queue) ==> Reachable(Edge(table), root, q))
    && (forall q :: q in explored ==> Successors(table, q) <= explored + Elems(queue))
    && root in explored + Elems(queue)
  }

  /**
    The search of `removeUnreachableStates`: states are marked explored when
    they leave the queue, so a state may be queued more than once before it
    is first taken out; the search ends with exactly the states reachable
    from `root`.
   */
  method ExploreFrom(table: Table, states: set<int>, root: int) returns (explored: set<int>)
    requires root in states
    requires forall q, t :: q in table && t in table[q] ==> t.to in states
    ensures explored <= states
    ensures forall q :: q in explored <==> Reachable(Edge(table), root, q)
  {
    var queue := [root];
    explored := {};
    ReachableRefl(Edge(table), root);
    assert Elems(queue) == {root};
    while queue != []
      invariant ForwardSearch(table, states, root, explored, queue)
      decreases |states - explored|, CountIn(queue, explored)
    {
      var state := queue[0];
      ghost var explored0, queue0 := explored, queue;
      queue := queue[1..];
      explored := explored + {state};
      ghost var added;
      queue, added := EnqueueUnexplored(Out(table, state), explored, queue);
      assert Dests(Out(table, state)) == Successors(table, state);
      assert state in Elems(queue0);
      ExploreStep(table, states, root, explored0, queue0, explored, queue, added);
      ExploreMeasure(states, explored0, queue0, explored, queue, added);
    }
    assert ClosedUnder(Edge(table), explored) by {
      forall x, y | x in explored && (x, y) in Edge(table) ensures y in explored {
        assert y in Successors(table, x);
      }
    }
    ClosedContainsReachable(Edge(table), root, explored);
  }

  /** One step of `ExploreFrom` keeps its bookkeeping and decreases its measure. */
  lemma ExploreStep(table: Table, states: set<int>, root: int, explored0: set<int>, queue0: seq<int>,
                    explored: set<int>, queue: seq<int>, added: seq<int>)
    requires forall q, t :: q in table && t in table[q] ==> t.to in states
    requires ForwardSearch(table, states, root, explored0, queue0) && queue0 != []
    requires explored == explored0 + {queue0[0]} && queue == queue0[1..] + added
    requires forall i :: 0 <= i < |added| ==> added[i] !in explored
    requires forall q :: q in added <==> q !in explored && q in Successors(table, queue0[0])
    ensures ForwardSearch(table, states, root, explored, queue)
  {
    var state := queue0[0];
    assert queue0 == [state] + queue0[1..];
    ElemsAppend([state], queue0[1..]);
    ElemsAppend(queue0[1..], added);
    assert Elems([state]) == {state};
    forall q | q in Elems(added) ensures q in states && Reachable(Edge(table), root, q) {
      var t :| t in Out(table, state) && t.to == q;
      assert (state, q) in Edge(table);
      ReachableStep(Edge(table), root, state, q);
    }
  }

  /**
    The measure of `ExploreFrom` decreases at every step: either one more
    state is explored, or a state explored already leaves the queue and
    nothing explored joins it.
   */
  lemma ExploreMeasure(states: set<int>, explored0: set<int>, queue0: seq<int>, explored: set<int>, queue: seq<int>, added: seq<int>)
    requires explored0 <= states && queue0 != [] && queue0[0] in states
    requires explored == explored0 + {queue0[0]} && queue == queue0[1..] + added
    requires forall i :: 0 <= i < |added| ==> added[i] !in explored
    ensures |states - explored| < |states - explored0| ||
            (|states - explored| == |states - explored0| && CountIn(queue, explored) < CountIn(queue0, explored0))
  {
    if queue0[0] in explored0 {
      assert explored == explored0;
      CountInAppend(queue0[1..], added, explored);
      assert CountIn(queue0, explored0) == 1 + CountIn(queue0[1..], explored0);
    } else {
      FewerLeft(states, explored0, explored, queue0[0]);
    }
  }

  /** `table` restricted to the entries of the states in `keep`. */
  function Restrict(table: Table, keep: set<int>): (r: Table)
    ensures r.Keys == table.Keys * keep
    ensures forall q :: q in r ==> r[q] == table[q]
  {
    map q | q in table && q in keep :: table[q]
  }

  /**
    `removeUnreachableStates`: a new deterministic automaton with the states
    reachable from the least initial state, the final states among them and
    their table entries; alphabet and initial states are copied. With no
    initial state `first()` fails: `ok` is false.
   */
  method RemoveUnreachableStates(a: Automaton) returns (ok: bool, r: Automaton)
    requires a.Valid()
    ensures ok == (a.initials != {})
    ensures ok ==> fresh(r) && r.kind == DFA
    ensures ok ==> forall q :: q in r.states <==> Reachable(Edge(a.table), Min(a.initials), q)
    ensures ok ==> r.states <= a.states && r.finals == a.finals * r.states
    ensures ok ==> r.alphabet == a.alphabet && r.initials == a.initials
    ensures ok ==> r.table == Restrict(a.table, r.states)
    ensures ok && a.initials <= r.states ==> r.Valid()
    ensures ok && Deterministic(a.table) ==> Deterministic(r.table)
  {
    if a.initials == {} {
      return false, a;
    }
    ok := true;
    var explored := ExploreFrom(a.table, a.states, Min(a.initials));
    r := new Automaton.Of(DFA, a.alphabet, explored, a.finals * explored, a.initials, Restrict(a.table, explored));
    ReachableClosed(a.table, Min(a.initials), explored);
  }

  /** The reachable states are closed under the table: every kept transition stays inside them. */
  lemma ReachableClosed(table: Table, root: int, explored: set<int>)
    requires forall q :: q in explored <==> Reachable(Edge(table), root, q)
    ensures forall q, t :: q in table && q in explored && t in table[q] ==> t.to in explored
  {
    forall q, t | q in table && q in explored && t in table[q] ensures t.to in explored {
      assert (q, t.to) in Edge(table);
      ReachableStep(Edge(table), root, q, t.to);
    }
  }

  // ---------------------------------------------------------------------
  // Incoming states

  /** The states among `ps` with a transition to `q`. */
  function SourcesAmong(table: Table, ps: set<int>, q: int): set<int> {
    set p | p in ps && q in Successors(table, p)
  }

  /** The states with a transition to `q`. */
  function Sources(table: Table, q: int): set<int> {
    SourcesAmong(table, table.Keys, q)
  }

  /**
    `getIncomingStates`: the map from every state with a transition into it
    to the set of states those transitions leave from.
   */
  method IncomingStates(table: Table) returns (incoming: map<int, set<int>>)
    ensures forall q :: q in incoming <==> Sources(table, q) != {}
    ensures forall q :: q in incoming ==> incoming[q] == Sources(table, q)
  {
    incoming := map[];
    var keys := table.Keys;
    while keys != {}
      invariant keys <= table.Keys
      invariant forall q :: q in incoming <==> SourcesAmong(table, table.Keys - keys, q) != {}
      invariant forall q :: q in incoming ==> incoming[q] == SourcesAmong(table, table.Keys - keys, q)
      decreases keys
    {
      // `w` shows `keys` has an element, so the choice below exists.
      ghost var w := Min(keys);
      var p :| p in keys;
      ghost var done, incoming0 := table.Keys - keys, incoming;
      keys := keys - {p};
      incoming := AddSources(incoming, p, table[p]);
      assert Dests(table[p]) == Successors(table, p);
      IncomingStep(table, done, p, incoming0, incoming);
      assert table.Keys - keys == done + {p};
    }
  }

  /** Adding the sources of one more state `p` to the map. */
  lemma IncomingStep(table: Table, done: set<int>, p: int, incoming0: map<int, set<int>>, incoming: map<int, set<int>>)
    requires forall q :: q in incoming0 <==> SourcesAmong(table, done, q) != {}
    requires forall q :: q in incoming0 ==> incoming0[q] == SourcesAmong(table, done, q)
    requires Adds(incoming0, p, Successors(table, p), incoming)
    ensures forall q :: q in incoming <==> SourcesAmong(table, done + {p}, q) != {}
    ensures forall q :: q in incoming ==> incoming[q] == SourcesAmong(table, done + {p}, q)
  {
    forall q ensures SourcesAmong(table, done + {p}, q) ==
      SourcesAmong(table, done, q) + (if q in Successors(table, p) then {p} else {}) {
    }
  }

  /**
    `incoming` is `incoming0` with `p` added to the entry of every state of
    `dests`, entries created where missing.
   */
  ghost predicate Adds(incoming0: map<int, set<int>>, p: int, dests: set<int>, incoming: map<int, set<int>>) {
    && incoming.Keys == incoming0.Keys + dests
    && (forall q :: q in incoming ==>
          incoming[q] == (if q in incoming0 then incoming0[q] else {}) + (if q in dests then {p} else {}))
  }

  /** Records `p` as a source of the destination of every transition of `ts`. */
  method AddSources(incoming0: map<int, set<int>>, p: int, ts: set<Transition>) returns (incoming: map<int, set<int>>)
    ensures Adds(incoming0, p, Dests(ts), incoming)
  {
    incoming := incoming0;
    var rest := ts;
    ghost var seen: set<int> := {};
    while rest != {}
      invariant rest <= ts && seen == Dests(ts - rest)
      invariant Adds(incoming0, p, seen, incoming)
      decreases rest
    {
      var t :| t in rest;
      DestsAdd(ts - rest, t);
      assert ts - (rest - {t}) == (ts - rest) + {t};
      rest, seen := rest - {t}, seen + {t.to};
      var sources := if t.to in incoming then incoming[t.to] else {};
      incoming := incoming[t.to := sources + {p}];
    }
    assert ts - rest == ts;
  }

  // ---------------------------------------------------------------------
  // Removing useless states

  /** The states from which some final state can be reached. */
  ghost function Useful(table: Table, states: set<int>, finals: set<int>): set<int> {
    set q | q in states && ReachesFinal(table, finals, q)
  }

  /** The elements of a set in ascending order: iteration over a sorted set. */
  function Ascending(s: set<int>): (r: seq<int>)
    ensures |r| == |s|
    ensures forall q :: q in r <==> q in s
    decreases |s|
  {
    if s == {} then [] else [Min(s)] + Ascending(s - {Min(s)})
  }

  /**
    The backward search of `removeUselessStates`: from the final states,
    every state with a transition into an explored state is explored, each
    queued once.
   */
  method ExploreBack(table: Table, states: set<int>, finals: set<int>) returns (explored: set<int>)
    requires WellFormed(states, {}, finals, table)
    ensures finals <= explored
    ensures explored == Useful(table, states, finals)
  {
    var incoming := IncomingStates(table);
    var queue := Ascending(finals);
    explored := finals;
    ghost var done: set<int> := {};
    BackStart(table, states, finals, queue);
    while queue != []
      invariant BackSearch(table, states, finals, done, queue, explored)
      decreases |states - explored|, |queue|
    {
      var state := queue[0];
      var sources := if state in incoming then incoming[state] else {};
      assert sources == Sources(table, state);
      ghost var queue0, explored0 := queue, explored;
      var added;
      explored, queue, added := EnqueueSources(sources, explored, queue[1..]);
      BackStep(table, states, finals, done, queue0, explored0, sources, explored, queue, added);
      BackMeasure(states, explored0, queue0, explored, queue, added);
      done := done + {state};
    }
    BackClosed(table, states, finals, explored);
  }

  /** The backward search starts with the final states explored and queued. */
  lemma BackStart(table: Table, states: set<int>, finals: set<int>, queue: seq<int>)
    requires finals <= states
    requires forall q :: q in queue <==> q in finals
    ensures BackSearch(table, states, finals, {}, queue, finals)
  {
    forall f | f in finals ensures ReachesFinal(table, finals, f) {
      ReachableRefl(Edge(table), f);
    }
    assert forall x :: x in Elems(queue) <==> x in finals;
  }

  /** Some final state can be reached from `q`. */
  ghost predicate ReachesFinal(table: Table, finals: set<int>, q: int) {
    exists f {:trigger Reachable(Edge(table), q, f)} :: f in finals && Reachable(Edge(table), q, f)
  }

  /**
    The bookkeeping of the backward search: every explored state reaches a
    final state; the explored states are those taken out of the queue
    (`done`) and those still in it; the sources of a done state are explored.
   */
  ghost predicate BackSearch(table: Table, states: set<int>, finals: set<int>, done: set<int>, queue: seq<int>, explored: set<int>) {
    && finals <= explored <= states
    && explored == done + Elems(queue)
    && (forall q :: q in explored ==> ReachesFinal(table, finals, q))
    && (forall q :: q in done ==> Sources(table, q) <= explored)
  }

  /** Explores and queues, in the order of `sources`, each of them not explored yet. */
  method EnqueueSources(sources: set<int>, explored0: set<int>, queue0: seq<int>)
    returns (explored: set<int>, queue: seq<int>, added: seq<int>)
    ensures queue == queue0 + added
    ensures explored == explored0 + Elems(added)
    ensures sources <= explored
    ensures forall i :: 0 <= i < |added| ==> added[i] in sources && added[i] !in explored0
  {
    explored, queue, added := explored0, queue0, [];
    var rest := sources;
    while rest != {}
      invariant rest <= sources
      invariant queue == queue0 + added
      invariant explored == explored0 + Elems(added)
      invariant sources - rest <= explored
      invariant forall i :: 0 <= i < |added| ==> added[i] in sources && added[i] !in explored0
      decreases rest
    {
      // `w` shows `rest` has an element, so the choice below exists.
      ghost var w := Min(rest);
      var p :| p in rest;
      rest := rest - {p};
      if p !in explored {
        ElemsAppend(added, [p]);
        queue, explored, added := queue + [p], explored + {p}, added + [p];
      }
    }
  }

  /** One step of the backward search keeps its bookkeeping and decreases its measure. */
  lemma BackStep(table: Table, states: set<int>, finals: set<int>, done: set<int>, queue0: seq<int>, explored0: set<int>,
                 sources: set<int>, explored: set<int>, queue: seq<int>, added: seq<int>)
    requires WellFormed(states, {}, finals, table)
    requires BackSearch(table, states, finals, done, queue0, explored0) && queue0 != []
    requires sources == Sources(table, queue0[0])
    requires queue == queue0[1..] + added
    requires explored == explored0 + Elems(added)
    requires sources <= explored
    requires forall i :: 0 <= i < |added| ==> added[i] in sources && added[i] !in explored0
    ensures BackSearch(table, states, finals, done + {queue0[0]}, queue, explored)
  {
    var state := queue0[0];
    assert queue0 == [state] + queue0[1..];
    ElemsAppend([state], queue0[1..]);
    ElemsAppend(queue0[1..], added);
    assert Elems([state]) == {state};
    forall q | q in Elems(added) ensures q in states && ReachesFinal(table, finals, q) {
      assert q in sources;
      var f :| f in finals && Reachable(Edge(table), state, f);
      assert (q, state) in Edge(table);
      ReachablePrepend(Edge(table), q, state, f);
    }
  }

  /** The measure of the backward search decreases at every step. */
  lemma BackMeasure(states: set<int>, explored0: set<int>, queue0: seq<int>, explored: set<int>, queue: seq<int>, added: seq<int>)
    requires explored <= states && queue0 != []
    requires queue == queue0[1..] + added
    requires explored == explored0 + Elems(added)
    requires forall i :: 0 <= i < |added| ==> added[i] !in explored0
    ensures |states - explored| < |states - explored0| || (explored == explored0 && |queue| < |queue0|)
  {
    if added != [] {
      assert added[0] in Elems(added);
      FewerLeft(states, explored0, explored, added[0]);
    } else {
      assert Elems(added) == {};
    }
  }

  /** The explored states at the end of the backward search are exactly the useful ones. */
  lemma BackClosed(table: Table, states: set<int>, finals: set<int>, explored: set<int>)
    requires BackSearch(table, states, finals, explored, [], explored)
    ensures explored == Useful(table, states, finals)
  {
    assert ClosedBackwards(Edge(table), explored) by {
      forall x, y | y in explored && (x, y) in Edge(table) ensures x in explored {
        var t :| t in Out(table, x) && t.to == y;
        assert x in Sources(table, y);
      }
    }
    forall q | q in Useful(table, states, finals) ensures q in explored {
      var f :| f in finals && Reachable(Edge(table), q, f);
      BackClosedContainsReaching(Edge(table), f, explored);
    }
  }

  /** `table` without the entries of states outside `keep` and without the transitions into them. */
  function Prune(table: Table, keep: set<int>): (r: Table)
    ensures r.Keys == table.Keys * keep
    ensures forall q :: q in r ==> r[q] == set t | t in table[q] && t.to in keep
  {
    map q | q in table && q in keep :: set t | t in table[q] && t.to in keep
  }

  /**
    `removeUselessStates`: a new deterministic automaton with the useful
    states, the final states, the useful initial states and the transitions
    between useful states; the alphabet is copied. When no final state or
    no useful initial state is left the automaton accepts nothing and becomes
    the single initial, non-final state 0 without transitions.
   */
  method RemoveUselessStates(a: Automaton) returns (r: Automaton)
    requires a.Valid()
    ensures fresh(r) && r.kind == DFA && r.alphabet == a.alphabet
    ensures var useful := Useful(a.table, a.states, a.finals);
      if a.finals == {} || a.initials * useful == {} then
        r.states == {0} && r.initials == {0} && r.finals == {} && r.table == map[]
      else
        r.states == useful && r.finals == a.finals && r.initials == a.initials * useful && r.table == Prune(a.table, useful)
    ensures r.Valid()
    ensures Deterministic(a.table) ==> Deterministic(r.table)
  {
    var explored := ExploreBack(a.table, a.states, a.finals);
    var states, finals, initials, table := explored, a.finals, a.initials * explored, Prune(a.table, explored);
    if finals == {} || initials == {} {
      states, finals, initials, table := {0}, {}, {0}, map[];
    }
    r := new Automaton.Of(DFA, a.alphabet, states, finals, initials, table);
  }

  // ---------------------------------------------------------------------
  // The three passes

  /** The intermediate results of `minimize`: the fields after each of its first two passes, then the merge. */
  datatype MinimizeTrace = MinimizeTrace(reached: Fields, pruned: Fields, merge: MergeTrace)

  /**
    What `minimize` computes from the fields `a` of a deterministic
    automaton with one initial state, as values: `t.reached` keeps the
    states reachable from the initial state, `t.pruned` then the useful ones
    (or is the one-state empty automaton), and `r` is `t.pruned` with
    equivalent states merged and renumbered from 0. No pass adds states.
   */
  ghost predicate MinimizedFrom(a: Fields, t: MinimizeTrace, r: Fields) {
    && ReachedFrom(a, t.reached) && PrunedFrom(t.reached, t.pruned)
    && MergedFrom(t.pruned, t.merge, r)
    && r.initials == {0} && r.states == Range(0, |r.states|)
    && |r.states| <= |t.pruned.states| <= |t.reached.states| <= |a.states|
  }

  /**
    The first pass: `reached` keeps the states of `a` reachable from its
    only initial state, with their rows and the final states among them.
   */
  ghost predicate ReachedFrom(a: Fields, reached: Fields) {
    && |a.initials| == 1
    && WellFormedFields(reached)
    && (forall q :: q in reached.states <==> Reachable(Edge(a.table), Min(a.initials), q))
    && reached.alphabet == a.alphabet && reached.finals == a.finals * reached.states
    && reached.initials == a.initials && reached.table == Restrict(a.table, reached.states)
  }

  /**
    The second pass: `pruned` keeps the useful states of `reached`, or is
    the one-state automaton accepting nothing when there is no final state
    or the initial state is useless.
   */
  ghost predicate PrunedFrom(reached: Fields, pruned: Fields) {
    var useful := Useful(reached.table, reached.states, reached.finals);
    if reached.finals == {} || reached.initials * useful == {} then
      pruned == Fields(reached.alphabet, {0}, {0}, {}, map[])
    else
      pruned == Fields(reached.alphabet, useful, reached.initials * useful, reached.finals, Prune(reached.table, useful))
  }

  /**
    `minimize`: the unreachable states are removed, then the useless ones,
    then the equivalent states are merged. Its input is always the output
    of determinization, a well-formed deterministic automaton with one
    initial state. The result is a new deterministic automaton numbered from
    0, whose initial state is 0, and it never has more states than the
    input; `reached` is the automaton of the first pass.
   */
  method Minimize(a: Automaton) returns (r: Automaton, ghost reached: Automaton, ghost t: MinimizeTrace)
    requires a.Valid() && Deterministic(a.table) && |a.initials| == 1
    ensures fresh(reached) && reached.kind == DFA && reached.Contents() == t.reached
    ensures fresh(r) && r.kind == DFA && r.Valid()
    ensures MinimizedFrom(old(a.Contents()), t, r.Contents())
  {
    var first, useful := FirstPasses(a);
    reached := first;
    ghost var kept, pruned := reached.Contents(), useful.Contents();
    ghost var merge;
    r, merge := MergeLast(useful);
    t := MinimizeTrace(kept, pruned, merge);
  }

  /** The first two passes of `minimize`: the unreachable states are removed, then the useless ones. */
  method FirstPasses(a: Automaton) returns (reached: Automaton, useful: Automaton)
    requires a.Valid() && Deterministic(a.table) && |a.initials| == 1
    ensures fresh(reached) && reached.kind == DFA && fresh(useful) && useful != reached
    ensures useful.Valid() && Deterministic(useful.table) && |useful.initials| == 1
    ensures ReachedFrom(old(a.Contents()), reached.Contents()) && PrunedFrom(reached.Contents(), useful.Contents())
    ensures |useful.states| <= |reached.states| <= old(|a.states|)
  {
    ghost var x := a.Contents();
    var ok, unreachable := RemoveUnreachableStates(a);
    ReachableRefl(Edge(a.table), Min(a.initials));
    SingleInitial(a.initials);
    reached := unreachable;
    ghost var kept := reached.Contents();
    assert ReachedFrom(x, kept);
    SubsetCard(reached.states, a.states);
    useful := RemoveUselessStates(unreachable);
    ghost var pruned := useful.Contents();
    assert PrunedFrom(kept, pruned) && useful != reached;
    assert |useful.states| <= |reached.states| by {
      if useful.states == {0} {
        SubsetCard({Min(a.initials)}, reached.states);
      } else {
        SubsetCard(useful.states, reached.states);
      }
    }
    assert |useful.initials| == 1 by {
      SingleInitial(a.initials);
      var initial := a.initials * Useful(reached.table, reached.states, reached.finals);
      if reached.finals != {} && initial != {} {
        assert useful.initials == initial == a.initials;
      }
    }
  }

  /**
    `minimize(determinize(a))`, the way every operation ends. It fails only
    where determinization does: on an automaton with no state and not
    exactly one initial state. `d` is the determinized automaton's fields.
   */
  method DeterminizeThenMinimize(a: Automaton)
    returns (ok: bool, r: Automaton, ghost dt: DeterminizeTrace, ghost d: Fields, ghost mt: MinimizeTrace)
    requires a.Valid()
    modifies a
    ensures ok == (|old(a.initials)| == 1 || old(a.states) != {})
    ensures !ok ==> unchanged(a)
    ensures ok && |old(a.initials)| == 1 ==> a.Contents() == dt.s
    ensures ok && |old(a.initials)| != 1 ==> unchanged(a)
    ensures ok ==> fresh(r) && r.kind == DFA && r.Valid()
    ensures ok ==> DeterminizedFrom(old(a.Contents()), dt, d) && MinimizedFrom(d, mt, r.Contents())
  {
    var det;
    ghost var s, e;
    ok, det, s, e, dt := Determinize(a);
    d := det.Contents();
    if !ok {
      mt := MinimizeTrace(d, d, MergeTrace(map[], [], d, {}, map[], ({}, {}, {}, map[]), map[], []));
      return false, a, dt, d, mt;
    }
    ghost var reached;
    r, reached, mt := Minimize(det);
  }

  /**
    `perform`: the automaton read from the first path (with no path the
    operation fails) is determinized and minimized; further paths are
    ignored.
   */
  method Perform(paths: seq<string>, input: Automaton)
    returns (ok: bool, r: Automaton, ghost dt: DeterminizeTrace, ghost d: Fields, ghost mt: MinimizeTrace)
    requires input.Valid()
    modifies input
    ensures paths == [] ==> !ok && unchanged(input)
    ensures ok == (paths != [] && (|old(input.initials)| == 1 || old(input.states) != {}))
    ensures paths != [] && !ok ==> unchanged(input)
    ensures ok && |old(input.initials)| == 1 ==> input.Contents() == dt.s
    ensures ok && |old(input.initials)| != 1 ==> unchanged(input)
    ensures ok ==> fresh(r) && r.kind == DFA && r.Valid()
    ensures ok ==> DeterminizedFrom(old(input.Contents()), dt, d) && MinimizedFrom(d, mt, r.Contents())
  {
    if paths == [] {
      d := input.Contents();
      return false, input, DeterminizeTrace(d, d, map[], map[], []), d,
             MinimizeTrace(d, d, MergeTrace(map[], [], d, {}, map[], ({}, {}, {}, map[]), map[], []));
    }
    ok, r, dt, d, mt := DeterminizeThenMinimize(input);
  }

  /**
    The last pass on an automaton with one initial state: the equivalent
    states are merged, after the automaton is renamed from 0 in place.
   */
  method MergeLast(a: Automaton) returns (r: Automaton, ghost t: MergeTrace)
    requires a.Valid() && Deterministic(a.table) && |a.initials| == 1
    modifies a
    ensures a.Contents() == t.renamed
    ensures fresh(r) && r.kind == DFA && r.Valid()
    ensures MergedFrom(old(a.Contents()), t, r.Contents())
    ensures r.initials == {0} && r.states == Range(0, |r.states|) && |r.states| <= old(|a.states|)
  {
    var merged;
    ghost var renaming, order, rel, h, fields, m, order';
    merged, r, renaming, order, rel, h, fields, m, order' := MergeEquivalentStates(a);
    t := MergeTrace(renaming, order, a.Contents(), rel, h, fields, m, order');
    RenumberedSingleInitial(0, m, order', fields.0, fields.1, fields.2, fields.3, r.states, r.initials, r.finals, r.table);
    MergedCard(a.table, |a.states|, a.initials, a.finals, h, fields.0, fields.1, fields.2, fields.3);
  }
  /** A set with one element is the set of its least element. */
  lemma SingleInitial(s: set<int>)
    requires |s| == 1
    ensures s == {Min(s)}
  {
    forall y | y in s ensures y == Min(s) {
      if y != Min(s) {
        assert |{Min(s), y}| == 2;
        SubsetCard({Min(s), y}, s);
      }
    }
  }
}
