/**
  Determinization of a nondeterministic automaton in three steps: the
  initial states are joined into one fresh initial state, epsilon
  transitions (symbol `*`) are removed through epsilon closures, and the
  subsets reachable from the initial subset become the states of a
  deterministic automaton, numbered from 0 in breadth-first order.
 */
module Determinization {
  import opened Orders
  import opened Graphs
  import opened Numberings
  import opened Automata

  /** Every transition of the table leads to one of `states`. */
  ghost predicate TargetsIn(table: Table, states: set<int>) {
    forall q, t :: q in table && t in table[q] ==> t.to in states
  }

  // ---------------------------------------------------------------------
  // Joining the initial states

  /** Epsilon transitions to every state of `targets`. */
  function EpsilonEdges(targets: set<int>): (r: set<Transition>)
    ensures forall t :: t in r <==> t.symbol == Epsilon && t.to in targets
  {
    set q | q in targets :: Transition(Epsilon, q)
  }

  /** The table with the joined initial state `n`: epsilon transitions from `n` to every old initial state. */
  function JoinedTable(table: Table, initials: set<int>, n: int): Table {
    if initials == {} then table else table[n := Out(table, n) + EpsilonEdges(initials)]
  }

  /** The final states with the joined initial state `n`, final when some old initial state is. */
  function JoinedFinals(initials: set<int>, finals: set<int>, n: int): set<int> {
    if initials * finals != {} then finals + {n} else finals
  }

  /**
    The new field values when the initial states are joined: a fresh
    state one above the greatest state, with an epsilon transition to every
    old initial state (added to whatever that state already had), final
    when some old initial state is final.
   */
  method JoinInitials(states: set<int>, initials: set<int>, finals: set<int>, table: Table)
    returns (newState: int, finals': set<int>, table': Table)
    requires states != {} && WellFormed(states, initials, finals, table)
    ensures newState == Max(states) + 1 && newState !in states
    ensures finals' == JoinedFinals(initials, finals, newState)
    ensures table' == JoinedTable(table, initials, newState)
    ensures Out(table', newState) == EpsilonEdges(initials)
    ensures forall q :: q != newState ==> Out(table', q) == Out(table, q)
    ensures newState in finals' <==> exists q :: q in initials && q in finals
    ensures finals' - {newState} == finals
    ensures WellFormed(states + {newState}, {newState}, finals', table')
  {
    newState := Max(states) + 1;
    table' := table;
    var rest := initials;
    ghost var done: set<int> := {};
    while rest != {}
      invariant rest + done == initials && rest * done == {}
      invariant table' == if done == {} then table else table[newState := Out(table, newState) + EpsilonEdges(done)]
      decreases rest
    {
      var q := Min(rest);
      assert EpsilonEdges(done + {q}) == EpsilonEdges(done) + {Transition(Epsilon, q)};
      assert Out(table', newState) == Out(table, newState) + EpsilonEdges(done);
      rest := rest - {q};
      done := done + {q};
      ghost var row := Out(table, newState) + EpsilonEdges(done);
      table' := table'[newState := Out(table', newState) + {Transition(Epsilon, q)}];
      assert table'[newState] == row;
      assert table' == table[newState := row];
    }
    assert done == initials;
    finals' := if initials * finals != {} then finals + {newState} else finals;
    assert newState !in table && newState !in finals;
    if initials * finals != {} {
      var q := Pick(initials * finals);
      assert q in initials && q in finals;
    }
  }

  /**
    `simplifyInitialStates`: an automaton with exactly one initial state is
    returned as it is; otherwise a new automaton gets the fresh state
    `max(states) + 1` as its only initial state, with an epsilon transition
    to each old initial state. With no state at all the maximum does not
    exist and the source fails: `ok` is false.
   */
  method SimplifyInitialStates(a: Automaton) returns (ok: bool, r: Automaton)
    requires a.Valid()
    ensures ok == (|a.initials| == 1 || a.states != {})
    ensures ok && |a.initials| == 1 ==> r == a
    ensures ok && |a.initials| != 1 ==>
      && fresh(r) && r.kind == NFA
      && Max(a.states) + 1 !in a.states
      && r.initials == {Max(a.states) + 1}
      && r.states == a.states + {Max(a.states) + 1}
      && r.alphabet == a.alphabet
      && (Max(a.states) + 1 in r.finals <==> exists q :: q in a.initials && q in a.finals)
      && r.finals - {Max(a.states) + 1} == a.finals
      && Out(r.table, Max(a.states) + 1) == EpsilonEdges(a.initials)
      && r.table == JoinedTable(a.table, a.initials, Max(a.states) + 1)
      && r.finals == JoinedFinals(a.initials, a.finals, Max(a.states) + 1)
      && (forall q :: q != Max(a.states) + 1 ==> Out(r.table, q) == Out(a.table, q))
    ensures ok ==> r.Valid() && |r.initials| == 1
  {
    if |a.initials| == 1 {
      return true, a;
    }
    if a.states == {} {
      return false, a;
    }
    ok := true;
    var n, finals', table' := JoinInitials(a.states, a.initials, a.finals, a.table);
    r := new Automaton.Of(NFA, a.alphabet, a.states + {n}, finals', {n}, table');
  }

  // ---------------------------------------------------------------------
  // Removing epsilon transitions

  /** The epsilon edges of a table. */
  ghost function EpsilonEdge(table: Table): iset<(int, int)> {
    iset e: (int, int) | Transition(Epsilon, e.1) in Out(table, e.0)
  }

  /** The epsilon closure of `x`: the states reachable from it by epsilon transitions alone. */
  ghost function Closure(table: Table, states: set<int>, x: int): set<int> {
    set v | v in states && Reachable(EpsilonEdge(table), x, v)
  }

  /** The transitions of `ts` that are not epsilon transitions. */
  function NonEpsilon(ts: set<Transition>): set<Transition> {
    set t | t in ts && t.symbol != Epsilon
  }

  /** All transitions leaving some state of `S`. */
  function Outgoing(table: Table, S: set<int>): set<Transition> {
    set q, t | q in S && t in Out(table, q) :: t
  }

  /** The non-epsilon transitions leaving any state of `vs`. */
  function NonEpsilonFrom(table: Table, vs: set<int>): set<Transition> {
    NonEpsilon(Outgoing(table, vs))
  }

  /** `s` has an epsilon transition into a closure that holds a final state. */
  ghost predicate EpsilonReachesFinal(table: Table, states: set<int>, finals: set<int>, s: int) {
    exists t :: t in Out(table, s) && t.symbol == Epsilon && Closure(table, states, t.to) * finals != {}
  }

  /** The table without epsilon transitions: every state gets the non-epsilon transitions of its closure. */
  ghost function EpsilonFreeTable(table: Table, states: set<int>): Table {
    map s | s in states :: NonEpsilonFrom(table, Closure(table, states, s))
  }

  /** The final states after epsilon removal. */
  ghost function EpsilonFreeFinals(table: Table, states: set<int>, finals: set<int>): set<int> {
    finals + set s | s in states && EpsilonReachesFinal(table, states, finals, s)
  }

  /** A state's closure is the state itself and the closures of its epsilon successors. */
  lemma ClosureOfState(table: Table, states: set<int>, s: int)
    requires s in states && TargetsIn(table, states)
    ensures forall v :: v in Closure(table, states, s) <==>
      v == s || exists u :: u in Out(table, s) && u.symbol == Epsilon && v in Closure(table, states, u.to)
  {
    var e := EpsilonEdge(table);
    ReachableRefl(e, s);
    forall v | v in Closure(table, states, s) && v != s
      ensures exists u :: u in Out(table, s) && u.symbol == Epsilon && v in Closure(table, states, u.to)
    {
      var p :| IsPath(e, p) && p[0] == s && p[|p| - 1] == v;
      assert |p| > 1;
      assert (p[0], p[1]) in e;
      var u := Transition(Epsilon, p[1]);
      var p' := p[1..];
      assert IsPath(e, p') && p'[0] == u.to && p'[|p'| - 1] == v;
    }
    forall u, v | u in Out(table, s) && u.symbol == Epsilon && v in Closure(table, states, u.to)
      ensures v in Closure(table, states, s)
    {
      assert u == Transition(Epsilon, u.to);
      assert (s, u.to) in e;
      ReachablePrepend(e, s, u.to, v);
    }
  }

  /**
    A final state reached through the closure of `x` can be looked for in
    the growing final set as well as in the original one: every state added
    to it has an epsilon path to an original final state.
   */
  lemma ClosureMeetsAgree(table: Table, states: set<int>, orig: set<int>, current: set<int>, x: int)
    requires x in states && TargetsIn(table, states) && orig <= states
    requires orig <= current
    requires forall p :: p in current && p !in orig ==> EpsilonReachesFinal(table, states, orig, p)
    ensures (Closure(table, states, x) * current != {}) == (Closure(table, states, x) * orig != {})
  {
    var c := Closure(table, states, x);
    var e := EpsilonEdge(table);
    if c * orig != {} {
      var f := Pick(c * orig);
      assert f in c * current;
    }
    if c * current != {} {
      var p := Pick(c * current);
      if p in orig {
        assert p in c * orig;
      } else {
        var t :| t in Out(table, p) && t.symbol == Epsilon && Closure(table, states, t.to) * orig != {};
        var f := Pick(Closure(table, states, t.to) * orig);
        assert t == Transition(Epsilon, t.to);
        assert (p, t.to) in e;
        ReachableStep(e, x, p, t.to);
        ReachableTrans(e, x, t.to, f);
        assert f in c * orig;
      }
    }
  }

  /** What a state contributes to the non-epsilon transitions: its own and those of its states. */
  lemma NonEpsilonFromAdd(table: Table, vs: set<int>, v: int)
    ensures NonEpsilonFrom(table, vs + {v}) == NonEpsilonFrom(table, vs) + NonEpsilon(Out(table, v))
  {
  }

  lemma NonEpsilonFromUnion(table: Table, vs: set<int>, ws: set<int>)
    ensures NonEpsilonFrom(table, vs + ws) == NonEpsilonFrom(table, vs) + NonEpsilonFrom(table, ws)
  {
  }

  /** Epsilon successors of a state, and, as a set, its other transitions. */
  method ScanTransitions(ts: set<Transition>) returns (targets: seq<int>, others: set<Transition>)
    ensures forall w :: w in targets <==> Transition(Epsilon, w) in ts
    ensures others == NonEpsilon(ts)
  {
    targets, others := [], {};
    var rest := ts;
    while rest != {}
      invariant rest <= ts
      invariant forall w :: w in targets <==> Transition(Epsilon, w) in ts - rest
      invariant others == NonEpsilon(ts - rest)
      decreases rest
    {
      var t :| t in rest;
      rest := rest - {t};
      if t.symbol == Epsilon {
        targets := targets + [t.to];
      } else {
        others := others + {t};
      }
    }
  }

  /**
    The closure search of epsilon removal: a breadth-first search from `x`
    along epsilon transitions, skipping states already visited, that
    gathers the non-epsilon transitions of every state it visits.
   */
  method EpsilonClosure(table: Table, states: set<int>, x: int) returns (visited: set<int>, gathered: set<Transition>)
    requires x in states && TargetsIn(table, states)
    ensures visited == Closure(table, states, x)
    ensures gathered == NonEpsilonFrom(table, visited)
  {
    visited, gathered := {}, {};
    var queue := [x];
    ClosureStart(table, states, x);
    while queue != []
      invariant ClosureSearch(table, states, x, visited, queue, gathered)
      decreases |states - visited|, |queue|
    {
      var current := queue[0];
      if current in visited {
        ClosureSkip(table, states, x, visited, queue, gathered);
        queue := queue[1..];
        continue;
      }
      ClosureHead(table, states, x, visited, queue, gathered);
      FewerLeft(states, visited, visited + {current}, current);
      var targets, others := ScanTransitions(Out(table, current));
      ClosureVisit(table, states, x, visited, queue, gathered, targets, others);
      visited, queue, gathered := visited + {current}, queue[1..] + targets, gathered + others;
    }
    ClosureDone(table, states, x, visited, gathered);
  }

  /** The bookkeeping of the closure search from `x`. */
  ghost predicate ClosureSearch(table: Table, states: set<int>, x: int, visited: set<int>, queue: seq<int>, gathered: set<Transition>) {
    && TargetsIn(table, states)
    && visited <= states
    && (forall i :: 0 <= i < |queue| ==> queue[i] in states && Reachable(EpsilonEdge(table), x, queue[i]))
    && (forall v :: v in visited ==> Reachable(EpsilonEdge(table), x, v))
    && (x in visited || x in queue)
    && (forall v, w :: v in visited && (v, w) in EpsilonEdge(table) ==> w in visited || w in queue)
    && gathered == NonEpsilonFrom(table, visited)
  }

  lemma ClosureStart(table: Table, states: set<int>, x: int)
    requires x in states && TargetsIn(table, states)
    ensures ClosureSearch(table, states, x, {}, [x], {})
  {
    ReachableRefl(EpsilonEdge(table), x);
  }

  lemma ClosureHead(table: Table, states: set<int>, x: int, visited: set<int>, queue: seq<int>, gathered: set<Transition>)
    requires ClosureSearch(table, states, x, visited, queue, gathered) && queue != []
    ensures visited + {queue[0]} <= states
  {
  }

  /** A state visited before is dropped from the queue. */
  lemma ClosureSkip(table: Table, states: set<int>, x: int, visited: set<int>, queue: seq<int>, gathered: set<Transition>)
    requires ClosureSearch(table, states, x, visited, queue, gathered) && queue != [] && queue[0] in visited
    ensures ClosureSearch(table, states, x, visited, queue[1..], gathered)
  {
    var e := EpsilonEdge(table);
    forall i | 0 <= i < |queue[1..]| ensures queue[1..][i] in states && Reachable(e, x, queue[1..][i]) {
      assert queue[1..][i] == queue[i + 1];
    }
    forall v, w | v in visited && (v, w) in e ensures w in visited || w in queue[1..] {
      if w !in visited {
        var i :| 0 <= i < |queue| && queue[i] == w;
        assert i > 0 && queue[1..][i - 1] == w;
      }
    }
  }

  /** A new state is visited: its epsilon targets join the queue and its other transitions are gathered. */
  lemma ClosureVisit(table: Table, states: set<int>, x: int, visited: set<int>, queue: seq<int>, gathered: set<Transition>,
                     targets: seq<int>, others: set<Transition>)
    requires ClosureSearch(table, states, x, visited, queue, gathered) && queue != [] && queue[0] !in visited
    requires forall w :: w in targets <==> Transition(Epsilon, w) in Out(table, queue[0])
    requires others == NonEpsilon(Out(table, queue[0]))
    ensures ClosureSearch(table, states, x, visited + {queue[0]}, queue[1..] + targets, gathered + others)
  {
    var e, current, q := EpsilonEdge(table), queue[0], queue[1..] + targets;
    NonEpsilonFromAdd(table, visited, current);
    forall i | 0 <= i < |q| ensures q[i] in states && Reachable(e, x, q[i]) {
      if i < |queue| - 1 {
        assert q[i] == queue[i + 1];
      } else {
        var w := q[i];
        assert w == targets[i - (|queue| - 1)] && w in targets;
        assert (current, w) in e;
        assert Transition(Epsilon, w) in Out(table, current);
        ReachableStep(e, x, current, w);
      }
    }
    assert x in visited + {current} || x in q by {
      if x !in visited && x != current {
        var i :| 0 <= i < |queue| && queue[i] == x;
        assert q[i - 1] == x;
      }
    }
    forall v, w | v in visited + {current} && (v, w) in e ensures w in visited + {current} || w in q {
      if v == current {
        assert w in targets;
        var k :| 0 <= k < |targets| && targets[k] == w;
        assert q[|queue| - 1 + k] == w;
      } else if w !in visited && w != current {
        var i :| 0 <= i < |queue| && queue[i] == w;
        assert q[i - 1] == w;
      }
    }
  }

  lemma ClosureDone(table: Table, states: set<int>, x: int, visited: set<int>, gathered: set<Transition>)
    requires ClosureSearch(table, states, x, visited, [], gathered)
    ensures visited == Closure(table, states, x)
    ensures gathered == NonEpsilonFrom(table, visited)
  {
    ClosedContainsReachable(EpsilonEdge(table), x, visited);
  }

  /** `sources` is the union of the closures of the epsilon transitions among `done`. */
  ghost predicate SourcesOf(table: Table, states: set<int>, done: set<Transition>, sources: set<int>) {
    forall v :: v in sources <==> exists u :: u in done && u.symbol == Epsilon && v in Closure(table, states, u.to)
  }

  /** Some epsilon transition among `done` leads into a closure holding a state of `finals`. */
  ghost predicate SomeClosureMeets(table: Table, states: set<int>, done: set<Transition>, finals: set<int>) {
    exists u :: u in done && u.symbol == Epsilon && Closure(table, states, u.to) * finals != {}
  }

  /** One more non-epsilon transition of the row: it is kept, and nothing else changes. */
  lemma RowTakesOther(table: Table, states: set<int>, orig: set<int>, done: set<Transition>, sources: set<int>, t: Transition)
    requires SourcesOf(table, states, done, sources) && t.symbol != Epsilon
    ensures SourcesOf(table, states, done + {t}, sources)
    ensures NonEpsilon(done + {t}) == NonEpsilon(done) + {t}
    ensures SomeClosureMeets(table, states, done + {t}, orig) == SomeClosureMeets(table, states, done, orig)
  {
  }

  /** One more epsilon transition of the row: its target's closure joins the sources. */
  lemma RowTakesEpsilon(table: Table, states: set<int>, orig: set<int>, done: set<Transition>, sources: set<int>,
                        t: Transition, visited: set<int>)
    requires SourcesOf(table, states, done, sources) && t.symbol == Epsilon
    requires visited == Closure(table, states, t.to)
    ensures SourcesOf(table, states, done + {t}, sources + visited)
    ensures NonEpsilon(done + {t}) == NonEpsilon(done)
    ensures SomeClosureMeets(table, states, done + {t}, orig) == (SomeClosureMeets(table, states, done, orig) || visited * orig != {})
  {
    forall v | v in sources + visited
      ensures exists u :: u in done + {t} && u.symbol == Epsilon && v in Closure(table, states, u.to)
    {
      if v !in visited {
        var u :| u in done && u.symbol == Epsilon && v in Closure(table, states, u.to);
        assert u in done + {t};
      }
    }
    if SomeClosureMeets(table, states, done + {t}, orig) && !SomeClosureMeets(table, states, done, orig) {
      var u :| u in done + {t} && u.symbol == Epsilon && Closure(table, states, u.to) * orig != {};
      assert u == t;
    }
  }

  /**
    One state's row of the epsilon-free table: its non-epsilon transitions,
    and for every epsilon transition the non-epsilon transitions of the
    closure of its target. The state is added to the final set `current`
    when such a closure meets it; `orig` is the final set before epsilon
    removal began.
   */
  method EpsilonFreeRow(table: Table, states: set<int>, ghost orig: set<int>, current0: set<int>, s: int)
    returns (row: set<Transition>, current: set<int>)
    requires s in states && TargetsIn(table, states) && orig <= current0 <= states
    requires forall p :: p in current0 && p !in orig ==> EpsilonReachesFinal(table, states, orig, p)
    ensures row == NonEpsilonFrom(table, Closure(table, states, s))
    ensures current == if EpsilonReachesFinal(table, states, orig, s) then current0 + {s} else current0
  {
    row, current := {}, current0;
    ghost var sources: set<int> := {};
    var ts := Out(table, s);
    ghost var done: set<Transition> := {};
    while ts != {}
      invariant ts + done == Out(table, s) && ts * done == {}
      invariant sources <= states
      invariant SourcesOf(table, states, done, sources)
      invariant row == NonEpsilon(done) + NonEpsilonFrom(table, sources)
      invariant current == if SomeClosureMeets(table, states, done, orig) then current0 + {s} else current0
      decreases ts
    {
      var t :| t in ts;
      ts := ts - {t};
      if t.symbol != Epsilon {
        RowTakesOther(table, states, orig, done, sources, t);
        row := row + {t};
      } else {
        var visited, gathered := EpsilonClosure(table, states, t.to);
        RowTakesEpsilon(table, states, orig, done, sources, t, visited);
        NonEpsilonFromUnion(table, sources, visited);
        row := row + gathered;
        sources := sources + visited;
        ClosureMeetsAgree(table, states, orig, current, t.to);
        if visited * current != {} {
          current := current + {s};
        }
      }
      done := done + {t};
    }
    RowComplete(table, states, orig, s, done, sources);
    NonEpsilonFromUnion(table, sources, {s});
  }

  /** At the end of a row, the sources and the state itself make up the state's closure. */
  lemma RowComplete(table: Table, states: set<int>, orig: set<int>, s: int, done: set<Transition>, sources: set<int>)
    requires s in states && TargetsIn(table, states)
    requires done == Out(table, s) && SourcesOf(table, states, done, sources)
    ensures Closure(table, states, s) == sources + {s}
    ensures SomeClosureMeets(table, states, done, orig) == EpsilonReachesFinal(table, states, orig, s)
  {
    ClosureOfState(table, states, s);
    forall v ensures v in Closure(table, states, s) <==> v in sources + {s} {
    }
  }

  /**
    The new table and final set of epsilon removal, computed state by state
    in ascending order.
   */
  method EpsilonFreeFields(states: set<int>, finals: set<int>, table: Table) returns (table': Table, finals': set<int>)
    requires TargetsIn(table, states) && finals <= states
    ensures table' == EpsilonFreeTable(table, states)
    ensures finals' == EpsilonFreeFinals(table, states, finals)
  {
    table', finals' := map[], finals;
    var rest := states;
    while rest != {}
      invariant rest <= states
      invariant table'.Keys == states - rest
      invariant forall q :: q in table' ==> table'[q] == NonEpsilonFrom(table, Closure(table, states, q))
      invariant finals' == finals + set q | q in states - rest && EpsilonReachesFinal(table, states, finals, q)
      decreases rest
    {
      var s := Min(rest);
      rest := rest - {s};
      var row;
      row, finals' := EpsilonFreeRow(table, states, finals, finals', s);
      table' := table'[s := row];
    }
  }

  /** A state is final after epsilon removal exactly when its closure holds an original final state. */
  lemma EpsilonFreeFinalsMeaning(table: Table, states: set<int>, finals: set<int>)
    requires TargetsIn(table, states) && finals <= states
    ensures forall s :: s in EpsilonFreeFinals(table, states, finals) <==>
      s in states && Closure(table, states, s) * finals != {}
  {
    forall s | s in states
      ensures s in EpsilonFreeFinals(table, states, finals) <==> Closure(table, states, s) * finals != {}
    {
      ClosureOfState(table, states, s);
      if s in finals {
        assert s in Closure(table, states, s) * finals;
      } else if EpsilonReachesFinal(table, states, finals, s) {
        var t :| t in Out(table, s) && t.symbol == Epsilon && Closure(table, states, t.to) * finals != {};
        var f := Pick(Closure(table, states, t.to) * finals);
        assert f in Closure(table, states, s) * finals;
      }
      if Closure(table, states, s) * finals != {} {
        var f := Pick(Closure(table, states, s) * finals);
        if f != s {
          var u :| u in Out(table, s) && u.symbol == Epsilon && f in Closure(table, states, u.to);
          assert f in Closure(table, states, u.to) * finals;
        }
      }
    }
  }

  /** The epsilon-free table has no epsilon transition, a row for every state, and only transitions to states. */
  lemma EpsilonFreeTableShape(table: Table, states: set<int>)
    requires TargetsIn(table, states)
    ensures EpsilonFree(EpsilonFreeTable(table, states))
    ensures EpsilonFreeTable(table, states).Keys == states
    ensures TargetsIn(EpsilonFreeTable(table, states), states)
  {
    var r := EpsilonFreeTable(table, states);
    forall q: int, t: Transition | q in r && t in r[q] ensures t.to in states && t.symbol != Epsilon {
      var v :| v in Closure(table, states, q) && t in Out(table, v) && t.symbol != Epsilon;
    }
  }

  /**
    `removeEpsilonTransitions`: a new automaton without epsilon transitions
    or the epsilon symbol, on the same states and initial states. As a side
    effect the input automaton's own final set grows to the new final set.
   */
  method RemoveEpsilonTransitions(a: Automaton) returns (r: Automaton)
    requires a.Valid()
    modifies a
    ensures fresh(r) && r.kind == NFA
    ensures a.finals == EpsilonFreeFinals(old(a.table), old(a.states), old(a.finals))
    ensures a.alphabet == old(a.alphabet) && a.states == old(a.states) && a.initials == old(a.initials) && a.table == old(a.table)
    ensures r.alphabet == old(a.alphabet) - {Epsilon}
    ensures r.states == old(a.states) && r.initials == old(a.initials)
    ensures r.finals == a.finals
    ensures r.table == EpsilonFreeTable(old(a.table), old(a.states))
    ensures a.Valid() && r.Valid() && EpsilonFree(r.table)
  {
    var table', finals' := EpsilonFreeFields(a.states, a.finals, a.table);
    EpsilonFreeFinalsMeaning(a.table, a.states, a.finals);
    EpsilonFreeTableShape(a.table, a.states);
    a.finals := finals';
    r := new Automaton(NFA);
    r.alphabet := a.alphabet - {Epsilon};
    r.states := a.states;
    r.finals := a.finals;
    r.initials := a.initials;
    r.table := table';
  }

  // ---------------------------------------------------------------------
  // Subset construction

  /** A key of the subset transition map: a subset of states and a symbol. Equality is by value. */
  datatype Key = Key(states: set<int>, symbol: string)

  /** The destinations of the transitions of `ts` on `a`. */
  function Targets(ts: set<Transition>, a: string): set<int> {
    set t | t in ts && t.symbol == a :: t.to
  }

  /** The subset reached from `S` on `a`: every destination on `a` of a state of `S`. */
  function Step(table: Table, S: set<int>, a: string): set<int> {
    Targets(Outgoing(table, S), a)
  }

  /** The row of `S` built from the transitions `ts`: a key `(S, a)` for every symbol of `ts`. */
  function RowOf(S: set<int>, ts: set<Transition>): map<Key, set<int>> {
    map k | k in (set a | a in Labels(ts) :: Key(S, a)) :: Targets(ts, k.symbol)
  }

  /** The row of the subset transition map for `S`. */
  function Row(table: Table, S: set<int>): map<Key, set<int>> {
    RowOf(S, Outgoing(table, S))
  }

  /** The edges between subsets: from `S` to every subset in its row. */
  ghost function SubsetEdge(table: Table): iset<(set<int>, set<int>)> {
    iset e: (set<int>, set<int>) | e.1 in Row(table, e.0).Values
  }

  /** Every subset of `s`. */
  function Subsets(s: set<int>): (r: set<set<int>>)
    ensures forall x :: x in r <==> x <= s
    decreases |s|
  {
    if s == {} then
      assert forall x: set<int> :: x <= s ==> x == {} by {
        forall x: set<int> | x <= s ensures x == {} {
          if x != {} { var y := Pick(x); }
        }
      }
      {{}}
    else
      var e := Min(s);
      var r := Subsets(s - {e});
      var r' := r + set x | x in r :: x + {e};
      assert forall x :: x <= s ==> x in r' by {
        forall x | x <= s ensures x in r' {
          if e in x {
            assert x - {e} in r && x == (x - {e}) + {e};
          }
        }
      }
      r'
  }

  /** A row has a key for exactly the symbols some state of `S` has a transition on, with the subset reached. */
  lemma RowMeaning(table: Table, S: set<int>, k: Key)
    ensures k in Row(table, S) <==> k.states == S && Step(table, S, k.symbol) != {}
    ensures k in Row(table, S) ==> Row(table, S)[k] == Step(table, S, k.symbol)
  {
    if k.states == S && Step(table, S, k.symbol) != {} {
      var q := Pick(Step(table, S, k.symbol));
      var t :| t in Outgoing(table, S) && t.symbol == k.symbol && t.to == q;
      assert k.symbol in Labels(Outgoing(table, S));
    }
    if k in Row(table, S) {
      var t :| t in Outgoing(table, S) && Key(S, t.symbol) == k;
      assert t.to in Step(table, S, k.symbol);
    }
  }

  /** Adding one transition to a row: its symbol's key gains its destination. */
  lemma RowOfAdd(S: set<int>, ts: set<Transition>, t: Transition)
    ensures RowOf(S, ts + {t}) ==
      RowOf(S, ts)[Key(S, t.symbol) := (if Key(S, t.symbol) in RowOf(S, ts) then RowOf(S, ts)[Key(S, t.symbol)] else {}) + {t.to}]
  {
    var k := Key(S, t.symbol);
    var lhs, rhs := RowOf(S, ts + {t}), RowOf(S, ts)[k := (if k in RowOf(S, ts) then RowOf(S, ts)[k] else {}) + {t.to}];
    assert lhs.Keys == rhs.Keys by {
      forall j | j in rhs ensures j in lhs {
        if j != k {
          var u :| u in ts && Key(S, u.symbol) == j;
        }
      }
      forall j | j in lhs ensures j in rhs {
        var u :| u in ts + {t} && Key(S, u.symbol) == j;
        if u != t { assert u in ts; }
      }
    }
    forall j | j in lhs ensures lhs[j] == rhs[j] {
      if j == k {
        if k !in RowOf(S, ts) {
          assert forall u :: u in ts ==> Key(S, u.symbol) in RowOf(S, ts);
          assert Targets(ts, t.symbol) == {};
        }
      } else {
        var u :| u in ts && Key(S, u.symbol) == j;
        assert j in RowOf(S, ts);
      }
    }
  }

  /** Adds the transitions `ts` of one member of `S` to the row being built. */
  method AddToRow(S: set<int>, row0: map<Key, set<int>>, ghost seen: set<Transition>, ts: set<Transition>)
    returns (row: map<Key, set<int>>)
    requires row0 == RowOf(S, seen)
    ensures row == RowOf(S, seen + ts)
  {
    row := row0;
    var rest := ts;
    assert seen + (ts - rest) == seen;
    while rest != {}
      invariant rest <= ts
      invariant row == RowOf(S, seen + (ts - rest))
      decreases rest
    {
      var t :| t in rest;
      RowOfAdd(S, seen + (ts - rest), t);
      assert seen + (ts - (rest - {t})) == seen + (ts - rest) + {t};
      rest := rest - {t};
      var k := Key(S, t.symbol);
      row := row[k := (if k in row then row[k] else {}) + {t.to}];
    }
    assert ts - rest == ts;
  }

  /** The row of the current subset, built member by member. */
  method BuildRow(table: Table, S: set<int>) returns (row: map<Key, set<int>>)
    ensures row == Row(table, S)
  {
    row := map[];
    var members := S;
    ghost var seen: set<Transition> := {};
    assert RowOf(S, {}) == map[];
    while members != {}
      invariant members <= S
      invariant seen == Outgoing(table, S - members)
      invariant row == RowOf(S, seen)
      decreases members
    {
      // `w` shows `members` has an element, so the choice below exists.
      ghost var w := Pick(members);
      var q :| q in members;
      row := AddToRow(S, row, seen, Out(table, q));
      assert Outgoing(table, S - (members - {q})) == Outgoing(table, S - members) + Out(table, q);
      seen := seen + Out(table, q);
      members := members - {q};
    }
    assert S - members == S;
  }

  /** Every subset in a row lies within `states` when the table's transitions do. */
  lemma RowWithin(table: Table, states: set<int>, S: set<int>)
    requires TargetsIn(table, states)
    ensures forall T :: T in Row(table, S).Values ==> T in Subsets(states)
  {
    forall T | T in Row(table, S).Values ensures T <= states {
      var k :| k in Row(table, S) && Row(table, S)[k] == T;
      forall q | q in T ensures q in states {
        var t :| t in Outgoing(table, S) && t.symbol == k.symbol && t.to == q;
        var p :| p in S && t in Out(table, p);
      }
    }
  }

  /**
    Enqueues, entry by entry, every subset of the current row that has not
    been explored, and marks it explored.
   */
  method EnqueueNew(ghost next: iset<(set<int>, set<int>)>, ghost init: set<int>, current: set<int>, row: map<Key, set<int>>,
                    explored0: set<set<int>>, ghost head: int, ghost order0: seq<set<int>>)
    returns (explored: set<set<int>>, added: seq<set<int>>, ghost order: seq<set<int>>)
    requires forall k :: k in row ==> (current, row[k]) in next
    requires 0 <= head < |order0| && order0[head] == current
    requires DiscoveredFrom(next, init, order0) && Distinct(order0)
    requires forall S :: S in explored0 <==> S in order0
    ensures order == order0 + added
    ensures DiscoveredFrom(next, init, order) && Distinct(order)
    ensures forall S :: S in explored <==> S in order
    ensures explored0 <= explored && row.Values <= explored
    ensures forall i :: 0 <= i < |added| ==> added[i] in row.Values
    ensures added == [] ==> explored == explored0
    ensures added != [] ==> added[0] in explored && added[0] !in explored0
  {
    explored, added, order := explored0, [], order0;
    var keys := row.Keys;
    EnqueueStart(next, init, row, explored0, order0);
    while keys != {}
      invariant Enqueuing(next, init, row, keys, explored0, order0, explored, added, order)
      decreases keys
    {
      var k :| k in keys;
      var value := row[k];
      // Only the queue depends on the test: adding an explored subset leaves the set as it is.
      var step := if value in explored then [] else [value];
      EnqueueStep(next, init, current, row, keys, explored0, head, order0, explored, added, order, k, step);
      keys := keys - {k};
      explored, added, order := explored + {value}, added + step, order + step;
    }
  }

  /** The bookkeeping of `EnqueueNew` once the entries outside `keys` are handled. */
  ghost predicate Enqueuing<N(!new)>(next: iset<(N, N)>, init: N, row: map<Key, N>, keys: set<Key>,
                                     explored0: set<N>, order0: seq<N>, explored: set<N>, added: seq<N>, order: seq<N>) {
    && keys <= row.Keys
    && order == order0 + added
    && DiscoveredFrom(next, init, order) && Distinct(order)
    && (forall S :: S in explored <==> S in order)
    && explored0 <= explored
    && (forall k :: k in row && k !in keys ==> row[k] in explored)
    && (forall i :: 0 <= i < |added| ==> added[i] in row.Values)
    && (added == [] ==> explored == explored0)
    && (added != [] ==> added[0] in explored && added[0] !in explored0)
  }

  lemma EnqueueStart<N(!new)>(next: iset<(N, N)>, init: N, row: map<Key, N>, explored0: set<N>, order0: seq<N>)
    requires DiscoveredFrom(next, init, order0) && Distinct(order0)
    requires forall S :: S in explored0 <==> S in order0
    ensures Enqueuing(next, init, row, row.Keys, explored0, order0, explored0, [], order0)
  {
    assert order0 + [] == order0;
  }

  /** Handling entry `k`: its subset is queued exactly when it is new. */
  lemma EnqueueStep<N(!new)>(next: iset<(N, N)>, init: N, current: N, row: map<Key, N>, keys: set<Key>,
                             explored0: set<N>, head: int, order0: seq<N>, explored: set<N>, added: seq<N>, order: seq<N>,
                             k: Key, step: seq<N>)
    requires Enqueuing(next, init, row, keys, explored0, order0, explored, added, order) && k in keys
    requires forall k :: k in row ==> (current, row[k]) in next
    requires 0 <= head < |order0| && order0[head] == current
    requires step == if row[k] in explored then [] else [row[k]]
    ensures Enqueuing(next, init, row, keys - {k}, explored0, order0, explored + {row[k]}, added + step, order + step)
  {
    var value := row[k];
    if step == [] {
      assert added + step == added && order + step == order;
      AddPresent(explored, value);
    } else {
      assert order[head] == current;
      ExploreOne(next, init, head, order, explored, value);
      AppendOne(order0, added, value);
      FirstExplored(explored0, explored, added, value);
    }
  }

  lemma FirstExplored<N>(explored0: set<N>, explored: set<N>, added: seq<N>, x: N)
    requires added == [] ==> explored == explored0
    requires added != [] ==> added[0] in explored && added[0] !in explored0
    requires x !in explored
    ensures (added + [x])[0] in explored + {x} && (added + [x])[0] !in explored0
  {
    if added == [] {
      assert (added + [x])[0] == x;
    } else {
      assert (added + [x])[0] == added[0];
    }
  }

  /** Exploring one more subset keeps the search's bookkeeping. */
  lemma ExploreOne<N(!new)>(next: iset<(N, N)>, init: N, head: int, order: seq<N>, explored: set<N>, x: N)
    requires DiscoveredFrom(next, init, order) && Distinct(order)
    requires forall S :: S in explored <==> S in order
    requires x !in explored && 0 <= head < |order| && (order[head], x) in next
    ensures DiscoveredFrom(next, init, order + [x]) && Distinct(order + [x])
    ensures forall S :: S in explored + {x} <==> S in order + [x]
  {
    DiscoveredExtend(next, init, order, head, x);
    DistinctExtend(order, x);
  }

  /** What one step of the subset search keeps. */
  lemma SubsetStep(table: Table, head: int, order0: seq<set<int>>, order: seq<set<int>>, added: seq<set<int>>,
                   explored: set<set<int>>, tm: map<Key, set<int>>)
    requires 0 <= head < |order0| && order == order0 + added
    requires forall i :: 0 <= i < head ==> Row(table, order0[i]).Values <= explored
    requires Row(table, order0[head]).Values <= explored
    requires forall k :: k in tm <==> k.states in order0[..head] && k in Row(table, k.states)
    requires forall k :: k in tm ==> tm[k] == Row(table, k.states)[k]
    ensures order[head + 1..] == order0[head + 1..] + added
    ensures forall i :: 0 <= i < head + 1 ==> Row(table, order[i]).Values <= explored
    ensures forall k :: k in tm + Row(table, order0[head]) <==> k.states in order[..head + 1] && k in Row(table, k.states)
    ensures forall k :: k in tm + Row(table, order0[head]) ==> (tm + Row(table, order0[head]))[k] == Row(table, k.states)[k]
  {
    var current := order0[head];
    assert order[..head + 1] == order0[..head] + [current];
    forall i | 0 <= i < head + 1 ensures Row(table, order[i]).Values <= explored {
      assert order[i] == order0[i];
    }
    forall k ensures k in tm + Row(table, current) <==> k.states in order[..head + 1] && k in Row(table, k.states) {
      RowMeaning(table, current, k);
      RowMeaning(table, k.states, k);
    }
    forall k | k in tm + Row(table, current) ensures (tm + Row(table, current))[k] == Row(table, k.states)[k] {
      RowMeaning(table, current, k);
    }
  }

  /**
    The subset construction of `determinize`: a breadth-first search over
    subsets from `init`, each subset enqueued once, collecting every
    explored subset's row into one map.
   */
  method SubsetTransitions(table: Table, states: set<int>, init: set<int>)
    returns (tm: map<Key, set<int>>, ghost order: seq<set<int>>)
    requires init <= states && TargetsIn(table, states)
    ensures DiscoveredFrom(SubsetEdge(table), init, order) && Distinct(order)
    ensures forall S :: S in order <==> Reachable(SubsetEdge(table), init, S)
    ensures forall k :: k in tm <==> k.states in order && k in Row(table, k.states)
    ensures forall k :: k in tm ==> tm[k] == Row(table, k.states)[k]
  {
    tm := map[];
    var queue := [init];
    var explored := {init};
    order := [init];
    ghost var head := 0;
    SubsetStart(table, states, init);
    while queue != []
      invariant SubsetSearch(table, states, init, order, head, explored, tm) && queue == order[head..]
      decreases |Subsets(states) - explored|, |queue|
    {
      SubsetHead(order, head, queue);
      var current := queue[0];
      var row := BuildRow(table, current);
      ghost var explored0, order0 := explored, order;
      var added;
      SubsetEdges(table, current, row);
      explored, added, order := EnqueueNew(SubsetEdge(table), init, current, row, explored, head, order);
      SubsetAdvance(table, states, init, head, order0, explored0, tm, order, explored, added);
      if added != [] {
        FewerLeft(Subsets(states), explored0, explored, added[0]);
      }
      QueueAdvance(order0, order, head, queue, added);
      queue := queue[1..] + added;
      tm := tm + row;
      head := head + 1;
    }
    SubsetsReached(table, init, order, explored);
  }

  /** The bookkeeping of the subset construction after `head` subsets have been expanded. */
  ghost predicate SubsetSearch(table: Table, states: set<int>, init: set<int>, order: seq<set<int>>, head: int,
                               explored: set<set<int>>, tm: map<Key, set<int>>) {
    && 0 <= head <= |order|
    && (forall S :: S in explored <==> S in order)
    && DiscoveredFrom(SubsetEdge(table), init, order) && Distinct(order)
    && explored <= Subsets(states)
    && (forall i :: 0 <= i < head ==> Row(table, order[i]).Values <= explored)
    && (forall k :: k in tm <==> k.states in order[..head] && k in Row(table, k.states))
    && (forall k :: k in tm ==> tm[k] == Row(table, k.states)[k])
  }

  lemma SubsetStart(table: Table, states: set<int>, init: set<int>)
    requires init <= states
    ensures SubsetSearch(table, states, init, [init], 0, {init}, map[])
  {
  }

  lemma SubsetHead(order: seq<set<int>>, head: int, queue: seq<set<int>>)
    requires 0 <= head <= |order| && queue == order[head..] && queue != []
    ensures head < |order| && queue[0] == order[head]
  {
  }

  lemma SubsetEdges(table: Table, current: set<int>, row: map<Key, set<int>>)
    requires row == Row(table, current)
    ensures forall k :: k in row ==> (current, row[k]) in SubsetEdge(table)
  {
    assert forall k :: k in row ==> row[k] in Row(table, current).Values;
  }

  lemma QueueAdvance(order0: seq<set<int>>, order: seq<set<int>>, head: int, queue: seq<set<int>>, added: seq<set<int>>)
    requires 0 <= head < |order0| && queue == order0[head..] && order == order0 + added
    ensures queue[1..] + added == order[head + 1..]
  {
    assert queue[1..] == order0[head + 1..];
  }

  /** Expanding the subset at `head` keeps the bookkeeping. */
  lemma SubsetAdvance(table: Table, states: set<int>, init: set<int>, head: int, order0: seq<set<int>>,
                      explored0: set<set<int>>, tm: map<Key, set<int>>,
                      order: seq<set<int>>, explored: set<set<int>>, added: seq<set<int>>)
    requires TargetsIn(table, states)
    requires SubsetSearch(table, states, init, order0, head, explored0, tm) && head < |order0|
    requires order == order0 + added
    requires DiscoveredFrom(SubsetEdge(table), init, order) && Distinct(order)
    requires forall S :: S in explored <==> S in order
    requires explored0 <= explored && Row(table, order0[head]).Values <= explored
    requires forall i :: 0 <= i < |added| ==> added[i] in Row(table, order0[head]).Values
    ensures SubsetSearch(table, states, init, order, head + 1, explored, tm + Row(table, order0[head]))
  {
    RowWithin(table, states, order0[head]);
    assert explored <= Subsets(states) by {
      forall S | S in explored ensures S in Subsets(states) {
        if S !in explored0 {
          var i :| 0 <= i < |order| && order[i] == S;
          assert order[i] == added[i - |order0|];
        }
      }
    }
    SubsetStep(table, head, order0, order, added, explored, tm);
  }

  lemma SubsetsReached(table: Table, init: set<int>, order: seq<set<int>>, explored: set<set<int>>)
    requires DiscoveredFrom(SubsetEdge(table), init, order)
    requires forall S :: S in explored <==> S in order
    requires forall i :: 0 <= i < |order| ==> Row(table, order[i]).Values <= explored
    ensures forall S :: S in order <==> Reachable(SubsetEdge(table), init, S)
  {
    assert ClosedUnder(SubsetEdge(table), explored) by {
      forall x, y | x in explored && (x, y) in SubsetEdge(table) ensures y in explored {
        var i :| 0 <= i < |order| && order[i] == x;
        assert Row(table, order[i]).Values <= explored;
      }
    }
    ClosedContainsReachable(SubsetEdge(table), init, explored);
    forall S | S in order ensures Reachable(SubsetEdge(table), init, S) {
      var i :| 0 <= i < |order| && order[i] == S;
      DiscoveredIsReachable(SubsetEdge(table), init, order, i);
    }
  }

  // ---------------------------------------------------------------------
  // Normalization

  /** The subset the map gives for `(S, a)`, empty when there is none (`getOrDefault`). */
  function Successor(tm: map<Key, set<int>>, S: set<int>, a: string): set<int> {
    if Key(S, a) in tm then tm[Key(S, a)] else {}
  }

  /** The edges `normalize` follows: from `S` to each non-empty successor on a symbol of the alphabet. */
  ghost function NormalEdge(tm: map<Key, set<int>>, alphabet: set<string>): iset<(set<int>, set<int>)> {
    iset e: (set<int>, set<int>) | e.1 in NormalTargets(tm, alphabet, e.0)
  }

  /** The non-empty successors of `S` on the symbols of `alphabet`. */
  function NormalTargets(tm: map<Key, set<int>>, alphabet: set<string>, S: set<int>): set<set<int>> {
    set a | a in alphabet && Successor(tm, S, a) != {} :: Successor(tm, S, a)
  }

  /** Every non-empty successor of `S` on a symbol of `symbols` has a number. */
  ghost predicate SuccessorsNumbered(tm: map<Key, set<int>>, symbols: set<string>, mapped: map<set<int>, int>, S: set<int>) {
    forall a :: a in symbols && Successor(tm, S, a) != {} ==> Successor(tm, S, a) in mapped
  }

  /** The deterministic row of `S`: one transition per symbol with a non-empty successor, to that successor's number. */
  function NormalRow(tm: map<Key, set<int>>, symbols: set<string>, mapped: map<set<int>, int>, S: set<int>): set<Transition>
    requires SuccessorsNumbered(tm, symbols, mapped, S)
  {
    set a | a in symbols && Successor(tm, S, a) != {} :: Transition(a, mapped[Successor(tm, S, a)])
  }

  /** A row does not change when more subsets get numbers. */
  lemma NormalRowStable(tm: map<Key, set<int>>, symbols: set<string>, mapped0: map<set<int>, int>, mapped: map<set<int>, int>, S: set<int>)
    requires SuccessorsNumbered(tm, symbols, mapped0, S) && Extends(mapped0, mapped)
    ensures SuccessorsNumbered(tm, symbols, mapped, S)
    ensures NormalRow(tm, symbols, mapped, S) == NormalRow(tm, symbols, mapped0, S)
  {
  }

  /** `anyMatch` over the final states: whether the subset holds a final state. */
  method MeetsFinal(finals: set<int>, S: set<int>) returns (b: bool)
    ensures b == (S * finals != {})
  {
    b := false;
    var rest := finals;
    while rest != {}
      invariant rest <= finals
      invariant !b && (finals - rest) * S == {}
      decreases rest
    {
      var f := Min(rest);
      if f in S {
        assert f in S * finals;
        b := true;
        break;
      }
      rest := rest - {f};
    }
  }

  /** `table0` with the row `row` at `n`, or without an entry at `n` while the row is empty (`computeIfAbsent`). */
  function RowAt(table0: Table, n: int, row: set<Transition>): (r: Table)
    ensures Out(r, n) == row || n in table0
  {
    if row == {} then table0 else table0[n := row]
  }

  /** Adding a transition to the row at a fresh entry `n`. */
  lemma RowAtAdd(table0: Table, n: int, row: set<Transition>, t: Transition)
    requires n !in table0
    ensures RowAt(table0, n, row)[n := Out(RowAt(table0, n, row), n) + {t}] == RowAt(table0, n, row + {t})
  {
  }

  /** Taking one more symbol into a row under construction. */
  lemma NormalRowAdd(tm: map<Key, set<int>>, done: set<string>, mapped0: map<set<int>, int>, mapped: map<set<int>, int>,
                     S: set<int>, a: string)
    requires SuccessorsNumbered(tm, done, mapped0, S) && Extends(mapped0, mapped)
    requires Successor(tm, S, a) != {} ==> Successor(tm, S, a) in mapped
    ensures SuccessorsNumbered(tm, done + {a}, mapped, S)
    ensures NormalRow(tm, done + {a}, mapped, S) ==
      NormalRow(tm, done, mapped0, S) + (if Successor(tm, S, a) == {} then {} else {Transition(a, mapped[Successor(tm, S, a)])})
  {
    NormalRowStable(tm, done, mapped0, mapped, S);
  }

  /**
    The row of `S` built over the symbols `done`, held both as `row` and as
    the entry `n` of `table`, which was `table0` before the row began.
   */
  ghost predicate RowSoFar(tm: map<Key, set<int>>, done: set<string>, mapped: map<set<int>, int>, S: set<int>,
                           row: set<Transition>, table0: Table, n: int, table: Table) {
    && SuccessorsNumbered(tm, done, mapped, S)
    && row == NormalRow(tm, done, mapped, S)
    && table == RowAt(table0, n, row)
  }

  /** A symbol without a successor leaves the row as it is. */
  lemma SymbolSkipped(tm: map<Key, set<int>>, done: set<string>, mapped: map<set<int>, int>, S: set<int>, a: string,
                      row: set<Transition>, table0: Table, n: int, table: Table)
    requires RowSoFar(tm, done, mapped, S, row, table0, n, table) && Successor(tm, S, a) == {}
    ensures RowSoFar(tm, done + {a}, mapped, S, row, table0, n, table)
  {
    NormalRowAdd(tm, done, mapped, mapped, S, a);
  }

  /** A symbol with a numbered successor adds the transition to that number to the row and its table entry. */
  lemma SymbolTaken(tm: map<Key, set<int>>, done: set<string>, mapped0: map<set<int>, int>, mapped: map<set<int>, int>,
                    S: set<int>, a: string, row: set<Transition>, table0: Table, n: int, table: Table)
    requires RowSoFar(tm, done, mapped0, S, row, table0, n, table) && Extends(mapped0, mapped) && n !in table0
    requires Successor(tm, S, a) != {} && Successor(tm, S, a) in mapped
    ensures RowSoFar(tm, done + {a}, mapped, S, row + {Transition(a, mapped[Successor(tm, S, a)])}, table0, n,
                     table[n := Out(table, n) + {Transition(a, mapped[Successor(tm, S, a)])}])
  {
    NormalRowAdd(tm, done, mapped0, mapped, S, a);
    RowAtAdd(table0, n, row, Transition(a, mapped[Successor(tm, S, a)]));
  }

  /** Every non-empty successor of `S` on a symbol of the alphabet is an edge `normalize` follows. */
  lemma NormalEdgeOf(tm: map<Key, set<int>>, alphabet: set<string>, S: set<int>)
    ensures forall a :: a in alphabet && Successor(tm, S, a) != {} ==> (S, Successor(tm, S, a)) in NormalEdge(tm, alphabet)
  {
  }

  /**
    The numbering bookkeeping of one pass that started from `mapped0` and
    `order0`: the subsets numbered so far are still in discovery order,
    every new one is a value of `vals`, and `added` lists the new ones.
   */
  ghost predicate NumberedSince<N(!new)>(next: iset<(N, N)>, init: N, vals: set<N>,
                                         mapped0: map<N, int>, order0: seq<N>,
                                         mapped: map<N, int>, order: seq<N>, counter: int, added: seq<N>) {
    && counter == |order| && NumberedInOrder(mapped, order, 0)
    && DiscoveredFrom(next, init, order)
    && order == order0 + added
    && Extends(mapped0, mapped)
    && mapped.Keys <= mapped0.Keys + vals
    && (added == [] ==> mapped == mapped0)
    && (added != [] ==> added[0] in mapped && added[0] !in mapped0)
  }

  /** Numbering one newly discovered subset, an edge away from `order[head]`, keeps the bookkeeping. */
  lemma NumberOne<N(!new)>(next: iset<(N, N)>, init: N, vals: set<N>, mapped0: map<N, int>, order0: seq<N>,
                           mapped: map<N, int>, order: seq<N>, counter: int, added: seq<N>, head: int, x: N)
    requires NumberedSince(next, init, vals, mapped0, order0, mapped, order, counter, added)
    requires x !in mapped && x in vals && 0 <= head < |order0| && (order0[head], x) in next
    ensures NumberedSince(next, init, vals, mapped0, order0, mapped[x := counter], order + [x], counter + 1, added + [x])
  {
    assert order[head] == order0[head];
    NumberedExtend(mapped, order, 0, x);
    DiscoveredExtend(next, init, order, head, x);
    AppendOne(order0, added, x);
    ExtendsAdd(mapped0, mapped, x, counter);
    FirstAdded(mapped0, mapped, added, x, counter);
  }

  lemma AppendOne<N>(order0: seq<N>, added: seq<N>, x: N)
    ensures (order0 + added) + [x] == order0 + (added + [x])
  {
  }

  lemma ExtendsAdd<N>(mapped0: map<N, int>, mapped: map<N, int>, x: N, v: int)
    requires Extends(mapped0, mapped) && x !in mapped
    ensures Extends(mapped0, mapped[x := v])
  {
    forall q | q in mapped0 ensures q in mapped[x := v] && mapped[x := v][q] == mapped0[q] {
      assert q in mapped && q != x;
    }
  }

  lemma FirstAdded<N>(mapped0: map<N, int>, mapped: map<N, int>, added: seq<N>, x: N, v: int)
    requires added == [] ==> mapped == mapped0
    requires added != [] ==> added[0] in mapped && added[0] !in mapped0
    requires x !in mapped
    ensures (added + [x])[0] in mapped[x := v] && (added + [x])[0] !in mapped0
  {
    if added == [] {
      assert (added + [x])[0] == x;
    } else {
      assert (added + [x])[0] == added[0];
    }
  }

  /**
    The list of subsets after `normalize`'s symbol loop has gone through
    `symbols` from `S`, smallest symbol first: each non-empty successor not
    listed yet is appended.
   */
  ghost function Appended(tm: map<Key, set<int>>, symbols: set<string>, S: set<int>, order: seq<set<int>>): seq<set<int>>
    decreases symbols
  {
    if symbols == {} then order
    else
      var a := MinString(symbols);
      var T := Successor(tm, S, a);
      Appended(tm, symbols - {a}, S, if T == {} || T in order then order else order + [T])
  }

  /** The values of the map not listed in `order`. */
  ghost function Unlisted(tm: map<Key, set<int>>, order: seq<set<int>>): set<set<int>> {
    set T | T in tm.Values && T !in order
  }

  /** A pass only appends, and what it appends first is a value of the map not listed before. */
  lemma {:induction false} AppendedNew(tm: map<Key, set<int>>, symbols: set<string>, S: set<int>, order: seq<set<int>>)
    ensures var r := Appended(tm, symbols, S, order);
      && |order| <= |r| && r[..|order|] == order
      && (|order| < |r| ==> r[|order|] in tm.Values && r[|order|] !in order)
    decreases symbols
  {
    if symbols != {} {
      var a := MinString(symbols);
      var T := Successor(tm, S, a);
      var order' := if T == {} || T in order then order else order + [T];
      AppendedNew(tm, symbols - {a}, S, order');
      var r := Appended(tm, symbols - {a}, S, order');
      if order' != order {
        assert r[..|order'|][..|order|] == r[..|order|];
        assert r[|order|] == order'[|order|] == T;
      }
    }
  }

  /** Appending a new value of the map leaves fewer values unlisted. */
  lemma UnlistedShrinks(tm: map<Key, set<int>>, order: seq<set<int>>, order': seq<set<int>>)
    requires |order| <= |order'| && order'[..|order|] == order
    requires |order| < |order'| ==> order'[|order|] in tm.Values && order'[|order|] !in order
    ensures |order'| == |order| ==> order' == order
    ensures |order| < |order'| ==> |Unlisted(tm, order')| < |Unlisted(tm, order)|
  {
    if |order| < |order'| {
      var T := order'[|order|];
      forall U | U in order ensures U in order' {
        var i :| 0 <= i < |order| && order[i] == U;
        assert order'[i] == U;
      }
      var left, gone := Unlisted(tm, order'), Unlisted(tm, order) - Unlisted(tm, order');
      assert Unlisted(tm, order) == left + gone && left * gone == {};
      assert T in gone;
    } else {
      assert order' == order'[..|order|];
    }
  }

  /**
    The order in which `normalize` numbers subsets, from the list `order`
    whose first `head` subsets have been polled: the queue is the rest of
    the list, and polling a subset appends its new successors, symbols in
    ascending order.
   */
  ghost function BfsOrder(tm: map<Key, set<int>>, alphabet: set<string>, order: seq<set<int>>, head: nat): seq<set<int>>
    decreases |Unlisted(tm, order)|, |order| - head
  {
    if head >= |order| then order
    else
      var order' := Appended(tm, alphabet, order[head], order);
      AppendedNew(tm, alphabet, order[head], order);
      UnlistedShrinks(tm, order, order');
      BfsOrder(tm, alphabet, order', head + 1)
  }

  /**
    The symbol loop of `normalize` for the current subset: in alphabetical
    order, every non-empty successor gets the next number when it has none
    (and is returned for the queue), and the transition to its number joins
    the current subset's row, which sits at `head`, the current subset's
    number.
   */
  method NormalizeRow(ghost next: iset<(set<int>, set<int>)>, tm: map<Key, set<int>>, alphabet: set<string>,
                      ghost init: set<int>, current: set<int>, ghost head: int,
                      mapped0: map<set<int>, int>, counter0: int, ghost order0: seq<set<int>>, table0: Table)
    returns (mapped: map<set<int>, int>, counter: int, added: seq<set<int>>, ghost order: seq<set<int>>, table: Table)
    requires 0 <= head < |order0| && order0[head] == current
    requires forall a :: a in alphabet && Successor(tm, current, a) != {} ==> (current, Successor(tm, current, a)) in next
    requires counter0 == |order0| && NumberedInOrder(mapped0, order0, 0)
    requires DiscoveredFrom(next, init, order0)
    requires head !in table0
    ensures NumberedSince(next, init, tm.Values, mapped0, order0, mapped, order, counter, added)
    ensures SuccessorsNumbered(tm, alphabet, mapped, current)
    ensures table == RowAt(table0, head, NormalRow(tm, alphabet, mapped, current))
    ensures order == Appended(tm, alphabet, current, order0)
  {
    mapped, counter, added, order, table := mapped0, counter0, [], order0, table0;
    var n := mapped[current];
    var rest := alphabet;
    ghost var done: set<string> := {};
    ghost var row: set<Transition> := {};
    while rest != {}
      invariant rest + done == alphabet && rest * done == {}
      invariant NumberedSince(next, init, tm.Values, mapped0, order0, mapped, order, counter, added)
      invariant n == head
      invariant RowSoFar(tm, done, mapped, current, row, table0, head, table)
      invariant Appended(tm, rest, current, order) == Appended(tm, alphabet, current, order0)
      decreases rest
    {
      var a := MinString(rest);
      rest := rest - {a};
      ghost var mappedBefore := mapped;
      var state := Successor(tm, current, a);
      if state == {} {
        SymbolSkipped(tm, done, mapped, current, a, row, table0, head, table);
        done := done + {a};
        continue;
      }
      if state !in mapped {
        assert Successor(tm, current, a) in tm.Values;
        NumberOne(next, init, tm.Values, mapped0, order0, mapped, order, counter, added, head, state);
        mapped := mapped[state := counter];
        counter := counter + 1;
        added := added + [state];
        order := order + [state];
      }
      SymbolTaken(tm, done, mappedBefore, mapped, current, a, row, table0, head, table);
      table := table[n := Out(table, n) + {Transition(a, mapped[state])}];
      row := row + {Transition(a, mapped[state])};
      done := done + {a};
    }
    assert done == alphabet;
  }

  /** Every subset of `subsets` has all its non-empty successors numbered. */
  ghost predicate AllNumbered(tm: map<Key, set<int>>, alphabet: set<string>, mapped: map<set<int>, int>, subsets: seq<set<int>>) {
    forall i :: 0 <= i < |subsets| ==> SuccessorsNumbered(tm, alphabet, mapped, subsets[i])
  }

  /** The deterministic rows of `subsets`, in order. */
  function NormalRows(tm: map<Key, set<int>>, alphabet: set<string>, mapped: map<set<int>, int>, subsets: seq<set<int>>)
    : (rows: seq<set<Transition>>)
    requires AllNumbered(tm, alphabet, mapped, subsets)
    ensures |rows| == |subsets|
    decreases |subsets|
  {
    if subsets == [] then []
    else NormalRows(tm, alphabet, mapped, subsets[..|subsets| - 1]) + [NormalRow(tm, alphabet, mapped, subsets[|subsets| - 1])]
  }

  /** The table holding row `i` at state `i`, without entries for empty rows. */
  function TableOf(rows: seq<set<Transition>>): (table: Table)
    ensures forall q :: q in table ==> 0 <= q < |rows| && table[q] != {}
  {
    map i | 0 <= i < |rows| && rows[i] != {} :: rows[i]
  }

  /** Row `i` is the row of the `i`-th subset. */
  lemma {:induction false} NormalRowsIndex(tm: map<Key, set<int>>, alphabet: set<string>, mapped: map<set<int>, int>,
                                           subsets: seq<set<int>>, i: int)
    requires AllNumbered(tm, alphabet, mapped, subsets) && 0 <= i < |subsets|
    ensures NormalRows(tm, alphabet, mapped, subsets)[i] == NormalRow(tm, alphabet, mapped, subsets[i])
    decreases |subsets|
  {
    var init := subsets[..|subsets| - 1];
    assert AllNumbered(tm, alphabet, mapped, init) by {
      forall k | 0 <= k < |init| ensures SuccessorsNumbered(tm, alphabet, mapped, init[k]) {
        assert init[k] == subsets[k];
      }
    }
    if i < |subsets| - 1 {
      NormalRowsIndex(tm, alphabet, mapped, init, i);
      assert init[i] == subsets[i];
    }
  }

  /** The rows do not change when more subsets get numbers. */
  lemma {:induction false} NormalRowsStable(tm: map<Key, set<int>>, alphabet: set<string>, mapped0: map<set<int>, int>,
                                            mapped: map<set<int>, int>, subsets: seq<set<int>>)
    requires AllNumbered(tm, alphabet, mapped0, subsets) && Extends(mapped0, mapped)
    ensures AllNumbered(tm, alphabet, mapped, subsets)
    ensures NormalRows(tm, alphabet, mapped, subsets) == NormalRows(tm, alphabet, mapped0, subsets)
    decreases |subsets|
  {
    forall k | 0 <= k < |subsets| ensures SuccessorsNumbered(tm, alphabet, mapped, subsets[k]) {
      NormalRowStable(tm, alphabet, mapped0, mapped, subsets[k]);
    }
    if subsets != [] {
      var init := subsets[..|subsets| - 1];
      assert AllNumbered(tm, alphabet, mapped0, init) by {
        forall k | 0 <= k < |init| ensures SuccessorsNumbered(tm, alphabet, mapped0, init[k]) {
          assert init[k] == subsets[k];
        }
      }
      NormalRowsStable(tm, alphabet, mapped0, mapped, init);
      NormalRowStable(tm, alphabet, mapped0, mapped, subsets[|subsets| - 1]);
    }
  }

  /** Storing one more row at the next state extends the table. */
  lemma TableOfAppend(rows: seq<set<Transition>>, r: set<Transition>)
    ensures |rows| !in TableOf(rows)
    ensures RowAt(TableOf(rows), |rows|, r) == TableOf(rows + [r])
  {
    var a, b := RowAt(TableOf(rows), |rows|, r), TableOf(rows + [r]);
    forall i | 0 <= i < |rows| ensures (rows + [r])[i] == rows[i] { }
    assert a.Keys == b.Keys;
  }

  /** One step of `normalize` keeps the table equal to the rows of the subsets processed. */
  lemma RowsNext(tm: map<Key, set<int>>, alphabet: set<string>, mapped0: map<set<int>, int>, mapped: map<set<int>, int>,
                 order0: seq<set<int>>, order: seq<set<int>>, added: seq<set<int>>, head: int)
    requires 0 <= head < |order0| && order == order0 + added
    requires AllNumbered(tm, alphabet, mapped0, order0[..head]) && Extends(mapped0, mapped)
    requires SuccessorsNumbered(tm, alphabet, mapped, order0[head])
    ensures AllNumbered(tm, alphabet, mapped, order[..head + 1])
    ensures RowAt(TableOf(NormalRows(tm, alphabet, mapped0, order0[..head])), head, NormalRow(tm, alphabet, mapped, order0[head]))
         == TableOf(NormalRows(tm, alphabet, mapped, order[..head + 1]))
  {
    var pre := order0[..head];
    NormalRowsStable(tm, alphabet, mapped0, mapped, pre);
    var s := order[..head + 1];
    assert s[..head] == pre && s[head] == order0[head];
    TableOfAppend(NormalRows(tm, alphabet, mapped, pre), NormalRow(tm, alphabet, mapped, order0[head]));
  }

  /** The final set built for the first `head` subsets of `order`. */
  ghost predicate FinalsBuilt(finals': set<int>, order: seq<set<int>>, head: int, finals: set<int>) {
    forall q :: q in finals' <==> 0 <= q < head && q < |order| && order[q] * finals != {}
  }

  /** What one step of a breadth-first search keeps: the queue is the rest of the order, and the measure falls when something was added. */
  lemma QueueStep<N>(univ: set<N>, head: int, order0: seq<N>, order: seq<N>, added: seq<N>, keys0: set<N>, keys: set<N>)
    requires 0 <= head < |order0| && order == order0 + added
    requires keys0 <= keys <= univ
    requires added != [] ==> added[0] in keys && added[0] !in keys0
    ensures order[head + 1..] == order0[head + 1..] + added
    ensures order[head] == order0[head]
    ensures added != [] ==> |univ - keys| < |univ - keys0|
  {
    assert order[head + 1..] == order0[head + 1..] + added;
    if added != [] {
      FewerLeft(univ, keys0, keys, added[0]);
    }
  }

  /** The final set grows by the current subset's number exactly when the subset holds a final state. */
  lemma FinalsStep(finals': set<int>, order0: seq<set<int>>, order: seq<set<int>>, head: int, finals: set<int>, meets: bool)
    requires FinalsBuilt(finals', order0, head, finals) && 0 <= head < |order0|
    requires |order0| <= |order| && order[..|order0|] == order0
    requires meets == (order0[head] * finals != {})
    ensures FinalsBuilt(if meets then finals' + {head} else finals', order, head + 1, finals)
  {
    forall q | 0 <= q <= head ensures order[q] == order0[q] {
      assert order[..|order0|][q] == order0[q];
    }
  }

  /** `normalize`'s search numbers exactly the subsets reachable from `init` along the edges it follows. */
  lemma NormalizeReached(tm: map<Key, set<int>>, alphabet: set<string>, init: set<int>, order: seq<set<int>>, mapped: map<set<int>, int>)
    requires NumberedInOrder(mapped, order, 0) && DiscoveredFrom(NormalEdge(tm, alphabet), init, order)
    requires AllNumbered(tm, alphabet, mapped, order)
    ensures forall S :: S in mapped <==> Reachable(NormalEdge(tm, alphabet), init, S)
  {
    assert ClosedUnder(NormalEdge(tm, alphabet), mapped.Keys) by {
      forall x, y | x in mapped.Keys && (x, y) in NormalEdge(tm, alphabet) ensures y in mapped.Keys {
        var i :| 0 <= i < |order| && order[i] == x;
        assert SuccessorsNumbered(tm, alphabet, mapped, order[i]);
      }
    }
    DiscoveredClosedIsReachable(NormalEdge(tm, alphabet), init, order, mapped.Keys);
  }

  /** The state of `normalize`'s search before polling the queue. */
  ghost predicate NormalizeInv(tm: map<Key, set<int>>, alphabet: set<string>, finals: set<int>, init: set<int>,
                               head: int, queue: seq<set<int>>, order: seq<set<int>>, mapped: map<set<int>, int>,
                               counter: int, states: set<int>, finals': set<int>, table: Table) {
    && 0 <= head <= |order| && queue == order[head..]
    && counter == |order| && NumberedInOrder(mapped, order, 0)
    && DiscoveredFrom(NormalEdge(tm, alphabet), init, order)
    && mapped.Keys <= tm.Values + {init}
    && states == Range(0, head)
    && FinalsBuilt(finals', order, head, finals)
    && AllNumbered(tm, alphabet, mapped, order[..head])
    && table == TableOf(NormalRows(tm, alphabet, mapped, order[..head]))
    && BfsOrder(tm, alphabet, order, head) == BfsOrder(tm, alphabet, [init], 0)
  }

  lemma NormalizeInvInit(tm: map<Key, set<int>>, alphabet: set<string>, finals: set<int>, init: set<int>)
    ensures NormalizeInv(tm, alphabet, finals, init, 0, [init], [init], map[init := 0], 1, {}, {}, map[])
  {
    assert TableOf([]) == map[];
  }

  /** What the search needs to process the subset at the head of the queue. */
  lemma NormalizeInvOpen(tm: map<Key, set<int>>, alphabet: set<string>, finals: set<int>, init: set<int>,
                         head: int, queue: seq<set<int>>, order: seq<set<int>>, mapped: map<set<int>, int>,
                         counter: int, states: set<int>, finals': set<int>, table: Table)
    requires NormalizeInv(tm, alphabet, finals, init, head, queue, order, mapped, counter, states, finals', table)
    requires queue != []
    ensures 0 <= head < |order| && order[head] == queue[0] && queue[0] in mapped
    ensures counter == |order| && NumberedInOrder(mapped, order, 0)
    ensures DiscoveredFrom(NormalEdge(tm, alphabet), init, order)
    ensures forall a :: a in alphabet && Successor(tm, queue[0], a) != {} ==>
      (queue[0], Successor(tm, queue[0], a)) in NormalEdge(tm, alphabet)
    ensures head !in table
  {
    NormalEdgeOf(tm, alphabet, queue[0]);
    TableOfAppend(NormalRows(tm, alphabet, mapped, order[..head]), {});
  }

  /** One poll of `normalize`'s search keeps its state. */
  lemma NormalizeInvStep(tm: map<Key, set<int>>, alphabet: set<string>, finals: set<int>, init: set<int>, head: int,
                         queue0: seq<set<int>>, order0: seq<set<int>>, mapped0: map<set<int>, int>,
                         states0: set<int>, finals0: set<int>, table0: Table,
                         order: seq<set<int>>, mapped: map<set<int>, int>, counter: int, added: seq<set<int>>,
                         table: Table, meets: bool)
    requires NormalizeInv(tm, alphabet, finals, init, head, queue0, order0, mapped0, |order0|, states0, finals0, table0)
    requires queue0 != []
    requires NumberedSince(NormalEdge(tm, alphabet), init, tm.Values, mapped0, order0, mapped, order, counter, added)
    requires SuccessorsNumbered(tm, alphabet, mapped, queue0[0])
    requires table == RowAt(table0, head, NormalRow(tm, alphabet, mapped, queue0[0]))
    requires order == Appended(tm, alphabet, queue0[0], order0)
    requires meets == (queue0[0] * finals != {})
    ensures queue0[0] in mapped && mapped[queue0[0]] == head
    ensures NormalizeInv(tm, alphabet, finals, init, head + 1, queue0[1..] + added, order, mapped, counter,
                         states0 + {mapped[queue0[0]]}, if meets then finals0 + {mapped[queue0[0]]} else finals0, table)
    ensures added == [] ==> mapped.Keys == mapped0.Keys
    ensures added != [] ==> |tm.Values + {init} - mapped.Keys| < |tm.Values + {init} - mapped0.Keys|
  {
    SearchStep(tm, alphabet, init, head, queue0, order0, mapped0, order, mapped, counter, added);
    RowsNext(tm, alphabet, mapped0, mapped, order0, order, added, head);
    FinalsStep(finals0, order0, order, head, finals, meets);
    RangeExtend(0, head);
  }

  /** The search part of one poll: queue, numbering and measure. */
  lemma SearchStep(tm: map<Key, set<int>>, alphabet: set<string>, init: set<int>, head: int,
                   queue0: seq<set<int>>, order0: seq<set<int>>, mapped0: map<set<int>, int>,
                   order: seq<set<int>>, mapped: map<set<int>, int>, counter: int, added: seq<set<int>>)
    requires 0 <= head <= |order0| && queue0 == order0[head..] && queue0 != []
    requires NumberedInOrder(mapped0, order0, 0) && mapped0.Keys <= tm.Values + {init}
    requires NumberedSince(NormalEdge(tm, alphabet), init, tm.Values, mapped0, order0, mapped, order, counter, added)
    ensures queue0[0] in mapped && mapped[queue0[0]] == head
    ensures 0 <= head + 1 <= |order| && queue0[1..] + added == order[head + 1..]
    ensures counter == |order| && NumberedInOrder(mapped, order, 0)
    ensures DiscoveredFrom(NormalEdge(tm, alphabet), init, order)
    ensures mapped.Keys <= tm.Values + {init}
    ensures added == [] ==> mapped.Keys == mapped0.Keys
    ensures added != [] ==> |tm.Values + {init} - mapped.Keys| < |tm.Values + {init} - mapped0.Keys|
  {
    assert order0[head] == queue0[0];
    assert queue0[1..] == order0[head + 1..];
    QueueStep(tm.Values + {init}, head, order0, order, added, mapped0.Keys, mapped.Keys);
  }

  /** The state of the search once the queue is empty. */
  lemma NormalizeInvClose(tm: map<Key, set<int>>, alphabet: set<string>, finals: set<int>, init: set<int>,
                          head: int, queue: seq<set<int>>, order: seq<set<int>>, mapped: map<set<int>, int>,
                          counter: int, states: set<int>, finals': set<int>, table: Table)
    requires NormalizeInv(tm, alphabet, finals, init, head, queue, order, mapped, counter, states, finals', table)
    requires queue == []
    ensures NumberedInOrder(mapped, order, 0)
    ensures DiscoveredFrom(NormalEdge(tm, alphabet), init, order)
    ensures forall S :: S in mapped <==> Reachable(NormalEdge(tm, alphabet), init, S)
    ensures states == Range(0, |order|)
    ensures forall S :: S in mapped ==> (mapped[S] in finals' <==> S * finals != {})
    ensures finals' <= states && table.Keys <= states
    ensures forall S :: S in mapped ==>
      SuccessorsNumbered(tm, alphabet, mapped, S) && Out(table, mapped[S]) == NormalRow(tm, alphabet, mapped, S)
    ensures forall q :: q in table ==> table[q] != {}
    ensures order == BfsOrder(tm, alphabet, [init], 0)
  {
    assert head == |order| && order[..head] == order;
    NormalizeReached(tm, alphabet, init, order, mapped);
    FinalsClose(finals', order, mapped, finals);
    RowsClose(tm, alphabet, order, mapped, table);
  }

  /** The final set, read through the numbering. */
  lemma FinalsClose(finals': set<int>, order: seq<set<int>>, mapped: map<set<int>, int>, finals: set<int>)
    requires FinalsBuilt(finals', order, |order|, finals) && NumberedInOrder(mapped, order, 0)
    ensures forall S :: S in mapped ==> (mapped[S] in finals' <==> S * finals != {})
    ensures finals' <= Range(0, |order|)
  {
    NumberIsIndex(mapped, order, 0);
  }

  /** The table, read through the numbering. */
  lemma RowsClose(tm: map<Key, set<int>>, alphabet: set<string>, order: seq<set<int>>, mapped: map<set<int>, int>, table: Table)
    requires AllNumbered(tm, alphabet, mapped, order) && NumberedInOrder(mapped, order, 0)
    requires table == TableOf(NormalRows(tm, alphabet, mapped, order))
    ensures table.Keys <= Range(0, |order|)
    ensures forall S :: S in mapped ==>
      SuccessorsNumbered(tm, alphabet, mapped, S) && Out(table, mapped[S]) == NormalRow(tm, alphabet, mapped, S)
    ensures forall q :: q in table ==> table[q] != {}
  {
    NumberIsIndex(mapped, order, 0);
    forall S | S in mapped
      ensures SuccessorsNumbered(tm, alphabet, mapped, S) && Out(table, mapped[S]) == NormalRow(tm, alphabet, mapped, S)
    {
      NormalRowsIndex(tm, alphabet, mapped, order, mapped[S]);
    }
  }

  /**
    `normalize`: the subsets reachable from `init` along the non-empty
    successors on the alphabet's symbols are numbered from 0 in
    breadth-first order, symbols taken alphabetically. A subset's number is
    final when the subset holds a final state, and its row has one
    transition per symbol with a non-empty successor, to that successor's
    number; a subset without any has no table entry.
   */
  method NormalizeFields(tm: map<Key, set<int>>, alphabet: set<string>, finals: set<int>, init: set<int>)
    returns (states: set<int>, finals': set<int>, initials: set<int>, table: Table,
             ghost mapped: map<set<int>, int>, ghost order: seq<set<int>>)
    ensures NumberedInOrder(mapped, order, 0)
    ensures DiscoveredFrom(NormalEdge(tm, alphabet), init, order)
    ensures forall S :: S in mapped <==> Reachable(NormalEdge(tm, alphabet), init, S)
    ensures states == Range(0, |order|) && initials == {0}
    ensures forall S :: S in mapped ==> (mapped[S] in finals' <==> S * finals != {})
    ensures finals' <= states && table.Keys <= states
    ensures forall S :: S in mapped ==>
      SuccessorsNumbered(tm, alphabet, mapped, S) && Out(table, mapped[S]) == NormalRow(tm, alphabet, mapped, S)
    ensures forall q :: q in table ==> table[q] != {}
    ensures order == BfsOrder(tm, alphabet, [init], 0)
  {
    ghost var univ := tm.Values + {init};
    var mappedStates := map[init := 0];
    var counter := 1;
    var queue := [init];
    order := [init];
    states, finals', initials, table := {}, {}, {0}, map[];
    ghost var head := 0;
    NormalizeInvInit(tm, alphabet, finals, init);
    while queue != []
      invariant NormalizeInv(tm, alphabet, finals, init, head, queue, order, mappedStates, counter, states, finals', table)
      decreases |univ - mappedStates.Keys|, |queue|
    {
      var current := queue[0];
      NormalizeInvOpen(tm, alphabet, finals, init, head, queue, order, mappedStates, counter, states, finals', table);
      ghost var queue0, order0, mapped0, states0, finals0, table0 := queue, order, mappedStates, states, finals', table;
      queue := queue[1..];
      var added;
      mappedStates, counter, added, order, table :=
        NormalizeRow(NormalEdge(tm, alphabet), tm, alphabet, init, current, head, mappedStates, counter, order, table);
      queue := queue + added;
      var n := mappedStates[current];
      states := states + {n};
      var meets := MeetsFinal(finals, current);
      if meets {
        finals' := finals' + {n};
      }
      NormalizeInvStep(tm, alphabet, finals, init, head, queue0, order0, mapped0, states0, finals0, table0,
                       order, mappedStates, counter, added, table, meets);
      head := head + 1;
    }
    mapped := mappedStates;
    NormalizeInvClose(tm, alphabet, finals, init, head, queue, order, mappedStates, counter, states, finals', table);
  }

  // ---------------------------------------------------------------------
  // The deterministic automaton

  /** The non-empty subsets one symbol of `alphabet` leads to from `S`. */
  function StepTargets(table: Table, alphabet: set<string>, S: set<int>): set<set<int>> {
    set a | a in alphabet && Step(table, S, a) != {} :: Step(table, S, a)
  }

  /** The edges of the deterministic automaton over subsets: from `S` to each non-empty subset one symbol leads to. */
  ghost function DfaEdge(table: Table, alphabet: set<string>): iset<(set<int>, set<int>)> {
    iset e: (set<int>, set<int>) | e.1 in StepTargets(table, alphabet, e.0)
  }

  /** Every non-empty subset one symbol of `alphabet` leads to from `S` has a number. */
  ghost predicate StepsNumbered(table: Table, alphabet: set<string>, mapped: map<set<int>, int>, S: set<int>) {
    forall a :: a in alphabet && Step(table, S, a) != {} ==> Step(table, S, a) in mapped
  }

  /** The row of the subset `S` in the deterministic automaton: on each symbol, to the number of the subset it leads to. */
  function DfaRow(table: Table, alphabet: set<string>, mapped: map<set<int>, int>, S: set<int>): set<Transition>
    requires StepsNumbered(table, alphabet, mapped, S)
  {
    set a | a in alphabet && Step(table, S, a) != {} :: Transition(a, mapped[Step(table, S, a)])
  }

  /** The rows the subset search collects: a key for every explored subset and symbol it leads somewhere on. */
  ghost predicate CollectsRows(table: Table, tm: map<Key, set<int>>, order: seq<set<int>>) {
    && (forall k :: k in tm <==> k.states in order && k in Row(table, k.states))
    && (forall k :: k in tm ==> tm[k] == Row(table, k.states)[k])
  }

  /** For an explored subset, the map's successor is the subset the symbol leads to. */
  lemma SuccessorIsStep(table: Table, tm: map<Key, set<int>>, order: seq<set<int>>, S: set<int>, a: string)
    requires CollectsRows(table, tm, order) && S in order
    ensures Successor(tm, S, a) == Step(table, S, a)
  {
    RowMeaning(table, S, Key(S, a));
  }

  /** For an explored subset, the edges `normalize` follows are those of the deterministic automaton. */
  lemma TargetsAgree(table: Table, alphabet: set<string>, tm: map<Key, set<int>>, order: seq<set<int>>, S: set<int>)
    requires CollectsRows(table, tm, order) && S in order
    ensures NormalTargets(tm, alphabet, S) == StepTargets(table, alphabet, S)
  {
    forall a ensures Successor(tm, S, a) == Step(table, S, a) {
      SuccessorIsStep(table, tm, order, S, a);
    }
  }

  /** For an explored subset, the rows `normalize` builds are those of the deterministic automaton. */
  lemma RowsAgree(table: Table, alphabet: set<string>, tm: map<Key, set<int>>, order: seq<set<int>>,
                  mapped: map<set<int>, int>, S: set<int>)
    requires CollectsRows(table, tm, order) && S in order
    requires SuccessorsNumbered(tm, alphabet, mapped, S)
    ensures StepsNumbered(table, alphabet, mapped, S)
    ensures NormalRow(tm, alphabet, mapped, S) == DfaRow(table, alphabet, mapped, S)
  {
    forall a ensures Successor(tm, S, a) == Step(table, S, a) {
      SuccessorIsStep(table, tm, order, S, a);
    }
  }

  /**
    The subsets the subset search explored are closed under the edges
    `normalize` follows, and there those edges are the deterministic
    automaton's; so `normalize` reaches exactly the subsets the deterministic
    automaton reaches.
   */
  lemma NormalReachesDfa(table: Table, alphabet: set<string>, init: set<int>, tm: map<Key, set<int>>, order: seq<set<int>>)
    requires CollectsRows(table, tm, order) && init in order
    requires forall S :: S in order <==> Reachable(SubsetEdge(table), init, S)
    ensures forall S :: Reachable(NormalEdge(tm, alphabet), init, S) ==> S in order
    ensures forall S :: Reachable(NormalEdge(tm, alphabet), init, S) <==> Reachable(DfaEdge(table, alphabet), init, S)
  {
    var c := set S | S in order;
    var ne, de := NormalEdge(tm, alphabet), DfaEdge(table, alphabet);
    assert ClosedUnder(ne, c) by {
      forall x, y | x in c && (x, y) in ne ensures y in c {
        var a :| a in alphabet && Successor(tm, x, a) != {} && Successor(tm, x, a) == y;
        var k := Key(x, a);
        assert k in tm && tm[k] == Row(table, x)[k];
        assert (x, y) in SubsetEdge(table);
        ReachableStep(SubsetEdge(table), init, x, y);
      }
    }
    forall x, y | x in c ensures (x, y) in ne <==> (x, y) in de {
      TargetsAgree(table, alphabet, tm, order, x);
    }
    ClosedContainsReachable(ne, init, c);
    SameReachable(ne, de, init, c);
  }

  /**
    The deterministic automaton `determinize` builds from `e`: the subset
    search from the initial subset, then `normalize`. Its states number,
    from 0, the subsets the deterministic automaton over subsets reaches
    from `e.initials`, with that subset as 0; a number is final exactly when
    its subset holds a final state of `e`, and its row leads on each symbol
    of the alphabet to the number of the subset that symbol leads to.
   */
  method SubsetAutomaton(e: Automaton)
    returns (r: Automaton, ghost tm: map<Key, set<int>>, ghost mapped: map<set<int>, int>, ghost order: seq<set<int>>)
    requires e.Valid()
    ensures fresh(r) && r.kind == DFA && r.Valid()
    ensures SubsetsFrom(e.Contents(), r.Contents(), tm, mapped, order)
    ensures forall q :: q in r.table ==> r.table[q] != {}
  {
    ghost var x := e.Contents();
    var transitions, search := SubsetTransitions(e.table, e.states, e.initials);
    tm := transitions;
    var states, finals', initials, table;
    states, finals', initials, table, mapped, order := NormalizeFields(transitions, e.alphabet, e.finals, e.initials);
    r := new Automaton.Of(DFA, e.alphabet, states, finals', initials, table);
    SubsetSearchFacts(x, tm, search, mapped, order);
    SubsetAutomatonFacts(x, r.Contents(), tm, search, mapped, order);
  }

  /** The rows a search collects over the subsets it reaches are those of the reachable subsets. */
  lemma ReachableRows(table: Table, init: set<int>, tm: map<Key, set<int>>, search: seq<set<int>>)
    requires forall S :: S in search <==> Reachable(SubsetEdge(table), init, S)
    requires CollectsRows(table, tm, search)
    ensures SubsetRows(table, init, tm)
  {
  }

  /**
    What the last step of `determinize` computes from the fields `e`: `r`
    numbers from 0 the subsets the deterministic automaton over subsets of
    `e` reaches, one-to-one, in `normalize`'s breadth-first order `order`
    over the subset search's map `tm`, with the initial subset at 0. A
    number is final iff its subset meets a final state, and its row is the
    subset's deterministic row.
   */
  ghost predicate SubsetsFrom(e: Fields, r: Fields, tm: map<Key, set<int>>, mapped: map<set<int>, int>,
                              order: seq<set<int>>) {
    SubsetsSearched(e, tm, mapped, order) && SubsetsNumbered(e, r, mapped)
  }

  /**
    The searches of the last step of `determinize` over the fields `e`: the
    subset search's map `tm`, and the numbering `mapped` of the subsets the
    deterministic automaton over subsets reaches, one-to-one, in the
    breadth-first order `order`, with the initial subset at 0.
   */
  ghost predicate SubsetsSearched(e: Fields, tm: map<Key, set<int>>, mapped: map<set<int>, int>, order: seq<set<int>>) {
    && e.initials in mapped && mapped[e.initials] == 0
    && (forall S :: S in mapped ==> 0 <= mapped[S] < |order| && order[mapped[S]] == S)
    && (forall S :: S in mapped <==> Reachable(DfaEdge(e.table, e.alphabet), e.initials, S))
    && SubsetRows(e.table, e.initials, tm)
    && NumberedInOrder(mapped, order, 0) && order == BfsOrder(tm, e.alphabet, [e.initials], 0)
  }

  /**
    The automaton `r` the numbering `mapped` of subsets of `e` gives: its
    states are the numbers, a number is final iff its subset meets a final
    state, and its row is the subset's deterministic row.
   */
  ghost predicate SubsetsNumbered(e: Fields, r: Fields, mapped: map<set<int>, int>) {
    && WellFormedFields(r) && Deterministic(r.table)
    && r.alphabet == e.alphabet && r.initials == {0} && r.states == Range(0, |mapped.Keys|)
    && Image(mapped, mapped.Keys) == r.states
    && (forall S :: S in mapped ==> (mapped[S] in r.finals <==> S * e.finals != {}))
    && (forall S :: S in mapped ==>
          StepsNumbered(e.table, e.alphabet, mapped, S) && Out(r.table, mapped[S]) == DfaRow(e.table, e.alphabet, mapped, S))
  }

  /**
    The map `determinize`'s subset search builds: a key for each subset
    reachable from `init` and each symbol its row has, holding the row's
    entry for it.
   */
  ghost predicate SubsetRows(table: Table, init: set<int>, tm: map<Key, set<int>>) {
    && (forall k :: k in tm <==> Reachable(SubsetEdge(table), init, k.states) && k in Row(table, k.states))
    && (forall k :: k in tm ==> tm[k] == Row(table, k.states)[k])
  }

  /** What the subset search and `normalize` promise about their searches, as values. */
  lemma SubsetSearchFacts(x: Fields, tm: map<Key, set<int>>, search: seq<set<int>>,
                          mapped: map<set<int>, int>, order: seq<set<int>>)
    requires DiscoveredFrom(SubsetEdge(x.table), x.initials, search)
    requires forall S :: S in search <==> Reachable(SubsetEdge(x.table), x.initials, S)
    requires CollectsRows(x.table, tm, search)
    requires NumberedInOrder(mapped, order, 0)
    requires DiscoveredFrom(NormalEdge(tm, x.alphabet), x.initials, order)
    requires forall S :: S in mapped <==> Reachable(NormalEdge(tm, x.alphabet), x.initials, S)
    requires order == BfsOrder(tm, x.alphabet, [x.initials], 0)
    ensures SubsetsSearched(x, tm, mapped, order)
  {
    NumberIsIndex(mapped, order, 0);
    forall S | S in mapped ensures 0 <= mapped[S] < |order| && order[mapped[S]] == S {
      assert mapped[S] - 0 == mapped[S];
    }
    NormalReachesDfa(x.table, x.alphabet, x.initials, tm, search);
    ReachableRows(x.table, x.initials, tm, search);
  }

  /** What `SubsetAutomaton` builds from the numbering `normalize` promises, as values. */
  lemma SubsetAutomatonFacts(x: Fields, y: Fields, tm: map<Key, set<int>>, search: seq<set<int>>,
                             mapped: map<set<int>, int>, order: seq<set<int>>)
    requires DiscoveredFrom(SubsetEdge(x.table), x.initials, search)
    requires forall S :: S in search <==> Reachable(SubsetEdge(x.table), x.initials, S)
    requires CollectsRows(x.table, tm, search)
    requires NumberedInOrder(mapped, order, 0)
    requires DiscoveredFrom(NormalEdge(tm, x.alphabet), x.initials, order)
    requires forall S :: S in mapped <==> Reachable(NormalEdge(tm, x.alphabet), x.initials, S)
    requires y.alphabet == x.alphabet && y.states == Range(0, |order|) && y.initials == {0}
    requires forall S :: S in mapped ==> (mapped[S] in y.finals <==> S * x.finals != {})
    requires y.finals <= y.states && y.table.Keys <= y.states
    requires forall S :: S in mapped ==>
      SuccessorsNumbered(tm, x.alphabet, mapped, S) && Out(y.table, mapped[S]) == NormalRow(tm, x.alphabet, mapped, S)
    ensures SubsetsNumbered(x, y, mapped)
  {
    NumberedOntoRange(mapped, order, 0);
    NumberIsIndex(mapped, order, 0);
    NormalReachesDfa(x.table, x.alphabet, x.initials, tm, search);
    forall S | S in mapped
      ensures StepsNumbered(x.table, x.alphabet, mapped, S) && Out(y.table, mapped[S]) == DfaRow(x.table, x.alphabet, mapped, S)
    {
      RowsAgree(x.table, x.alphabet, tm, search, mapped, S);
    }
    forall q, t | q in y.table && t in y.table[q] ensures t.to in y.states {
      var S := order[q];
      assert Out(y.table, mapped[S]) == DfaRow(x.table, x.alphabet, mapped, S);
    }
    forall q, t1, t2 | q in y.table && t1 in y.table[q] && t2 in y.table[q] && t1.symbol == t2.symbol
      ensures t1 == t2
    {
      var S := order[q];
      assert Out(y.table, mapped[S]) == DfaRow(x.table, x.alphabet, mapped, S);
    }
  }

  /** The intermediate stages of `determinize` and the numbering of its last one. */
  datatype DeterminizeTrace = DeterminizeTrace(s: Fields, e: Fields, tm: map<Key, set<int>>,
                                               mapped: map<set<int>, int>, order: seq<set<int>>)

  /**
    What `determinize` computes from the fields `a`, as values: `t.s` has
    one initial state (the fields of `a` with the final states the closures
    call for, or a new joined initial state), `t.e` is `t.s` without epsilon
    transitions, and `r` numbers from 0, in `normalize`'s breadth-first order
    `t.order` over the subset search's map `t.tm`, the subsets the
    deterministic automaton over subsets of `t.e` reaches.
   */
  ghost predicate DeterminizedFrom(a: Fields, t: DeterminizeTrace, r: Fields) {
    && EpsilonFreeFrom(a, t.s, t.e) && EpsilonFree(r.table)
    && SubsetsFrom(t.e, r, t.tm, t.mapped, t.order)
  }

  /**
    What the first two steps of `determinize` compute from the fields `a`:
    `s` has one initial state (the fields of `a` with the final states the
    closures call for, or a new joined initial state), and `e` is `s`
    without epsilon transitions.
   */
  ghost predicate EpsilonFreeFrom(a: Fields, s: Fields, e: Fields) {
    && (|a.initials| == 1 ==>
          s == a.(finals := e.finals) && e.finals == EpsilonFreeFinals(a.table, a.states, a.finals))
    && (|a.initials| != 1 ==>
          && a.states != {}
          && var n := Max(a.states) + 1;
          && s.alphabet == a.alphabet && s.states == a.states + {n} && s.initials == {n}
          && s.table == JoinedTable(a.table, a.initials, n)
          && e.finals == EpsilonFreeFinals(s.table, s.states, JoinedFinals(a.initials, a.finals, n)))
    && WellFormedFields(e) && EpsilonFree(e.table)
    && e.alphabet == a.alphabet - {Epsilon} && e.states == s.states && e.initials == s.initials
    && |e.initials| == 1 && e.table == EpsilonFreeTable(s.table, s.states)
  }

  /**
    `determinize`: the initial states are joined (the automaton itself when
    it has exactly one), epsilon transitions are removed from that
    automaton `s`, which also gains, in place, the final states the epsilon
    closures call for, and the resulting automaton `e` is turned into the
    deterministic one. With several or no initial states but no state at
    all, joining fails and nothing is built: `ok` is false.
   */
  method Determinize(a: Automaton) returns (ok: bool, r: Automaton, ghost s: Automaton, ghost e: Automaton,
                                            ghost t: DeterminizeTrace)
    requires a.Valid()
    modifies a
    ensures ok == (|old(a.initials)| == 1 || old(a.states) != {})
    ensures !ok ==> unchanged(a)
    ensures ok && |old(a.initials)| == 1 ==> s == a && a.Contents() == t.s
    ensures ok && |old(a.initials)| != 1 ==> unchanged(a) && fresh(s) && s.Contents() == t.s
    ensures ok ==> fresh(e) && e.kind == NFA && e.Contents() == t.e
    ensures ok ==> fresh(r) && r.kind == DFA && r.Valid()
    ensures ok ==> DeterminizedFrom(old(a.Contents()), t, r.Contents())
  {
    var simplified, result;
    ok, simplified, result := EpsilonFreeStage(a);
    s, e := simplified, result;
    if !ok {
      r, t := a, DeterminizeTrace(a.Contents(), a.Contents(), map[], map[], []);
      return;
    }
    ghost var tm, mapped, order;
    r, tm, mapped, order := SubsetAutomaton(result);
    DfaRowsSymbols(e.table, e.alphabet, mapped, r.table);
    t := DeterminizeTrace(s.Contents(), e.Contents(), tm, mapped, order);
  }

  /**
    The first two steps of `determinize`: one initial state (`s`, the
    automaton itself or a new one), then the epsilon transitions removed
    (`e`, new), the final states of `s` updated in place.
   */
  method EpsilonFreeStage(a: Automaton) returns (ok: bool, s: Automaton, e: Automaton)
    requires a.Valid()
    modifies a
    ensures ok == (|old(a.initials)| == 1 || old(a.states) != {})
    ensures !ok ==> unchanged(a)
    ensures ok && |old(a.initials)| == 1 ==> s == a
    ensures ok && |old(a.initials)| != 1 ==> unchanged(a) && fresh(s)
    ensures ok ==> fresh(e) && e.kind == NFA && e.Valid()
    ensures ok ==> EpsilonFreeFrom(old(a.Contents()), s.Contents(), e.Contents())
  {
    ok, s := SimplifyInitialStates(a);
    e := s;
    if !ok {
      return;
    }
    ghost var table0, states0 := s.table, s.states;
    assert |a.initials| != 1 ==> states0 == old(a.states) + {Max(old(a.states)) + 1};
    e := RemoveEpsilonTransitions(s);
    assert e.table == EpsilonFreeTable(table0, states0);
    assert s.table == table0 && s.states == states0;
  }

  /** A row of the deterministic automaton only uses symbols of its alphabet. */
  lemma DfaRowsSymbols(table: Table, alphabet: set<string>, mapped: map<set<int>, int>, table': Table)
    requires Epsilon !in alphabet
    requires forall S :: S in mapped ==>
      StepsNumbered(table, alphabet, mapped, S) && Out(table', mapped[S]) == DfaRow(table, alphabet, mapped, S)
    requires table'.Keys <= Image(mapped, mapped.Keys)
    ensures EpsilonFree(table')
  {
    forall q, t | q in table' && t in table'[q] ensures t.symbol != Epsilon {
      var S :| S in mapped && mapped[S] == q;
      assert t in DfaRow(table, alphabet, mapped, S);
    }
  }

  /**
    `perform`: exactly one input path is required, otherwise the operation
    fails (`ok` false). `input` is the automaton read from that path; a
    deterministic one is returned as it is, any other is determinized.
   */
  method Perform(paths: seq<string>, input: Automaton)
    returns (ok: bool, r: Automaton, ghost t: DeterminizeTrace)
    requires input.Valid()
    modifies input
    ensures |paths| != 1 ==> !ok && unchanged(input)
    ensures |paths| == 1 && input.kind == DFA ==> ok && r == input && unchanged(input)
    ensures |paths| == 1 && input.kind == NFA ==>
      && ok == (|old(input.initials)| == 1 || old(input.states) != {})
      && (!ok ==> unchanged(input))
      && (ok ==> fresh(r) && r.kind == DFA && r.Valid())
      && (ok ==> DeterminizedFrom(old(input.Contents()), t, r.Contents()))
      && (ok && |old(input.initials)| == 1 ==> input.Contents() == t.s)
      && (ok && |old(input.initials)| != 1 ==> unchanged(input))
  {
    t := DeterminizeTrace(input.Contents(), input.Contents(), map[], map[], []);
    if |paths| != 1 {
      return false, input, t;
    }
    if input.kind == DFA {
      return true, input, t;
    }
    ghost var s, e;
    ok, r, s, e, t := Determinize(input);
  }
}
