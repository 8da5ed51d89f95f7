/**
  Intersection of two automata by the product construction. The states of
  the product are pairs of states, one of each operand, numbered from 0 in
  breadth-first order from the pair of the least initial states. A pair
  moves on a symbol of the first operand's alphabet when both of its
  components do, to the pair of their destinations, and is final when both
  components are. Both operands are determinized first and the product is
  determinized and minimized afterwards.
 */
module Intersection {
  import opened Orders
  import opened Graphs
  import opened Numberings
  import opened Automata
  import opened Determinization
  import opened Merging
  import opened Minimization

  /** A state of the product: a state of each operand. Equality is by value. */
  datatype Pair = Pair(first: int, second: int)

  /** The destination the source uses for "no transition on this symbol". */
  const NoState: int := -1

  /** What the product needs of an operand: a deterministic table over non-negative states. */
  ghost predicate Operand(states: set<int>, table: Table) {
    && Deterministic(table)
    && (forall q :: q in states ==> 0 <= q)
    && (forall q, t :: q in table && t in table[q] ==> t.to in states)
  }

  /** Every pair of a state of `states1` with a state of `states2`. */
  function Pairs(states1: set<int>, states2: set<int>): set<Pair> {
    set p, q | p in states1 && q in states2 :: Pair(p, q)
  }

  /** The pairs reached from `P` on `a`: a destination of the first component with one of the second. */
  function PairSteps(t1: Table, t2: Table, P: Pair, a: string): set<Pair> {
    set d1, d2 | d1 in Targets(Out(t1, P.first), a) && d2 in Targets(Out(t2, P.second), a) :: Pair(d1, d2)
  }

  /** The pairs reached from `P` on some symbol of `symbols`. */
  function PairTargets(t1: Table, t2: Table, symbols: set<string>, P: Pair): set<Pair> {
    set a, Q | a in symbols && Q in PairSteps(t1, t2, P, a) :: Q
  }

  /** The edges of the product's search. */
  ghost function ProductEdge(t1: Table, t2: Table, symbols: set<string>): iset<(Pair, Pair)> {
    iset e: (Pair, Pair) | e.1 in PairTargets(t1, t2, symbols, e.0)
  }

  /** Every pair reached from `P` on a symbol of `symbols` has a number. */
  ghost predicate PairsNumbered(t1: Table, t2: Table, symbols: set<string>, mapped: map<Pair, int>, P: Pair) {
    forall a, Q :: a in symbols && Q in PairSteps(t1, t2, P, a) ==> Q in mapped
  }

  /** The row of `P` in the product: a transition on `a` to the number of every numbered pair `P` reaches on `a`. */
  function ProductRow(t1: Table, t2: Table, symbols: set<string>, mapped: map<Pair, int>, P: Pair): set<Transition> {
    set a, Q | a in symbols && Q in PairSteps(t1, t2, P, a) && Q in mapped :: Transition(a, mapped[Q])
  }

  /** Both components of `P` are final. */
  predicate BothFinal(finals1: set<int>, finals2: set<int>, P: Pair) {
    P.first in finals1 && P.second in finals2
  }

  /** The final numbers of the pairs of `order`: those whose pair has both components final. */
  ghost predicate FinalsOf(finals: set<int>, order: seq<Pair>, finals1: set<int>, finals2: set<int>) {
    forall q :: q in finals <==> 0 <= q < |order| && BothFinal(finals1, finals2, order[q])
  }

  // ---------------------------------------------------------------------
  // One step of a component

  /**
    The loop that looks for a transition on `symbol` and stops at the first
    one it meets, in the set's own order: the result is the destination of a
    transition on `symbol`, or `NoState` when there is none.
   */
  method FirstMatch(ts: set<Transition>, symbol: string) returns (to: int)
    ensures (to == NoState && symbol !in Labels(ts)) || Transition(symbol, to) in ts
  {
    to := NoState;
    var rest := ts;
    while rest != {}
      invariant rest <= ts
      invariant forall t :: t in ts - rest ==> t.symbol != symbol
      decreases rest
    {
      var t :| t in rest;
      if t.symbol == symbol {
        to := t.to;
        return;
      }
      rest := rest - {t};
    }
  }

  /**
    In a deterministic operand the match is the only destination on the
    symbol, and `NoState`, which names no state, stands for none.
   */
  lemma MatchTargets(states: set<int>, table: Table, q: int, a: string, d: int)
    requires Operand(states, table)
    requires (d == NoState && a !in Labels(Out(table, q))) || Transition(a, d) in Out(table, q)
    ensures Targets(Out(table, q), a) == if d == NoState then {} else {d}
  {
    var ts := Out(table, q);
    if Transition(a, d) in ts {
      assert q in table && d in states;
      forall d' | d' in Targets(ts, a) ensures d' == d {
        var t :| t in ts && t.symbol == a && t.to == d';
        assert t == Transition(a, d);
      }
      assert d in Targets(ts, a);
    } else {
      forall t | t in ts ensures t.symbol != a {
        assert t.symbol in Labels(ts);
      }
    }
  }

  /** The pairs reached on `a` are the pair of the two matches, or none when either component has none. */
  lemma PairStepOf(t1: Table, t2: Table, P: Pair, a: string, d1: int, d2: int)
    requires Targets(Out(t1, P.first), a) == if d1 == NoState then {} else {d1}
    requires d1 != NoState ==> Targets(Out(t2, P.second), a) == if d2 == NoState then {} else {d2}
    ensures PairSteps(t1, t2, P, a) == if d1 == NoState || d2 == NoState then {} else {Pair(d1, d2)}
  {
    if d1 != NoState && d2 != NoState {
      assert Pair(d1, d2) in PairSteps(t1, t2, P, a);
    }
  }

  /**
    A pair steps on `a` to `Q` exactly when each component has a transition
    on `a` to the matching component of `Q`.
   */
  lemma PairStepIff(t1: Table, t2: Table, P: Pair, a: string, Q: Pair)
    ensures Q in PairSteps(t1, t2, P, a) <==>
      Transition(a, Q.first) in Out(t1, P.first) && Transition(a, Q.second) in Out(t2, P.second)
  {
    if Transition(a, Q.first) in Out(t1, P.first) && Transition(a, Q.second) in Out(t2, P.second) {
      assert Q.first in Targets(Out(t1, P.first), a) && Q.second in Targets(Out(t2, P.second), a);
    }
  }

  /** The pairs a pair of states reaches are pairs of states. */
  lemma PairStepsWithin(s1: set<int>, t1: Table, s2: set<int>, t2: Table, P: Pair, a: string)
    requires Operand(s1, t1) && Operand(s2, t2)
    ensures PairSteps(t1, t2, P, a) <= Pairs(s1, s2)
  {
    forall Q | Q in PairSteps(t1, t2, P, a) ensures Q in Pairs(s1, s2) {
      PairStepIff(t1, t2, P, a, Q);
      assert P.first in t1 && P.second in t2;
    }
  }

  // ---------------------------------------------------------------------
  // The row of one pair

  /** A row does not change when more pairs get numbers. */
  lemma ProductRowStable(t1: Table, t2: Table, symbols: set<string>, mapped0: map<Pair, int>, mapped: map<Pair, int>, P: Pair)
    requires PairsNumbered(t1, t2, symbols, mapped0, P) && Extends(mapped0, mapped)
    ensures PairsNumbered(t1, t2, symbols, mapped, P)
    ensures ProductRow(t1, t2, symbols, mapped, P) == ProductRow(t1, t2, symbols, mapped0, P)
  {
  }

  /** Taking one more symbol into a row under construction. */
  lemma ProductRowAdd(t1: Table, t2: Table, done: set<string>, mapped0: map<Pair, int>, mapped: map<Pair, int>,
                      P: Pair, a: string, Q: Pair)
    requires PairsNumbered(t1, t2, done, mapped0, P) && Extends(mapped0, mapped)
    requires PairSteps(t1, t2, P, a) <= {Q} && (Q in PairSteps(t1, t2, P, a) ==> Q in mapped)
    ensures PairsNumbered(t1, t2, done + {a}, mapped, P)
    ensures ProductRow(t1, t2, done + {a}, mapped, P) ==
      ProductRow(t1, t2, done, mapped0, P) + (if PairSteps(t1, t2, P, a) == {} then {} else {Transition(a, mapped[Q])})
  {
    ProductRowStable(t1, t2, done, mapped0, mapped, P);
    var l := ProductRow(t1, t2, done + {a}, mapped, P);
    var r := ProductRow(t1, t2, done, mapped, P) + (if PairSteps(t1, t2, P, a) == {} then {} else {Transition(a, mapped[Q])});
    if PairSteps(t1, t2, P, a) != {} {
      assert Q in PairSteps(t1, t2, P, a);
      assert Transition(a, mapped[Q]) in l;
    }
    assert l == r;
  }

  /**
    The row of `current` built over the symbols `done`, held both as `row`
    and as the entry `n` of `table`, which was `table0` before the row began.
   */
  ghost predicate PairRowSoFar(t1: Table, t2: Table, done: set<string>, mapped: map<Pair, int>, current: Pair,
                               row: set<Transition>, table0: Table, n: int, table: Table) {
    && PairsNumbered(t1, t2, done, mapped, current)
    && row == ProductRow(t1, t2, done, mapped, current)
    && table == RowAt(table0, n, row)
  }

  /** A symbol on which either component has no transition leaves the row as it is. */
  lemma PairSkipped(t1: Table, t2: Table, done: set<string>, mapped: map<Pair, int>, current: Pair, a: string,
                    row: set<Transition>, table0: Table, n: int, table: Table)
    requires PairRowSoFar(t1, t2, done, mapped, current, row, table0, n, table) && PairSteps(t1, t2, current, a) == {}
    ensures PairRowSoFar(t1, t2, done + {a}, mapped, current, row, table0, n, table)
  {
    ProductRowAdd(t1, t2, done, mapped, mapped, current, a, current);
  }

  /** A symbol on which both components move adds the transition to the numbered pair of destinations. */
  lemma PairTaken(t1: Table, t2: Table, done: set<string>, mapped0: map<Pair, int>, mapped: map<Pair, int>,
                  current: Pair, a: string, Q: Pair, row: set<Transition>, table0: Table, n: int, table: Table)
    requires PairRowSoFar(t1, t2, done, mapped0, current, row, table0, n, table) && Extends(mapped0, mapped) && n !in table0
    requires PairSteps(t1, t2, current, a) == {Q} && Q in mapped
    ensures PairRowSoFar(t1, t2, done + {a}, mapped, current, row + {Transition(a, mapped[Q])}, table0, n,
                         table[n := Out(table, n) + {Transition(a, mapped[Q])}])
  {
    ProductRowAdd(t1, t2, done, mapped0, mapped, current, a, Q);
    RowAtAdd(table0, n, row, Transition(a, mapped[Q]));
  }

  /** Numbering a newly discovered pair with the next number makes that number a state. */
  lemma DiscoverState(states: set<int>, order: seq<Pair>, P: Pair)
    requires states == Range(0, |order|)
    ensures states + {|order|} == Range(0, |order + [P]|)
  {
    RangeExtend(0, |order|);
  }

  /** The new number is final exactly when both components of the new pair are. */
  lemma DiscoverFinal(finals: set<int>, order: seq<Pair>, finals1: set<int>, finals2: set<int>, P: Pair)
    requires FinalsOf(finals, order, finals1, finals2)
    ensures FinalsOf(if BothFinal(finals1, finals2, P) then finals + {|order|} else finals, order + [P], finals1, finals2)
  {
    var o := order + [P];
    forall q | 0 <= q < |order| ensures o[q] == order[q] { }
    assert o[|order|] == P;
  }

  /**
    The symbol loop for the pair `current`, which has number `head`: for
    each symbol of the first operand's alphabet, in ascending order, the
    pair of the two components' first matches is taken, by `PairSymbol`,
    into the numbering and the row of `head`.
   */
  method PairRowOf(ghost next: iset<(Pair, Pair)>, ghost s1: set<int>, t1: Table, ghost s2: set<int>, t2: Table,
                   symbols: set<string>, finals1: set<int>, finals2: set<int>, ghost init: Pair,
                   current: Pair, ghost head: int, mapped0: map<Pair, int>, counter0: int, ghost order0: seq<Pair>,
                   states0: set<int>, finals0: set<int>, table0: Table)
    returns (mapped: map<Pair, int>, counter: int, added: seq<Pair>, ghost order: seq<Pair>,
             states: set<int>, finals: set<int>, table: Table)
    requires Operand(s1, t1) && Operand(s2, t2) && next == ProductEdge(t1, t2, symbols)
    requires 0 <= head < |order0| && order0[head] == current && head !in table0
    requires SymbolsDone(next, s1, t1, s2, t2, finals1, finals2, init, current, head, mapped0, order0, table0, {},
                         mapped0, counter0, [], order0, states0, finals0, table0, {})
    ensures NumberedSince(next, init, Pairs(s1, s2), mapped0, order0, mapped, order, counter, added)
    ensures states == Range(0, |order|) && FinalsOf(finals, order, finals1, finals2)
    ensures PairsNumbered(t1, t2, symbols, mapped, current)
    ensures table == RowAt(table0, head, ProductRow(t1, t2, symbols, mapped, current))
  {
    mapped, counter, added, order, states, finals, table := mapped0, counter0, [], order0, states0, finals0, table0;
    var rest := symbols;
    ghost var done: set<string> := {};
    ghost var row: set<Transition> := {};
    while rest != {}
      invariant rest + done == symbols && rest * done == {}
      invariant SymbolsDone(next, s1, t1, s2, t2, finals1, finals2, init, current, head, mapped0, order0, table0, done,
                            mapped, counter, added, order, states, finals, table, row)
      decreases rest
    {
      var a := MinString(rest);
      mapped, counter, added, order, states, finals, table, row :=
        PairSymbol(next, s1, t1, s2, t2, symbols, finals1, finals2, init, current, head, mapped0, order0, table0, done, a,
                   mapped, counter, added, order, states, finals, table, row);
      rest := rest - {a};
      done := done + {a};
    }
    SymbolsEnd(next, s1, t1, s2, t2, symbols, finals1, finals2, init, current, head, mapped0, order0, table0, done,
               mapped, counter, added, order, states, finals, table, row);
  }

  /** Before the first symbol: nothing new is numbered and the row is empty. */
  lemma SymbolsStart(next: iset<(Pair, Pair)>, s1: set<int>, t1: Table, s2: set<int>, t2: Table,
                     finals1: set<int>, finals2: set<int>, init: Pair, current: Pair, head: int,
                     mapped0: map<Pair, int>, counter0: int, order0: seq<Pair>, states0: set<int>, finals0: set<int>, table0: Table)
    requires counter0 == |order0| && NumberedInOrder(mapped0, order0, 0) && DiscoveredFrom(next, init, order0)
    requires mapped0.Keys <= Pairs(s1, s2)
    requires states0 == Range(0, |order0|) && FinalsOf(finals0, order0, finals1, finals2)
    requires head !in table0
    ensures SymbolsDone(next, s1, t1, s2, t2, finals1, finals2, init, current, head, mapped0, order0, table0, {},
                        mapped0, counter0, [], order0, states0, finals0, table0, {})
  {
    assert order0 + [] == order0;
    assert RowAt(table0, head, {}) == table0;
  }

  /** After the last symbol the row is the whole product row. */
  lemma SymbolsEnd(next: iset<(Pair, Pair)>, s1: set<int>, t1: Table, s2: set<int>, t2: Table, symbols: set<string>,
                   finals1: set<int>, finals2: set<int>, init: Pair, current: Pair, head: int,
                   mapped0: map<Pair, int>, order0: seq<Pair>, table0: Table, done: set<string>,
                   mapped: map<Pair, int>, counter: int, added: seq<Pair>, order: seq<Pair>,
                   states: set<int>, finals: set<int>, table: Table, row: set<Transition>)
    requires SymbolsDone(next, s1, t1, s2, t2, finals1, finals2, init, current, head, mapped0, order0, table0, done,
                         mapped, counter, added, order, states, finals, table, row)
    requires done == symbols
    ensures NumberedSince(next, init, Pairs(s1, s2), mapped0, order0, mapped, order, counter, added)
    ensures states == Range(0, |order|) && FinalsOf(finals, order, finals1, finals2)
    ensures PairsNumbered(t1, t2, symbols, mapped, current)
    ensures table == RowAt(table0, head, ProductRow(t1, t2, symbols, mapped, current))
  {
  }

  /**
    The symbol loop's state once the symbols `done` are taken: the
    numbering since the loop began, the states and final states it
    discovered, and the row so far.
   */
  ghost predicate SymbolsDone(next: iset<(Pair, Pair)>, s1: set<int>, t1: Table, s2: set<int>, t2: Table,
                              finals1: set<int>, finals2: set<int>, init: Pair, current: Pair, head: int,
                              mapped0: map<Pair, int>, order0: seq<Pair>, table0: Table, done: set<string>,
                              mapped: map<Pair, int>, counter: int, added: seq<Pair>, order: seq<Pair>,
                              states: set<int>, finals: set<int>, table: Table, row: set<Transition>) {
    && NumberedSince(next, init, Pairs(s1, s2), mapped0, order0, mapped, order, counter, added)
    && states == Range(0, |order|) && FinalsOf(finals, order, finals1, finals2)
    && PairRowSoFar(t1, t2, done, mapped, current, row, table0, head, table)
  }

  /**
    One symbol `a` for the pair `current`: the first match of the first
    component on `a` is looked up, and only when there is one the first
    match of the second; when both exist, their pair gets the next number if
    it has none (it becomes a state, final when both components are, and
    joins the queue), and the transition on `a` to the pair's number joins
    the row of `head`.
   */
  method PairSymbol(ghost next: iset<(Pair, Pair)>, ghost s1: set<int>, t1: Table, ghost s2: set<int>, t2: Table,
                    ghost symbols: set<string>, finals1: set<int>, finals2: set<int>, ghost init: Pair,
                    current: Pair, ghost head: int, ghost mapped0: map<Pair, int>, ghost order0: seq<Pair>, ghost table0: Table,
                    ghost done: set<string>, a: string,
                    mappedIn: map<Pair, int>, counterIn: int, addedIn: seq<Pair>, ghost orderIn: seq<Pair>,
                    statesIn: set<int>, finalsIn: set<int>, tableIn: Table, ghost rowIn: set<Transition>)
    returns (mapped: map<Pair, int>, counter: int, added: seq<Pair>, ghost order: seq<Pair>,
             states: set<int>, finals: set<int>, table: Table, ghost row: set<Transition>)
    requires Operand(s1, t1) && Operand(s2, t2) && next == ProductEdge(t1, t2, symbols) && a in symbols
    requires 0 <= head < |order0| && order0[head] == current && head !in table0
    requires SymbolsDone(next, s1, t1, s2, t2, finals1, finals2, init, current, head, mapped0, order0, table0, done,
                         mappedIn, counterIn, addedIn, orderIn, statesIn, finalsIn, tableIn, rowIn)
    ensures SymbolsDone(next, s1, t1, s2, t2, finals1, finals2, init, current, head, mapped0, order0, table0, done + {a},
                        mapped, counter, added, order, states, finals, table, row)
  {
    mapped, counter, added, order, states, finals, table, row :=
      mappedIn, counterIn, addedIn, orderIn, statesIn, finalsIn, tableIn, rowIn;
    var first := FirstMatch(Out(t1, current.first), a);
    MatchTargets(s1, t1, current.first, a, first);
    var second := NoState;
    if first != NoState {
      second := FirstMatch(Out(t2, current.second), a);
      MatchTargets(s2, t2, current.second, a, second);
    }
    PairStepOf(t1, t2, current, a, first, second);
    if first == NoState || second == NoState {
      PairSkipped(t1, t2, done, mapped, current, a, row, table0, head, table);
      return;
    }
    var state := Pair(first, second);
    assert orderIn[head] == order0[head];
    var n := NumberOf(mapped, order, head, current);
    ExtendsSelf(mappedIn);
    if state !in mapped {
      ExtendsAdd(mappedIn, mappedIn, state, counter);
      PairStepsWithin(s1, t1, s2, t2, current, a);
      assert state in PairTargets(t1, t2, symbols, order0[head]);
      NumberOne(next, init, Pairs(s1, s2), mapped0, order0, mapped, order, counter, added, head, state);
      DiscoverState(states, order, state);
      DiscoverFinal(finals, order, finals1, finals2, state);
      mapped := mapped[state := counter];
      states := states + {counter};
      if first in finals1 && second in finals2 {
        finals := finals + {counter};
      }
      counter := counter + 1;
      added := added + [state];
      order := order + [state];
    }
    PairTaken(t1, t2, done, mappedIn, mapped, current, a, state, row, table0, head, table);
    table := table[n := Out(table, n) + {Transition(a, mapped[state])}];
    row := row + {Transition(a, mapped[state])};
  }

  /** The number of the pair the search is at, which the later numbering keeps. */
  method NumberOf(mapped: map<Pair, int>, ghost order: seq<Pair>, ghost head: int, current: Pair) returns (n: int)
    requires NumberedInOrder(mapped, order, 0) && 0 <= head < |order| && order[head] == current
    ensures n == head
  {
    n := mapped[current];
  }

  lemma ExtendsSelf<N>(m: map<N, int>)
    ensures Extends(m, m)
  {
  }

  // ---------------------------------------------------------------------
  // The search

  /** Every pair of `pairs` has the pairs it reaches numbered. */
  ghost predicate AllPairsNumbered(t1: Table, t2: Table, symbols: set<string>, mapped: map<Pair, int>, pairs: seq<Pair>) {
    forall i :: 0 <= i < |pairs| ==> PairsNumbered(t1, t2, symbols, mapped, pairs[i])
  }

  /** The product rows of `pairs`, in order. */
  function ProductRows(t1: Table, t2: Table, symbols: set<string>, mapped: map<Pair, int>, pairs: seq<Pair>)
    : (rows: seq<set<Transition>>)
    ensures |rows| == |pairs|
    decreases |pairs|
  {
    if pairs == [] then []
    else ProductRows(t1, t2, symbols, mapped, pairs[..|pairs| - 1]) + [ProductRow(t1, t2, symbols, mapped, pairs[|pairs| - 1])]
  }

  /** Row `i` is the row of the `i`-th pair. */
  lemma {:induction false} ProductRowsIndex(t1: Table, t2: Table, symbols: set<string>, mapped: map<Pair, int>,
                                            pairs: seq<Pair>, i: int)
    requires 0 <= i < |pairs|
    ensures ProductRows(t1, t2, symbols, mapped, pairs)[i] == ProductRow(t1, t2, symbols, mapped, pairs[i])
    decreases |pairs|
  {
    var init := pairs[..|pairs| - 1];
    if i < |pairs| - 1 {
      ProductRowsIndex(t1, t2, symbols, mapped, init, i);
      assert init[i] == pairs[i];
    }
  }

  /** The rows do not change when more pairs get numbers. */
  lemma {:induction false} ProductRowsStable(t1: Table, t2: Table, symbols: set<string>, mapped0: map<Pair, int>,
                                             mapped: map<Pair, int>, pairs: seq<Pair>)
    requires AllPairsNumbered(t1, t2, symbols, mapped0, pairs) && Extends(mapped0, mapped)
    ensures AllPairsNumbered(t1, t2, symbols, mapped, pairs)
    ensures ProductRows(t1, t2, symbols, mapped, pairs) == ProductRows(t1, t2, symbols, mapped0, pairs)
    decreases |pairs|
  {
    forall k | 0 <= k < |pairs| ensures PairsNumbered(t1, t2, symbols, mapped, pairs[k]) {
      ProductRowStable(t1, t2, symbols, mapped0, mapped, pairs[k]);
    }
    if pairs != [] {
      var init := pairs[..|pairs| - 1];
      assert AllPairsNumbered(t1, t2, symbols, mapped0, init) by {
        forall k | 0 <= k < |init| ensures PairsNumbered(t1, t2, symbols, mapped0, init[k]) {
          assert init[k] == pairs[k];
        }
      }
      ProductRowsStable(t1, t2, symbols, mapped0, mapped, init);
      ProductRowStable(t1, t2, symbols, mapped0, mapped, pairs[|pairs| - 1]);
    }
  }

  /** One poll keeps the table equal to the rows of the pairs processed. */
  lemma ProductRowsNext(t1: Table, t2: Table, symbols: set<string>, mapped0: map<Pair, int>, mapped: map<Pair, int>,
                        order0: seq<Pair>, order: seq<Pair>, added: seq<Pair>, head: int)
    requires 0 <= head < |order0| && order == order0 + added
    requires AllPairsNumbered(t1, t2, symbols, mapped0, order0[..head]) && Extends(mapped0, mapped)
    requires PairsNumbered(t1, t2, symbols, mapped, order0[head])
    ensures AllPairsNumbered(t1, t2, symbols, mapped, order[..head + 1])
    ensures RowAt(TableOf(ProductRows(t1, t2, symbols, mapped0, order0[..head])), head, ProductRow(t1, t2, symbols, mapped, order0[head]))
         == TableOf(ProductRows(t1, t2, symbols, mapped, order[..head + 1]))
  {
    var pre := order0[..head];
    ProductRowsStable(t1, t2, symbols, mapped0, mapped, pre);
    var s := order[..head + 1];
    assert s[..head] == pre && s[head] == order0[head];
    TableOfAppend(ProductRows(t1, t2, symbols, mapped, pre), ProductRow(t1, t2, symbols, mapped, order0[head]));
  }

  /** The state of the search before polling the queue. */
  ghost predicate ProductInv(s1: set<int>, t1: Table, s2: set<int>, t2: Table, symbols: set<string>,
                             finals1: set<int>, finals2: set<int>, init: Pair,
                             head: int, queue: seq<Pair>, order: seq<Pair>, mapped: map<Pair, int>,
                             counter: int, states: set<int>, finals: set<int>, table: Table) {
    && 0 <= head <= |order| && queue == order[head..]
    && counter == |order| && NumberedInOrder(mapped, order, 0)
    && DiscoveredFrom(ProductEdge(t1, t2, symbols), init, order)
    && mapped.Keys <= Pairs(s1, s2)
    && states == Range(0, |order|)
    && FinalsOf(finals, order, finals1, finals2)
    && AllPairsNumbered(t1, t2, symbols, mapped, order[..head])
    && table == TableOf(ProductRows(t1, t2, symbols, mapped, order[..head]))
  }

  lemma ProductInvInit(s1: set<int>, t1: Table, s2: set<int>, t2: Table, symbols: set<string>,
                       finals1: set<int>, finals2: set<int>, init: Pair)
    requires init in Pairs(s1, s2)
    ensures ProductInv(s1, t1, s2, t2, symbols, finals1, finals2, init, 0, [init], [init], map[init := 0], 1,
                       {0}, if BothFinal(finals1, finals2, init) then {0} else {}, map[])
  {
    assert TableOf([]) == map[];
    assert Range(0, 1) == {0} by {
      RangeExtend(0, 0);
    }
  }

  /** What the search needs to process the pair at the head of the queue. */
  lemma ProductInvOpen(s1: set<int>, t1: Table, s2: set<int>, t2: Table, symbols: set<string>,
                       finals1: set<int>, finals2: set<int>, init: Pair,
                       head: int, queue: seq<Pair>, order: seq<Pair>, mapped: map<Pair, int>,
                       counter: int, states: set<int>, finals: set<int>, table: Table)
    requires ProductInv(s1, t1, s2, t2, symbols, finals1, finals2, init, head, queue, order, mapped, counter, states, finals, table)
    requires queue != []
    ensures 0 <= head < |order| && order[head] == queue[0] && queue[0] in mapped
    ensures head !in table
  {
    TableOfAppend(ProductRows(t1, t2, symbols, mapped, order[..head]), {});
  }

  /** One poll of the search keeps its state. */
  lemma ProductInvStep(s1: set<int>, t1: Table, s2: set<int>, t2: Table, symbols: set<string>,
                       finals1: set<int>, finals2: set<int>, init: Pair, head: int,
                       queue0: seq<Pair>, order0: seq<Pair>, mapped0: map<Pair, int>, table0: Table,
                       order: seq<Pair>, mapped: map<Pair, int>, counter: int, added: seq<Pair>,
                       states: set<int>, finals: set<int>, table: Table)
    requires 0 <= head <= |order0| && queue0 == order0[head..] && queue0 != []
    requires NumberedInOrder(mapped0, order0, 0) && mapped0.Keys <= Pairs(s1, s2)
    requires AllPairsNumbered(t1, t2, symbols, mapped0, order0[..head])
    requires table0 == TableOf(ProductRows(t1, t2, symbols, mapped0, order0[..head]))
    requires NumberedSince(ProductEdge(t1, t2, symbols), init, Pairs(s1, s2), mapped0, order0, mapped, order, counter, added)
    requires states == Range(0, |order|) && FinalsOf(finals, order, finals1, finals2)
    requires PairsNumbered(t1, t2, symbols, mapped, queue0[0])
    requires table == RowAt(table0, head, ProductRow(t1, t2, symbols, mapped, queue0[0]))
    ensures ProductInv(s1, t1, s2, t2, symbols, finals1, finals2, init, head + 1, queue0[1..] + added, order, mapped, counter,
                       states, finals, table)
    ensures added == [] ==> mapped.Keys == mapped0.Keys
    ensures added != [] ==> |Pairs(s1, s2) - mapped.Keys| < |Pairs(s1, s2) - mapped0.Keys|
  {
    assert order0[head] == queue0[0];
    assert queue0[1..] == order0[head + 1..];
    QueueStep(Pairs(s1, s2), head, order0, order, added, mapped0.Keys, mapped.Keys);
    ProductRowsNext(t1, t2, symbols, mapped0, mapped, order0, order, added, head);
  }

  /** The search numbers exactly the pairs reachable from `init` along the product's edges. */
  lemma ProductReached(t1: Table, t2: Table, symbols: set<string>, init: Pair, order: seq<Pair>, mapped: map<Pair, int>)
    requires NumberedInOrder(mapped, order, 0) && DiscoveredFrom(ProductEdge(t1, t2, symbols), init, order)
    requires AllPairsNumbered(t1, t2, symbols, mapped, order)
    ensures forall P :: P in mapped <==> Reachable(ProductEdge(t1, t2, symbols), init, P)
  {
    assert ClosedUnder(ProductEdge(t1, t2, symbols), mapped.Keys) by {
      forall x, y | x in mapped.Keys && (x, y) in ProductEdge(t1, t2, symbols) ensures y in mapped.Keys {
        var i :| 0 <= i < |order| && order[i] == x;
        assert PairsNumbered(t1, t2, symbols, mapped, order[i]);
        var a, Q :| a in symbols && Q in PairSteps(t1, t2, x, a) && Q == y;
      }
    }
    DiscoveredClosedIsReachable(ProductEdge(t1, t2, symbols), init, order, mapped.Keys);
  }

  /** The table and the final states, read through the numbering. */
  lemma ProductClose(t1: Table, t2: Table, symbols: set<string>, finals1: set<int>, finals2: set<int>,
                     order: seq<Pair>, mapped: map<Pair, int>, finals: set<int>, table: Table)
    requires NumberedInOrder(mapped, order, 0) && FinalsOf(finals, order, finals1, finals2)
    requires AllPairsNumbered(t1, t2, symbols, mapped, order)
    requires table == TableOf(ProductRows(t1, t2, symbols, mapped, order))
    ensures forall P :: P in mapped ==> (mapped[P] in finals <==> BothFinal(finals1, finals2, P))
    ensures finals <= Range(0, |order|) && table.Keys <= Range(0, |order|)
    ensures forall P :: P in mapped ==>
      PairsNumbered(t1, t2, symbols, mapped, P) && Out(table, mapped[P]) == ProductRow(t1, t2, symbols, mapped, P)
    ensures forall q :: q in table ==> table[q] != {}
  {
    NumberIsIndex(mapped, order, 0);
    forall q | q in finals ensures q in Range(0, |order|) { }
    forall q | q in table ensures q in Range(0, |order|) { }
    forall P | P in mapped
      ensures PairsNumbered(t1, t2, symbols, mapped, P) && Out(table, mapped[P]) == ProductRow(t1, t2, symbols, mapped, P)
    {
      ProductRowsIndex(t1, t2, symbols, mapped, order, mapped[P]);
    }
  }

  /**
    The product of the operand tables `t1` and `t2` over `symbols`, from
    `init`, as the search leaves it: the pairs are numbered one after
    another in the order the search discovers them, which starts at `init`;
    exactly the pairs reachable from `init` are numbered, and the numbers
    are the states; a number is final exactly when both components of its
    pair are; a pair's row is its product row, and no row is empty.
   */
  ghost predicate Product(t1: Table, t2: Table, symbols: set<string>, finals1: set<int>, finals2: set<int>, init: Pair,
                          mapped: map<Pair, int>, order: seq<Pair>, states: set<int>, finals: set<int>, table: Table) {
    && NumberedInOrder(mapped, order, 0)
    && DiscoveredFrom(ProductEdge(t1, t2, symbols), init, order)
    && (forall P :: P in mapped <==> Reachable(ProductEdge(t1, t2, symbols), init, P))
    && states == Range(0, |order|)
    && (forall P :: P in mapped ==> (mapped[P] in finals <==> BothFinal(finals1, finals2, P)))
    && finals <= states && table.Keys <= states
    && (forall P :: P in mapped ==>
          PairsNumbered(t1, t2, symbols, mapped, P) && Out(table, mapped[P]) == ProductRow(t1, t2, symbols, mapped, P))
    && (forall q :: q in table ==> table[q] != {})
  }

  /**
    The breadth-first search of `intersection` over pairs of states. The
    pair `init` is numbered 0 and is a state, final when both its
    components are; each polled pair's row is built by `PairRowOf`.
   */
  method ProductFields(s1: set<int>, t1: Table, s2: set<int>, t2: Table, symbols: set<string>,
                       finals1: set<int>, finals2: set<int>, init: Pair)
    returns (states: set<int>, finals: set<int>, table: Table, ghost mapped: map<Pair, int>, ghost order: seq<Pair>)
    requires Operand(s1, t1) && Operand(s2, t2) && init in Pairs(s1, s2)
    ensures Product(t1, t2, symbols, finals1, finals2, init, mapped, order, states, finals, table)
  {
    var mappedStates := map[init := 0];
    var counter := 1;
    var queue := [init];
    order := [init];
    states, finals, table := {0}, {}, map[];
    if BothFinal(finals1, finals2, init) {
      finals := {0};
    }
    ghost var head := 0;
    ProductInvInit(s1, t1, s2, t2, symbols, finals1, finals2, init);
    while queue != []
      invariant ProductInv(s1, t1, s2, t2, symbols, finals1, finals2, init, head, queue, order, mappedStates, counter,
                           states, finals, table)
      decreases |Pairs(s1, s2) - mappedStates.Keys|, |queue|
    {
      ghost var keys0 := mappedStates.Keys;
      head, queue, order, mappedStates, counter, states, finals, table :=
        Poll(s1, t1, s2, t2, symbols, finals1, finals2, init, head, queue, order, mappedStates, counter, states, finals, table);
      assert mappedStates.Keys == keys0 || |Pairs(s1, s2) - mappedStates.Keys| < |Pairs(s1, s2) - keys0|;
    }
    mapped := mappedStates;
    ProductInvClose(s1, t1, s2, t2, symbols, finals1, finals2, init, head, queue, order, mapped, counter, states, finals, table);
  }

  /**
    One poll of the queue: the pair at its head gets its row, and the new
    pairs it reaches join the queue. Either a new pair was numbered or the
    queue got shorter.
   */
  method Poll(s1: set<int>, t1: Table, s2: set<int>, t2: Table, symbols: set<string>,
              finals1: set<int>, finals2: set<int>, ghost init: Pair,
              ghost head0: int, queue0: seq<Pair>, ghost order0: seq<Pair>, mapped0: map<Pair, int>,
              counter0: int, states0: set<int>, finals0: set<int>, table0: Table)
    returns (ghost head: int, queue: seq<Pair>, ghost order: seq<Pair>, mapped: map<Pair, int>,
             counter: int, states: set<int>, finals: set<int>, table: Table)
    requires Operand(s1, t1) && Operand(s2, t2)
    requires ProductInv(s1, t1, s2, t2, symbols, finals1, finals2, init, head0, queue0, order0, mapped0, counter0,
                        states0, finals0, table0)
    requires queue0 != []
    ensures ProductInv(s1, t1, s2, t2, symbols, finals1, finals2, init, head, queue, order, mapped, counter,
                       states, finals, table)
    ensures (mapped.Keys == mapped0.Keys && |queue| < |queue0|) || |Pairs(s1, s2) - mapped.Keys| < |Pairs(s1, s2) - mapped0.Keys|
  {
    var current := queue0[0];
    ProductInvOpen(s1, t1, s2, t2, symbols, finals1, finals2, init, head0, queue0, order0, mapped0, counter0,
                   states0, finals0, table0);
    SymbolsStart(ProductEdge(t1, t2, symbols), s1, t1, s2, t2, finals1, finals2, init, current, head0,
                 mapped0, counter0, order0, states0, finals0, table0);
    var added;
    mapped, counter, added, order, states, finals, table :=
      PairRowOf(ProductEdge(t1, t2, symbols), s1, t1, s2, t2, symbols, finals1, finals2, init, current, head0,
                mapped0, counter0, order0, states0, finals0, table0);
    queue := queue0[1..] + added;
    ProductInvStep(s1, t1, s2, t2, symbols, finals1, finals2, init, head0, queue0, order0, mapped0, table0,
                   order, mapped, counter, added, states, finals, table);
    head := head0 + 1;
  }

  /** The state of the search once the queue is empty is the product. */
  lemma ProductInvClose(s1: set<int>, t1: Table, s2: set<int>, t2: Table, symbols: set<string>,
                        finals1: set<int>, finals2: set<int>, init: Pair,
                        head: int, queue: seq<Pair>, order: seq<Pair>, mapped: map<Pair, int>,
                        counter: int, states: set<int>, finals: set<int>, table: Table)
    requires ProductInv(s1, t1, s2, t2, symbols, finals1, finals2, init, head, queue, order, mapped, counter, states, finals, table)
    requires queue == []
    ensures Product(t1, t2, symbols, finals1, finals2, init, mapped, order, states, finals, table)
  {
    assert head == |order| && order[..head] == order;
    ProductReached(t1, t2, symbols, init, order, mapped);
    ProductClose(t1, t2, symbols, finals1, finals2, order, mapped, finals, table);
  }

  // ---------------------------------------------------------------------
  // What the product is

  /** In deterministic operands a pair reaches at most one pair on a symbol. */
  lemma PairStepsUnique(s1: set<int>, t1: Table, s2: set<int>, t2: Table, P: Pair, a: string, Q1: Pair, Q2: Pair)
    requires Operand(s1, t1) && Operand(s2, t2)
    requires Q1 in PairSteps(t1, t2, P, a) && Q2 in PairSteps(t1, t2, P, a)
    ensures Q1 == Q2
  {
    PairStepIff(t1, t2, P, a, Q1);
    PairStepIff(t1, t2, P, a, Q2);
    assert P.first in t1 && P.second in t2;
    assert Transition(a, Q1.first) == Transition(a, Q2.first);
    assert Transition(a, Q1.second) == Transition(a, Q2.second);
  }

  /**
    The pair of the least initial states is state 0; the pairs are numbered
    one-to-one onto the states; the product is well formed with state 0 as
    its only initial state, deterministic, and uses only symbols of
    `symbols`.
   */
  lemma ProductFacts(s1: set<int>, t1: Table, s2: set<int>, t2: Table, symbols: set<string>,
                     finals1: set<int>, finals2: set<int>, init: Pair,
                     mapped: map<Pair, int>, order: seq<Pair>, states: set<int>, finals: set<int>, table: Table)
    requires Operand(s1, t1) && Operand(s2, t2)
    requires Product(t1, t2, symbols, finals1, finals2, init, mapped, order, states, finals, table)
    ensures init in mapped && mapped[init] == 0
    ensures Injective(mapped) && Image(mapped, mapped.Keys) == states
    ensures WellFormed(states, {0}, finals, table) && Deterministic(table)
    ensures forall q, t :: q in table && t in table[q] ==> t.symbol in symbols
  {
    NumberedOntoRange(mapped, order, 0);
    assert order[0] == init;
    forall q, t | q in table && t in table[q] ensures t.to in states && t.symbol in symbols {
      var P := ImageWitness(mapped, mapped.Keys, q);
      assert t in ProductRow(t1, t2, symbols, mapped, P);
      var a, Q :| a in symbols && Q in PairSteps(t1, t2, P, a) && Q in mapped && t == Transition(a, mapped[Q]);
      assert mapped[Q] in Image(mapped, mapped.Keys);
    }
    forall q, u, v | q in table && u in table[q] && v in table[q] && u.symbol == v.symbol ensures u == v {
      var P := ImageWitness(mapped, mapped.Keys, q);
      assert u in ProductRow(t1, t2, symbols, mapped, P) && v in ProductRow(t1, t2, symbols, mapped, P);
      var a, Q1 :| a in symbols && Q1 in PairSteps(t1, t2, P, a) && Q1 in mapped && u == Transition(a, mapped[Q1]);
      var b, Q2 :| b in symbols && Q2 in PairSteps(t1, t2, P, b) && Q2 in mapped && v == Transition(b, mapped[Q2]);
      PairStepsUnique(s1, t1, s2, t2, P, a, Q1, Q2);
    }
  }

  /**
    The product has a transition on `a` from the state of `P` to the state
    of `Q` exactly when `a` is a symbol of the first operand's alphabet and
    each component of `P` has a transition on `a` to the matching component
    of `Q`.
   */
  lemma ProductTransitionIff(t1: Table, t2: Table, symbols: set<string>, finals1: set<int>, finals2: set<int>, init: Pair,
                             mapped: map<Pair, int>, order: seq<Pair>, states: set<int>, finals: set<int>, table: Table,
                             P: Pair, a: string, Q: Pair)
    requires Product(t1, t2, symbols, finals1, finals2, init, mapped, order, states, finals, table)
    requires P in mapped && Q in mapped
    ensures Transition(a, mapped[Q]) in Out(table, mapped[P]) <==>
      a in symbols && Transition(a, Q.first) in Out(t1, P.first) && Transition(a, Q.second) in Out(t2, P.second)
  {
    NumberIsIndex(mapped, order, 0);
    assert Out(table, mapped[P]) == ProductRow(t1, t2, symbols, mapped, P);
    PairStepIff(t1, t2, P, a, Q);
    if Transition(a, mapped[Q]) in ProductRow(t1, t2, symbols, mapped, P) {
      var b, Q' :| b in symbols && Q' in PairSteps(t1, t2, P, b) && Q' in mapped && Transition(a, mapped[Q]) == Transition(b, mapped[Q']);
      assert Q' == Q;
    }
  }

  /**
    `intersection`: the product of two deterministic automata, from the
    pair of their least initial states (`first()`, which fails on an empty
    set: `ok` is false), over the first automaton's alphabet. The result is
    a new nondeterministic automaton whose alphabet is both alphabets and
    whose only initial state is 0.
   */
  method Intersection(a1: Automaton, a2: Automaton) returns (ok: bool, result: Automaton, ghost mapped: map<Pair, int>, ghost order: seq<Pair>)
    requires a1.Valid() && a2.Valid() && Deterministic(a1.table) && Deterministic(a2.table)
    ensures ok == (a1.initials != {} && a2.initials != {})
    ensures ok ==> fresh(result) && result.kind == NFA && result.Valid() && Deterministic(result.table)
    ensures ok ==> ProductOf(a1.Contents(), a2.Contents(), mapped, order, result.Contents())
  {
    if a1.initials == {} || a2.initials == {} {
      return false, a1, map[], [];
    }
    var init := Pair(Min(a1.initials), Min(a2.initials));
    var states, finals, table;
    states, finals, table, mapped, order :=
      ProductFields(a1.states, a1.table, a2.states, a2.table, a1.alphabet, a1.finals, a2.finals, init);
    ProductFacts(a1.states, a1.table, a2.states, a2.table, a1.alphabet, a1.finals, a2.finals, init,
                 mapped, order, states, finals, table);
    result := new Automaton.Of(NFA, a1.alphabet + a2.alphabet, states, finals, {0}, table);
    ok := true;
  }

  /**
    `p` is the product of `x` and `y` from the pair of their least initial
    states, over the alphabet of `x`: the alphabets are joined and the
    state 0 is the only initial state.
   */
  ghost predicate ProductOf(x: Fields, y: Fields, mapped: map<Pair, int>, order: seq<Pair>, p: Fields) {
    && x.initials != {} && y.initials != {}
    && p.alphabet == x.alphabet + y.alphabet && p.initials == {0}
    && Product(x.table, y.table, x.alphabet, x.finals, y.finals, Pair(Min(x.initials), Min(y.initials)),
               mapped, order, p.states, p.finals, p.table)
  }

  /** The intermediate results of `perform`: both operands determinized, their product, then the last two steps. */
  datatype Stages = Stages(t1: DeterminizeTrace, d1: Fields, t2: DeterminizeTrace, d2: Fields,
                           mapped: map<Pair, int>, order: seq<Pair>, product: Fields,
                           dt: DeterminizeTrace, d: Fields, mt: MinimizeTrace)

  /**
    What `perform` computes from the fields `x1` and `x2` read, as values:
    each is determinized (`w.d1`, `w.d2`, both starting in 0), `w.product`
    is their product from the pair of initial states over the first one's
    alphabet, and `r` is that determinized and minimized.
   */
  ghost predicate IntersectedFrom(x1: Fields, x2: Fields, w: Stages, r: Fields) {
    && DeterminizedFrom(x1, w.t1, w.d1) && DeterminizedFrom(x2, w.t2, w.d2)
    && ProductOf(w.d1, w.d2, w.mapped, w.order, w.product)
    && DeterminizedFrom(w.product, w.dt, w.d) && MinimizedFrom(w.d, w.mt, r)
  }

  /**
    Both operands determinized, the first part of `perform`; it fails when
    either of them cannot be determinized.
   */
  method DeterminizeBoth(a1: Automaton, a2: Automaton)
    returns (ok: bool, d1: Automaton, d2: Automaton, ghost t1: DeterminizeTrace, ghost t2: DeterminizeTrace)
    requires a1 != a2 && a1.Valid() && a2.Valid()
    modifies a1, a2
    ensures ok == ((|old(a1.initials)| == 1 || old(a1.states) != {}) && (|old(a2.initials)| == 1 || old(a2.states) != {}))
    ensures ok && |old(a1.initials)| == 1 ==> a1.Contents() == t1.s
    ensures ok && |old(a1.initials)| != 1 ==> unchanged(a1)
    ensures ok && |old(a2.initials)| == 1 ==> a2.Contents() == t2.s
    ensures ok && |old(a2.initials)| != 1 ==> unchanged(a2)
    ensures ok ==> fresh(d1) && d1.kind == DFA && d1.Valid() && fresh(d2) && d2.kind == DFA && d2.Valid()
    ensures ok ==> DeterminizedFrom(old(a1.Contents()), t1, d1.Contents()) && DeterminizedFrom(old(a2.Contents()), t2, d2.Contents())
  {
    ghost var x2 := a2.Contents();
    ghost var s1, e1, s2, e2;
    ok, d1, s1, e1, t1 := Determinize(a1);
    if !ok {
      return false, a1, a2, t1, t1;
    }
    assert a2.Contents() == x2;
    ok, d2, s2, e2, t2 := Determinize(a2);
  }

  /**
    The product of two determinized automata, determinized and minimized:
    the part of `perform` after its operands are determinized.
   */
  method ProductThenMinimize(d1: Automaton, d2: Automaton)
    returns (r: Automaton, ghost mapped: map<Pair, int>, ghost order: seq<Pair>, ghost p: Fields,
             ghost dt: DeterminizeTrace, ghost d: Fields, ghost mt: MinimizeTrace)
    requires d1.Valid() && d2.Valid() && Deterministic(d1.table) && Deterministic(d2.table)
    requires d1.initials != {} && d2.initials != {}
    ensures fresh(r) && r.kind == DFA && r.Valid()
    ensures ProductOf(old(d1.Contents()), old(d2.Contents()), mapped, order, p)
    ensures DeterminizedFrom(p, dt, d) && MinimizedFrom(d, mt, r.Contents())
  {
    var found, product;
    found, product, mapped, order := Intersection(d1, d2);
    p := product.Contents();
    var ok;
    ok, r, dt, d, mt := DeterminizeThenMinimize(product);
  }

  /**
    `perform`: the automata read from the first two paths (fewer paths
    fail) are each determinized, intersected, and the product is
    determinized and minimized. An operand with one initial state gains in
    place the final states its epsilon closures call for.
   */
  method Perform(paths: seq<string>, a1: Automaton, a2: Automaton) returns (ok: bool, r: Automaton, ghost w: Stages)
    requires a1 != a2 && a1.Valid() && a2.Valid()
    modifies a1, a2
    ensures |paths| < 2 ==> !ok && unchanged(a1) && unchanged(a2)
    ensures ok == (&& |paths| >= 2
                   && (|old(a1.initials)| == 1 || old(a1.states) != {})
                   && (|old(a2.initials)| == 1 || old(a2.states) != {}))
    ensures ok && |old(a1.initials)| == 1 ==> a1.Contents() == w.t1.s
    ensures ok && |old(a1.initials)| != 1 ==> unchanged(a1)
    ensures ok && |old(a2.initials)| == 1 ==> a2.Contents() == w.t2.s
    ensures ok && |old(a2.initials)| != 1 ==> unchanged(a2)
    ensures ok ==> fresh(r) && r.kind == DFA && r.Valid()
    ensures ok ==> IntersectedFrom(old(a1.Contents()), old(a2.Contents()), w, r.Contents())
  {
    var x1, x2 := a1.Contents(), a2.Contents();
    ghost var none := DeterminizeTrace(x1, x1, map[], map[], []);
    w := Stages(none, x1, none, x1, map[], [], x1, none, x1,
                MinimizeTrace(x1, x1, MergeTrace(map[], [], x1, {}, map[], ({}, {}, {}, map[]), map[], [])));
    if |paths| < 2 {
      return false, a1, w;
    }
    var d1, d2;
    ghost var t1, t2;
    ok, d1, d2, t1, t2 := DeterminizeBoth(a1, a2);
    if !ok {
      return false, a1, w;
    }
    ghost var f1, f2 := d1.Contents(), d2.Contents();
    ghost var mapped, order, p, dt, d, mt;
    r, mapped, order, p, dt, d, mt := ProductThenMinimize(d1, d2);
    w := Stages(t1, f1, t2, f2, mapped, order, p, dt, d, mt);
  }
}
