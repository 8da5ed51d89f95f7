/**
  What union and concatenation share. Both first renumber the second
  operand in place past the greatest state of the first, which keeps the
  states of the two apart, and both join them with epsilon transitions:
  union from a new initial state to the initial states of both operands,
  concatenation from every final state of the first operand to the initial
  states of the second. The transitions are added one at a time with
  `computeIfAbsent(q, ...).add(...)`, which creates the entry of `q` when it
  is missing.
 */
module Linking {
  import opened Orders
  import opened Numberings
  import opened Automata

  /** An epsilon transition to each state of `targets`. */
  function EpsilonTo(targets: set<int>): set<Transition> {
    set q | q in targets :: Transition(Epsilon, q)
  }

  lemma EpsilonToAdd(s: set<int>, q: int)
    ensures EpsilonTo(s + {q}) == EpsilonTo(s) + {Transition(Epsilon, q)}
  {
  }

  /** `table` once every state of `targets` has an epsilon transition from `from` (and no other change). */
  function Linked(table: Table, from: int, targets: set<int>): Table {
    if targets == {} then table else table[from := Out(table, from) + EpsilonTo(targets)]
  }

  /** Linking changes only the row of `from`, which gains the epsilon transitions to the targets. */
  lemma LinkedRows(table: Table, from: int, targets: set<int>, q: int)
    ensures Out(Linked(table, from, targets), q) ==
              if q == from then Out(table, q) + EpsilonTo(targets) else Out(table, q)
    ensures Linked(table, from, targets).Keys == table.Keys + (if targets == {} then {} else {from})
  {
    if targets == {} {
      assert EpsilonTo(targets) == {};
    }
  }

  lemma EpsilonToUnion(a: set<int>, b: set<int>)
    ensures EpsilonTo(a + b) == EpsilonTo(a) + EpsilonTo(b)
  {
  }

  /** Linking one more target. */
  lemma LinkedAdd(table: Table, from: int, targets: set<int>, q: int)
    ensures Linked(table, from, targets + {q}) ==
              Linked(table, from, targets)[from := Out(Linked(table, from, targets), from) + {Transition(Epsilon, q)}]
  {
    EpsilonToAdd(targets, q);
    if targets == {} {
      assert targets + {q} == {q};
      assert EpsilonTo(targets) == {};
      assert EpsilonTo({q}) == {Transition(Epsilon, q)};
      assert Linked(table, from, targets) == table;
      assert Linked(table, from, {q}) == table[from := Out(table, from) + {Transition(Epsilon, q)}];
    } else {
      var once := Linked(table, from, targets);
      assert Out(once, from) + {Transition(Epsilon, q)} == Out(table, from) + EpsilonTo(targets + {q});
      assert once[from := Out(once, from) + {Transition(Epsilon, q)}] == table[from := Out(table, from) + EpsilonTo(targets + {q})];
    }
  }

  /** `table` once every state of `froms` has an epsilon transition to every state of `targets`. */
  function LinkedAll(table: Table, froms: set<int>, targets: set<int>): Table {
    if targets == {} then table
    else map q | q in table.Keys + froms :: if q in froms then Out(table, q) + EpsilonTo(targets) else table[q]
  }

  /** Linking changes exactly the rows of the linked states, and adds exactly the epsilon transitions to the targets. */
  lemma LinkedAllRows(table: Table, froms: set<int>, targets: set<int>, q: int)
    ensures Out(LinkedAll(table, froms, targets), q) ==
              if q in froms then Out(table, q) + EpsilonTo(targets) else Out(table, q)
    ensures q in LinkedAll(table, froms, targets) <==> q in table || (q in froms && targets != {})
  {
  }

  /** Linking one more state. */
  lemma LinkedAllAdd(table: Table, froms: set<int>, targets: set<int>, f: int)
    ensures LinkedAll(table, froms + {f}, targets) == Linked(LinkedAll(table, froms, targets), f, targets)
  {
    if targets != {} {
      var l, r := LinkedAll(table, froms + {f}, targets), Linked(LinkedAll(table, froms, targets), f, targets);
      assert l.Keys == r.Keys;
      forall q | q in l ensures l[q] == r[q] {
        LinkedAllRows(table, froms + {f}, targets, q);
        LinkedAllRows(table, froms, targets, q);
      }
    }
  }

  /**
    The inner loop of both operations: an epsilon transition from `from` to
    each state of `targets`, taken in ascending order.
   */
  method AddEpsilonEdges(table0: Table, from: int, targets: set<int>) returns (table: Table)
    ensures table == Linked(table0, from, targets)
  {
    table := table0;
    var rest := targets;
    assert targets - rest == {};
    while rest != {}
      invariant rest <= targets
      invariant table == Linked(table0, from, targets - rest)
      decreases rest
    {
      var q := Min(rest);
      LinkedAdd(table0, from, targets - rest, q);
      assert (targets - rest) + {q} == targets - (rest - {q});
      table := table[from := Out(table, from) + {Transition(Epsilon, q)}];
      rest := rest - {q};
    }
    assert targets - rest == targets;
  }

  /**
    The loop of concatenation: every state of `froms`, in ascending order,
    gains an epsilon transition to every state of `targets`. `shared0` holds
    the rows that the table shares with another object (the first operand's
    own table, whose sets `putAll` copied by reference): a row that exists
    there changes there as well.
   */
  method LinkStates(table0: Table, shared0: Table, froms: set<int>, targets: set<int>)
    returns (table: Table, shared: Table)
    ensures table == LinkedAll(table0, froms, targets)
    ensures shared == LinkedAll(shared0, froms * shared0.Keys, targets)
  {
    table, shared := table0, shared0;
    var rest := froms;
    while rest != {}
      invariant rest <= froms
      invariant table == LinkedAll(table0, froms - rest, targets)
      invariant shared == LinkedAll(shared0, (froms - rest) * shared0.Keys, targets)
      decreases rest
    {
      var f := Min(rest);
      LinkedAllAdd(table0, froms - rest, targets, f);
      assert (froms - rest) + {f} == froms - (rest - {f});
      table := AddEpsilonEdges(table, f, targets);
      if f in shared {
        LinkedAllAdd(shared0, (froms - rest) * shared0.Keys, targets, f);
        assert (froms - rest) * shared0.Keys + {f} == (froms - (rest - {f})) * shared0.Keys;
        shared := AddEpsilonEdges(shared, f, targets);
      } else {
        assert f !in shared0;
        assert (froms - rest) * shared0.Keys == (froms - (rest - {f})) * shared0.Keys;
      }
      rest := rest - {f};
    }
    assert froms - rest == froms;
  }

  /** Some initial state is final: the test `initials.stream().anyMatch(finals::contains)`. */
  predicate StartsAccepting(initials: set<int>, finals: set<int>) {
    initials * finals != {}
  }

  /** Renumbering the second operand from one past the greatest state of the first keeps the two apart. */
  ghost predicate Apart(x: Fields, y: Fields) {
    && WellFormedFields(x) && WellFormedFields(y) && x.states != {}
    && forall q :: q in y.states ==> Max(x.states) < q
  }

  /**
    `y` holds the fields of `x2` renumbered breadth first (`m`, in the order
    `order`) from one past the greatest state of `x1`.
   */
  ghost predicate RenamedPast(x1: Fields, x2: Fields, m: map<int, int>, order: seq<int>, y: Fields) {
    && x1.states != {}
    && y.alphabet == x2.alphabet
    && Renumbered(Max(x1.states) + 1, m, order, x2.states, x2.initials, x2.finals, x2.table,
                  y.states, y.initials, y.finals, y.table)
  }

  /** Renumbering past `start` puts every state at or above `start`. */
  lemma RenumberedFrom(start: int, m: map<int, int>, order: seq<int>,
                       states: set<int>, initials: set<int>, finals: set<int>, table: Table,
                       states': set<int>, initials': set<int>, finals': set<int>, table': Table)
    requires Renumbered(start, m, order, states, initials, finals, table, states', initials', finals', table')
    ensures |states'| == |states| && forall q :: q in states' ==> start <= q
    ensures StartsAccepting(initials', finals') <==> StartsAccepting(initials, finals)
  {
    RenumberingInjective(m, states, start);
    InjectiveMeets(m, initials, finals);
  }

  /**
    Renumbers the second automaton in place from one past the greatest state
    of the first: fails, changing nothing, when the first has no state or
    the second no initial state.
   */
  method RenamePast(a1: Automaton, a2: Automaton) returns (ok: bool, ghost m: map<int, int>, ghost order: seq<int>)
    requires a1 != a2 && a1.Valid() && a2.Valid()
    modifies a2
    ensures ok == (old(a1.states) != {} && old(a2.initials) != {})
    ensures !ok ==> unchanged(a2)
    ensures ok ==> a2.Valid() && RenamedPast(old(a1.Contents()), old(a2.Contents()), m, order, a2.Contents())
    ensures ok ==> Apart(a1.Contents(), a2.Contents())
  {
    if a1.states == {} {
      return false, map[], [];
    }
    ghost var x1, x2 := a1.Contents(), a2.Contents();
    var start := Max(a1.states) + 1;
    ok, m, order := a2.Rename(start);
    if ok {
      ghost var y := a2.Contents();
      RenumberedFrom(start, m, order, x2.states, x2.initials, x2.finals, x2.table, y.states, y.initials, y.finals, y.table);
      assert RenamedPast(x1, x2, m, order, y);
    }
  }
}
