/**
  The automaton value shared by the deterministic and the nondeterministic
  variant: five mutable fields (alphabet, states, final states, initial
  states, transition table), an in-place renumbering `Rename` and `Clear`.
  Both variants have the same fields and the same code; they differ only in
  the type tag they report, which is `kind` here.
 */
module Automata {
  import opened Orders
  import opened Graphs
  import opened Numberings

  /** A transition: the symbol it is taken on and the state it leads to. */
  datatype Transition = Transition(symbol: string, to: int)

  /** The two automaton types. */
  datatype Kind = NFA | DFA

  /** The symbol reserved for epsilon transitions. */
  const Epsilon: string := "*"

  /** The transition table: a state's outgoing transitions. */
  type Table = map<int, set<Transition>>

  /** The transitions leaving `q`, empty when `q` has no entry (`getOrDefault`). */
  function Out(table: Table, q: int): set<Transition> {
    if q in table then table[q] else {}
  }

  function Successors(table: Table, q: int): set<int> {
    set t | t in Out(table, q) :: t.to
  }

  /** The edge relation of a table, for reachability. */
  ghost function Edge(table: Table): iset<(int, int)> {
    iset e: (int, int) | e.1 in Successors(table, e.0)
  }

  /** The symbols the transitions of `ts` are taken on. */
  function Labels(ts: set<Transition>): set<string> {
    set t | t in ts :: t.symbol
  }

  /** No state has two transitions on the same symbol. */
  ghost predicate Deterministic(table: Table) {
    forall q, t1, t2 :: q in table && t1 in table[q] && t2 in table[q] && t1.symbol == t2.symbol ==> t1 == t2
  }

  ghost predicate EpsilonFree(table: Table) {
    forall q, t :: q in table && t in table[q] ==> t.symbol != Epsilon
  }

  /**
    The shape every automaton built by the system has: states are
    non-negative, and initial states, final states, table entries and
    transition destinations all name states.
   */
  ghost predicate WellFormed(states: set<int>, initials: set<int>, finals: set<int>, table: Table) {
    && (forall q :: q in states ==> 0 <= q)
    && initials <= states
    && finals <= states
    && table.Keys <= states
    && (forall q, t :: q in table && t in table[q] ==> t.to in states)
  }

  /** A transition set with every destination renumbered; symbols kept. */
  function RenameTransitions(ts: set<Transition>, m: map<int, int>): (r: set<Transition>)
    requires forall t :: t in ts ==> t.to in m
  {
    set t {:trigger t in ts} | t in ts :: Transition(t.symbol, m[t.to])
  }

  /**
    A table with both sources and destinations renumbered. The mapping
    must not number two states alike; it is given here by counting (as many
    numbers as numbered states), which implies that.
   */
  function RenameTable(table: Table, m: map<int, int>): (r: Table)
    requires table.Keys <= m.Keys
    requires forall q, t :: q in table && t in table[q] ==> t.to in m
    requires |Image(m, m.Keys)| == |m.Keys|
  {
    CountedInjective(m);
    map q | q in table :: m[q] := RenameTransitions(table[q], m)
  }

  /** The five mutable fields of an automaton, as one value. */
  datatype Fields = Fields(alphabet: set<string>, states: set<int>, initials: set<int>, finals: set<int>, table: Table)

  /** The contents of an automaton are well formed. */
  ghost predicate WellFormedFields(x: Fields) {
    WellFormed(x.states, x.initials, x.finals, x.table)
  }

  /**
    An automaton object. The type tag is fixed at construction; the other
    five fields are updated in place by `Rename`, `Clear` and by callers
    that fill them.
   */
  class Automaton {
    const kind: Kind
    var alphabet: set<string>
    var states: set<int>
    var finals: set<int>
    var initials: set<int>
    var table: Table

    ghost predicate Valid()
      reads this
    {
      WellFormed(states, initials, finals, table)
    }

    function Contents(): Fields
      reads this
    {
      Fields(alphabet, states, initials, finals, table)
    }

    /** An empty automaton of the given type. */
    constructor (kind: Kind)
      ensures this.kind == kind
      ensures alphabet == {} && states == {} && finals == {} && initials == {} && table == map[]
      ensures Valid()
    {
      this.kind := kind;
      alphabet, states, finals, initials, table := {}, {}, {}, {}, map[];
    }

    /**
      A new automaton of the given type whose empty fields have been filled
      with the given contents (`addAll` and `putAll` on a fresh object).
     */
    constructor Of(kind: Kind, alphabet: set<string>, states: set<int>, finals: set<int>, initials: set<int>, table: Table)
      ensures this.kind == kind
      ensures this.alphabet == alphabet && this.states == states && this.finals == finals
      ensures this.initials == initials && this.table == table
    {
      this.kind := kind;
      this.alphabet, this.states, this.finals, this.initials, this.table := alphabet, states, finals, initials, table;
    }

    /** Replaces the states, the initial and final states and the table. */
    method SetFields(states: set<int>, initials: set<int>, finals: set<int>, table: Table)
      requires WellFormed(states, initials, finals, table)
      modifies this
      ensures this.states == states && this.initials == initials && this.finals == finals && this.table == table
      ensures alphabet == old(alphabet) && Valid()
    {
      this.states, this.initials, this.finals, this.table := states, initials, finals, table;
    }

    /** Replaces the transition table only. */
    method SetTable(table: Table)
      modifies this
      ensures this.table == table
      ensures alphabet == old(alphabet) && states == old(states) && initials == old(initials) && finals == old(finals)
    {
      this.table := table;
    }

    /** Removes all data: every field becomes empty. */
    method Clear()
      modifies this
      ensures alphabet == {} && states == {} && finals == {} && initials == {} && table == map[]
      ensures Valid()
    {
      alphabet, states, finals, initials, table := {}, {}, {}, {}, map[];
    }

    /**
      Renumbers the states from `start` on. A breadth-first search from the
      least initial state numbers the states it reaches in discovery order;
      the states it does not reach follow in ascending order. Every field is
      carried over through the same mapping `m`; `order` lists the old states
      by their new numbers. With no initial state the source fails on
      `first()` before changing anything: `ok` is false.
     */
    method Rename(start: int) returns (ok: bool, ghost m: map<int, int>, ghost order: seq<int>)
      requires Valid() && 0 <= start
      modifies this
      ensures ok == (old(initials) != {})
      ensures !ok ==> unchanged(this)
      ensures ok ==> alphabet == old(alphabet)
      ensures ok ==> Renumbered(start, m, order, old(states), old(initials), old(finals), old(table),
                                states, initials, finals, table)
      ensures Valid()
    {
      if initials == {} {
        ok, m, order := false, map[], [];
        return;
      }
      ok := true;
      var newStates, newInitials, newFinals, newTable;
      m, order, newStates, newInitials, newFinals, newTable := RenameFields(start, states, initials, finals, table);
      var newAlphabet := alphabet;
      Clear();
      alphabet := newAlphabet;
      SetFields(newStates, newInitials, newFinals, newTable);
    }
  }

  /** Renumbering states one-to-one keeps a deterministic table deterministic. */
  lemma RenamedDeterministic(table: Table, m: map<int, int>)
    requires table.Keys <= m.Keys
    requires forall q, t :: q in table && t in table[q] ==> t.to in m
    requires |Image(m, m.Keys)| == |m.Keys|
    requires Deterministic(table)
    ensures Deterministic(RenameTable(table, m))
  {
    CountedInjective(m);
    var r: Table := RenameTable(table, m);
    forall q, t1: Transition, t2: Transition | q in r && t1 in r[q] && t2 in r[q] && t1.symbol == t2.symbol ensures t1 == t2 {
      var p :| p in table && m[p] == q;
      assert r[q] == RenameTransitions(table[p], m);
      var u1 :| u1 in table[p] && t1 == Transition(u1.symbol, m[u1.to]);
      var u2 :| u2 in table[p] && t2 == Transition(u2.symbol, m[u2.to]);
    }
  }

  /**
    `m` numbers `states` one-to-one with the integers from `start` up to
    `start + |states|`, so that they form exactly that range.
   */
  ghost predicate Renumbering(m: map<int, int>, states: set<int>, start: int) {
    && m.Keys == states
    && (forall q :: q in m ==> start <= m[q] < start + |states|)
    && Image(m, states) == Range(start, start + |states|)
  }

  /** A renumbering onto a range of `|states|` integers numbers no two states alike. */
  lemma RenumberingInjective(m: map<int, int>, states: set<int>, start: int)
    requires Renumbering(m, states, start)
    ensures Injective(m)
  {
    CountedInjective(m);
  }

  /**
    The order `Rename` numbers states in, read off the list of old states by
    new number: it starts at `root`; the states reachable from `root` come
    first, each after some state with an edge to it; the states not
    reachable follow in ascending order. The queue makes the reachable part
    first-in first-out: of two reachable states, the one listed first has
    its first predecessor in the list no later than the other has any.
    Only the order among the successors of one state is left open (the
    source takes them from a `HashSet`).
   */
  ghost predicate BreadthFirstOrder(order: seq<int>, table: Table, root: int) {
    && |order| > 0 && order[0] == root
    && (forall i, j {:trigger Reachable(Edge(table), root, order[i]), Reachable(Edge(table), root, order[j])} ::
          0 <= i < j < |order| && Reachable(Edge(table), root, order[j]) ==> Reachable(Edge(table), root, order[i]))
    && (forall i {:trigger Reachable(Edge(table), root, order[i])} ::
          0 < i < |order| && Reachable(Edge(table), root, order[i]) ==>
          exists j :: 0 <= j < i && order[i] in Successors(table, order[j]))
    && (forall i, j {:trigger Reachable(Edge(table), root, order[i]), order[j]} ::
          0 <= i < j < |order| && !Reachable(Edge(table), root, order[i]) ==> order[i] < order[j])
    && FirstInFirstOut(order, table, root)
  }

  /** Some state listed at or before `j` has an edge to `order[i]`. */
  ghost predicate FedBy(order: seq<int>, table: Table, i: int, j: int)
    requires 0 <= i < |order|
  {
    exists p :: 0 <= p <= j && p < |order| && order[i] in Successors(table, order[p])
  }

  /**
    The queue discipline of the search: for reachable states listed at
    `i < k` (not the root), every state with an edge to `order[k]` is
    listed no earlier than the first one with an edge to `order[i]`.
   */
  ghost predicate FirstInFirstOut(order: seq<int>, table: Table, root: int) {
    forall i, k, j {:trigger FedBy(order, table, i, j), Reachable(Edge(table), root, order[k])} ::
      (0 < i < k < |order| && 0 <= j < |order| && Reachable(Edge(table), root, order[k]) &&
       order[k] in Successors(table, order[j])) ==> FedBy(order, table, i, j)
  }

  /**
    The search's record of where each listed state was found: `parent[i]` is
    the first state of the list with an edge to `order[i]`, below `bound`,
    and these first predecessors never decrease along the list.
   */
  ghost predicate FirstParents(order: seq<int>, table: Table, parent: seq<int>, bound: int) {
    && |parent| == |order|
    && (forall i :: 0 < i < |order| ==>
          0 <= parent[i] < bound && parent[i] < i && order[i] in Successors(table, order[parent[i]]))
    && (forall i, j :: 0 < i < |order| && 0 <= j < parent[i] ==> order[i] !in Successors(table, order[j]))
    && (forall i, k :: 0 < i < k < |order| ==> parent[i] <= parent[k])
  }

  /** A state found from `order[head]`, and from no state expanded before it, gets `head` as its first predecessor. */
  lemma ParentAdded(order0: seq<int>, order: seq<int>, table: Table, parent: seq<int>, head: int,
                    keys0: set<int>, keys: set<int>, x: int)
    requires FirstParents(order, table, parent, head + 1)
    requires 0 <= head < |order0| && |order0| <= |order| && order[..|order0|] == order0
    requires Expanded(table, order0, head, keys0) && keys0 <= keys && x !in keys
    requires x in Successors(table, order[head])
    ensures FirstParents(order + [x], table, parent + [head], head + 1)
  {
    var o, p := order + [x], parent + [head];
    forall i | 0 < i < |o| ensures 0 <= p[i] < head + 1 && p[i] < i && o[i] in Successors(table, o[p[i]]) {
      if i < |order| {
        assert o[i] == order[i] && p[i] == parent[i] && o[parent[i]] == order[parent[i]];
      } else {
        assert o[head] == order[head];
      }
    }
    forall i, j | 0 < i < |o| && 0 <= j < p[i] ensures o[i] !in Successors(table, o[j]) {
      if i < |order| {
        assert o[i] == order[i] && p[i] == parent[i] && o[j] == order[j];
      } else {
        assert o[j] == order0[j];
        assert Successors(table, order0[j]) <= keys0;
      }
    }
  }

  /** The queue discipline, from the first predecessors the search recorded. */
  lemma ParentsGiveOrder(order: seq<int>, reached: seq<int>, table: Table, root: int, parent: seq<int>)
    requires |reached| <= |order| && order[..|reached|] == reached
    requires FirstParents(reached, table, parent, |reached|)
    requires forall i :: 0 <= i < |order| && Reachable(Edge(table), root, order[i]) ==> i < |reached|
    ensures FirstInFirstOut(order, table, root)
  {
    forall i, k, j | 0 < i < k < |order| && 0 <= j < |order| && Reachable(Edge(table), root, order[k]) &&
                     order[k] in Successors(table, order[j])
      ensures FedBy(order, table, i, j)
    {
      assert k < |reached| && order[k] == reached[k] && order[i] == reached[i];
      assert j < |reached| ==> order[j] == reached[j];
      assert parent[i] <= parent[k] <= j;
      assert order[parent[i]] == reached[parent[i]];
      assert order[i] in Successors(table, order[parent[i]]);
    }
  }

  /** Renumbering a well-formed automaton from a non-negative start keeps it well formed. */
  lemma RenamedWellFormed(m: map<int, int>, start: int, states: set<int>, initials: set<int>, finals: set<int>, table: Table)
    requires WellFormed(states, initials, finals, table) && Renumbering(m, states, start) && 0 <= start
    ensures WellFormed(Image(m, states), Image(m, initials), Image(m, finals), RenameTable(table, m))
  {
    RenumberingInjective(m, states, start);
    var r := RenameTable(table, m);
    forall q: int, t: Transition | q in r && t in r[q] ensures t.to in Image(m, states) {
      var p :| p in table.Keys && m[p] == q;
      var u :| u in table[p] && t == Transition(u.symbol, m[u.to]);
    }
  }

  /**
    `states'`, `initials'`, `finals'` and `table'` are the well-formed fields
    `states`, `initials`, `finals` and `table` with every state renumbered by
    `m` from `start`: `order` lists the old states by their new numbers, in
    the breadth-first order from the least initial state.
   */
  ghost predicate Renumbered(start: int, m: map<int, int>, order: seq<int>,
                             states: set<int>, initials: set<int>, finals: set<int>, table: Table,
                             states': set<int>, initials': set<int>, finals': set<int>, table': Table) {
    && WellFormed(states, initials, finals, table) && initials != {}
    && Renumbering(m, states, start)
    && MappedInOrder(m, order, start, start + |states|, states)
    && BreadthFirstOrder(order, table, Min(initials))
    && states' == Range(start, start + |states|)
    && initials' == Image(m, initials) && finals' == Image(m, finals)
    && table' == RenameTable(table, m)
  }

  /** Renumbering an automaton with a single initial state makes `start` its only initial state. */
  lemma RenumberedSingleInitial(start: int, m: map<int, int>, order: seq<int>,
                                states: set<int>, initials: set<int>, finals: set<int>, table: Table,
                                states': set<int>, initials': set<int>, finals': set<int>, table': Table)
    requires Renumbered(start, m, order, states, initials, finals, table, states', initials', finals', table')
    requires |initials| == 1
    ensures initials' == {start}
  {
    var x := Min(initials);
    assert initials == {x} by {
      forall y | y in initials ensures y == x {
        if y != x { assert |{x, y}| == 2; SubsetCard({x, y}, initials); }
      }
    }
    assert order[0] == x && m[order[0]] == start;
  }

  /** The new values of the renamed fields, computed from the old ones. */
  method RenameFields(start: int, states: set<int>, initials: set<int>, finals: set<int>, table: Table)
    returns (m: map<int, int>, ghost order: seq<int>, states': set<int>, initials': set<int>, finals': set<int>, table': Table)
    requires WellFormed(states, initials, finals, table) && initials != {} && 0 <= start
    ensures Renumbered(start, m, order, states, initials, finals, table, states', initials', finals', table')
    ensures WellFormed(states', initials', finals', table')
  {
    m, order := Renumber(table, states, Min(initials), start);
    RenamedWellFormed(m, start, states, initials, finals, table);
    states' := Image(m, states);
    initials' := Image(m, initials);
    finals' := Image(m, finals);
    table' := RenameTable(table, m);
  }

  /**
    The mapping `Rename` carries every field through: the search from
    `root` followed by the ascending pass over the states it missed.
   */
  method Renumber(table: Table, states: set<int>, root: int, start: int)
    returns (mapped: map<int, int>, ghost order: seq<int>)
    requires root in states
    requires forall q, t :: q in table && t in table[q] ==> t.to in states
    ensures Renumbering(mapped, states, start)
    ensures MappedInOrder(mapped, order, start, start + |states|, states)
    ensures BreadthFirstOrder(order, table, root)
  {
    var counter;
    ghost var parent;
    mapped, counter, order, parent := NumberReachable(table, states, root, start);
    ghost var reached := order;
    mapped, counter, order := NumberRest(states, start, mapped, counter, order);
    RenameFacts(table, root, reached, parent, order, mapped, start, states);
  }

  /**
    The first pass of renumbering: a breadth-first search from `root` gives
    every state it discovers the next number, starting at `start`. The
    states numbered are exactly those reachable from `root`, each discovered
    from one numbered before it; `parent` records, for each, the first
    numbered state with an edge to it, and these never decrease.
   */
  method NumberReachable(table: Table, states: set<int>, root: int, start: int)
    returns (mapped: map<int, int>, counter: int, ghost order: seq<int>, ghost parent: seq<int>)
    requires root in states
    requires forall q, t :: q in table && t in table[q] ==> t.to in states
    ensures MappedInOrder(mapped, order, start, counter, states)
    ensures DiscoveredFrom(Edge(table), root, order)
    ensures forall q :: q in mapped <==> Reachable(Edge(table), root, q)
    ensures FirstParents(order, table, parent, |order|)
  {
    mapped := map[root := start];
    counter := start + 1;
    var queue := [root];
    order := [root];
    parent := [0];
    ghost var head := 0;
    while queue != []
      invariant 0 <= head <= |order| && queue == order[head..]
      invariant MappedInOrder(mapped, order, start, counter, states)
      invariant DiscoveredFrom(Edge(table), root, order)
      invariant mapped.Keys <= states
      invariant Expanded(table, order, head, mapped.Keys)
      invariant FirstParents(order, table, parent, head)
      decreases |states - mapped.Keys|, |queue|
    {
      var current := queue[0];
      ghost var mapped0, order0 := mapped, order;
      var added;
      mapped, counter, added, order, parent :=
        NumberSuccessors(table, states, root, start, current, head, mapped, counter, order, parent);
      ExpandStep(table, states, head, order0, mapped0.Keys, order, mapped.Keys, added);
      queue := queue[1..] + added;
      head := head + 1;
    }
    ReachedIsReachable(table, root, order, mapped);
  }

  /**
    One step of the search: numbers, in the table's order, the successors of
    `order[head]` that have no number yet, and returns them for the queue.
   */
  method NumberSuccessors(table: Table, states: set<int>, ghost root: int, ghost start: int, current: int,
                          ghost head: int, mapped0: map<int, int>, counter0: int, ghost order0: seq<int>,
                          ghost parent0: seq<int>)
    returns (mapped: map<int, int>, counter: int, added: seq<int>, ghost order: seq<int>, ghost parent: seq<int>)
    requires 0 <= head < |order0| && order0[head] == current
    requires forall q, t :: q in table && t in table[q] ==> t.to in states
    requires MappedInOrder(mapped0, order0, start, counter0, states)
    requires DiscoveredFrom(Edge(table), root, order0)
    requires mapped0.Keys <= states
    requires Expanded(table, order0, head, mapped0.Keys) && FirstParents(order0, table, parent0, head)
    ensures FirstParents(order, table, parent, head + 1)
    ensures MappedInOrder(mapped, order, start, counter, states)
    ensures DiscoveredFrom(Edge(table), root, order)
    ensures order == order0 + added
    ensures mapped0.Keys <= mapped.Keys <= states
    ensures added == [] ==> mapped == mapped0
    ensures forall i :: 0 <= i < |added| ==> added[i] in mapped && added[i] !in mapped0
    ensures Successors(table, current) <= mapped.Keys
  {
    mapped, counter, added, order, parent := mapped0, counter0, [], order0, parent0;
    var transitions := Out(table, current);
    ghost var all := transitions;
    assert order0 + [] == order0;
    while transitions != {}
      invariant transitions <= all
      invariant SuccessorsSoFar(table, states, root, start, head, mapped0, order0, mapped, counter, order, added, parent)
      invariant forall t :: t in all - transitions ==> t.to in mapped
      decreases transitions
    {
      var t :| t in transitions;
      transitions := transitions - {t};
      if t.to !in mapped {
        assert t.to in Successors(table, current);
        SuccessorNumbered(table, states, root, start, head, current, mapped0, order0, mapped, counter, order, added, parent, t.to);
        parent := parent + [head];
        mapped := mapped[t.to := counter];
        counter := counter + 1;
        added := added + [t.to];
        order := order + [t.to];
      }
    }
    forall q | q in Successors(table, current) ensures q in mapped {
      var t :| t in all && t.to == q;
    }
  }

  /** The bookkeeping of one step of the search that started from `mapped0` and `order0`. */
  ghost predicate SuccessorsSoFar(table: Table, states: set<int>, root: int, start: int, head: int,
                                  mapped0: map<int, int>, order0: seq<int>,
                                  mapped: map<int, int>, counter: int, order: seq<int>, added: seq<int>,
                                  parent: seq<int>) {
    && NumberedSoFar(table, states, root, start, mapped0, order0, mapped, counter, order, added)
    && FirstParents(order, table, parent, head + 1)
  }

  /** The numbers given so far by one step of the search. */
  ghost predicate NumberedSoFar(table: Table, states: set<int>, root: int, start: int,
                                mapped0: map<int, int>, order0: seq<int>,
                                mapped: map<int, int>, counter: int, order: seq<int>, added: seq<int>) {
    && MappedInOrder(mapped, order, start, counter, states)
    && DiscoveredFrom(Edge(table), root, order)
    && order == order0 + added
    && mapped0.Keys <= mapped.Keys <= states
    && (added == [] ==> mapped == mapped0)
    && (forall i :: 0 <= i < |added| ==> added[i] in mapped && added[i] !in mapped0)
  }

  /** Numbering a successor of `order0[head]` that has no number yet keeps the bookkeeping. */
  lemma SuccessorNumbered(table: Table, states: set<int>, root: int, start: int, head: int, current: int,
                          mapped0: map<int, int>, order0: seq<int>,
                          mapped: map<int, int>, counter: int, order: seq<int>, added: seq<int>, parent: seq<int>,
                          x: int)
    requires SuccessorsSoFar(table, states, root, start, head, mapped0, order0, mapped, counter, order, added, parent)
    requires 0 <= head < |order0| && order0[head] == current && Expanded(table, order0, head, mapped0.Keys)
    requires x !in mapped && x in states && x in Successors(table, current)
    ensures SuccessorsSoFar(table, states, root, start, head, mapped0, order0,
                            mapped[x := counter], counter + 1, order + [x], added + [x], parent + [head])
  {
    NumberedNext(table, states, root, start, head, current, mapped0, order0, mapped, counter, order, added, x);
    assert order[..|order0|] == order0;
    ParentAdded(order0, order, table, parent, head, mapped0.Keys, mapped.Keys, x);
  }

  /** Numbering a successor of `order0[head]` that has no number yet keeps the numbers in order. */
  lemma NumberedNext(table: Table, states: set<int>, root: int, start: int, head: int, current: int,
                     mapped0: map<int, int>, order0: seq<int>,
                     mapped: map<int, int>, counter: int, order: seq<int>, added: seq<int>, x: int)
    requires NumberedSoFar(table, states, root, start, mapped0, order0, mapped, counter, order, added)
    requires 0 <= head < |order0| && order0[head] == current
    requires x !in mapped && x in states && x in Successors(table, current)
    ensures NumberedSoFar(table, states, root, start, mapped0, order0,
                          mapped[x := counter], counter + 1, order + [x], added + [x])
  {
    assert order[head] == current;
    assert (order[head], x) in Edge(table);
    MappedExtend(mapped, order, start, counter, states, x);
    DiscoveredExtend(Edge(table), root, order, head, x);
    var a, m := added + [x], mapped[x := counter];
    assert order + [x] == order0 + a;
    assert mapped0.Keys <= m.Keys <= states;
    forall i | 0 <= i < |a| ensures a[i] in m && a[i] !in mapped0 {
      if i < |added| {
        assert a[i] == added[i];
      }
    }
  }

  /**
    The second pass of renumbering: the states without a number get the
    next numbers, in ascending order.
   */
  method NumberRest(states: set<int>, start: int, mapped0: map<int, int>, counter0: int, ghost order0: seq<int>)
    returns (mapped: map<int, int>, counter: int, ghost order: seq<int>)
    requires MappedInOrder(mapped0, order0, start, counter0, states)
    ensures MappedInOrder(mapped, order, start, counter, states)
    ensures mapped.Keys == states
    ensures |order0| <= |order| && order[..|order0|] == order0
    ensures forall i :: |order0| <= i < |order| ==> order[i] !in mapped0
    ensures forall i, j :: |order0| <= i < j < |order| ==> order[i] < order[j]
  {
    mapped, counter, order := mapped0, counter0, order0;
    var rest := states;
    while rest != {}
      invariant RestSoFar(states, start, mapped0, order0, rest, mapped, counter, order)
      decreases rest
    {
      var s := Min(rest);
      if s !in mapped {
        RestTaken(states, start, mapped0, order0, rest, mapped, counter, order, s);
        mapped := mapped[s := counter];
        counter := counter + 1;
        order := order + [s];
      } else {
        RestSkipped(states, start, mapped0, order0, rest, mapped, counter, order, s);
      }
      rest := rest - {s};
    }
    RestDone(states, start, mapped0, order0, mapped, counter, order);
  }

  /**
    The bookkeeping of the second pass: the states taken so far (those not
    in `rest`) all have numbers, and the states numbered in this pass come
    after `order0`, ascending and below every state still to take.
   */
  ghost predicate RestSoFar(states: set<int>, start: int, mapped0: map<int, int>, order0: seq<int>,
                            rest: set<int>, mapped: map<int, int>, counter: int, order: seq<int>) {
    && rest <= states
    && |order0| <= |order| && order[..|order0|] == order0
    && MappedInOrder(mapped, order, start, counter, states)
    && mapped0.Keys <= mapped.Keys
    && (forall q :: q in states && q !in rest ==> q in mapped)
    && (forall i :: |order0| <= i < |order| ==> order[i] !in mapped0)
    && (forall i, j :: |order0| <= i < j < |order| ==> order[i] < order[j])
    && (forall i, x :: |order0| <= i < |order| && x in rest ==> order[i] < x)
  }

  /** Taking the least remaining state, which already has a number. */
  lemma RestSkipped(states: set<int>, start: int, mapped0: map<int, int>, order0: seq<int>,
                    rest: set<int>, mapped: map<int, int>, counter: int, order: seq<int>, s: int)
    requires RestSoFar(states, start, mapped0, order0, rest, mapped, counter, order)
    requires s in rest && s in mapped && forall x :: x in rest ==> s <= x
    ensures RestSoFar(states, start, mapped0, order0, rest - {s}, mapped, counter, order)
  {
  }

  /** Taking the least remaining state, which gets the next number. */
  lemma RestTaken(states: set<int>, start: int, mapped0: map<int, int>, order0: seq<int>,
                  rest: set<int>, mapped: map<int, int>, counter: int, order: seq<int>, s: int)
    requires RestSoFar(states, start, mapped0, order0, rest, mapped, counter, order)
    requires s in rest && s !in mapped && forall x :: x in rest ==> s <= x
    ensures RestSoFar(states, start, mapped0, order0, rest - {s}, mapped[s := counter], counter + 1, order + [s])
  {
    MappedExtend(mapped, order, start, counter, states, s);
    AppendAbove(mapped0, order0, rest, order, s);
  }

  /** Appending the least remaining state keeps the second pass's part of `order` ascending and below the rest. */
  lemma AppendAbove(mapped0: map<int, int>, order0: seq<int>, rest: set<int>, order: seq<int>, s: int)
    requires |order0| <= |order| && order[..|order0|] == order0
    requires forall i :: |order0| <= i < |order| ==> order[i] !in mapped0
    requires forall i, j :: |order0| <= i < j < |order| ==> order[i] < order[j]
    requires forall i, x :: |order0| <= i < |order| && x in rest ==> order[i] < x
    requires s in rest && s !in mapped0 && forall x :: x in rest ==> s <= x
    ensures var o := order + [s];
      && o[..|order0|] == order0
      && (forall i :: |order0| <= i < |o| ==> o[i] !in mapped0)
      && (forall i, j :: |order0| <= i < j < |o| ==> o[i] < o[j])
      && (forall i, x :: |order0| <= i < |o| && x in rest - {s} ==> o[i] < x)
  {
    var o := order + [s];
    assert o[..|order0|] == order0 by {
      assert o[..|order|] == order;
    }
    forall i | |order0| <= i < |o| ensures o[i] !in mapped0 {
      if i < |order| {
        assert o[i] == order[i];
      }
    }
    forall i, j | |order0| <= i < j < |o| ensures o[i] < o[j] {
      if j < |order| {
        assert o[i] == order[i] && o[j] == order[j];
      } else {
        assert o[i] == order[i] && o[j] == s;
      }
    }
    forall i, x | |order0| <= i < |o| && x in rest - {s} ensures o[i] < x {
      if i < |order| {
        assert o[i] == order[i];
      }
    }
  }

  /** Once every state is taken, every state has a number and nothing else does. */
  lemma RestDone(states: set<int>, start: int, mapped0: map<int, int>, order0: seq<int>,
                 mapped: map<int, int>, counter: int, order: seq<int>)
    requires RestSoFar(states, start, mapped0, order0, {}, mapped, counter, order)
    ensures mapped.Keys == states
  {
    forall q | q in mapped ensures q in states {
      var i :| 0 <= i < |order| && order[i] == q;
    }
    forall q | q in states ensures q in mapped {
      assert q !in {};
    }
  }

  /** The successors of the first `head` states of `order` all lie in `keys`. */
  ghost predicate Expanded(table: Table, order: seq<int>, head: int, keys: set<int>) {
    forall i :: 0 <= i < head && i < |order| ==> Successors(table, order[i]) <= keys
  }

  /** What one step of the search keeps: the queue, the expanded prefix and the measure. */
  lemma ExpandStep(table: Table, states: set<int>, head: int, order0: seq<int>, keys0: set<int>,
                   order: seq<int>, keys: set<int>, added: seq<int>)
    requires 0 <= head < |order0| && order == order0 + added
    requires Expanded(table, order0, head, keys0) && Successors(table, order0[head]) <= keys
    requires keys0 <= keys <= states
    requires added == [] ==> keys == keys0
    requires forall i :: 0 <= i < |added| ==> added[i] in keys && added[i] !in keys0
    ensures order[head + 1..] == order0[head + 1..] + added
    ensures Expanded(table, order, head + 1, keys)
    ensures added != [] ==> |states - keys| < |states - keys0|
  {
    assert order[head + 1..] == order0[head + 1..] + added;
    forall i | 0 <= i <= head ensures Successors(table, order[i]) <= keys {
      assert order[i] == order0[i];
    }
    if added != [] {
      FewerLeft(states, keys0, keys, added[0]);
    }
  }

  lemma MappedExtend(mapped: map<int, int>, order: seq<int>, start: int, counter: int, states: set<int>, x: int)
    requires MappedInOrder(mapped, order, start, counter, states)
    requires x !in mapped && x in states
    ensures MappedInOrder(mapped[x := counter], order + [x], start, counter + 1, states)
  {
    NumberedExtend(mapped, order, start, x);
  }

  /**
    The bookkeeping of a numbering search: `order` lists the numbered states
    without repetition, the i-th of them numbered `start + i`.
   */
  ghost predicate MappedInOrder(mapped: map<int, int>, order: seq<int>, start: int, counter: int, states: set<int>) {
    && |order| == counter - start
    && NumberedInOrder(mapped, order, start)
    && (forall i :: 0 <= i < |order| ==> order[i] in states)
  }

  lemma ReachedIsReachable(table: Table, root: int, order: seq<int>, mapped: map<int, int>)
    requires DiscoveredFrom(Edge(table), root, order)
    requires forall q :: q in mapped ==> q in order
    requires forall i :: 0 <= i < |order| ==> order[i] in mapped
    requires Expanded(table, order, |order|, mapped.Keys)
    ensures forall q :: q in mapped <==> Reachable(Edge(table), root, q)
  {
    assert ClosedUnder(Edge(table), mapped.Keys) by {
      forall x, y | x in mapped.Keys && (x, y) in Edge(table) ensures y in mapped.Keys {
        var i :| 0 <= i < |order| && order[i] == x;
        assert Successors(table, order[i]) <= mapped.Keys;
      }
    }
    ClosedContainsReachable(Edge(table), root, mapped.Keys);
    forall q | q in mapped ensures Reachable(Edge(table), root, q) {
      var i :| 0 <= i < |order| && order[i] == q;
      DiscoveredIsReachable(Edge(table), root, order, i);
    }
  }

  /** What the two numbering passes of `Rename` establish about the final mapping. */
  lemma RenameFacts(table: Table, root: int, reached: seq<int>, parent: seq<int>, order: seq<int>, m: map<int, int>,
                    start: int, states: set<int>)
    requires MappedInOrder(m, order, start, start + |order|, states)
    requires m.Keys == states
    requires |reached| <= |order| && order[..|reached|] == reached
    requires DiscoveredFrom(Edge(table), root, reached)
    requires FirstParents(reached, table, parent, |reached|)
    requires forall q :: q in reached <==> Reachable(Edge(table), root, q)
    requires forall i :: |reached| <= i < |order| ==> order[i] !in reached
    requires forall i, j :: |reached| <= i < j < |order| ==> order[i] < order[j]
    ensures Renumbering(m, states, start)
    ensures |order| == |states|
    ensures BreadthFirstOrder(order, table, root)
  {
    OrderRenumbers(m, order, start, states);
    assert order[0] == reached[0] == root;
    forall i | 0 <= i < |order| && Reachable(Edge(table), root, order[i]) ensures i < |reached| {
      var k :| 0 <= k < |reached| && reached[k] == order[i];
      assert order[k] == order[i];
    }
    forall i | 0 <= i < |reached| ensures order[i] == reached[i] {
    }
    forall i, j | 0 <= i < j < |order| && Reachable(Edge(table), root, order[j])
      ensures Reachable(Edge(table), root, order[i])
    {
      assert order[i] == reached[i];
    }
    forall i | 0 < i < |order| && Reachable(Edge(table), root, order[i])
      ensures exists j :: 0 <= j < i && order[i] in Successors(table, order[j])
    {
      var j :| 0 <= j < i && (reached[j], reached[i]) in Edge(table);
      assert order[j] == reached[j] && order[i] == reached[i];
    }
    ParentsGiveOrder(order, reached, table, root, parent);
  }

  /** A numbering search that has numbered every state is a renumbering onto a range. */
  lemma OrderRenumbers(m: map<int, int>, order: seq<int>, start: int, states: set<int>)
    requires MappedInOrder(m, order, start, start + |order|, states)
    requires m.Keys == states
    ensures Renumbering(m, states, start)
    ensures |order| == |states|
  {
    NumberedOntoRange(m, order, start);
  }
}
