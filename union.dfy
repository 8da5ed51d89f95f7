/**
  Union of two automata. The states of the second automaton are renumbered
  past the greatest state of the first; the result has the alphabets, the
  states, the final states and the tables of both, and a new initial state,
  one past every state, with an epsilon transition to every initial state
  of either operand. The new state is final when some initial state of
  either operand is final. The result is then determinized and minimized.
 */
module Union {
  import opened Orders
  import opened Numberings
  import opened Automata
  import opened Linking
  import opened Determinization
  import opened Merging
  import opened Minimization

  /** The new initial state of the union: one past the greatest state of either operand. */
  function NewInitial(x: Fields, y: Fields): int
    requires x.states != {}
  {
    Max(x.states + y.states) + 1
  }

  /** The fields of the union of `x` and of `y`, the second already renumbered. */
  function UnionOf(x: Fields, y: Fields): Fields
    requires x.states != {}
  {
    var init := NewInitial(x, y);
    var finals := x.finals + y.finals;
    var finals := if StartsAccepting(x.initials, x.finals) then finals + {init} else finals;
    var finals := if StartsAccepting(y.initials, y.finals) then finals + {init} else finals;
    Fields(x.alphabet + y.alphabet, x.states + y.states + {init}, {init}, finals, UnionTable(x, y, init))
  }

  /** Both tables (`putAll` twice), then epsilon transitions from `init` to the initial states of each. */
  function UnionTable(x: Fields, y: Fields, init: int): Table {
    Linked(Linked(x.table + y.table, init, x.initials), init, y.initials)
  }

  /** The new initial state is numbered `|y.states|` past the first number after the first operand. */
  lemma NewInitialPast(x: Fields, y: Fields, start: int)
    requires x.states != {} && start == Max(x.states) + 1
    requires y.states == Range(start, start + |y.states|)
    ensures NewInitial(x, y) == start + |y.states|
  {
    var top := start + |y.states| - 1;
    if y.states == {} {
      assert x.states + y.states == x.states;
    } else {
      assert top in y.states;
      MaxIs(x.states + y.states, top);
    }
  }

  /**
    The new initial state is a new state and the only initial state; the
    final states of the operands stay final and no other old state becomes
    final; the new state is final exactly when an initial state of either
    operand is final.
   */
  lemma UnionStates(x: Fields, y: Fields)
    requires Apart(x, y)
    ensures var r, init := UnionOf(x, y), NewInitial(x, y);
      && x.states * y.states == {} && init !in x.states + y.states
      && r.states == x.states + y.states + {init} && r.initials == {init}
      && r.finals * (x.states + y.states) == x.finals + y.finals
      && (init in r.finals <==> StartsAccepting(x.initials, x.finals) || StartsAccepting(y.initials, y.finals))
  {
    var init := NewInitial(x, y);
    assert init !in x.states + y.states;
    assert x.finals + y.finals <= x.states + y.states;
  }

  /**
    The table of the union: every old state keeps the row it had in its own
    operand (the renumbering keeps the two tables' keys apart, so `putAll`
    overwrites nothing), and the new state's row is an epsilon transition to
    each initial state of either operand.
   */
  lemma UnionRows(x: Fields, y: Fields)
    requires Apart(x, y)
    ensures var r, init := UnionOf(x, y), NewInitial(x, y);
      && (forall q :: q in x.states ==> Out(r.table, q) == Out(x.table, q))
      && (forall q :: q in y.states ==> Out(r.table, q) == Out(y.table, q))
      && Out(r.table, init) == EpsilonTo(x.initials + y.initials)
      && r.table.Keys == x.table.Keys + y.table.Keys + (if x.initials + y.initials == {} then {} else {init})
  {
    var init := NewInitial(x, y);
    assert UnionOf(x, y).table == UnionTable(x, y, init);
    TableRows(x, y, init);
  }

  lemma TableRows(x: Fields, y: Fields, init: int)
    requires Apart(x, y) && init == NewInitial(x, y)
    ensures var table := UnionTable(x, y, init);
      && (forall q :: q in x.states ==> Out(table, q) == Out(x.table, q))
      && (forall q :: q in y.states ==> Out(table, q) == Out(y.table, q))
      && Out(table, init) == EpsilonTo(x.initials + y.initials)
      && table.Keys == x.table.Keys + y.table.Keys + (if x.initials + y.initials == {} then {} else {init})
  {
    var merged := x.table + y.table;
    var once := Linked(merged, init, x.initials);
    assert init !in merged;
    forall q | q in x.states ensures Out(UnionTable(x, y, init), q) == Out(x.table, q) {
      assert q !in y.table;
      LinkedRows(merged, init, x.initials, q);
      LinkedRows(once, init, y.initials, q);
    }
    forall q | q in y.states ensures Out(UnionTable(x, y, init), q) == Out(y.table, q) {
      LinkedRows(merged, init, x.initials, q);
      LinkedRows(once, init, y.initials, q);
    }
    LinkedRows(merged, init, x.initials, init);
    LinkedRows(once, init, y.initials, init);
    EpsilonToUnion(x.initials, y.initials);
  }

  /** The union of two well-formed automata kept apart is well formed. */
  lemma UnionWellFormed(x: Fields, y: Fields)
    requires Apart(x, y)
    ensures WellFormedFields(UnionOf(x, y))
  {
    var r, init := UnionOf(x, y), NewInitial(x, y);
    UnionRows(x, y);
    forall q, t | q in r.table && t in r.table[q] ensures t.to in r.states {
      if q == init {
        assert t in EpsilonTo(x.initials + y.initials);
      } else if q in x.table {
        assert t in Out(x.table, q);
      } else {
        assert t in Out(y.table, q);
      }
    }
  }

  /**
    `union`. The greatest state of the first automaton (`Collections.max`)
    and the least initial state of the second (for `rename`) must exist,
    otherwise the operation fails (`ok` false) before changing anything. The
    second automaton is renumbered in place past the first, and a new
    nondeterministic automaton holds the union.
   */
  method Union(a1: Automaton, a2: Automaton) returns (ok: bool, result: Automaton, ghost m: map<int, int>, ghost order: seq<int>)
    requires a1 != a2 && a1.Valid() && a2.Valid()
    modifies a2
    ensures ok == (a1.states != {} && old(a2.initials) != {})
    ensures !ok ==> unchanged(a2)
    ensures ok ==> a2.Valid() && RenamedPast(old(a1.Contents()), old(a2.Contents()), m, order, a2.Contents())
    ensures ok ==> fresh(result) && result.kind == NFA && result.Contents() == UnionOf(a1.Contents(), a2.Contents())
    ensures ok ==> result.Valid() && |result.initials| == 1
  {
    ok, m, order := RenamePast(a1, a2);
    if !ok {
      return false, a1, m, order;
    }
    result := Build(a1.Contents(), a2.Contents());
  }

  /** The union of the fields of two automata kept apart, built as the source builds it. */
  method Build(x: Fields, y: Fields) returns (result: Automaton)
    requires Apart(x, y)
    ensures fresh(result) && result.kind == NFA && result.Contents() == UnionOf(x, y)
    ensures result.Valid() && |result.initials| == 1
  {
    var init := Max(x.states + y.states) + 1;
    var table := x.table + y.table;
    table := AddEpsilonEdges(table, init, x.initials);
    table := AddEpsilonEdges(table, init, y.initials);
    var finals := x.finals + y.finals;
    if x.initials * x.finals != {} {
      finals := finals + {init};
    }
    if y.initials * y.finals != {} {
      finals := finals + {init};
    }
    result := new Automaton.Of(NFA, x.alphabet + y.alphabet, x.states + y.states + {init}, finals, {init}, table);
    UnionWellFormed(x, y);
  }

  /**
    The union of the fields of two automata kept apart, determinized and
    minimized: the part of `perform` after the second operand is renumbered.
   */
  method BuildThenMinimize(x: Fields, y: Fields)
    returns (r: Automaton, ghost union: Fields, ghost dt: DeterminizeTrace, ghost d: Fields, ghost mt: MinimizeTrace)
    requires Apart(x, y)
    ensures fresh(r) && r.kind == DFA && r.Valid()
    ensures union == UnionOf(x, y) && DeterminizedFrom(union, dt, d) && MinimizedFrom(d, mt, r.Contents())
  {
    var joined := Build(x, y);
    union := joined.Contents();
    var ok;
    ok, r, dt, d, mt := DeterminizeThenMinimize(joined);
  }

  /** The intermediate results of `perform`: the renumbering of the second operand, the union, then the last two steps. */
  datatype Stages = Stages(m: map<int, int>, order: seq<int>, renamed: Fields, union: Fields,
                           dt: DeterminizeTrace, d: Fields, mt: MinimizeTrace)

  /**
    What `perform` computes from the fields `x1` and `x2` read, as values:
    `w.renamed` is `x2` renumbered past the greatest state of `x1`,
    `w.union` the union of `x1` with it, and `r` that determinized and
    minimized.
   */
  ghost predicate UnitedFrom(x1: Fields, x2: Fields, w: Stages, r: Fields) {
    && RenamedPast(x1, x2, w.m, w.order, w.renamed)
    && w.union == UnionOf(x1, w.renamed)
    && DeterminizedFrom(w.union, w.dt, w.d) && MinimizedFrom(w.d, w.mt, r)
  }

  /**
    `perform`: the automata read from the first two paths (fewer paths
    fail) are joined, determinized and minimized; the second is renumbered
    in place.
   */
  method Perform(paths: seq<string>, a1: Automaton, a2: Automaton) returns (ok: bool, r: Automaton, ghost w: Stages)
    requires a1 != a2 && a1.Valid() && a2.Valid()
    modifies a2
    ensures |paths| < 2 ==> !ok && unchanged(a2)
    ensures ok == (|paths| >= 2 && old(a1.states) != {} && old(a2.initials) != {})
    ensures !ok ==> unchanged(a2)
    ensures ok ==> a2.Contents() == w.renamed
    ensures ok ==> fresh(r) && r.kind == DFA && r.Valid()
    ensures ok ==> UnitedFrom(old(a1.Contents()), old(a2.Contents()), w, r.Contents())
  {
    var x1, x2 := a1.Contents(), a2.Contents();
    w := Stages(map[], [], x1, x1, DeterminizeTrace(x1, x1, map[], map[], []), x1,
                MinimizeTrace(x1, x1, MergeTrace(map[], [], x1, {}, map[], ({}, {}, {}, map[]), map[], [])));
    if |paths| < 2 {
      return false, a1, w;
    }
    ghost var m, order;
    ok, m, order := RenamePast(a1, a2);
    if !ok {
      return false, a1, w;
    }
    var renamed := a2.Contents();
    assert Apart(x1, renamed);
    ghost var union, dt, d, mt;
    r, union, dt, d, mt := BuildThenMinimize(x1, renamed);
    w := Stages(m, order, renamed, union, dt, d, mt);
  }
}
