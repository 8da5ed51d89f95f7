/**
  Concatenation of two automata. The states of the second automaton are
  renumbered past the greatest state of the first; the result has the
  alphabets, the states and the tables of both, the initial states of the
  first and the final states of the second, and an epsilon transition from
  every final state of the first to every initial state of the second. The
  result is then determinized and minimized.
 */
module Concatenation {
  import opened Orders
  import opened Numberings
  import opened Automata
  import opened Linking
  import opened Determinization
  import opened Merging
  import opened Minimization

  /** The fields of the concatenation of `x` and of `y`, the second already renumbered. */
  function ConcatenationOf(x: Fields, y: Fields): Fields {
    Fields(x.alphabet + y.alphabet, x.states + y.states, x.initials, y.finals,
           LinkedAll(x.table + y.table, x.finals, y.initials))
  }

  /**
    The first operand's own table afterwards. `putAll` copies the references
    to its transition sets into the result, so the sets of its final states
    that already had an entry gain the new transitions as well.
   */
  function SharedTable(x: Fields, y: Fields): Table {
    LinkedAll(x.table, x.finals * x.table.Keys, y.initials)
  }

  /**
    The table of the concatenation: a state of the second operand keeps its
    row, a state of the first keeps its row too, and a final state of the
    first also gains an epsilon transition to each initial state of the
    second.
   */
  lemma ConcatenationRows(x: Fields, y: Fields)
    requires Apart(x, y)
    ensures var r := ConcatenationOf(x, y);
      && (forall q :: q in x.states ==>
            Out(r.table, q) == if q in x.finals then Out(x.table, q) + EpsilonTo(y.initials) else Out(x.table, q))
      && (forall q :: q in y.states ==> Out(r.table, q) == Out(y.table, q))
      && r.table.Keys == x.table.Keys + y.table.Keys + (if y.initials == {} then {} else x.finals)
  {
    var merged := x.table + y.table;
    forall q | q in x.states
      ensures Out(ConcatenationOf(x, y).table, q) ==
                if q in x.finals then Out(x.table, q) + EpsilonTo(y.initials) else Out(x.table, q)
    {
      assert q !in y.table;
      LinkedAllRows(merged, x.finals, y.initials, q);
    }
    forall q | q in y.states ensures Out(ConcatenationOf(x, y).table, q) == Out(y.table, q) {
      assert q !in x.finals;
      LinkedAllRows(merged, x.finals, y.initials, q);
    }
    forall q ensures q in ConcatenationOf(x, y).table <==> q in merged || (q in x.finals && y.initials != {}) {
      LinkedAllRows(merged, x.finals, y.initials, q);
    }
  }

  /** The concatenation of two well-formed automata kept apart is well formed. */
  lemma ConcatenationWellFormed(x: Fields, y: Fields)
    requires Apart(x, y)
    ensures WellFormedFields(ConcatenationOf(x, y))
  {
    var r := ConcatenationOf(x, y);
    ConcatenationRows(x, y);
    forall q, t | q in r.table && t in r.table[q] ensures t.to in r.states {
      if q in x.states {
        if q in x.finals && t !in Out(x.table, q) {
          assert t in EpsilonTo(y.initials);
        }
      } else {
        assert t in Out(y.table, q);
      }
    }
  }

  /**
    The first operand's table afterwards holds exactly its old entries, and
    each is the result's row for that state: the two share those sets.
   */
  lemma SharedRows(x: Fields, y: Fields)
    requires Apart(x, y)
    ensures var r, shared := ConcatenationOf(x, y), SharedTable(x, y);
      && shared.Keys == x.table.Keys
      && forall q :: q in shared ==> q in r.table && shared[q] == r.table[q]
  {
    var r, shared := ConcatenationOf(x, y), SharedTable(x, y);
    forall q | q in shared ensures q in r.table && shared[q] == r.table[q] {
      LinkedAllRows(x.table, x.finals * x.table.Keys, y.initials, q);
      LinkedAllRows(x.table + y.table, x.finals, y.initials, q);
      assert q in x.states && q !in y.table;
    }
    forall q ensures q in shared <==> q in x.table {
      LinkedAllRows(x.table, x.finals * x.table.Keys, y.initials, q);
    }
  }

  /**
    `concatenation`. The greatest state of the first automaton and the
    least initial state of the second must exist, otherwise the operation
    fails (`ok` false) before changing anything. The second automaton is
    renumbered in place past the first; the first automaton's table changes
    through the sets it shares with the result.
   */
  method Concatenation(a1: Automaton, a2: Automaton)
    returns (ok: bool, result: Automaton, ghost m: map<int, int>, ghost order: seq<int>)
    requires a1 != a2 && a1.Valid() && a2.Valid()
    modifies a1, a2
    ensures ok == (old(a1.states) != {} && old(a2.initials) != {})
    ensures !ok ==> unchanged(a1) && unchanged(a2)
    ensures ok ==> a2.Valid() && RenamedPast(old(a1.Contents()), old(a2.Contents()), m, order, a2.Contents())
    ensures ok ==> a1.alphabet == old(a1.alphabet) && a1.states == old(a1.states)
    ensures ok ==> a1.initials == old(a1.initials) && a1.finals == old(a1.finals)
    ensures ok ==> a1.table == SharedTable(old(a1.Contents()), a2.Contents())
    ensures ok ==> fresh(result) && result.kind == NFA && result.Contents() == ConcatenationOf(old(a1.Contents()), a2.Contents())
    ensures ok ==> result.Valid()
  {
    ok, m, order := RenamePast(a1, a2);
    if !ok {
      return false, a1, m, order;
    }
    var x, y := a1.Contents(), a2.Contents();
    assert x == old(a1.Contents());
    result := Build(a1, x, y);
  }

  /**
    The concatenation of the fields of two automata kept apart, built as the
    source builds it; `a1` holds the first of them and shares its rows.
   */
  method Build(a1: Automaton, x: Fields, y: Fields) returns (result: Automaton)
    requires Apart(x, y) && a1.Contents() == x
    modifies a1
    ensures a1.alphabet == x.alphabet && a1.states == x.states && a1.initials == x.initials && a1.finals == x.finals
    ensures a1.table == SharedTable(x, y)
    ensures fresh(result) && result.kind == NFA && result.Contents() == ConcatenationOf(x, y)
    ensures result.Valid()
  {
    var table, shared := LinkStates(x.table + y.table, x.table, x.finals, y.initials);
    result := new Automaton.Of(NFA, x.alphabet + y.alphabet, x.states + y.states, y.finals, x.initials, table);
    a1.SetTable(shared);
    ConcatenationWellFormed(x, y);
  }

  /**
    The concatenation of the fields of two automata kept apart, determinized
    and minimized: the part of `perform` after the second operand is
    renumbered. `a1` holds the first of them and shares its rows.
   */
  method BuildThenMinimize(a1: Automaton, x: Fields, y: Fields)
    returns (r: Automaton, ghost chained: Fields, ghost dt: DeterminizeTrace, ghost d: Fields, ghost mt: MinimizeTrace)
    requires Apart(x, y) && a1.Contents() == x
    modifies a1
    ensures a1.Contents() == x.(table := SharedTable(x, y))
    ensures fresh(r) && r.kind == DFA && r.Valid()
    ensures chained == ConcatenationOf(x, y) && DeterminizedFrom(chained, dt, d) && MinimizedFrom(d, mt, r.Contents())
  {
    var result := Build(a1, x, y);
    chained := result.Contents();
    assert result != a1;
    var ok;
    ok, r, dt, d, mt := DeterminizeThenMinimize(result);
    assert a1.alphabet == x.alphabet && a1.states == x.states && a1.initials == x.initials && a1.finals == x.finals;
    assert a1.table == SharedTable(x, y);
  }

  /** The intermediate results of `perform`: the renumbering of the second operand, the concatenation, then the last two steps. */
  datatype Stages = Stages(m: map<int, int>, order: seq<int>, renamed: Fields, chained: Fields,
                           dt: DeterminizeTrace, d: Fields, mt: MinimizeTrace)

  /**
    What `perform` computes from the fields `x1` and `x2` read, as values:
    `w.renamed` is `x2` renumbered past the greatest state of `x1`,
    `w.chained` the concatenation of `x1` with it, and `r` that
    determinized and minimized.
   */
  ghost predicate ChainedFrom(x1: Fields, x2: Fields, w: Stages, r: Fields) {
    && RenamedPast(x1, x2, w.m, w.order, w.renamed)
    && w.chained == ConcatenationOf(x1, w.renamed)
    && DeterminizedFrom(w.chained, w.dt, w.d) && MinimizedFrom(w.d, w.mt, r)
  }

  /**
    `perform`: the automata read from the first two paths (fewer paths
    fail) are concatenated, determinized and minimized. The second is
    renumbered in place, and the first's table shares its rows with the
    concatenation.
   */
  method Perform(paths: seq<string>, a1: Automaton, a2: Automaton) returns (ok: bool, r: Automaton, ghost w: Stages)
    requires a1 != a2 && a1.Valid() && a2.Valid()
    modifies a1, a2
    ensures |paths| < 2 ==> !ok && unchanged(a1) && unchanged(a2)
    ensures ok == (|paths| >= 2 && old(a1.states) != {} && old(a2.initials) != {})
    ensures !ok ==> unchanged(a1) && unchanged(a2)
    ensures ok ==> a2.Contents() == w.renamed
    ensures ok ==> a1.Contents() == old(a1.Contents()).(table := SharedTable(old(a1.Contents()), w.renamed))
    ensures ok ==> fresh(r) && r.kind == DFA && r.Valid()
    ensures ok ==> ChainedFrom(old(a1.Contents()), old(a2.Contents()), w, r.Contents())
  {
    var x1 := a1.Contents();
    w := Stages(map[], [], x1, x1, DeterminizeTrace(x1, x1, map[], map[], []), x1,
                MinimizeTrace(x1, x1, MergeTrace(map[], [], x1, {}, map[], ({}, {}, {}, map[]), map[], [])));
    if |paths| < 2 {
      return false, a1, w;
    }
    ghost var m, order;
    ok, m, order := RenamePast(a1, a2);
    if !ok {
      return false, a1, w;
    }
    var renamed := a2.Contents();
    assert Apart(x1, renamed) && a1.Contents() == x1;
    ghost var chained, dt, d, mt;
    r, chained, dt, d, mt := BuildThenMinimize(a1, x1, renamed);
    w := Stages(m, order, renamed, chained, dt, d, mt);
  }
}
