/**
  The second half of `mergeEquivalentStates`: the pairs the equivalence
  table keeps are grouped into sets of equivalent states, every state is
  mapped to the least state of its set (or to itself), and a breadth-first
  search from the initial state builds the automaton over the
  representatives it reaches.
 */
module Merging {
  import opened Orders
  import opened Graphs
  import opened Numberings
  import opened Automata
  import opened Searches
  import opened Equivalence

  // ---------------------------------------------------------------------
  // Classes of equivalent states

  /** The states below `n` that `r` relates to `x`. */
  ghost function Class(r: Rel, n: int, x: int): set<int> {
    set y | 0 <= y < n && (x, y) in r
  }

  /** `r` is an equivalence relation on the states below `n`. */
  ghost predicate IsEquivalence(r: Rel, n: int) {
    Symmetric(r) && Reflexive(r, n) && Transitive(r) && r <= Cells(n)
  }

  /** Cell `(x, y)` comes before cell `(i, j)` in the order the triangle is walked. */
  ghost predicate Before(x: int, y: int, i: int, j: int) {
    x < i || (x == i && y < j)
  }

  /** Related states have the same class. */
  lemma ClassOfRelated(r: Rel, n: int, x: int, y: int)
    requires IsEquivalence(r, n) && (x, y) in r
    ensures Class(r, n, x) == Class(r, n, y)
  {
    assert (y, x) in r;
  }

  /** The grouped states `g` sorted into classes: for each, the grouped states of its class. */
  ghost function Parts(r: Rel, n: int, g: set<int>): set<set<int>> {
    set x | x in g :: Class(r, n, x) * g
  }

  /**
    The grouped states at cell `(i, j)` of the grouping loop: only states up
    to row `i` are grouped; the class of every grouped state holds another
    state; both states of every related pair already looked at are grouped.
   */
  ghost predicate GroupedUpTo(r: Rel, n: int, g: set<int>, i: int, j: int) {
    && (forall x :: x in g ==> 0 <= x <= i && x < n)
    && (forall x :: x in g ==> Class(r, n, x) != {x})
    && (forall x, y :: 0 <= y < x < n && Before(x, y, i, j) && (x, y) in r ==> x in g && y in g)
  }

  /**
    The bookkeeping of the grouping loop at cell `(i, j)`: the sets built so
    far are the classes cut down to the grouped states `g`.
   */
  ghost predicate Grouping(r: Rel, n: int, sets: set<set<int>>, g: set<int>, i: int, j: int) {
    sets == Parts(r, n, g) && GroupedUpTo(r, n, g, i, j)
  }

  /** Grouping both states of a related pair `(i, j)` keeps the bookkeeping. */
  lemma GroupedExtend(r: Rel, n: int, g0: set<int>, i: int, j: int)
    requires IsEquivalence(r, n) && 0 <= j < i < n && (i, j) in r
    requires GroupedUpTo(r, n, g0, i, j)
    ensures GroupedUpTo(r, n, g0 + {i, j}, i, j + 1)
  {
    var g := g0 + {i, j};
    assert j in Class(r, n, i) && i in Class(r, n, j);
    forall x, y | 0 <= y < x < n && Before(x, y, i, j + 1) && (x, y) in r ensures x in g && y in g {
      if !Before(x, y, i, j) {
        assert x == i && y == j;
      }
    }
  }

  /** A grouped state related to neither `i` nor `j` keeps its part when they are grouped. */
  lemma PartUnchanged(r: Rel, n: int, g0: set<int>, i: int, j: int, y: int)
    requires (y, i) !in r && (y, j) !in r
    ensures Class(r, n, y) * (g0 + {i, j}) == Class(r, n, y) * g0
  {
  }

  /** The parts after grouping `i` and `j` into the part of their class. */
  lemma JoinParts(r: Rel, n: int, g0: set<int>, i: int, j: int, s: set<int>)
    requires IsEquivalence(r, n) && (i, j) in r
    requires s in Parts(r, n, g0) && (i in s || j in s)
    ensures s == Class(r, n, i) * g0
    ensures Parts(r, n, g0) - {s} + {s + {i, j}} == Parts(r, n, g0 + {i, j})
  {
    var g := g0 + {i, j};
    var x0 :| x0 in g0 && s == Class(r, n, x0) * g0;
    var k := if i in s then i else j;
    assert (x0, k) in r && (k, i) in r;
    ClassOfRelated(r, n, x0, k);
    ClassOfRelated(r, n, k, i);
    ClassOfRelated(r, n, i, j);
    var s' := s + {i, j};
    assert s' == Class(r, n, i) * g;
    var lhs := Parts(r, n, g0) - {s} + {s'};
    forall t | t in lhs ensures t in Parts(r, n, g) {
      if t == s' {
        assert i in g;
      } else {
        var y :| y in g0 && t == Class(r, n, y) * g0;
        if (y, i) in r {
          ClassOfRelated(r, n, y, i);
        }
        PartUnchanged(r, n, g0, i, j, y);
      }
    }
    forall t | t in Parts(r, n, g) ensures t in lhs {
      var y :| y in g && t == Class(r, n, y) * g;
      if (y, i) in r {
        ClassOfRelated(r, n, y, i);
      } else {
        PartUnchanged(r, n, g0, i, j, y);
        assert y in g0 && k in s && k !in t;
      }
    }
  }

  /** The parts after grouping `i` and `j`, which no grouped state is related to, as a new part. */
  lemma NewParts(r: Rel, n: int, g0: set<int>, i: int, j: int)
    requires IsEquivalence(r, n) && (i, j) in r && 0 <= i < n && 0 <= j < n
    requires forall y :: y in g0 ==> (y, i) !in r && (y, j) !in r
    ensures Parts(r, n, g0) + {{i, j}} == Parts(r, n, g0 + {i, j})
  {
    var g := g0 + {i, j};
    assert Class(r, n, i) * g == {i, j};
    forall t | t in Parts(r, n, g) ensures t in Parts(r, n, g0) + {{i, j}} {
      var y :| y in g && t == Class(r, n, y) * g;
      if y == j {
        ClassOfRelated(r, n, i, j);
      } else if y != i {
        PartUnchanged(r, n, g0, i, j, y);
      }
    }
    forall t | t in Parts(r, n, g0) ensures t in Parts(r, n, g) {
      var y :| y in g0 && t == Class(r, n, y) * g0;
      PartUnchanged(r, n, g0, i, j, y);
    }
    assert {i, j} in Parts(r, n, g) by {
      assert i in g;
    }
  }

  /** Every grouped state lies in its own part. */
  lemma InOwnPart(r: Rel, n: int, g: set<int>)
    requires Reflexive(r, n) && forall x :: x in g ==> 0 <= x < n
    ensures forall x :: x in g ==> x in Class(r, n, x) * g && Class(r, n, x) * g in Parts(r, n, g)
  {
  }

  /** Adding a related pair to the set that already holds one of its states. */
  lemma GroupJoin(r: Rel, n: int, sets0: set<set<int>>, g0: set<int>, i: int, j: int, s: set<int>)
    requires IsEquivalence(r, n) && 0 <= j < i < n && (i, j) in r
    requires Grouping(r, n, sets0, g0, i, j)
    requires s in sets0 && (i in s || j in s)
    ensures Grouping(r, n, sets0 - {s} + {s + {i, j}}, g0 + {i, j}, i, j + 1)
  {
    JoinParts(r, n, g0, i, j, s);
    GroupedExtend(r, n, g0, i, j);
  }

  /** Opening a new set for a related pair neither of whose states is grouped. */
  lemma GroupNew(r: Rel, n: int, sets0: set<set<int>>, g0: set<int>, i: int, j: int)
    requires IsEquivalence(r, n) && 0 <= j < i < n && (i, j) in r
    requires Grouping(r, n, sets0, g0, i, j)
    requires forall s :: s in sets0 ==> i !in s && j !in s
    ensures Grouping(r, n, sets0 + {{i, j}}, g0 + {i, j}, i, j + 1)
  {
    InOwnPart(r, n, g0);
    assert i !in g0 && j !in g0;
    UngroupedUnrelated(r, n, g0, i, j);
    NewParts(r, n, g0, i, j);
    GroupedExtend(r, n, g0, i, j);
  }

  /**
    No grouped state is related to an ungrouped pair `(i, j)`: a grouped
    state related to `j` would have been looked at together with `j` before.
   */
  lemma UngroupedUnrelated(r: Rel, n: int, g0: set<int>, i: int, j: int)
    requires IsEquivalence(r, n) && 0 <= j < i < n && (i, j) in r
    requires GroupedUpTo(r, n, g0, i, j) && i !in g0 && j !in g0
    ensures forall y :: y in g0 ==> (y, i) !in r && (y, j) !in r
  {
    forall y | y in g0 ensures (y, j) !in r {
      if (y, j) in r {
        if y < j {
          assert (j, y) in r && Before(j, y, i, j);
        } else {
          assert Before(y, j, i, j);
        }
      }
    }
    forall y | y in g0 ensures (y, i) !in r {
      assert (y, j) !in r;
    }
  }

  /** A pair the table does not relate changes nothing. */
  lemma GroupSkip(r: Rel, n: int, sets: set<set<int>>, g: set<int>, i: int, j: int)
    requires Grouping(r, n, sets, g, i, j) && (i, j) !in r
    ensures Grouping(r, n, sets, g, i, j + 1)
  {
  }

  lemma GroupNextRow(r: Rel, n: int, sets: set<set<int>>, g: set<int>, i: int)
    requires Grouping(r, n, sets, g, i, i)
    ensures Grouping(r, n, sets, g, i + 1, 0)
  {
  }

  /**
    One related pair `(i, j)`: both states go into the first set that holds
    either of them, or into a new set of their own when none does. Which set
    is first depends on the iteration order of a hash set; the model takes
    any.
   */
  method GroupPair(ghost r: Rel, ghost n: int, sets0: set<set<int>>, ghost g0: set<int>, i: int, j: int)
    returns (sets: set<set<int>>, ghost g: set<int>)
    requires IsEquivalence(r, n) && 0 <= j < i < n && (i, j) in r
    requires Grouping(r, n, sets0, g0, i, j)
    ensures Grouping(r, n, sets, g, i, j + 1)
  {
    var candidates := set s | s in sets0 && (i in s || j in s);
    g := g0 + {i, j};
    if candidates != {} {
      var s :| s in candidates;
      GroupJoin(r, n, sets0, g0, i, j, s);
      sets := sets0 - {s} + {s + {i, j}};
    } else {
      forall s | s in sets0 ensures i !in s && j !in s {
        assert s !in candidates;
      }
      GroupNew(r, n, sets0, g0, i, j);
      sets := sets0 + {{i, j}};
    }
  }

  /** Row `i` of the grouping loop: the cells left of the diagonal, in order. */
  method GroupRow(tbl: array2<bool>, n: int, ghost r: Rel, i: int, sets0: set<set<int>>, ghost g0: set<int>)
    returns (sets: set<set<int>>, ghost g: set<int>)
    requires tbl.Length0 == n && tbl.Length1 == n && r == TrueSet(tbl) && IsEquivalence(r, n)
    requires 0 <= i < n && Grouping(r, n, sets0, g0, i, 0)
    ensures Grouping(r, n, sets, g, i + 1, 0)
  {
    sets, g := sets0, g0;
    var j := 0;
    while j < i
      invariant 0 <= j <= i
      invariant Grouping(r, n, sets, g, i, j)
    {
      if tbl[i, j] {
        assert (i, j) in r;
        sets, g := GroupPair(r, n, sets, g, i, j);
      } else {
        GroupSkip(r, n, sets, g, i, j);
      }
      j := j + 1;
    }
    GroupNextRow(r, n, sets, g, i);
  }

  /** The grouping loop over the cells below the diagonal of the table. */
  method GroupClasses(tbl: array2<bool>, n: int, ghost r: Rel) returns (sets: set<set<int>>, ghost g: set<int>)
    requires tbl.Length0 == n && tbl.Length1 == n && r == TrueSet(tbl) && IsEquivalence(r, n)
    ensures Grouping(r, n, sets, g, n, 0)
  {
    sets, g := {}, {};
    var i := 0;
    while i < n
      invariant 0 <= i <= n
      invariant Grouping(r, n, sets, g, i, 0)
    {
      sets, g := GroupRow(tbl, n, r, i, sets, g);
      i := i + 1;
    }
  }

  /**
    Once every cell has been looked at, the grouped states are those whose
    class has another state, and the sets are their classes.
   */
  lemma GroupedAreClasses(r: Rel, n: int, sets: set<set<int>>, g: set<int>)
    requires IsEquivalence(r, n) && Grouping(r, n, sets, g, n, 0)
    ensures forall x :: 0 <= x < n ==> (x in g <==> Class(r, n, x) != {x})
    ensures forall x :: x in g ==> Class(r, n, x) <= g
    ensures sets == set x | x in g :: Class(r, n, x)
  {
    forall x | 0 <= x < n ensures x in g <==> Class(r, n, x) != {x} {
      if Class(r, n, x) != {x} {
        assert x in Class(r, n, x);
        var y :| y in Class(r, n, x) && y != x;
        if y < x {
          assert Before(x, y, n, 0);
        } else {
          assert (y, x) in r && Before(y, x, n, 0);
        }
      }
    }
    forall x, z | x in g && z in Class(r, n, x) ensures z in g {
      if z != x {
        if z < x {
          assert Before(x, z, n, 0);
        } else {
          assert (z, x) in r && Before(z, x, n, 0);
        }
      }
    }
    assert forall x :: x in g ==> Class(r, n, x) * g == Class(r, n, x);
  }

  // ---------------------------------------------------------------------
  // The map from states to representatives

  /** The states held by some set of `sets`. */
  ghost function Union(sets: set<set<int>>): set<int> {
    set s, x | s in sets && x in s :: x
  }

  lemma UnionAdd(sets: set<set<int>>, s: set<int>)
    ensures Union(sets + {s}) == Union(sets) + s
  {
    assert forall x :: x in s ==> x in Union(sets + {s});
  }

  /** No state lies in two of the sets. */
  ghost predicate Disjoint(sets: set<set<int>>) {
    forall s1, s2, x :: s1 in sets && s2 in sets && x in s1 && x in s2 ==> s1 == s2
  }

  /** The first loop of the map: every member of a set goes to the least member of its set. */
  method MapToLeast(sets: set<set<int>>) returns (h: map<int, int>)
    requires {} !in sets && Disjoint(sets)
    ensures h.Keys == Union(sets)
    ensures forall s, x :: s in sets && x in s ==> h[x] == Min(s)
  {
    h := map[];
    var rest := sets;
    while rest != {}
      invariant rest <= sets
      invariant h.Keys == Union(sets - rest)
      invariant forall t, x :: t in sets - rest && x in t ==> h[x] == Min(t)
      decreases rest
    {
      var s :| s in rest;
      var representative := Min(s);
      var members := s;
      while members != {}
        invariant members <= s
        invariant h.Keys == Union(sets - rest) + (s - members)
        invariant forall t, x :: t in sets - rest && x in t ==> h[x] == Min(t)
        invariant forall x :: x in s - members ==> h[x] == representative
        decreases members
      {
        // `w` shows `members` has an element, so the choice below exists.
        ghost var w := Min(members);
        var x :| x in members;
        assert forall t :: t in sets - rest ==> x !in t;
        h := h[x := representative];
        members := members - {x};
      }
      UnionAdd(sets - rest, s);
      assert sets - (rest - {s}) == (sets - rest) + {s};
      rest := rest - {s};
    }
    assert sets - rest == sets;
  }

  /** The second loop of the map: every state not yet mapped goes to itself. */
  method MapRestToSelf(h0: map<int, int>, states: set<int>) returns (h: map<int, int>)
    ensures h.Keys == h0.Keys + states
    ensures forall x :: x in h0 ==> h[x] == h0[x]
    ensures forall x :: x in states - h0.Keys ==> h[x] == x
  {
    h := h0;
    var others := states;
    while others != {}
      invariant others <= states
      invariant h.Keys == h0.Keys + (states - others)
      invariant forall x :: x in h0 ==> h[x] == h0[x]
      invariant forall x :: x in (states - others) - h0.Keys ==> h[x] == x
      decreases others
    {
      // `w` shows `others` has an element, so the choice below exists.
      ghost var w := Min(others);
      var x :| x in others;
      if x !in h {
        h := h[x := x];
      }
      others := others - {x};
    }
  }

  /**
    The map of the source: every member of a set goes to the least member of
    its set, then every state not yet mapped goes to itself.
   */
  method Representatives(sets: set<set<int>>, states: set<int>) returns (h: map<int, int>)
    requires {} !in sets && Disjoint(sets)
    ensures h.Keys == Union(sets) + states
    ensures forall s, x :: s in sets && x in s ==> h[x] == Min(s)
    ensures forall x :: x in states - Union(sets) ==> h[x] == x
  {
    var least := MapToLeast(sets);
    h := MapRestToSelf(least, states);
  }

  /** The sets found by the grouping loop are the classes with more than one state. */
  lemma ClassesPartition(r: Rel, n: int, sets: set<set<int>>, g: set<int>)
    requires IsEquivalence(r, n) && Grouping(r, n, sets, g, n, 0)
    ensures {} !in sets && Disjoint(sets) && Union(sets) == g
    ensures forall x :: 0 <= x < n ==> (x in g <==> Class(r, n, x) != {x})
    ensures forall s, x :: s in sets && x in s ==> s == Class(r, n, x)
  {
    GroupedAreClasses(r, n, sets, g);
    SetsAreClasses(r, n, sets, g);
    assert forall x :: x in g ==> x in Class(r, n, x);
    assert {} !in sets;
    assert Union(sets) <= g;
    assert g <= Union(sets) by {
      forall x | x in g ensures x in Union(sets) {
        assert Class(r, n, x) in sets && x in Class(r, n, x);
      }
    }
  }

  /** A set given as the class of one of its grouped states is the class of each of its members. */
  lemma SetsAreClasses(r: Rel, n: int, sets: set<set<int>>, g: set<int>)
    requires IsEquivalence(r, n) && sets == set x | x in g :: Class(r, n, x)
    ensures forall s, x :: s in sets && x in s ==> s == Class(r, n, x)
    ensures Disjoint(sets)
  {
    forall s, x | s in sets && x in s ensures s == Class(r, n, x) {
      var y :| y in g && s == Class(r, n, y);
      ClassOfRelated(r, n, y, x);
    }
  }

  /** Every state below `n` is mapped to the least state of its class. */
  ghost predicate Representing(h: map<int, int>, r: Rel, n: int) {
    && h.Keys == Range(0, n)
    && forall x :: 0 <= x < n ==> x in Class(r, n, x) && h[x] == Min(Class(r, n, x))
  }

  /** The map the source builds maps every state to the least state of its class. */
  lemma RepresentativesAreLeast(r: Rel, n: int, sets: set<set<int>>, h: map<int, int>)
    requires Reflexive(r, n)
    requires forall x :: 0 <= x < n ==> (x in Union(sets) <==> Class(r, n, x) != {x})
    requires forall s, x :: s in sets && x in s ==> s == Class(r, n, x)
    requires h.Keys == Union(sets) + Range(0, n)
    requires forall s, x :: s in sets && x in s ==> h[x] == Min(s)
    requires forall x :: x in Range(0, n) - Union(sets) ==> h[x] == x
    ensures Representing(h, r, n)
  {
    forall x | 0 <= x < n ensures x in Class(r, n, x) && h[x] == Min(Class(r, n, x)) {
      assert x in Class(r, n, x);
      if x in Union(sets) {
        var s :| s in sets && x in s;
      } else {
        assert Class(r, n, x) == {x};
      }
    }
  }

  /** Two states have the same representative exactly when they are related. */
  lemma RepresentingFacts(h: map<int, int>, r: Rel, n: int)
    requires IsEquivalence(r, n) && Representing(h, r, n)
    ensures forall x :: 0 <= x < n ==> 0 <= h[x] < n && (x, h[x]) in r && h[h[x]] == h[x]
    ensures forall x, y :: 0 <= x < n && 0 <= y < n ==> (h[x] == h[y] <==> (x, y) in r)
  {
    forall x | 0 <= x < n ensures 0 <= h[x] < n && (x, h[x]) in r && h[h[x]] == h[x] {
      assert h[x] in Class(r, n, x);
      ClassOfRelated(r, n, x, h[x]);
    }
    forall x, y | 0 <= x < n && 0 <= y < n ensures h[x] == h[y] <==> (x, y) in r {
      if (x, y) in r {
        ClassOfRelated(r, n, x, y);
      }
      if h[x] == h[y] {
        assert h[x] in Class(r, n, x) && h[y] in Class(r, n, y);
        assert (h[y], y) in r;
      }
    }
  }

  // ---------------------------------------------------------------------
  // The merged automaton

  /** Every destination of the table is a state below `n`. */
  ghost predicate Bounded(table: Table, n: int) {
    forall q, t :: q in table && t in table[q] ==> 0 <= t.to < n
  }

  /**
    The table of the merged automaton over the representatives `classes`:
    the row of a representative is its own row with every destination
    replaced by its representative; rows left empty are absent.
   */
  ghost function QuotientTable(table: Table, h: map<int, int>, classes: set<int>): Table
    requires forall q, t :: q in table && t in table[q] ==> t.to in h
  {
    map c | c in classes && Out(table, c) != {} :: RenameTransitions(Out(table, c), h)
  }

  /** Related states have the same representative. */
  ghost predicate Respects(h: map<int, int>, r: Rel) {
    forall a, b :: (a, b) in r ==> a in h && b in h && h[a] == h[b]
  }

  lemma RepresentingRespects(h: map<int, int>, r: Rel, n: int)
    requires IsEquivalence(r, n) && Representing(h, r, n)
    ensures Respects(h, r)
  {
    forall a, b | (a, b) in r ensures a in h && b in h && h[a] == h[b] {
      assert (a, b) in Cells(n);
      ClassOfRelated(r, n, a, b);
    }
  }

  /** One half of `RowsAgree`. */
  lemma RowIncluded(table: Table, r: Rel, h: map<int, int>, x: int, y: int)
    requires Agree(table, r, x, y) && Respects(h, r)
    requires forall q, t :: q in table && t in table[q] ==> t.to in h
    ensures RenameTransitions(Out(table, x), h) <= RenameTransitions(Out(table, y), h)
  {
    forall u | u in RenameTransitions(Out(table, x), h) ensures u in RenameTransitions(Out(table, y), h) {
      var t :| t in Out(table, x) && u == Transition(t.symbol, h[t.to]);
      assert t.symbol in Labels(Out(table, y));
      var t' :| t' in Out(table, y) && t'.symbol == t.symbol;
      assert (t.to, t'.to) in r;
      assert u == Transition(t'.symbol, h[t'.to]);
    }
  }

  /**
    Related states give the same row once destinations are replaced by
    representatives: the merge may take the row of any state of a class.
   */
  lemma RowsAgree(table: Table, r: Rel, h: map<int, int>, x: int, y: int)
    requires Symmetric(r) && PostFixed(table, r) && Respects(h, r)
    requires forall q, t :: q in table && t in table[q] ==> t.to in h
    requires (x, y) in r
    ensures RenameTransitions(Out(table, x), h) == RenameTransitions(Out(table, y), h)
    ensures Out(table, x) == {} <==> Out(table, y) == {}
  {
    assert Agree(table, r, x, y) && Agree(table, r, y, x);
    RowIncluded(table, r, h, x, y);
    RowIncluded(table, r, h, y, x);
    if Out(table, x) != {} {
      var t :| t in Out(table, x);
      assert t.symbol in Labels(Out(table, y));
    }
    if Out(table, y) != {} {
      var t :| t in Out(table, y);
      assert t.symbol in Labels(Out(table, x));
    }
  }

  lemma ImageAdd(h: map<int, int>, a: set<int>, x: int)
    requires a <= h.Keys && x in h
    ensures Image(h, a + {x}) == Image(h, a) + {h[x]}
  {
  }

  /** The row of `c` after the transitions `done`: their renamed transitions are added to it. */
  ghost predicate RowBuilt(h: map<int, int>, c: int, done: set<Transition>, qtable0: Table, qtable: Table) {
    && (forall u :: u in done ==> u.to in h)
    && qtable == if done == {} then qtable0 else qtable0[c := Out(qtable0, c) + RenameTransitions(done, h)]
  }

  /** Adding one transition to the row being built for `c`. */
  lemma RowStep(h: map<int, int>, c: int, done: set<Transition>, t: Transition, qtable0: Table, qtable: Table)
    requires RowBuilt(h, c, done, qtable0, qtable) && t.to in h
    ensures RowBuilt(h, c, done + {t}, qtable0, qtable[c := Out(qtable, c) + {Transition(t.symbol, h[t.to])}])
  {
    var u := Transition(t.symbol, h[t.to]);
    var row := Out(qtable0, c) + RenameTransitions(done + {t}, h);
    assert RenameTransitions(done + {t}, h) == RenameTransitions(done, h) + {u};
    if done == {} {
      assert RenameTransitions(done, h) == {};
      assert Out(qtable, c) + {u} == row;
    } else {
      var x := Out(qtable0, c) + RenameTransitions(done, h);
      assert Out(qtable, c) == x;
      assert x + {u} == row;
      assert qtable0[c := x][c := x + {u}] == qtable0[c := row];
    }
  }

  /**
    The queue bookkeeping of the visit of one state after the transitions
    `done`: the destinations queued and the representatives marked explored.
   */
  ghost predicate Visiting(h: map<int, int>, n: int, done: set<Transition>,
                           explored0: set<int>, queue0: seq<int>,
                           explored: set<int>, queue: seq<int>, added: seq<int>) {
    && h.Keys == Range(0, n)
    && (forall t :: t in done ==> 0 <= t.to < n)
    && queue == queue0 + added
    && (forall i :: 0 <= i < |added| ==> 0 <= added[i] < n && h[added[i]] !in explored0)
    && Elems(added) <= Dests(done)
    && explored == explored0 + Image(h, Elems(added))
    && Image(h, Dests(done)) <= explored
  }

  /** One more transition `t` keeps the queue bookkeeping of the visit. */
  lemma VisitStep(h: map<int, int>, n: int, done: set<Transition>, t: Transition,
                  explored0: set<int>, queue0: seq<int>,
                  explored: set<int>, queue: seq<int>, added: seq<int>, step: seq<int>)
    requires Visiting(h, n, done, explored0, queue0, explored, queue, added)
    requires 0 <= t.to < n
    requires step == if h[t.to] in explored then [] else [t.to]
    ensures Visiting(h, n, done + {t}, explored0, queue0, explored + {h[t.to]}, queue + step, added + step)
  {
    VisitQueued(h, n, explored0, explored, added, step, t);
    VisitAdded(done, added, step, t);
    VisitExplored(h, n, explored0, explored, added, step, t);
    VisitCovered(h, n, done, explored, t);
  }

  lemma VisitQueued(h: map<int, int>, n: int, explored0: set<int>, explored: set<int>, added: seq<int>, step: seq<int>, t: Transition)
    requires h.Keys == Range(0, n) && 0 <= t.to < n && explored0 <= explored
    requires forall i :: 0 <= i < |added| ==> 0 <= added[i] < n && h[added[i]] !in explored0
    requires step == if h[t.to] in explored then [] else [t.to]
    ensures forall i :: 0 <= i < |added + step| ==> 0 <= (added + step)[i] < n && h[(added + step)[i]] !in explored0
  {
  }

  lemma VisitAdded(done: set<Transition>, added: seq<int>, step: seq<int>, t: Transition)
    requires Elems(added) <= Dests(done)
    requires step == [] || step == [t.to]
    ensures Elems(added + step) <= Dests(done + {t})
  {
    DestsAdd(done, t);
    ElemsAppend(added, step);
    if step != [] {
      assert Elems(step) == {t.to};
    } else {
      assert Elems(step) == {};
    }
  }

  lemma VisitExplored(h: map<int, int>, n: int, explored0: set<int>, explored: set<int>, added: seq<int>, step: seq<int>, t: Transition)
    requires h.Keys == Range(0, n) && 0 <= t.to < n && Elems(added) <= h.Keys
    requires explored == explored0 + Image(h, Elems(added))
    requires step == if h[t.to] in explored then [] else [t.to]
    ensures explored + {h[t.to]} == explored0 + Image(h, Elems(added + step))
  {
    if step != [] {
      ElemsAppend(added, step);
      assert Elems(step) == {t.to};
      ImageAdd(h, Elems(added), t.to);
      UnionAssoc(explored0, Image(h, Elems(added)), {h[t.to]});
    } else {
      assert added + step == added;
      AddPresent(explored, h[t.to]);
    }
  }


  lemma VisitCovered(h: map<int, int>, n: int, done: set<Transition>, explored: set<int>, t: Transition)
    requires h.Keys == Range(0, n) && 0 <= t.to < n && forall u :: u in done ==> 0 <= u.to < n
    requires Image(h, Dests(done)) <= explored
    ensures Image(h, Dests(done + {t})) <= explored + {h[t.to]}
  {
    DestsAdd(done, t);
    ImageAdd(h, Dests(done), t.to);
  }

  /** Moving `t` from the transitions left to the transitions done. */
  lemma TakeOne<T>(all: set<T>, rest: set<T>, done: set<T>, t: T)
    requires rest <= all && done == all - rest && t in rest
    ensures rest - {t} <= all && done + {t} == all - (rest - {t})
  {
  }

  /**
    The transitions of one dequeued state `x`: each adds its symbol and the
    representative of its destination to the row of the representative of
    `x`, and a destination whose representative is not explored yet is
    queued and its representative marked explored.
   */
  method VisitState(table: Table, n: int, h: map<int, int>, x: int, explored0: set<int>, queue0: seq<int>, qtable0: Table)
    returns (explored: set<int>, queue: seq<int>, qtable: Table, ghost added: seq<int>)
    requires h.Keys == Range(0, n) && 0 <= x < n && 0 <= h[x] < n && Bounded(table, n)
    ensures queue == queue0 + added
    ensures Elems(added) <= Dests(Out(table, x))
    ensures explored == explored0 + Image(h, Elems(added))
    ensures forall i :: 0 <= i < |added| ==> h[added[i]] !in explored0
    ensures Image(h, Dests(Out(table, x))) <= explored
    ensures qtable == if Out(table, x) == {} then qtable0
      else qtable0[h[h[x]] := Out(qtable0, h[h[x]]) + RenameTransitions(Out(table, x), h)]
  {
    var ts := Out(table, x);
    var c := h[h[x]];
    explored, queue, qtable, added := explored0, queue0, qtable0, [];
    var rest := ts;
    ghost var done: set<Transition> := {};
    while rest != {}
      invariant rest <= ts && done == ts - rest
      invariant Visiting(h, n, done, explored0, queue0, explored, queue, added)
      invariant RowBuilt(h, c, done, qtable0, qtable)
      decreases rest
    {
      var t :| t in rest;
      var step := if h[t.to] in explored then [] else [t.to];
      VisitStep(h, n, done, t, explored0, queue0, explored, queue, added, step);
      RowStep(h, c, done, t, qtable0, qtable);
      TakeOne(ts, rest, done, t);
      var row := Out(qtable, c);
      qtable := qtable[c := row + {Transition(t.symbol, h[t.to])}];
      // adding a state already explored changes nothing, so the test only guards the queue
      queue, explored := queue + step, explored + {h[t.to]};
      added := added + step;
      rest := rest - {t};
      done := done + {t};
    }
    assert done == ts;
  }

  /**
    `h` maps the states below `n` onto representatives among them, and a
    state's row, with destinations replaced by representatives, is the row
    of its representative: the merge may read the row of any state of a class.
   */
  ghost predicate Quotienting(table: Table, h: map<int, int>, n: int) {
    && Bounded(table, n) && h.Keys == Range(0, n)
    && (forall x {:trigger x in h} :: 0 <= x < n ==> 0 <= h[x] < n && h[h[x]] == h[x])
    && (forall x {:trigger x in h} :: 0 <= x < n ==> RenameTransitions(Out(table, x), h) == RenameTransitions(Out(table, h[x]), h))
  }

  /**
    A map to representatives that respects a symmetric post-fixed point `r`,
    and maps every state to a related state, quotients the table.
   */
  lemma RepresentingQuotients(table: Table, r: Rel, n: int, h: map<int, int>)
    requires Symmetric(r) && PostFixed(table, r) && Bounded(table, n) && h.Keys == Range(0, n)
    requires forall x :: 0 <= x < n ==> 0 <= h[x] < n && (x, h[x]) in r && h[h[x]] == h[x]
    requires Respects(h, r)
    ensures Quotienting(table, h, n)
  {
    forall x | 0 <= x < n
      ensures RenameTransitions(Out(table, x), h) == RenameTransitions(Out(table, h[x]), h)
    {
      RowsAgree(table, r, h, x, h[x]);
    }
  }

  /** The states below `n` reachable from `root`. */
  ghost function Reached(table: Table, root: int, n: int): set<int> {
    set y | 0 <= y < n && Reachable(Edge(table), root, y)
  }

  /** Renaming destinations leaves a row empty exactly when it was empty. */
  lemma RenamedEmpty(ts: set<Transition>, h: map<int, int>)
    requires forall t :: t in ts ==> t.to in h
    ensures RenameTransitions(ts, h) == {} <==> ts == {}
  {
    if ts != {} {
      var t :| t in ts;
      assert Transition(t.symbol, h[t.to]) in RenameTransitions(ts, h);
    }
  }

  /** A class whose row is empty adds no entry. */
  lemma QuotientKeep(table: Table, h: map<int, int>, classes: set<int>, c: int)
    requires forall q, t :: q in table && t in table[q] ==> t.to in h
    requires Out(table, c) == {}
    ensures QuotientTable(table, h, classes + {c}) == QuotientTable(table, h, classes)
  {
    var q := QuotientTable(table, h, classes);
    var q' := QuotientTable(table, h, classes + {c});
    assert q'.Keys == q.Keys;
  }

  /** A class whose row is not empty adds its renamed row. */
  lemma QuotientGrow(table: Table, h: map<int, int>, classes: set<int>, c: int, row: set<Transition>)
    requires forall q, t :: q in table && t in table[q] ==> t.to in h
    requires Out(table, c) != {} && row == RenameTransitions(Out(table, c), h)
    ensures QuotientTable(table, h, classes + {c}) == QuotientTable(table, h, classes)[c := row]
    ensures Out(QuotientTable(table, h, classes), c) + row == row
  {
    var q := QuotientTable(table, h, classes);
    var q' := QuotientTable(table, h, classes + {c});
    assert q'.Keys == q.Keys + {c};
  }

  /** Adding the class of `x` to the built classes adds the renamed row of `x`. */
  lemma QuotientAdd(table: Table, h: map<int, int>, n: int, classes: set<int>, x: int)
    requires Quotienting(table, h, n) && 0 <= x < n
    ensures QuotientTable(table, h, classes + {h[x]}) ==
      if Out(table, x) == {} then QuotientTable(table, h, classes)
      else QuotientTable(table, h, classes)[h[x] := Out(QuotientTable(table, h, classes), h[x]) + RenameTransitions(Out(table, x), h)]
  {
    var c := h[x];
    RenamedEmpty(Out(table, x), h);
    RenamedEmpty(Out(table, c), h);
    var row := RenameTransitions(Out(table, c), h);
    assert RenameTransitions(Out(table, x), h) == row;
    if Out(table, x) == {} {
      QuotientKeep(table, h, classes, c);
    } else {
      QuotientGrow(table, h, classes, c, row);
    }
  }

  /**
    The bookkeeping of the merging search over the states `visited` already
    taken out of the queue: visited and queued states are reachable states;
    the explored representatives are theirs; every successor of a visited
    state has its representative explored; the table built so far holds the
    renamed rows of the representatives of the visited states.
   */
  ghost predicate QSearch(table: Table, h: map<int, int>, n: int, root: int, visited: set<int>, queue: seq<int>,
                          explored: set<int>, qtable: Table) {
    && Quotienting(table, h, n) && 0 <= root < n
    && visited <= Range(0, n) && Elems(queue) <= Range(0, n)
    && explored == Image(h, visited + Elems(queue))
    && (forall v :: v in visited + Elems(queue) ==> Reachable(Edge(table), root, v))
    && (forall v :: v in visited ==> Image(h, Successors(table, v)) <= explored)
    && root in visited + Elems(queue)
    && qtable == QuotientTable(table, h, Image(h, visited))
  }

  lemma ImageUnion(h: map<int, int>, a: set<int>, b: set<int>)
    requires a <= h.Keys && b <= h.Keys
    ensures Image(h, a + b) == Image(h, a) + Image(h, b)
  {
  }

  /** Taking the head of the queue into the visited states and queueing `added`. */
  lemma QUnion(visited: set<int>, queue0: seq<int>, added: seq<int>)
    requires queue0 != []
    ensures queue0[0] in Elems(queue0)
    ensures (visited + {queue0[0]}) + Elems(queue0[1..] + added) == (visited + Elems(queue0)) + Elems(added)
  {
    var x := queue0[0];
    assert queue0 == [x] + queue0[1..];
    ElemsAppend([x], queue0[1..]);
    ElemsAppend(queue0[1..], added);
    assert Elems([x]) == {x};
  }

  /** The destinations queued from a reachable state are reachable. */
  lemma QAddedReachable(table: Table, root: int, x: int, added: seq<int>)
    requires Reachable(Edge(table), root, x) && Elems(added) <= Dests(Out(table, x))
    ensures forall q :: q in Elems(added) ==> Reachable(Edge(table), root, q)
  {
    forall q | q in Elems(added) ensures Reachable(Edge(table), root, q) {
      assert q in Successors(table, x);
      ReachableStep(Edge(table), root, x, q);
    }
  }

  /** Taking `x` out of the queue and visiting its transitions keeps the bookkeeping. */
  lemma QStep(table: Table, h: map<int, int>, n: int, root: int, visited: set<int>, queue0: seq<int>,
              explored0: set<int>, qtable0: Table, explored: set<int>, queue: seq<int>, qtable: Table, added: seq<int>)
    requires QSearch(table, h, n, root, visited, queue0, explored0, qtable0) && queue0 != []
    requires queue == queue0[1..] + added
    requires Elems(added) <= Dests(Out(table, queue0[0]))
    requires explored == explored0 + Image(h, Elems(added))
    requires Image(h, Dests(Out(table, queue0[0]))) <= explored
    requires qtable == if Out(table, queue0[0]) == {} then qtable0
      else qtable0[h[h[queue0[0]]] := Out(qtable0, h[h[queue0[0]]]) + RenameTransitions(Out(table, queue0[0]), h)]
    ensures QSearch(table, h, n, root, visited + {queue0[0]}, queue, explored, qtable)
    ensures explored0 <= explored <= Range(0, n) && Elems(added) <= h.Keys
  {
    var x := queue0[0];
    var u, a := visited + Elems(queue0), Elems(added);
    QUnion(visited, queue0, added);
    assert Dests(Out(table, x)) == Successors(table, x);
    assert a <= Range(0, n);
    QAddedReachable(table, root, x, added);
    QReach(table, root, u, a, (visited + {x}) + Elems(queue));
    ImageUnion(h, u, a);
    ImageRange(h, n, u + a);
    assert explored == Image(h, (visited + {x}) + Elems(queue));
    QCovered(table, h, n, visited, x, explored0, explored);
    ImageAdd(h, visited, x);
    QuotientAdd(table, h, n, Image(h, visited), x);
  }

  lemma QReach(table: Table, root: int, u: set<int>, a: set<int>, s: set<int>)
    requires forall v :: v in u ==> Reachable(Edge(table), root, v)
    requires forall v :: v in a ==> Reachable(Edge(table), root, v)
    requires s == u + a
    ensures forall v :: v in s ==> Reachable(Edge(table), root, v)
  {
  }

  lemma QCovered(table: Table, h: map<int, int>, n: int, visited: set<int>, x: int, explored0: set<int>, explored: set<int>)
    requires Bounded(table, n) && h.Keys == Range(0, n)
    requires forall v :: v in visited ==> Image(h, Successors(table, v)) <= explored0
    requires Image(h, Successors(table, x)) <= explored
    requires explored0 <= explored
    ensures forall v :: v in visited + {x} ==> Image(h, Successors(table, v)) <= explored
  {
  }

  /** Representatives of states below `n` are below `n`. */
  lemma ImageRange(h: map<int, int>, n: int, s: set<int>)
    requires h.Keys == Range(0, n) && (forall x :: 0 <= x < n ==> 0 <= h[x] < n) && s <= Range(0, n)
    ensures Image(h, s) <= Range(0, n)
  {
  }

  /** The search starts with the root queued and its representative explored. */
  lemma QStart(table: Table, h: map<int, int>, n: int, root: int)
    requires Quotienting(table, h, n) && 0 <= root < n
    ensures QSearch(table, h, n, root, {}, [root], {h[root]}, map[])
  {
    ReachableRefl(Edge(table), root);
    StartSets(h, root);
    QuotientNone(table, h);
  }

  lemma StartSets(h: map<int, int>, root: int)
    requires root in h
    ensures {} + Elems([root]) == {root} && Image(h, {root}) == {h[root]} && Image(h, {}) == {}
  {
    assert Elems([root]) == {root};
  }

  lemma QuotientNone(table: Table, h: map<int, int>)
    requires forall q, t :: q in table && t in table[q] ==> t.to in h
    ensures QuotientTable(table, h, {}) == map[]
  {
  }

  /** What the search needs to visit the head of its queue. */
  lemma QHead(table: Table, h: map<int, int>, n: int, root: int, visited: set<int>, queue: seq<int>,
              explored: set<int>, qtable: Table)
    requires QSearch(table, h, n, root, visited, queue, explored, qtable) && queue != []
    ensures h.Keys == Range(0, n) && 0 <= queue[0] < n && 0 <= h[queue[0]] < n && Bounded(table, n)
  {
    assert queue[0] in Elems(queue);
  }

  /** The measure of the merging search decreases at every step. */
  lemma QMeasure(h: map<int, int>, n: int, explored0: set<int>, queue0: seq<int>, explored: set<int>, queue: seq<int>, added: seq<int>)
    requires Elems(added) <= h.Keys
    requires explored0 <= explored <= Range(0, n) && queue0 != []
    requires queue == queue0[1..] + added
    requires explored == explored0 + Image(h, Elems(added))
    requires forall i :: 0 <= i < |added| ==> h[added[i]] !in explored0
    ensures |Range(0, n) - explored| < |Range(0, n) - explored0| || (explored == explored0 && |queue| < |queue0|)
  {
    if added == [] {
      assert Elems(added) == {};
    } else {
      assert added[0] in Elems(added);
      FewerLeft(Range(0, n), explored0, explored, h[added[0]]);
    }
  }

  /**
    Once the queue is empty the explored representatives are exactly those
    of the reachable states: the states whose representative is explored
    cannot be left along an edge.
   */
  lemma QDone(table: Table, h: map<int, int>, n: int, root: int, visited: set<int>, explored: set<int>, qtable: Table)
    requires QSearch(table, h, n, root, visited, [], explored, qtable)
    ensures explored == Image(h, Reached(table, root, n))
    ensures qtable == QuotientTable(table, h, explored)
  {
    assert Elems([]) == {};
    assert visited + Elems([]) == visited;
    VisitedClosed(table, h, n, root, visited, explored);
  }

  /** The visited states, left only towards classes already explored, give the explored classes of the reachable states. */
  lemma VisitedClosed(table: Table, h: map<int, int>, n: int, root: int, visited: set<int>, explored: set<int>)
    requires Quotienting(table, h, n) && 0 <= root < n && root in visited
    requires visited <= Range(0, n) && explored == Image(h, visited)
    requires forall v :: v in visited ==> Reachable(Edge(table), root, v)
    requires forall v :: v in visited ==> Image(h, Successors(table, v)) <= explored
    ensures explored == Image(h, Reached(table, root, n))
  {
    var inside := set y | 0 <= y < n && h[y] in explored;
    ClassesClosed(table, h, n, visited, explored);
    assert root in inside;
    ClosedContainsReachable(Edge(table), root, inside);
    assert Reached(table, root, n) <= inside;
    assert visited <= Reached(table, root, n);
    ImageBetween(h, visited, Reached(table, root, n), explored);
  }

  /** A set between `a` and `b` whose image stays within `Image(h, a)` has exactly that image. */
  lemma ImageBetween(h: map<int, int>, a: set<int>, b: set<int>, explored: set<int>)
    requires a <= b <= h.Keys && explored == Image(h, a)
    requires forall y :: y in b ==> h[y] in explored
    ensures explored == Image(h, b)
  {
    forall c | c in Image(h, b) ensures c in explored {
      var y := ImageWitness(h, b, c);
      assert h[y] in explored;
    }
    assert Image(h, a) <= Image(h, b);
  }

  /**
    When every successor of a visited state has its representative among
    those of the visited states, the states with such a representative
    cannot be left along an edge: related states have edges to related states.
   */
  lemma ClassesClosed(table: Table, h: map<int, int>, n: int, visited: set<int>, explored: set<int>)
    requires Quotienting(table, h, n) && visited <= Range(0, n) && explored == Image(h, visited)
    requires forall v :: v in visited ==> Image(h, Successors(table, v)) <= explored
    ensures ClosedUnder(Edge(table), set y | 0 <= y < n && h[y] in explored)
  {
    var inside := set y | 0 <= y < n && h[y] in explored;
    forall x, y | x in inside && (x, y) in Edge(table) ensures y in inside {
      var v :| v in visited && h[v] == h[x];
      var t :| t in Out(table, x) && t.to == y;
      assert 0 <= y < n;
      assert RenameTransitions(Out(table, x), h) == RenameTransitions(Out(table, v), h);
      assert Transition(t.symbol, h[y]) in RenameTransitions(Out(table, v), h);
      var t' :| t' in Out(table, v) && Transition(t.symbol, h[y]) == Transition(t'.symbol, h[t'.to]);
      assert t'.to in Successors(table, v);
    }
  }

  /**
    The search of `mergeEquivalentStates`: from the least initial state it
    visits one state of every reachable class, and builds the table over
    the representatives of the classes it reaches.
   */
  method BuildQuotient(table: Table, n: int, h: map<int, int>, root: int) returns (explored: set<int>, qtable: Table)
    requires Quotienting(table, h, n) && 0 <= root < n
    ensures explored == Image(h, Reached(table, root, n))
    ensures qtable == QuotientTable(table, h, explored)
  {
    var queue := [root];
    explored := {h[root]};
    qtable := map[];
    ghost var visited: set<int> := {};
    QStart(table, h, n, root);
    while queue != []
      invariant QSearch(table, h, n, root, visited, queue, explored, qtable)
      decreases |Range(0, n) - explored|, |queue|
    {
      var x := queue[0];
      QHead(table, h, n, root, visited, queue, explored, qtable);
      ghost var explored0, queue0, qtable0 := explored, queue, qtable;
      ghost var added;
      explored, queue, qtable, added := VisitState(table, n, h, x, explored, queue[1..], qtable);
      QStep(table, h, n, root, visited, queue0, explored0, qtable0, explored, queue, qtable, added);
      QMeasure(h, n, explored0, queue0, explored, queue, added);
      visited := visited + {x};
    }
    QDone(table, h, n, root, visited, explored, qtable);
  }

  // ---------------------------------------------------------------------
  // What the merged automaton is

  /** The refined table over a deterministic automaton is an equivalence that passes its own test. */
  lemma StableEquivalence(table: Table, n: int, finals: set<int>, r: Rel)
    requires Deterministic(table) && Bounded(table, n)
    requires Symmetric(r) && Reflexive(r, n) && r <= SameFinality(n, finals)
    requires Stable(table, r, n) && Greatest(table, n, finals, r)
    ensures IsEquivalence(r, n) && PostFixed(table, r)
  {
    assert SameFinality(n, finals) <= Cells(n);
    StablePostFixed(table, n, r);
    GreatestTransitive(table, n, finals, r);
  }

  /**
    The table over the explored representatives names only explored
    representatives: its rows are those of reachable states, whose
    successors are reachable.
   */
  lemma QuotientWellFormed(table: Table, h: map<int, int>, n: int, root: int, explored: set<int>)
    requires Quotienting(table, h, n) && 0 <= root < n && explored == Image(h, Reached(table, root, n))
    ensures explored <= Range(0, n) && h[root] in explored
    ensures QuotientTable(table, h, explored).Keys <= explored
    ensures forall c, t :: c in QuotientTable(table, h, explored) && t in QuotientTable(table, h, explored)[c] ==> t.to in explored
  {
    ReachableRefl(Edge(table), root);
    assert root in Reached(table, root, n);
    var q := QuotientTable(table, h, explored);
    forall c, t: Transition | c in q && t in q[c] ensures t.to in explored {
      QuotientDest(table, h, n, root, c, t);
    }
  }

  /** A transition of the row of an explored representative leads to an explored representative. */
  lemma QuotientDest(table: Table, h: map<int, int>, n: int, root: int, c: int, t: Transition)
    requires Quotienting(table, h, n) && c in Image(h, Reached(table, root, n))
    requires t in RenameTransitions(Out(table, c), h)
    ensures t.to in Image(h, Reached(table, root, n))
  {
    var x :| x in Reached(table, root, n) && h[x] == c;
    assert t in RenameTransitions(Out(table, x), h);
    var u :| u in Out(table, x) && t == Transition(u.symbol, h[u.to]);
    ReachedStep(table, root, n, x, u);
  }

  /** The destination of a transition out of a reached state is reached. */
  lemma ReachedStep(table: Table, root: int, n: int, x: int, u: Transition)
    requires Bounded(table, n) && x in Reached(table, root, n) && u in Out(table, x)
    ensures u.to in Reached(table, root, n)
  {
    assert u.to in Successors(table, x);
    assert (x, u.to) in Edge(table);
    ReachableStep(Edge(table), root, x, u.to);
  }

  /**
    The merged table is a homomorphic image of the reachable part: the row
    of the representative of a reachable state is that state's row with
    every destination replaced by its representative.
   */
  lemma QuotientRows(table: Table, h: map<int, int>, n: int, root: int, x: int)
    requires Quotienting(table, h, n) && x in Reached(table, root, n)
    ensures Out(QuotientTable(table, h, Image(h, Reached(table, root, n))), h[x]) == RenameTransitions(Out(table, x), h)
  {
    RenamedEmpty(Out(table, x), h);
    RenamedEmpty(Out(table, h[x]), h);
  }

  /** A reachable state is final exactly when its representative is a final state of the merged automaton. */
  lemma QuotientFinals(r: Rel, n: int, finals: set<int>, h: map<int, int>, explored: set<int>, x: int)
    requires IsEquivalence(r, n) && r <= SameFinality(n, finals) && Representing(h, r, n)
    requires finals <= Range(0, n) && 0 <= x < n && h[x] in explored
    ensures x in finals <==> h[x] in Image(h, finals) * explored
  {
    RepresentingFacts(h, r, n);
    if h[x] in Image(h, finals) {
      var f :| f in finals && h[f] == h[x];
      assert (x, f) in r;
    }
  }

  /** Deterministic rows stay deterministic when destinations are replaced by representatives. */
  lemma QuotientDeterministic(table: Table, h: map<int, int>, classes: set<int>)
    requires forall q, t :: q in table && t in table[q] ==> t.to in h
    requires Deterministic(table)
    ensures Deterministic(QuotientTable(table, h, classes))
  {
    var q := QuotientTable(table, h, classes);
    forall c, t1: Transition, t2: Transition | c in q && t1 in q[c] && t2 in q[c] && t1.symbol == t2.symbol ensures t1 == t2 {
      var u1 :| u1 in table[c] && t1 == Transition(u1.symbol, h[u1.to]);
      var u2 :| u2 in table[c] && t2 == Transition(u2.symbol, h[u2.to]);
    }
  }

  /** No two distinct representatives are equivalent: the merge leaves nothing to merge. */
  lemma QuotientReduced(r: Rel, n: int, h: map<int, int>, c1: int, c2: int)
    requires IsEquivalence(r, n) && Representing(h, r, n)
    requires c1 in Image(h, Range(0, n)) && c2 in Image(h, Range(0, n)) && (c1, c2) in r
    ensures c1 == c2
  {
    RepresentingFacts(h, r, n);
    var x1 :| x1 in Range(0, n) && h[x1] == c1;
    var x2 :| x2 in Range(0, n) && h[x2] == c2;
    assert (x1, c1) in r && (c2, x2) in r;
  }

  /** The loop over the final states: the explored representatives of final states. */
  method MapFinals(finals: set<int>, h: map<int, int>, explored: set<int>) returns (newFinals: set<int>)
    requires finals <= h.Keys
    ensures newFinals == Image(h, finals) * explored
  {
    newFinals := {};
    var rest := finals;
    while rest != {}
      invariant rest <= finals
      invariant newFinals == Image(h, finals - rest) * explored
      decreases rest
    {
      // `w` shows `rest` has an element, so the choice below exists.
      ghost var w := Min(rest);
      var f :| f in rest;
      if h[f] in explored {
        newFinals := newFinals + {h[f]};
      }
      ImageAdd(h, finals - rest, f);
      assert finals - (rest - {f}) == (finals - rest) + {f};
      rest := rest - {f};
    }
    assert finals - rest == finals;
  }

  /**
    `r` is the relation the refined equivalence table holds: an equivalence
    that keeps final states apart from non-final ones, passes its own test,
    and contains every relation that does both.
   */
  ghost predicate EquivalenceOf(table: Table, n: int, finals: set<int>, r: Rel) {
    IsEquivalence(r, n) && PostFixed(table, r) && r <= SameFinality(n, finals) && Greatest(table, n, finals, r)
  }

  /**
    The fields of the merged automaton before its final renumbering: the
    representatives of the states reachable from the least initial state,
    the representative of that state as the only initial state, the explored
    representatives of final states, and the table over the explored
    representatives.
   */
  ghost predicate Merged(table: Table, n: int, initials: set<int>, finals: set<int>, h: map<int, int>,
                         states': set<int>, initials': set<int>, finals': set<int>, table': Table) {
    && Quotienting(table, h, n) && initials != {} && initials <= Range(0, n) && finals <= Range(0, n)
    && states' == Image(h, Reached(table, Min(initials), n))
    && initials' == {h[Min(initials)]}
    && finals' == Image(h, finals) * states'
    && table' == QuotientTable(table, h, states')
  }

  /** Merging never adds states: there are at most as many representatives as states. */
  lemma MergedCard(table: Table, n: int, initials: set<int>, finals: set<int>, h: map<int, int>,
                   states': set<int>, initials': set<int>, finals': set<int>, table': Table)
    requires Merged(table, n, initials, finals, h, states', initials', finals', table')
    ensures |states'| <= n
  {
    var reached := Reached(table, Min(initials), n);
    ImageCard(h, reached);
    SubsetCard(reached, Range(0, n));
  }

  /**
    The first part of `mergeEquivalentStates` on a deterministic automaton
    with states `0` to `n - 1`: the equivalence table, its grouping into
    sets of equivalent states, and the map of every state to the least
    state of its set.
   */
  method EquivalentMap(table: Table, n: nat, states: set<int>, finals: set<int>) returns (equivalentMap: map<int, int>, ghost r: Rel)
    requires states == Range(0, n) && finals <= states && Bounded(table, n) && Deterministic(table)
    ensures EquivalenceOf(table, n, finals, r) && Representing(equivalentMap, r, n)
  {
    var tbl := EquivalenceTable(table, n, states, finals);
    r := TrueSet(tbl);
    ShapedRelation(tbl, n, finals);
    StableEquivalence(table, n, finals, r);
    var equivalentStates;
    ghost var g;
    equivalentStates, g := GroupClasses(tbl, n, r);
    ClassesPartition(r, n, equivalentStates, g);
    equivalentMap := Representatives(equivalentStates, states);
    RepresentativesAreLeast(r, n, equivalentStates, equivalentMap);
  }

  /**
    The rest of `mergeEquivalentStates` on the fields of a deterministic
    automaton with states `0` to `n - 1` and at least one initial state:
    the map to representatives, the search over the representatives from
    the least initial state, and the final and initial states of the result.
    The new fields form a well-formed deterministic automaton.
   */
  method MergeFields(table: Table, n: nat, states: set<int>, initials: set<int>, finals: set<int>)
    returns (states': set<int>, initials': set<int>, finals': set<int>, table': Table, ghost r: Rel, ghost h: map<int, int>)
    requires states == Range(0, n) && initials != {} && initials <= states && finals <= states
    requires Bounded(table, n) && Deterministic(table)
    ensures EquivalenceOf(table, n, finals, r) && Representing(h, r, n)
    ensures Merged(table, n, initials, finals, h, states', initials', finals', table')
    ensures WellFormed(states', initials', finals', table') && Deterministic(table')
  {
    var equivalentMap;
    equivalentMap, r := EquivalentMap(table, n, states, finals);
    h := equivalentMap;
    EquivalenceQuotients(table, n, finals, r, h);
    var root := Min(initials);
    states', table' := BuildQuotient(table, n, equivalentMap, root);
    finals' := MapFinals(finals, equivalentMap, states');
    initials' := {equivalentMap[root]};
    QuotientFields(table, n, finals, h, root, states', initials', finals', table');
  }

  /** The map to the least state of each class of the greatest equivalence quotients the table. */
  lemma EquivalenceQuotients(table: Table, n: int, finals: set<int>, r: Rel, h: map<int, int>)
    requires Bounded(table, n) && EquivalenceOf(table, n, finals, r) && Representing(h, r, n)
    ensures Quotienting(table, h, n)
  {
    RepresentingFacts(h, r, n);
    RepresentingRespects(h, r, n);
    RepresentingQuotients(table, r, n, h);
  }

  /** The merged fields of a deterministic table form a well-formed deterministic automaton. */
  lemma QuotientFields(table: Table, n: int, finals: set<int>, h: map<int, int>, root: int,
                       states': set<int>, initials': set<int>, finals': set<int>, table': Table)
    requires Quotienting(table, h, n) && 0 <= root < n && finals <= Range(0, n) && Deterministic(table)
    requires states' == Image(h, Reached(table, root, n)) && table' == QuotientTable(table, h, states')
    requires initials' == {h[root]} && finals' == Image(h, finals) * states'
    ensures WellFormed(states', initials', finals', table') && Deterministic(table')
  {
    QuotientWellFormed(table, h, n, root, states');
    QuotientDeterministic(table, h, states');
  }

  /**
    The end of `mergeEquivalentStates`: a new deterministic automaton is
    filled with the merged fields and renumbered from 0.
   */
  method NewRenumbered(alphabet: set<string>, states: set<int>, initials: set<int>, finals: set<int>, table: Table)
    returns (result: Automaton, ghost m: map<int, int>, ghost order: seq<int>)
    requires WellFormed(states, initials, finals, table) && initials != {} && Deterministic(table)
    ensures fresh(result) && result.kind == DFA && result.alphabet == alphabet
    ensures Renumbered(0, m, order, states, initials, finals, table, result.states, result.initials, result.finals, result.table)
    ensures result.Valid() && Deterministic(result.table)
  {
    result := new Automaton.Of(DFA, alphabet, states, finals, initials, table);
    ghost var renamed;
    renamed, m, order := result.Rename(0);
    RenamedDeterministic(table, m);
  }

  /** The intermediate results of `mergeEquivalentStates`. */
  datatype MergeTrace = MergeTrace(renaming: map<int, int>, order: seq<int>, renamed: Fields, rel: Rel,
                                   h: map<int, int>, merged: (set<int>, set<int>, set<int>, Table),
                                   m: map<int, int>, order': seq<int>)

  /**
    What `mergeEquivalentStates` computes from the fields `x`, as values:
    `t.renamed` is `x` renamed from 0 in breadth-first order, `t.rel` the
    greatest finality-respecting post-fixed equivalence on it and `t.h` the
    map to the least state of each class; `t.merged` is the quotient over the
    representatives of the reachable states, and `z` is it renumbered from 0.
   */
  ghost predicate MergedFrom(x: Fields, t: MergeTrace, z: Fields) {
    var y, q := t.renamed, t.merged;
    && y.alphabet == x.alphabet
    && Renumbered(0, t.renaming, t.order, x.states, x.initials, x.finals, x.table,
                  y.states, y.initials, y.finals, y.table)
    && WellFormedFields(y) && Deterministic(y.table)
    && EquivalenceOf(y.table, |y.states|, y.finals, t.rel) && Representing(t.h, t.rel, |y.states|)
    && Merged(y.table, |y.states|, y.initials, y.finals, t.h, q.0, q.1, q.2, q.3)
    && z.alphabet == y.alphabet
    && Renumbered(0, t.m, t.order', q.0, q.1, q.2, q.3, z.states, z.initials, z.finals, z.table)
    && WellFormedFields(z) && Deterministic(z.table)
  }

  /**
    `mergeEquivalentStates`. The automaton is first renumbered from 0 in
    place (with no initial state this fails, and `ok` is false). The
    equivalence table then relates exactly the pairs of the greatest
    relation that keeps final states apart from non-final ones and passes
    its own test; every state is mapped to the least state of its class;
    the search from the least initial state builds the table over the
    representatives it reaches; the final states are the explored
    representatives of final states and the one initial state is the
    representative of the least initial state. The result is a new
    deterministic automaton, renumbered from 0.
   */
  method MergeEquivalentStates(a: Automaton)
    returns (ok: bool, result: Automaton, ghost renaming: map<int, int>, ghost order: seq<int>, ghost r: Rel,
             ghost h: map<int, int>, ghost merged: (set<int>, set<int>, set<int>, Table), ghost m: map<int, int>,
             ghost order': seq<int>)
    requires a.Valid() && Deterministic(a.table)
    modifies a
    ensures ok == (old(a.initials) != {})
    ensures !ok ==> unchanged(a)
    ensures ok ==> a.alphabet == old(a.alphabet)
    ensures ok ==> Renumbered(0, renaming, order, old(a.states), old(a.initials), old(a.finals), old(a.table),
                              a.states, a.initials, a.finals, a.table)
    ensures ok ==> a.Valid() && Deterministic(a.table)
    ensures ok ==> EquivalenceOf(a.table, |a.states|, a.finals, r) && Representing(h, r, |a.states|)
    ensures ok ==> Merged(a.table, |a.states|, a.initials, a.finals, h, merged.0, merged.1, merged.2, merged.3)
    ensures ok ==> fresh(result) && result.kind == DFA && result.alphabet == a.alphabet
    ensures ok ==> Renumbered(0, m, order', merged.0, merged.1, merged.2, merged.3,
                              result.states, result.initials, result.finals, result.table)
    ensures ok ==> result.Valid() && Deterministic(result.table)
  {
    ok, renaming, order := a.Rename(0);
    if !ok {
      return ok, a, renaming, order, {}, map[], ({}, {}, {}, map[]), map[], [];
    }
    RenamedDeterministic(old(a.table), renaming);
    var n, table, initials, finals := |a.states|, a.table, a.initials, a.finals;
    assert Bounded(table, n);
    var newStates, newInitials, newFinals, newTable;
    newStates, newInitials, newFinals, newTable, r, h := MergeFields(table, n, a.states, initials, finals);
    merged := (newStates, newInitials, newFinals, newTable);
    result, m, order' := NewRenumbered(a.alphabet, newStates, newInitials, newFinals, newTable);
  }
}
