/**
  The merge of equivalent states that ends the minimization: a boolean
  table over pairs of states, first split by finality and then refined
  until no pair changes, read as an equivalence relation; every state is
  replaced by the least state of its class, and the classes reachable from
  the initial state form the merged automaton.

  A relation on states is kept as the set of its pairs. The table is an
  `n`-by-`n` array; `TrueSet` is the relation it holds.
 */
module Equivalence {
  import opened Orders
  import opened Graphs
  import opened Numberings
  import opened Automata

  type Rel = set<(int, int)>

  // ---------------------------------------------------------------------
  // Relations on states

  /** The cells of the first `k` rows of a table `n` wide. */
  ghost function Grid(k: int, n: int): Rel {
    set i, j | 0 <= i < k && 0 <= j < n :: (i, j)
  }

  /** All pairs of states below `n`. */
  ghost function Cells(n: int): Rel {
    Grid(n, n)
  }

  ghost function RowCells(i: int, m: int): Rel {
    set j | 0 <= j < m :: (i, j)
  }

  lemma {:induction false} RowCellsCard(i: int, m: nat)
    ensures |RowCells(i, m)| == m
    decreases m
  {
    if m > 0 {
      RowCellsCard(i, m - 1);
      assert RowCells(i, m) == RowCells(i, m - 1) + {(i, m - 1)};
    }
  }

  /** A table `n` by `n` has `n * n` cells: the initial value of `equivalentCount`. */
  lemma {:induction false} GridCard(k: nat, n: nat)
    ensures |Grid(k, n)| == k * n
    decreases k
  {
    if k > 0 {
      GridCard(k - 1, n);
      RowCellsCard(k - 1, n);
      GridSplit(k, n);
      MulStep(k, n);
    }
  }

  /** The first `k` rows are the first `k - 1` rows and, apart from them, row `k - 1`. */
  lemma GridSplit(k: int, n: int)
    requires k > 0
    ensures Grid(k, n) == Grid(k - 1, n) + RowCells(k - 1, n)
    ensures Grid(k - 1, n) * RowCells(k - 1, n) == {}
  {
  }

  lemma MulStep(k: int, n: int)
    ensures k * n == (k - 1) * n + n
  {
  }

  ghost predicate Symmetric(r: Rel) {
    forall i, j :: (i, j) in r ==> (j, i) in r
  }

  ghost predicate Transitive(r: Rel) {
    forall i, j, k :: (i, j) in r && (j, k) in r ==> (i, k) in r
  }

  ghost predicate Reflexive(r: Rel, n: int) {
    forall i :: 0 <= i < n ==> (i, i) in r
  }

  /** The pairs of states below `n` that are both final or both not final. */
  ghost function SameFinality(n: int, finals: set<int>): Rel {
    set i, j | 0 <= i < n && 0 <= j < n && (i in finals <==> j in finals) :: (i, j)
  }

  ghost function Transpose(r: Rel): Rel {
    set p | p in r :: (p.1, p.0)
  }

  ghost function Compose(r: Rel): Rel {
    set p, q | p in r && q in r && p.1 == q.0 :: (p.0, q.1)
  }

  // ---------------------------------------------------------------------
  // The refinement step, as the source states it and as a relation

  /**
    The test a pair `(i, j)` passes to stay equivalent under `r`: as many
    transitions leave `i` as `j`, and for each transition of `i` a
    transition of `j` on the same symbol leads to a state `r` relates to
    its destination.
   */
  ghost predicate Survives(table: Table, r: Rel, i: int, j: int) {
    && |Out(table, i)| == |Out(table, j)|
    && forall t1 :: t1 in Out(table, i) ==>
         exists t2 :: t2 in Out(table, j) && t2.symbol == t1.symbol && (t1.to, t2.to) in r
  }

  /**
    The same test written symmetrically: `i` and `j` leave on the same
    symbols, and transitions on a common symbol lead to related states.
   */
  ghost predicate Agree(table: Table, r: Rel, i: int, j: int) {
    && Labels(Out(table, i)) == Labels(Out(table, j))
    && forall t1, t2 :: t1 in Out(table, i) && t2 in Out(table, j) && t1.symbol == t2.symbol ==> (t1.to, t2.to) in r
  }

  /**
    A relation every pair of which passes the test against the relation
    itself; the table the refinement ends with is the largest of these
    that keeps final and non-final states apart.
   */
  ghost predicate PostFixed(table: Table, r: Rel) {
    forall p :: p in r ==> Agree(table, r, p.0, p.1)
  }

  /** In a deterministic table a state has one transition per symbol it leaves on. */
  lemma {:induction false} LabelsCard(ts: set<Transition>)
    requires forall t1, t2 :: t1 in ts && t2 in ts && t1.symbol == t2.symbol ==> t1 == t2
    ensures |Labels(ts)| == |ts|
    decreases |ts|
  {
    if ts != {} {
      var t := Pick(ts);
      var rest := ts - {t};
      LabelsCard(rest);
      assert Labels(ts) == Labels(rest) + {t.symbol};
      assert t.symbol !in Labels(rest);
    }
  }

  /** For deterministic tables the test of the source is the symmetric one. */
  lemma SurvivesIsAgree(table: Table, r: Rel, i: int, j: int)
    requires Deterministic(table)
    ensures Survives(table, r, i, j) <==> Agree(table, r, i, j)
  {
    if Survives(table, r, i, j) {
      SurvivesAgree(table, r, i, j);
    }
    if Agree(table, r, i, j) {
      AgreeSurvives(table, r, i, j);
    }
  }

  lemma SurvivesAgree(table: Table, r: Rel, i: int, j: int)
    requires Deterministic(table) && Survives(table, r, i, j)
    ensures Agree(table, r, i, j)
  {
    var ti, tj := Out(table, i), Out(table, j);
    LabelsCard(ti);
    LabelsCard(tj);
    var li, lj := Labels(ti), Labels(tj);
    assert li <= lj by {
      forall a | a in li ensures a in lj {
        var t1 :| t1 in ti && t1.symbol == a;
        var t2 :| t2 in tj && t2.symbol == a && (t1.to, t2.to) in r;
      }
    }
    SubsetCard(li, lj);
    assert forall t1, t2 :: t1 in ti && t2 in tj && t1.symbol == t2.symbol ==> (t1.to, t2.to) in r by {
      forall t1, t2 | t1 in ti && t2 in tj && t1.symbol == t2.symbol ensures (t1.to, t2.to) in r {
        var u :| u in tj && u.symbol == t1.symbol && (t1.to, u.to) in r;
      }
    }
  }

  lemma AgreeSurvives(table: Table, r: Rel, i: int, j: int)
    requires Deterministic(table) && Agree(table, r, i, j)
    ensures Survives(table, r, i, j)
  {
    var ti, tj := Out(table, i), Out(table, j);
    LabelsCard(ti);
    LabelsCard(tj);
    forall t1 | t1 in ti ensures exists t2 :: t2 in tj && t2.symbol == t1.symbol && (t1.to, t2.to) in r {
      assert t1.symbol in Labels(tj);
      var t2 :| t2 in tj && t2.symbol == t1.symbol;
    }
  }

  lemma AgreeMono(table: Table, b: Rel, r: Rel, i: int, j: int)
    requires b <= r && Agree(table, b, i, j)
    ensures Agree(table, r, i, j)
  {
  }

  lemma AgreeTranspose(table: Table, b: Rel, i: int, j: int)
    requires Agree(table, b, j, i)
    ensures Agree(table, Transpose(b), i, j)
  {
    forall t1, t2 | t1 in Out(table, i) && t2 in Out(table, j) && t1.symbol == t2.symbol
      ensures (t1.to, t2.to) in Transpose(b)
    {
      assert (t2.to, t1.to) in b;
    }
  }

  /** Every pair of which passes the test against `r` is `Agree`d to by the composite. */
  lemma AgreeCompose(table: Table, r: Rel, x: int, y: int, z: int)
    requires Agree(table, r, x, y) && Agree(table, r, y, z)
    ensures Agree(table, Compose(r), x, z)
  {
    forall t1, t3 | t1 in Out(table, x) && t3 in Out(table, z) && t1.symbol == t3.symbol
      ensures (t1.to, t3.to) in Compose(r)
    {
      assert t1.symbol in Labels(Out(table, y));
      var t2 :| t2 in Out(table, y) && t2.symbol == t1.symbol;
      assert (t1.to, t2.to) in r && (t2.to, t3.to) in r;
    }
  }

  /** The composite of a post-fixed relation with itself is post-fixed. */
  lemma ComposePostFixed(table: Table, r: Rel)
    requires PostFixed(table, r)
    ensures PostFixed(table, Compose(r))
  {
    forall p | p in Compose(r) ensures Agree(table, Compose(r), p.0, p.1) {
      var u, v :| u in r && v in r && u.1 == v.0 && p == (u.0, v.1);
      AgreeCompose(table, r, u.0, u.1, v.1);
    }
  }

  // ---------------------------------------------------------------------
  // The table

  /** The pairs the table still marks equivalent. */
  ghost function TrueSet(tbl: array2<bool>): Rel
    reads tbl
  {
    set i, j | 0 <= i < tbl.Length0 && 0 <= j < tbl.Length1 && tbl[i, j] :: (i, j)
  }

  /**
    The shape the table keeps throughout: square, symmetric, every state
    equivalent to itself, and final states apart from non-final ones.
   */
  ghost predicate Shaped(tbl: array2<bool>, n: int, finals: set<int>)
    reads tbl
  {
    && tbl.Length0 == n && tbl.Length1 == n
    && (forall i, j :: 0 <= i < n && 0 <= j < n ==> tbl[i, j] == tbl[j, i])
    && (forall i :: 0 <= i < n ==> tbl[i, i])
    && (forall i, j :: 0 <= i < n && 0 <= j < n && tbl[i, j] ==> (i in finals <==> j in finals))
  }

  lemma ShapedRelation(tbl: array2<bool>, n: int, finals: set<int>)
    requires Shaped(tbl, n, finals)
    ensures Symmetric(TrueSet(tbl)) && Reflexive(TrueSet(tbl), n)
    ensures TrueSet(tbl) <= SameFinality(n, finals)
  {
  }

  /**
    Marks `i` and `j` not equivalent in both halves of the table, taking
    two from the count of equivalent cells.
   */
  method Unmark(tbl: array2<bool>, i: int, j: int, count0: int) returns (count: int)
    requires 0 <= i < tbl.Length0 && 0 <= j < tbl.Length0 && tbl.Length0 == tbl.Length1
    requires i != j && tbl[i, j] && tbl[j, i]
    requires count0 == |TrueSet(tbl)|
    modifies tbl
    ensures forall x, y :: 0 <= x < tbl.Length0 && 0 <= y < tbl.Length1 ==>
      tbl[x, y] == (old(tbl[x, y]) && (x, y) != (i, j) && (x, y) != (j, i))
    ensures TrueSet(tbl) == old(TrueSet(tbl)) - {(i, j), (j, i)}
    ensures count == |TrueSet(tbl)|
  {
    ghost var before := TrueSet(tbl);
    tbl[i, j] := false;
    tbl[j, i] := false;
    count := count0 - 2;
    assert TrueSet(tbl) == before - {(i, j), (j, i)};
    assert before == TrueSet(tbl) + {(i, j), (j, i)};
  }

  /** `new boolean[n][n]` filled with `true`. */
  method NewTable(n: nat) returns (tbl: array2<bool>, count: int)
    ensures fresh(tbl) && tbl.Length0 == n && tbl.Length1 == n
    ensures forall i, j :: 0 <= i < n && 0 <= j < n ==> tbl[i, j]
    ensures count == |TrueSet(tbl)|
  {
    tbl := new bool[n, n]((i, j) => true);
    count := n * n;
    assert TrueSet(tbl) == Cells(n);
    GridCard(n, n);
  }

  /**
    A pair is separated by finality once one of them is a final state of
    `done` and the other is not final.
   */
  ghost predicate Separated(done: set<int>, finals: set<int>, x: int, y: int) {
    (x in done && y !in finals) || (y in done && x !in finals)
  }

  /** The pair is a final state `f` and a non-final state of `others`. */
  ghost predicate SeparatedFrom(f: int, others: set<int>, finals: set<int>, x: int, y: int) {
    (x == f && y in others && y !in finals) || (y == f && x in others && x !in finals)
  }

  /** Marks every final state not equivalent to every non-final state. */
  method MarkFinals(tbl: array2<bool>, n: int, states: set<int>, finals: set<int>, count0: int) returns (count: int)
    requires tbl.Length0 == n && tbl.Length1 == n
    requires states == Range(0, n) && finals <= states
    requires forall i, j :: 0 <= i < n && 0 <= j < n ==> tbl[i, j]
    requires count0 == |TrueSet(tbl)|
    modifies tbl
    ensures forall i, j :: 0 <= i < n && 0 <= j < n ==> (tbl[i, j] <==> (i in finals <==> j in finals))
    ensures count == |TrueSet(tbl)|
  {
    count := count0;
    var fs := finals;
    while fs != {}
      invariant fs <= finals
      invariant forall x, y :: 0 <= x < n && 0 <= y < n ==> (tbl[x, y] <==> !Separated(finals - fs, finals, x, y))
      invariant count == |TrueSet(tbl)|
      decreases fs
    {
      var f :| f in fs;
      MarkStart(tbl, n, finals, finals - fs, f);
      count := MarkFrom(tbl, n, states, finals, finals - fs, f, count);
      MarkEnd(tbl, n, states, finals, finals - fs, f);
      assert (finals - fs) + {f} == finals - (fs - {f});
      fs := fs - {f};
    }
  }

  /** The cells of `tbl` once `done` and, of `f`, the pairs with the states of `others` are marked. */
  ghost predicate MarkedSoFar(tbl: array2<bool>, n: int, finals: set<int>, done: set<int>, f: int, others: set<int>)
    reads tbl
    requires tbl.Length0 == n && tbl.Length1 == n
  {
    forall x, y :: 0 <= x < n && 0 <= y < n ==>
      (tbl[x, y] <==> !(Separated(done, finals, x, y) || SeparatedFrom(f, others, finals, x, y)))
  }

  /** One final state `f`: marks it not equivalent to every non-final state. */
  method MarkFrom(tbl: array2<bool>, n: int, states: set<int>, finals: set<int>, done: set<int>, f: int, count0: int)
    returns (count: int)
    requires tbl.Length0 == n && tbl.Length1 == n
    requires states == Range(0, n) && finals <= states && done <= finals && f in finals - done
    requires MarkedSoFar(tbl, n, finals, done, f, {})
    requires count0 == |TrueSet(tbl)|
    modifies tbl
    ensures MarkedSoFar(tbl, n, finals, done, f, states)
    ensures count == |TrueSet(tbl)|
  {
    count := count0;
    var xs := states;
    assert states - xs == {};
    while xs != {}
      invariant xs <= states
      invariant MarkedSoFar(tbl, n, finals, done, f, states - xs)
      invariant count == |TrueSet(tbl)|
      decreases xs
    {
      var x :| x in xs;
      count := MarkWith(tbl, n, finals, done, f, states - xs, x, count);
      assert (states - xs) + {x} == states - (xs - {x});
      xs := xs - {x};
    }
    assert states - xs == states;
  }

  lemma MarkStart(tbl: array2<bool>, n: int, finals: set<int>, done: set<int>, f: int)
    requires tbl.Length0 == n && tbl.Length1 == n
    requires forall x, y :: 0 <= x < n && 0 <= y < n ==> (tbl[x, y] <==> !Separated(done, finals, x, y))
    ensures MarkedSoFar(tbl, n, finals, done, f, {})
  {
  }

  lemma MarkEnd(tbl: array2<bool>, n: int, states: set<int>, finals: set<int>, done: set<int>, f: int)
    requires tbl.Length0 == n && tbl.Length1 == n && states == Range(0, n)
    requires MarkedSoFar(tbl, n, finals, done, f, states)
    ensures forall x, y :: 0 <= x < n && 0 <= y < n ==> (tbl[x, y] <==> !Separated(done + {f}, finals, x, y))
  {
    forall x, y | 0 <= x < n && 0 <= y < n
      ensures tbl[x, y] <==> !Separated(done + {f}, finals, x, y)
    {
      assert x in states && y in states;
    }
  }

  /** Marks `f` not equivalent to `x` when `x` is not final. */
  method MarkWith(tbl: array2<bool>, n: int, finals: set<int>, done: set<int>, f: int, others: set<int>, x: int, count0: int)
    returns (count: int)
    requires tbl.Length0 == n && tbl.Length1 == n
    requires done <= finals && f in finals - done && 0 <= f < n && 0 <= x < n && x !in others
    requires MarkedSoFar(tbl, n, finals, done, f, others)
    requires count0 == |TrueSet(tbl)|
    modifies tbl
    ensures MarkedSoFar(tbl, n, finals, done, f, others + {x})
    ensures count == |TrueSet(tbl)|
  {
    count := count0;
    if x !in finals {
      count := Unmark(tbl, f, x, count);
    }
  }

  /** `transitions2.stream().filter(...).findFirst()`: some transition of `ts` on `a`, if any. */
  method FindSymbol(ts: set<Transition>, a: string) returns (found: bool, t: Transition)
    ensures found <==> exists u :: u in ts && u.symbol == a
    ensures found ==> t in ts && t.symbol == a
  {
    found := exists u :: u in ts && u.symbol == a;
    if found {
      t :| t in ts && t.symbol == a;
    } else {
      t := Transition(a, 0);
    }
  }

  /**
    The test of one pair of the refinement: the sizes of the rows, then for
    each transition of `i` the transition of `j` on its symbol and the table
    cell of their destinations.
   */
  method PairSurvives(table: Table, tbl: array2<bool>, i: int, j: int) returns (keep: bool)
    requires forall q, t :: q in table && t in table[q] ==> 0 <= t.to < tbl.Length0 && 0 <= t.to < tbl.Length1
    ensures keep ==> Survives(table, TrueSet(tbl), i, j)
    ensures Deterministic(table) ==> (keep <==> Survives(table, TrueSet(tbl), i, j))
  {
    var ts1, ts2 := Out(table, i), Out(table, j);
    if |ts1| != |ts2| {
      return false;
    }
    var rest := ts1;
    while rest != {}
      invariant rest <= ts1
      invariant forall t1 :: t1 in ts1 - rest ==>
        exists t2 :: t2 in ts2 && t2.symbol == t1.symbol && (t1.to, t2.to) in TrueSet(tbl)
      decreases rest
    {
      var t1 :| t1 in rest;
      var found, t2 := FindSymbol(ts2, t1.symbol);
      if !found {
        return false;
      }
      if !tbl[t1.to, t2.to] {
        assert Deterministic(table) ==> forall u :: u in ts2 && u.symbol == t1.symbol ==> u == t2;
        return false;
      }
      assert (t1.to, t2.to) in TrueSet(tbl);
      rest := rest - {t1};
    }
    return true;
  }

  // ---------------------------------------------------------------------
  // Refinement to a fixed point

  /** Every pair below the diagonal still marked equivalent passes the test against the table. */
  ghost predicate Stable(table: Table, r: Rel, n: int) {
    forall i, j :: 0 <= j < i < n && (i, j) in r ==> Survives(table, r, i, j)
  }

  /**
    No relation that passes its own test and keeps final states apart from
    non-final ones has lost a pair from `r`.
   */
  ghost predicate Greatest(table: Table, n: int, finals: set<int>, r: Rel) {
    forall b :: PostFixed(table, b) && b <= SameFinality(n, finals) ==> b <= r
  }

  /** A pair that fails the test belongs to no relation counted by `Greatest`. */
  lemma GreatestStep(table: Table, n: int, finals: set<int>, r: Rel, i: int, j: int)
    requires Deterministic(table) && Symmetric(r) && Greatest(table, n, finals, r)
    requires !Survives(table, r, i, j)
    ensures Greatest(table, n, finals, r - {(i, j), (j, i)})
  {
    SurvivesIsAgree(table, r, i, j);
    forall b | PostFixed(table, b) && b <= SameFinality(n, finals) ensures b <= r - {(i, j), (j, i)} {
      if (i, j) in b {
        AgreeMono(table, b, r, i, j);
      } else if (j, i) in b {
        AgreeTranspose(table, b, i, j);
        AgreeMono(table, Transpose(b), r, i, j);
      }
    }
  }

  /**
    While a pass has changed nothing, every pair it has looked at, up to
    cell `(i, j)`, passes the test.
   */
  ghost predicate PassedUpTo(table: Table, r0: Rel, r: Rel, i: int, j: int) {
    r == r0 ==>
      forall x, y :: 0 <= y < x && (x < i || (x == i && y < j)) && (x, y) in r0 ==> Survives(table, r0, x, y)
  }

  lemma PassedStep(table: Table, r0: Rel, r: Rel, r': Rel, i: int, j: int)
    requires PassedUpTo(table, r0, r, i, j) && r' <= r <= r0
    requires (i, j) in r' ==> r' == r && Survives(table, r', i, j)
    ensures PassedUpTo(table, r0, r', i, j + 1)
  {
    if r' == r0 {
      assert r == r0;
    }
  }

  /**
    The body of a pass for cell `(i, j)`: a pair still marked equivalent that
    fails the test is marked not equivalent, in both cells.
   */
  method RefineCell(table: Table, tbl: array2<bool>, n: int, finals: set<int>, i: int, j: int, count0: int)
    returns (count: int)
    requires Shaped(tbl, n, finals) && 0 <= j < i < n
    requires forall q, t :: q in table && t in table[q] ==> 0 <= t.to < n
    requires count0 == |TrueSet(tbl)|
    modifies tbl
    ensures Shaped(tbl, n, finals)
    ensures count == |TrueSet(tbl)| && TrueSet(tbl) <= old(TrueSet(tbl))
    ensures (i, j) in TrueSet(tbl) ==> TrueSet(tbl) == old(TrueSet(tbl)) && Survives(table, TrueSet(tbl), i, j)
    ensures Deterministic(table) && Greatest(table, n, finals, old(TrueSet(tbl))) ==> Greatest(table, n, finals, TrueSet(tbl))
  {
    count := count0;
    if tbl[i, j] {
      var keep := PairSurvives(table, tbl, i, j);
      if !keep {
        ghost var before := TrueSet(tbl);
        ShapedRelation(tbl, n, finals);
        count := UnmarkShaped(tbl, n, finals, i, j, count);
        if Deterministic(table) && Greatest(table, n, finals, before) {
          GreatestStep(table, n, finals, before, i, j);
        }
      }
    }
  }

  /** Marking a pair of distinct states not equivalent keeps the shape of the table. */
  method UnmarkShaped(tbl: array2<bool>, n: int, finals: set<int>, i: int, j: int, count0: int) returns (count: int)
    requires Shaped(tbl, n, finals) && 0 <= j < i < n && tbl[i, j]
    requires count0 == |TrueSet(tbl)|
    modifies tbl
    ensures Shaped(tbl, n, finals)
    ensures TrueSet(tbl) == old(TrueSet(tbl)) - {(i, j), (j, i)}
    ensures count == |TrueSet(tbl)|
  {
    count := Unmark(tbl, i, j, count0);
  }

  /**
    One pass of the refinement over the cells below the diagonal, in the
    order of the source. The table only loses pairs; a pass that changes
    nothing leaves a stable table.
   */
  method RefinePass(table: Table, tbl: array2<bool>, n: int, finals: set<int>, count0: int) returns (count: int)
    requires Shaped(tbl, n, finals)
    requires forall q, t :: q in table && t in table[q] ==> 0 <= t.to < n
    requires count0 == |TrueSet(tbl)|
    modifies tbl
    ensures Shaped(tbl, n, finals)
    ensures count == |TrueSet(tbl)| && TrueSet(tbl) <= old(TrueSet(tbl))
    ensures TrueSet(tbl) == old(TrueSet(tbl)) ==> Stable(table, TrueSet(tbl), n)
    ensures Deterministic(table) && Greatest(table, n, finals, old(TrueSet(tbl))) ==> Greatest(table, n, finals, TrueSet(tbl))
  {
    ghost var r0 := TrueSet(tbl);
    count := count0;
    var i := 0;
    while i < n
      invariant 0 <= i <= n
      invariant Shaped(tbl, n, finals)
      invariant count == |TrueSet(tbl)| && TrueSet(tbl) <= r0
      invariant PassedUpTo(table, r0, TrueSet(tbl), i, 0)
      invariant Deterministic(table) && Greatest(table, n, finals, r0) ==> Greatest(table, n, finals, TrueSet(tbl))
    {
      var j := 0;
      while j < i
        invariant 0 <= j <= i
        invariant Shaped(tbl, n, finals)
        invariant count == |TrueSet(tbl)| && TrueSet(tbl) <= r0
        invariant PassedUpTo(table, r0, TrueSet(tbl), i, j)
        invariant Deterministic(table) && Greatest(table, n, finals, r0) ==> Greatest(table, n, finals, TrueSet(tbl))
      {
        ghost var before := TrueSet(tbl);
        count := RefineCell(table, tbl, n, finals, i, j, count);
        PassedStep(table, r0, before, TrueSet(tbl), i, j);
        j := j + 1;
      }
      i := i + 1;
    }
  }

  /**
    The loop of the source: passes are repeated until a pass leaves the
    count of equivalent cells unchanged. The count falls with every pass
    that marks a pair, so the loop ends.
   */
  method Refine(table: Table, tbl: array2<bool>, n: int, finals: set<int>, count0: int)
    requires Shaped(tbl, n, finals)
    requires forall q, t :: q in table && t in table[q] ==> 0 <= t.to < n
    requires count0 == |TrueSet(tbl)|
    modifies tbl
    ensures Shaped(tbl, n, finals) && TrueSet(tbl) <= old(TrueSet(tbl))
    ensures Stable(table, TrueSet(tbl), n)
    ensures Deterministic(table) && Greatest(table, n, finals, old(TrueSet(tbl))) ==> Greatest(table, n, finals, TrueSet(tbl))
  {
    ghost var r0 := TrueSet(tbl);
    var count := count0;
    var prev := 0;
    while prev != count
      invariant Shaped(tbl, n, finals)
      invariant count == |TrueSet(tbl)| && TrueSet(tbl) <= r0
      invariant prev == count ==> Stable(table, TrueSet(tbl), n)
      invariant Deterministic(table) && Greatest(table, n, finals, r0) ==> Greatest(table, n, finals, TrueSet(tbl))
      decreases count, if prev == count then 0 else 1
    {
      prev := count;
      ghost var before := TrueSet(tbl);
      count := RefinePass(table, tbl, n, finals, count);
      SubsetCard(TrueSet(tbl), before);
    }
  }

  /**
    The table of equivalent pairs: all cells, then final states apart from
    non-final ones, then refined to a fixed point.
   */
  method EquivalenceTable(table: Table, n: nat, states: set<int>, finals: set<int>) returns (tbl: array2<bool>)
    requires states == Range(0, n) && finals <= states
    requires forall q, t :: q in table && t in table[q] ==> t.to in states
    ensures fresh(tbl) && Shaped(tbl, n, finals)
    ensures Stable(table, TrueSet(tbl), n)
    ensures Deterministic(table) ==> Greatest(table, n, finals, TrueSet(tbl))
  {
    var count;
    tbl, count := NewTable(n);
    count := MarkFinals(tbl, n, states, finals, count);
    assert TrueSet(tbl) == SameFinality(n, finals);
    Refine(table, tbl, n, finals, count);
  }

  /** A symmetric, reflexive, stable relation over a deterministic table passes its own test. */
  lemma StablePostFixed(table: Table, n: int, r: Rel)
    requires Deterministic(table)
    requires forall q, t :: q in table && t in table[q] ==> 0 <= t.to < n
    requires Symmetric(r) && Reflexive(r, n) && r <= Cells(n)
    requires Stable(table, r, n)
    ensures PostFixed(table, r)
  {
    forall p | p in r ensures Agree(table, r, p.0, p.1) {
      var (i, j) := p;
      if j < i {
        SurvivesIsAgree(table, r, i, j);
      } else if i < j {
        SurvivesIsAgree(table, r, j, i);
        AgreeTranspose(table, r, i, j);
        assert Transpose(r) <= r;
        AgreeMono(table, Transpose(r), r, i, j);
      } else {
        forall t1, t2 | t1 in Out(table, i) && t2 in Out(table, i) && t1.symbol == t2.symbol ensures (t1.to, t2.to) in r {
          assert t1 == t2;
        }
      }
    }
  }

  /**
    The largest relation that passes its own test is transitive: composing it
    with itself gives a relation that passes too.
   */
  lemma GreatestTransitive(table: Table, n: int, finals: set<int>, r: Rel)
    requires r <= SameFinality(n, finals)
    requires PostFixed(table, r) && Greatest(table, n, finals, r)
    ensures Transitive(r)
  {
    ComposePostFixed(table, r);
    assert Compose(r) <= SameFinality(n, finals) by {
      forall p | p in Compose(r) ensures p in SameFinality(n, finals) {
        var u, v :| u in r && v in r && u.1 == v.0 && p == (u.0, v.1);
      }
    }
    forall i, j, k | (i, j) in r && (j, k) in r ensures (i, k) in r {
      assert (i, k) in Compose(r);
    }
  }
}
