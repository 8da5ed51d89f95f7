/**
  Paths and reachability over an arbitrary edge relation, given as the
  (possibly infinite) set of its edges. The automaton
  algorithms walk several graphs (all transitions, epsilon transitions only,
  transitions read backwards, subsets of states, pairs of states); every one
  of their breadth-first searches is justified by the lemmas of this module.
 */
module Graphs {

  /** `p` is a non-empty walk in which every step is an edge of `next`. */
  ghost predicate IsPath<N(!new)>(next: iset<(N, N)>, p: seq<N>) {
    |p| > 0 && forall i :: 0 <= i < |p| - 1 ==> (p[i], p[i + 1]) in next
  }

  /** `dst` can be reached from `src` in zero or more steps of `next`. */
  ghost predicate Reachable<N(!new)>(next: iset<(N, N)>, src: N, dst: N) {
    exists p {:trigger IsPath(next, p)} :: IsPath(next, p) && p[0] == src && p[|p| - 1] == dst
  }

  /** A set from which no edge of `next` leads out. */
  ghost predicate ClosedUnder<N(!new)>(next: iset<(N, N)>, c: set<N>) {
    forall x, y :: x in c && (x, y) in next ==> y in c
  }

  /** A set into which no edge of `next` leads from outside. */
  ghost predicate ClosedBackwards<N(!new)>(next: iset<(N, N)>, c: set<N>) {
    forall x, y :: y in c && (x, y) in next ==> x in c
  }

  lemma ReachableRefl<N(!new)>(next: iset<(N, N)>, x: N)
    ensures Reachable(next, x, x)
  {
    assert IsPath(next, [x]);
  }

  /** A reachable node's successor is reachable. */
  lemma ReachableStep<N(!new)>(next: iset<(N, N)>, src: N, x: N, y: N)
    requires Reachable(next, src, x) && (x, y) in next
    ensures Reachable(next, src, y)
  {
    var p :| IsPath(next, p) && p[0] == src && p[|p| - 1] == x;
    var q := p + [y];
    assert forall i :: 0 <= i < |q| - 1 ==> (q[i], q[i + 1]) in next by {
      forall i | 0 <= i < |q| - 1 ensures (q[i], q[i + 1]) in next {
        if i < |p| - 1 {
          assert q[i] == p[i] && q[i + 1] == p[i + 1];
        } else {
          assert q[i] == x && q[i + 1] == y;
        }
      }
    }
    assert IsPath(next, q) && q[0] == src && q[|q| - 1] == y;
  }

  /** A predecessor of a node that reaches `dst` also reaches `dst`. */
  lemma ReachablePrepend<N(!new)>(next: iset<(N, N)>, x: N, y: N, dst: N)
    requires (x, y) in next && Reachable(next, y, dst)
    ensures Reachable(next, x, dst)
  {
    var p :| IsPath(next, p) && p[0] == y && p[|p| - 1] == dst;
    var q := [x] + p;
    assert forall i :: 0 <= i < |q| - 1 ==> (q[i], q[i + 1]) in next by {
      forall i | 0 <= i < |q| - 1 ensures (q[i], q[i + 1]) in next {
        if i == 0 {
          assert q[0] == x && q[1] == y;
        } else {
          assert q[i] == p[i - 1] && q[i + 1] == p[i];
        }
      }
    }
    assert IsPath(next, q) && q[0] == x && q[|q| - 1] == dst;
  }

  /** Reachability composes. */
  lemma {:induction false} ReachableTrans<N(!new)>(next: iset<(N, N)>, x: N, y: N, z: N)
    requires Reachable(next, x, y) && Reachable(next, y, z)
    ensures Reachable(next, x, z)
  {
    var p :| IsPath(next, p) && p[0] == y && p[|p| - 1] == z;
    PathExtends(next, x, p);
  }

  lemma {:induction false} PathExtends<N(!new)>(next: iset<(N, N)>, x: N, p: seq<N>)
    requires IsPath(next, p) && Reachable(next, x, p[0])
    ensures Reachable(next, x, p[|p| - 1])
    decreases |p|
  {
    if |p| > 1 {
      ReachableStep(next, x, p[0], p[1]);
      PathExtends(next, x, p[1..]);
    }
  }

  /** Every node on a path that starts inside a closed set stays inside it. */
  lemma {:induction false} PathStaysInside<N(!new)>(next: iset<(N, N)>, c: set<N>, p: seq<N>)
    requires IsPath(next, p) && p[0] in c && ClosedUnder(next, c)
    ensures p[|p| - 1] in c
    decreases |p|
  {
    if |p| > 1 {
      assert (p[0], p[1]) in next;
      PathStaysInside(next, c, p[1..]);
    }
  }

  /** A closed set that holds `src` holds everything reachable from `src`. */
  lemma ClosedContainsReachable<N(!new)>(next: iset<(N, N)>, src: N, c: set<N>)
    requires src in c && ClosedUnder(next, c)
    ensures forall dst :: Reachable(next, src, dst) ==> dst in c
  {
    forall dst | Reachable(next, src, dst) ensures dst in c {
      var p :| IsPath(next, p) && p[0] == src && p[|p| - 1] == dst;
      PathStaysInside(next, c, p);
    }
  }

  /** Every node on a path that ends inside a backwards-closed set is inside it. */
  lemma {:induction false} PathEntersOnlyInside<N(!new)>(next: iset<(N, N)>, c: set<N>, p: seq<N>)
    requires IsPath(next, p) && p[|p| - 1] in c && ClosedBackwards(next, c)
    ensures p[0] in c
    decreases |p|
  {
    if |p| > 1 {
      PathEntersOnlyInside(next, c, p[1..]);
      assert (p[0], p[1]) in next;
    }
  }

  /** A backwards-closed set that holds `dst` holds everything that reaches `dst`. */
  lemma BackClosedContainsReaching<N(!new)>(next: iset<(N, N)>, dst: N, c: set<N>)
    requires dst in c && ClosedBackwards(next, c)
    ensures forall src :: Reachable(next, src, dst) ==> src in c
  {
    forall src | Reachable(next, src, dst) ensures src in c {
      var p :| IsPath(next, p) && p[0] == src && p[|p| - 1] == dst;
      PathEntersOnlyInside(next, c, p);
    }
  }

  /**
    Discovery order of a search: `order[0]` is the root and every later node
    has an edge from some node discovered before it. Every node of such an
    order is reachable from the root.
   */
  ghost predicate DiscoveredFrom<N(!new)>(next: iset<(N, N)>, root: N, order: seq<N>) {
    |order| > 0 && order[0] == root &&
    forall i :: 0 < i < |order| ==> exists j :: 0 <= j < i && (order[j], order[i]) in next
  }

  lemma {:induction false} DiscoveredIsReachable<N(!new)>(next: iset<(N, N)>, root: N, order: seq<N>, i: int)
    requires DiscoveredFrom(next, root, order) && 0 <= i < |order|
    ensures Reachable(next, root, order[i])
    decreases i
  {
    if i == 0 {
      ReachableRefl(next, root);
    } else {
      var j :| 0 <= j < i && (order[j], order[i]) in next;
      DiscoveredIsReachable(next, root, order, j);
      ReachableStep(next, root, order[j], order[i]);
    }
  }

  lemma DiscoveredExtend<N(!new)>(next: iset<(N, N)>, root: N, order: seq<N>, j: int, x: N)
    requires DiscoveredFrom(next, root, order)
    requires 0 <= j < |order| && (order[j], x) in next
    ensures DiscoveredFrom(next, root, order + [x])
  {
    var o := order + [x];
    forall i | 0 < i < |o| ensures exists k :: 0 <= k < i && (o[k], o[i]) in next {
      if i < |order| {
        var k :| 0 <= k < i && (order[k], order[i]) in next;
        assert o[k] == order[k] && o[i] == order[i];
      } else {
        assert o[j] == order[j] && o[i] == x;
      }
    }
  }

  /**
    A search that has discovered exactly the nodes of `c` from `root`, with
    no edge leading out of `c`, has discovered everything reachable and
    nothing else.
   */
  lemma DiscoveredClosedIsReachable<N(!new)>(next: iset<(N, N)>, root: N, order: seq<N>, c: set<N>)
    requires DiscoveredFrom(next, root, order) && ClosedUnder(next, c)
    requires forall x :: x in c <==> x in order
    ensures forall x :: x in c <==> Reachable(next, root, x)
  {
    ClosedContainsReachable(next, root, c);
    forall x | x in c ensures Reachable(next, root, x) {
      var i :| 0 <= i < |order| && order[i] == x;
      DiscoveredIsReachable(next, root, order, i);
    }
  }

  /**
    Two edge relations that agree on every edge leaving a set `c`, which one
    of them cannot leave, reach the same nodes from a root in `c`.
   */
  lemma SameReachable<N(!new)>(next1: iset<(N, N)>, next2: iset<(N, N)>, root: N, c: set<N>)
    requires root in c && ClosedUnder(next1, c)
    requires forall x, y :: x in c ==> ((x, y) in next1 <==> (x, y) in next2)
    ensures forall y :: Reachable(next1, root, y) <==> Reachable(next2, root, y)
  {
    forall y | Reachable(next1, root, y) ensures Reachable(next2, root, y) {
      var p :| IsPath(next1, p) && p[0] == root && p[|p| - 1] == y;
      PathCarriesOver(next1, next2, c, p);
    }
    forall y | Reachable(next2, root, y) ensures Reachable(next1, root, y) {
      var p :| IsPath(next2, p) && p[0] == root && p[|p| - 1] == y;
      PathCarriesOver(next2, next1, c, p);
    }
  }

  /** A path from inside `c`, along edges that agree on `c` and cannot leave it, is a path of both relations. */
  lemma {:induction false} PathCarriesOver<N(!new)>(next1: iset<(N, N)>, next2: iset<(N, N)>, c: set<N>, p: seq<N>)
    requires IsPath(next1, p) && p[0] in c
    requires (forall x, y :: x in c ==> ((x, y) in next1 <==> (x, y) in next2))
    requires ClosedUnder(next1, c) || ClosedUnder(next2, c)
    ensures IsPath(next2, p) && Reachable(next2, p[0], p[|p| - 1])
    decreases |p|
  {
    if |p| == 1 {
      assert IsPath(next2, p);
      ReachableRefl(next2, p[0]);
    } else {
      assert (p[0], p[1]) in next1 && (p[0], p[1]) in next2;
      assert p[1] in c;
      PathCarriesOver(next1, next2, c, p[1..]);
      assert IsPath(next2, p) by {
        forall i | 0 <= i < |p| - 1 ensures (p[i], p[i + 1]) in next2 {
          if i > 0 {
            assert p[i] == p[1..][i - 1] && p[i + 1] == p[1..][i];
          }
        }
      }
      ReachablePrepend(next2, p[0], p[1], p[|p| - 1]);
    }
  }

  /** No node occurs twice in `s`. */
  ghost predicate Distinct<N>(s: seq<N>) {
    forall i, j :: 0 <= i < j < |s| ==> s[i] != s[j]
  }

  lemma DistinctExtend<N>(s: seq<N>, x: N)
    requires Distinct(s) && x !in s
    ensures Distinct(s + [x])
  {
    var t := s + [x];
    forall i, j | 0 <= i < j < |t| ensures t[i] != t[j] {
      assert t[i] == s[i];
      if j < |s| { assert t[j] == s[j]; }
    }
  }
}
