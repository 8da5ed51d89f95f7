/**
  Numberings: maps that give the nodes of a search consecutive integers in
  the order the search discovers them. Renumbering an automaton, normalizing
  a subset construction and building a product automaton all keep a
  counter and a map from discovered nodes to their numbers; the lemmas here
  say what such a map is once the search ends.
 */
module Numberings {
  import opened Orders

  /** The integers from `lo` up to, not including, `hi`. */
  function Range(lo: int, hi: int): (r: set<int>)
    ensures forall i :: i in r <==> lo <= i < hi
    ensures |r| == if lo <= hi then hi - lo else 0
    decreases hi - lo
  {
    if lo >= hi then {} else {lo} + Range(lo + 1, hi)
  }

  lemma RangeExtend(lo: int, hi: int)
    requires lo <= hi
    ensures Range(lo, hi + 1) == Range(lo, hi) + {hi}
  {
  }

  /** The image of a set under a numbering. */
  function Image<N>(m: map<N, int>, s: set<N>): (r: set<int>)
    requires s <= m.Keys
  {
    set q | q in s :: m[q]
  }

  /** A number in the image of `s` is the number of some node of `s`. */
  lemma ImageWitness<N>(m: map<N, int>, s: set<N>, c: int) returns (y: N)
    requires s <= m.Keys && c in Image(m, s)
    ensures y in s && m[y] == c
  {
    y :| y in s && m[y] == c;
  }

  /** No two nodes share a number. */
  ghost predicate Injective<N>(m: map<N, int>) {
    forall p, q :: p in m && q in m && m[p] == m[q] ==> p == q
  }

  /** Numbering never enlarges a set. */
  lemma {:induction false} ImageCard<N>(m: map<N, int>, s: set<N>)
    requires s <= m.Keys
    ensures |Image(m, s)| <= |s|
    decreases |s|
  {
    if s != {} {
      var k := Pick(s);
      var rest := s - {k};
      ImageCard(m, rest);
      assert Image(m, s) == Image(m, rest) + {m[k]};
    }
  }

  /** An injective numbering keeps the size of every set it numbers. */
  lemma {:induction false} InjectiveImageCard<N>(m: map<N, int>, s: set<N>)
    requires s <= m.Keys && Injective(m)
    ensures |Image(m, s)| == |s|
    decreases |s|
  {
    if s != {} {
      var k := Pick(s);
      var rest := s - {k};
      InjectiveImageCard(m, rest);
      assert Image(m, s) == Image(m, rest) + {m[k]};
      assert m[k] !in Image(m, rest);
    }
  }

  /** A numbering with as many numbers as nodes gives no two nodes the same number. */
  lemma CountedInjective<N>(m: map<N, int>)
    requires |Image(m, m.Keys)| == |m.Keys|
    ensures Injective(m)
  {
    forall p, q | p in m && q in m && m[p] == m[q] ensures p == q {
      if p != q {
        var rest := m.Keys - {p};
        assert Image(m, m.Keys) == Image(m, rest);
        ImageCard(m, rest);
      }
    }
  }

  /**
    The bookkeeping of a numbering search: `order` lists the numbered nodes
    without repetition, the i-th of them numbered `start + i`, and nothing
    else is numbered.
   */
  ghost predicate NumberedInOrder<N>(mapped: map<N, int>, order: seq<N>, start: int) {
    && (forall i :: 0 <= i < |order| ==> order[i] in mapped && mapped[order[i]] == start + i)
    && (forall q :: q in mapped ==> q in order)
  }

  /** Numbering one more node with the next number keeps the bookkeeping. */
  lemma NumberedExtend<N>(mapped: map<N, int>, order: seq<N>, start: int, x: N)
    requires NumberedInOrder(mapped, order, start) && x !in mapped
    ensures NumberedInOrder(mapped[x := start + |order|], order + [x], start)
  {
    var m', o' := mapped[x := start + |order|], order + [x];
    forall i | 0 <= i < |o'| ensures o'[i] in m' && m'[o'[i]] == start + i {
      if i < |order| {
        assert o'[i] == order[i];
        assert order[i] != x;
      }
    }
  }

  /** A node's number, less `start`, is its index in the order. */
  lemma NumberIsIndex<N>(m: map<N, int>, order: seq<N>, start: int)
    requires NumberedInOrder(m, order, start)
    ensures forall q :: q in m ==> 0 <= m[q] - start < |order| && order[m[q] - start] == q
    ensures Injective(m)
  {
    forall q | q in m ensures 0 <= m[q] - start < |order| && order[m[q] - start] == q {
      var i :| 0 <= i < |order| && order[i] == q;
    }
  }

  /**
    At the end of a numbering search the nodes are numbered one-to-one with
    the integers from `start` to `start + |order|`.
   */
  lemma NumberedOntoRange<N>(m: map<N, int>, order: seq<N>, start: int)
    requires NumberedInOrder(m, order, start)
    ensures Injective(m)
    ensures |order| == |m.Keys|
    ensures forall q :: q in m ==> start <= m[q] < start + |order|
    ensures Image(m, m.Keys) == Range(start, start + |order|)
  {
    NumberIsIndex(m, order, start);
    var img := Image(m, m.Keys);
    assert img == Range(start, start + |order|) by {
      forall v | v in Range(start, start + |order|) ensures v in img {
        var q := order[v - start];
        assert q in m && m[q] == v;
      }
      forall v | v in img ensures v in Range(start, start + |order|) {
        var q :| q in m && m[q] == v;
      }
    }
    InjectiveImageCard(m, m.Keys);
  }

  /** A one-to-one numbering maps two sets to overlapping images exactly when they overlap. */
  lemma InjectiveMeets<N>(m: map<N, int>, a: set<N>, b: set<N>)
    requires Injective(m) && a <= m.Keys && b <= m.Keys
    ensures Image(m, a) * Image(m, b) != {} <==> a * b != {}
  {
    if a * b != {} {
      var q :| q in a * b;
      assert m[q] in Image(m, a) * Image(m, b);
    }
    if Image(m, a) * Image(m, b) != {} {
      var c := Pick(Image(m, a) * Image(m, b));
      var p := ImageWitness(m, a, c);
      var p' := ImageWitness(m, b, c);
      assert p == p' && p in a * b;
    }
  }

  /** `m` keeps every number `m0` gave. */
  ghost predicate Extends<N>(m0: map<N, int>, m: map<N, int>) {
    forall q :: q in m0 ==> q in m && m[q] == m0[q]
  }
}
