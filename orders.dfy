/**
  The orders the automaton code relies on: integer states are kept in sorted
  sets (so `first()` is the minimum and `Collections.max` the maximum), and
  alphabets are sorted sets of strings, compared lexicographically by
  character with a proper prefix coming first.
 */
module Orders {

  lemma Pick<T>(s: set<T>) returns (y: T)
    requires s != {}
    ensures y in s
  {
    y :| y in s;
  }

  lemma {:induction false} MinExists(s: set<int>)
    requires s != {}
    ensures exists m :: m in s && forall x :: x in s ==> m <= x
    decreases |s|
  {
    var y := Pick(s);
    var rest := s - {y};
    if rest == {} {
      forall x | x in s ensures y <= x {
        assert x !in rest;
      }
    } else {
      MinExists(rest);
      var m :| m in rest && forall x :: x in rest ==> m <= x;
      var best := if y < m then y else m;
      forall x | x in s ensures best <= x {
        if x != y { assert x in rest; }
      }
      assert best in s;
    }
  }

  lemma {:induction false} MaxExists(s: set<int>)
    requires s != {}
    ensures exists m :: m in s && forall x :: x in s ==> x <= m
    decreases |s|
  {
    var y := Pick(s);
    var rest := s - {y};
    if rest == {} {
      forall x | x in s ensures x <= y {
        assert x !in rest;
      }
    } else {
      MaxExists(rest);
      var m :| m in rest && forall x :: x in rest ==> x <= m;
      var best := if m < y then y else m;
      forall x | x in s ensures x <= best {
        if x != y { assert x in rest; }
      }
      assert best in s;
    }
  }

  /** A subset is no larger than the set that contains it, and as large only when equal. */
  lemma SubsetCard<T>(a: set<T>, b: set<T>)
    requires a <= b
    ensures |a| <= |b|
    ensures |a| == |b| ==> a == b
  {
    assert b == a + (b - a);
    assert a * (b - a) == {};
  }

  /** Adding an element already present changes nothing. */
  lemma AddPresent<T>(s: set<T>, x: T)
    requires x in s
    ensures s + {x} == s
  {
  }

  lemma UnionAssoc<T>(a: set<T>, b: set<T>, c: set<T>)
    ensures (a + b) + c == a + (b + c)
  {
  }

  lemma FewerLeft<T>(all: set<T>, before: set<T>, after: set<T>, x: T)
    requires before <= after <= all && x in after && x !in before
    ensures |all - after| < |all - before|
  {
    var left, gone := all - after, (all - before) - (all - after);
    assert all - before == left + gone;
    assert left * gone == {};
    assert x in gone;
  }

  /** The least element of a non-empty set: `SortedSet.first()`. */
  function Min(s: set<int>): (m: int)
    requires s != {}
    ensures m in s && forall x :: x in s ==> m <= x
  {
    MinExists(s);
    var m :| m in s && forall x :: x in s ==> m <= x; m
  }

  /** The greatest element of a non-empty set: `Collections.max`. */
  function Max(s: set<int>): (m: int)
    requires s != {}
    ensures m in s && forall x :: x in s ==> x <= m
  {
    MaxExists(s);
    var m :| m in s && forall x :: x in s ==> x <= m; m
  }

  /** An element no smaller than every element is the greatest one. */
  lemma MaxIs(s: set<int>, v: int)
    requires v in s && forall x :: x in s ==> x <= v
    ensures Max(s) == v
  {
  }

  /**
    Lexicographic order on strings, character by character: the order of
    `String.compareTo` on symbols whose characters lie in the Basic
    Multilingual Plane.
   */
  predicate StrLe(a: string, b: string)
    decreases |a|
  {
    |a| == 0 || (|b| > 0 && (a[0] < b[0] || (a[0] == b[0] && StrLe(a[1..], b[1..]))))
  }

  lemma {:induction false} StrLeTotal(a: string, b: string)
    ensures StrLe(a, b) || StrLe(b, a)
    decreases |a|
  {
    if |a| > 0 && |b| > 0 && a[0] == b[0] {
      StrLeTotal(a[1..], b[1..]);
    }
  }

  lemma {:induction false} StrLeTrans(a: string, b: string, c: string)
    requires StrLe(a, b) && StrLe(b, c)
    ensures StrLe(a, c)
    decreases |a|
  {
    if |a| > 0 && a[0] == b[0] && b[0] == c[0] {
      StrLeTrans(a[1..], b[1..], c[1..]);
    }
  }

  lemma {:induction false} StrLeAntisymmetric(a: string, b: string)
    requires StrLe(a, b) && StrLe(b, a)
    ensures a == b
    decreases |a|
  {
    if |a| > 0 {
      StrLeAntisymmetric(a[1..], b[1..]);
      assert a == [a[0]] + a[1..] && b == [b[0]] + b[1..];
    }
  }

  lemma {:induction false} StrLeRefl(a: string)
    ensures StrLe(a, a)
    decreases |a|
  {
    if |a| > 0 {
      StrLeRefl(a[1..]);
    }
  }

  lemma {:induction false} MinStringExists(s: set<string>)
    requires s != {}
    ensures exists m :: m in s && forall x :: x in s ==> StrLe(m, x)
    decreases |s|
  {
    var y := Pick(s);
    var rest := s - {y};
    if rest == {} {
      forall x | x in s ensures StrLe(y, x) {
        assert x !in rest;
        StrLeRefl(x);
      }
    } else {
      MinStringExists(rest);
      var m :| m in rest && forall x :: x in rest ==> StrLe(m, x);
      StrLeTotal(y, m);
      var best := if StrLe(y, m) then y else m;
      assert StrLe(best, m) && StrLe(best, y) by {
        StrLeRefl(m);
        StrLeRefl(y);
      }
      forall x | x in s ensures StrLe(best, x) {
        if x == y {
        } else {
          assert x in rest;
          StrLeTrans(best, m, x);
        }
      }
      assert best in s;
    }
  }

  /** The least string of a non-empty set: the first element of a sorted set of strings. */
  function MinString(s: set<string>): (m: string)
    requires s != {}
    ensures m in s && forall x :: x in s ==> StrLe(m, x)
  {
    MinStringExists(s);
    forall m1, m2 | m1 in s && m2 in s && (forall x :: x in s ==> StrLe(m1, x)) && (forall x :: x in s ==> StrLe(m2, x))
      ensures m1 == m2
    {
      StrLeAntisymmetric(m1, m2);
    }
    var m :| m in s && forall x :: x in s ==> StrLe(m, x);
    m
  }
}
