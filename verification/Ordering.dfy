/**
  Strict total orders, and the sequence that an ordered map's iterator walks:
  the members of a finite set in increasing order.
 */
module Ordering {

  ghost predicate StrictTotalOrder<T(!new)>(lt: (T, T) -> bool) {
    && (forall x :: !lt(x, x))
    && (forall x, y, z :: lt(x, y) && lt(y, z) ==> lt(x, z))
    && (forall x, y :: x == y || lt(x, y) || lt(y, x))
  }

  predicate Increasing<T>(lt: (T, T) -> bool, xs: seq<T>) {
    forall i, j :: 0 <= i < j < |xs| ==> lt(xs[i], xs[j])
  }

  predicate IsLeast<T(==)>(lt: (T, T) -> bool, x: T, s: set<T>) {
    x in s && forall y :: y in s ==> y == x || lt(x, y)
  }

  lemma {:induction false} LeastExists<T(!new)>(lt: (T, T) -> bool, s: set<T>)
    requires StrictTotalOrder(lt) && s != {}
    ensures exists x :: IsLeast(lt, x, s)
    decreases |s|
  {
    var x :| x in s;
    if s == {x} {
      assert IsLeast(lt, x, s);
    } else {
      LeastExists(lt, s - {x});
      var m :| IsLeast(lt, m, s - {x});
      var least := if lt(x, m) then x else m;
      forall y | y in s ensures y == least || lt(least, y) {
        assert y == x || y in s - {x};
      }
      assert IsLeast(lt, least, s);
    }
  }

  function Least<T(!new, ==)>(lt: (T, T) -> bool, s: set<T>): (x: T)
    requires StrictTotalOrder(lt) && s != {}
    ensures IsLeast(lt, x, s)
  {
    LeastExists(lt, s);
    var x :| IsLeast(lt, x, s);
    x
  }

  /** The members of `s`, each once, in increasing order. */
  function InOrder<T(!new, ==)>(lt: (T, T) -> bool, s: set<T>): (xs: seq<T>)
    requires StrictTotalOrder(lt)
    ensures Increasing(lt, xs)
    ensures forall x :: x in xs <==> x in s
    ensures |xs| == |s|
    decreases |s|
  {
    if s == {} then [] else
      var x := Least(lt, s);
      [x] + InOrder(lt, s - {x})
  }

  /** An increasing sequence is determined by its members. */
  lemma {:induction false} IncreasingIsUnique<T(!new)>(lt: (T, T) -> bool, xs: seq<T>, ys: seq<T>)
    requires StrictTotalOrder(lt) && Increasing(lt, xs) && Increasing(lt, ys)
    requires forall x :: x in xs <==> x in ys
    ensures xs == ys
  {
    if ys != [] {
      assert ys[0] in ys;
      assert xs != [];
    }
    if xs != [] {
      assert xs[0] in ys && ys[0] in xs;
      assert xs[0] == ys[0];
      var xs', ys' := xs[1..], ys[1..];
      forall x ensures x in xs' <==> x in ys' {
        assert x in xs <==> x == xs[0] || x in xs';
        assert x in ys <==> x == ys[0] || x in ys';
      }
      IncreasingIsUnique(lt, xs', ys');
    }
  }

  /** The byte order of strings: a proper prefix first, otherwise the first difference decides. */
  predicate Before(a: string, b: string) {
    if b == "" then false
    else if a == "" then true
    else a[0] < b[0] || (a[0] == b[0] && Before(a[1..], b[1..]))
  }

  /** The first `k` characters agree, and then `a` ends or has the smaller character. */
  predicate FirstSmallerAt(a: string, b: string, k: nat) {
    && k <= |a| && k < |b| && a[..k] == b[..k]
    && (k == |a| || a[k] < b[k])
  }

  lemma {:induction false} BeforeIff(a: string, b: string)
    ensures Before(a, b) <==> exists k: nat :: FirstSmallerAt(a, b, k)
  {
    if a != "" && b != "" {
      BeforeIff(a[1..], b[1..]);
      if k: nat :| FirstSmallerAt(a[1..], b[1..], k) && a[0] == b[0] {
        assert a[..k + 1] == [a[0]] + a[1..][..k] && b[..k + 1] == [b[0]] + b[1..][..k];
        assert FirstSmallerAt(a, b, k + 1);
      }
      if k: nat :| FirstSmallerAt(a, b, k) {
        if k > 0 {
          assert a[0] == a[..k][0] && b[0] == b[..k][0];
          assert a[1..][..k - 1] == a[..k][1..] && b[1..][..k - 1] == b[..k][1..];
          assert FirstSmallerAt(a[1..], b[1..], k - 1);
        }
      }
      if a[0] < b[0] { assert FirstSmallerAt(a, b, 0); }
    } else if b != "" {
      assert FirstSmallerAt(a, b, 0);
    }
  }

  lemma {:induction false} BeforeIrreflexive(a: string)
    ensures !Before(a, a)
  {
    if a != "" { BeforeIrreflexive(a[1..]); }
  }

  lemma {:induction false} BeforeTransitive(a: string, b: string, c: string)
    requires Before(a, b) && Before(b, c)
    ensures Before(a, c)
  {
    if a != "" && a[0] == b[0] && b[0] == c[0] {
      BeforeTransitive(a[1..], b[1..], c[1..]);
    }
  }

  lemma {:induction false} BeforeTotal(a: string, b: string)
    ensures a == b || Before(a, b) || Before(b, a)
  {
    if a != "" && b != "" && a[0] == b[0] {
      BeforeTotal(a[1..], b[1..]);
      assert a == [a[0]] + a[1..] && b == [b[0]] + b[1..];
    }
  }

  lemma BeforeIsStrictTotalOrder()
    ensures StrictTotalOrder(Before)
  {
    forall a: string ensures !Before(a, a) { BeforeIrreflexive(a); }
    forall a, b, c | Before(a, b) && Before(b, c) ensures Before(a, c) { BeforeTransitive(a, b, c); }
    forall a, b ensures a == b || Before(a, b) || Before(b, a) { BeforeTotal(a, b); }
  }
}
