/**
  Coordinates of a sparse matrix and the order in which the backing ordered map
  keeps them: a coordinate is a tuple of non-negative indices, and two coordinates
  of the same dimensionality compare lexicographically, axis 0 most significant
  (the order `std::tuple` defines and `std::map` sorts by).
 */
module LexOrder {

  /** One cell address: the N per-axis indices, axis 0 first. */
  type Coord = seq<nat>

  /** Strict lexicographic order on coordinates, decided axis by axis. */
  predicate LexLess(a: Coord, b: Coord)
    decreases |a|
  {
    && |a| > 0
    && |b| > 0
    && (a[0] < b[0] || (a[0] == b[0] && LexLess(a[1..], b[1..])))
  }

  /** Reference definition of the same order: the two coordinates agree on a
      common prefix and differ first at axis k, where `a` is smaller. */
  ghost predicate FirstDifferenceBelow(a: Coord, b: Coord)
  {
    exists k :: 0 <= k < |a| && k < |b| && a[..k] == b[..k] && a[k] < b[k]
  }

  /** The axis-by-axis order is exactly the first-difference order. */
  lemma {:induction false} LexLessIsFirstDifference(a: Coord, b: Coord)
    ensures LexLess(a, b) <==> FirstDifferenceBelow(a, b)
    decreases |a|
  {
    if |a| == 0 || |b| == 0 {
    } else if a[0] < b[0] {
      assert a[..0] == b[..0];
    } else if a[0] == b[0] {
      LexLessIsFirstDifference(a[1..], b[1..]);
      if LexLess(a, b) {
        var k :| 0 <= k < |a[1..]| && k < |b[1..]| && a[1..][..k] == b[1..][..k] && a[1..][k] < b[1..][k];
        assert a[..k + 1] == [a[0]] + a[1..][..k];
        assert b[..k + 1] == [b[0]] + b[1..][..k];
        assert a[k + 1] < b[k + 1];
      }
      if FirstDifferenceBelow(a, b) {
        var k :| 0 <= k < |a| && k < |b| && a[..k] == b[..k] && a[k] < b[k];
        assert k != 0;
        assert a[1..][..k - 1] == a[..k][1..];
        assert b[1..][..k - 1] == b[..k][1..];
        assert a[1..][k - 1] < b[1..][k - 1];
        assert FirstDifferenceBelow(a[1..], b[1..]);
      }
    } else {
      if FirstDifferenceBelow(a, b) {
        var k :| 0 <= k < |a| && k < |b| && a[..k] == b[..k] && a[k] < b[k];
        assert false;
      }
    }
  }

  /** No coordinate precedes itself. */
  lemma {:induction false} LexIrreflexive(a: Coord)
    ensures !LexLess(a, a)
    decreases |a|
  {
    if |a| > 0 {
      LexIrreflexive(a[1..]);
    }
  }

  /** The order is transitive. */
  lemma {:induction false} LexTransitive(a: Coord, b: Coord, c: Coord)
    requires LexLess(a, b) && LexLess(b, c)
    ensures LexLess(a, c)
    decreases |a|
  {
    if a[0] == b[0] && b[0] == c[0] {
      LexTransitive(a[1..], b[1..], c[1..]);
    }
  }

  /** At most one of `LexLess(a, b)` and `LexLess(b, a)` holds. */
  lemma LexAsymmetric(a: Coord, b: Coord)
    requires LexLess(a, b)
    ensures !LexLess(b, a)
  {
    if LexLess(b, a) {
      LexTransitive(a, b, a);
      LexIrreflexive(a);
    }
  }

  /** Two distinct coordinates of one dimensionality are always ordered. */
  lemma {:induction false} LexTotal(a: Coord, b: Coord)
    requires |a| == |b|
    ensures a == b || LexLess(a, b) || LexLess(b, a)
    decreases |a|
  {
    if |a| > 0 && a[0] == b[0] {
      LexTotal(a[1..], b[1..]);
      if a[1..] == b[1..] {
        assert a == [a[0]] + a[1..] && b == [b[0]] + b[1..];
      }
    }
  }

  /** Coordinates in strictly ascending order, each one preceding the next:
      the order std::map walks its keys. */
  predicate Ascending(ks: seq<Coord>)
    decreases |ks|
  {
    |ks| <= 1 || (LexLess(ks[0], ks[1]) && Ascending(ks[1..]))
  }

  /** Reference definition: every earlier coordinate precedes every later one. */
  ghost predicate PairwiseAscending(ks: seq<Coord>)
  {
    forall i, j :: 0 <= i < j < |ks| ==> LexLess(ks[i], ks[j])
  }

  /** Ordering neighbours is the same as ordering all pairs. */
  lemma {:induction false} AscendingIsPairwise(ks: seq<Coord>)
    ensures Ascending(ks) <==> PairwiseAscending(ks)
    decreases |ks|
  {
    if |ks| > 1 {
      AscendingIsPairwise(ks[1..]);
      if Ascending(ks) {
        forall i, j | 0 <= i < j < |ks|
          ensures LexLess(ks[i], ks[j])
        {
          if i == 0 {
            if j > 1 {
              assert LexLess(ks[1..][0], ks[1..][j - 1]);
              LexTransitive(ks[0], ks[1], ks[j]);
            }
          } else {
            assert LexLess(ks[1..][i - 1], ks[1..][j - 1]);
          }
        }
      }
      if PairwiseAscending(ks) {
        assert LexLess(ks[0], ks[1]);
        forall i, j | 0 <= i < j < |ks[1..]|
          ensures LexLess(ks[1..][i], ks[1..][j])
        {
          assert LexLess(ks[i + 1], ks[j + 1]);
        }
      }
    }
  }

  /** All coordinates in `s` have `n` axes. */
  predicate AllOfRank(s: set<Coord>, n: nat)
  {
    forall k :: k in s ==> |k| == n
  }

  /** The smallest coordinate of a non-empty set of same-rank coordinates. */
  ghost function Least(s: set<Coord>, n: nat): (r: Coord)
    requires s != {} && AllOfRank(s, n)
    ensures r in s
    ensures forall k :: k in s && k != r ==> LexLess(r, k)
    decreases |s|
  {
    var x :| x in s;
    if s == {x} then x
    else
      var y := Least(s - {x}, n);
      if LexLess(x, y) then
        assert forall k :: k in s && k != x ==> LexLess(x, k) by {
          forall k | k in s && k != x
            ensures LexLess(x, k)
          {
            if k != y {
              LexTransitive(x, y, k);
            }
          }
        }
        x
      else
        assert LexLess(y, x) by {
          LexTotal(x, y);
        }
        y
  }

  /** The keys of `s` in ascending order: the sequence the ordered map yields. */
  ghost function Ordered(s: set<Coord>, n: nat): (ks: seq<Coord>)
    requires AllOfRank(s, n)
    ensures Ascending(ks)
    ensures forall k :: k in ks <==> k in s
    ensures |ks| == |s|
    decreases |s|
  {
    if s == {} then []
    else
      var x := Least(s, n);
      var rest := Ordered(s - {x}, n);
      assert rest != [] ==> rest[0] in s - {x};
      assert ([x] + rest)[1..] == rest;
      [x] + rest
  }

  /** A strictly ascending sequence is determined by its elements. */
  lemma {:induction false} AscendingUnique(xs: seq<Coord>, ys: seq<Coord>)
    requires Ascending(xs) && Ascending(ys)
    requires forall k :: k in xs <==> k in ys
    ensures xs == ys
    decreases |xs|
  {
    AscendingIsPairwise(xs);
    AscendingIsPairwise(ys);
    assert ys != [] ==> ys[0] in ys;
    if xs == [] {
    } else {
      assert xs[0] in ys;
      var a, b := xs[0], ys[0];
      if a != b {
        var j :| 0 <= j < |ys| && ys[j] == a;
        assert b in xs;
        var i :| 0 <= i < |xs| && xs[i] == b;
        assert LexLess(b, a);
        assert LexLess(a, b);
        LexAsymmetric(a, b);
        assert false;
      }
      forall k | k in xs[1..]
        ensures k in ys[1..]
      {
        var i :| 1 <= i < |xs| && xs[i] == k;
        assert LexLess(a, k);
        LexIrreflexive(a);
        assert k in ys;
        var j :| 0 <= j < |ys| && ys[j] == k;
        assert j != 0;
        assert ys[1..][j - 1] == k;
      }
      forall k | k in ys[1..]
        ensures k in xs[1..]
      {
        var j :| 1 <= j < |ys| && ys[j] == k;
        assert LexLess(b, k);
        LexIrreflexive(b);
        assert k in xs;
        var i :| 0 <= i < |xs| && xs[i] == k;
        assert i != 0;
        assert xs[1..][i - 1] == k;
      }
      AscendingUnique(xs[1..], ys[1..]);
      assert xs == [a] + xs[1..] && ys == [b] + ys[1..];
    }
  }
}
