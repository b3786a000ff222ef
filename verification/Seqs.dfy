/** Filtering, distinctness and counting on sequences. */
module Seqs {

  function Filter<T>(xs: seq<T>, p: T -> bool): (ys: seq<T>) {
    if xs == [] then []
    else (if p(xs[0]) then [xs[0]] else []) + Filter(xs[1..], p)
  }

  ghost predicate Distinct<T(!new)>(xs: seq<T>) {
    forall i, j :: 0 <= i < j < |xs| ==> xs[i] != xs[j]
  }

  function Elements<T>(xs: seq<T>): set<T> {
    set x | x in xs
  }

  /** `slice(0, n)`. */
  function Take<T>(xs: seq<T>, n: nat): seq<T> {
    if n <= |xs| then xs[..n] else xs
  }

  lemma SliceFirst<T>(xs: seq<T>, i: nat)
    requires i < |xs|
    ensures xs[i..] == [xs[i]] + xs[i + 1..]
  {
  }

  lemma TakeNext<T>(xs: seq<T>, ys: seq<T>, j: nat)
    requires j < |ys|
    ensures xs + ys[..j] + [ys[j]] == xs + ys[..j + 1]
    ensures xs + ys[..j + 1] <= xs + ys
  {
    assert xs + ys == xs + ys[..j + 1] + ys[j + 1..];
  }

  lemma {:induction false} FilterMembers<T>(xs: seq<T>, p: T -> bool)
    ensures forall x :: x in Filter(xs, p) <==> x in xs && p(x)
    ensures |Filter(xs, p)| <= |xs|
  {
    if xs != [] {
      FilterMembers(xs[1..], p);
      assert xs == [xs[0]] + xs[1..];
    }
  }

  lemma {:induction false} FilterAppend<T>(xs: seq<T>, ys: seq<T>, p: T -> bool)
    ensures Filter(xs + ys, p) == Filter(xs, p) + Filter(ys, p)
  {
    if xs == [] {
      assert xs + ys == ys;
    } else {
      FilterAppend(xs[1..], ys, p);
      assert (xs + ys)[1..] == xs[1..] + ys;
      var head := if p(xs[0]) then [xs[0]] else [];
      assert head + (Filter(xs[1..], p) + Filter(ys, p)) == head + Filter(xs[1..], p) + Filter(ys, p);
    }
  }

  /** An element that passes stands after those that passed before it. */
  lemma FilterIndex<T>(xs: seq<T>, p: T -> bool, j: nat)
    requires j < |xs| && p(xs[j])
    ensures var n := |Filter(xs[..j], p)|; n < |Filter(xs, p)| && Filter(xs, p)[n] == xs[j]
  {
    assert xs == xs[..j] + ([xs[j]] + xs[j + 1..]);
    FilterAppend(xs[..j], [xs[j]] + xs[j + 1..], p);
    assert ([xs[j]] + xs[j + 1..])[1..] == xs[j + 1..];
  }

  lemma FilterPrefix<T>(xs: seq<T>, p: T -> bool, i: nat, j: nat)
    requires i <= j <= |xs|
    ensures |Filter(xs[..i], p)| <= |Filter(xs[..j], p)|
  {
    assert xs[..j] == xs[..i] + xs[i..j];
    FilterAppend(xs[..i], xs[i..j], p);
  }

  /** Every element that passed comes from somewhere. */
  lemma {:induction false} FilterPosition<T>(xs: seq<T>, p: T -> bool, n: nat) returns (j: nat)
    requires n < |Filter(xs, p)|
    ensures j < |xs| && p(xs[j]) && |Filter(xs[..j], p)| == n
  {
    var front, last := xs[..|xs| - 1], xs[|xs| - 1];
    assert xs == front + [last];
    FilterAppend(front, [last], p);
    if n < |Filter(front, p)| {
      j := FilterPosition(front, p, n);
      assert front[..j] == xs[..j];
    } else {
      j := |xs| - 1;
    }
  }

  lemma {:induction false} FilterTwice<T(!new)>(xs: seq<T>, p: T -> bool, q: T -> bool, both: T -> bool)
    requires forall x <- xs :: both(x) <==> p(x) && q(x)
    ensures Filter(Filter(xs, p), q) == Filter(xs, both)
  {
    if xs != [] {
      FilterTwice(xs[1..], p, q, both);
      var rest := Filter(xs[1..], p);
      if p(xs[0]) {
        assert ([xs[0]] + rest)[1..] == rest;
      } else {
        assert [] + rest == rest;
      }
    }
  }

  lemma {:induction false} FilterLonger<T(!new)>(xs: seq<T>, p: T -> bool, q: T -> bool)
    requires forall x <- xs :: p(x) ==> q(x)
    ensures |Filter(xs, p)| <= |Filter(xs, q)|
  {
    if xs != [] {
      FilterLonger(xs[1..], p, q);
    }
  }

  lemma {:induction false} FilterAll<T(!new)>(xs: seq<T>, p: T -> bool)
    requires forall x <- xs :: p(x)
    ensures Filter(xs, p) == xs
  {
    if xs != [] {
      FilterAll(xs[1..], p);
    }
  }

  lemma {:induction false} FilterNone<T(!new)>(xs: seq<T>, p: T -> bool)
    requires forall x <- xs :: !p(x)
    ensures Filter(xs, p) == []
  {
    if xs != [] {
      FilterNone(xs[1..], p);
    }
  }

  lemma {:induction false} FilterDistinct<T(!new)>(xs: seq<T>, p: T -> bool)
    requires Distinct(xs)
    ensures Distinct(Filter(xs, p))
  {
    if xs != [] {
      assert Distinct(xs[1..]) by {
        forall i, j | 0 <= i < j < |xs[1..]| ensures xs[1..][i] != xs[1..][j] {
          assert xs[i + 1] != xs[j + 1];
        }
      }
      FilterDistinct(xs[1..], p);
      FilterMembers(xs[1..], p);
      assert xs[0] !in xs[1..];
    }
  }

  lemma ElementsAppend<T>(xs: seq<T>, x: T)
    ensures Elements(xs + [x]) == Elements(xs) + {x}
    ensures x in xs <==> x in Elements(xs)
  {
  }

  lemma {:induction false} DistinctSize<T(!new)>(xs: seq<T>)
    requires Distinct(xs)
    ensures |Elements(xs)| == |xs|
  {
    if xs != [] {
      var front, last := xs[..|xs| - 1], xs[|xs| - 1];
      DistinctSize(front);
      ElementsAppend(front, last);
      assert xs == front + [last];
      assert last !in front;
    }
  }

  lemma {:induction false} SizeDistinct<T(!new)>(xs: seq<T>)
    requires |Elements(xs)| == |xs|
    ensures Distinct(xs)
  {
    if xs != [] {
      var front := xs[..|xs| - 1];
      ElementsSize(front);
      assert Elements(xs) == Elements(front) + {xs[|xs| - 1]};
      SizeDistinct(front);
      assert xs[|xs| - 1] !in Elements(front);
      forall i, j | 0 <= i < j < |xs| ensures xs[i] != xs[j] {
        assert front[i] in front;
        assert j < |front| ==> xs[j] == front[j];
      }
    }
  }

  lemma DistinctAppend<T(!new)>(xs: seq<T>, ys: seq<T>)
    requires Distinct(xs) && Distinct(ys) && forall x <- xs :: x !in ys
    ensures Distinct(xs + ys)
  {
    forall i, j | 0 <= i < j < |xs + ys| ensures (xs + ys)[i] != (xs + ys)[j] {
      if i < |xs| <= j {
        assert xs[i] in xs && ys[j - |xs|] in ys;
      }
    }
  }

  lemma {:induction false} ElementsSize<T(!new)>(xs: seq<T>)
    ensures |Elements(xs)| <= |xs|
  {
    if xs != [] {
      var front := xs[..|xs| - 1];
      ElementsSize(front);
      assert Elements(xs) == Elements(front) + {xs[|xs| - 1]};
    }
  }

  lemma {:induction false} SubsetSize<T>(a: set<T>, b: set<T>)
    requires a <= b
    ensures |a| <= |b|
  {
    if a != {} {
      var x :| x in a;
      SubsetSize(a - {x}, b - {x});
    }
  }
}
