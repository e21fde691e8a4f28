/** Sums of a measure over a finite set of names, and the least value a measure takes on one. */
module Sums {
  ghost function Sum(names: set<string>, size: map<string, nat>): nat
    requires names <= size.Keys
  {
    if names == {} then 0
    else
      var x :| x in names;
      size[x] + Sum(names - {x}, size)
  }

  lemma {:induction false} SumTake(names: set<string>, size: map<string, nat>, x: string)
    requires x in names && names <= size.Keys
    ensures Sum(names, size) == size[x] + Sum(names - {x}, size)
  {
    var y :| y in names && Sum(names, size) == size[y] + Sum(names - {y}, size);
    if x != y {
      SumTake(names - {y}, size, x);
      SumTake(names - {x}, size, y);
      assert names - {y} - {x} == names - {x} - {y};
    }
  }

  lemma {:induction false} SumUnion(a: set<string>, b: set<string>, size: map<string, nat>)
    requires a !! b && a + b <= size.Keys
    ensures Sum(a + b, size) == Sum(a, size) + Sum(b, size)
  {
    if a == {} {
      assert a + b == b;
    } else {
      var x :| x in a;
      SumUnion(a - {x}, b, size);
      assert a + b - {x} == (a - {x}) + b;
      SumTake(a + b, size, x);
      SumTake(a, size, x);
    }
  }

  lemma SumSubset(a: set<string>, b: set<string>, size: map<string, nat>)
    requires a <= b <= size.Keys
    ensures Sum(a, size) <= Sum(b, size)
  {
    SumUnion(a, b - a, size);
    assert a + (b - a) == b;
  }

  /** Sums compare as their terms do. */
  lemma {:induction false} SumPointwise(names: set<string>, f: map<string, nat>, g: map<string, nat>)
    requires names <= f.Keys && names <= g.Keys
    requires forall x | x in names :: f[x] <= g[x]
    ensures Sum(names, f) <= Sum(names, g)
  {
    if names != {} {
      var x :| x in names;
      SumPointwise(names - {x}, f, g);
      SumTake(names, f, x);
      SumTake(names, g, x);
    }
  }

  lemma {:induction false} SumAdd(names: set<string>, f: map<string, nat>, g: map<string, nat>, h: map<string, nat>)
    requires names <= f.Keys && names <= g.Keys && names <= h.Keys
    requires forall x | x in names :: h[x] == f[x] + g[x]
    ensures Sum(names, h) == Sum(names, f) + Sum(names, g)
  {
    if names != {} {
      var x :| x in names;
      SumAdd(names - {x}, f, g, h);
      SumTake(names, f, x);
      SumTake(names, g, x);
      SumTake(names, h, x);
    }
  }

  /** If `choice` sends `from` injectively into `to`, and nothing weighs more than what it is sent
      to, then `from` weighs no more than `to`. */
  lemma {:induction false} SumInjection(
    from: set<string>, f: map<string, nat>, to: set<string>, g: map<string, nat>, choice: map<string, string>)
    requires from <= f.Keys && to <= g.Keys && from <= choice.Keys
    requires forall x | x in from :: choice[x] in to && f[x] <= g[choice[x]]
    requires forall x, y | x in from && y in from && choice[x] == choice[y] :: x == y
    ensures Sum(from, f) <= Sum(to, g)
  {
    if from != {} {
      var x :| x in from;
      SumInjection(from - {x}, f, to - {choice[x]}, g, choice);
      SumTake(from, f, x);
      SumTake(to, g, choice[x]);
    }
  }

  /** The least measure on `names`, or zero when there is no name: `min(..., default=0)`. */
  ghost function Least(names: set<string>, size: map<string, nat>): (m: nat)
    requires names <= size.Keys
    ensures names == {} ==> m == 0
    ensures forall x | x in names :: m <= size[x]
    ensures names != {} ==> exists x :: x in names && size[x] == m
  {
    if names == {} then 0
    else
      var x :| x in names;
      var rest := Least(names - {x}, size);
      if names == {x} || size[x] <= rest then size[x] else rest
  }
}
