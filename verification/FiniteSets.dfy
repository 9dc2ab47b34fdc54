/** Cardinalities of finite sets. */
module FiniteSets {
  lemma {:induction false} SubsetSize<T>(a: set<T>, b: set<T>)
    requires a <= b
    ensures |a| <= |b|
  {
    if a != {} {
      var x :| x in a;
      SubsetSize(a - {x}, b - {x});
    }
  }

  ghost function Elements(xs: seq<nat>): set<nat> {
    set x | x in xs
  }

  lemma {:induction false} ElementsSize(xs: seq<nat>)
    ensures |Elements(xs)| <= |xs|
  {
    if xs != [] {
      var n := |xs| - 1;
      ElementsSize(xs[..n]);
      assert xs == xs[..n] + [xs[n]];
      assert Elements(xs) == Elements(xs[..n]) + {xs[n]};
    }
  }

  ghost function Below(n: nat): set<nat> {
    if n == 0 then {} else Below(n - 1) + {n - 1}
  }

  lemma {:induction false} BelowFacts(n: nat)
    ensures |Below(n)| == n && forall i: nat :: i in Below(n) <==> i < n
  {
    if n > 0 {
      BelowFacts(n - 1);
    }
  }

  /** The image of a set of positions under a list without repetitions. */
  ghost function Image(s: set<nat>, f: seq<nat>): set<nat>
    requires forall x :: x in s ==> x < |f|
  {
    set x | x in s :: f[x]
  }

  lemma {:induction false} ImageSize(s: set<nat>, f: seq<nat>)
    requires (forall i, j :: 0 <= i < j < |f| ==> f[i] != f[j]) && forall x :: x in s ==> x < |f|
    ensures |Image(s, f)| == |s|
  {
    if s == {} {
      assert Image(s, f) == {};
    } else {
      var x :| x in s;
      ImageSize(s - {x}, f);
      assert Image(s, f) == Image(s - {x}, f) + {f[x]};
    }
  }
}
