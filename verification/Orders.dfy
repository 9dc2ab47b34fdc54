/** Lexicographic order and library sorting of index lists. */
module Orders {
  import opened Coords

  predicate LexLe(p: Point, q: Point) {
    if p == [] then true
    else if q == [] then false
    else p[0] < q[0] || (p[0] == q[0] && LexLe(p[1..], q[1..]))
  }

  lemma {:induction false} LexTotal(p: Point, q: Point)
    ensures LexLe(p, q) || LexLe(q, p)
  {
    if p != [] && q != [] {
      LexTotal(p[1..], q[1..]);
    }
  }

  lemma {:induction false} LexTransitive(p: Point, q: Point, r: Point)
    requires LexLe(p, q) && LexLe(q, r)
    ensures LexLe(p, r)
  {
    if p != [] && p[0] == q[0] == r[0] {
      LexTransitive(p[1..], q[1..], r[1..]);
    }
  }

  lemma {:induction false} LexAntisymmetric(p: Point, q: Point)
    requires LexLe(p, q) && LexLe(q, p)
    ensures p == q
  {
    if p != [] {
      LexAntisymmetric(p[1..], q[1..]);
      assert p == [p[0]] + p[1..] && q == [q[0]] + q[1..];
    }
  }

  /** A dominator never comes later in lexicographic order. */
  lemma {:induction false} WeakDomLex(p: Point, q: Point)
    requires |p| == |q| && WeakDom(p, q)
    ensures LexLe(p, q)
  {
    if p != [] {
      assert p[0] <= q[0];
      assert forall k :: 0 <= k < |p[1..]| ==> p[1..][k] == p[k + 1] && q[1..][k] == q[k + 1];
      WeakDomLex(p[1..], q[1..]);
    }
  }

  ghost predicate TotalPreorderOn(le: (nat, nat) -> bool, xs: seq<nat>) {
    && (forall a, b :: a in xs && b in xs ==> le(a, b) || le(b, a))
    && (forall a, b, c :: a in xs && b in xs && c in xs && le(a, b) && le(b, c) ==> le(a, c))
  }

  ghost predicate SortedBy(le: (nat, nat) -> bool, xs: seq<nat>) {
    forall i, j :: 0 <= i < j < |xs| ==> le(xs[i], xs[j])
  }

  predicate InRange(xs: seq<nat>, n: nat) {
    forall i :: 0 <= i < |xs| ==> xs[i] < n
  }

  ghost predicate Distinct(xs: seq<nat>) {
    forall i, j :: 0 <= i < j < |xs| ==> xs[i] != xs[j]
  }

  ghost predicate SameElements(xs: seq<nat>, ys: seq<nat>) {
    forall x :: x in xs <==> x in ys
  }

  /** The library sort: a permutation of its input in the given order. */
  method Sort(xs: seq<nat>, le: (nat, nat) -> bool) returns (out: seq<nat>)
    requires TotalPreorderOn(le, xs)
    ensures multiset(out) == multiset(xs)
    ensures |out| == |xs| && SameElements(out, xs)
    ensures Distinct(xs) ==> Distinct(out)
    ensures SortedBy(le, out)
  {
    hide TotalPreorderOn, SortedBy, Distinct, SameElements, Inserted;
    out := [];
    NothingSorted(le);
    for i := 0 to |xs|
      invariant multiset(out) == multiset(xs[..i])
      invariant forall x :: x in out ==> x in xs
      invariant SortedBy(le, out)
    {
      var x := xs[i];
      var p := 0;
      while p < |out| && le(out[p], x)
        invariant 0 <= p <= |out|
        invariant forall k :: 0 <= k < p ==> le(out[k], x)
      {
        p := p + 1;
      }
      InsertSorted(le, xs, out, p, x);
      PrefixMultiset(xs, i);
      out := Inserted(out, p, x);
    }
    assert xs[..|xs|] == xs;
    PermutationFacts(out, xs);
  }

  lemma NothingSorted(le: (nat, nat) -> bool)
    ensures SortedBy(le, [])
  {
  }

  function Inserted(out: seq<nat>, p: nat, x: nat): seq<nat>
    requires p <= |out|
  {
    out[..p] + [x] + out[p..]
  }

  lemma PrefixMultiset(xs: seq<nat>, i: nat)
    requires i < |xs|
    ensures multiset(xs[..i + 1]) == multiset(xs[..i]) + multiset{xs[i]}
  {
    assert xs[..i + 1] == xs[..i] + [xs[i]];
  }

  lemma InsertSorted(le: (nat, nat) -> bool, xs: seq<nat>, out: seq<nat>, p: nat, x: nat)
    requires TotalPreorderOn(le, xs) && SortedBy(le, out) && x in xs && p <= |out|
    requires forall y :: y in out ==> y in xs
    requires forall k :: 0 <= k < p ==> le(out[k], x)
    requires p < |out| ==> !le(out[p], x)
    ensures SortedBy(le, Inserted(out, p, x)) && multiset(Inserted(out, p, x)) == multiset(out) + multiset{x}
    ensures forall y :: y in Inserted(out, p, x) ==> y in xs
  {
    InsertedMultiset(out, p, x);
    forall k | p <= k < |out| ensures le(x, out[k]) {
      assert out[p] in xs && out[k] in xs;
      assert le(x, out[p]) && (k == p || le(out[p], out[k]));
    }
  }

  lemma InsertedMultiset(out: seq<nat>, p: nat, x: nat)
    requires p <= |out|
    ensures multiset(Inserted(out, p, x)) == multiset(out) + multiset{x}
  {
    assert out == out[..p] + out[p..];
  }

  lemma PermutationFacts(xs: seq<nat>, ys: seq<nat>)
    requires multiset(xs) == multiset(ys)
    ensures |xs| == |ys| && SameElements(xs, ys)
    ensures Distinct(ys) ==> Distinct(xs)
  {
    assert |multiset(xs)| == |xs| && |multiset(ys)| == |ys|;
    forall x ensures x in xs <==> x in ys {
      assert x in multiset(xs) <==> x in multiset(ys);
    }
    if Distinct(ys) {
      forall i, j | 0 <= i < j < |xs| ensures xs[i] != xs[j] {
        DistinctCount(ys, xs[i]);
        if xs[i] == xs[j] {
          CountTwice(xs, i, j);
        }
      }
    }
  }

  lemma {:induction false} DistinctCount(ys: seq<nat>, y: nat)
    requires Distinct(ys)
    ensures multiset(ys)[y] <= 1
    decreases |ys|
  {
    if ys != [] {
      var n := |ys| - 1;
      assert ys == ys[..n] + [ys[n]];
      DistinctCount(ys[..n], y);
      assert ys[n] !in ys[..n];
      assert ys[n] !in multiset(ys[..n]);
    }
  }

  lemma CountTwice(xs: seq<nat>, i: nat, j: nat)
    requires i < j < |xs| && xs[i] == xs[j]
    ensures multiset(xs)[xs[i]] >= 2
  {
    assert xs == xs[..i] + [xs[i]] + xs[i + 1..j] + [xs[j]] + xs[j + 1..];
  }

  /** The indices `0..n` in order. */
  function Upto(n: nat): (r: seq<nat>)
    ensures |r| == n && forall k :: 0 <= k < n ==> r[k] == k
    ensures forall x: nat :: x in r <==> x < n
  {
    var r: seq<nat> := seq(n, k requires 0 <= k < n => k);
    assert forall x: nat :: x < n ==> x in r by {
      forall x: nat | x < n ensures x in r {
        assert r[x] == x;
      }
    }
    r
  }

  /** The entries at the given positions. */
  function Lookup(indices: seq<nat>, pos: seq<nat>): (out: seq<nat>)
    requires InRange(pos, |indices|)
    ensures |out| == |pos| && forall j :: 0 <= j < |out| ==> out[j] == indices[pos[j]]
  {
    seq(|pos|, j requires 0 <= j < |pos| => indices[pos[j]])
  }

  /** `lex_sort_indices`: the rows named by the result are in lexicographic order. */
  method LexSortIndices(rows: seq<Point>, idx: seq<nat>) returns (out: seq<nat>)
    requires InRange(idx, |rows|)
    ensures multiset(out) == multiset(idx)
    ensures |out| == |idx| && SameElements(out, idx)
    ensures Distinct(idx) ==> Distinct(out)
    ensures LexSorted(rows, out)
  {
    var le := (a: nat, b: nat) => a < |rows| && b < |rows| && LexLe(rows[a], rows[b]);
    forall a, b | a in idx && b in idx ensures le(a, b) || le(b, a) {
      LexTotal(rows[a], rows[b]);
    }
    forall a, b, c | a in idx && b in idx && c in idx && le(a, b) && le(b, c) ensures le(a, c) {
      LexTransitive(rows[a], rows[b], rows[c]);
    }
    out := Sort(idx, le);
    forall i | 0 <= i < |out| ensures out[i] < |rows| {
      assert out[i] in out;
    }
    forall i, j | 0 <= i < j < |out| ensures LexLe(rows[out[i]], rows[out[j]]) {
      assert le(out[i], out[j]);
    }
  }

  ghost predicate LexSorted(rows: seq<Point>, idx: seq<nat>) {
    && InRange(idx, |rows|)
    && (forall i, j :: 0 <= i < j < |idx| ==> LexLe(rows[idx[i]], rows[idx[j]]))
  }

  /** A stable sort of `0..n`, as the order in which positions break ties. */
  function InsertSortedBy(le: (nat, nat) -> bool, out: seq<nat>, x: nat): (r: seq<nat>)
    ensures |r| == |out| + 1
  {
    if out == [] then [x]
    else if le(out[0], x) then [out[0]] + InsertSortedBy(le, out[1..], x)
    else [x] + out
  }

  function SortBy(le: (nat, nat) -> bool, n: nat): (r: seq<nat>)
    ensures |r| == n
  {
    if n == 0 then [] else InsertSortedBy(le, SortBy(le, n - 1), n - 1)
  }

  lemma {:induction false} InsertMembers(le: (nat, nat) -> bool, out: seq<nat>, x: nat)
    ensures forall y :: y in InsertSortedBy(le, out, x) <==> y in out || y == x
  {
    if out != [] {
      assert forall y :: y in out <==> y == out[0] || y in out[1..];
      InsertMembers(le, out[1..], x);
    }
  }

  lemma {:induction false} InsertSortedByFacts(le: (nat, nat) -> bool, out: seq<nat>, x: nat, all: seq<nat>)
    requires TotalPreorderOn(le, all) && x in all && forall y :: y in out ==> y in all
    requires SortedBy(le, out) && Distinct(out) && x !in out
    ensures var r := InsertSortedBy(le, out, x);
      SortedBy(le, r) && Distinct(r) && forall y :: y in r <==> y in out || y == x
  {
    InsertMembers(le, out, x);
    if out != [] {
      if le(out[0], x) {
        InsertSortedByFacts(le, out[1..], x, all);
        FirstFits(le, out, x);
      } else {
        forall i | 0 <= i < |out| ensures le(x, out[i]) {
          assert out[i] in all && out[0] in all;
        }
      }
    }
  }

  /** The head stays in front of what is inserted behind it. */
  lemma FirstFits(le: (nat, nat) -> bool, out: seq<nat>, x: nat)
    requires out != [] && le(out[0], x) && x != out[0] && SortedBy(le, out) && Distinct(out)
    ensures forall i ::
      0 <= i < |out| ==> le(out[0], InsertSortedBy(le, out[1..], x)[i]) && out[0] != InsertSortedBy(le, out[1..], x)[i]
  {
    hide InsertSortedBy;
    InsertMembers(le, out[1..], x);
    var rest := InsertSortedBy(le, out[1..], x);
    forall i | 0 <= i < |rest| ensures le(out[0], rest[i]) && out[0] != rest[i] {
      assert rest[i] in rest;
      if rest[i] != x {
        var k :| 0 <= k < |out[1..]| && out[1..][k] == rest[i];
        assert le(out[0], out[k + 1]);
      }
    }
  }

  lemma {:induction false} SortByFacts(le: (nat, nat) -> bool, n: nat, all: seq<nat>)
    requires TotalPreorderOn(le, all) && forall y: nat :: y < n ==> y in all
    ensures SortedBy(le, SortBy(le, n)) && Distinct(SortBy(le, n))
    ensures forall y: nat :: y in SortBy(le, n) <==> y < n
  {
    if n > 0 {
      SortByFacts(le, n - 1, all);
      InsertSortedByFacts(le, SortBy(le, n - 1), n - 1, all);
    }
  }

  /** Lexicographic order of rows, ties broken by position: what a stable sort of `0..n` uses. */
  function LexThenPosition(rows: seq<Point>): (nat, nat) -> bool {
    (a: nat, b: nat) =>
      a < |rows| && b < |rows| && LexLe(rows[a], rows[b]) && (rows[a] == rows[b] ==> a <= b)
  }

  /** `order.sort_by(lex)` on `0..n`. */
  function LexOrder(rows: seq<Point>): (order: seq<nat>)
    ensures |order| == |rows|
  {
    SortBy(LexThenPosition(rows), |rows|)
  }

  lemma LexOrderFacts(rows: seq<Point>)
    ensures LexSorted(rows, LexOrder(rows)) && Distinct(LexOrder(rows))
    ensures forall x: nat :: x in LexOrder(rows) <==> x < |rows|
    ensures forall i, j :: 0 <= i < j < |rows| && rows[LexOrder(rows)[i]] == rows[LexOrder(rows)[j]] ==>
      LexOrder(rows)[i] < LexOrder(rows)[j]
  {
    var le, all := LexThenPosition(rows), Upto(|rows|);
    forall a, b | a in all && b in all ensures le(a, b) || le(b, a) {
      LexTotal(rows[a], rows[b]);
      if LexLe(rows[a], rows[b]) && LexLe(rows[b], rows[a]) {
        LexAntisymmetric(rows[a], rows[b]);
      }
    }
    forall a, b, c | a in all && b in all && c in all && le(a, b) && le(b, c) ensures le(a, c) {
      LexTransitive(rows[a], rows[b], rows[c]);
      if rows[a] == rows[c] {
        LexAntisymmetric(rows[a], rows[b]);
      }
    }
    SortByFacts(le, |rows|, all);
    var order := LexOrder(rows);
    forall i | 0 <= i < |order| ensures order[i] < |rows| {
      assert order[i] in order;
    }
    forall i, j | 0 <= i < j < |order|
      ensures LexLe(rows[order[i]], rows[order[j]])
      ensures rows[order[i]] == rows[order[j]] ==> order[i] < order[j]
    {
      assert le(order[i], order[j]);
    }
  }
}
