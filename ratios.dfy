/**
 * The priority list of `solve`: one (u, v, ratio) entry per edge, ordered by
 * descending ratio with ties kept in edge order (a stable sort).
 */
module Ratios {
  import opened Matrices

  /** A candidate pair of students with its priority. */
  datatype RatioPair = RatioPair(u: nat, v: nat, ratio: real)

  /** Happiness per unit of stress, or the happiness itself when the stress is 0. */
  function Ratio(happiness: real, stress: real): (r: real)
    ensures stress == 0.0 ==> r == happiness
    ensures stress != 0.0 ==> r * stress == happiness
  {
    if stress == 0.0 then happiness else happiness / stress
  }

  function PairOf(e: Edge): (p: RatioPair) {
    RatioPair(e.u, e.v, Ratio(e.happiness, e.stress))
  }

  /** The list built by appending one entry per edge, in edge order. */
  function RatioPairs(edges: seq<Edge>): (ps: seq<RatioPair>)
    ensures |ps| == |edges|
    ensures forall k :: 0 <= k < |edges| ==> ps[k] == PairOf(edges[k])
  {
    if edges == [] then [] else RatioPairs(edges[..|edges| - 1]) + [PairOf(edges[|edges| - 1])]
  }

  /** Every pair names two of the students 0..n-1. */
  predicate Within(ps: seq<RatioPair>, n: nat) {
    forall i :: 0 <= i < |ps| ==> ps[i].u < n && ps[i].v < n
  }

  lemma EdgePairsWithin(g: Graph)
    requires g.Valid()
    ensures Within(RatioPairs(g.edges), g.n)
  {
    var ps := RatioPairs(g.edges);
    forall i | 0 <= i < |ps| ensures ps[i].u < g.n && ps[i].v < g.n {
      assert ps[i] == PairOf(g.edges[i]);
    }
  }

  /** Non-increasing by ratio. */
  predicate SortedByRatio(ps: seq<RatioPair>) {
    forall i, j :: 0 <= i < j < |ps| ==> ps[i].ratio >= ps[j].ratio
  }

  /** The entries whose ratio is `x`, in their order in `ps`. */
  function WithRatio(ps: seq<RatioPair>, x: real): (r: seq<RatioPair>) {
    if ps == [] then []
    else (if ps[0].ratio == x then [ps[0]] else []) + WithRatio(ps[1..], x)
  }

  /** Filtering by ratio distributes over concatenation. */
  lemma {:induction false} WithRatioConcat(a: seq<RatioPair>, b: seq<RatioPair>, x: real)
    ensures WithRatio(a + b, x) == WithRatio(a, x) + WithRatio(b, x)
  {
    if a != [] {
      assert (a + b)[0] == a[0] && (a + b)[1..] == a[1..] + b;
      WithRatioConcat(a[1..], b, x);
      var head := if a[0].ratio == x then [a[0]] else [];
      assert WithRatio(a + b, x) == head + WithRatio(a[1..] + b, x);
    } else {
      assert a + b == b;
    }
  }

  /** Places `p` in front of the first entry whose ratio does not exceed its own. */
  function Insert(p: RatioPair, ps: seq<RatioPair>): (r: seq<RatioPair>)
    requires SortedByRatio(ps)
    ensures SortedByRatio(r)
    ensures r != [] && (r[0] == p || (ps != [] && r[0] == ps[0]))
    ensures multiset(r) == multiset(ps) + multiset{p}
  {
    if ps == [] || ps[0].ratio <= p.ratio then
      [p] + ps
    else
      var rest := Insert(p, ps[1..]);
      assert ps == [ps[0]] + ps[1..];
      [ps[0]] + rest
  }

  /** Inserting keeps `p` ahead of every entry of `ps` with the same ratio. */
  lemma {:induction false} InsertIsStable(p: RatioPair, ps: seq<RatioPair>, x: real)
    requires SortedByRatio(ps)
    ensures WithRatio(Insert(p, ps), x) == WithRatio([p] + ps, x)
  {
    if ps == [] || ps[0].ratio <= p.ratio {
    } else {
      var rest := Insert(p, ps[1..]);
      InsertIsStable(p, ps[1..], x);
      WithRatioConcat([ps[0]], rest, x);
      WithRatioConcat([p], ps, x);
      WithRatioConcat([p], ps[1..], x);
      assert ps == [ps[0]] + ps[1..];
      WithRatioConcat([ps[0]], ps[1..], x);
    }
  }

  /** The stable sort keyed on the negated ratio: descending by ratio, a permutation of its input. */
  function SortByRatio(ps: seq<RatioPair>): (r: seq<RatioPair>)
    ensures SortedByRatio(r)
    ensures multiset(r) == multiset(ps)
  {
    if ps == [] then []
    else
      assert ps == [ps[0]] + ps[1..];
      Insert(ps[0], SortByRatio(ps[1..]))
  }

  /** The sort is stable: the entries of any one ratio keep their input order. */
  lemma {:induction false} SortIsStable(ps: seq<RatioPair>, x: real)
    ensures WithRatio(SortByRatio(ps), x) == WithRatio(ps, x)
  {
    if ps != [] {
      var rest := SortByRatio(ps[1..]);
      assert ps == [ps[0]] + ps[1..];
      calc {
        WithRatio(SortByRatio(ps), x);
        WithRatio(Insert(ps[0], rest), x);
        { InsertIsStable(ps[0], rest, x); }
        WithRatio([ps[0]] + rest, x);
        { WithRatioConcat([ps[0]], rest, x); }
        WithRatio([ps[0]], x) + WithRatio(rest, x);
        { SortIsStable(ps[1..], x); }
        WithRatio([ps[0]], x) + WithRatio(ps[1..], x);
        { WithRatioConcat([ps[0]], ps[1..], x); }
        WithRatio(ps, x);
      }
    }
  }

  lemma SortKeepsWithin(ps: seq<RatioPair>, n: nat)
    requires Within(ps, n)
    ensures Within(SortByRatio(ps), n)
  {
    var r := SortByRatio(ps);
    forall i | 0 <= i < |r| ensures r[i].u < n && r[i].v < n {
      assert r[i] in multiset(r);
    }
  }

  /** The entries with ratio `x` are entries of `ps` and do have ratio `x`. */
  lemma {:induction false} WithRatioElements(ps: seq<RatioPair>, x: real)
    ensures forall q :: q in WithRatio(ps, x) ==> q in ps && q.ratio == x
  {
    if ps != [] {
      WithRatioElements(ps[1..], x);
    }
  }

  /**
   * Being sorted by descending ratio and keeping the order of equal ratios
   * determines the result: any two such orderings of the same entries agree.
   */
  lemma {:induction false} StableOrderIsUnique(a: seq<RatioPair>, b: seq<RatioPair>)
    requires SortedByRatio(a) && SortedByRatio(b)
    requires forall x :: WithRatio(a, x) == WithRatio(b, x)
    ensures a == b
    decreases |a|
  {
    assert a != [] ==> WithRatio(b, a[0].ratio) == WithRatio(a, a[0].ratio) != [];
    assert b != [] ==> WithRatio(a, b[0].ratio) == WithRatio(b, b[0].ratio) != [];
    if a != [] && b != [] {
      var ra, rb := a[0].ratio, b[0].ratio;
      WithRatioElements(a, rb);
      WithRatioElements(b, ra);
      assert WithRatio(a, ra)[0] == a[0];
      assert a[0] in b;
      assert WithRatio(b, rb)[0] == b[0];
      assert b[0] in a;
      assert ra == rb;
      assert a[0] == b[0];
      forall x ensures WithRatio(a[1..], x) == WithRatio(b[1..], x) {
        var head := if ra == x then [a[0]] else [];
        assert WithRatio(a, x) == head + WithRatio(a[1..], x);
        assert WithRatio(b, x) == head + WithRatio(b[1..], x);
        assert WithRatio(a[1..], x) == (head + WithRatio(a[1..], x))[|head|..];
        assert WithRatio(b[1..], x) == (head + WithRatio(b[1..], x))[|head|..];
      }
      StableOrderIsUnique(a[1..], b[1..]);
      assert a == [a[0]] + a[1..];
      assert b == [b[0]] + b[1..];
    }
  }

  /** Hence `SortByRatio` is the only stable descending order of its input. */
  lemma SortIsTheStableOrder(ps: seq<RatioPair>, r: seq<RatioPair>)
    requires SortedByRatio(r)
    requires forall x :: WithRatio(r, x) == WithRatio(ps, x)
    ensures r == SortByRatio(ps)
  {
    forall x ensures WithRatio(r, x) == WithRatio(SortByRatio(ps), x) {
      SortIsStable(ps, x);
    }
    StableOrderIsUnique(r, SortByRatio(ps));
  }
}
