/**
 * `solve` and `dummy_solution` as the imperative code they are: the matrix
 * fill loop, the assignment loop over the sorted pairs with the state it
 * mutates, and the identity fallback. Each is proved against the value-level
 * model in Matrices, Ratios and Greedy.
 */
module Solver {
  import opened Matrices
  import opened Ratios
  import opened Greedy

  /**
   * The variables of `solve` that its loop and the nested helper `assign`
   * update in place.
   */
  class SolverState {
    var assignments: map<nat, nat>
    var isAssigned: array<bool>
    var currentRoom: nat
    var currentRoomStress: real
    var inhabitants: seq<nat>

    /** The state as a value. */
    function Model(): (st: State)
      reads this, isAssigned
    {
      State(assignments, isAssigned[..], currentRoom, currentRoomStress, inhabitants)
    }

    /** No assignments, every student unassigned, room 0 open with no stress and no inhabitants. */
    constructor (n: nat)
      ensures Model() == Initial(n)
      ensures isAssigned.Length == n && fresh(isAssigned)
    {
      assignments := map[];
      isAssigned := new bool[n](_ => false);
      currentRoom := 0;
      currentRoomStress := 0.0;
      inhabitants := [];
      new;
      assert isAssigned[..] == seq(n, _ => false);
    }

    /** The nested helper `assign(u, v, room)`. */
    method Assign(u: nat, v: nat, room: nat)
      requires u < isAssigned.Length && v < isAssigned.Length
      modifies this, isAssigned
      ensures isAssigned == old(isAssigned)
      ensures Model() == WithPair(old(Model()), u, v, room)
    {
      assignments := assignments[u := room][v := room];
      isAssigned[u] := true;
      isAssigned[v] := true;
      inhabitants := inhabitants + [u, v];
    }

    /**
     * The body of the assignment loop for one pair, after the early-exit
     * test: skip it, seat it below or at the threshold, split it into two
     * fresh rooms, drop it, or seat it in a new room.
     */
    method Visit(strez: array2<real>, ghost edges: seq<Edge>, threshold: real, p: RatioPair)
      requires Inv(Model(), strez.Length0) && strez.Length0 == strez.Length1
      requires p.u < strez.Length0 && p.v < strez.Length0
      requires forall a, b :: 0 <= a < strez.Length0 && 0 <= b < strez.Length1 ==> strez[a, b] == Entry(edges, Stress, a, b)
      modifies this, isAssigned
      ensures isAssigned == old(isAssigned)
      ensures Model() == Step(edges, threshold, old(Model()), p)
    {
      ghost var before := Model();
      var u, v := p.u, p.v;
      var stress := strez[u, v];
      if isAssigned[u] || isAssigned[v] {
        return;
      }
      var potential := PotentialStressOf(strez, edges, currentRoomStress + stress, u, v, inhabitants);
      if potential < threshold {
        currentRoomStress := potential;
        Assign(u, v, currentRoom);
      } else if potential == threshold {
        Assign(u, v, currentRoom);
        currentRoomStress, inhabitants := 0.0, [];
        currentRoom := currentRoom + 1;
      } else if stress > threshold {
        SplitOrDrop(strez, edges, threshold, p);
      } else {
        currentRoomStress := stress;
        currentRoom := currentRoom + 1;
        Assign(u, v, currentRoom);
      }
    }

    /**
     * The assignment loop of `solve`: visit `pairs` in order, and give up as
     * soon as an iteration starts with `current_room > magic`.
     */
    method Walk(strez: array2<real>, ghost edges: seq<Edge>, threshold: real, magic: nat, pairs: seq<RatioPair>)
      returns (aborted: bool)
      requires Inv(Model(), strez.Length0) && strez.Length0 == strez.Length1
      requires Within(pairs, strez.Length0)
      requires forall a, b :: 0 <= a < strez.Length0 && 0 <= b < strez.Length1 ==> strez[a, b] == Entry(edges, Stress, a, b)
      modifies this, isAssigned
      ensures isAssigned == old(isAssigned)
      ensures aborted <==> Run(edges, threshold, magic, old(Model()), pairs).Aborted?
      ensures !aborted ==> Run(edges, threshold, magic, old(Model()), pairs) == Finished(Model())
    {
      ghost var outcome := Run(edges, threshold, magic, Model(), pairs);
      for k := 0 to |pairs|
        invariant isAssigned == old(isAssigned)
        invariant Inv(Model(), strez.Length0)
        invariant Run(edges, threshold, magic, Model(), pairs[k..]) == outcome
      {
        if currentRoom > magic {
          return true;
        }
        assert pairs[k..][0] == pairs[k] && pairs[k..][1..] == pairs[k + 1..];
        StepPreservesInv(edges, threshold, Model(), pairs[k], strez.Length0);
        Visit(strez, edges, threshold, pairs[k]);
      }
      aborted := false;
    }

    /**
     * The branch of the loop body for a pair whose own stress already exceeds
     * the threshold: split it into two fresh rooms when even the less stressed
     * student would overload the current room, and otherwise drop it.
     */
    method SplitOrDrop(strez: array2<real>, ghost edges: seq<Edge>, threshold: real, p: RatioPair)
      requires isAssigned.Length == strez.Length0 == strez.Length1
      requires forall i :: 0 <= i < |inhabitants| ==> inhabitants[i] < strez.Length1
      requires p.u < strez.Length0 && p.v < strez.Length0
      requires forall a, b :: 0 <= a < strez.Length0 && 0 <= b < strez.Length1 ==> strez[a, b] == Entry(edges, Stress, a, b)
      requires Classify(edges, threshold, Model(), p) in {Split, Defer}
      modifies this, isAssigned
      ensures isAssigned == old(isAssigned)
      ensures Model() == Step(edges, threshold, old(Model()), p)
    {
      ghost var before := Model();
      var u, v := p.u, p.v;
      var uStress := RowStress(strez, edges, u, inhabitants);
      var vStress := RowStress(strez, edges, v, inhabitants);
      var smaller := if uStress <= vStress then uStress else vStress;
      if currentRoomStress + smaller > threshold {
        assert Classify(edges, threshold, before, p) == Split;
        ghost var after := State(assignments[u := currentRoom + 1][v := currentRoom + 2],
          before.isAssigned[u := true][v := true], currentRoom + 3, 0.0, []);
        assert Step(edges, threshold, before, p) == after;
        assignments := assignments[u := currentRoom + 1];
        assignments := assignments[v := currentRoom + 2];
        isAssigned[u] := true;
        isAssigned[v] := true;
        assert isAssigned[..] == after.isAssigned;
        currentRoom := currentRoom + 3;
        currentRoomStress := 0.0;
        inhabitants := [];
        assert assignments == after.assignments;
        assert isAssigned[..] == after.isAssigned;
        assert inhabitants == after.inhabitants;
        assert Model() == after;
      } else {
        // the pair is dropped and never revisited
        assert Classify(edges, threshold, before, p) == Defer;
        return;
      }
    }
  }

  /**
   * The first loop of `solve`: both n-by-n matrices with independent rows,
   * each edge written to [u][v] and [v][u], and one ratio pair per edge in
   * edge order.
   */
  method FillMatrices(g: Graph) returns (hap: array2<real>, strez: array2<real>, pairs: seq<RatioPair>)
    requires g.Valid()
    ensures hap.Length0 == g.n && hap.Length1 == g.n
    ensures strez.Length0 == g.n && strez.Length1 == g.n
    ensures forall a, b :: 0 <= a < g.n && 0 <= b < g.n ==> hap[a, b] == Entry(g.edges, Happiness, a, b)
    ensures forall a, b :: 0 <= a < g.n && 0 <= b < g.n ==> strez[a, b] == Entry(g.edges, Stress, a, b)
    ensures pairs == RatioPairs(g.edges)
  {
    hap := new real[g.n, g.n]((_, _) => 0.0);
    strez := new real[g.n, g.n]((_, _) => 0.0);
    pairs := [];
    for k := 0 to |g.edges|
      invariant forall a, b :: 0 <= a < g.n && 0 <= b < g.n ==> hap[a, b] == Entry(g.edges[..k], Happiness, a, b)
      invariant forall a, b :: 0 <= a < g.n && 0 <= b < g.n ==> strez[a, b] == Entry(g.edges[..k], Stress, a, b)
      invariant pairs == RatioPairs(g.edges[..k])
    {
      var e := g.edges[k];
      assert g.edges[..k + 1][..k] == g.edges[..k];
      hap[e.u, e.v] := e.happiness;
      hap[e.v, e.u] := e.happiness;
      strez[e.u, e.v] := e.stress;
      strez[e.v, e.u] := e.stress;
      pairs := pairs + [RatioPair(e.u, e.v, Ratio(e.happiness, e.stress))];
      forall a, b | 0 <= a < g.n && 0 <= b < g.n ensures hap[a, b] == Entry(g.edges[..k + 1], Happiness, a, b) {
      }
      forall a, b | 0 <= a < g.n && 0 <= b < g.n ensures strez[a, b] == Entry(g.edges[..k + 1], Stress, a, b) {
      }
    }
    assert g.edges[..|g.edges|] == g.edges;
  }

  /** The total stress between student `x` and each of `people`, read from the matrix. */
  method RowStress(strez: array2<real>, ghost edges: seq<Edge>, x: nat, people: seq<nat>) returns (total: real)
    requires x < strez.Length0
    requires forall i :: 0 <= i < |people| ==> people[i] < strez.Length1
    requires forall a, b :: 0 <= a < strez.Length0 && 0 <= b < strez.Length1 ==> strez[a, b] == Entry(edges, Stress, a, b)
    ensures total == StressTo(edges, x, people)
  {
    total := 0.0;
    for j := 0 to |people|
      invariant total == StressTo(edges, x, people[..j])
    {
      assert people[..j + 1][..j] == people[..j];
      total := total + strez[x, people[j]];
    }
    assert people[..|people|] == people;
  }

  /** `base` plus, for each inhabitant, its stress with `u` and then with `v`. */
  method PotentialStressOf(strez: array2<real>, ghost edges: seq<Edge>, base: real, u: nat, v: nat, people: seq<nat>)
    returns (potential: real)
    requires u < strez.Length0 && v < strez.Length0
    requires forall i :: 0 <= i < |people| ==> people[i] < strez.Length1
    requires forall a, b :: 0 <= a < strez.Length0 && 0 <= b < strez.Length1 ==> strez[a, b] == Entry(edges, Stress, a, b)
    ensures potential == base + StressTo(edges, u, people) + StressTo(edges, v, people)
  {
    potential := base;
    for j := 0 to |people|
      invariant potential == base + StressTo(edges, u, people[..j]) + StressTo(edges, v, people[..j])
    {
      assert people[..j + 1][..j] == people[..j];
      potential := potential + strez[u, people[j]];
      potential := potential + strez[v, people[j]];
    }
    assert people[..|people|] == people;
  }

  /** `solve(G, s, magic)`. */
  method Solve(g: Graph, s: real, magic: nat) returns (assignments: map<nat, nat>, count: nat)
    requires g.Valid()
    requires magic >= 1
    ensures (assignments, count) == Solution(g, s, magic)
    ensures count == 0 <==> OpensTooManyRooms(g.edges, Threshold(s, magic), magic, Initial(g.n), Order(g))
    ensures count == 0 ==> assignments == map[]
    ensures count != 0 ==> count == |assignments.Values| + 1
    ensures forall x :: x in assignments ==> x < g.n
  {
    var hap, strez, pairs := FillMatrices(g);
    pairs := SortByRatio(pairs);
    assert pairs == Order(g);
    var st := new SolverState(g.n);
    var threshold := s / magic as real;
    var aborted := st.Walk(strez, g.edges, threshold, magic, pairs);
    ghost var last := st.Model();
    if aborted {
      assignments, count := map[], 0;
    } else {
      assignments := st.assignments;
      count := |st.assignments.Values| + 1;
    }
    SolveResult(g, s, magic, aborted, last);
  }

  /** What `Solve` returns once the loop has aborted, or has finished in state `last`. */
  lemma SolveResult(g: Graph, s: real, magic: nat, aborted: bool, last: State)
    requires g.Valid() && magic >= 1
    requires aborted <==> Run(g.edges, Threshold(s, magic), magic, Initial(g.n), Order(g)).Aborted?
    requires !aborted ==> Run(g.edges, Threshold(s, magic), magic, Initial(g.n), Order(g)) == Finished(last)
    ensures var r := if aborted then (map[], 0) else (last.assignments, |last.assignments.Values| + 1);
      && r == Solution(g, s, magic)
      && (r.1 == 0 <==> OpensTooManyRooms(g.edges, Threshold(s, magic), magic, Initial(g.n), Order(g)))
      && (r.1 == 0 ==> r.0 == map[])
      && (forall x :: x in r.0 ==> x < g.n)
  {
    SolutionCases(g, s, magic);
  }

  /** `dummy_solution(n)`: every student in a room of their own, room i for student i. */
  method DummySolution(n: nat) returns (result: map<nat, nat>)
    ensures forall i: nat :: i in result <==> i < n
    ensures forall i :: i in result ==> result[i] == i
    ensures |result| == n
  {
    result := map[];
    for i := 0 to n
      invariant forall j: nat :: j in result <==> j < i
      invariant forall j :: j in result ==> result[j] == j
      invariant |result| == i
    {
      result := result[i := i];
    }
  }
}
