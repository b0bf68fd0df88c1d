/**
 * The assignment phase of `solve` as values: the state its loop threads
 * through the sorted pairs, one step of that loop, the whole walk with its
 * early exit, and the (mapping, room count) it returns.
 */
module Greedy {
  import opened Matrices
  import opened Ratios

  /** The loop's variables: `assignments`, `assigned`, `current_room`, `current_room_stress`, `inhabitants`. */
  datatype State = State(
    assignments: map<nat, nat>,
    isAssigned: seq<bool>,
    currentRoom: nat,
    currentRoomStress: real,
    inhabitants: seq<nat>)

  /**
   * What holds of the state before and after every iteration: `assigned[x]`
   * says exactly whether `x` has a room, only students have rooms, no room id
   * exceeds the current room, and the inhabitants are students.
   */
  ghost predicate Inv(st: State, n: nat) {
    && |st.isAssigned| == n
    && (forall x: nat :: x < n ==> (st.isAssigned[x] <==> x in st.assignments))
    && (forall x :: x in st.assignments ==> x < n && st.assignments[x] <= st.currentRoom)
    && (forall i :: 0 <= i < |st.inhabitants| ==> st.inhabitants[i] < n)
  }

  /** Nobody assigned, room 0 open and empty. */
  function Initial(n: nat): (st: State)
    ensures Inv(st, n)
    ensures forall x: nat :: x < n ==> x !in st.assignments
  {
    State(map[], seq(n, _ => false), 0, 0.0, [])
  }

  /** The sum of the stress between `x` and each of `people`, added up in order. */
  function StressTo(edges: seq<Edge>, x: nat, people: seq<nat>): (r: real) {
    if people == [] then 0.0
    else StressTo(edges, x, people[..|people| - 1]) + Entry(edges, Stress, x, people[|people| - 1])
  }

  /** The stress the current room would have with `u` and `v` added to it. */
  function PotentialStress(edges: seq<Edge>, st: State, u: nat, v: nat): (r: real) {
    st.currentRoomStress + Entry(edges, Stress, u, v)
      + StressTo(edges, u, st.inhabitants) + StressTo(edges, v, st.inhabitants)
  }

  function Min(a: real, b: real): (r: real) {
    if a <= b then a else b
  }

  /** The five ways an iteration can treat a pair (the deferred pair is the sixth outcome of one of them). */
  datatype Branch = Skip | Below | AtThreshold | Split | Defer | NewRoom

  function Classify(edges: seq<Edge>, threshold: real, st: State, p: RatioPair): (b: Branch)
    requires p.u < |st.isAssigned| && p.v < |st.isAssigned|
  {
    var u, v := p.u, p.v;
    var stress := Entry(edges, Stress, u, v);
    if st.isAssigned[u] || st.isAssigned[v] then Skip
    else
      var potential := PotentialStress(edges, st, u, v);
      if potential < threshold then Below
      else if potential == threshold then AtThreshold
      else if stress > threshold then
        var smaller := Min(StressTo(edges, u, st.inhabitants), StressTo(edges, v, st.inhabitants));
        if st.currentRoomStress + smaller > threshold then Split else Defer
      else NewRoom
  }

  /** The nested helper `assign`: both students into `room`, both marked, both appended to the inhabitants. */
  function WithPair(st: State, u: nat, v: nat, room: nat): (r: State)
    requires u < |st.isAssigned| && v < |st.isAssigned|
  {
    st.(assignments := st.assignments[u := room][v := room],
        isAssigned := st.isAssigned[u := true][v := true],
        inhabitants := st.inhabitants + [u, v])
  }

  /** One iteration of the assignment loop, after the early-exit test. */
  function Step(edges: seq<Edge>, threshold: real, st: State, p: RatioPair): (r: State)
    requires p.u < |st.isAssigned| && p.v < |st.isAssigned|
    ensures |r.isAssigned| == |st.isAssigned|
  {
    var u, v, room := p.u, p.v, st.currentRoom;
    match Classify(edges, threshold, st, p)
    case Skip => st
    case Below =>
      WithPair(st.(currentRoomStress := PotentialStress(edges, st, u, v)), u, v, room)
    case AtThreshold =>
      WithPair(st, u, v, room).(currentRoomStress := 0.0, inhabitants := [], currentRoom := room + 1)
    case Split =>
      st.(assignments := st.assignments[u := room + 1][v := room + 2],
          isAssigned := st.isAssigned[u := true][v := true],
          currentRoom := room + 3,
          currentRoomStress := 0.0,
          inhabitants := [])
    case Defer => st
    case NewRoom =>
      // the inhabitants of the abandoned room are kept: `assign` appends to them
      WithPair(st.(currentRoomStress := Entry(edges, Stress, u, v), currentRoom := room + 1), u, v, room + 1)
  }

  /** The state after the steps for `ps`, without the early-exit test. */
  function Fold(edges: seq<Edge>, threshold: real, st: State, ps: seq<RatioPair>): (r: State)
    requires Within(ps, |st.isAssigned|)
    ensures |r.isAssigned| == |st.isAssigned|
    decreases |ps|
  {
    if ps == [] then st
    else Fold(edges, threshold, Step(edges, threshold, st, ps[0]), ps[1..])
  }

  datatype Outcome = Aborted | Finished(final: State)

  /** The loop over `ps`, which gives up when an iteration starts with `current_room > magic`. */
  function Run(edges: seq<Edge>, threshold: real, magic: nat, st: State, ps: seq<RatioPair>): (r: Outcome)
    requires Within(ps, |st.isAssigned|)
    decreases |ps|
  {
    if ps == [] then Finished(st)
    else if st.currentRoom > magic then Aborted
    else Run(edges, threshold, magic, Step(edges, threshold, st, ps[0]), ps[1..])
  }

  /** Some iteration over `ps` starts with more than `magic` rooms opened. */
  ghost predicate OpensTooManyRooms(edges: seq<Edge>, threshold: real, magic: nat, st: State, ps: seq<RatioPair>)
    requires Within(ps, |st.isAssigned|)
  {
    exists k :: 0 <= k < |ps| && Fold(edges, threshold, st, ps[..k]).currentRoom > magic
  }

  function Threshold(s: real, magic: nat): (t: real)
    requires magic >= 1
    ensures t * magic as real == s
  {
    s / magic as real
  }

  /** The pairs in the order the loop visits them. */
  function Order(g: Graph): (ps: seq<RatioPair>)
    requires g.Valid()
    ensures Within(ps, g.n)
  {
    EdgePairsWithin(g);
    SortKeepsWithin(RatioPairs(g.edges), g.n);
    SortByRatio(RatioPairs(g.edges))
  }

  /** What `solve(G, s, magic)` returns. */
  function Solution(g: Graph, s: real, magic: nat): (r: (map<nat, nat>, nat))
    requires g.Valid() && magic >= 1
  {
    match Run(g.edges, Threshold(s, magic), magic, Initial(g.n), Order(g))
    case Aborted => (map[], 0)
    case Finished(st) => (st.assignments, |st.assignments.Values| + 1)
  }

  // ---------------------------------------------------------------- one step

  lemma StepPreservesInv(edges: seq<Edge>, threshold: real, st: State, p: RatioPair, n: nat)
    requires Inv(st, n) && p.u < n && p.v < n
    ensures Inv(Step(edges, threshold, st, p), n)
  {
    var r := Step(edges, threshold, st, p);
    match Classify(edges, threshold, st, p)
    case Skip =>
    case Defer =>
    case Below =>
      assert r.inhabitants == st.inhabitants + [p.u, p.v];
    case AtThreshold =>
    case Split =>
    case NewRoom =>
      assert r.inhabitants == st.inhabitants + [p.u, p.v];
  }

  /** A student who has a room keeps it: pairs touching an assigned student are skipped. */
  lemma StepKeepsRooms(edges: seq<Edge>, threshold: real, st: State, p: RatioPair, n: nat)
    requires Inv(st, n) && p.u < n && p.v < n
    ensures var r := Step(edges, threshold, st, p);
      forall x :: x in st.assignments ==> x in r.assignments && r.assignments[x] == st.assignments[x]
  {
  }

  /** `current_room` rises by 0, 1 or 3. */
  lemma StepRoomCounter(edges: seq<Edge>, threshold: real, st: State, p: RatioPair)
    requires p.u < |st.isAssigned| && p.v < |st.isAssigned|
    ensures var r := Step(edges, threshold, st, p);
      r.currentRoom in {st.currentRoom, st.currentRoom + 1, st.currentRoom + 3}
  {
  }

  /** With a non-negative threshold the current room never holds more stress than the threshold. */
  lemma StepStressBound(edges: seq<Edge>, threshold: real, st: State, p: RatioPair)
    requires p.u < |st.isAssigned| && p.v < |st.isAssigned|
    requires 0.0 <= threshold && st.currentRoomStress <= threshold
    ensures Step(edges, threshold, st, p).currentRoomStress <= threshold
    ensures Classify(edges, threshold, st, p) == Below ==>
      Step(edges, threshold, st, p).currentRoomStress < threshold
  {
  }

  /**
   * Where the pair goes. A skipped or deferred pair changes nothing; a seated
   * pair shares one room (the current one, or the next one after abandoning
   * the current room); a split sends `u` and `v` to two fresh rooms.
   */
  lemma StepPlacement(edges: seq<Edge>, threshold: real, st: State, p: RatioPair, n: nat)
    requires Inv(st, n) && p.u < n && p.v < n
    ensures var b, r, room := Classify(edges, threshold, st, p), Step(edges, threshold, st, p), st.currentRoom;
      && (b == Skip <==> st.isAssigned[p.u] || st.isAssigned[p.v])
      && (b == Skip || b == Defer ==> r == st)
      && (b != Skip && b != Defer ==> r.assignments.Keys == st.assignments.Keys + {p.u, p.v})
      && (b == Below || b == AtThreshold ==> r.assignments[p.u] == r.assignments[p.v] == room)
      && (b == NewRoom ==> r.assignments[p.u] == r.assignments[p.v] == room + 1 == r.currentRoom)
      && (b == Split ==> r.assignments[p.v] == room + 2 && (p.u != p.v ==> r.assignments[p.u] == room + 1))
  {
  }

  // ------------------------------------------------------------ many steps

  lemma {:induction false} FoldPreservesInv(edges: seq<Edge>, threshold: real, st: State, ps: seq<RatioPair>, n: nat)
    requires Inv(st, n) && Within(ps, n)
    ensures Inv(Fold(edges, threshold, st, ps), n)
    decreases |ps|
  {
    if ps != [] {
      StepPreservesInv(edges, threshold, st, ps[0], n);
      FoldPreservesInv(edges, threshold, Step(edges, threshold, st, ps[0]), ps[1..], n);
    }
  }

  /** Over any run of steps the room counter never goes down and no assigned student moves. */
  lemma {:induction false} FoldKeepsRooms(edges: seq<Edge>, threshold: real, st: State, ps: seq<RatioPair>, n: nat)
    requires Inv(st, n) && Within(ps, n)
    ensures var r := Fold(edges, threshold, st, ps);
      && r.currentRoom >= st.currentRoom
      && forall x :: x in st.assignments ==> x in r.assignments && r.assignments[x] == st.assignments[x]
    decreases |ps|
  {
    if ps != [] {
      var next := Step(edges, threshold, st, ps[0]);
      StepPreservesInv(edges, threshold, st, ps[0], n);
      StepKeepsRooms(edges, threshold, st, ps[0], n);
      StepRoomCounter(edges, threshold, st, ps[0]);
      FoldKeepsRooms(edges, threshold, next, ps[1..], n);
    }
  }

  lemma {:induction false} FoldStressBound(edges: seq<Edge>, threshold: real, st: State, ps: seq<RatioPair>)
    requires Within(ps, |st.isAssigned|)
    requires 0.0 <= threshold && st.currentRoomStress <= threshold
    ensures Fold(edges, threshold, st, ps).currentRoomStress <= threshold
    decreases |ps|
  {
    if ps != [] {
      StepStressBound(edges, threshold, st, ps[0]);
      FoldStressBound(edges, threshold, Step(edges, threshold, st, ps[0]), ps[1..]);
    }
  }

  /**
   * The loop gives up exactly when some iteration starts with too many rooms;
   * otherwise it ends in the state that all its steps produce.
   */
  lemma {:induction false} RunIsFoldUnlessAborted(edges: seq<Edge>, threshold: real, magic: nat, st: State, ps: seq<RatioPair>)
    requires Within(ps, |st.isAssigned|)
    ensures Run(edges, threshold, magic, st, ps).Aborted? <==> OpensTooManyRooms(edges, threshold, magic, st, ps)
    ensures Run(edges, threshold, magic, st, ps).Finished? ==>
      Run(edges, threshold, magic, st, ps).final == Fold(edges, threshold, st, ps)
    decreases |ps|
  {
    if ps == [] {
    } else if st.currentRoom > magic {
      assert ps[..0] == [];
      assert Fold(edges, threshold, st, ps[..0]).currentRoom > magic;
    } else {
      var next := Step(edges, threshold, st, ps[0]);
      RunIsFoldUnlessAborted(edges, threshold, magic, next, ps[1..]);
      assert ps[..0] == [];
      forall k | 0 < k < |ps|
        ensures Fold(edges, threshold, st, ps[..k]) == Fold(edges, threshold, next, ps[1..][..k - 1])
      {
        assert ps[..k][1..] == ps[1..][..k - 1];
      }
      if OpensTooManyRooms(edges, threshold, magic, st, ps) {
        var k :| 0 <= k < |ps| && Fold(edges, threshold, st, ps[..k]).currentRoom > magic;
        assert 0 < k;
        assert Fold(edges, threshold, next, ps[1..][..k - 1]).currentRoom > magic;
      }
      if OpensTooManyRooms(edges, threshold, magic, next, ps[1..]) {
        var k :| 0 <= k < |ps| - 1 && Fold(edges, threshold, next, ps[1..][..k]).currentRoom > magic;
        assert Fold(edges, threshold, st, ps[..k + 1]).currentRoom > magic;
      }
    }
  }

  // ------------------------------------------------------------- the result

  /**
   * `solve` returns `({}, 0)` exactly when some iteration starts with
   * `current_room > magic`; otherwise it returns the final assignments, in
   * which only students appear and each holds a room id no greater than the
   * final room counter, and one more than the number of distinct room ids.
   */
  lemma SolutionCases(g: Graph, s: real, magic: nat)
    requires g.Valid() && magic >= 1
    ensures var (m, count) := Solution(g, s, magic);
      var last := Fold(g.edges, Threshold(s, magic), Initial(g.n), Order(g));
      && (count == 0 <==> OpensTooManyRooms(g.edges, Threshold(s, magic), magic, Initial(g.n), Order(g)))
      && (count == 0 ==> m == map[])
      && (count != 0 ==> m == last.assignments && count == |m.Values| + 1 && Inv(last, g.n))
  {
    var threshold, ps := Threshold(s, magic), Order(g);
    RunIsFoldUnlessAborted(g.edges, threshold, magic, Initial(g.n), ps);
    FoldPreservesInv(g.edges, threshold, Initial(g.n), ps, g.n);
  }

  /** With a non-negative budget, every iteration ends with `current_room_stress <= threshold`. */
  lemma SolutionStressBound(g: Graph, s: real, magic: nat, k: nat)
    requires g.Valid() && magic >= 1 && 0.0 <= s && k <= |Order(g)|
    ensures Fold(g.edges, Threshold(s, magic), Initial(g.n), Order(g)[..k]).currentRoomStress <= Threshold(s, magic)
  {
    FoldStressBound(g.edges, Threshold(s, magic), Initial(g.n), Order(g)[..k]);
  }

  /** Students seated in a prefix of the loop keep their rooms to the end. */
  lemma SolutionKeepsRooms(g: Graph, s: real, magic: nat, k: nat)
    requires g.Valid() && magic >= 1 && k <= |Order(g)|
    ensures var ps, threshold := Order(g), Threshold(s, magic);
      var early, last := Fold(g.edges, threshold, Initial(g.n), ps[..k]), Fold(g.edges, threshold, Initial(g.n), ps);
      && early.currentRoom <= last.currentRoom
      && forall x :: x in early.assignments ==> x in last.assignments && last.assignments[x] == early.assignments[x]
  {
    var ps, threshold := Order(g), Threshold(s, magic);
    FoldPreservesInv(g.edges, threshold, Initial(g.n), ps[..k], g.n);
    var early := Fold(g.edges, threshold, Initial(g.n), ps[..k]);
    FoldKeepsRooms(g.edges, threshold, early, ps[k..], g.n);
    FoldSplit(g.edges, threshold, Initial(g.n), ps, k);
  }

  /** Folding `ps` is folding its first `k` pairs and then the rest. */
  lemma {:induction false} FoldSplit(edges: seq<Edge>, threshold: real, st: State, ps: seq<RatioPair>, k: nat)
    requires Within(ps, |st.isAssigned|) && k <= |ps|
    ensures Fold(edges, threshold, st, ps) == Fold(edges, threshold, Fold(edges, threshold, st, ps[..k]), ps[k..])
    decreases k
  {
    if k > 0 {
      var next := Step(edges, threshold, st, ps[0]);
      assert ps[..k][1..] == ps[1..][..k - 1];
      assert ps[k..] == ps[1..][k - 1..];
      FoldSplit(edges, threshold, next, ps[1..], k - 1);
    } else {
      assert ps[..0] == [] && ps[0..] == ps;
    }
  }
}
