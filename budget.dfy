/**
 * The per-room budget: the stress summed over every pair of distinct
 * students seated in one room, read from the stress matrix, is at most the
 * threshold `s / magic`. The rooms `solve` fills respect it whenever no edge
 * has negative stress and the budget is non-negative: the inhabitants the
 * new-room branch keeps only add non-negative terms to the running total, so
 * `current_room_stress` never falls below the stress really in the room.
 */
module Budget {
  import opened Matrices
  import opened Ratios
  import opened Greedy

  /** No edge carries negative stress. */
  predicate NonNegativeStress(edges: seq<Edge>) {
    forall k :: 0 <= k < |edges| ==> edges[k].stress >= 0.0
  }

  /** The students that `assignments` seats in room `r`. */
  function Room(assignments: map<nat, nat>, r: nat): (members: set<nat>) {
    set x | x in assignments && assignments[x] == r
  }

  /** The stress between `x` and each member of `group` below `k`, in ascending order of the members. */
  function StressToGroup(edges: seq<Edge>, x: nat, group: set<nat>, k: nat): (r: real) {
    if k == 0 then 0.0
    else StressToGroup(edges, x, group, k - 1) + (if k - 1 in group then Entry(edges, Stress, x, k - 1) else 0.0)
  }

  /** The stress within the members of `group` below `k`: each pair of distinct members once. */
  function GroupStress(edges: seq<Edge>, group: set<nat>, k: nat): (r: real) {
    if k == 0 then 0.0
    else GroupStress(edges, group, k - 1) + (if k - 1 in group then StressToGroup(edges, k - 1, group, k - 1) else 0.0)
  }

  // ------------------------------------------------------- sums over groups

  /** With no negative edge stress, no cell of the stress matrix is negative. */
  lemma {:induction false} EntryNonNegative(edges: seq<Edge>, a: nat, b: nat)
    requires NonNegativeStress(edges)
    ensures Entry(edges, Stress, a, b) >= 0.0
  {
    if edges != [] {
      var prefix := edges[..|edges| - 1];
      assert forall k :: 0 <= k < |prefix| ==> prefix[k] == edges[k];
      EntryNonNegative(prefix, a, b);
    }
  }

  lemma {:induction false} StressToGroupNonNegative(edges: seq<Edge>, x: nat, group: set<nat>, k: nat)
    requires NonNegativeStress(edges)
    ensures StressToGroup(edges, x, group, k) >= 0.0
  {
    if k > 0 {
      StressToGroupNonNegative(edges, x, group, k - 1);
      EntryNonNegative(edges, x, k - 1);
    }
  }

  lemma {:induction false} StressToGroupEmpty(edges: seq<Edge>, x: nat, k: nat)
    ensures StressToGroup(edges, x, {}, k) == 0.0
  {
    if k > 0 {
      StressToGroupEmpty(edges, x, k - 1);
    }
  }

  /** A new member `z` adds its stress with `x`, when it lies below `k`. */
  lemma {:induction false} StressToGroupAdd(edges: seq<Edge>, x: nat, group: set<nat>, z: nat, k: nat)
    requires z !in group
    ensures StressToGroup(edges, x, group + {z}, k) ==
      StressToGroup(edges, x, group, k) + (if z < k then Entry(edges, Stress, x, z) else 0.0)
  {
    if k > 0 {
      StressToGroupAdd(edges, x, group, z, k - 1);
    }
  }

  lemma {:induction false} GroupStressEmpty(edges: seq<Edge>, k: nat)
    ensures GroupStress(edges, {}, k) == 0.0
  {
    if k > 0 {
      GroupStressEmpty(edges, k - 1);
    }
  }

  /** A new member `z` adds its stress with every old member, when it lies below `k`. */
  lemma {:induction false} GroupStressAdd(edges: seq<Edge>, group: set<nat>, z: nat, k: nat)
    requires z !in group
    ensures GroupStress(edges, group + {z}, k) ==
      GroupStress(edges, group, k) + (if z < k then StressToGroup(edges, z, group, k) else 0.0)
  {
    if k > 0 {
      var j := k - 1;
      GroupStressAdd(edges, group, z, j);
      StressToGroupAdd(edges, j, group, z, j);
      EntrySymmetric(edges, Stress, j, z);
    }
  }

  /** A student alone in a room has no stress with anybody. */
  lemma GroupStressSingleton(edges: seq<Edge>, x: nat, k: nat)
    ensures GroupStress(edges, {x}, k) == 0.0
  {
    GroupStressEmpty(edges, k);
    StressToGroupEmpty(edges, x, k);
    GroupStressAdd(edges, {}, x, k);
    assert {} + {x} == {x};
  }

  /**
   * With no negative stress, the running sum over a list of people that
   * includes every member of `group` is at least the stress between `x` and
   * `group`, however often the list repeats a person.
   */
  lemma {:induction false} GroupBelowList(edges: seq<Edge>, x: nat, group: set<nat>, people: seq<nat>, k: nat)
    requires NonNegativeStress(edges)
    requires forall y :: y in group ==> y in people
    ensures StressToGroup(edges, x, group, k) <= StressTo(edges, x, people)
    decreases |people|
  {
    if people == [] {
      assert group == {};
      StressToGroupEmpty(edges, x, k);
    } else {
      var w, rest := people[|people| - 1], people[..|people| - 1];
      assert people == rest + [w];
      var others := group - {w};
      GroupBelowList(edges, x, others, rest, k);
      EntryNonNegative(edges, x, w);
      if w in group {
        assert group == others + {w};
        StressToGroupAdd(edges, x, others, w, k);
      } else {
        assert group == others;
      }
    }
  }

  /**
   * Seating `u` and `v` with `group` adds at most their own stress and the
   * stress of each of them with the group.
   */
  lemma SeatPairStress(edges: seq<Edge>, group: set<nat>, u: nat, v: nat, n: nat)
    requires NonNegativeStress(edges) && u !in group && v !in group && u < n && v < n
    ensures GroupStress(edges, group + {u, v}, n) <=
      GroupStress(edges, group, n) + Entry(edges, Stress, u, v)
        + StressToGroup(edges, u, group, n) + StressToGroup(edges, v, group, n)
  {
    GroupStressAdd(edges, group, u, n);
    if u == v {
      assert group + {u, v} == group + {u};
      EntryNonNegative(edges, u, v);
      StressToGroupNonNegative(edges, v, group, n);
    } else {
      assert group + {u, v} == (group + {u}) + {v};
      GroupStressAdd(edges, group + {u}, v, n);
      StressToGroupAdd(edges, v, group, u, n);
      EntrySymmetric(edges, Stress, v, u);
    }
  }

  /** Seating two unassigned students `u` and `v` in rooms `a` and `b` adds them to those rooms only. */
  lemma RoomAfterSeating(m: map<nat, nat>, u: nat, v: nat, a: nat, b: nat, r: nat)
    requires u !in m && v !in m
    ensures Room(m[u := a][v := b], r) ==
      Room(m, r) + (if r == a && u != v then {u} else {}) + (if r == b then {v} else {})
  {
  }

  // ------------------------------------------------------- the loop invariant

  /**
   * What holds of the state before and after every iteration: every room
   * but the current one is within the threshold; the stress really in the
   * current room is at most `current_room_stress`, which is itself within the
   * threshold; and every member of the current room is an inhabitant.
   */
  ghost predicate WithinBudget(edges: seq<Edge>, threshold: real, st: State, n: nat) {
    && (forall r: nat :: r != st.currentRoom ==> GroupStress(edges, Room(st.assignments, r), n) <= threshold)
    && GroupStress(edges, Room(st.assignments, st.currentRoom), n) <= st.currentRoomStress <= threshold
    && (forall x :: x in Room(st.assignments, st.currentRoom) ==> x in st.inhabitants)
  }

  lemma InitialWithinBudget(edges: seq<Edge>, threshold: real, n: nat)
    requires 0.0 <= threshold
    ensures WithinBudget(edges, threshold, Initial(n), n)
  {
    forall r: nat ensures Room(Initial(n).assignments, r) == {} {
    }
    GroupStressEmpty(edges, n);
  }

  /** The pair joins the current room, which stays open (below) or is closed (at the threshold). */
  lemma SeatedWithinBudget(edges: seq<Edge>, threshold: real, st: State, p: RatioPair, n: nat)
    requires NonNegativeStress(edges) && 0.0 <= threshold
    requires Inv(st, n) && WithinBudget(edges, threshold, st, n) && p.u < n && p.v < n
    requires Classify(edges, threshold, st, p) in {Below, AtThreshold}
    ensures WithinBudget(edges, threshold, Step(edges, threshold, st, p), n)
  {
    var u: nat, v: nat, room: nat, m: map<nat, nat> := p.u, p.v, st.currentRoom, st.assignments;
    var next := Step(edges, threshold, st, p);
    var members := Room(m, room);
    assert u !in m && v !in m;
    assert next.assignments == m[u := room][v := room];
    forall r: nat ensures Room(next.assignments, r) == if r == room then members + {u, v} else Room(m, r) {
      RoomAfterSeating(m, u, v, room, room, r);
    }
    SeatPairStress(edges, members, u, v, n);
    GroupBelowList(edges, u, members, st.inhabitants, n);
    GroupBelowList(edges, v, members, st.inhabitants, n);
    assert GroupStress(edges, members + {u, v}, n) <= PotentialStress(edges, st, u, v);
    if Classify(edges, threshold, st, p) == AtThreshold {
      assert Room(m, room + 1) == {};
      GroupStressEmpty(edges, n);
    } else {
      assert next.inhabitants == st.inhabitants + [u, v];
    }
  }

  /**
   * A split seats `v` alone in room `current_room + 2`, and `u` alone in room
   * `current_room + 1` (which stays empty when `u` is `v`); no other room
   * changes, and neither of the two has any internal stress.
   */
  lemma SplitRooms(edges: seq<Edge>, threshold: real, st: State, p: RatioPair, n: nat)
    requires Inv(st, n) && p.u < n && p.v < n
    requires Classify(edges, threshold, st, p) == Split
    ensures var next, room := Step(edges, threshold, st, p), st.currentRoom;
      && Room(next.assignments, room + 1) == (if p.u != p.v then {p.u} else {})
      && Room(next.assignments, room + 2) == {p.v}
      && (forall r: nat :: r != room + 1 && r != room + 2 ==> Room(next.assignments, r) == Room(st.assignments, r))
      && GroupStress(edges, Room(next.assignments, room + 1), n) == 0.0
      && GroupStress(edges, Room(next.assignments, room + 2), n) == 0.0
  {
    var u: nat, v: nat, room: nat, m: map<nat, nat> := p.u, p.v, st.currentRoom, st.assignments;
    var next := Step(edges, threshold, st, p);
    assert u !in m && v !in m;
    assert next.assignments == m[u := room + 1][v := room + 2];
    assert Room(m, room + 1) == {} && Room(m, room + 2) == {};
    forall r: nat ensures Room(next.assignments, r) ==
      Room(m, r) + (if r == room + 1 && u != v then {u} else {}) + (if r == room + 2 then {v} else {}) {
      RoomAfterSeating(m, u, v, room + 1, room + 2, r);
    }
    GroupStressEmpty(edges, n);
    GroupStressSingleton(edges, u, n);
    GroupStressSingleton(edges, v, n);
  }

  /** The pair is split into two fresh rooms, and the current room is closed. */
  lemma SplitWithinBudget(edges: seq<Edge>, threshold: real, st: State, p: RatioPair, n: nat)
    requires 0.0 <= threshold
    requires Inv(st, n) && WithinBudget(edges, threshold, st, n) && p.u < n && p.v < n
    requires Classify(edges, threshold, st, p) == Split
    ensures WithinBudget(edges, threshold, Step(edges, threshold, st, p), n)
  {
    var room := st.currentRoom;
    var next := Step(edges, threshold, st, p);
    SplitRooms(edges, threshold, st, p, n);
    assert next.currentRoom == room + 3;
    assert Room(st.assignments, room + 3) == {};
    GroupStressEmpty(edges, n);
  }

  /** The pair opens a new room, and the current room is abandoned. */
  lemma NewRoomWithinBudget(edges: seq<Edge>, threshold: real, st: State, p: RatioPair, n: nat)
    requires NonNegativeStress(edges) && 0.0 <= threshold
    requires Inv(st, n) && WithinBudget(edges, threshold, st, n) && p.u < n && p.v < n
    requires Classify(edges, threshold, st, p) == NewRoom
    ensures WithinBudget(edges, threshold, Step(edges, threshold, st, p), n)
    ensures var next := Step(edges, threshold, st, p);
      && Room(next.assignments, next.currentRoom) == {p.u, p.v}
      && GroupStress(edges, {p.u, p.v}, n) <= Entry(edges, Stress, p.u, p.v) == next.currentRoomStress
  {
    var u: nat, v: nat, room: nat, m: map<nat, nat> := p.u, p.v, st.currentRoom, st.assignments;
    var next := Step(edges, threshold, st, p);
    assert u !in m && v !in m;
    assert next.assignments == m[u := room + 1][v := room + 1];
    assert Room(m, room + 1) == {};
    forall r: nat ensures Room(next.assignments, r) == if r == room + 1 then {u, v} else Room(m, r) {
      RoomAfterSeating(m, u, v, room + 1, room + 1, r);
    }
    GroupStressEmpty(edges, n);
    StressToGroupEmpty(edges, u, n);
    StressToGroupEmpty(edges, v, n);
    SeatPairStress(edges, {}, u, v, n);
    assert {} + {u, v} == {u, v};
    assert next.inhabitants == st.inhabitants + [u, v];
  }

  /** One iteration keeps every room within the budget. */
  lemma StepWithinBudget(edges: seq<Edge>, threshold: real, st: State, p: RatioPair, n: nat)
    requires NonNegativeStress(edges) && 0.0 <= threshold
    requires Inv(st, n) && WithinBudget(edges, threshold, st, n) && p.u < n && p.v < n
    ensures WithinBudget(edges, threshold, Step(edges, threshold, st, p), n)
  {
    match Classify(edges, threshold, st, p)
    case Skip =>
    case Defer =>
    case Below => SeatedWithinBudget(edges, threshold, st, p, n);
    case AtThreshold => SeatedWithinBudget(edges, threshold, st, p, n);
    case Split => SplitWithinBudget(edges, threshold, st, p, n);
    case NewRoom => NewRoomWithinBudget(edges, threshold, st, p, n);
  }

  /** Any number of iterations keeps every room within the budget. */
  lemma {:induction false} FoldWithinBudget(edges: seq<Edge>, threshold: real, st: State, ps: seq<RatioPair>, n: nat)
    requires NonNegativeStress(edges) && 0.0 <= threshold
    requires Inv(st, n) && WithinBudget(edges, threshold, st, n) && Within(ps, n)
    ensures WithinBudget(edges, threshold, Fold(edges, threshold, st, ps), n)
    decreases |ps|
  {
    if ps != [] {
      StepPreservesInv(edges, threshold, st, ps[0], n);
      StepWithinBudget(edges, threshold, st, ps[0], n);
      FoldWithinBudget(edges, threshold, Step(edges, threshold, st, ps[0]), ps[1..], n);
    }
  }

  /**
   * Budget respect: when no edge has negative stress and the budget `s` is
   * non-negative, every room of the mapping `solve` returns holds at most
   * `s / magic` of stress between its students.
   */
  lemma SolutionWithinBudget(g: Graph, s: real, magic: nat, r: nat)
    requires g.Valid() && magic >= 1 && 0.0 <= s && NonNegativeStress(g.edges)
    ensures GroupStress(g.edges, Room(Solution(g, s, magic).0, r), g.n) <= Threshold(s, magic)
  {
    var threshold, ps := Threshold(s, magic), Order(g);
    assert 0.0 <= threshold;
    InitialWithinBudget(g.edges, threshold, g.n);
    FoldWithinBudget(g.edges, threshold, Initial(g.n), ps, g.n);
    var last := Fold(g.edges, threshold, Initial(g.n), ps);
    assert GroupStress(g.edges, Room(last.assignments, r), g.n) <= threshold;
    SolutionCases(g, s, magic);
    if Solution(g, s, magic).1 == 0 {
      assert Room(map[], r) == {};
      GroupStressEmpty(g.edges, g.n);
    }
  }
}
