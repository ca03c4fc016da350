/** `bfsSolve` (lew.cpp:283-309): the queue loop, with the invariant that
    makes its answer sound, complete and shortest. */
module Bfs {
  import opened Arith
  import opened Jugs
  import opened Search

  /** The states that respect the capacities: a finite set, so the search
      ends. */
  ghost function AllStates(cap: seq<int>): set<State>
    decreases |cap|
  {
    if |cap| == 0 then {[]}
    else set s, v | s in AllStates(cap[..|cap| - 1]) && 0 <= v <= cap[|cap| - 1] :: s + [v]
  }

  lemma {:induction false} AllStatesHas(cap: seq<int>, s: State)
    requires InBounds(cap, s)
    ensures s in AllStates(cap)
    decreases |cap|
  {
    var n := |cap|;
    if n == 0 {
      assert s == [];
    } else {
      AllStatesHas(cap[..n - 1], s[..n - 1]);
      assert s == s[..n - 1] + [s[n - 1]];
    }
  }


  /** Expanding `p` has recorded all its successors, one operation further. */
  ghost predicate Expanded(cap: seq<int>, D: map<State, nat>, p: State) {
    p in D && InBounds(cap, p) && forall t :: t in Moves(cap, p) ==> t in D && D[t] <= D[p] + 1
  }

  /** The visited states and their recorded distances: all-empty at 0,
      every recorded distance achieved by some sequence of operations, and
      the goal never recorded (it is compared before the visited set is consulted). */
  ghost predicate RecordInvariant(cap: seq<int>, goal: State, visited: set<State>, D: map<State, nat>) {
    && ValidCapacities(cap)
    && visited == D.Keys
    && (forall v :: v in visited ==> InBounds(cap, v))
    && Zeros(|cap|) in visited && D[Zeros(|cap|)] == 0
    && (forall v :: v in D ==> v in Layer(cap, D[v]))
    && (goal in visited ==> goal == Zeros(|cap|))
  }

  /** The queue holds recorded states at their recorded distances, sorted,
      between `level` and `level + 1`. */
  ghost predicate QueueInvariant(D: map<State, nat>, queue: seq<Entry>, level: nat) {
    && (forall i :: 0 <= i < |queue| ==> queue[i].state in D && queue[i].dist == D[queue[i].state])
    && (forall i, j :: 0 <= i <= j < |queue| ==> queue[i].dist <= queue[j].dist)
    && (forall i :: 0 <= i < |queue| ==> level <= queue[i].dist <= level + 1)
  }

  /** The expanded states lie at most `level` away, all their successors are
      recorded, and every visited state is expanded or waiting in the queue. */
  ghost predicate ExpansionInvariant(cap: seq<int>, visited: set<State>, D: map<State, nat>,
                                     queue: seq<Entry>, done: set<State>, level: nat) {
    && (forall p :: p in done ==> p in D && D[p] <= level)
    && visited <= done + QueueStates(queue)
    && (forall p {:trigger Expanded(cap, D, p)} :: p in done ==> Expanded(cap, D, p))
  }

  /** What holds each time `bfsSolve`'s loop tests its condition. `D` maps
      every visited state to the distance it was queued at, `done` holds the
      states already taken off the queue and expanded, and `level` is the
      distance of the last state taken off. */
  ghost predicate SearchInvariant(cap: seq<int>, goal: State, visited: set<State>, D: map<State, nat>,
                                  queue: seq<Entry>, done: set<State>, level: nat)
  {
    && RecordInvariant(cap, goal, visited, D)
    && QueueInvariant(D, queue, level)
    && ExpansionInvariant(cap, visited, D, queue, done, level)
  }

  lemma InitInvariant(cap: seq<int>, goal: State)
    requires ValidCapacities(cap)
    ensures var z := Zeros(|cap|);
      SearchInvariant(cap, goal, {z}, map[z := 0], [Entry(z, 0)], {}, 0)
  {
    var z := Zeros(|cap|);
    assert z in Layer(cap, 0);
    assert QueueStates([Entry(z, 0)]) == {z} by {
      assert Entry(z, 0) in [Entry(z, 0)];
    }
  }

  lemma QueueStatesPop(q: seq<Entry>)
    requires |q| > 0
    ensures QueueStates(q) == {q[0].state} + QueueStates(q[1..])
  {
    assert q == [q[0]] + q[1..];
    assert forall e :: e in q <==> e == q[0] || e in q[1..];
  }

  /** A queued state's recorded distance is that of its queue entry. */
  lemma QueuedDist(queue: seq<Entry>, D: map<State, nat>, t: State) returns (i: nat)
    requires forall i :: 0 <= i < |queue| ==> queue[i].state in D && queue[i].dist == D[queue[i].state]
    requires t in QueueStates(queue)
    ensures i < |queue| && queue[i].state == t && t in D && D[t] == queue[i].dist
  {
    var e :| e in queue && e.state == t;
    var k :| 0 <= k < |queue| && queue[k] == e;
    i := k;
  }

  /** All-empty is recorded at distance 0 and every state recorded below
      distance `L` has been expanded. */
  ghost predicate ExpandedBelow(cap: seq<int>, D: map<State, nat>, done: set<State>, L: nat) {
    && Zeros(|cap|) in D && D[Zeros(|cap|)] == 0
    && (forall p {:trigger Expanded(cap, D, p)} :: p in done ==> Expanded(cap, D, p))
    && (forall v :: v in D && D[v] < L ==> v in done)
  }

  /** A successor of a state recorded below `L` is recorded, at most one
      further. */
  lemma ExpandedStep(cap: seq<int>, D: map<State, nat>, done: set<State>, L: nat, p: State, s: State)
    requires ExpandedBelow(cap, D, done, L)
    requires p in D && D[p] < L && InBounds(cap, p) && s in Moves(cap, p)
    ensures s in D && D[s] <= D[p] + 1
  {
    assert Expanded(cap, D, p);
  }

  /** Every state reachable in at most `L` operations has been recorded,
      at a distance no larger than the number of operations, once all states
      recorded below `L` are expanded. */
  lemma {:induction false} ShallowStatesVisited(cap: seq<int>, D: map<State, nat>, done: set<State>, L: nat, k: nat, s: State)
    requires ExpandedBelow(cap, D, done, L)
    requires k <= L && s in Layer(cap, k)
    ensures s in D && D[s] <= k
    decreases k
  {
    if k > 0 {
      var p := LayerPrev(cap, k, s);
      ShallowStatesVisited(cap, D, done, L, k - 1, p);
      ExpandedStep(cap, D, done, L, p, s);
    } else {
      assert s == Zeros(|cap|);
    }
  }

  /** When a state is taken off the queue at distance `L`, it respects the
      capacities, it is reachable in `L` operations, and the goal (unless it
      is all-empty) is not reachable in `L` operations or fewer. */
  lemma PopFacts(cap: seq<int>, goal: State, visited: set<State>, D: map<State, nat>,
                 queue: seq<Entry>, done: set<State>, level: nat)
    requires SearchInvariant(cap, goal, visited, D, queue, done, level) && |queue| > 0
    ensures InBounds(cap, queue[0].state) && queue[0].state in Layer(cap, queue[0].dist)
    ensures forall k: nat :: k <= queue[0].dist && goal in Layer(cap, k) ==> goal == Zeros(|cap|)
  {
    var L := queue[0].dist;
    forall v | v in D && D[v] < L
      ensures v in done
    {
      if v in QueueStates(queue) {
        var i := QueuedDist(queue, D, v);
      }
    }
    forall k: nat | k <= L && goal in Layer(cap, k)
      ensures goal == Zeros(|cap|)
    {
      ShallowStatesVisited(cap, D, done, L, k, goal);
    }
  }

  /** With the queue exhausted, no sequence of operations reaches the goal
      (unless it is all-empty). */
  lemma ExhaustedUnreachable(cap: seq<int>, goal: State, visited: set<State>, D: map<State, nat>,
                             done: set<State>, level: nat)
    requires SearchInvariant(cap, goal, visited, D, [], done, level)
    ensures forall k: nat :: goal in Layer(cap, k) ==> goal == Zeros(|cap|)
  {
    assert QueueStates([]) == {};
    forall k: nat | goal in Layer(cap, k)
      ensures goal == Zeros(|cap|)
    {
      ShallowStatesVisited(cap, D, done, k, k, goal);
    }
  }

  /** Recording the successors of `s` (taken off at distance `L`) at
      distance `L + 1`, keeping earlier distances, keeps the record
      invariant. */
  lemma RecordStep(cap: seq<int>, goal: State, visited: set<State>, D: map<State, nat>,
                   s: State, L: nat, v2: set<State>, D2: map<State, nat>)
    requires RecordInvariant(cap, goal, visited, D)
    requires InBounds(cap, s) && s in Layer(cap, L)
    requires forall t :: t in v2 <==> t in visited || t in Moves(cap, s)
    requires goal !in Moves(cap, s)
    requires D2.Keys == v2
    requires forall v :: v in visited ==> D2[v] == D[v]
    requires forall v :: v in v2 && v !in visited ==> D2[v] == L + 1
    ensures RecordInvariant(cap, goal, v2, D2)
  {
    forall v | v in v2
      ensures InBounds(cap, v) && v in Layer(cap, D2[v])
    {
      if v !in visited {
        LayerNext(cap, L, s, v);
      }
    }
  }

  /** The distances recorded for the states of `v2`: kept for those already
      visited, `dist` for the others. */
  lemma ExtendDistances(D: map<State, nat>, visited: set<State>, v2: set<State>, dist: nat)
    returns (D2: map<State, nat>)
    requires visited == D.Keys && visited <= v2
    ensures D2.Keys == v2
    ensures forall v :: v in visited ==> D2[v] == D[v]
    ensures forall v :: v in v2 && v !in visited ==> D2[v] == dist
  {
    D2 := map t | t in v2 :: if t in D then D[t] else dist;
  }

  /** Dropping the head `(s, L)` and appending states at `L + 1` keeps the
      queue invariant at level `L`. */
  lemma QueueStep(D: map<State, nat>, queue: seq<Entry>, level: nat, D2: map<State, nat>,
                  visited: set<State>, q2: seq<Entry>)
    requires QueueInvariant(D, queue, level) && |queue| > 0 && D.Keys == visited
    requires forall v :: v in visited ==> v in D2 && D2[v] == D[v]
    requires |q2| >= |queue| - 1 && q2[..|queue| - 1] == queue[1..]
    requires forall i :: |queue| - 1 <= i < |q2| ==>
               q2[i].dist == queue[0].dist + 1 && q2[i].state in D2 && D2[q2[i].state] == queue[0].dist + 1
    ensures QueueInvariant(D2, q2, queue[0].dist)
  {
    var L := queue[0].dist;
    var m := |queue| - 1;
    forall i | 0 <= i < m
      ensures q2[i] == queue[i + 1]
    {
      assert q2[i] == q2[..m][i];
    }
  }

  /** Counting the head `s` as expanded, once all its successors are
      recorded, keeps the expansion invariant at level `L`. */
  lemma ExpansionStep(cap: seq<int>, visited: set<State>, D: map<State, nat>, queue: seq<Entry>,
                      done: set<State>, level: nat, v2: set<State>, D2: map<State, nat>, q2: seq<Entry>)
    requires QueueInvariant(D, queue, level) && ExpansionInvariant(cap, visited, D, queue, done, level)
    requires |queue| > 0 && InBounds(cap, queue[0].state) && visited == D.Keys
    requires forall v :: v in visited ==> v in v2 && v in D2 && D2[v] == D[v]
    requires forall v :: v in v2 && v !in visited ==> v in D2 && D2[v] == queue[0].dist + 1
    requires forall t :: t in Moves(cap, queue[0].state) ==> t in v2
    requires QueueStates(q2) == QueueStates(queue[1..]) + (v2 - visited)
    ensures ExpansionInvariant(cap, v2, D2, q2, done + {queue[0].state}, queue[0].dist)
  {
    var s, L := queue[0].state, queue[0].dist;
    QueueStatesPop(queue);
    assert level <= L;
    forall v {:trigger Expanded(cap, D2, v)} | v in done + {s}
      ensures Expanded(cap, D2, v)
    {
      if v == s {
        forall t | t in Moves(cap, s)
          ensures t in D2 && D2[t] <= D2[s] + 1
        {
          if t in visited && t !in done {
            var i := QueuedDist(queue, D, t);
          }
        }
      } else {
        assert Expanded(cap, D, v);
      }
    }
  }

  /** What trying the candidates `cands` without meeting the goal leaves
      behind, starting from `visited` and `queue`: every candidate is now
      visited and nothing else was added, and the states added are exactly
      those appended to the queue, each at distance `steps`. */
  ghost predicate Recorded(steps: nat, visited: set<State>, queue: seq<Entry>, cands: seq<State>,
                           v2: set<State>, q2: seq<Entry>) {
    && (forall t :: t in v2 <==> t in visited || t in cands)
    && QueueStates(q2) == QueueStates(queue) + (v2 - visited)
    && |q2| >= |queue| && q2[..|queue|] == queue
    && (forall i :: |queue| <= i < |q2| ==> q2[i].dist == steps && q2[i].state in v2 && q2[i].state !in visited)
    && |v2| - |visited| == |q2| - |queue|
  }

  lemma ExploreOutcome(goal: State, steps: nat, visited: set<State>, queue: seq<Entry>, cands: seq<State>,
                       found: bool, v2: set<State>, q2: seq<Entry>)
    requires Probe(found, v2, q2) == Explore(goal, steps, visited, queue, cands)
    ensures found <==> goal in cands
    ensures !found ==> Recorded(steps, visited, queue, cands, v2, q2)
  {
    ExploreFound(goal, steps, visited, queue, cands);
    ExploreExtends(goal, steps, visited, queue, cands);
    ExploreVisits(goal, steps, visited, queue, cands);
    ExploreQueues(goal, steps, visited, queue, cands);
  }

  /** One pass of the loop keeps the invariant: take the head `(s, L)` off
      the queue and try every successor of `s` at distance `L + 1` without
      meeting the goal, leaving the visited set `v2` and the queue `q2`; then
      count `s` as expanded, with the new states recorded at `L + 1` in the
      returned distance map. The visited set only grows, and when it does
      not, the queue shrinks. */
  lemma ExpandPreserves(cap: seq<int>, goal: State, visited: set<State>, D: map<State, nat>,
                        queue: seq<Entry>, done: set<State>, level: nat, v2: set<State>, q2: seq<Entry>)
    returns (D2: map<State, nat>)
    requires SearchInvariant(cap, goal, visited, D, queue, done, level) && |queue| > 0
    requires InBounds(cap, queue[0].state) && queue[0].state in Layer(cap, queue[0].dist)
    requires goal !in Moves(cap, queue[0].state)
    requires Recorded(queue[0].dist + 1, visited, queue[1..], Moves(cap, queue[0].state), v2, q2)
    ensures SearchInvariant(cap, goal, v2, D2, q2, done + {queue[0].state}, queue[0].dist)
    ensures visited <= v2
    ensures v2 == visited ==> |q2| < |queue|
  {
    D2 := ExtendDistances(D, visited, v2, queue[0].dist + 1);
    StepPreserves(cap, goal, visited, D, queue, done, level, v2, q2, D2);
  }

  /** `ExpandPreserves` for a given distance map `D2` extending `D`. */
  lemma StepPreserves(cap: seq<int>, goal: State, visited: set<State>, D: map<State, nat>,
                      queue: seq<Entry>, done: set<State>, level: nat,
                      v2: set<State>, q2: seq<Entry>, D2: map<State, nat>)
    requires SearchInvariant(cap, goal, visited, D, queue, done, level) && |queue| > 0
    requires InBounds(cap, queue[0].state) && queue[0].state in Layer(cap, queue[0].dist)
    requires goal !in Moves(cap, queue[0].state)
    requires Recorded(queue[0].dist + 1, visited, queue[1..], Moves(cap, queue[0].state), v2, q2)
    requires D2.Keys == v2
    requires forall v :: v in visited ==> D2[v] == D[v]
    requires forall v :: v in v2 && v !in visited ==> D2[v] == queue[0].dist + 1
    ensures SearchInvariant(cap, goal, v2, D2, q2, done + {queue[0].state}, queue[0].dist)
  {
    var s, L := queue[0].state, queue[0].dist;
    RecordStep(cap, goal, visited, D, s, L, v2, D2);
    QueueStep(D, queue, level, D2, visited, q2);
    ExpansionStep(cap, visited, D, queue, done, level, v2, D2, q2);
  }

  /** Growing the visited set shrinks the set of states not yet visited. */
  lemma VisitedGrows(cap: seq<int>, visited: set<State>, v2: set<State>)
    requires forall v :: v in v2 ==> InBounds(cap, v)
    requires visited < v2
    ensures |AllStates(cap) - v2| < |AllStates(cap) - visited|
  {
    var x :| x in v2 && x !in visited;
    AllStatesHas(cap, x);
    var A, B := AllStates(cap) - v2, AllStates(cap) - visited;
    assert x in B && x !in A;
    assert A + (B - A) == B;
    assert x in B - A;
  }

  // ---------------------------------------------------------------------------
  // The search
  // ---------------------------------------------------------------------------

  /** One pass of the `for` loop of `bfsSolve` (lew.cpp:300-305): try
      emptying and filling glass `i`, then pouring it into every other glass,
      with `cur` changed in place and restored unless the goal was met. */
  method ExpandGlass(i: nat, cur: array<int>, cap: seq<int>, steps: nat, goal: State,
                     visited: set<State>, queue: seq<Entry>)
    returns (found: bool, visited': set<State>, queue': seq<Entry>)
    requires InBounds(cap, cur[..]) && i < cur.Length
    modifies cur
    ensures Probe(found, visited', queue') == Explore(goal, steps, visited, queue, GlassMoves(cap, old(cur[..]), i))
    ensures !found ==> cur[..] == old(cur[..])
  {
    ghost var s := cur[..];
    found, visited', queue' := TryFillEmpty(i, cur, cap, steps, goal, visited, queue);
    ExploreAppend(goal, steps, visited, queue, EmptyFillMoves(cap, s, i), PourMoves(cap, s, i));
    if found {
      return;
    }
    found, visited', queue' := TryPourFrom(i, cur, cap, steps, goal, visited', queue');
  }

  /** The working vector `cur` taken over from the head of the queue
      (lew.cpp:294), which the loop changes in place. */
  method CopyState(s: State) returns (cur: array<int>)
    ensures fresh(cur) && cur[..] == s
  {
    cur := new int[|s|](k requires 0 <= k < |s| => s[k]);
    assert cur[..] == s;
  }

  /** The whole `for` loop of `bfsSolve` (lew.cpp:298-306), on a copy `cur`
      of the state `s` taken off the queue: it tries the successors of `s`
      in order and stops at the goal. */
  method ExpandState(s: State, cap: seq<int>, steps: nat, goal: State,
                     visited: set<State>, queue: seq<Entry>)
    returns (found: bool, visited': set<State>, queue': seq<Entry>)
    requires InBounds(cap, s)
    ensures Probe(found, visited', queue') == Explore(goal, steps, visited, queue, Moves(cap, s))
  {
    var n := |s|;
    var cur := CopyState(s);
    visited', queue' := visited, queue;
    for i := 0 to n
      invariant cur[..] == s
      invariant Probe(false, visited', queue') == Explore(goal, steps, visited, queue, MovesUpTo(cap, s, i))
    {
      ExploreAppend(goal, steps, visited, queue, MovesUpTo(cap, s, i), GlassMoves(cap, s, i));
      found, visited', queue' := ExpandGlass(i, cur, cap, steps, goal, visited', queue');
      if found {
        FoundEarly(cap, s, i + 1, goal, steps, visited, queue);
        return;
      }
    }
    found := false;
  }

  /** Meeting the goal among the successors for the first `m` glasses ends
      the `for` loop. */
  lemma FoundEarly(cap: seq<int>, s: State, m: nat, goal: State, steps: nat,
                   visited: set<State>, queue: seq<Entry>)
    requires InBounds(cap, s) && m <= |s|
    requires Explore(goal, steps, visited, queue, MovesUpTo(cap, s, m)).found
    ensures Explore(goal, steps, visited, queue, Moves(cap, s)) == Explore(goal, steps, visited, queue, MovesUpTo(cap, s, m))
  {
    MovesUpToPrefix(cap, s, m, |s|);
    ExploreFoundPrefix(goal, steps, visited, queue, MovesUpTo(cap, s, m), Moves(cap, s));
  }

  /** What one pass of `bfsSolve`'s `while` loop establishes, once the
      successors of the head `(s, L)` have been tried at distance `L + 1`:
      meeting the goal means it is reachable in `L + 1` operations and (unless
      it is all-empty) in no fewer; otherwise the invariant holds again, at
      level `L`, and either the visited set or the queue has moved on. */
  lemma HeadOutcome(cap: seq<int>, goal: State, visited: set<State>, D: map<State, nat>,
                    queue: seq<Entry>, done: set<State>, level: nat,
                    found: bool, v2: set<State>, q2: seq<Entry>)
    returns (D2: map<State, nat>)
    requires SearchInvariant(cap, goal, visited, D, queue, done, level) && |queue| > 0
    requires InBounds(cap, queue[0].state)
    requires found <==> goal in Moves(cap, queue[0].state)
    requires !found ==> Recorded(queue[0].dist + 1, visited, queue[1..], Moves(cap, queue[0].state), v2, q2)
    ensures found ==> goal in Layer(cap, queue[0].dist + 1)
    ensures found && goal != Zeros(|cap|) ==> forall d: nat :: d <= queue[0].dist ==> goal !in Layer(cap, d)
    ensures !found ==> SearchInvariant(cap, goal, v2, D2, q2, done + {queue[0].state}, queue[0].dist)
    ensures !found ==> |AllStates(cap) - v2| < |AllStates(cap) - visited|
                       || (v2 == visited && |q2| < |queue|)
  {
    var s := queue[0].state;
    PopFacts(cap, goal, visited, D, queue, done, level);
    if found {
      LayerNext(cap, queue[0].dist, s, goal);
      D2 := D;
    } else {
      D2 := ExpandPreserves(cap, goal, visited, D, queue, done, level, v2, q2);
      if v2 != visited {
        VisitedGrows(cap, visited, v2);
      }
    }
  }

  /** One pass of `bfsSolve`'s `while` loop (lew.cpp:292-306): take the
      head `(s, L)` off the queue and try the successors of `s` at distance
      `L + 1`. Meeting the goal answers `L + 1`, the shortest number of
      operations that reaches it; otherwise the invariant holds again, at
      level `L`, and either the visited set or the queue has moved on. */
  method ExpandHead(cap: seq<int>, goal: State, visited: set<State>, queue: seq<Entry>,
                    ghost D: map<State, nat>, ghost done: set<State>, ghost level: nat)
    returns (found: bool, steps: nat, visited': set<State>, queue': seq<Entry>,
             ghost D': map<State, nat>, ghost done': set<State>, ghost level': nat)
    requires SearchInvariant(cap, goal, visited, D, queue, done, level) && |queue| > 0
    ensures found ==> steps >= 1 && goal in Layer(cap, steps)
    ensures found && goal != Zeros(|cap|) ==> forall d: nat :: d < steps ==> goal !in Layer(cap, d)
    ensures !found ==> SearchInvariant(cap, goal, visited', D', queue', done', level')
    ensures !found ==> |AllStates(cap) - visited'| < |AllStates(cap) - visited|
                       || (visited' == visited && |queue'| < |queue|)
  {
    var s := queue[0].state;
    steps := queue[0].dist + 1;
    assert InBounds(cap, s);
    found, visited', queue' := ExpandState(s, cap, steps, goal, visited, queue[1..]);
    ExploreOutcome(goal, steps, visited, queue[1..], Moves(cap, s), found, visited', queue');
    D' := HeadOutcome(cap, goal, visited, D, queue, done, level, found, visited', queue');
    done', level' := done + {s}, queue[0].dist;
  }

  /** `bfsSolve` (lew.cpp:283-309): breadth-first search from all-empty. It
      answers `r >= 1` only when the goal is reachable in exactly `r`
      operations, and then (unless the goal is all-empty) in no fewer; it
      answers -1 only when the goal is unreachable, or is the all-empty
      state itself, which the search never tests. */
  method BfsSolve(cap: seq<int>, goal: State) returns (r: int)
    requires ValidCapacities(cap)
    ensures r == -1 || (r >= 1 && goal in Layer(cap, r))
    ensures r >= 1 && goal != Zeros(|cap|) ==> forall d: nat :: d < r ==> goal !in Layer(cap, d)
    ensures r == -1 && goal != Zeros(|cap|) ==> forall d: nat :: goal !in Layer(cap, d)
  {
    var initial := Zeros(|cap|);
    var visited := {initial};
    var queue := [Entry(initial, 0)];
    ghost var D := map[initial := 0];
    ghost var done: set<State> := {};
    ghost var level: nat := 0;
    InitInvariant(cap, goal);
    while |queue| > 0
      invariant SearchInvariant(cap, goal, visited, D, queue, done, level)
      decreases |AllStates(cap) - visited|, |queue|
    {
      var found, steps;
      found, steps, visited, queue, D, done, level := ExpandHead(cap, goal, visited, queue, D, done, level);
      if found {
        return steps;
      }
    }
    ExhaustedUnreachable(cap, goal, visited, D, done, level);
    return -1;
  }
}
