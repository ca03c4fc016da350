/** The breadth-first search used for three or more glasses (lew.cpp:213-309).
    States are compared exactly where the source compares 64-bit hashes;
    `visited` is a set of states and the queue a sequence of (state,
    distance) entries, both threaded through the helpers as the source
    threads them by reference. The state being expanded is an array that
    the helpers change in place and restore, as the source does with its
    `vector<int>`. */
module Search {
  import opened Arith
  import opened Jugs

  /** A queue element: a state and the number of operations that led to it. */
  datatype Entry = Entry(state: State, dist: nat)

  /** What trying a list of candidate states produces: whether the goal was
      among them, and the visited set and queue afterwards. */
  datatype Probe = Probe(found: bool, visited: set<State>, queue: seq<Entry>)

  /** The states held in a queue. */
  ghost function QueueStates(q: seq<Entry>): set<State> {
    set e | e in q :: e.state
  }

  /** Trying `cands` in order, as repeated calls of `tryState` do: stop at
      the first candidate equal to the goal; otherwise record every
      candidate not yet visited and queue it at distance `steps`. */
  function Explore(goal: State, steps: nat, visited: set<State>, queue: seq<Entry>, cands: seq<State>): Probe
    decreases |cands|
  {
    if cands == [] then Probe(false, visited, queue)
    else if cands[0] == goal then Probe(true, visited, queue)
    else if cands[0] in visited then Explore(goal, steps, visited, queue, cands[1..])
    else Explore(goal, steps, visited + {cands[0]}, queue + [Entry(cands[0], steps)], cands[1..])
  }

  /** Trying `xs + ys` is trying `xs`, then, unless the goal turned up,
      trying `ys` from where `xs` left off. */
  lemma {:induction false} ExploreAppend(goal: State, steps: nat, visited: set<State>, queue: seq<Entry>, xs: seq<State>, ys: seq<State>)
    ensures Explore(goal, steps, visited, queue, xs + ys)
         == (var p := Explore(goal, steps, visited, queue, xs);
             if p.found then p else Explore(goal, steps, p.visited, p.queue, ys))
    decreases |xs|
  {
    if xs != [] {
      assert (xs + ys)[0] == xs[0] && (xs + ys)[1..] == xs[1..] + ys;
      if xs[0] != goal {
        if xs[0] in visited {
          ExploreAppend(goal, steps, visited, queue, xs[1..], ys);
        } else {
          ExploreAppend(goal, steps, visited + {xs[0]}, queue + [Entry(xs[0], steps)], xs[1..], ys);
        }
      }
    } else {
      assert xs + ys == ys;
    }
  }

  /** Once the goal turns up among `xs`, what follows `xs` is not tried. */
  lemma ExploreFoundPrefix(goal: State, steps: nat, visited: set<State>, queue: seq<Entry>, xs: seq<State>, ys: seq<State>)
    requires xs <= ys && Explore(goal, steps, visited, queue, xs).found
    ensures Explore(goal, steps, visited, queue, ys) == Explore(goal, steps, visited, queue, xs)
  {
    assert ys == xs + ys[|xs|..];
    ExploreAppend(goal, steps, visited, queue, xs, ys[|xs|..]);
  }

  lemma QueueStatesPush(q: seq<Entry>, e: Entry)
    ensures QueueStates(q + [e]) == QueueStates(q) + {e.state}
  {
    assert e in q + [e];
    assert forall x :: x in q + [e] <==> x in q || x == e;
  }

  /** Trying `cands` meets the goal exactly when the goal is one of them. */
  lemma {:induction false} ExploreFound(goal: State, steps: nat, visited: set<State>, queue: seq<Entry>, cands: seq<State>)
    ensures Explore(goal, steps, visited, queue, cands).found <==> goal in cands
    decreases |cands|
  {
    if cands != [] && cands[0] != goal {
      var c := cands[0];
      assert goal in cands <==> goal in cands[1..] by {
        assert cands == [c] + cands[1..];
      }
      if c in visited {
        ExploreFound(goal, steps, visited, queue, cands[1..]);
      } else {
        ExploreFound(goal, steps, visited + {c}, queue + [Entry(c, steps)], cands[1..]);
      }
    }
  }

  /** Trying candidates only adds: the visited set grows and the queue is
      extended at its end. */
  lemma {:induction false} ExploreExtends(goal: State, steps: nat, visited: set<State>, queue: seq<Entry>, cands: seq<State>)
    ensures var p := Explore(goal, steps, visited, queue, cands);
      visited <= p.visited && |queue| <= |p.queue| && p.queue[..|queue|] == queue
    decreases |cands|
  {
    if cands != [] && cands[0] != goal {
      var c := cands[0];
      if c in visited {
        ExploreExtends(goal, steps, visited, queue, cands[1..]);
      } else {
        var v1, q1 := visited + {c}, queue + [Entry(c, steps)];
        ExploreExtends(goal, steps, v1, q1, cands[1..]);
        var p := Explore(goal, steps, v1, q1, cands[1..]);
        assert q1[..|queue|] == queue;
        assert p.queue[..|queue|] == p.queue[..|q1|][..|queue|];
      }
    }
  }

  /** Without meeting the goal, every candidate ends up visited, and
      nothing else is added. */
  lemma {:induction false} ExploreVisits(goal: State, steps: nat, visited: set<State>, queue: seq<Entry>, cands: seq<State>)
    ensures var p := Explore(goal, steps, visited, queue, cands);
      !p.found ==> forall t :: t in p.visited <==> t in visited || t in cands
    decreases |cands|
  {
    if cands != [] && cands[0] != goal {
      var c := cands[0];
      assert forall t :: t in cands <==> t == c || t in cands[1..] by {
        assert cands == [c] + cands[1..];
      }
      if c in visited {
        ExploreVisits(goal, steps, visited, queue, cands[1..]);
      } else {
        ExploreVisits(goal, steps, visited + {c}, queue + [Entry(c, steps)], cands[1..]);
      }
    }
  }

  /** Without meeting the goal, the entries appended to the queue carry
      distance `steps` and exactly the newly visited states, one each. */
  lemma {:induction false} ExploreQueues(goal: State, steps: nat, visited: set<State>, queue: seq<Entry>, cands: seq<State>)
    ensures var p := Explore(goal, steps, visited, queue, cands);
      && (!p.found ==> QueueStates(p.queue) == QueueStates(queue) + (p.visited - visited))
      && (!p.found ==> forall i :: |queue| <= i < |p.queue| ==>
            p.queue[i].dist == steps && p.queue[i].state in p.visited && p.queue[i].state !in visited)
      && (!p.found ==> |p.visited| - |visited| == |p.queue| - |queue|)
    decreases |cands|
  {
    if cands != [] && cands[0] != goal {
      var c := cands[0];
      if c in visited {
        ExploreQueues(goal, steps, visited, queue, cands[1..]);
      } else {
        var v1, q1 := visited + {c}, queue + [Entry(c, steps)];
        ExploreQueues(goal, steps, v1, q1, cands[1..]);
        ExploreExtends(goal, steps, v1, q1, cands[1..]);
        QueueStatesPush(queue, Entry(c, steps));
        var p := Explore(goal, steps, v1, q1, cands[1..]);
        assert p.queue[|queue|] == q1[|queue|];
      }
    }
  }

  // ---------------------------------------------------------------------------
  // The helpers of the search
  // ---------------------------------------------------------------------------

  /** `tryState` (lew.cpp:215-226): the current state is the goal, or it is
      recorded and queued unless already visited. */
  method TryState(cur: array<int>, steps: nat, goal: State, visited: set<State>, queue: seq<Entry>)
    returns (found: bool, visited': set<State>, queue': seq<Entry>)
    ensures Probe(found, visited', queue') == Explore(goal, steps, visited, queue, [cur[..]])
  {
    var s := cur[..];
    visited', queue' := visited, queue;
    if s == goal {
      return true, visited', queue';
    }
    if s !in visited' {
      visited' := visited' + {s};
      queue' := queue' + [Entry(s, steps)];
    }
    found := false;
  }

  /** `tryFillEmpty` (lew.cpp:261-280): try emptying glass `i`, then filling
      it, changing `cur` for each try and restoring it afterwards unless the
      goal was found. */
  method TryFillEmpty(i: nat, cur: array<int>, cap: seq<int>, steps: nat, goal: State,
                      visited: set<State>, queue: seq<Entry>)
    returns (found: bool, visited': set<State>, queue': seq<Entry>)
    requires InBounds(cap, cur[..]) && i < cur.Length
    modifies cur
    ensures Probe(found, visited', queue') == Explore(goal, steps, visited, queue, EmptyFillMoves(cap, old(cur[..]), i))
    ensures !found ==> cur[..] == old(cur[..])
  {
    ghost var s := cur[..];
    var original := cur[i];
    visited', queue' := visited, queue;
    ghost var tried: seq<State> := [];
    if original != 0 {
      cur[i] := 0;
      assert cur[..] == s[i := 0];
      found, visited', queue' := TryState(cur, steps, goal, visited', queue');
      tried := [s[i := 0]];
      if found {
        ExploreAppend(goal, steps, visited, queue, tried, EmptyFillMoves(cap, s, i)[1..]);
        assert tried + EmptyFillMoves(cap, s, i)[1..] == EmptyFillMoves(cap, s, i);
        return;
      }
      cur[i] := original;
      assert cur[..] == s;
    }
    if original != cap[i] {
      cur[i] := cap[i];
      assert cur[..] == s[i := cap[i]];
      ExploreAppend(goal, steps, visited, queue, tried, [s[i := cap[i]]]);
      found, visited', queue' := TryState(cur, steps, goal, visited', queue');
      tried := tried + [s[i := cap[i]]];
      if found {
        assert tried == EmptyFillMoves(cap, s, i);
        return;
      }
      cur[i] := original;
      assert cur[..] == s;
    }
    assert tried == EmptyFillMoves(cap, s, i);
    found := false;
  }

  /** `tryPourFrom` (lew.cpp:231-255): nothing when glass `i` is empty;
      otherwise pour it into each other glass that is not full, in index
      order, restoring `cur` after each try unless the goal was found. */
  method TryPourFrom(i: nat, cur: array<int>, cap: seq<int>, steps: nat, goal: State,
                     visited: set<State>, queue: seq<Entry>)
    returns (found: bool, visited': set<State>, queue': seq<Entry>)
    requires InBounds(cap, cur[..]) && i < cur.Length
    modifies cur
    ensures Probe(found, visited', queue') == Explore(goal, steps, visited, queue, PourMoves(cap, old(cur[..]), i))
    ensures !found ==> cur[..] == old(cur[..])
  {
    ghost var s := cur[..];
    assert InBounds(cap, s) && i < |s|;
    var n := cur.Length;
    var original := cur[i];
    visited', queue' := visited, queue;
    if original == 0 {
      return false, visited', queue';
    }
    for j := 0 to n
      invariant cur[..] == s
      invariant Probe(false, visited', queue') == Explore(goal, steps, visited, queue, PourMovesUpTo(cap, s, i, j))
    {
      ExploreAppend(goal, steps, visited, queue, PourMovesUpTo(cap, s, i, j), PourStep(cap, s, i, j));
      found, visited', queue' := PourAndTry(i, j, cur, cap, steps, goal, visited', queue');
      if found {
        PourFoundEarly(cap, s, i, j + 1, goal, steps, visited, queue);
        return;
      }
    }
    assert PourMovesUpTo(cap, s, i, n) == PourMoves(cap, s, i);
    found := false;
  }

  /** Meeting the goal among the pours into the first `m` glasses ends
      `tryPourFrom`. */
  lemma PourFoundEarly(cap: seq<int>, s: State, i: nat, m: nat, goal: State, steps: nat,
                       visited: set<State>, queue: seq<Entry>)
    requires InBounds(cap, s) && i < |s| && s[i] != 0 && m <= |s|
    requires Explore(goal, steps, visited, queue, PourMovesUpTo(cap, s, i, m)).found
    ensures Explore(goal, steps, visited, queue, PourMoves(cap, s, i)) == Explore(goal, steps, visited, queue, PourMovesUpTo(cap, s, i, m))
  {
    PourMovesUpToPrefix(cap, s, i, m, |s|);
    ExploreFoundPrefix(goal, steps, visited, queue, PourMovesUpTo(cap, s, i, m), PourMoves(cap, s, i));
  }

  /** The body of `tryPourFrom`'s loop (lew.cpp:241-252): unless glass `j`
      is glass `i` or is full, pour `i` into `j` in place, try the result,
      and undo the pour unless the goal was found. */
  method PourAndTry(i: nat, j: nat, cur: array<int>, cap: seq<int>, steps: nat, goal: State,
                    visited: set<State>, queue: seq<Entry>)
    returns (found: bool, visited': set<State>, queue': seq<Entry>)
    requires InBounds(cap, cur[..]) && i < cur.Length && j < cur.Length
    modifies cur
    ensures Probe(found, visited', queue') == Explore(goal, steps, visited, queue, PourStep(cap, old(cur[..]), i, j))
    ensures !found ==> cur[..] == old(cur[..])
  {
    if j == i || cur[j] == cap[j] {
      return false, visited, queue;
    }
    ghost var s := cur[..];
    var original := cur[i];
    var poured := Min(original, cap[j] - cur[j]);
    cur[i] := original - poured;
    cur[j] := cur[j] + poured;
    assert cur[..] == s[i := original - poured][j := s[j] + poured];
    found, visited', queue' := TryState(cur, steps, goal, visited, queue);
    if found {
      return;
    }
    cur[i] := original;
    cur[j] := cur[j] - poured;
    assert cur[..] == s;
  }
}
