/** Glasses, their water levels and the three operations (fill, empty, pour),
    with the successor states in the order the breadth-first search of
    lew.cpp generates them, and the set of states reachable in exactly `d`
    operations from all-empty. */
module Jugs {
  import opened Arith

  /** One water level per glass. */
  type State = seq<int>

  /** Glasses with capacity <= 0 are dropped while reading the input, so every
      capacity the solver sees is positive. */
  predicate ValidCapacities(cap: seq<int>) {
    forall i :: 0 <= i < |cap| ==> cap[i] > 0
  }

  /** Every level lies between empty and the glass's capacity. */
  predicate InBounds(cap: seq<int>, s: State) {
    |s| == |cap| && forall i {:trigger s[i]} :: 0 <= i < |s| ==> 0 <= s[i] <= cap[i]
  }

  /** The all-empty state the search starts from. */
  function Zeros(n: nat): (z: State)
    ensures |z| == n && forall i :: 0 <= i < n ==> z[i] == 0
  {
    seq(n, _ => 0)
  }

  function Min(x: int, y: int): int {
    if x <= y then x else y
  }

  /** Total amount of water in the glasses. */
  function Total(s: State): int {
    if s == [] then 0 else s[0] + Total(s[1..])
  }

  /** Number of glasses that are not empty. */
  function Occupied(s: State): nat {
    if s == [] then 0 else Occupied(s[..|s| - 1]) + (if s[|s| - 1] != 0 then 1 else 0)
  }

  lemma {:induction false} TotalUpdate(s: State, i: nat, v: int)
    requires i < |s|
    ensures Total(s[i := v]) == Total(s) - s[i] + v
  {
    if i > 0 {
      assert s[i := v][1..] == s[1..][i - 1 := v];
      TotalUpdate(s[1..], i - 1, v);
    } else {
      assert s[i := v][1..] == s[1..];
    }
  }

  lemma {:induction false} OccupiedUpdate(s: State, i: nat, v: int)
    requires i < |s|
    ensures Occupied(s[i := v]) == Occupied(s) - (if s[i] != 0 then 1 else 0) + (if v != 0 then 1 else 0)
  {
    var n := |s|;
    if i < n - 1 {
      assert s[i := v][..n - 1] == s[..n - 1][i := v];
      OccupiedUpdate(s[..n - 1], i, v);
    } else {
      assert s[i := v][..n - 1] == s[..n - 1];
    }
  }

  // ---------------------------------------------------------------------------
  // Operations
  // ---------------------------------------------------------------------------

  /** Pour from glass `i` into glass `j` (lew.cpp:244-246): the amount moved is
      `min(s[i], cap[j] - s[j])`, so the pour stops exactly when the source is
      empty or the destination is full. */
  function PourInto(cap: seq<int>, s: State, i: nat, j: nat): (t: State)
    requires InBounds(cap, s) && i < |s| && j < |s| && i != j
    ensures InBounds(cap, t) && Total(t) == Total(s)
    ensures t[j] - s[j] == s[i] - t[i] >= 0
    ensures t[i] == 0 || t[j] == cap[j]
    ensures forall k :: 0 <= k < |s| && k != i && k != j ==> t[k] == s[k]
  {
    var poured := Min(s[i], cap[j] - s[j]);
    var t := s[i := s[i] - poured][j := s[j] + poured];
    TotalUpdate(s, i, s[i] - poured);
    TotalUpdate(s[i := s[i] - poured], j, s[j] + poured);
    t
  }

  /** The three operations of the puzzle, by glass index. */
  datatype Op = Fill(glass: nat) | Empty(glass: nat) | Pour(source: nat, dest: nat)

  predicate OpFits(op: Op, n: nat) {
    match op
    case Fill(i) => i < n
    case Empty(i) => i < n
    case Pour(i, j) => i < n && j < n
  }

  /** The effect of one operation; pouring a glass into itself changes nothing. */
  function Apply(cap: seq<int>, s: State, op: Op): (t: State)
    requires InBounds(cap, s) && OpFits(op, |s|)
    ensures InBounds(cap, t)
  {
    match op
    case Fill(i) => assert 0 <= s[i] <= cap[i]; LevelInBounds(cap, s, i, cap[i]); s[i := cap[i]]
    case Empty(i) => assert 0 <= s[i] <= cap[i]; LevelInBounds(cap, s, i, 0); s[i := 0]
    case Pour(i, j) => if i == j then s else PourInto(cap, s, i, j)
  }

  /** Setting one glass to a level it can hold keeps the state in bounds. */
  lemma LevelInBounds(cap: seq<int>, s: State, i: nat, v: int)
    requires InBounds(cap, s) && i < |s| && 0 <= v <= cap[i]
    ensures InBounds(cap, s[i := v])
  {
    forall k | 0 <= k < |s|
      ensures 0 <= s[i := v][k] <= cap[k]
    {
      if k != i {
        assert s[i := v][k] == s[k];
      }
    }
  }

  /** `t` follows from `s` by one operation that changes something. */
  ghost predicate IsStep(cap: seq<int>, s: State, t: State)
    requires InBounds(cap, s)
  {
    t != s && exists op :: OpFits(op, |s|) && Apply(cap, s, op) == t
  }

  // ---------------------------------------------------------------------------
  // Successors, in the order lew.cpp's search tries them
  // ---------------------------------------------------------------------------

  /** `tryFillEmpty` (lew.cpp:265-278): empty glass `i` unless it is empty,
      then fill it unless it is full. */
  function EmptyFillMoves(cap: seq<int>, s: State, i: nat): (ts: seq<State>)
    requires InBounds(cap, s) && i < |s|
    ensures forall t :: t in ts ==> InBounds(cap, t)
  {
    (if s[i] != 0 then [s[i := 0]] else []) + (if s[i] != cap[i] then [s[i := cap[i]]] else [])
  }

  /** The pours out of glass `i` into glasses `0 .. m-1` (the loop of
      `tryPourFrom`, lew.cpp:240-253): every other glass that is not full. */
  function PourMovesUpTo(cap: seq<int>, s: State, i: nat, m: nat): (ts: seq<State>)
    requires InBounds(cap, s) && i < |s| && m <= |s|
    ensures forall t :: t in ts ==> InBounds(cap, t)
  {
    if m == 0 then [] else PourMovesUpTo(cap, s, i, m - 1) + PourStep(cap, s, i, m - 1)
  }

  /** What one pass of `tryPourFrom`'s loop tries (lew.cpp:241-252): pouring
      glass `i` into glass `j`, unless `j` is `i` or is full. */
  function PourStep(cap: seq<int>, s: State, i: nat, j: nat): (ts: seq<State>)
    requires InBounds(cap, s) && i < |s| && j < |s|
  {
    if j != i && s[j] != cap[j] then [PourInto(cap, s, i, j)] else []
  }

  /** `tryPourFrom` (lew.cpp:235-254): nothing when glass `i` is empty. */
  function PourMoves(cap: seq<int>, s: State, i: nat): (ts: seq<State>)
    requires InBounds(cap, s) && i < |s|
    ensures forall t :: t in ts ==> InBounds(cap, t)
  {
    if s[i] == 0 then [] else PourMovesUpTo(cap, s, i, |s|)
  }

  /** What one pass of the search's `for` loop tries for glass `i`. */
  function GlassMoves(cap: seq<int>, s: State, i: nat): (ts: seq<State>)
    requires InBounds(cap, s) && i < |s|
    ensures forall t :: t in ts ==> InBounds(cap, t)
  {
    EmptyFillMoves(cap, s, i) + PourMoves(cap, s, i)
  }

  /** The successors generated for glasses `0 .. m-1`, in order. */
  function MovesUpTo(cap: seq<int>, s: State, m: nat): (ts: seq<State>)
    requires InBounds(cap, s) && m <= |s|
    ensures forall t :: t in ts ==> InBounds(cap, t)
  {
    if m == 0 then [] else MovesUpTo(cap, s, m - 1) + GlassMoves(cap, s, m - 1)
  }

  /** All successors of `s`, in the order `bfsSolve` generates them
      (lew.cpp:299-306). */
  function Moves(cap: seq<int>, s: State): (ts: seq<State>)
    requires InBounds(cap, s)
    ensures forall t :: t in ts ==> InBounds(cap, t)
  {
    MovesUpTo(cap, s, |s|)
  }

  lemma {:induction false} PourMovesUpToSound(cap: seq<int>, s: State, i: nat, m: nat, t: State)
    requires InBounds(cap, s) && i < |s| && s[i] != 0 && m <= |s|
    requires t in PourMovesUpTo(cap, s, i, m)
    ensures IsStep(cap, s, t)
    decreases m
  {
    var j := m - 1;
    if t in PourMovesUpTo(cap, s, i, j) {
      PourMovesUpToSound(cap, s, i, j, t);
    } else {
      assert j != i && s[j] != cap[j] && t == PourInto(cap, s, i, j);
      assert Apply(cap, s, Pour(i, j)) == t;
      assert t[j] != s[j];
    }
  }

  lemma GlassMovesSound(cap: seq<int>, s: State, i: nat, t: State)
    requires InBounds(cap, s) && i < |s| && t in GlassMoves(cap, s, i)
    ensures IsStep(cap, s, t)
  {
    if t in PourMoves(cap, s, i) {
      PourMovesUpToSound(cap, s, i, |s|, t);
    } else if t == s[i := 0] {
      assert Apply(cap, s, Empty(i)) == t && t[i] != s[i];
    } else {
      assert Apply(cap, s, Fill(i)) == t && t[i] != s[i];
    }
  }

  lemma {:induction false} MovesUpToSound(cap: seq<int>, s: State, m: nat, t: State)
    requires InBounds(cap, s) && m <= |s| && t in MovesUpTo(cap, s, m)
    ensures IsStep(cap, s, t)
    decreases m
  {
    if t in MovesUpTo(cap, s, m - 1) {
      MovesUpToSound(cap, s, m - 1, t);
    } else {
      GlassMovesSound(cap, s, m - 1, t);
    }
  }

  /** Every generated successor is the result of one operation that changes
      the state: the search invents no move. */
  lemma MovesSound(cap: seq<int>, s: State, t: State)
    requires InBounds(cap, s) && t in Moves(cap, s)
    ensures IsStep(cap, s, t)
  {
    MovesUpToSound(cap, s, |s|, t);
  }

  lemma {:induction false} MovesUpToGrows(cap: seq<int>, s: State, m: nat, m': nat)
    requires InBounds(cap, s) && m <= m' <= |s|
    ensures forall t :: t in MovesUpTo(cap, s, m) ==> t in MovesUpTo(cap, s, m')
    decreases m'
  {
    if m < m' {
      MovesUpToGrows(cap, s, m, m' - 1);
    }
  }

  /** The pours tried for the first `m` glasses are where the loop over the
      first `m'` glasses starts. */
  lemma {:induction false} PourMovesUpToPrefix(cap: seq<int>, s: State, i: nat, m: nat, m': nat)
    requires InBounds(cap, s) && i < |s| && m <= m' <= |s|
    ensures PourMovesUpTo(cap, s, i, m) <= PourMovesUpTo(cap, s, i, m')
    decreases m'
  {
    if m < m' {
      PourMovesUpToPrefix(cap, s, i, m, m' - 1);
    }
  }

  /** The successors generated for the first `m` glasses are where those
      for the first `m'` glasses start. */
  lemma {:induction false} MovesUpToPrefix(cap: seq<int>, s: State, m: nat, m': nat)
    requires InBounds(cap, s) && m <= m' <= |s|
    ensures MovesUpTo(cap, s, m) <= MovesUpTo(cap, s, m')
    decreases m'
  {
    if m < m' {
      MovesUpToPrefix(cap, s, m, m' - 1);
    }
  }

  lemma {:induction false} PourMovesUpToHas(cap: seq<int>, s: State, i: nat, j: nat, m: nat)
    requires InBounds(cap, s) && i < |s| && j < m <= |s|
    requires j != i && s[j] != cap[j]
    ensures PourInto(cap, s, i, j) in PourMovesUpTo(cap, s, i, m)
    decreases m
  {
    if j < m - 1 {
      PourMovesUpToHas(cap, s, i, j, m - 1);
    }
  }

  /** Every operation that changes the state yields one of the generated
      successors: the search misses no move. */
  lemma MovesComplete(cap: seq<int>, s: State, op: Op)
    requires InBounds(cap, s) && OpFits(op, |s|)
    requires Apply(cap, s, op) != s
    ensures Apply(cap, s, op) in Moves(cap, s)
  {
    var t := Apply(cap, s, op);
    var i := if op.Pour? then op.source else op.glass;
    assert t in GlassMoves(cap, s, i) by {
      match op
      case Fill(_) =>
      case Empty(_) =>
      case Pour(_, j) =>
        assert s[i] != 0 && s[j] != cap[j];
        PourMovesUpToHas(cap, s, i, j, |s|);
    }
    assert t in MovesUpTo(cap, s, i + 1);
    MovesUpToGrows(cap, s, i + 1, |s|);
  }

  // ---------------------------------------------------------------------------
  // Reachability
  // ---------------------------------------------------------------------------

  /** The states reachable from all-empty by exactly `d` operations, each of
      which changes the state. */
  ghost function Layer(cap: seq<int>, d: nat): set<State> {
    if d == 0 then {Zeros(|cap|)}
    else set p, t | p in Layer(cap, d - 1) && InBounds(cap, p) && t in Moves(cap, p) :: t
  }

  lemma LayerNext(cap: seq<int>, d: nat, p: State, t: State)
    requires p in Layer(cap, d) && InBounds(cap, p) && t in Moves(cap, p)
    ensures t in Layer(cap, d + 1)
  {
  }

  /** A state reachable in `d > 0` operations has a predecessor reachable in
      `d - 1`. */
  lemma LayerPrev(cap: seq<int>, d: nat, s: State) returns (p: State)
    requires d > 0 && s in Layer(cap, d)
    ensures p in Layer(cap, d - 1) && InBounds(cap, p) && s in Moves(cap, p)
  {
    p :| p in Layer(cap, d - 1) && InBounds(cap, p) && s in Moves(cap, p);
  }

  /** Every reachable state respects the capacities. */
  lemma LayerInBounds(cap: seq<int>, d: nat, s: State)
    requires ValidCapacities(cap) && s in Layer(cap, d)
    ensures InBounds(cap, s)
  {
  }

  /** A state reachable in `d` operations has at most `d` non-empty glasses:
      each operation makes at most one more glass non-empty. */
  lemma {:induction false} LayerOccupied(cap: seq<int>, d: nat, s: State)
    requires s in Layer(cap, d)
    ensures Occupied(s) <= d
  {
    if d == 0 {
      ZerosUnoccupied(|cap|);
    } else {
      var p := LayerPrev(cap, d, s);
      LayerOccupied(cap, d - 1, p);
      MovesSound(cap, p, s);
      StepOccupied(cap, p, s);
    }
  }

  lemma {:induction false} ZerosUnoccupied(n: nat)
    ensures Occupied(Zeros(n)) == 0
  {
    if n > 0 {
      assert Zeros(n)[..n - 1] == Zeros(n - 1);
      ZerosUnoccupied(n - 1);
    }
  }

  lemma StepOccupied(cap: seq<int>, s: State, t: State)
    requires InBounds(cap, s) && IsStep(cap, s, t)
    ensures Occupied(t) <= Occupied(s) + 1
  {
    var op :| OpFits(op, |s|) && Apply(cap, s, op) == t;
    match op
    case Fill(i) => OccupiedUpdate(s, i, cap[i]);
    case Empty(i) => OccupiedUpdate(s, i, 0);
    case Pour(i, j) => PourOccupied(cap, s, i, j);
  }

  /** A pour can only empty its source and fill its destination. */
  lemma PourOccupied(cap: seq<int>, s: State, i: nat, j: nat)
    requires InBounds(cap, s) && i < |s| && j < |s| && i != j
    ensures Occupied(PourInto(cap, s, i, j)) <= Occupied(s) + 1
  {
    var t := PourInto(cap, s, i, j);
    var u := s[i := t[i]];
    assert t == u[j := t[j]];
    OccupiedUpdate(s, i, t[i]);
    OccupiedUpdate(u, j, t[j]);
  }

  /** Every operation keeps every level a multiple of a common divisor `g`
      of the capacities. */
  lemma StepDivisible(cap: seq<int>, g: int, s: State, t: State)
    requires InBounds(cap, s) && IsStep(cap, s, t)
    requires forall i :: 0 <= i < |cap| ==> Divides(g, cap[i])
    requires forall i :: 0 <= i < |s| ==> Divides(g, s[i])
    ensures forall i :: 0 <= i < |t| ==> Divides(g, t[i])
  {
    var op :| OpFits(op, |s|) && Apply(cap, s, op) == t;
    MultipleMod(0, g);
    match op
    case Fill(_) =>
    case Empty(_) =>
    case Pour(i, j) =>
      if i != j {
        PourDivisible(cap, g, s, i, j);
      }
  }

  /** A pour moves a multiple of `g` from one glass to another. */
  lemma PourDivisible(cap: seq<int>, g: int, s: State, i: nat, j: nat)
    requires InBounds(cap, s) && i < |s| && j < |s| && i != j
    requires forall k :: 0 <= k < |cap| ==> Divides(g, cap[k])
    requires forall k :: 0 <= k < |s| ==> Divides(g, s[k])
    ensures forall k :: 0 <= k < |s| ==> Divides(g, PourInto(cap, s, i, j)[k])
  {
    var t := PourInto(cap, s, i, j);
    var p := t[j] - s[j];
    assert Divides(g, cap[j] - s[j]) by {
      CombineDivides(g, cap[j], s[j], -1);
    }
    assert p == s[i] || p == cap[j] - s[j];
    CombineDivides(g, s[i], p, -1);
    CombineDivides(g, s[j], p, 1);
  }

  /** A divisor of every capacity divides every reachable level. */
  lemma {:induction false} LayerDivisible(cap: seq<int>, g: int, d: nat, s: State)
    requires forall i :: 0 <= i < |cap| ==> Divides(g, cap[i])
    requires s in Layer(cap, d)
    ensures forall i :: 0 <= i < |s| ==> Divides(g, s[i])
  {
    if d == 0 {
      assert g > 0 || |cap| == 0;
      if |cap| > 0 {
        MultipleMod(0, g);
      }
    } else {
      var p := LayerPrev(cap, d, s);
      LayerDivisible(cap, g, d - 1, p);
      MovesSound(cap, p, s);
      StepDivisible(cap, g, p, s);
    }
  }

  /** Some glass is exactly empty or exactly full. */
  predicate HasBoundaryGlass(cap: seq<int>, s: State)
    requires |s| == |cap|
  {
    exists i :: 0 <= i < |s| && (s[i] == 0 || s[i] == cap[i])
  }

  /** After any operation some glass is empty or full: a fill leaves its glass
      full, an empty leaves it empty, and a pour stops when the source is
      empty or the destination is full. */
  lemma StepBoundary(cap: seq<int>, s: State, t: State)
    requires InBounds(cap, s) && IsStep(cap, s, t)
    ensures |t| == |cap| && HasBoundaryGlass(cap, t)
  {
    var op :| OpFits(op, |s|) && Apply(cap, s, op) == t;
    match op
    case Fill(i) => assert t[i] == cap[i];
    case Empty(i) => assert t[i] == 0;
    case Pour(i, j) =>
      assert i != j;
      assert t[i] == 0 || t[j] == cap[j];
  }

  /** Every reachable state of a non-empty set of glasses has a glass that is
      empty or full. */
  lemma LayerBoundary(cap: seq<int>, d: nat, s: State)
    requires |cap| > 0 && s in Layer(cap, d)
    ensures |s| == |cap| && HasBoundaryGlass(cap, s)
  {
    if d == 0 {
      assert s[0] == 0;
    } else {
      var p := LayerPrev(cap, d, s);
      MovesSound(cap, p, s);
      StepBoundary(cap, p, s);
    }
  }
}
