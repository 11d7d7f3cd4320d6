/** Open tours over a distance table, and the 2-opt neighbour: reversing one segment. */
module Tours {

  type Tour = seq<nat>

  type Distances = (nat, nat) -> real

  /** The sum of the distances between neighbours. */
  function Length(d: Distances, s: Tour): real {
    if |s| < 2 then 0.0 else Length(d, s[..|s| - 1]) + d(s[|s| - 2], s[|s| - 1])
  }

  function Reverse(s: Tour): (r: Tour)
    ensures |r| == |s| && forall k :: 0 <= k < |s| ==> r[k] == s[|s| - 1 - k]
  {
    seq(|s|, k requires 0 <= k < |s| => s[|s| - 1 - k])
  }

  /** `s` with the segment from `i` to `j`, both included, turned around. */
  function ReverseSegment(s: Tour, i: nat, j: nat): (r: Tour)
    requires i <= j < |s|
    ensures |r| == |s| && forall k :: 0 <= k < |s| ==> r[k] == if i <= k <= j then s[i + j - k] else s[k]
  {
    s[..i] + Reverse(s[i..j + 1]) + s[j + 1..]
  }

  ghost predicate Symmetric(d: Distances) {
    forall a, b :: d(a, b) == d(b, a)
  }

  /** The edge that joins two pieces of a tour. */
  function Joint(d: Distances, a: Tour, b: Tour): real {
    if a == [] || b == [] then 0.0 else d(a[|a| - 1], b[0])
  }

  lemma {:induction false} LengthConcat(d: Distances, a: Tour, b: Tour)
    ensures Length(d, a + b) == Length(d, a) + Joint(d, a, b) + Length(d, b)
  {
    if b == [] {
      assert a + b == a;
    } else if a == [] {
      assert a + b == b;
    } else {
      var n := |b| - 1;
      assert (a + b)[..|a + b| - 1] == a + b[..n];
      LengthConcat(d, a, b[..n]);
    }
  }

  lemma {:induction false} ReverseKeepsLength(d: Distances, s: Tour)
    requires Symmetric(d)
    ensures Length(d, Reverse(s)) == Length(d, s)
  {
    if |s| < 2 {
    } else {
      var n := |s| - 1;
      ReverseKeepsLength(d, s[..n]);
      assert Reverse(s) == [s[n]] + Reverse(s[..n]);
      LengthConcat(d, [s[n]], Reverse(s[..n]));
    }
  }

  lemma {:induction false} ReversePermutes(s: Tour)
    ensures multiset(Reverse(s)) == multiset(s)
  {
    if s == [] {
    } else {
      var n := |s| - 1;
      ReversePermutes(s[..n]);
      assert Reverse(s) == [s[n]] + Reverse(s[..n]);
      assert s == s[..n] + [s[n]];
    }
  }

  /** A segment reversal keeps the tour a permutation of the original. */
  lemma ReverseSegmentPermutes(s: Tour, i: nat, j: nat)
    requires i <= j < |s|
    ensures multiset(ReverseSegment(s, i, j)) == multiset(s)
  {
    assert s == s[..i] + s[i..j + 1] + s[j + 1..];
    ReversePermutes(s[i..j + 1]);
  }

  /** `t` is `s` with one segment of at least two places turned around. */
  ghost predicate IsNeighbor(s: Tour, t: Tour) {
    exists i: nat, j: nat :: i < j < |s| && t == ReverseSegment(s, i, j)
  }

  /** Being neighbours is mutual, and neighbours visit the same places. */
  lemma NeighborIsMutual(s: Tour, t: Tour)
    requires IsNeighbor(s, t)
    ensures IsNeighbor(t, s) && multiset(t) == multiset(s)
  {
    var i: nat, j: nat :| i < j < |s| && t == ReverseSegment(s, i, j);
    ReverseSegmentUndoes(s, i, j);
    ReverseSegmentPermutes(s, i, j);
  }

  /** The same reversal undoes it. */
  lemma ReverseSegmentUndoes(s: Tour, i: nat, j: nat)
    requires i <= j < |s|
    ensures ReverseSegment(ReverseSegment(s, i, j), i, j) == s
  {
    var r := ReverseSegment(s, i, j);
    var t := ReverseSegment(r, i, j);
    forall k | 0 <= k < |s| ensures t[k] == s[k] {
      var m := if i <= k <= j then i + j - k else k;
      assert t[k] == r[m];
    }
  }

  /** What the boundary edges of the segment contribute, when its end points are `a` and `b`. */
  function Boundary(d: Distances, s: Tour, i: nat, j: nat, a: nat, b: nat): real
    requires i <= j < |s|
  {
    (if i > 0 then d(s[i - 1], a) else 0.0) + (if j + 1 < |s| then d(b, s[j + 1]) else 0.0)
  }

  /** The exact change of length promised of the 2-opt move. */
  ghost predicate ChangesOnlyBoundary(d: Distances, s: Tour, i: nat, j: nat)
    requires i <= j < |s|
  {
    Length(d, ReverseSegment(s, i, j)) == Length(d, s) - Boundary(d, s, i, j, s[i], s[j]) +
        Boundary(d, s, i, j, s[j], s[i])
  }

  lemma LengthOfParts(d: Distances, a: Tour, m: Tour, b: Tour)
    requires m != []
    ensures Length(d, a + m + b)
         == Length(d, a) + Length(d, m) + Length(d, b) + Joint(d, a, m) + Joint(d, m, b)
  {
    LengthConcat(d, a + m, b);
    LengthConcat(d, a, m);
    assert (a + m)[|a + m| - 1] == m[|m| - 1];
  }

  lemma JointsAreBoundary(d: Distances, s: Tour, i: nat, j: nat, m: Tour)
    requires i <= j < |s| && m != []
    ensures Joint(d, s[..i], m) + Joint(d, m, s[j + 1..]) == Boundary(d, s, i, j, m[0], m[|m| - 1])
  {
  }

  lemma SymmetricChangesOnlyBoundary(d: Distances, s: Tour, i: nat, j: nat)
    requires Symmetric(d) && i <= j < |s|
    ensures ChangesOnlyBoundary(d, s, i, j)
  {
    var a, m, b := s[..i], s[i..j + 1], s[j + 1..];
    var t := Reverse(m);
    assert s == a + m + b && ReverseSegment(s, i, j) == a + t + b;
    LengthOfParts(d, a, m, b);
    LengthOfParts(d, a, t, b);
    ReverseKeepsLength(d, m);
    JointsAreBoundary(d, s, i, j, m);
    JointsAreBoundary(d, s, i, j, t);
  }

  lemma LengthOfTwo(d: Distances, a: nat, b: nat)
    ensures Length(d, [a, b]) == d(a, b)
  {
    assert [a, b][..1] == [a];
    assert Length(d, [a]) == 0.0;
  }

  /** The 2-opt move touches only the two boundary edges of the segment, for every tour and segment,
      exactly when the distance table is symmetric. */
  lemma BoundaryOnlyIffSymmetric(d: Distances)
    ensures Symmetric(d) <==> forall s: Tour, i: nat, j: nat :: i <= j < |s| ==> ChangesOnlyBoundary(d, s, i, j)
  {
    if Symmetric(d) {
      forall s: Tour, i: nat, j: nat | i <= j < |s| ensures ChangesOnlyBoundary(d, s, i, j) {
        SymmetricChangesOnlyBoundary(d, s, i, j);
      }
    } else {
      var a: nat, b: nat :| d(a, b) != d(b, a);
      var s: Tour := [a, b];
      var r: Tour := [b, a];
      assert ReverseSegment(s, 0, 1) == r;
      LengthOfTwo(d, a, b);
      LengthOfTwo(d, b, a);
      assert !ChangesOnlyBoundary(d, s, 0, 1);
    }
  }

  /** The solver: route length by one pass, and a random 2-opt neighbour on a copy. */
  class TSPSolver {
    const distances: Distances

    constructor (distances: Distances)
      ensures this.distances == distances
    {
      this.distances := distances;
    }

    method Calculate(solution: array<nat>) returns (total: real)
      ensures total == Length(distances, solution[..])
    {
      total := 0.0;
      var i := 0;
      assert |solution[..0]| == 0;
      while i + 1 < solution.Length
        invariant 0 <= i && (i < solution.Length || solution.Length == 0)
        invariant total == if solution.Length == 0 then 0.0 else Length(distances, solution[..i + 1])
      {
        assert solution[..i + 2][..i + 1] == solution[..i + 1];
        total := total + distances(solution[i], solution[i + 1]);
        i := i + 1;
      }
      assert solution.Length > 0 ==> solution[..i + 1] == solution[..];
    }

    method GenerateNeighbor(current: array<nat>) returns (neighbor: array<nat>)
      requires current.Length >= 2
      ensures fresh(neighbor) && IsNeighbor(current[..], neighbor[..])
    {
      neighbor := new nat[current.Length](k requires 0 <= k < current.Length reads current => current[k]);
      var lo, hi :| 0 <= lo < hi < current.Length by {
        assert 0 <= 0 < 1 < current.Length;
      }
      forall k | lo <= k <= hi {
        neighbor[k] := current[lo + hi - k];
      }
      assert neighbor[..] == ReverseSegment(current[..], lo, hi);
    }
  }
}
