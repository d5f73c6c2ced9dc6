/** Token-level edit distance of two predicates (src/lint/similarity.rs). */
module Similarity {
  // ---------------------------------------------------------------------------
  // What the distance is: the cheapest script of edits
  // ---------------------------------------------------------------------------

  /** One step of an edit script, read left to right over the source tokens. */
  datatype Edit<T> =
    | Keep             // copy the next source token
    | Delete           // drop the next source token
    | Insert(token: T) // emit a token of its own
    | Change(token: T) // drop the next source token and emit this one instead

  function EditCost<T>(e: Edit<T>): nat {
    if e.Keep? then 0 else 1
  }

  function Cost<T>(script: seq<Edit<T>>): nat {
    if script == [] then 0 else Cost(script[..|script| - 1]) + EditCost(script[|script| - 1])
  }

  /** `script` rewrites `a` into `b`, consuming all of `a` and emitting exactly `b`. */
  ghost predicate Rewrites<T>(script: seq<Edit<T>>, a: seq<T>, b: seq<T>) {
    if script == [] then
      a == [] && b == []
    else
      var rest, e := script[..|script| - 1], script[|script| - 1];
      match e
      case Keep => a != [] && b != [] && Last(a) == Last(b) && Rewrites(rest, Init(a), Init(b))
      case Delete => a != [] && Rewrites(rest, Init(a), b)
      case Insert(x) => b != [] && Last(b) == x && Rewrites(rest, a, Init(b))
      case Change(x) => a != [] && b != [] && Last(b) == x && Rewrites(rest, Init(a), Init(b))
  }

  function Last<T>(s: seq<T>): T
    requires s != []
  {
    s[|s| - 1]
  }

  function Init<T>(s: seq<T>): seq<T>
    requires s != []
  {
    s[..|s| - 1]
  }

  // ---------------------------------------------------------------------------
  // The recurrence the table is filled by
  // ---------------------------------------------------------------------------

  function Min(x: nat, y: nat): nat {
    if x <= y then x else y
  }

  function Max(x: nat, y: nat): nat {
    if x >= y then x else y
  }

  function Differ<T(==)>(x: T, y: T): nat {
    if x == y then 0 else 1
  }

  function Distance<T(==)>(a: seq<T>, b: seq<T>): nat
    decreases |a| + |b|
  {
    if a == [] then |b|
    else if b == [] then |a|
    else
      Min(Min(Distance(Init(a), b) + 1, Distance(a, Init(b)) + 1),
          Distance(Init(a), Init(b)) + Differ(Last(a), Last(b)))
  }

  /** Entry (i, j) of the full table. */
  ghost function Cell<T>(a: seq<T>, b: seq<T>, i: nat, j: nat): nat
    requires i <= |a| && j <= |b|
  {
    Distance(a[..i], b[..j])
  }

  ghost predicate IsRow<T>(row: seq<nat>, a: seq<T>, b: seq<T>, i: nat, filled: nat)
    requires i <= |a| && filled <= |row| == |b| + 1
  {
    forall j :: 0 <= j < filled ==> row[j] == Cell(a, b, i, j)
  }

  lemma CellRecurrence<T>(a: seq<T>, b: seq<T>, i: nat, j: nat)
    requires i < |a| && j < |b|
    ensures Cell(a, b, i + 1, j + 1) ==
            Min(Min(Cell(a, b, i, j + 1) + 1, Cell(a, b, i + 1, j) + 1), Cell(a, b, i, j) + Differ(a[i], b[j]))
  {
    assert Init(a[..i + 1]) == a[..i] && Init(b[..j + 1]) == b[..j];
  }

  /** Two rows are enough: row `i + 1` of the table is computed from row `i`
      and the two buffers change places. */
  method Levenshtein<T(==)>(a: seq<T>, b: seq<T>) returns (distance: nat)
    ensures distance == Distance(a, b)
  {
    if a == [] {
      return |b|;
    }
    if b == [] {
      return |a|;
    }
    var prev := new nat[|b| + 1](j => j);
    var cur := new nat[|b| + 1](_ => 0);
    for i := 0 to |a|
      invariant prev != cur && prev.Length == cur.Length == |b| + 1
      invariant fresh(prev) && fresh(cur)
      invariant IsRow(prev[..], a, b, i, |b| + 1)
    {
      cur[0] := i + 1;
      for j := 0 to |b|
        invariant IsRow(prev[..], a, b, i, |b| + 1)
        invariant IsRow(cur[..], a, b, i + 1, j + 1)
      {
        CellRecurrence(a, b, i, j);
        var cost := Differ(a[i], b[j]);
        cur[j + 1] := Min(Min(prev[j + 1] + 1, cur[j] + 1), prev[j] + cost);
      }
      prev, cur := cur, prev;
    }
    assert a[..|a|] == a && b[..|b|] == b;
    distance := prev[..][|b|];
  }

  // ---------------------------------------------------------------------------
  // The recurrence is the minimum over scripts
  // ---------------------------------------------------------------------------

  /** No script is cheaper than the distance. */
  lemma {:induction false} DistanceIsLowerBound<T>(script: seq<Edit<T>>, a: seq<T>, b: seq<T>)
    requires Rewrites(script, a, b)
    ensures Distance(a, b) <= Cost(script)
    decreases |script|
  {
    if script != [] {
      var rest := script[..|script| - 1];
      match script[|script| - 1]
      case Keep =>
        DistanceIsLowerBound(rest, Init(a), Init(b));
      case Delete =>
        DistanceIsLowerBound(rest, Init(a), b);
      case Insert(_) =>
        DistanceIsLowerBound(rest, a, Init(b));
      case Change(_) =>
        DistanceIsLowerBound(rest, Init(a), Init(b));
    }
  }

  /** Some script costs exactly the distance. */
  lemma {:induction false} DistanceIsAttained<T>(a: seq<T>, b: seq<T>) returns (script: seq<Edit<T>>)
    ensures Rewrites(script, a, b) && Cost(script) == Distance(a, b)
    decreases |a| + |b|
  {
    var rest, e;
    if a == [] && b == [] {
      return [];
    } else if b == [] || (a != [] && Distance(a, b) == Distance(Init(a), b) + 1) {
      rest := DistanceIsAttained(Init(a), b);
      e := Delete;
    } else if a == [] || Distance(a, b) == Distance(a, Init(b)) + 1 {
      rest := DistanceIsAttained(a, Init(b));
      e := Insert(Last(b));
    } else {
      rest := DistanceIsAttained(Init(a), Init(b));
      e := if Last(a) == Last(b) then Keep else Change(Last(b));
    }
    script := rest + [e];
    assert script[..|script| - 1] == rest;
  }

  // ---------------------------------------------------------------------------
  // It is a metric, and it is bounded by the lengths
  // ---------------------------------------------------------------------------

  lemma {:induction false} DistanceIsSymmetric<T>(a: seq<T>, b: seq<T>)
    ensures Distance(a, b) == Distance(b, a)
    decreases |a| + |b|
  {
    if a != [] && b != [] {
      DistanceIsSymmetric(Init(a), b);
      DistanceIsSymmetric(a, Init(b));
      DistanceIsSymmetric(Init(a), Init(b));
    }
  }

  lemma {:induction false} DistanceIsBoundedByLengths<T>(a: seq<T>, b: seq<T>)
    ensures |a| - |b| <= Distance(a, b) && |b| - |a| <= Distance(a, b)
    ensures Distance(a, b) <= Max(|a|, |b|)
    decreases |a| + |b|
  {
    if a != [] && b != [] {
      DistanceIsBoundedByLengths(Init(a), b);
      DistanceIsBoundedByLengths(a, Init(b));
      DistanceIsBoundedByLengths(Init(a), Init(b));
    }
  }

  lemma {:induction false} DistanceSeparates<T>(a: seq<T>, b: seq<T>)
    ensures Distance(a, b) == 0 <==> a == b
    decreases |a| + |b|
  {
    if a != [] && b != [] {
      DistanceSeparates(Init(a), Init(b));
      assert a == Init(a) + [Last(a)] && b == Init(b) + [Last(b)];
    }
  }

  lemma {:induction false} TriangleInequality<T>(a: seq<T>, b: seq<T>, c: seq<T>)
    ensures Distance(a, c) <= Distance(a, b) + Distance(b, c)
    decreases |a| + |b| + |c|
  {
    if a == [] || b == [] || c == [] {
      DistanceIsBoundedByLengths(a, b);
      DistanceIsBoundedByLengths(b, c);
      DistanceIsBoundedByLengths(a, c);
    } else {
      TriangleInequality(Init(a), b, c);
      TriangleInequality(a, b, Init(c));
      TriangleInequality(a, Init(b), c);
      TriangleInequality(Init(a), Init(b), c);
      TriangleInequality(Init(a), Init(b), Init(c));
      TriangleInequality(a, Init(b), Init(c));
    }
  }

  // ---------------------------------------------------------------------------
  // The similarity score
  // ---------------------------------------------------------------------------

  /** One minus the distance over the longer length; real arithmetic, so the
      rounding of a 64-bit float is not part of it. */
  function Score(distance: nat, longest: nat): real
    requires longest > 0
  {
    1.0 - distance as real / longest as real
  }

  /** The score is linear in the distance: of `longest` steps, those not taken. */
  predicate IsScore(score: real, distance: int, longest: int) {
    && score * longest as real == (longest - distance) as real
    && 0.0 <= score <= 1.0 && (score == 1.0 <==> distance == 0) && (score == 0.0 <==> distance == longest > 0)
  }

  method SimilarityOf<T(==)>(a: seq<T>, b: seq<T>) returns (score: real)
    ensures IsScore(score, Distance(a, b), Max(|a|, |b|))
    ensures score == 1.0 <==> a == b
  {
    DistanceSeparates(a, b);
    DistanceIsBoundedByLengths(a, b);
    if a == [] && b == [] {
      EmptyScore();
      return 1.0;
    }
    var longest := Max(|a|, |b|);
    var distance := Levenshtein(a, b);
    ScoreIsScore(distance, longest);
    score := Score(distance, longest);
  }

  lemma EmptyScore()
    ensures IsScore(1.0, 0, 0)
  {
  }

  lemma ScoreIsScore(d: nat, n: nat)
    requires n > 0 && d <= n
    ensures IsScore(Score(d, n), d, n)
  {
    ScoreIsLinear(d, n);
    ScoreBounds(Score(d, n), d, n);
  }

  lemma ScoreIsLinear(d: nat, n: nat)
    requires n > 0
    ensures Score(d, n) * n as real == (n - d) as real
  {
    var x, y := d as real, n as real;
    Quotient(x, y);
    Distribute(x / y, y);
  }

  lemma Quotient(x: real, y: real)
    requires y != 0.0
    ensures (x / y) * y == x
  {
  }

  lemma Distribute(q: real, y: real)
    ensures (1.0 - q) * y == y - q * y
  {
  }

  /** A score that is linear in the distance lies between its ends, and meets them
      only there. */
  lemma ScoreBounds(score: real, d: nat, n: nat)
    requires n > 0 && d <= n && score * n as real == (n - d) as real
    ensures 0.0 <= score <= 1.0
    ensures score == 1.0 <==> d == 0
    ensures score == 0.0 <==> d == n
  {
    var y := n as real;
    Sign(score, y);
    Sign(1.0 - score, y);
    Distribute(score, y);
  }

  /** A factor has the sign of its product with a positive number. */
  lemma Sign(x: real, y: real)
    requires y > 0.0
    ensures x * y >= 0.0 <==> x >= 0.0
    ensures x * y == 0.0 <==> x == 0.0
  {
    if x > 0.0 {
      assert x * y > 0.0;
    } else if x < 0.0 {
      assert x * y < 0.0;
    }
  }
}
