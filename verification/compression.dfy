/** `CompressLine`: `Distinct` over a line's points under `PointComparer`,
    which compares points by matrix only. The first point carrying each
    matrix survives, with its own time; later repeats are dropped wherever
    they occur, so the result is not all-or-nothing. */
module Compression {
  import opened Matrix4
  import opened Timeline

  function MatrixSet(ps: seq<Point>): set<Matrix>
  {
    set p | p in ps :: p.matrix
  }

  /** The matrices of the first `k` points. */
  function SeenBefore(ps: seq<Point>, k: int): set<Matrix>
    requires 0 <= k <= |ps|
  {
    set j | 0 <= j < k :: ps[j].matrix
  }

  /** No two points carry equal matrices. */
  predicate DistinctMatrices(ps: seq<Point>)
  {
    forall i, j | 0 <= i < j < |ps| :: ps[i].matrix != ps[j].matrix
  }

  /** `ps[i]` is equal under `PointComparer` to no earlier point. */
  predicate IsFirst(ps: seq<Point>, i: int)
    requires 0 <= i < |ps|
  {
    forall j | 0 <= j < i :: ps[j].matrix != ps[i].matrix
  }

  /** Point `k` if it is a first occurrence, nothing otherwise. */
  function Kept(ps: seq<Point>, k: int): seq<Point>
    requires 0 <= k < |ps|
  {
    if IsFirst(ps, k) then [ps[k]] else []
  }

  /** Reference definition: the first occurrences among `ps[..n]`, in input order. */
  function FirstOccurrences(ps: seq<Point>, n: int): seq<Point>
    requires 0 <= n <= |ps|
  {
    if n == 0 then [] else FirstOccurrences(ps, n - 1) + Kept(ps, n - 1)
  }

  /** LINQ's `Distinct` as it runs: a single pass from position `k` that
      yields a point when its matrix is not yet in the set of matrices
      already yielded, and adds it to that set. */
  function DistinctFrom(ps: seq<Point>, k: int, seen: set<Matrix>): seq<Point>
    requires 0 <= k <= |ps|
    decreases |ps| - k
  {
    if k == |ps| then []
    else if ps[k].matrix in seen then DistinctFrom(ps, k + 1, seen)
    else [ps[k]] + DistinctFrom(ps, k + 1, seen + {ps[k].matrix})
  }

  /** The pass yields only points of the rest of the input whose matrices
      were not seen, and no two with one matrix. */
  lemma {:induction false} DistinctFromDrawn(ps: seq<Point>, k: int, seen: set<Matrix>)
    requires 0 <= k <= |ps|
    ensures |DistinctFrom(ps, k, seen)| <= |ps| - k
    ensures forall i | 0 <= i < |DistinctFrom(ps, k, seen)| ::
      DistinctFrom(ps, k, seen)[i] in ps[k..] && DistinctFrom(ps, k, seen)[i].matrix !in seen
    ensures DistinctMatrices(DistinctFrom(ps, k, seen))
    decreases |ps| - k
  {
    if k < |ps| {
      var m := ps[k].matrix;
      assert ps[k..] == [ps[k]] + ps[k + 1..];
      if m in seen {
        DistinctFromDrawn(ps, k + 1, seen);
      } else {
        var rest := DistinctFrom(ps, k + 1, seen + {m});
        DistinctFromDrawn(ps, k + 1, seen + {m});
        var r := [ps[k]] + rest;
        forall i | 0 <= i < |r|
          ensures r[i] in ps[k..] && r[i].matrix !in seen
        {
          if i > 0 {
            assert r[i] == rest[i - 1];
          }
        }
        forall i, j | 0 <= i < j < |r|
          ensures r[i].matrix != r[j].matrix
        {
          assert r[j] == rest[j - 1];
          if i > 0 {
            assert r[i] == rest[i - 1];
          }
        }
      }
    }
  }

  /** The pass misses no matrix of the rest of the input that was not seen. */
  lemma {:induction false} DistinctFromCovers(ps: seq<Point>, k: int, seen: set<Matrix>)
    requires 0 <= k <= |ps|
    ensures MatrixSet(ps[k..]) <= MatrixSet(DistinctFrom(ps, k, seen)) + seen
    decreases |ps| - k
  {
    if k < |ps| {
      var m := ps[k].matrix;
      assert ps[k..] == [ps[k]] + ps[k + 1..];
      assert MatrixSet(ps[k..]) == {m} + MatrixSet(ps[k + 1..]);
      if m in seen {
        DistinctFromCovers(ps, k + 1, seen);
      } else {
        var rest := DistinctFrom(ps, k + 1, seen + {m});
        DistinctFromCovers(ps, k + 1, seen + {m});
        assert MatrixSet([ps[k]] + rest) == {m} + MatrixSet(rest);
      }
    }
  }

  /** What the pass yields: points of the rest of the input, none already
      seen, no two with one matrix, missing no matrix of the rest. */
  lemma DistinctFromYields(ps: seq<Point>, k: int, seen: set<Matrix>)
    requires 0 <= k <= |ps|
    ensures |DistinctFrom(ps, k, seen)| <= |ps| - k
    ensures forall i | 0 <= i < |DistinctFrom(ps, k, seen)| ::
      DistinctFrom(ps, k, seen)[i] in ps[k..] && DistinctFrom(ps, k, seen)[i].matrix !in seen
    ensures DistinctMatrices(DistinctFrom(ps, k, seen))
    ensures MatrixSet(ps[k..]) <= MatrixSet(DistinctFrom(ps, k, seen)) + seen
  {
    DistinctFromDrawn(ps, k, seen);
    DistinctFromCovers(ps, k, seen);
  }

  lemma SeenBeforeStep(ps: seq<Point>, k: int)
    requires 0 <= k < |ps|
    ensures SeenBefore(ps, k + 1) == SeenBefore(ps, k) + {ps[k].matrix}
    ensures IsFirst(ps, k) <==> ps[k].matrix !in SeenBefore(ps, k)
  {
    assert ps[k].matrix in SeenBefore(ps, k + 1);
    forall m | m in SeenBefore(ps, k + 1)
      ensures m in SeenBefore(ps, k) + {ps[k].matrix}
    {
      var j :| 0 <= j < k + 1 && ps[j].matrix == m;
      if j < k {
        assert m in SeenBefore(ps, k);
      }
    }
    assert SeenBefore(ps, k + 1) == SeenBefore(ps, k) + {ps[k].matrix};
    if ps[k].matrix in SeenBefore(ps, k) {
      var j :| 0 <= j < k && ps[j].matrix == ps[k].matrix;
    }
  }

  /** One step of the pass: point `k` is yielded exactly when it is a first
      occurrence, and the pass continues with its matrix seen. */
  lemma DistinctFromStep(ps: seq<Point>, k: int)
    requires 0 <= k < |ps|
    ensures DistinctFrom(ps, k, SeenBefore(ps, k)) == Kept(ps, k) + DistinctFrom(ps, k + 1, SeenBefore(ps, k + 1))
  {
    SeenBeforeStep(ps, k);
    if IsFirst(ps, k) {
      assert Kept(ps, k) == [ps[k]];
    } else {
      assert SeenBefore(ps, k + 1) == SeenBefore(ps, k);
      assert Kept(ps, k) == [];
    }
  }

  /** The single pass, started after the first `k` points with their matrices
      already seen, yields exactly the remaining first occurrences. */
  lemma {:induction false} DistinctFromSuffix(ps: seq<Point>, k: int)
    requires 0 <= k <= |ps|
    ensures FirstOccurrences(ps, |ps|) == FirstOccurrences(ps, k) + DistinctFrom(ps, k, SeenBefore(ps, k))
    decreases |ps| - k
  {
    if k < |ps| {
      var done, kept, rest := FirstOccurrences(ps, k), Kept(ps, k), DistinctFrom(ps, k + 1, SeenBefore(ps, k + 1));
      DistinctFromSuffix(ps, k + 1);
      DistinctFromStep(ps, k);
      assert FirstOccurrences(ps, k + 1) == done + kept;
      assert FirstOccurrences(ps, |ps|) == (done + kept) + rest;
      assert DistinctFrom(ps, k, SeenBefore(ps, k)) == kept + rest;
      assert (done + kept) + rest == done + (kept + rest);
    }
  }

  /** `line.points.Distinct(new PointComparer())`. */
  function Distinct(ps: seq<Point>): (r: seq<Point>)
    ensures r == FirstOccurrences(ps, |ps|)
  {
    DistinctFromSuffix(ps, 0);
    assert SeenBefore(ps, 0) == {};
    DistinctFrom(ps, 0, {})
  }

  /** The first occurrences carry the same matrices as the input. */
  lemma {:induction false} FirstOccurrencesMatrixSet(ps: seq<Point>, n: int)
    requires 0 <= n <= |ps|
    ensures MatrixSet(FirstOccurrences(ps, n)) == SeenBefore(ps, n)
    decreases n
  {
    if n > 0 {
      var r := FirstOccurrences(ps, n - 1);
      FirstOccurrencesMatrixSet(ps, n - 1);
      SeenBeforeStep(ps, n - 1);
      assert FirstOccurrences(ps, n) == r + Kept(ps, n - 1);
      MatrixSetAppend(r, Kept(ps, n - 1));
      if IsFirst(ps, n - 1) {
        assert MatrixSet(Kept(ps, n - 1)) == {ps[n - 1].matrix};
      } else {
        assert MatrixSet(Kept(ps, n - 1)) == {};
      }
    }
  }

  lemma MatrixSetAppend(xs: seq<Point>, ys: seq<Point>)
    ensures MatrixSet(xs + ys) == MatrixSet(xs) + MatrixSet(ys)
  {
    assert forall q | q in xs + ys :: q in xs || q in ys;
  }

  lemma SeenBeforeAll(ps: seq<Point>)
    ensures SeenBefore(ps, |ps|) == MatrixSet(ps)
  {
    forall m | m in MatrixSet(ps)
      ensures m in SeenBefore(ps, |ps|)
    {
      var p :| p in ps && p.matrix == m;
      var j :| 0 <= j < |ps| && ps[j] == p;
    }
  }

  /** No two first occurrences carry equal matrices. */
  lemma {:induction false} FirstOccurrencesDistinct(ps: seq<Point>, n: int)
    requires 0 <= n <= |ps|
    ensures DistinctMatrices(FirstOccurrences(ps, n))
    decreases n
  {
    if n > 0 {
      var r := FirstOccurrences(ps, n - 1);
      FirstOccurrencesDistinct(ps, n - 1);
      if IsFirst(ps, n - 1) {
        FirstOccurrencesMatrixSet(ps, n - 1);
        SeenBeforeStep(ps, n - 1);
        var r' := r + [ps[n - 1]];
        assert FirstOccurrences(ps, n) == r';
        forall i, j | 0 <= i < j < |r'|
          ensures r'[i].matrix != r'[j].matrix
        {
          if j == |r| {
            assert r[i] in r;
            assert r[i].matrix in MatrixSet(r);
          } else {
            assert r'[i] == r[i] && r'[j] == r[j];
          }
        }
      } else {
        assert FirstOccurrences(ps, n) == r;
      }
    }
  }

  /** Each kept point is the earliest point with its matrix, so it carries
      the time of that first occurrence. */
  lemma {:induction false} KeptAreFirsts(ps: seq<Point>, n: int)
    requires 0 <= n <= |ps|
    ensures forall k | 0 <= k < |FirstOccurrences(ps, n)| ::
      exists i | 0 <= i < n :: IsFirst(ps, i) && FirstOccurrences(ps, n)[k] == ps[i]
    decreases n
  {
    if n > 0 {
      KeptAreFirsts(ps, n - 1);
      var r := FirstOccurrences(ps, n - 1);
      var r' := r + Kept(ps, n - 1);
      assert FirstOccurrences(ps, n) == r';
      forall k | 0 <= k < |r'|
        ensures exists i | 0 <= i < n :: IsFirst(ps, i) && r'[k] == ps[i]
      {
        if k < |r| {
          assert r'[k] == r[k];
          var i :| 0 <= i < n - 1 && IsFirst(ps, i) && r[k] == ps[i];
          assert IsFirst(ps, i) && r'[k] == ps[i];
        } else {
          assert Kept(ps, n - 1) == [ps[n - 1]];
          assert IsFirst(ps, n - 1) && r'[k] == ps[n - 1];
        }
      }
      assert forall k | 0 <= k < |r'| :: exists i | 0 <= i < n :: IsFirst(ps, i) && r'[k] == ps[i];
      assert forall k | 0 <= k < |FirstOccurrences(ps, n)| :: FirstOccurrences(ps, n)[k] == r'[k];
    } else {
      assert FirstOccurrences(ps, 0) == [];
    }
  }

  /** Every earliest point is kept. */
  lemma {:induction false} FirstsAreKept(ps: seq<Point>, n: int)
    requires 0 <= n <= |ps|
    ensures forall i | 0 <= i < n && IsFirst(ps, i) :: ps[i] in FirstOccurrences(ps, n)
    decreases n
  {
    if n > 0 {
      FirstsAreKept(ps, n - 1);
      var r := FirstOccurrences(ps, n - 1);
      var r' := r + Kept(ps, n - 1);
      assert FirstOccurrences(ps, n) == r';
      forall i | 0 <= i < n && IsFirst(ps, i)
        ensures ps[i] in r'
      {
        if i < n - 1 {
          assert ps[i] in r;
        } else {
          assert r'[|r|] == ps[i];
        }
      }
    }
  }

  lemma {:induction false} FirstOccurrencesLength(ps: seq<Point>, n: int)
    requires 0 <= n <= |ps|
    ensures |FirstOccurrences(ps, n)| <= n
    decreases n
  {
    if n > 0 {
      FirstOccurrencesLength(ps, n - 1);
    }
  }

  /** `CompressLine`: same name, points deduplicated by matrix. */
  function CompressLine(line: Line): (r: Line)
    ensures r.name == line.name
    ensures DistinctMatrices(r.points)
    ensures MatrixSet(r.points) == MatrixSet(line.points)
    ensures |r.points| <= |line.points|
    ensures forall k | 0 <= k < |r.points| ::
      exists i | 0 <= i < |line.points| :: IsFirst(line.points, i) && r.points[k] == line.points[i]
    ensures forall i | 0 <= i < |line.points| && IsFirst(line.points, i) :: line.points[i] in r.points
    ensures r.points == FirstOccurrences(line.points, |line.points|)
  {
    var ps := line.points;
    FirstOccurrencesMatrixSet(ps, |ps|);
    SeenBeforeAll(ps);
    FirstOccurrencesDistinct(ps, |ps|);
    KeptAreFirsts(ps, |ps|);
    FirstsAreKept(ps, |ps|);
    FirstOccurrencesLength(ps, |ps|);
    Line(line.name, Distinct(ps))
  }

  /** On points with pairwise distinct matrices every point is a first occurrence. */
  lemma {:induction false} FirstOccurrencesOfDistinct(ps: seq<Point>, n: int)
    requires DistinctMatrices(ps)
    requires 0 <= n <= |ps|
    ensures FirstOccurrences(ps, n) == ps[..n]
    decreases n
  {
    if n > 0 {
      FirstOccurrencesOfDistinct(ps, n - 1);
      assert IsFirst(ps, n - 1);
      assert ps[..n] == ps[..n - 1] + [ps[n - 1]];
    }
  }

  /** Compressing twice is compressing once. */
  lemma CompressIdempotent(line: Line)
    ensures CompressLine(CompressLine(line)) == CompressLine(line)
  {
    var ps := CompressLine(line).points;
    FirstOccurrencesOfDistinct(ps, |ps|);
    assert ps[..|ps|] == ps;
  }

  /** A line that never changes its matrix collapses to its first point. */
  lemma {:induction false} StaticLineCollapses(line: Line)
    requires |line.points| > 0
    requires forall i | 0 <= i < |line.points| :: line.points[i].matrix == line.points[0].matrix
    ensures CompressLine(line) == Line(line.name, [line.points[0]])
  {
    StaticPrefixCollapses(line.points, |line.points|);
  }

  lemma {:induction false} StaticPrefixCollapses(ps: seq<Point>, n: int)
    requires 0 < n <= |ps|
    requires forall i | 0 <= i < |ps| :: ps[i].matrix == ps[0].matrix
    ensures FirstOccurrences(ps, n) == [ps[0]]
    decreases n
  {
    if n > 1 {
      StaticPrefixCollapses(ps, n - 1);
      assert !IsFirst(ps, n - 1);
    } else {
      assert FirstOccurrences(ps, 0) == [];
    }
  }

  /** A matrix that comes back later is dropped even though the line moves:
      `A, B, A` compresses to `A, B`. */
  lemma ReturningMatrixIsDropped(a: Point, b: Point, a': Point)
    requires a.matrix != b.matrix && a'.matrix == a.matrix
    ensures CompressLine(Line("bone", [a, b, a'])).points == [a, b]
  {
    var ps := [a, b, a'];
    assert ps[0].matrix == ps[2].matrix;
    assert IsFirst(ps, 0) && IsFirst(ps, 1) && !IsFirst(ps, 2);
    assert FirstOccurrences(ps, 1) == [a];
    assert FirstOccurrences(ps, 2) == [a, b];
  }
}
