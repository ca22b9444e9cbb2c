/** Unity's `Matrix4x4` as an immutable value: four rows of four scalar
    entries. Scalars are modelled as reals; the model relies only on matrix
    equality and on the flat 16-entry indexer used when a matrix is written. */
module Matrix4 {

  predicate IsMatrix(rows: seq<seq<real>>)
  {
    |rows| == 4 && forall r | 0 <= r < 4 :: |rows[r]| == 4
  }

  type Matrix = rows: seq<seq<real>> | IsMatrix(rows)
    witness [[0.0, 0.0, 0.0, 0.0], [0.0, 0.0, 0.0, 0.0], [0.0, 0.0, 0.0, 0.0], [0.0, 0.0, 0.0, 0.0]]

  const Zero: Matrix := [[0.0, 0.0, 0.0, 0.0], [0.0, 0.0, 0.0, 0.0], [0.0, 0.0, 0.0, 0.0], [0.0, 0.0, 0.0, 0.0]]
  const Identity: Matrix := [[1.0, 0.0, 0.0, 0.0], [0.0, 1.0, 0.0, 0.0], [0.0, 0.0, 1.0, 0.0], [0.0, 0.0, 0.0, 1.0]]

  /** `Enumerable.Range(0, 16).Select(i => m[i])`: Unity's indexer walks the
      matrix column by column, so entry (row r, column c) lands at 4c + r. */
  function MatrixToArray(m: Matrix): (a: seq<real>)
    ensures |a| == 16
    ensures forall r, c | 0 <= r < 4 && 0 <= c < 4 :: a[4 * c + r] == m[r][c]
  {
    seq(16, i requires 0 <= i < 16 => m[i % 4][i / 4])
  }

  /** The inverse reading: rebuild a matrix from 16 column-major values. */
  function ArrayToMatrix(a: seq<real>): (m: Matrix)
    requires |a| == 16
    ensures forall r, c | 0 <= r < 4 && 0 <= c < 4 :: m[r][c] == a[4 * c + r]
  {
    seq(4, r requires 0 <= r < 4 => seq(4, c requires 0 <= c < 4 => a[4 * c + r]))
  }

  /** Writing a matrix out as 16 values loses nothing. */
  lemma ArrayRoundTrip(m: Matrix)
    ensures ArrayToMatrix(MatrixToArray(m)) == m
  {
    var m' := ArrayToMatrix(MatrixToArray(m));
    forall r | 0 <= r < 4
      ensures m'[r] == m[r]
    {
      assert forall c | 0 <= c < 4 :: m'[r][c] == m[r][c];
    }
  }

  /** Every 16-value array is the flattening of exactly one matrix. */
  lemma MatrixRoundTrip(a: seq<real>)
    requires |a| == 16
    ensures MatrixToArray(ArrayToMatrix(a)) == a
  {
    var a' := MatrixToArray(ArrayToMatrix(a));
    forall i | 0 <= i < 16
      ensures a'[i] == a[i]
    {
      assert i == 4 * (i / 4) + i % 4;
    }
  }

  /** Two matrices are equal exactly when their flattenings are. */
  lemma ArrayInjective(m1: Matrix, m2: Matrix)
    ensures MatrixToArray(m1) == MatrixToArray(m2) <==> m1 == m2
  {
    if MatrixToArray(m1) == MatrixToArray(m2) {
      ArrayRoundTrip(m1);
      ArrayRoundTrip(m2);
    }
  }
}
