/** The matrix helpers the key generator and the verifier call:
    `zero_matrix` and `matrix_multiply`. Their bodies are not part of this
    model; the methods below realise the contracts the callers rely on.
    A matrix is an `array2` of bytes, row-major, whose dimensions are fixed
    at allocation. */
module LinAlg {
  import opened Field

  /** Σ_{t < k} A[i,t] · B[t,j], over the integers (no reduction). */
  function Dot(A: array2<byte>, B: array2<byte>, i: nat, j: nat, k: nat): int
    reads A, B
    requires i < A.Length0 && k <= A.Length1 && A.Length1 == B.Length0 && j < B.Length1
  {
    if k == 0 then 0 else Dot(A, B, i, j, k - 1) + A[i, k - 1] * B[k - 1, j]
  }

  /** `zero_matrix(rows, cols, a)`: every entry becomes 0. */
  method ZeroMatrix(a: array2<byte>)
    modifies a
    ensures forall i, j :: 0 <= i < a.Length0 && 0 <= j < a.Length1 ==> a[i, j] == 0
  {
    var i := 0;
    while i < a.Length0
      invariant 0 <= i <= a.Length0
      invariant forall r, c :: 0 <= r < i && 0 <= c < a.Length1 ==> a[r, c] == 0
    {
      var j := 0;
      while j < a.Length1
        invariant 0 <= j <= a.Length1
        invariant forall r, c :: 0 <= r < i && 0 <= c < a.Length1 ==> a[r, c] == 0
        invariant forall c :: 0 <= c < j ==> a[i, c] == 0
      {
        a[i, j] := 0;
        j := j + 1;
      }
      i := i + 1;
    }
  }

  /** `matrix_multiply(a, b, c, A, B, C)`: C = A·B with every entry reduced
      mod Q; the sum is accumulated without overflow before the reduction.
      The dimensions must agree. */
  method MatrixMultiply(A: array2<byte>, B: array2<byte>, C: array2<byte>)
    requires A.Length1 == B.Length0 && C.Length0 == A.Length0 && C.Length1 == B.Length1
    requires C != A && C != B
    modifies C
    ensures forall i, j :: 0 <= i < C.Length0 && 0 <= j < C.Length1 ==>
      C[i, j] == Dot(A, B, i, j, A.Length1) % Q
  {
    var i := 0;
    while i < C.Length0
      invariant 0 <= i <= C.Length0
      invariant forall r, c :: 0 <= r < i && 0 <= c < C.Length1 ==> C[r, c] == Dot(A, B, r, c, A.Length1) % Q
    {
      var j := 0;
      while j < C.Length1
        invariant 0 <= j <= C.Length1
        invariant forall r, c :: 0 <= r < i && 0 <= c < C.Length1 ==> C[r, c] == Dot(A, B, r, c, A.Length1) % Q
        invariant forall c :: 0 <= c < j ==> C[i, c] == Dot(A, B, i, c, A.Length1) % Q
      {
        var sum := 0;
        var k := 0;
        while k < A.Length1
          invariant 0 <= k <= A.Length1
          invariant sum == Dot(A, B, i, j, k)
        {
          sum := sum + A[i, k] * B[k, j];
          k := k + 1;
        }
        C[i, j] := sum % Q;
        j := j + 1;
      }
      i := i + 1;
    }
  }
}
