/** Private-key structure generation of the key printer: the banded trapdoor
    matrix T, the triangular factors LM and UM, and B = LM·UM, all filled in
    place from one sampler session in a fixed draw order. */
module PrintSk {
  import opened Field
  import opened Sampler
  import opened LinAlg

  // ---------------------------------------------------------------------------
  // Draw bookkeeping

  /** Draws taken by rows 0..i-1 of T: row r takes r/2 of them. */
  function TDraws(i: nat): nat
  {
    if i == 0 then 0 else TDraws(i - 1) + (i - 1) / 2
  }

  /** Stream offset of the draw for T[i, j], j < i/2. */
  function TPos(i: nat, j: nat): nat
  {
    TDraws(i) + j
  }

  /** Draws taken by columns 0..c-1 of LM: column t takes its diagonal and
      the n-1-t entries below it. */
  function LOff(n: nat, c: nat): nat
    requires c <= n
  {
    if c == 0 then 0 else LOff(n, c - 1) + (n - (c - 1))
  }

  /** Stream offset of the draw for LM[r, c], c <= r: the diagonal first, then
      the rows below it in increasing order. */
  function LPos(n: nat, r: nat, c: nat): nat
    requires c <= r < n
  {
    LOff(n, c) + (r - c)
  }

  /** Draws taken by columns 0..c-1 of UM: column t takes its diagonal and the
      t entries above it. */
  function UOff(c: nat): nat
  {
    if c == 0 then 0 else UOff(c - 1) + c
  }

  /** Stream offset of the draw for UM[r, c], r <= c: the diagonal first, then
      rows 0..c-1. */
  function UPos(r: nat, c: nat): nat
    requires r <= c
  {
    UOff(c) + (if r == c then 0 else 1 + r)
  }

  /** Row i of T has its marker column inside the matrix. */
  predicate MarkerColumnInside(i: nat, n: nat)
  {
    i / 2 < n
  }

  // ---------------------------------------------------------------------------
  // Lemmas about the draw order

  /** The marker column i/2 lies inside the n allocated columns for every row
      of a (k·n)×n matrix exactly when k <= 2. */
  lemma MarkerColumnFits(k: nat, n: nat)
    requires n >= 1
    ensures (forall i :: 0 <= i < k * n ==> MarkerColumnInside(i, n)) <==> k <= 2
  {
    if k <= 2 {
      forall i | 0 <= i < k * n ensures MarkerColumnInside(i, n) {
        assert k * n <= 2 * n by { MulLeft(k, 2, n); }
      }
    } else {
      assert 3 * n <= k * n by { MulLeft(3, k, n); }
      assert !MarkerColumnInside(2 * n, n);
    }
  }

  lemma MulLeft(a: nat, b: nat, n: nat)
    requires a <= b
    ensures a * n <= b * n
  {
    assert b * n == a * n + (b - a) * n;
  }

  /** T consumes N(N-1) draws in all: Σ_{r < 2m} r/2 = m(m-1). */
  lemma {:induction false} TDrawsTotal(m: nat)
    ensures TDraws(2 * m) == m * (m - 1)
  {
    if m > 0 {
      TDrawsTotal(m - 1);
      assert TDraws(2 * m) == TDraws(2 * (m - 1)) + (2 * m - 2) / 2 + (2 * m - 1) / 2;
    }
  }

  lemma {:induction false} TDrawsMonotone(i: nat, i': nat)
    requires i <= i'
    ensures TDraws(i) <= TDraws(i')
  {
    if i < i' {
      TDrawsMonotone(i, i' - 1);
    }
  }

  /** T's draws are taken row by row, left to right: a cell earlier in
      row-major order has a strictly smaller stream offset, so no draw is used
      twice, and row i holds exactly the draws TDraws(i) .. TDraws(i+1)-1. */
  lemma TDrawOrder(i: nat, j: nat, i': nat, j': nat)
    requires j < i / 2 && j' < i' / 2
    requires i < i' || (i == i' && j < j')
    ensures TPos(i, j) < TPos(i', j')
    ensures TDraws(i) <= TPos(i, j) < TDraws(i + 1)
  {
    if i < i' {
      TDrawsMonotone(i + 1, i');
    }
  }

  lemma {:induction false} LOffStep(n: nat, c: nat, c': nat)
    requires c < c' <= n
    ensures LOff(n, c) + (n - c) <= LOff(n, c')
  {
    if c < c' - 1 {
      LOffStep(n, c, c' - 1);
    }
  }

  /** LM's draws are taken column by column, the diagonal first and then the
      rows below it top to bottom: an earlier cell has a strictly smaller
      offset, and all offsets lie below LOff(n, n). */
  lemma LDrawOrder(n: nat, r: nat, c: nat, r': nat, c': nat)
    requires c <= r < n && c' <= r' < n
    requires c < c' || (c == c' && r < r')
    ensures LPos(n, r, c) < LPos(n, r', c')
    ensures LPos(n, r', c') < LOff(n, n)
  {
    if c < c' {
      LOffStep(n, c, c');
    }
    LOffStep(n, c', n);
  }

  lemma {:induction false} UOffStep(c: nat, c': nat)
    requires c < c'
    ensures UOff(c) + c + 1 <= UOff(c')
  {
    if c < c' - 1 {
      UOffStep(c, c' - 1);
    }
  }

  /** UM's draws are taken column by column, the diagonal first and then rows
      0..c-1: an earlier cell has a strictly smaller offset, and all offsets
      of an n×n factor lie below UOff(n). */
  lemma UDrawOrder(n: nat, r: nat, c: nat, r': nat, c': nat)
    requires r <= c < n && r' <= c' < n
    requires c < c' || (c == c' && (if r == c then 0 else 1 + r) < (if r' == c' then 0 else 1 + r'))
    ensures UPos(r, c) < UPos(r', c')
    ensures UPos(r', c') < UOff(n)
  {
    if c < c' {
      UOffStep(c, c');
    }
    UOffStep(c', n);
  }

  /** Both factors consume n(n+1)/2 draws. */
  lemma {:induction false} FactorDrawsTotal(n: nat, c: nat)
    requires c <= n
    ensures 2 * LOff(n, c) == c * (2 * n - c + 1)
    ensures 2 * UOff(c) == c * (c + 1)
  {
    if c > 0 {
      FactorDrawsTotal(n, c - 1);
    }
  }

  // ---------------------------------------------------------------------------
  // The fills

  /** Lines 95-107: zero T, then for each row i draw T[i, 0..i/2) from
      NIST_rng(Q) left to right and stamp TUPPLE[i % K] at column i/2. */
  method FillT(rng: Rng, T: array2<byte>)
    requires T.Length0 == K * T.Length1
    modifies rng, T
    ensures rng.pos == old(rng.pos) + TDraws(T.Length0)
    ensures TFilled(T, rng.draw, old(rng.pos))
  {
    ghost var p0 := rng.pos;
    var n := T.Length1;
    ZeroMatrix(T);
    var i := 0;
    while i < K * n
      invariant 0 <= i <= K * n
      invariant rng.pos == p0 + TDraws(i)
      invariant forall r, c :: 0 <= r < K * n && 0 <= c < n ==>
        T[r, c] == (if r >= i || c > r / 2 then 0
                    else if c == r / 2 then TUPPLE[r % K]
                    else rng.draw(p0 + TPos(r, c), Q))
    {
      FillTRow(rng, T, i, p0);
      T[i, i / 2] := TUPPLE[i % K];
      i := i + 1;
    }
  }

  /** Lines 100-103: row i of T takes the next i/2 draws from NIST_rng(Q),
      left to right; nothing else changes. */
  method FillTRow(rng: Rng, T: array2<byte>, i: nat, ghost p0: nat)
    requires i < T.Length0 && i / 2 < T.Length1
    requires rng.pos == p0 + TDraws(i)
    modifies rng, T
    ensures rng.pos == p0 + TDraws(i + 1)
    ensures forall c :: 0 <= c < i / 2 ==> T[i, c] == rng.draw(p0 + TPos(i, c), Q)
    ensures forall r, c :: 0 <= r < T.Length0 && 0 <= c < T.Length1 && (r != i || c >= i / 2) ==>
      T[r, c] == old(T[r, c])
  {
    var j := 0;
    while j < i / 2
      invariant 0 <= j <= i / 2
      invariant rng.pos == p0 + TDraws(i) + j
      invariant forall c :: 0 <= c < j ==> T[i, c] == rng.draw(p0 + TPos(i, c), Q)
      invariant forall r, c :: 0 <= r < T.Length0 && 0 <= c < T.Length1 && (r != i || c >= j) ==>
        T[r, c] == old(T[r, c])
    {
      var d := rng.Next(Q);
      T[i, j] := d;
      j := j + 1;
    }
  }

  /** Lines 109-119: zero LM, then for each column i draw the diagonal as
      1 + NIST_rng(Q-1) and the entries of rows i+1..N-1 from NIST_rng(Q). */
  method FillLower(rng: Rng, LM: array2<byte>)
    requires LM.Length0 == LM.Length1
    modifies rng, LM
    ensures rng.pos == old(rng.pos) + LOff(LM.Length0, LM.Length0)
    ensures LFilled(LM, rng.draw, old(rng.pos))
  {
    ghost var p0 := rng.pos;
    var n := LM.Length0;
    ZeroMatrix(LM);
    var i := 0;
    while i < n
      invariant 0 <= i <= n
      invariant rng.pos == p0 + LOff(n, i)
      invariant forall r, c :: 0 <= r < n && 0 <= c < n ==>
        LM[r, c] == (if r < c || c >= i then 0
                     else if r == c then 1 + rng.draw(p0 + LPos(n, r, c), Q - 1)
                     else rng.draw(p0 + LPos(n, r, c), Q))
    {
      FillLowerColumn(rng, LM, i, p0);
      i := i + 1;
    }
  }

  /** Lines 113-118: column i of LM takes its diagonal 1 + NIST_rng(Q-1) and
      then rows i+1..N-1 from NIST_rng(Q); nothing else changes. */
  method FillLowerColumn(rng: Rng, LM: array2<byte>, i: nat, ghost p0: nat)
    requires LM.Length0 == LM.Length1 && i < LM.Length0
    requires rng.pos == p0 + LOff(LM.Length0, i)
    modifies rng, LM
    ensures rng.pos == p0 + LOff(LM.Length0, i + 1)
    ensures forall r :: i <= r < LM.Length0 ==>
      LM[r, i] == (if r == i then 1 + rng.draw(p0 + LPos(LM.Length0, r, i), Q - 1)
                   else rng.draw(p0 + LPos(LM.Length0, r, i), Q))
    ensures forall r, c :: 0 <= r < LM.Length0 && 0 <= c < LM.Length0 && (c != i || r < i) ==>
      LM[r, c] == old(LM[r, c])
  {
    var n := LM.Length0;
    var d := rng.Next(Q - 1);
    LM[i, i] := 1 + d;
    var j := i + 1;
    while j < n
      invariant i + 1 <= j <= n
      invariant rng.pos == p0 + LOff(n, i) + (j - i)
      invariant forall r :: i <= r < j ==>
        LM[r, i] == (if r == i then 1 + rng.draw(p0 + LPos(n, r, i), Q - 1)
                     else rng.draw(p0 + LPos(n, r, i), Q))
      invariant forall r, c :: 0 <= r < n && 0 <= c < n && (c != i || r < i || r >= j) ==>
        LM[r, c] == old(LM[r, c])
    {
      d := rng.Next(Q);
      LM[j, i] := d;
      j := j + 1;
    }
  }

  /** Lines 125-130: column i of UM takes its diagonal 1 + NIST_rng(Q-1) and
      then rows 0..i-1 from NIST_rng(Q); nothing else changes. */
  method FillUpperColumn(rng: Rng, UM: array2<byte>, i: nat, ghost p0: nat)
    requires UM.Length0 == UM.Length1 && i < UM.Length0
    requires rng.pos == p0 + UOff(i)
    modifies rng, UM
    ensures rng.pos == p0 + UOff(i + 1)
    ensures forall r :: 0 <= r <= i ==>
      UM[r, i] == (if r == i then 1 + rng.draw(p0 + UPos(r, i), Q - 1)
                   else rng.draw(p0 + UPos(r, i), Q))
    ensures forall r, c :: 0 <= r < UM.Length0 && 0 <= c < UM.Length0 && (c != i || r > i) ==>
      UM[r, c] == old(UM[r, c])
  {
    var n := UM.Length0;
    var d := rng.Next(Q - 1);
    UM[i, i] := 1 + d;
    var j := 0;
    while j < i
      invariant 0 <= j <= i
      invariant rng.pos == p0 + UOff(i) + 1 + j
      invariant forall r :: (r == i || 0 <= r < j) ==>
        UM[r, i] == (if r == i then 1 + rng.draw(p0 + UPos(r, i), Q - 1)
                     else rng.draw(p0 + UPos(r, i), Q))
      invariant forall r, c :: 0 <= r < n && 0 <= c < n && (c != i || r > i || j <= r < i) ==>
        UM[r, c] == old(UM[r, c])
    {
      d := rng.Next(Q);
      UM[j, i] := d;
      j := j + 1;
    }
  }

  /** Lines 121-131: zero UM, then for each column i draw the diagonal as
      1 + NIST_rng(Q-1) and the entries of rows 0..i-1 from NIST_rng(Q). */
  method FillUpper(rng: Rng, UM: array2<byte>)
    requires UM.Length0 == UM.Length1
    modifies rng, UM
    ensures rng.pos == old(rng.pos) + UOff(UM.Length0)
    ensures UFilled(UM, rng.draw, old(rng.pos))
  {
    ghost var p0 := rng.pos;
    var n := UM.Length0;
    ZeroMatrix(UM);
    var i := 0;
    while i < n
      invariant 0 <= i <= n
      invariant rng.pos == p0 + UOff(i)
      invariant forall r, c :: 0 <= r < n && 0 <= c < n ==>
        UM[r, c] == (if r > c || c >= i then 0
                     else if r == c then 1 + rng.draw(p0 + UPos(r, c), Q - 1)
                     else rng.draw(p0 + UPos(r, c), Q))
    {
      FillUpperColumn(rng, UM, i, p0);
      i := i + 1;
    }
  }

  // ---------------------------------------------------------------------------
  // The whole generation

  /** With LM lower- and UM upper-triangular, only the terms k <= min(r, c) of
      the product contribute. */
  lemma {:induction false} DotTriangular(LM: array2<byte>, UM: array2<byte>, r: nat, c: nat, k: nat)
    requires LM.Length0 == LM.Length1 == UM.Length0 == UM.Length1
    requires r < LM.Length0 && c < LM.Length0
    requires (if r < c then r else c) < k <= LM.Length0
    requires forall i, j :: 0 <= i < LM.Length0 && 0 <= j < LM.Length0 && i < j ==> LM[i, j] == 0
    requires forall i, j :: 0 <= i < LM.Length0 && 0 <= j < LM.Length0 && i > j ==> UM[i, j] == 0
    ensures Dot(LM, UM, r, c, k) == Dot(LM, UM, r, c, (if r < c then r else c) + 1)
  {
    if k > (if r < c then r else c) + 1 {
      DotTriangular(LM, UM, r, c, k - 1);
      assert LM[r, k - 1] == 0 || UM[k - 1, c] == 0;
    }
  }

  /** The band structure of T: field elements, the marker TUPPLE[i % K] at
      column i/2 of row i and zeros to its right. */
  predicate Banded(T: array2<byte>)
    reads T
  {
    forall i, j :: 0 <= i < T.Length0 && 0 <= j < T.Length1 ==>
      IsFieldElement(T[i, j]) && (j > i / 2 ==> T[i, j] == 0) && (j == i / 2 ==> T[i, j] == TUPPLE[i % K])
  }

  /** A square lower-triangular matrix of field elements whose diagonal
      avoids 0, so it is invertible mod Q. */
  predicate LowerFactor(LM: array2<byte>)
    reads LM
  {
    LM.Length0 == LM.Length1 &&
    forall r, c :: 0 <= r < LM.Length0 && 0 <= c < LM.Length1 ==>
      IsFieldElement(LM[r, c]) && (r < c ==> LM[r, c] == 0) && (r == c ==> 1 <= LM[r, c] <= Q - 1)
  }

  /** The upper-triangular counterpart of LowerFactor. */
  predicate UpperFactor(UM: array2<byte>)
    reads UM
  {
    UM.Length0 == UM.Length1 &&
    forall r, c :: 0 <= r < UM.Length0 && 0 <= c < UM.Length1 ==>
      IsFieldElement(UM[r, c]) && (r > c ==> UM[r, c] == 0) && (r == c ==> 1 <= UM[r, c] <= Q - 1)
  }

  /** T as lines 95-107 leave it, with the draws of NIST_rng(Q) taken from
      stream position p0 on: zeros right of column i/2, the marker
      TUPPLE[i % K] at column i/2, and the draw at TPos(i, j) left of it. */
  predicate TFilled(T: array2<byte>, draw: DrawSource, p0: nat)
    reads T
  {
    T.Length0 == K * T.Length1 &&
    forall i, j :: 0 <= i < T.Length0 && 0 <= j < T.Length1 ==>
      T[i, j] == (if j > i / 2 then 0
                  else if j == i / 2 then TUPPLE[i % K]
                  else draw(p0 + TPos(i, j), Q))
  }

  /** LM as lines 109-119 leave it: zeros above the diagonal, 1 + NIST_rng(Q-1)
      on it and NIST_rng(Q) below it, each at its column-major position. */
  predicate LFilled(LM: array2<byte>, draw: DrawSource, p0: nat)
    reads LM
  {
    LM.Length0 == LM.Length1 &&
    forall r, c :: 0 <= r < LM.Length0 && 0 <= c < LM.Length0 ==>
      LM[r, c] == (if r < c then 0
                   else if r == c then 1 + draw(p0 + LPos(LM.Length0, r, c), Q - 1)
                   else draw(p0 + LPos(LM.Length0, r, c), Q))
  }

  /** UM as lines 121-131 leave it: zeros below the diagonal, 1 + NIST_rng(Q-1)
      on it and NIST_rng(Q) above it, each at its column-major position. */
  predicate UFilled(UM: array2<byte>, draw: DrawSource, p0: nat)
    reads UM
  {
    UM.Length0 == UM.Length1 &&
    forall r, c :: 0 <= r < UM.Length0 && 0 <= c < UM.Length0 ==>
      UM[r, c] == (if r > c then 0
                   else if r == c then 1 + draw(p0 + UPos(r, c), Q - 1)
                   else draw(p0 + UPos(r, c), Q))
  }

  /** The fill of lines 97-107 produces the band: random entries are field
      elements because every draw is below its bound Q. */
  lemma TFillIsBanded(T: array2<byte>, draw: DrawSource, p0: nat)
    requires TFilled(T, draw, p0)
    ensures Banded(T)
  {
    ParametersSane();
  }

  /** The fill of lines 109-119 produces a lower factor: the diagonal
      1 + NIST_rng(Q-1) lies in [1, Q-1]. */
  lemma LFillIsFactor(LM: array2<byte>, draw: DrawSource, p0: nat)
    requires LFilled(LM, draw, p0)
    ensures LowerFactor(LM)
  {
  }

  /** The fill of lines 121-131 produces an upper factor. */
  lemma UFillIsFactor(UM: array2<byte>, draw: DrawSource, p0: nat)
    requires UFilled(UM, draw, p0)
    ensures UpperFactor(UM)
  {
  }

  /** T, LM and UM as lines 95-131 leave them when the sampler stands at p0:
      T takes the first TDraws(K·N) draws, LM the next LOff(N, N), UM the
      rest. */
  predicate KeyLayout(T: array2<byte>, LM: array2<byte>, UM: array2<byte>, draw: DrawSource, p0: nat)
    reads T, LM, UM
  {
    TFilled(T, draw, p0) &&
    LFilled(LM, draw, p0 + TDraws(T.Length0)) &&
    UFilled(UM, draw, p0 + TDraws(T.Length0) + LOff(LM.Length0, LM.Length0))
  }

  /** The three fills, each from where the previous one left the sampler,
      make up the key layout. */
  lemma LayoutFromParts(T: array2<byte>, LM: array2<byte>, UM: array2<byte>, draw: DrawSource, p0: nat, p1: nat, p2: nat)
    requires TFilled(T, draw, p0) && LFilled(LM, draw, p1) && UFilled(UM, draw, p2)
    requires p1 == p0 + TDraws(T.Length0) && p2 == p1 + LOff(LM.Length0, LM.Length0)
    ensures KeyLayout(T, LM, UM, draw, p0)
  {
  }

  /** Lines 94-134 of the key printer, after `generate_C`: T, then LM, then UM
      from one sampler session, then B = LM·UM reduced mod Q. Every entry is a
      function of the draw stream and the starting position alone, so the same
      stream yields the same matrices. */
  method GenerateSk(rng: Rng, n: nat) returns (T: array2<byte>, LM: array2<byte>, UM: array2<byte>, B: array2<byte>)
    modifies rng
    ensures fresh(T) && fresh(LM) && fresh(UM) && fresh(B)
    ensures T.Length0 == K * n && T.Length1 == n
    ensures LM.Length0 == LM.Length1 == UM.Length0 == UM.Length1 == B.Length0 == B.Length1 == n
    ensures rng.pos == old(rng.pos) + TDraws(K * n) + LOff(n, n) + UOff(n)
    ensures KeyLayout(T, LM, UM, rng.draw, old(rng.pos))
    ensures TriangularProduct(LM, UM, B)
    ensures Banded(T) && LowerFactor(LM) && UpperFactor(UM)
  {
    T := new byte[K * n, n];
    FillT(rng, T);
    TFillIsBanded(T, rng.draw, old(rng.pos));
    ghost var p1 := rng.pos;
    LM, UM := GenerateFactors(rng, n);
    LayoutFromParts(T, LM, UM, rng.draw, old(rng.pos), p1, p1 + LOff(n, n));
    B := new byte[n, n];
    FactorProduct(LM, UM, B);
  }

  /** Lines 109-131: LM and then UM from the current sampler position. */
  method GenerateFactors(rng: Rng, n: nat) returns (LM: array2<byte>, UM: array2<byte>)
    modifies rng
    ensures fresh(LM) && fresh(UM)
    ensures LM.Length0 == LM.Length1 == UM.Length0 == UM.Length1 == n
    ensures rng.pos == old(rng.pos) + LOff(n, n) + UOff(n)
    ensures LFilled(LM, rng.draw, old(rng.pos))
    ensures UFilled(UM, rng.draw, old(rng.pos) + LOff(n, n))
    ensures LowerFactor(LM) && UpperFactor(UM)
  {
    LM := new byte[n, n];
    UM := new byte[n, n];
    ghost var p0 := rng.pos;
    FillLower(rng, LM);
    LFillIsFactor(LM, rng.draw, p0);
    ghost var p1 := rng.pos;
    assert p1 == p0 + LOff(n, n);
    FillUpper(rng, UM);
    UFillIsFactor(UM, rng.draw, p1);
  }

  /** B is LM·UM reduced mod Q, and for triangular factors only the terms
      k <= min(r, c) of each sum contribute. */
  predicate TriangularProduct(LM: array2<byte>, UM: array2<byte>, B: array2<byte>)
    reads LM, UM, B
  {
    LM.Length0 == LM.Length1 == UM.Length0 == UM.Length1 == B.Length0 == B.Length1 &&
    forall r, c :: 0 <= r < B.Length0 && 0 <= c < B.Length0 ==>
      B[r, c] == Dot(LM, UM, r, c, B.Length0) % Q == Dot(LM, UM, r, c, (if r < c then r else c) + 1) % Q
  }

  /** Line 134: B = LM·UM mod Q. */
  method FactorProduct(LM: array2<byte>, UM: array2<byte>, B: array2<byte>)
    requires LowerFactor(LM) && UpperFactor(UM)
    requires LM.Length0 == UM.Length0 == B.Length0 == B.Length1
    requires B != LM && B != UM
    modifies B
    ensures TriangularProduct(LM, UM, B)
    ensures forall r, c :: 0 <= r < B.Length0 && 0 <= c < B.Length0 ==> IsFieldElement(B[r, c])
  {
    var n := B.Length0;
    MatrixMultiply(LM, UM, B);
    forall r, c | 0 <= r < n && 0 <= c < n
      ensures Dot(LM, UM, r, c, n) == Dot(LM, UM, r, c, (if r < c then r else c) + 1)
    {
      DotTriangular(LM, UM, r, c, n);
    }
  }
}
