/** The batch residual tool: for every line of hex-encoded signatures read
    from standard input it decodes the signature, hashes its message,
    computes e = h - A·x mod Q and writes the M bytes of e.
    Standard input is the sequence of lines `getline` returns (each with its
    newline), standard output is the byte string returned. `sm_to_mx` and
    `hash_of_message` are external and modelled as given functions. */
module Sigparse {
  import opened Field
  import opened LinAlg
  import opened Common

  /** What `sm_to_mx` extracts from a signature buffer: the message and the
      N-entry vector x. */
  datatype Decoded = Decoded(msg: seq<byte>, x: seq<byte>)

  /** `sm_to_mx` fills an N×1 matrix. */
  ghost predicate DecoderShape(decode: seq<byte> -> Decoded, n: nat)
  {
    forall sm :: |decode(sm).x| == n
  }

  /** `hash_of_message` fills an M×1 matrix. */
  ghost predicate HashShape(hash: seq<byte> -> seq<byte>, m: nat)
  {
    forall msg :: |hash(msg)| == m
  }

  /** A line as `getline` returns it inside the loop: at least one
      character (the newline, unless the line is the last one). */
  type Line = s: seq<char> | |s| >= 1 witness "\n"

  // ---------------------------------------------------------------------------
  // The buffer length

  /** Line 90: the signature length from getline's count, which includes the
      newline. */
  function SmLen(nread: nat): nat
    requires nread >= 1
  {
    (nread - 1) / 2
  }

  /** As written, line 91 allocates SmLen(nread) bytes. ParseHex fits in that
      buffer exactly when the line has at least three characters: for a blank
      line (nread == 1), or a line of one character and a newline, the buffer
      is empty and ParseHex still writes A[0]. */
  lemma AllocatedBufferFits(nread: nat)
    requires nread >= 1
    ensures ParseHexFits(SmLen(nread), SmLen(nread)) <==> nread >= 3
  {
  }

  /** The allocation ParseHex needs: never less than one byte. */
  function SmAlloc(nread: nat): (len: nat)
    requires nread >= 1
    ensures ParseHexFits(len, SmLen(nread))
    ensures len == SmLen(nread) || (SmLen(nread) == 0 && len == 1)
  {
    if SmLen(nread) == 0 then 1 else SmLen(nread)
  }

  /** A line of 2L hex digits and a newline gives L: together with ParseHex
      this recovers exactly the bytes fprintBstr printed for a signature. */
  lemma SignatureLineRecovered(sm: seq<byte>)
    requires |sm| > 0
    ensures SmLen(|BstrText("", sm)|) == |sm|
    ensures LineBytes(BstrText("", sm)) == sm
  {
    BstrRoundTrip(sm);
  }

  /** The bytes sm_to_mx sees for one line. */
  function LineBytes(line: seq<char>): (sm: seq<byte>)
    requires |line| >= 1
    ensures |sm| == SmLen(|line|)
  {
    ParseHexResult(line, SmLen(|line|))[..SmLen(|line|)]
  }

  // ---------------------------------------------------------------------------
  // The residual

  /** (A·x)[i] summed over the columns t < k, before any reduction. */
  function RowDot(A: array2<byte>, x: seq<int>, i: nat, k: nat): int
    reads A
    requires i < A.Length0 && k <= A.Length1 && |x| == A.Length1
  {
    if k == 0 then 0 else RowDot(A, x, i, k - 1) + A[i, k - 1] * x[k - 1]
  }

  /** Lines 110-118: e[i] = s_mod_q(h[i] - Ax[i]), where Ax = A·x reduced
      mod Q by matrix_multiply. */
  function Residual(A: array2<byte>, x: seq<byte>, h: seq<byte>): (e: seq<byte>)
    reads A
    requires |x| == A.Length1 && |h| == A.Length0
    ensures |e| == A.Length0
  {
    seq(A.Length0, i requires 0 <= i < A.Length0 reads A => SModQ(h[i] - RowDot(A, x, i, A.Length1) % Q))
  }

  /** Every residual is a field element congruent to h[i] - (A·x)[i] taken
      over the integers: reducing A·x first does not change it. */
  lemma ResidualIsDifference(A: array2<byte>, x: seq<byte>, h: seq<byte>, i: nat)
    requires |x| == A.Length1 && |h| == A.Length0 && i < A.Length0
    ensures IsFieldElement(Residual(A, x, h)[i])
    ensures Residual(A, x, h)[i] == SModQ(h[i] - RowDot(A, x, i, A.Length1))
    ensures (Residual(A, x, h)[i] - (h[i] - RowDot(A, x, i, A.Length1))) % Q == 0
  {
    SubModRight(h[i], RowDot(A, x, i, A.Length1));
  }

  /** All M residuals are 0 exactly when A·x ≡ h (mod Q): the identity a
      genuine signature satisfies before the structured part C·z. */
  lemma ResidualZeroIff(A: array2<byte>, x: seq<byte>, h: seq<byte>)
    requires |x| == A.Length1 && |h| == A.Length0
    ensures (forall i :: 0 <= i < A.Length0 ==> Residual(A, x, h)[i] == 0) <==>
            (forall i :: 0 <= i < A.Length0 ==> RowDot(A, x, i, A.Length1) % Q == h[i] % Q)
  {
    forall i | 0 <= i < A.Length0
      ensures Residual(A, x, h)[i] == 0 <==> RowDot(A, x, i, A.Length1) % Q == h[i] % Q
    {
      var s := RowDot(A, x, i, A.Length1);
      ResidualIsDifference(A, x, h, i);
      if Residual(A, x, h)[i] == 0 {
        var t := (h[i] - s) / Q;
        assert h[i] - s == t * Q;
        ModShift(s, t, Q);
        assert h[i] == s + t * Q;
      } else if s % Q == h[i] % Q {
        var t := s / Q;
        assert s == t * Q + h[i] % Q;
        assert h[i] - s == h[i] - h[i] % Q - t * Q;
        var u := h[i] / Q;
        assert h[i] == u * Q + h[i] % Q;
        assert h[i] - s == (u - t) * Q;
        ModShift(0, u - t, Q);
        assert false;
      }
    }
  }

  /** The M bytes written for one line. */
  function LineOutput(A: array2<byte>, line: seq<char>, decode: seq<byte> -> Decoded, hash: seq<byte> -> seq<byte>): (e: seq<byte>)
    reads A
    requires |line| >= 1 && DecoderShape(decode, A.Length1) && HashShape(hash, A.Length0)
    ensures |e| == A.Length0
  {
    var d := decode(LineBytes(line));
    Residual(A, d.x, hash(d.msg))
  }

  /** The bytes of consecutive blocks, one after the other. */
  function Flatten(blocks: seq<seq<byte>>): seq<byte>
  {
    if blocks == [] then [] else Flatten(blocks[..|blocks| - 1]) + blocks[|blocks| - 1]
  }

  lemma {:induction false} FlattenAppend(a: seq<seq<byte>>, b: seq<seq<byte>>)
    ensures Flatten(a + b) == Flatten(a) + Flatten(b)
  {
    if b != [] {
      FlattenAppend(a, b[..|b| - 1]);
      assert (a + b)[..|a + b| - 1] == a + b[..|b| - 1];
    } else {
      assert a + b == a;
    }
  }

  lemma {:induction false} FlattenUniform(blocks: seq<seq<byte>>, m: nat)
    requires forall k :: 0 <= k < |blocks| ==> |blocks[k]| == m
    ensures |Flatten(blocks)| == |blocks| * m
  {
    if blocks != [] {
      FlattenUniform(blocks[..|blocks| - 1], m);
      MulSucc(|blocks| - 1, m);
    }
  }

  lemma MulSucc(n: nat, m: nat)
    ensures n * m + m == (n + 1) * m
  {
  }

  /** The M bytes of every line, in line order. */
  function Outputs(A: array2<byte>, lines: seq<Line>, decode: seq<byte> -> Decoded, hash: seq<byte> -> seq<byte>): (os: seq<seq<byte>>)
    reads A
    requires DecoderShape(decode, A.Length1) && HashShape(hash, A.Length0)
    ensures |os| == |lines|
  {
    seq(|lines|, k requires 0 <= k < |lines| reads A => LineOutput(A, lines[k], decode, hash))
  }

  /** Everything written for the given lines. */
  function Emitted(A: array2<byte>, lines: seq<Line>, decode: seq<byte> -> Decoded, hash: seq<byte> -> seq<byte>): seq<byte>
    reads A
    requires DecoderShape(decode, A.Length1) && HashShape(hash, A.Length0)
  {
    Flatten(Outputs(A, lines, decode, hash))
  }

  /** Exactly M bytes per line. */
  lemma EmittedLength(A: array2<byte>, lines: seq<Line>, decode: seq<byte> -> Decoded, hash: seq<byte> -> seq<byte>)
    requires DecoderShape(decode, A.Length1) && HashShape(hash, A.Length0)
    ensures |Emitted(A, lines, decode, hash)| == |lines| * A.Length0
  {
    FlattenUniform(Outputs(A, lines, decode, hash), A.Length0);
  }

  /** Flattening the first k + 1 blocks appends block k to the first k. */
  lemma FlattenPrefixStep(blocks: seq<seq<byte>>, k: nat)
    requires k < |blocks|
    ensures Flatten(blocks[..k + 1]) == Flatten(blocks[..k]) + blocks[k]
  {
    var front := blocks[..k + 1];
    assert front[..k] == blocks[..k];
  }

  /** Block k sits between the blocks before it and those after it. */
  lemma FlattenBlock(blocks: seq<seq<byte>>, k: nat)
    requires k < |blocks|
    ensures Flatten(blocks) == Flatten(blocks[..k]) + blocks[k] + Flatten(blocks[k + 1..])
  {
    assert blocks == blocks[..k + 1] + blocks[k + 1..];
    FlattenAppend(blocks[..k + 1], blocks[k + 1..]);
    FlattenPrefixStep(blocks, k);
  }

  /** The blocks of a concatenation of inputs. */
  lemma OutputsAppend(A: array2<byte>, a: seq<Line>, b: seq<Line>,
                      decode: seq<byte> -> Decoded, hash: seq<byte> -> seq<byte>)
    requires DecoderShape(decode, A.Length1) && HashShape(hash, A.Length0)
    ensures Outputs(A, a + b, decode, hash) == Outputs(A, a, decode, hash) + Outputs(A, b, decode, hash)
  {
    var os := Outputs(A, a + b, decode, hash);
    var left, right := Outputs(A, a, decode, hash), Outputs(A, b, decode, hash);
    forall k | 0 <= k < |a + b|
      ensures os[k] == (left + right)[k]
    {
      if k < |a| {
        assert (a + b)[k] == a[k];
      } else {
        assert (a + b)[k] == b[k - |a|];
      }
    }
  }

  /** The output of a concatenation of inputs is the concatenation of
      their outputs: the tool keeps no state from one line to the next. */
  lemma EmittedAppend(A: array2<byte>, a: seq<Line>, b: seq<Line>,
                      decode: seq<byte> -> Decoded, hash: seq<byte> -> seq<byte>)
    requires DecoderShape(decode, A.Length1) && HashShape(hash, A.Length0)
    ensures Emitted(A, a + b, decode, hash) == Emitted(A, a, decode, hash) + Emitted(A, b, decode, hash)
  {
    OutputsAppend(A, a, b, decode, hash);
    FlattenAppend(Outputs(A, a, decode, hash), Outputs(A, b, decode, hash));
  }

  /** Line k's M bytes come after the k·M bytes of the lines before it and
      before those of the lines after it. */
  lemma EmittedBlock(A: array2<byte>, lines: seq<Line>, decode: seq<byte> -> Decoded,
                     hash: seq<byte> -> seq<byte>, k: nat)
    requires DecoderShape(decode, A.Length1) && HashShape(hash, A.Length0)
    requires k < |lines|
    ensures |Flatten(Outputs(A, lines, decode, hash)[..k])| == k * A.Length0
    ensures Emitted(A, lines, decode, hash) ==
      Flatten(Outputs(A, lines, decode, hash)[..k]) + LineOutput(A, lines[k], decode, hash) +
      Flatten(Outputs(A, lines, decode, hash)[k + 1..])
  {
    var os := Outputs(A, lines, decode, hash);
    FlattenBlock(os, k);
    FlattenUniform(os[..k], A.Length0);
  }

  // ---------------------------------------------------------------------------
  // The external collaborators

  /** `sm_to_mx`: writes the vector into the N×1 matrix x and returns the
      message. */
  method SmToMx(sm: seq<byte>, decode: seq<byte> -> Decoded, x: array2<byte>) returns (msg: seq<byte>)
    requires x.Length1 == 1 && |decode(sm).x| == x.Length0
    modifies x
    ensures msg == decode(sm).msg
    ensures forall t :: 0 <= t < x.Length0 ==> x[t, 0] == decode(sm).x[t]
  {
    var xs := decode(sm).x;
    var t := 0;
    while t < x.Length0
      invariant 0 <= t <= x.Length0
      invariant forall u :: 0 <= u < t ==> x[u, 0] == xs[u]
    {
      x[t, 0] := xs[t];
      t := t + 1;
    }
    msg := decode(sm).msg;
  }

  /** `hash_of_message`: writes the hash into the M×1 matrix h. */
  method HashOfMessage(msg: seq<byte>, hash: seq<byte> -> seq<byte>, h: array2<byte>)
    requires h.Length1 == 1 && |hash(msg)| == h.Length0
    modifies h
    ensures forall t :: 0 <= t < h.Length0 ==> h[t, 0] == hash(msg)[t]
  {
    var hs := hash(msg);
    var t := 0;
    while t < h.Length0
      invariant 0 <= t <= h.Length0
      invariant forall u :: 0 <= u < t ==> h[u, 0] == hs[u]
    {
      h[t, 0] := hs[t];
      t := t + 1;
    }
  }

  /** The product with an N×1 matrix is the product with its column. */
  lemma {:induction false} DotColumn(A: array2<byte>, x: array2<byte>, xs: seq<int>, i: nat, k: nat)
    requires A.Length1 == x.Length0 && x.Length1 == 1 && |xs| == A.Length1
    requires forall t :: 0 <= t < x.Length0 ==> x[t, 0] == xs[t]
    requires i < A.Length0 && k <= A.Length1
    ensures Dot(A, x, i, 0, k) == RowDot(A, xs, i, k)
  {
    if k > 0 {
      DotColumn(A, x, xs, i, k - 1);
    }
  }

  /** Lines 110-118 for one signature: the M residual bytes, from the
      product Ax = A·x (already reduced mod Q) and the hash h. */
  method ResidualBytes(A: array2<byte>, x: array2<byte>, Ax: array2<byte>, h: array2<byte>,
                       xs: seq<byte>, hs: seq<byte>) returns (e: seq<byte>)
    requires A.Length1 == x.Length0 && x.Length1 == 1 && |xs| == A.Length1 && |hs| == A.Length0
    requires Ax.Length0 == A.Length0 && Ax.Length1 == 1 && h.Length0 == A.Length0 && h.Length1 == 1
    requires forall t :: 0 <= t < x.Length0 ==> x[t, 0] == xs[t]
    requires forall t :: 0 <= t < h.Length0 ==> h[t, 0] == hs[t]
    requires forall t :: 0 <= t < Ax.Length0 ==> Ax[t, 0] == Dot(A, x, t, 0, A.Length1) % Q
    ensures e == Residual(A, xs, hs)
  {
    e := [];
    var i := 0;
    while i < A.Length0
      invariant 0 <= i <= A.Length0
      invariant e == Residual(A, xs, hs)[..i]
    {
      DotColumn(A, x, xs, i, A.Length1);
      e := e + [SModQ(h[i, 0] - Ax[i, 0])];
      i := i + 1;
    }
  }

  // ---------------------------------------------------------------------------
  // The main loop

  /** Lines 90-118 for one line: parse, decode, hash, multiply and write
      the M residuals. */
  method ProcessLine(A: array2<byte>, line: Line, decode: seq<byte> -> Decoded,
                     hash: seq<byte> -> seq<byte>, x: array2<byte>, Ax: array2<byte>, h: array2<byte>)
    returns (e: seq<byte>)
    requires DecoderShape(decode, A.Length1) && HashShape(hash, A.Length0)
    requires x.Length0 == A.Length1 && x.Length1 == 1
    requires Ax.Length0 == A.Length0 && Ax.Length1 == 1
    requires h.Length0 == A.Length0 && h.Length1 == 1
    requires Ax != x && Ax != h && x != h && A != x && A != Ax && A != h
    modifies x, Ax, h
    ensures e == LineOutput(A, line, decode, hash)
  {
    var nread := |line|;
    var smlen := (nread - 1) / 2;
    var sm := new byte[SmAlloc(nread)];
    var _ := ParseHex(line, sm, smlen);
    var bytes := sm[..smlen];
    assert bytes == LineBytes(line);
    var msg := SmToMx(bytes, decode, x);
    HashOfMessage(msg, hash, h);
    MatrixMultiply(A, x, Ax);
    e := ResidualBytes(A, x, Ax, h, decode(bytes).x, hash(msg));
  }

  /** Lines 89-127, with the line buffer allocated as SmAlloc prescribes. No
      line is skipped (the validity check at lines 95-103 is commented out),
      so `count` ends as the number of lines read. The progress message on
      standard error every 1000 lines is not modelled. */
  method ProcessLines(A: array2<byte>, lines: seq<Line>, decode: seq<byte> -> Decoded,
                      hash: seq<byte> -> seq<byte>, x: array2<byte>, Ax: array2<byte>, h: array2<byte>)
    returns (out: seq<byte>, count: int)
    requires DecoderShape(decode, A.Length1) && HashShape(hash, A.Length0)
    requires x.Length0 == A.Length1 && x.Length1 == 1
    requires Ax.Length0 == A.Length0 && Ax.Length1 == 1
    requires h.Length0 == A.Length0 && h.Length1 == 1
    requires Ax != x && Ax != h && x != h && A != x && A != Ax && A != h
    modifies x, Ax, h
    ensures count == |lines|
    ensures out == Emitted(A, lines, decode, hash)
  {
    out := [];
    count := 0;
    ghost var os := Outputs(A, lines, decode, hash);
    var k := 0;
    while k < |lines|
      invariant 0 <= k <= |lines|
      invariant count == k
      invariant out == Flatten(os[..k])
    {
      var e := ProcessLine(A, lines[k], decode, hash, x, Ax, h);
      assert os[..k + 1][..k] == os[..k];
      out := out + e;
      count := count + 1;
      k := k + 1;
    }
    assert os[..k] == os;
  }
}
