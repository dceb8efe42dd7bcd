# A verified model of the EHTv3 key, signature and residual cores

This project models the integer cores of a cryptanalysis toolkit for EHTv3, a
trapdoor signature scheme over the ring Z_Q with Q = 47. It covers four cores:

- **Private-key builder** (`c_utils/print_sk.c`). From one seeded sampler
  session it fills three matrices in place:
  - the banded trapdoor matrix T, whose row i has random entries left of
    column i/2, the marker TUPPLE[i mod K] at column i/2, and zeros after it;
  - a lower-triangular LM and an upper-triangular UM, each with a diagonal in
    [1, Q-1].

  It then writes B = LM·UM mod Q.
- **Hex codec and matrix printer** (`c_utils/common.c`):
  - `ParseHex` shifts a fixed-length byte buffer one nibble at a time;
  - `fprintBstr` prints bytes as uppercase Base16 (section 8 of RFC 4648);
  - `fprintMat` prints a bracketed, comma-separated matrix.
- **Residual tool** (`c_utils/sigparse.c`). For every line of standard input
  it:
  - derives the signature length from the line length;
  - parses the hex;
  - decodes (message, x);
  - hashes the message;
  - writes the M bytes of e = h - A·x mod Q.
- **Signature forger helpers** (`fake_sign.py`):
  - `encode_mx` packs a base-Q vector big-endian into bytes by an in-place
    carry loop, then appends the message;
  - `get_y_small` is a window search for a multiple of [1, 7] near a point;
  - the small-entry count gates the signing loop.

Modules follow the source files:

- `Field`: Q, K, TUPPLE, floor-mod `s_mod_q`, powers, positional numbers.
- `Sampler`: the `NIST_rng` stream as a class.
- `LinAlg`: `zero_matrix`, `matrix_multiply`.
- `PrintSk`, `Common`, `Sigparse`, `FakeSign`: the four cores.

Model conventions:

- **Matrices** are `array2<byte>`, filled in place as in the C code.
- **The sampler** is a class `Rng`. It holds the draw stream `draw(p, b) < b`
  fixed by the seed, and a position that every `NIST_rng` call advances, so
  every entry is stated as a draw at a known position.
- **`fprintf` output** is modelled as the text each printing method returns.
- **External functions** (`sm_to_mx`, `hash_of_message`, the product
  x = B·y in the forger) are function parameters with their shape
  contracts: the decoder returns N entries, the hash M, and `timesB`
  returns as many entries as it is given, all in [0, Q), because B is a
  square matrix over GF(Q) (keys.py:30).
- **Standard input** of the residual tool is the sequence of lines
  `getline` returns. Its standard output is the returned byte string.

## Model

| member | source | states |
|---|---|---|
| Field.ParametersSane | partial_key_recovery.py:15-18 | 1 < Q <= 256, K = 2, and the markers [1, 7] are field elements |
| Field.SModQ | c_utils/sigparse.c:115 | s_mod_q gives a field element congruent to its signed argument |
| Field.SModQUnique | c_utils/sigparse.c:115 | the congruent field element is unique, so s_mod_q is the floor-mod |
| Field.SubModRight | c_utils/sigparse.c:111-115 | reducing Ax mod Q before subtracting does not change s_mod_q(h - Ax) |
| Field.DigitsInjective | fake_sign.py:109-115 | two digit strings of equal length and equal value are equal |
| Sampler.Rng.Init | c_utils/print_sk.c:90 | randombytes_init fixes the stream from the entropy and starts at position 0 |
| Sampler.Rng.Next | c_utils/print_sk.c:99-117 | NIST_rng(b) returns the draw at the current position, below b, and advances by one |
| LinAlg.ZeroMatrix | c_utils/print_sk.c:95 | every entry becomes 0 |
| LinAlg.MatrixMultiply | c_utils/print_sk.c:134 | C[i,j] is the integer sum of A[i,t]·B[t,j], reduced mod Q |
| PrintSk.MarkerColumnFits | c_utils/print_sk.c:73 | column i/2 lies inside the N columns for every row i < K·N if and only if K <= 2 |
| PrintSk.TDrawsTotal | c_utils/print_sk.c:97-104 | the 2m rows of T take m(m-1) draws in total |
| PrintSk.TDrawOrder | c_utils/print_sk.c:97-104 | T's draws are taken row by row, left to right: positions strictly increase, and row i occupies TDraws(i)..TDraws(i+1)-1 |
| PrintSk.LDrawOrder | c_utils/print_sk.c:111-119 | LM's draws are taken column by column, diagonal first: distinct increasing positions inside LM's share |
| PrintSk.UDrawOrder | c_utils/print_sk.c:123-131 | UM's draws are taken column by column, diagonal first, then rows 0..i-1: distinct increasing positions inside UM's share |
| PrintSk.FactorDrawsTotal | c_utils/print_sk.c:111-131 | LM takes N(N+1)/2 draws and UM takes N(N+1)/2 draws |
| PrintSk.FillTRow | c_utils/print_sk.c:100-103 | row i takes the next i/2 draws of NIST_rng(Q) left to right, each at TPos(i, j); no other entry changes |
| PrintSk.FillT | c_utils/print_sk.c:95-107 | TFilled: zeros right of column i/2, the marker TUPPLE[i mod K] at column i/2, the draw at TPos(i,j) below Q elsewhere; exactly TDraws(K·N) draws |
| PrintSk.FillLowerColumn | c_utils/print_sk.c:113-118 | column i takes 1 + draw(Q-1) on the diagonal, then draw(Q) for rows i+1..N-1, each at LPos; no other entry changes |
| PrintSk.FillLower | c_utils/print_sk.c:109-119 | LFilled: zeros above the diagonal, 1 + draw(Q-1) on it, a draw(Q) below it, each at its column-major position |
| PrintSk.FillUpperColumn | c_utils/print_sk.c:125-130 | column i takes 1 + draw(Q-1) on the diagonal, then draw(Q) for rows 0..i-1, each at UPos; no other entry changes |
| PrintSk.FillUpper | c_utils/print_sk.c:121-131 | UFilled: zeros below the diagonal, 1 + draw(Q-1) on it, a draw(Q) above it, each at its column-major position |
| PrintSk.GenerateFactors | c_utils/print_sk.c:109-131 | LM comes from the current position and UM from right after LM's LOff(N, N) draws; both factor shapes hold |
| PrintSk.FactorProduct | c_utils/print_sk.c:134 | B = LM·UM mod Q, equal to the sum over k <= min(r, c) alone, and every entry a field element |
| PrintSk.TFillIsBanded | c_utils/print_sk.c:97-107 | the fill yields the band: every entry a field element, the marker at column i/2, zeros after it |
| PrintSk.LFillIsFactor | c_utils/print_sk.c:109-119 | the fill yields a lower-triangular matrix of field elements with diagonal in [1, Q-1] |
| PrintSk.UFillIsFactor | c_utils/print_sk.c:121-131 | the fill yields an upper-triangular matrix of field elements with diagonal in [1, Q-1] |
| PrintSk.DotTriangular | c_utils/print_sk.c:134 | for lower LM and upper UM only the terms k <= min(r, c) contribute to (LM·UM)[r,c] |
| PrintSk.GenerateSk | c_utils/print_sk.c:94-134 | KeyLayout: T, LM and UM are fixed by the stream and its start (T first, then LM, then UM); the band and factor shapes hold; B = LM·UM mod Q summed over k <= min(r, c) |
| Common.HexValue | c_utils/common.c:99-104 | a hex digit's nibble is in 0..15, below 10 exactly for '0'..'9' |
| Common.HexValueOfBase16 | c_utils/common.c:64 | every uppercase Base16 symbol reads back as its nibble |
| Common.HexValueCaseInsensitive | c_utils/common.c:101-104 | 'a'..'f' and 'A'..'F' give the same nibbles 10..15 |
| Common.ParsedDigitsScan | c_utils/common.c:87-96 | non-hex characters other than '\n' and NUL before the first digit are skipped; the first non-hex character after a digit ends the run |
| Common.NibblesValue | c_utils/common.c:108-110 | the nibbles of a byte string read in base 16 equal the bytes read in base 256 |
| Common.RegisterRightAligned | c_utils/common.c:108-110 | after the shifts the last 2·Length digits are right-aligned, with zero nibbles on the left when there are fewer |
| Common.ShiftInNibbles | c_utils/common.c:108-110 | one byte-shift pass drops the first nibble and appends the new digit |
| Common.ShiftNibbleIn | c_utils/common.c:108-110 | the in-place pass writes exactly ShiftIn of the old first Length bytes and leaves the rest unchanged |
| Common.ClearPrefix | c_utils/common.c:85 | the first Length bytes become 0 and the rest of A is unchanged |
| Common.PendingStep | c_utils/common.c:87-98 | one scanned character: a non-digit that stops the scan leaves nothing pending, a skipped one leaves the rest pending, a digit is followed by the rest of its run |
| Common.DigitNibble | c_utils/common.c:99-106 | every hex digit gets its nibble, so the `ich = 0` fallback is never taken |
| Common.PushDigit | c_utils/common.c:108-110 | shifting a digit into A appends it to the digits the nibble register has taken in |
| Common.ScanInto | c_utils/common.c:86-111 | the scan shifts exactly the digits ParsedDigits reads into the register, and bytes past Length are unchanged |
| Common.ParseHex | c_utils/common.c:75-113 | returns 1; with Length 0 writes A[0] = 0; otherwise A[0..Length) holds the packed register of the digits read; nothing else changes |
| Common.ParseHexValue | c_utils/common.c:85-110 | A read big-endian equals the value of the digit run mod 256^Length |
| Common.SkippedThenNewline | c_utils/common.c:87-93 | after any run of skipped characters (no hex digit, '\n' or NUL), a '\n' ends the scan with no digit read |
| Common.ParseHexBlankLine | c_utils/common.c:85-93 | a line with no hex digit before its '\n' leaves A[0..Length) all zero |
| Common.FprintBstr | c_utils/common.c:56-70 | writes S, two uppercase hex digits per byte, "00" when L = 0, then '\n' |
| Common.HexTextIsNibbles | c_utils/common.c:63-64 | the printed digits are the Base16 symbols of the bytes' nibbles, high nibble first |
| Common.BstrRoundTrip | c_utils/common.c:56-113 | ParseHex with Length L > 0 on fprintBstr("", A, L) recovers A exactly, from a line of 2L + 1 characters |
| Common.DecimalDigits | c_utils/common.c:121 | `%d` of an entry prints at least one character, all decimal digits |
| Common.DecimalRoundTrip | c_utils/common.c:121 | reading back the digits `%d` printed gives the entry |
| Common.FprintRowEntries | c_utils/common.c:119-125 | writes the entries of row r in decimal separated by ", ", with no trailing separator |
| Common.FprintMat | c_utils/common.c:115-129 | writes "[\n", each row as "[" entries "]" ending ",\n" except the last, which ends "\n", then "]\n" |
| Common.RowRoundTrip | c_utils/common.c:119-125 | reading a printed row back as ", "-separated decimals gives the row's entries |
| Sigparse.AllocatedBufferFits | c_utils/sigparse.c:90-92 | the calloc(smlen) buffer satisfies ParseHex's needs exactly when the line has at least 3 characters |
| Sigparse.SmAlloc | c_utils/sigparse.c:90-92 | the corrected allocation always fits ParseHex and differs from smlen only when smlen = 0 |
| Sigparse.SignatureLineRecovered | c_utils/sigparse.c:90-92 | a line of 2L hex digits and '\n' gives smlen = L, and parsing recovers the L bytes fprintBstr printed (c_utils/siggen.c:76) |
| Sigparse.ResidualIsDifference | c_utils/sigparse.c:111-115 | each e[i] is a field element congruent to h[i] - (A·x)[i] over the integers |
| Sigparse.ResidualZeroIff | c_utils/sigparse.c:113-115 | all M residuals are 0 if and only if A·x ≡ h (mod Q) in every row |
| Sigparse.EmittedLength | c_utils/sigparse.c:114-118 | exactly M bytes per line are written |
| Sigparse.EmittedAppend | c_utils/sigparse.c:89-127 | the output for two batches of lines is the concatenation of their outputs |
| Sigparse.EmittedBlock | c_utils/sigparse.c:114-118 | line k's M residuals come after the k·M bytes of the earlier lines, in index order |
| Sigparse.SmToMx | c_utils/sigparse.c:105 | x receives the decoded vector and the decoded message is returned |
| Sigparse.HashOfMessage | c_utils/sigparse.c:108 | h receives the message's hash |
| Sigparse.DotColumn | c_utils/sigparse.c:111 | the product with the N×1 matrix x is the product with its column |
| Sigparse.ResidualBytes | c_utils/sigparse.c:114-118 | the M bytes written for one signature are s_mod_q(h[i] - Ax[i]) |
| Sigparse.ProcessLine | c_utils/sigparse.c:90-118 | the bytes written for one line are the M residuals of its decoded signature against the hash of its message; the line buffer has the corrected size SmAlloc(nread), not calloc(smlen) (see Findings) |
| Sigparse.ProcessLines | c_utils/sigparse.c:89-127 | count equals the number of lines read; the output is every line's residuals in order; each line buffer has the corrected size SmAlloc(nread) |
| FakeSign.EncodedSize | fake_sign.py:105 | size is the fewest bytes whose range holds Q^n |
| FakeSign.MulAdd | fake_sign.py:110-114 | the carry loop replaces sm by (sm·Q + carry) mod 256^size, read big-endian |
| FakeSign.EncodeMx | fake_sign.py:104-117 | the output has length size + len(msg) and ends with msg; its first size bytes read big-endian (Horner over x) mod 256^size, exactly when x holds field elements and Q^len(x) <= 256^size |
| FakeSign.ToDigits | fake_sign.py:109-115 | n base-Q digits whose value is v mod Q^n |
| FakeSign.DecodeEncoded | fake_sign.py:104-117 | unpacking an exact encoding gives back x and the message |
| FakeSign.EncodingUnique | fake_sign.py:104-117 | the encoding EncodeMx promises is a single byte string |
| FakeSign.WindowHasClose | fake_sign.py:33-38 | for Q = 47 some y in a0-3..a0+3 has (7y - a1) mod Q in [0,3] ∪ [Q-3, Q-1] |
| FakeSign.GetYSmall | fake_sign.py:30-39 | y lies in a0-3..a0+3, is close to a, and no earlier y in the window is |
| FakeSign.Centered | fake_sign.py:142 | the centred value of a field element lies in -(Q/2)..Q/2 and is congruent to it |
| FakeSign.SmallIsCentredBound | fake_sign.py:142 | e <= 13 or e >= Q-13 exactly when the centred value has magnitude at most 13 |
| FakeSign.CountIsPositions | fake_sign.py:141-143 | the count is the number of positions whose entry is small |
| FakeSign.ShortNeverAccepted | fake_sign.py:144 | a residual with fewer than 451 entries is never accepted |
| FakeSign.SelectAttempt | fake_sign.py:128-145 | the loop stops at the first attempt with at least 451 small entries, and every earlier attempt had fewer |
| FakeSign.Sign | fake_sign.py:119-147 | found exactly when some attempt is accepted; then, for the first accepted one and x = B·y, the output is encode_mx(msg, x): EncodedSize(N) bytes whose big-endian value is x read in base Q, then msg, and it unpacks to x and msg |

## Left out

- `read_sk`, `read_pk` and the JSON printing of the key (c_utils/print_sk.c:140-151) are file and output plumbing.
- c_utils/siggen.c, c_utils/verify.c, c_utils/hash.c and c_utils/print_pk.c are plumbing around the external `crypto_sign`, `crypto_sign_open` and hash; `pk_to_A` is not part of this model.
- `generate_C` (c_utils/print_sk.c:92) is external. Its number of draws is unknown, so key generation starts from whatever sampler position it leaves.
- The seeded generator behind `randombytes_init` and `NIST_rng` is external. It is modelled only as a stream of bounded draws fixed by the entropy.
- `sm_to_mx`, `hash_of_message` and the product x = B·y are bodies that are not shown. They are function parameters with their shape contracts.
- FakeSign.EncodedSize: the size is computed with floating-point logarithms at fake_sign.py:105. The model uses the exact smallest size, and EncodeMx takes any size.
- `get_a`, `get_yz` and the lattice reduction in fake_sign.py are library linear algebra over GF(47). The same goes for partial_key_recovery.py, test_attack.py and keys.py. The attempts the signing loop would draw are an input sequence.
- FakeSign.SelectAttempt: the source repeats `while True` until an attempt is accepted. The model works over a finite sequence of attempts and reports whether one was accepted.
- morph.py and descent.py are floating-point numerics.
- The progress message on standard error every 1000 lines (c_utils/sigparse.c:124-126) is not modelled.
- Memory allocation, `free` and allocation failure are not modelled.
- Sigparse.ProcessLine: the line buffer is allocated with the corrected size SmAlloc(nread), at least one byte. calloc(smlen) at c_utils/sigparse.c:91 is the as-written size; it is modelled by Sigparse.AllocatedBufferFits under Findings, because with it a line shorter than 3 characters makes ParseHex write out of bounds.
- Sigparse.ProcessLines: handing `smlen` to ParseHex's `int` parameter is not modelled as a truncating conversion. The same holds for the `unsigned char` results of `matrix_multiply`, whose reduced values already fit.
- Common.ParseHex: the input is the line as a sequence, and its end counts as the terminating NUL.

## Findings

| source | as written | input that shows it | evidently intended | confidence | as-written member | corrected member |
|---|---|---|---|---|---|---|
| c_utils/sigparse.c:90-92 | `smlen = (nread - 1) / 2` bytes are allocated, and ParseHex with Length 0 still writes A[0] (c_utils/common.c:81-83) | a blank line "\n" (nread = 1), or one character and '\n' (nread = 2): calloc(0), then a write of sm[0] out of bounds | allocate at least one byte, so the Length 0 path has its A[0] | not executed | Sigparse.AllocatedBufferFits | Sigparse.SmAlloc |
