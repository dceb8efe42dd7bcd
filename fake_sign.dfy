/** The signature forger's integer helpers: the signature encoding
    `encode_mx`, the rounding step `get_y_small` of the y/z split and the
    acceptance test of the signing loop. The lattice reduction and linear
    algebra over GF(Q) that produce the candidates are done by an external
    algebra system and are taken here as inputs. */
module FakeSign {
  import opened Field

  // ---------------------------------------------------------------------------
  // Size of the encoded vector

  /** The smallest size at or above s whose byte range holds Q^n. */
  function SizeSearch(n: nat, s: nat): (size: nat)
    requires s == 0 || Pow(256, s - 1) < Pow(Q, n)
    ensures s <= size
    ensures Pow(Q, n) <= Pow(256, size)
    ensures size == 0 || Pow(256, size - 1) < Pow(Q, n)
    decreases Pow(Q, n) - Pow(256, s)
  {
    if Pow(Q, n) <= Pow(256, s) then s else SizeSearch(n, s + 1)
  }

  /** Line 105: ⌈n·log Q / log 256⌉, the fewest bytes that hold any n
      base-Q digits. */
  function EncodedSize(n: nat): (size: nat)
    ensures Pow(Q, n) <= Pow(256, size)
    ensures size == 0 || Pow(256, size - 1) < Pow(Q, n)
  {
    SizeSearch(n, 0)
  }

  // ---------------------------------------------------------------------------
  // encode_mx

  /** One carry step of the inner loop: writing tmp % 256 at the current
      position and carrying tmp / 256 keeps the running identity. */
  lemma CarryArith(s: int, cin: int, r: int, v: int, p: int, c: int)
    requires r + cin * p == v * Q + c
    ensures ((s * Q + cin) % 256) * p + r + ((s * Q + cin) / 256) * (256 * p) == (s * p + v) * Q + c
  {
    var tmp := s * Q + cin;
    assert tmp == tmp % 256 + 256 * (tmp / 256);
    calc {
      (tmp % 256) * p + r + (tmp / 256) * (256 * p);
      (tmp % 256 + 256 * (tmp / 256)) * p + r;
      tmp * p + r;
      s * Q * p + cin * p + r;
      s * Q * p + v * Q + c;
      (s * p + v) * Q + c;
    }
  }

  /** The byte string read as a big-endian number, peeled at the front. */
  lemma DigitsCons(d: int, rest: seq<int>)
    ensures Digits(256, [d] + rest) == d * Pow(256, |rest|) + Digits(256, rest)
  {
    assert Digits(256, [d]) == d by {
      assert [d][..0] == [];
    }
    DigitsAppend(256, [d], rest);
  }

  /** Lines 110-114: sm := sm·Q + c over the integers, keeping the
      low-order |sm| bytes (the final carry is dropped). */
  method MulAdd(sm: seq<byte>, c: nat) returns (r: seq<byte>)
    ensures |r| == |sm|
    ensures Digits(256, r) == (Digits(256, sm) * Q + c) % Pow(256, |sm|)
  {
    r := sm;
    var carry: int := c;
    var j := |sm|;
    assert sm[|sm|..] == [] && r[j..] == [];
    while j > 0
      invariant 0 <= j <= |sm| && |r| == |sm|
      invariant r[..j] == sm[..j]
      invariant carry >= 0
      invariant Digits(256, r[j..]) + carry * Pow(256, |sm| - j) == Digits(256, sm[j..]) * Q + c
    {
      j := j - 1;
      var tmp := r[j] * Q + carry;
      ghost var rest := r[j + 1..];
      assert r[j] == sm[j] by { assert r[..j + 1][j] == sm[..j + 1][j]; }
      assert sm[j..] == [sm[j]] + sm[j + 1..];
      CarryArith(sm[j], carry, Digits(256, rest), Digits(256, sm[j + 1..]), Pow(256, |sm| - (j + 1)), c);
      r := r[j := tmp % 256];
      carry := tmp / 256;
      assert r[j..] == [tmp % 256] + rest;
      DigitsCons(tmp % 256, rest);
      DigitsCons(sm[j], sm[j + 1..]);
      assert Pow(256, |sm| - j) == 256 * Pow(256, |sm| - (j + 1));
      assert r[..j] == sm[..j] by { assert forall t :: 0 <= t < j ==> r[t] == sm[t]; }
    }
    assert r[0..] == r && sm[0..] == sm;
    assert AllDigits(256, r);
    DigitsBound(256, r);
    ModUnique(Digits(256, sm) * Q + c, carry, Digits(256, r), Pow(256, |sm|));
  }

  /** Lines 106-117: the vector as a base-Q number written big-endian in
      `size` bytes, followed by the message. Each entry of x is taken as its
      integer value; when every entry is a field element and Q^|x| fits in
      `size` bytes, nothing is lost. */
  method EncodeMx(msg: seq<byte>, x: seq<nat>, size: nat) returns (sm: seq<byte>)
    ensures |sm| == size + |msg|
    ensures sm[size..] == msg
    ensures Digits(256, sm[..size]) == Digits(Q, x) % Pow(256, size)
    ensures AllDigits(Q, x) && Pow(Q, |x|) <= Pow(256, size) ==> Digits(256, sm[..size]) == Digits(Q, x)
  {
    var buf: seq<byte> := seq(size, _ => 0);
    DigitsOfZeros(256, buf);
    assert x[..0] == [];
    var i := 0;
    while i < |x|
      invariant 0 <= i <= |x| && |buf| == size
      invariant Digits(256, buf) == Digits(Q, x[..i]) % Pow(256, size)
    {
      buf := MulAdd(buf, x[i]);
      MulAddMod(Digits(Q, x[..i]), Q, x[i], Pow(256, size));
      assert x[..i + 1][..i] == x[..i];
      i := i + 1;
    }
    assert x[..i] == x;
    sm := buf + msg;
    assert sm[..size] == buf;
    if AllDigits(Q, x) && Pow(Q, |x|) <= Pow(256, size) {
      DigitsBound(Q, x);
      ModUnique(Digits(Q, x), 0, Digits(Q, x), Pow(256, size));
    }
  }

  /** n base-Q digits of v, most significant first: the reference reader
      of the encoding. */
  function ToDigits(base: nat, v: nat, n: nat): (d: seq<int>)
    requires base > 1
    ensures |d| == n && AllDigits(base, d)
    ensures Digits(base, d) == v % Pow(base, n)
    decreases n
  {
    if n == 0 then []
    else
      DivFacts(v, base);
      var front := ToDigits(base, v / base, n - 1);
      ToDigitsStep(base, v, n, front);
      front + [v % base]
  }

  lemma DivFacts(v: nat, b: nat)
    requires b > 0
    ensures v / b >= 0 && 0 <= v % b < b
  {
  }

  /** Appending the low digit v mod base to the digits of v / base. */
  lemma ToDigitsStep(base: nat, v: nat, n: nat, front: seq<int>)
    requires base > 1 && n > 0 && |front| == n - 1
    requires Digits(base, front) == (v / base) % Pow(base, n - 1)
    ensures Digits(base, front + [v % base]) == v % Pow(base, n)
  {
    assert (front + [v % base])[..n - 1] == front;
    assert Digits(base, front + [v % base]) == Digits(base, front) * base + v % base;
    SplitMod(v, base, Pow(base, n - 1));
  }

  /** v mod (b·p) from v / b mod p and v mod b. */
  lemma SplitMod(v: nat, b: nat, p: nat)
    requires b > 0 && p > 0
    ensures ((v / b) % p) * b + v % b == v % (b * p)
  {
    var q, r := v / b, v % b;
    var t, u := q / p, q % p;
    assert v == q * b + r;
    assert q == t * p + u;
    assert v == t * (b * p) + (u * b + r) by {
      calc {
        v;
        q * b + r;
        (t * p + u) * b + r;
        t * (b * p) + (u * b + r);
      }
    }
    DigitStep(u, r, p, b);
    assert u * b + r < b * p;
    ModUnique(v, t, u * b + r, b * p);
  }

  /** The signature buffer as `sm_to_mx` reads it: the first size bytes
      give the n entries of x, the rest is the message. */
  datatype Unpacked = Unpacked(x: seq<int>, msg: seq<byte>)

  function DecodeMx(sm: seq<byte>, n: nat, size: nat): (u: Unpacked)
    requires size <= |sm|
    ensures |u.x| == n && AllDigits(Q, u.x)
    ensures u.msg == sm[size..]
  {
    assert AllDigits(256, sm[..size]);
    DigitsBound(256, sm[..size]);
    Unpacked(ToDigits(Q, Digits(256, sm[..size]), n), sm[size..])
  }

  /** Decoding what EncodeMx produces gives back the vector and the
      message, so the encoding is injective on vectors of field elements. */
  lemma DecodeEncoded(sm: seq<byte>, msg: seq<byte>, x: seq<nat>, size: nat)
    requires AllDigits(Q, x)
    requires |sm| == size + |msg| && sm[size..] == msg
    requires Digits(256, sm[..size]) == Digits(Q, x)
    ensures DecodeMx(sm, |x|, size) == Unpacked(x, msg)
  {
    var n := |x|;
    DigitsBound(Q, x);
    var d := ToDigits(Q, Digits(Q, x), n);
    ModUnique(Digits(Q, x), 0, Digits(Q, x), Pow(Q, n));
    DigitsInjective(Q, d, x);
  }

  /** The outcome EncodeMx promises determines the bytes: two buffers
      meeting it for the same vector, size and message are equal. */
  lemma {:induction false} EncodingUnique(sm1: seq<byte>, sm2: seq<byte>, msg: seq<byte>, x: seq<nat>, size: nat)
    requires |sm1| == size + |msg| && sm1[size..] == msg
    requires |sm2| == size + |msg| && sm2[size..] == msg
    requires Digits(256, sm1[..size]) == Digits(Q, x) % Pow(256, size)
    requires Digits(256, sm2[..size]) == Digits(Q, x) % Pow(256, size)
    ensures sm1 == sm2
  {
    var p1, p2 := sm1[..size], sm2[..size];
    assert p1 == p2 by {
      assert AllDigits(256, p1) && AllDigits(256, p2);
      DigitsInjective(256, p1, p2);
    }
    assert sm1 == p1 + msg by { assert sm1 == sm1[..size] + sm1[size..]; }
    assert sm2 == p2 + msg by { assert sm2 == sm2[..size] + sm2[size..]; }
  }

  // ---------------------------------------------------------------------------
  // get_y_small

  /** Line 36: the distance, in GF(Q), between the second entry of y·[1, 7]
      and a1, as the integer in [0, Q) the field element converts to. */
  function Dist(y: int, a1: int): (d: int)
    ensures 0 <= d < Q
  {
    (y * TUPPLE[1] - a1) % Q
  }

  /** Line 37: y·[1, 7] is within 3 of a1 in the second entry. */
  predicate Close(y: int, a1: int)
  {
    Dist(y, a1) <= 3 || Dist(y, a1) >= Q - 3
  }

  /** For Q = 47 the window a0-3 .. a0+3 always holds a y that is close:
      seven steps of 7 cover every residue class, so the loop of lines
      34-38 always leaves by its break. */
  lemma WindowHasClose(a0: int, a1: int)
    ensures exists w :: a0 - 3 <= w <= a0 + 3 && Close(w, a1)
  {
    var d0 := Dist(a0 - 3, a1);
    var k := if d0 <= 3 || d0 >= Q - 3 then 0 else (50 - d0) / 7;
    assert 0 <= k <= 6;
    var w := a0 - 3 + k;
    assert w * TUPPLE[1] - a1 == ((a0 - 3) * TUPPLE[1] - a1) + 7 * k;
    MulAddMod((a0 - 3) * TUPPLE[1] - a1, 1, 7 * k, Q);
    assert Dist(w, a1) == (d0 + 7 * k) % Q;
    if k > 0 {
      assert 44 <= d0 + 7 * k <= 50;
    }
    assert Close(w, a1);
  }

  /** Lines 30-39: the first y in a0-3 .. a0+3 whose multiple of [1, 7] is
      close to a; the loop's fall-through value a0+3 is never needed. */
  method GetYSmall(a0: int, a1: int) returns (y: int)
    ensures a0 - 3 <= y <= a0 + 3
    ensures Close(y, a1)
    ensures forall w :: a0 - 3 <= w < y ==> !Close(w, a1)
  {
    WindowHasClose(a0, a1);
    y := a0 - 3;
    while y < a0 + 3
      invariant a0 - 3 <= y <= a0 + 3
      invariant forall w :: a0 - 3 <= w < y ==> !Close(w, a1)
    {
      if Close(y, a1) {
        break;
      }
      y := y + 1;
    }
  }

  // ---------------------------------------------------------------------------
  // The acceptance test of sign

  /** Line 142: a residual entry of magnitude at most 13 around 0. */
  predicate Small(e: int)
  {
    e <= 13 || e >= Q - 13
  }

  /** A field element as the integer in -(Q-1)/2 .. (Q-1)/2 it stands for. */
  function Centered(v: int): (c: int)
    requires IsFieldElement(v)
    ensures -(Q / 2) <= c <= Q / 2 && (c - v) % Q == 0
  {
    if v <= Q / 2 then v else v - Q
  }

  /** Small is the bound |e| <= 13 on the centred value. */
  lemma SmallIsCentredBound(v: int)
    requires IsFieldElement(v)
    ensures Small(v) <==> -13 <= Centered(v) <= 13
  {
  }

  /** Lines 141-143: how many entries of e are small. */
  function CountSmall(e: seq<int>): (c: nat)
    ensures c <= |e|
  {
    if e == [] then 0 else CountSmall(e[..|e| - 1]) + (if Small(e[|e| - 1]) then 1 else 0)
  }

  /** The positions of the small entries. */
  function SmallPositions(e: seq<int>): set<int>
  {
    set i | 0 <= i < |e| && Small(e[i])
  }

  /** The count is the number of positions whose entry is small. */
  lemma {:induction false} CountIsPositions(e: seq<int>)
    ensures CountSmall(e) == |SmallPositions(e)|
  {
    if e != [] {
      var front := e[..|e| - 1];
      CountIsPositions(front);
      if Small(e[|e| - 1]) {
        assert SmallPositions(e) == SmallPositions(front) + {|e| - 1};
      } else {
        assert SmallPositions(e) == SmallPositions(front);
      }
    }
  }

  /** Line 144: enough small entries to stop. */
  const THRESHOLD: nat := 451

  predicate Accepted(e: seq<int>)
  {
    CountSmall(e) >= THRESHOLD
  }

  /** A residual with fewer than 451 entries is never accepted. */
  lemma ShortNeverAccepted(e: seq<int>)
    requires |e| < THRESHOLD
    ensures !Accepted(e)
  {
  }

  /** One pass of the loop of lines 128-145: the y of the split a = T·y + z
      and the residual e = C·z it leads to. */
  datatype Attempt = Attempt(y: seq<int>, e: seq<int>)

  /** Lines 128-145 over the attempts the random stream yields, in order:
      the first accepted one. The source loops until one is accepted; with a
      finite stream `found` says whether that happened. */
  method SelectAttempt(attempts: seq<Attempt>) returns (found: bool, k: nat)
    ensures found <==> exists j :: 0 <= j < |attempts| && Accepted(attempts[j].e)
    ensures found ==> k < |attempts| && Accepted(attempts[k].e)
    ensures !found ==> k == |attempts|
    ensures forall j :: 0 <= j < k && j < |attempts| ==> !Accepted(attempts[j].e)
  {
    found := false;
    k := 0;
    while k < |attempts|
      invariant 0 <= k <= |attempts|
      invariant forall j :: 0 <= j < k ==> !Accepted(attempts[j].e)
    {
      var count := CountSmall(attempts[k].e);
      if count >= THRESHOLD {
        found := true;
        return;
      }
      k := k + 1;
    }
  }

  /** The first attempt the loop accepts. */
  predicate FirstAccepted(attempts: seq<Attempt>, k: int)
  {
    0 <= k < |attempts| && Accepted(attempts[k].e) &&
    forall j :: 0 <= j < k ==> !Accepted(attempts[j].e)
  }

  /** Lines 119-147: the signature of the first accepted attempt, with
      x = B·y supplied by `timesB`. B is a square matrix over GF(Q)
      (keys.py:30), so x has the length of y and holds field elements. The
      signature is encode_mx(msg, x): the size bytes holding x in base Q,
      big-endian, then the message; by EncodingUnique no other byte string
      meets this, and it unpacks to x and the message. */
  method Sign(msg: seq<byte>, attempts: seq<Attempt>, timesB: seq<int> -> seq<nat>) returns (found: bool, sm: seq<byte>)
    requires forall y :: |timesB(y)| == |y| && AllDigits(Q, timesB(y))
    ensures found <==> exists j :: 0 <= j < |attempts| && Accepted(attempts[j].e)
    ensures found ==> exists k :: (FirstAccepted(attempts, k) &&
      var x := timesB(attempts[k].y);
      var size := EncodedSize(|x|);
      |sm| == size + |msg| && sm[size..] == msg &&
      Digits(256, sm[..size]) == Digits(Q, x) &&
      DecodeMx(sm, |x|, size) == Unpacked(x, msg))
    ensures !found ==> sm == []
  {
    var k;
    found, k := SelectAttempt(attempts);
    sm := [];
    if found {
      var x := timesB(attempts[k].y);
      sm := EncodeMx(msg, x, EncodedSize(|x|));
      DecodeEncoded(sm, msg, x, EncodedSize(|x|));
      assert FirstAccepted(attempts, k);
    }
  }
}
