/** The hex codec and the matrix printer shared by the command-line tools:
    `ParseHex` reads a hex string into a fixed-length byte buffer,
    `fprintBstr` writes a byte buffer as uppercase Base16 (section 8 of
    RFC 4648), and `fprintMat` writes a matrix as a bracketed,
    comma-separated list of rows. Output streams are modelled by returning the
    text a call writes. */
module Common {
  import opened Field

  // ---------------------------------------------------------------------------
  // Hex digits

  /** `isxdigit` in the C locale. */
  predicate IsXDigit(c: char)
  {
    '0' <= c <= '9' || 'A' <= c <= 'F' || 'a' <= c <= 'f'
  }

  /** The nibble a hex digit stands for; both letter cases give 10..15. */
  function HexValue(c: char): (v: int)
    requires IsXDigit(c)
    ensures 0 <= v < 16
    ensures ('0' <= c <= '9') <==> v < 10
  {
    if '0' <= c <= '9' then c as int - '0' as int
    else if 'A' <= c <= 'F' then c as int - 'A' as int + 10
    else c as int - 'a' as int + 10
  }

  /** The Base16 alphabet, uppercase (section 8 of RFC 4648). */
  const BASE16: string := "0123456789ABCDEF"

  /** Printing a nibble with `%X` and reading it back gives the nibble. */
  lemma HexValueOfBase16(v: int)
    requires 0 <= v < 16
    ensures IsXDigit(BASE16[v]) && HexValue(BASE16[v]) == v
    ensures !('a' <= BASE16[v] <= 'z')
  {
  }

  /** A lower-case hex letter denotes the same nibble as its upper-case form. */
  lemma HexValueCaseInsensitive(c: char)
    requires 'a' <= c <= 'f'
    ensures IsXDigit((c as int - 32) as char)
    ensures HexValue(c) == HexValue((c as int - 32) as char)
  {
  }

  // ---------------------------------------------------------------------------
  // What ParseHex reads

  /** Nibbles of the run of hex digits at the head of s. */
  function HexRun(s: seq<char>): (r: seq<int>)
    ensures |r| <= |s| && AllDigits(16, r)
  {
    if s == [] || !IsXDigit(s[0]) then [] else [HexValue(s[0])] + HexRun(s[1..])
  }

  /** The digits ParseHex consumes from a NUL-terminated buffer (the end of
      the sequence counts as the NUL): before the first hex digit, NUL and
      '\n' end the scan and other characters are skipped; from the first
      digit on, the first non-hex character ends it. */
  function ParsedDigits(s: seq<char>): (r: seq<int>)
    ensures AllDigits(16, r)
  {
    if s == [] || s[0] == '\0' then []
    else if IsXDigit(s[0]) then HexRun(s)
    else if s[0] == '\n' then []
    else ParsedDigits(s[1..])
  }

  // ---------------------------------------------------------------------------
  // Bytes as nibbles

  /** The nibbles of a byte string, high nibble first. */
  function Nibbles(a: seq<byte>): (r: seq<int>)
    ensures |r| == 2 * |a| && AllDigits(16, r)
  {
    seq(2 * |a|, k requires 0 <= k < 2 * |a| => if k % 2 == 0 then a[k / 2] / 16 else a[k / 2] % 16)
  }

  /** The byte string whose nibbles are ns. */
  function Pack(ns: seq<int>): (r: seq<byte>)
    requires |ns| % 2 == 0 && AllDigits(16, ns)
    ensures |r| == |ns| / 2
  {
    seq(|ns| / 2, k requires 0 <= k < |ns| / 2 => ns[2 * k] * 16 + ns[2 * k + 1])
  }

  lemma PackNibbles(a: seq<byte>)
    ensures Pack(Nibbles(a)) == a
  {
  }

  lemma NibblesPack(ns: seq<int>)
    requires |ns| % 2 == 0 && AllDigits(16, ns)
    ensures Nibbles(Pack(ns)) == ns
  {
  }

  lemma NibblesAppend(a: seq<byte>, b: byte)
    ensures Nibbles(a + [b]) == Nibbles(a) + [b / 16, b % 16]
  {
  }

  /** Reading the nibbles in base 16 gives the big-endian value of the bytes. */
  lemma {:induction false} NibblesValue(a: seq<byte>)
    ensures Digits(16, Nibbles(a)) == Digits(256, a)
  {
    if a != [] {
      var a', b := a[..|a| - 1], a[|a| - 1];
      assert a == a' + [b];
      NibblesAppend(a', b);
      NibblesValue(a');
      var ns := Nibbles(a') + [b / 16, b % 16];
      assert ns[..|ns| - 1][..|ns| - 2] == Nibbles(a');
    }
  }

  // ---------------------------------------------------------------------------
  // The shift register

  /** The nibble register of width w after the digits ds are shifted into an
      all-zero register from the right, one at a time. */
  function Register(ds: seq<int>, w: nat): (r: seq<int>)
    ensures |r| == w
  {
    (seq(w, _ => 0) + ds)[|ds|..]
  }

  lemma RegisterStep(ds: seq<int>, d: int, w: nat)
    requires w >= 1
    ensures Register(ds + [d], w) == Register(ds, w)[1..] + [d]
  {
    var z := seq(w, _ => 0);
    assert z + (ds + [d]) == (z + ds) + [d];
  }

  /** The register right-aligns the digits: fewer than w digits are padded
      with zero nibbles on the left, more than w keep only the last w. */
  lemma RegisterRightAligned(ds: seq<int>, w: nat)
    ensures Register(ds, w) == if |ds| <= w then seq(w - |ds|, _ => 0) + ds else ds[|ds| - w..]
  {
  }

  /** One digit step of ParseHex on bytes: every byte takes its low nibble up
      and the next byte's high nibble in; the last byte takes in d. The shift
      `(A[i] << 4)` is truncated to a byte by the store, and the `|` joins
      disjoint nibbles, so it is written as a sum. */
  function ShiftIn(a: seq<byte>, d: int): (r: seq<byte>)
    requires |a| > 0 && 0 <= d < 16
    ensures |r| == |a|
  {
    seq(|a|, t requires 0 <= t < |a| =>
      if t < |a| - 1 then (a[t] * 16) % 256 + a[t + 1] / 16 else (a[t] * 16) % 256 + d)
  }

  lemma ByteShift(x: byte, y: int)
    requires 0 <= y < 16
    ensures (x * 16) % 256 + y < 256
    ensures ((x * 16) % 256 + y) / 16 == x % 16
    ensures ((x * 16) % 256 + y) % 16 == y
  {
    var hi := x % 16;
    ModUnique(x * 16, x / 16, hi * 16, 256);
    ModUnique(hi * 16 + y, hi, y, 16);
  }

  /** On nibbles, a ShiftIn step drops the first nibble and appends d. */
  lemma ShiftInNibbles(a: seq<byte>, d: int)
    requires |a| > 0 && 0 <= d < 16
    ensures Nibbles(ShiftIn(a, d)) == Nibbles(a)[1..] + [d]
  {
    var r := ShiftIn(a, d);
    var lhs, rhs := Nibbles(r), Nibbles(a)[1..] + [d];
    forall k | 0 <= k < 2 * |a| ensures lhs[k] == rhs[k] {
      var t := k / 2;
      if t < |a| - 1 {
        ByteShift(a[t], a[t + 1] / 16);
      } else {
        ByteShift(a[t], d);
      }
    }
  }

  // ---------------------------------------------------------------------------
  // ParseHex

  /** The bytes ParseHex leaves at the front of A: a single zero byte when
      Length is 0, and otherwise the last 2·Length digits it read, packed
      into bytes. */
  function ParseHexResult(inbuf: seq<char>, length: nat): (r: seq<byte>)
    ensures |r| == if length == 0 then 1 else length
  {
    if length == 0 then [0] else Pack(Register(ParsedDigits(inbuf), 2 * length))
  }

  /** The digits the scan of ParseHex has still to read from s: the rest of
      the current run once a digit has been seen, and otherwise what
      ParsedDigits reads. */
  function Pending(started: bool, s: seq<char>): (r: seq<int>)
    ensures started ==> r == HexRun(s)
    ensures !started ==> r == ParsedDigits(s)
  {
    if started then HexRun(s) else ParsedDigits(s)
  }

  /** One character of the scan: a non-digit that ends the scan leaves
      nothing pending, a skipped character leaves what follows it pending,
      and a digit is followed by the rest of its run. */
  lemma PendingStep(started: bool, s: seq<char>, p: nat)
    requires p < |s| && s[p] != '\0'
    ensures !IsXDigit(s[p]) && (started || s[p] == '\n') ==> Pending(started, s[p..]) == []
    ensures !IsXDigit(s[p]) && !started && s[p] != '\n' ==> Pending(started, s[p..]) == Pending(started, s[p + 1..])
    ensures IsXDigit(s[p]) ==> Pending(started, s[p..]) == [HexValue(s[p])] + Pending(true, s[p + 1..])
  {
    assert s[p..][1..] == s[p + 1..];
  }

  /** At NUL or at the end of the input nothing more is read. */
  lemma PendingEnd(started: bool, s: seq<char>)
    requires s == [] || s[0] == '\0'
    ensures Pending(started, s) == []
  {
  }

  lemma AppendAssociative(a: seq<int>, d: int, b: seq<int>)
    ensures a + ([d] + b) == (a + [d]) + b
  {
  }

  /** The buffer A must hold Length bytes, and one byte even when Length is 0,
      because line 82 writes A[0] in that case. */
  predicate ParseHexFits(bufferLength: nat, length: nat)
  {
    length <= bufferLength && (length == 0 ==> 1 <= bufferLength)
  }

  /** Lines 75-113. */
  method ParseHex(inbuf: seq<char>, A: array<byte>, length: int) returns (ret: int)
    requires 0 <= length && ParseHexFits(A.Length, length)
    modifies A
    ensures ret == 1
    ensures A[..|ParseHexResult(inbuf, length)|] == ParseHexResult(inbuf, length)
    ensures A[|ParseHexResult(inbuf, length)|..] == old(A[|ParseHexResult(inbuf, length)|..])
  {
    if length == 0 {
      A[0] := 0;
      return 1;
    }
    ClearPrefix(A, length);
    assert Nibbles(A[..length]) == Register([], 2 * length);
    ScanInto(inbuf, A, length);
    NibblesPack(Register(ParsedDigits(inbuf), 2 * length));
    PackNibbles(A[..length]);
    return 1;
  }

  /** Lines 86-111: the scan, seen on the register, shifts in exactly the
      digits ParsedDigits reads. */
  method ScanInto(inbuf: seq<char>, A: array<byte>, length: int)
    requires 0 < length <= A.Length
    requires Nibbles(A[..length]) == Register([], 2 * length)
    modifies A
    ensures Nibbles(A[..length]) == Register(ParsedDigits(inbuf), 2 * length)
    ensures A[length..] == old(A[length..])
  {
    var started := false;
    var p := 0;
    ghost var seen: seq<int> := [];
    while p < |inbuf| && inbuf[p] != '\0'
      invariant 0 <= p <= |inbuf|
      invariant Nibbles(A[..length]) == Register(seen, 2 * length)
      invariant seen + Pending(started, inbuf[p..]) == ParsedDigits(inbuf)
      invariant A[length..] == old(A[length..])
    {
      var ch := inbuf[p];
      PendingStep(started, inbuf, p);
      p := p + 1;
      if !IsXDigit(ch) {
        if !started {
          if ch == '\n' {
            assert seen + [] == ParsedDigits(inbuf);
            break;
          } else {
            continue;
          }
        } else {
          assert seen + [] == ParsedDigits(inbuf);
          break;
        }
      }
      started := true;
      var ich := DigitNibble(ch);
      PushDigit(A, length, ich, seen);
      AppendAssociative(seen, ich, Pending(true, inbuf[p..]));
      seen := seen + [ich];
    }
    if p == |inbuf| || inbuf[p] == '\0' {
      PendingEnd(started, inbuf[p..]);
      assert seen + [] == ParsedDigits(inbuf);
    }
    assert seen + [] == seen;
  }

  /** Lines 99-106. `isxdigit` held for every character that reaches the
      conversion, so its final fallback `ich = 0` is never taken. */
  method DigitNibble(ch: char) returns (ich: int)
    requires IsXDigit(ch)
    ensures ich == HexValue(ch) && 0 <= ich < 16
  {
    if '0' <= ch <= '9' {
      ich := ch as int - '0' as int;
    } else if 'A' <= ch <= 'F' {
      ich := ch as int - 'A' as int + 10;
    } else if 'a' <= ch <= 'f' {
      ich := ch as int - 'a' as int + 10;
    } else {
      assert false;
      ich := 0;
    }
  }

  /** Line 85: zero the first `length` bytes of A. */
  method ClearPrefix(A: array<byte>, length: int)
    requires 0 <= length <= A.Length
    modifies A
    ensures A[..length] == seq(length, _ => 0)
    ensures A[length..] == old(A[length..])
  {
    var k := 0;
    while k < length
      invariant 0 <= k <= length
      invariant forall t :: 0 <= t < k ==> A[t] == 0
      invariant A[length..] == old(A[length..])
    {
      A[k] := 0;
      k := k + 1;
    }
  }

  /** Lines 108-110 seen on the register: shifting digit d into A appends d
      to the digits the register has taken in. */
  method PushDigit(A: array<byte>, length: int, d: int, ghost seen: seq<int>)
    requires 0 < length <= A.Length && 0 <= d < 16
    requires Nibbles(A[..length]) == Register(seen, 2 * length)
    modifies A
    ensures Nibbles(A[..length]) == Register(seen + [d], 2 * length)
    ensures A[length..] == old(A[length..])
  {
    ghost var before := A[..length];
    ShiftNibbleIn(A, length, d);
    ShiftInNibbles(before, d);
    RegisterStep(seen, d, 2 * length);
  }

  /** Lines 108-110: shift the first `length` bytes of A left by one nibble
      and put d in the lowest nibble. */
  method ShiftNibbleIn(A: array<byte>, length: int, d: int)
    requires 0 < length <= A.Length && 0 <= d < 16
    modifies A
    ensures A[..length] == ShiftIn(old(A[..length]), d)
    ensures A[length..] == old(A[length..])
  {
    ghost var before := A[..length];
    var i := 0;
    while i < length - 1
      invariant 0 <= i <= length - 1
      invariant forall t :: 0 <= t < i ==> A[t] == ShiftIn(before, d)[t]
      invariant forall t :: i <= t < length ==> A[t] == before[t]
      invariant A[length..] == old(A[length..])
    {
      ByteShift(A[i], A[i + 1] / 16);
      A[i] := (A[i] as int * 16) % 256 + A[i + 1] / 16;
      i := i + 1;
    }
    ByteShift(A[length - 1], d);
    A[length - 1] := (A[length - 1] as int * 16) % 256 + d;
  }

  /** A read big-endian equals the value of the digit run mod 256^Length. */
  lemma ParseHexValue(inbuf: seq<char>, length: nat)
    requires length > 0
    ensures Digits(256, ParseHexResult(inbuf, length)) == Digits(16, ParsedDigits(inbuf)) % Pow(256, length)
  {
    var ds := ParsedDigits(inbuf);
    var w := 2 * length;
    var z := seq(w, _ => 0);
    var s := z + ds;
    var reg := Register(ds, w);
    assert reg == s[|s| - w..];
    assert AllDigits(16, s);
    NibblesPack(reg);
    NibblesValue(Pack(reg));
    DigitsSuffix(16, s, w);
    DigitsLeadingZeros(16, z, ds);
    PowSquare(length);
  }

  lemma {:induction false} PowSquare(n: nat)
    ensures Pow(16, 2 * n) == Pow(256, n)
  {
    if n > 0 {
      PowSquare(n - 1);
      assert Pow(16, 2 * n) == 16 * (16 * Pow(16, 2 * (n - 1)));
    }
  }

  /** Characters skipped before the first digit, then '\n': the scan stops
      there and reads no digit. */
  lemma {:induction false} SkippedThenNewline(junk: seq<char>, rest: seq<char>)
    requires forall i :: 0 <= i < |junk| ==> !IsXDigit(junk[i]) && junk[i] != '\n' && junk[i] != '\0'
    ensures ParsedDigits(junk + "\n" + rest) == []
  {
    if junk != [] {
      assert (junk + "\n" + rest)[1..] == junk[1..] + "\n" + rest;
      SkippedThenNewline(junk[1..], rest);
    } else {
      assert junk + "\n" + rest == "\n" + rest;
    }
  }

  /** A line with no hex digit before its '\n' leaves A all zero. */
  lemma ParseHexBlankLine(junk: seq<char>, rest: seq<char>, length: nat)
    requires forall i :: 0 <= i < |junk| ==> !IsXDigit(junk[i]) && junk[i] != '\n' && junk[i] != '\0'
    requires length > 0
    ensures forall t :: 0 <= t < length ==> ParseHexResult(junk + "\n" + rest, length)[t] == 0
  {
    SkippedThenNewline(junk, rest);
  }

  // ---------------------------------------------------------------------------
  // fprintBstr

  /** `%02X` of one byte. */
  function HexByte(b: byte): string
  {
    [BASE16[b / 16], BASE16[b % 16]]
  }

  /** The digits printed for a byte string, in order. */
  function HexText(a: seq<byte>): string
  {
    if a == [] then "" else HexText(a[..|a| - 1]) + HexByte(a[|a| - 1])
  }

  /** Everything fprintBstr writes: S, two hex digits per byte, "00" for an
      empty buffer, then a newline. */
  function BstrText(s: string, a: seq<byte>): string
  {
    s + HexText(a) + (if |a| == 0 then "00" else "") + "\n"
  }

  /** Lines 56-70. */
  method FprintBstr(s: string, A: array<byte>, l: nat) returns (written: string)
    requires l <= A.Length
    ensures written == BstrText(s, A[..l])
  {
    written := s;
    var i := 0;
    while i < l
      invariant 0 <= i <= l
      invariant written == s + HexText(A[..i])
    {
      assert A[..i + 1][..i] == A[..i];
      written := written + HexByte(A[i]);
      i := i + 1;
    }
    assert A[..l] == A[..i];
    if l == 0 {
      written := written + "00";
    }
    written := written + "\n";
  }

  /** The printed digits are the uppercase Base16 symbols of the nibbles. */
  lemma {:induction false} HexTextIsNibbles(a: seq<byte>)
    ensures |HexText(a)| == 2 * |a|
    ensures forall t :: 0 <= t < 2 * |a| ==> HexText(a)[t] == BASE16[Nibbles(a)[t]]
  {
    if a != [] {
      var a', b := a[..|a| - 1], a[|a| - 1];
      HexTextIsNibbles(a');
      assert a == a' + [b];
      NibblesAppend(a', b);
    }
  }

  lemma {:induction false} HexRunOfDigits(t: string, c: char, rest: string)
    requires forall i :: 0 <= i < |t| ==> IsXDigit(t[i])
    requires !IsXDigit(c)
    ensures HexRun(t + [c] + rest) == seq(|t|, i requires 0 <= i < |t| => HexValue(t[i]))
  {
    if t != [] {
      assert (t + [c] + rest)[1..] == t[1..] + [c] + rest;
      HexRunOfDigits(t[1..], c, rest);
    } else {
      assert (t + [c] + rest)[0] == c;
    }
  }

  /** The scanning rules of lines 87-96: characters other than hex digits,
      '\n' and NUL before the first digit are skipped, and the first
      non-hex character after a digit ends the run. */
  lemma {:induction false} ParsedDigitsScan(junk: string, digits: string, stop: char, rest: string)
    requires forall i :: 0 <= i < |junk| ==> !IsXDigit(junk[i]) && junk[i] != '\n' && junk[i] != '\0'
    requires |digits| > 0 && forall i :: 0 <= i < |digits| ==> IsXDigit(digits[i])
    requires !IsXDigit(stop)
    ensures ParsedDigits(junk + digits + [stop] + rest) ==
      seq(|digits|, i requires 0 <= i < |digits| => HexValue(digits[i]))
  {
    if junk == [] {
      assert junk + digits + [stop] + rest == digits + [stop] + rest;
      HexRunOfDigits(digits, stop, rest);
    } else {
      ParsedDigitsScan(junk[1..], digits, stop, rest);
      assert (junk + digits + [stop] + rest)[1..] == junk[1..] + digits + [stop] + rest;
    }
  }

  /** Round trip: ParseHex with Length L > 0 applied to what fprintBstr wrote
      for an L-byte buffer (with an empty S) recovers the buffer. */
  lemma BstrRoundTrip(a: seq<byte>)
    requires |a| > 0
    ensures |BstrText("", a)| == 2 * |a| + 1
    ensures ParseHexResult(BstrText("", a), |a|) == a
  {
    var text := HexText(a);
    HexTextIsNibbles(a);
    forall i | 0 <= i < |text| ensures IsXDigit(text[i]) && HexValue(text[i]) == Nibbles(a)[i] {
      HexValueOfBase16(Nibbles(a)[i]);
    }
    assert BstrText("", a) == text + ['\n'] + "";
    HexRunOfDigits(text, '\n', "");
    assert text[0] != '\0';
    assert ParsedDigits(BstrText("", a)) == Nibbles(a);
    assert Register(Nibbles(a), 2 * |a|) == Nibbles(a);
    PackNibbles(a);
  }

  // ---------------------------------------------------------------------------
  // fprintMat

  /** `%d` of a non-negative integer. */
  function Decimal(v: nat): (r: string)
  {
    if v < 10 then [DecimalDigit(v)] else Decimal(v / 10) + [DecimalDigit(v % 10)]
  }

  function DecimalDigit(d: nat): (c: char)
    requires d < 10
    ensures '0' <= c <= '9' && c as int - '0' as int == d
  {
    ('0' as int + d) as char
  }

  /** `%d` prints at least one character, and only decimal digits: none of
      the brackets, commas, blanks or newlines that frame the entries. */
  lemma {:induction false} DecimalDigits(v: nat)
    ensures |Decimal(v)| >= 1
    ensures forall i :: 0 <= i < |Decimal(v)| ==> '0' <= Decimal(v)[i] <= '9'
  {
    if v >= 10 {
      DecimalDigits(v / 10);
    }
  }

  /** The value of a string of decimal digits. */
  function DecimalValue(s: string): int
  {
    Digits(10, seq(|s|, i requires 0 <= i < |s| => s[i] as int - '0' as int))
  }

  /** Reading back an entry printed with `%d` gives the entry. */
  lemma {:induction false} DecimalRoundTrip(v: nat)
    ensures DecimalValue(Decimal(v)) == v
  {
    var s := Decimal(v);
    var ds := seq(|s|, i requires 0 <= i < |s| => s[i] as int - '0' as int);
    if v >= 10 {
      var s' := Decimal(v / 10);
      DecimalRoundTrip(v / 10);
      assert s == s' + [DecimalDigit(v % 10)];
      assert ds[..|ds| - 1] == seq(|s'|, i requires 0 <= i < |s'| => s'[i] as int - '0' as int);
      assert ds[|ds| - 1] == v % 10;
      assert DecimalValue(s) == DecimalValue(s') * 10 + v % 10;
    } else {
      assert ds == [v];
      assert Digits(10, ds) == Digits(10, ds[..0]) * 10 + v;
    }
  }

  /** The separator after entry j of a row of ncols entries. */
  function Separator(j: nat, ncols: nat): string
  {
    if j < ncols - 1 then ", " else ""
  }

  /** The entries 0..j-1 of row r, each followed by its separator. */
  function EntriesText(m: array2<byte>, r: nat, j: nat): string
    reads m
    requires r < m.Length0 && j <= m.Length1
  {
    if j == 0 then "" else EntriesText(m, r, j - 1) + Decimal(m[r, j - 1]) + Separator(j - 1, m.Length1)
  }

  /** Row r as printed: "[" entries "]" and ",\n" unless it is the last row. */
  function RowText(m: array2<byte>, r: nat): string
    reads m
    requires r < m.Length0
  {
    "[" + EntriesText(m, r, m.Length1) + (if r < m.Length0 - 1 then "],\n" else "]\n")
  }

  /** Rows 0..i-1 as printed. */
  function RowsText(m: array2<byte>, i: nat): string
    reads m
    requires i <= m.Length0
  {
    if i == 0 then "" else RowsText(m, i - 1) + RowText(m, i - 1)
  }

  /** Everything fprintMat writes. */
  function MatText(m: array2<byte>): string
    reads m
  {
    "[\n" + RowsText(m, m.Length0) + "]\n"
  }

  /** Lines 119-125: the entries of row r, separated by ", ". */
  method FprintRowEntries(m: array2<byte>, r: nat) returns (written: string)
    requires r < m.Length0
    ensures written == EntriesText(m, r, m.Length1)
  {
    written := "";
    var j := 0;
    while j < m.Length1
      invariant 0 <= j <= m.Length1
      invariant written == EntriesText(m, r, j)
    {
      written := written + Decimal(m[r, j]);
      if j < m.Length1 - 1 {
        written := written + ", ";
      }
      j := j + 1;
    }
  }

  /** Lines 115-129. The name argument is not printed (line 116 is commented
      out in the source). */
  method FprintMat(name: string, m: array2<byte>) returns (written: string)
    ensures written == MatText(m)
  {
    written := "[\n";
    var i := 0;
    while i < m.Length0
      invariant 0 <= i <= m.Length0
      invariant written == "[\n" + RowsText(m, i)
    {
      var entries := FprintRowEntries(m, i);
      var row := "[" + entries + (if i < m.Length0 - 1 then "],\n" else "]\n");
      assert row == RowText(m, i);
      StringAssoc("[\n", RowsText(m, i), row);
      written := written + row;
      i := i + 1;
    }
    written := written + "]\n";
  }

  // ---------------------------------------------------------------------------
  // Reading a printed row back

  lemma StringAssoc(a: string, b: string, c: string)
    ensures a + b + c == a + (b + c)
  {
  }

  /** Number of leading decimal digits of s. */
  function DigitPrefix(s: string): (k: nat)
    ensures k <= |s|
  {
    if s == [] || !('0' <= s[0] <= '9') then 0 else 1 + DigitPrefix(s[1..])
  }

  /** The reference reader of one printed row: decimal numbers separated by
      ", ". */
  function ReadEntries(s: string): seq<int>
    decreases |s|
  {
    if s == [] then []
    else
      var k := DigitPrefix(s);
      if k + 2 <= |s| && s[k..k + 2] == ", " then [DecimalValue(s[..k])] + ReadEntries(s[k + 2..])
      else [DecimalValue(s[..k])]
  }

  /** The entries j..ncols-1 of row r, each followed by its separator. */
  function EntriesFrom(m: array2<byte>, r: nat, j: nat): string
    reads m
    requires r < m.Length0 && j <= m.Length1
    decreases m.Length1 - j
  {
    if j == m.Length1 then "" else Decimal(m[r, j]) + Separator(j, m.Length1) + EntriesFrom(m, r, j + 1)
  }

  function RowValues(m: array2<byte>, r: nat): (vs: seq<int>)
    reads m
    requires r < m.Length0
    ensures |vs| == m.Length1
  {
    seq(m.Length1, t requires 0 <= t < m.Length1 reads m => m[r, t] as int)
  }

  lemma {:induction false} EntriesSplit(m: array2<byte>, r: nat, j: nat)
    requires r < m.Length0 && j <= m.Length1
    ensures EntriesText(m, r, j) + EntriesFrom(m, r, j) == EntriesFrom(m, r, 0)
  {
    if j > 0 {
      EntriesSplit(m, r, j - 1);
      var entry := Decimal(m[r, j - 1]) + Separator(j - 1, m.Length1);
      assert EntriesFrom(m, r, j - 1) == entry + EntriesFrom(m, r, j);
      assert EntriesText(m, r, j) == EntriesText(m, r, j - 1) + entry;
      StringAssoc(EntriesText(m, r, j - 1), entry, EntriesFrom(m, r, j));
    }
  }

  lemma {:induction false} DigitPrefixOfDecimal(d: string, rest: string)
    requires forall i :: 0 <= i < |d| ==> '0' <= d[i] <= '9'
    requires rest == [] || !('0' <= rest[0] <= '9')
    ensures DigitPrefix(d + rest) == |d|
  {
    if d != [] {
      assert (d + rest)[1..] == d[1..] + rest;
      DigitPrefixOfDecimal(d[1..], rest);
    } else {
      assert d + rest == rest;
    }
  }

  /** Reading one printed entry, its separator and what follows it. */
  lemma ReadOneEntry(v: nat, rest: string, last: bool)
    requires last ==> rest == []
    ensures ReadEntries(Decimal(v) + (if last then "" else ", ") + rest) == [v] + (if last then [] else ReadEntries(rest))
  {
    var d := Decimal(v);
    var s := d + (if last then "" else ", ") + rest;
    DecimalDigits(v);
    DecimalRoundTrip(v);
    if !last {
      assert s == d + (", " + rest);
      DigitPrefixOfDecimal(d, ", " + rest);
      assert s[..|d|] == d;
      assert s[|d|..|d| + 2] == ", ";
      assert s[|d| + 2..] == rest;
    } else {
      assert s == d + [];
      DigitPrefixOfDecimal(d, []);
      assert s[..|d|] == d;
    }
  }

  lemma {:induction false} ReadEntriesFrom(m: array2<byte>, r: nat, j: nat)
    requires r < m.Length0 && j <= m.Length1
    ensures ReadEntries(EntriesFrom(m, r, j)) == RowValues(m, r)[j..]
    decreases m.Length1 - j
  {
    if j < m.Length1 {
      var last := j == m.Length1 - 1;
      ReadEntriesFrom(m, r, j + 1);
      EntriesFromStep(m, r, j);
      ReadOneEntry(m[r, j], EntriesFrom(m, r, j + 1), last);
      RowValuesDrop(m, r, j);
    }
  }

  lemma EntriesFromStep(m: array2<byte>, r: nat, j: nat)
    requires r < m.Length0 && j < m.Length1
    ensures EntriesFrom(m, r, j) ==
      Decimal(m[r, j]) + (if j == m.Length1 - 1 then "" else ", ") + EntriesFrom(m, r, j + 1)
    ensures j == m.Length1 - 1 ==> EntriesFrom(m, r, j + 1) == []
  {
  }

  lemma RowValuesDrop(m: array2<byte>, r: nat, j: nat)
    requires r < m.Length0 && j < m.Length1
    ensures RowValues(m, r)[j..] == [m[r, j] as int] + RowValues(m, r)[j + 1..]
  {
  }

  /** Round trip of the row format: reading the entries fprintMat printed for
      row r (between its brackets) gives the row back. */
  lemma RowRoundTrip(m: array2<byte>, r: nat)
    requires r < m.Length0
    ensures ReadEntries(EntriesText(m, r, m.Length1)) == RowValues(m, r)
  {
    EntriesSplit(m, r, m.Length1);
    assert EntriesFrom(m, r, m.Length1) == "";
    assert EntriesText(m, r, m.Length1) + "" == EntriesText(m, r, m.Length1);
    ReadEntriesFrom(m, r, 0);
  }
}
