/** Numbers as text (src/lib/snprintf.c): `u64toa_r`, `i64toa_r`, `u64toh_r`. */
module Digits {
  import opened Common

  const WORD := 0x1_0000_0000_0000_0000
  const HALF := 0x8000_0000_0000_0000

  function ValueOf(c: char): int {
    if '0' <= c <= '9' then c as int - '0' as int else if 'a' <= c <= 'f' then c as int - 'a' as int + 10 else -1
  }

  function Digit(d: nat): (c: char)
    requires d < 16
    ensures c != '\0' && ValueOf(c) == d
  {
    if d < 10 then '0' + d as char else 'a' + (d - 10) as char
  }

  lemma DigitIs(d: nat)
    requires d < 16
    ensures Digit(d) == "0123456789abcdef"[d]
  {
  }

  /** The digits of n in the given base, without leading zeros. */
  function Text(n: nat, base: nat): (s: string)
    requires 2 <= base <= 16
    ensures |s| > 0 && forall i :: 0 <= i < |s| ==> s[i] != '\0'
  {
    if n < base then [Digit(n)] else Text(n / base, base) + [Digit(n % base)]
  }

  // ----- reading digits back -----

  function Read(s: string, base: nat): int {
    if s == [] then 0 else Read(s[..|s| - 1], base) * base + ValueOf(s[|s| - 1])
  }

  lemma DivMod(n: nat, base: nat)
    requires base > 0
    ensures n == n / base * base + n % base && (base > 1 && n > 0 ==> n / base < n)
  {
    if base > 1 {
      Scale(n / base, 2, base);
    }
  }

  lemma ReadLast(s: string, c: char, base: nat)
    ensures Read(s + [c], base) == Read(s, base) * base + ValueOf(c)
  {
    assert (s + [c])[..|s|] == s;
  }

  lemma {:induction false} ReadText(n: nat, base: nat)
    requires 2 <= base <= 16
    ensures Read(Text(n, base), base) == n
  {
    if n < base {
      ReadLast([], Digit(n), base);
      assert [] + [Digit(n)] == Text(n, base);
    } else {
      var q, r := n / base, n % base;
      assert q < n && n == q * base + r by { DivMod(n, base); }
      ReadText(q, base);
      assert Text(n, base) == Text(q, base) + [Digit(r)];
      assert Read(Text(n, base), base) == Read(Text(q, base), base) * base + r by { ReadLast(Text(q, base), Digit(r), base); }
    }
  }

  /** The text of a 64-bit two's complement value. */
  function SignedText(v: nat): string
    requires v < WORD
  {
    if v < HALF then Text(v, 10) else "-" + Text(WORD - v, 10)
  }

  function ReadSigned(s: string): int {
    if s != [] && s[0] == '-' then -Read(s[1..], 10) else Read(s, 10)
  }

  lemma {:induction false} FirstDigit(n: nat, base: nat)
    requires 2 <= base <= 16
    ensures ValueOf(Text(n, base)[0]) >= 0
  {
    if n >= base {
      FirstDigit(n / base, base);
    }
  }

  /** Every 64-bit value comes back, the most negative one too. */
  lemma ReadSignedText(v: nat)
    requires v < WORD
    ensures ReadSigned(SignedText(v)) == if v < HALF then v else v - WORD
  {
    if v < HALF {
      ReadText(v, 10);
      FirstDigit(v, 10);
    } else {
      ReadText(WORD - v, 10);
      assert SignedText(v)[1..] == Text(WORD - v, 10);
    }
  }

  // ----- lengths -----

  function Pow(base: nat, k: nat): (p: nat)
    requires base > 0
    ensures p > 0
  {
    if k == 0 then 1 else base * Pow(base, k - 1)
  }

  lemma {:induction false} TextLength(n: nat, base: nat, k: nat)
    requires 2 <= base <= 16 && k > 0 && n < Pow(base, k)
    ensures |Text(n, base)| <= k
    decreases k
  {
    if n >= base {
      var q := n / base;
      assert k > 1 && q < Pow(base, k - 1) by { Shorter(n, base, k); }
      TextLength(q, base, k - 1);
    }
  }

  lemma Shorter(n: nat, base: nat, k: nat)
    requires base > 0 && k > 0 && base <= n < Pow(base, k)
    ensures k > 1 && n / base < Pow(base, k - 1)
  {
    assert Pow(base, 1) == base * Pow(base, 0);
    Shrink(n, base, Pow(base, k - 1));
  }

  lemma Shrink(n: nat, base: nat, p: nat)
    requires base > 0 && n < base * p
    ensures n / base < p
  {
    var q := n / base;
    if q >= p {
      Scale(base, p, q);
    }
  }

  lemma Powers()
    ensures Pow(10, 19) == 10_000_000_000_000_000_000 && Pow(10, 20) == 100_000_000_000_000_000_000 && Pow(16, 16) == WORD
  {
    PowSum(10, 4, 4);
    PowSum(10, 8, 8);
    PowSum(10, 16, 3);
    PowSum(10, 16, 4);
    PowSum(16, 4, 4);
    PowSum(16, 8, 8);
  }

  lemma {:induction false} PowSum(base: nat, a: nat, b: nat)
    requires base > 0
    ensures Pow(base, a + b) == Pow(base, a) * Pow(base, b)
  {
    if a > 0 {
      PowSum(base, a - 1, b);
    }
  }

  /** A 64-bit number has at most 20 decimal and 16 hexadecimal digits, half of the range 19. */
  lemma Lengths(v: nat)
    requires v < WORD
    ensures |Text(v, 10)| <= 20 && |Text(v, 16)| <= 16 && (v <= HALF ==> |Text(v, 10)| <= 19)
  {
    Powers();
    TextLength(v, 10, 20);
    TextLength(v, 16, 16);
    if v <= HALF {
      TextLength(v, 10, 19);
    }
  }

  lemma {:induction false} LengthMonotone(a: nat, b: nat, base: nat)
    requires 2 <= base <= 16 && a <= b
    ensures |Text(a, base)| <= |Text(b, base)|
  {
    if a >= base {
      var p, q := a / base, b / base;
      assert p <= q by { DivMonotone(a, b, base); }
      assert p < a by { DivMod(a, base); }
      LengthMonotone(p, q, base);
    }
  }

  lemma DivMonotone(a: nat, b: nat, base: nat)
    requires base > 0 && a <= b
    ensures a / base <= b / base
  {
    var p, q := a / base, b / base;
    if p >= q + 1 {
      Scale(base, q + 1, p);
    }
  }

  /** One more digit: q is what has been written so far. */
  lemma NextDigit(value: nat, q: nat, rest: nat, pos: nat, dig: nat, rest': nat)
    requires value == q * Pow(10, pos + 1) + rest && rest < Pow(10, pos + 1)
    requires rest == dig * Pow(10, pos) + rest' && rest' < Pow(10, pos)
    ensures dig < 10 && value == (q * 10 + dig) * Pow(10, pos) + rest' && q * 10 + dig <= value
  {
    var lim := Pow(10, pos);
    assert Pow(10, pos + 1) == 10 * lim;
    if dig >= 10 {
      Scale(lim, 10, dig);
    }
    assert q * (10 * lim) == q * 10 * lim;
    assert (q * 10 + dig) * lim == q * 10 * lim + dig * lim;
    Scale(q * 10 + dig, 1, lim);
  }

  lemma AppendDigit(q: nat, d: nat, base: nat)
    requires 2 <= base <= 16 && d < base
    ensures Text(q * base + d, base) == if q == 0 then [Digit(d)] else Text(q, base) + [Digit(d)]
  {
    if q > 0 {
      Scale(base, 1, q);
      var n := q * base + d;
      assert n / base == q && n % base == d by { Quotient(q, d, base); }
    }
  }

  lemma Quotient(q: nat, d: nat, base: nat)
    requires base > 0 && d < base
    ensures (q * base + d) / base == q && (q * base + d) % base == d
  {
    var n := q * base + d;
    var p, r := n / base, n % base;
    assert n == p * base + r by { DivMod(n, base); }
    if p > q {
      Scale(base, q + 1, p);
    } else if p < q {
      Scale(base, p + 1, q);
    }
  }

  ghost predicate SplitAt(k: int, value: nat, q: nat, rest: nat, pos: nat) {
    k == 0 ==> value == q * Pow(10, pos) + rest && rest < Pow(10, pos)
  }

  /** The digits above position pos are q, the rest is still to be written.  Stated under a quantifier to keep the
      products out of the proof of the loop. */
  ghost predicate Split(value: nat, q: nat, rest: nat, pos: nat) {
    forall k :: SplitAt(k, value, q, rest, pos)
  }

  lemma Ends(value: nat)
    requires value < WORD
    ensures Split(value, 0, value, 20)
    ensures forall q: nat, rest: nat :: Split(value, q, rest, 0) ==> q == value
  {
    Powers();
    forall q: nat, rest: nat | Split(value, q, rest, 0)
      ensures q == value
    {
      assert SplitAt(0, value, q, rest, 0);
    }
  }

  lemma WriteOne(value: nat, q: nat, rest: nat, pos: nat, dig: nat, rest': nat)
    requires Split(value, q, rest, pos + 1) && rest == dig * Pow(10, pos) + rest' && rest' < Pow(10, pos)
    ensures (rest >= Pow(10, pos) ==> dig > 0) && dig < 10 && Split(value, q * 10 + dig, rest', pos) && |Text(q * 10 + dig, 10)| <= |Text(value, 10)|
    ensures Text(q * 10 + dig, 10) == if q == 0 then [Digit(dig)] else Text(q, 10) + [Digit(dig)]
  {
    assert SplitAt(0, value, q, rest, pos + 1);
    NextDigit(value, q, rest, pos, dig, rest');
    AppendDigit(q, dig, 10);
    LengthMonotone(q * 10 + dig, value, 10);
  }

  lemma SkipOne(value: nat, rest: nat, pos: nat)
    requires Split(value, 0, rest, pos + 1) && rest < Pow(10, pos)
    ensures Split(value, 0, rest, pos)
  {
    assert SplitAt(0, value, 0, rest, pos + 1);
  }

  /** The next digit of the value, at position pos. */
  method TakeDigit(rest: nat, lim: nat, ghost value: nat, ghost q: nat, ghost pos: nat) returns (dig: nat, rest': nat, ghost q': nat)
    requires Split(value, q, rest, pos + 1) && lim == Pow(10, pos)
    ensures dig < 10 && Split(value, q', rest', pos) && (q > 0 || rest >= lim ==> q' > 0) && |Text(q', 10)| <= |Text(value, 10)|
    ensures Text(q', 10) == if q == 0 then [Digit(dig)] else Text(q, 10) + [Digit(dig)]
  {
    dig, rest' := Divide(rest, lim);
    q' := q * 10 + dig;
    WriteOne(value, q, rest, pos, dig, rest');
  }

  method Emit(buffer: array<char>, at: nat, digits: nat, c: char)
    requires at + digits < buffer.Length
    modifies buffer
    ensures buffer[at..at + digits + 1] == old(buffer[at..at + digits]) + [c]
    ensures forall i :: 0 <= i < buffer.Length && i != at + digits ==> buffer[i] == old(buffer[i])
  {
    buffer[at + digits] := c;
  }

  /** u64toa_r: the decimal digits of the value and a terminator, and not a character more. */
  method U64ToA(value: nat, buffer: array<char>, at: nat) returns (digits: nat)
    requires value < WORD && at + |Text(value, 10)| < buffer.Length
    modifies buffer
    ensures digits == |Text(value, 10)| && buffer[at..at + digits] == Text(value, 10) && buffer[at + digits] == '\0'
    ensures forall i :: 0 <= i < buffer.Length && !(at <= i <= at + digits) ==> buffer[i] == old(buffer[i])
  {
    digits := 0;
    var rest, pos := value, 20;
    ghost var q := 0;
    Ends(value);
    while pos > 0
      invariant 0 <= pos <= 20 && Split(value, q, rest, pos) && digits <= |Text(value, 10)|
      invariant if digits == 0 then q == 0 && pos > 0 else buffer[at..at + digits] == Text(q, 10) && (pos > 0 ==> q > 0)
      invariant forall i :: 0 <= i < buffer.Length && !(at <= i < at + digits) ==> buffer[i] == old(buffer[i])
    {
      pos := pos - 1;
      var lim := Power(pos);
      if digits > 0 || rest >= lim || pos == 0 {
        var dig;
        dig, rest, q := TakeDigit(rest, lim, value, q, pos);
        Emit(buffer, at, digits, Digit(dig));
        digits := digits + 1;
      } else {
        SkipOne(value, rest, pos);
      }
    }
    assert q == value;
    buffer[at + digits] := '\0';
  }

  /** The loop that computes the limit of a digit. */
  method Power(pos: nat) returns (lim: nat)
    ensures lim == Pow(10, pos)
  {
    lim := 1;
    var dig := 0;
    while dig < pos
      invariant dig <= pos && lim == Pow(10, dig)
    {
      lim := lim * 10;
      dig := dig + 1;
    }
  }

  /** The loop that finds a digit by subtraction. */
  method Divide(n: nat, lim: nat) returns (dig: nat, rest: nat)
    requires lim > 0
    ensures n == dig * lim + rest && rest < lim
  {
    dig, rest := 0, n;
    while rest >= lim
      invariant n == dig * lim + rest
    {
      rest := rest - lim;
      dig := dig + 1;
    }
  }

  lemma Prepend(b: seq<char>, at: nat, n: nat)
    requires at + 1 + n <= |b|
    ensures b[at..at + 1 + n] == [b[at]] + b[at + 1..at + 1 + n]
  {
  }

  /** The sign and the digits of the absolute value. */
  method Negative(n: nat, buffer: array<char>, at: nat) returns (len: nat)
    requires n < WORD && at + 1 + |Text(n, 10)| < buffer.Length
    modifies buffer
    ensures len == 1 + |Text(n, 10)| && buffer[at..at + len] == ['-'] + Text(n, 10) && buffer[at + len] == '\0'
    ensures forall i :: 0 <= i < buffer.Length && !(at <= i <= at + len) ==> buffer[i] == old(buffer[i])
  {
    buffer[at] := '-';
    var digits := U64ToA(n, buffer, at + 1);
    len := digits + 1;
    Prepend(buffer[..], at, digits);
    assert buffer[at..at + len] == buffer[..][at..at + len] && buffer[at + 1..at + len] == buffer[..][at + 1..at + len];
  }

  /** i64toa_r, on the bits of the value: the sign, then the digits of the absolute value, which for the most
      negative value only fits the unsigned type. */
  method I64ToA(bits: nat, buffer: array<char>, at: nat) returns (len: nat)
    requires bits < WORD && at + |SignedText(bits)| < buffer.Length
    modifies buffer
    ensures len == |SignedText(bits)| && buffer[at..at + len] == SignedText(bits) && buffer[at + len] == '\0'
    ensures forall i :: 0 <= i < buffer.Length && !(at <= i <= at + len) ==> buffer[i] == old(buffer[i])
  {
    if bits >= HALF {
      len := Negative(WORD - bits, buffer, at);
    } else {
      len := U64ToA(bits, buffer, at);
    }
  }

  // ----- hexadecimal -----

  /** v without its lowest k hexadecimal digits: v >> 4k. */
  function Shifted(v: nat, k: nat): nat {
    if k == 0 then v else Shifted(v, k - 1) / 16
  }

  lemma {:induction false} ShiftedOut(v: nat, k: nat)
    requires v < Pow(16, k)
    ensures Shifted(v, k) == 0
  {
    ShiftedLess(v, k, k);
  }

  lemma {:induction false} ShiftedLess(v: nat, k: nat, j: nat)
    requires v < Pow(16, k) && j <= k
    ensures Shifted(v, j) < Pow(16, k - j)
  {
    if j > 0 {
      ShiftedLess(v, k, j - 1);
      assert Pow(16, k - j + 1) == 16 * Pow(16, k - j);
    }
  }

  lemma {:induction false} ShiftedSmaller(v: nat, k: nat)
    ensures Shifted(v, k) <= v
  {
    if k > 0 {
      ShiftedSmaller(v, k - 1);
    }
  }

  lemma HexDigit(v: nat, k: nat)
    ensures var q, dig := Shifted(v, k + 1), Shifted(v, k) % 16;
            && Shifted(v, k) == q * 16 + dig && |Text(Shifted(v, k), 16)| <= |Text(v, 16)|
            && Text(Shifted(v, k), 16) == if q == 0 then [Digit(dig)] else Text(q, 16) + [Digit(dig)]
  {
    AppendDigit(Shifted(v, k + 1), Shifted(v, k) % 16, 16);
    ShiftedSmaller(v, k);
    LengthMonotone(Shifted(v, k), v, 16);
  }

  /** u64toh_r: the hexadecimal digits and a terminator. */
  method U64ToH(v: nat, buffer: array<char>, at: nat) returns (digits: nat)
    requires v < WORD && at + |Text(v, 16)| < buffer.Length
    modifies buffer
    ensures digits == |Text(v, 16)| && buffer[at..at + digits] == Text(v, 16) && buffer[at + digits] == '\0'
    ensures forall i :: 0 <= i < buffer.Length && !(at <= i <= at + digits) ==> buffer[i] == old(buffer[i])
  {
    var k := 16;
    digits := 0;
    assert Shifted(v, 16) == 0 by {
      Powers();
      ShiftedOut(v, 16);
    }
    while k > 0
      invariant 0 <= k <= 16 && digits <= |Text(v, 16)|
      invariant if digits == 0 then Shifted(v, k) == 0 && k > 0
                else buffer[at..at + digits] == Text(Shifted(v, k), 16) && (k > 0 ==> Shifted(v, k) > 0)
      invariant forall i :: 0 <= i < buffer.Length && !(at <= i < at + digits) ==> buffer[i] == old(buffer[i])
    {
      k := k - 1;
      HexDigit(v, k);
      var dig := Shifted(v, k) % 16;
      if dig != 0 || digits > 0 || k == 0 {
        Emit(buffer, at, digits, Digit(dig));
        digits := digits + 1;
      }
    }
    buffer[at + digits] := '\0';
  }
}
