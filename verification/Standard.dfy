/** What section 7.21.6.1 of C11 says of the formats that `kvsnprintf` (src/lib/snprintf.c) supports, and when it is
    what `kvsnprintf` gives.  A format is a list of directives here, and the format string is how they are written;
    nothing is taken from the way the code reads it. */
module Standard {
  import opened Common
  import opened Digits
  import opened Snprintf

  // ----- directives -----

  /** The length modifiers: j letters l, or a z. */
  datatype Modifier = Longs(j: nat) | Size

  /** A character of plain text, %%, or a conversion specification: the 0 flag, the digits of the field width, the
      length modifier and the conversion. */
  datatype Directive = Plain(c: char) | Percent | Conversion(zero: bool, width: string, modifier: Modifier, c: char)

  predicate Number(c: char) {
    c == 'd' || c == 'u' || c == 'x'
  }

  predicate WellFormed(p: Directive) {
    match p
    case Plain(c) => c != '%' && c != '\0'
    case Percent => true
    case Conversion(zero, width, _, c) =>
      && (Number(c) || c == 'c' || c == 'p' || c == 's')
      && (forall i :: 0 <= i < |width| ==> '0' <= width[i] <= '9')
      && (!zero && width != "" ==> width[0] != '0')
  }

  function WriteModifier(m: Modifier): string {
    match m
    case Longs(j) => seq(j, _ => 'l')
    case Size => "z"
  }

  /** How a directive is written. */
  function Write(p: Directive): string {
    match p
    case Plain(c) => [c]
    case Percent => "%%"
    case Conversion(zero, width, m, c) => "%" + (if zero then "0" else "") + width + WriteModifier(m) + [c]
  }

  function Written(ps: seq<Directive>): string {
    if ps == [] then "" else Write(ps[0]) + Written(ps[1..])
  }

  /** The number that decimal digits stand for. */
  function Decimal(s: string): nat
    requires forall i :: 0 <= i < |s| ==> '0' <= s[i] <= '9'
  {
    if s == [] then 0 else Decimal(s[..|s| - 1]) * 10 + (s[|s| - 1] as int - '0' as int)
  }

  // ----- what they mean -----

  /** A number in a base, the most significant digit first. */
  function Numeral(n: nat, base: nat): string
    requires 2 <= base <= 16
  {
    if n < base then ["0123456789abcdef"[n]] else Numeral(n / base, base) + ["0123456789abcdef"[n % base]]
  }

  /** The number of values of the integer type that the modifier names. */
  function Range(m: Modifier): nat {
    if m == Longs(0) then 0x1_0000_0000 else 0x1_0000_0000_0000_0000
  }

  /** The signed integer with these bits. */
  function Signed(bits: nat, range: nat): int
    requires range > 0
  {
    var v := bits % range;
    if 2 * v >= range then v - range else v
  }

  datatype Field = Field(sign: string, body: string) {
    function Length(): nat {
      |sign| + |body|
    }

    /** The field padded to the width; zeros go behind the sign. */
    function Padded(zero: bool, width: nat): string {
      var n := if width > Length() then width - Length() else 0;
      if zero then sign + seq(n, _ => '0') + body else seq(n, _ => ' ') + sign + body
    }
  }

  /** What a conversion makes of its argument: %c one character, whatever it is. */
  function Meaning(c: char, m: Modifier, a: Arg): Field
    requires if c == 's' then a.Str? else a.Int?
  {
    if c == 'c' then Field("", [(a.bits % 256) as char])
    else if c == 'd' then
      var n := Signed(a.bits, Range(m));
      if n < 0 then Field("-", Numeral(-n, 10)) else Field("", Numeral(n, 10))
    else if c == 'u' then Field("", Numeral(a.bits % Range(m), 10))
    else if c == 'x' then Field("", Numeral(a.bits % Range(m), 16))
    else if c == 's' then Field("", a.s)
    else Field("", "0x" + Numeral(a.bits % 0x1_0000_0000_0000_0000, 16))
  }

  /** The conversion specifications for which the standard defines the result: no 0 flag but for numbers, no modifier
      but for integers, no more than two l, and an argument of the right kind. */
  predicate Defined(p: Directive, a: Arg) {
    && p.Conversion? && WellFormed(p)
    && (p.zero ==> Number(p.c)) && (p.modifier.Longs? ==> p.modifier.j <= 2) && (!Number(p.c) ==> p.modifier == Longs(0))
    && if p.c == 's' then a.Str? else a.Int?
  }

  /** When kvsnprintf gives what the standard says: not for a null character, nor for zeros in front of a minus sign,
      nor for a width that a machine word does not hold and that has an effect. */
  predicate Conforming(p: Directive, a: Arg)
    requires Defined(p, a)
  {
    var width, length := Decimal(p.width), Meaning(p.c, p.modifier, a).Length();
    && !(p.c == 'c' && a.bits % 256 == 0)
    && !(p.c == 'd' && p.zero && Signed(a.bits, Range(p.modifier)) < 0 && width > length)
    && !(width >= 0x1_0000_0000_0000_0000 && width > length)
  }

  /** All directives are defined, with the arguments that they take. */
  predicate Supported(ps: seq<Directive>, args: seq<Arg>) {
    if ps == [] then true
    else if !ps[0].Conversion? then WellFormed(ps[0]) && Supported(ps[1..], args)
    else args != [] && Defined(ps[0], args[0]) && Supported(ps[1..], args[1..])
  }

  /** The text that the standard says. */
  function StandardText(ps: seq<Directive>, args: seq<Arg>): string
    requires Supported(ps, args)
  {
    if ps == [] then ""
    else
      match ps[0]
      case Plain(c) => [c] + StandardText(ps[1..], args)
      case Percent => "%" + StandardText(ps[1..], args)
      case Conversion(zero, width, m, c) => Meaning(c, m, args[0]).Padded(zero, Decimal(width)) + StandardText(ps[1..], args[1..])
  }

  predicate AllConforming(ps: seq<Directive>, args: seq<Arg>)
    requires Supported(ps, args)
  {
    if ps == [] then true
    else if !ps[0].Conversion? then AllConforming(ps[1..], args)
    else Conforming(ps[0], args[0]) && AllConforming(ps[1..], args[1..])
  }

  // ----- how the code reads a specification -----

  lemma {:induction false} LongsRun(fmt: CString, p: nat, e: nat)
    requires p <= e < |fmt| && (forall i :: p <= i < e ==> fmt[i] == 'l') && fmt[e] != 'l'
    ensures LongsEnd(fmt, p) == e
    decreases e - p
  {
    if p < e {
      LongsRun(fmt, p + 1, e);
    }
  }

  lemma {:induction false} WidthSoFar(fmt: CString, p: nat, e: nat)
    requires p <= e <= |fmt| && forall i :: 0 <= i < |fmt[p..e]| ==> '0' <= fmt[p..e][i] <= '9'
    ensures Width(fmt, p, 0) == Width(fmt, e, Decimal(fmt[p..e]) % WORD)
    decreases e
  {
    if p < e {
      assert fmt[p..e - 1] == fmt[p..e][..e - 1 - p] && fmt[p..e][e - 1 - p] == fmt[e - 1];
      WidthSoFar(fmt, p, e - 1);
      TimesMod(Decimal(fmt[p..e - 1]), ValueOf(fmt[e - 1]));
    }
  }

  lemma TimesMod(w: nat, v: nat)
    ensures (w % WORD * 10 + v) % WORD == (w * 10 + v) % WORD
  {
    Shift(w * 10 + v, WORD, w / WORD * 10);
  }

  /** How many l the code takes a modifier for. */
  function LongsOf(m: Modifier): nat {
    match m
    case Longs(j) => j
    case Size => 1
  }

  /** Where the parts of a specification are that is written at i. */
  lemma PartsAt(fmt: CString, i: nat, p: Directive) returns (a: nat, b: nat, at: nat)
    requires p.Conversion? && WellFormed(p) && i + |Write(p)| <= |fmt| && fmt[i..i + |Write(p)|] == Write(p)
    ensures a == i + (if p.zero then 2 else 1) && b == a + |p.width| && at == b + |WriteModifier(p.modifier)| == i + |Write(p)| - 1
    ensures fmt[i] == '%' && (p.zero ==> fmt[i + 1] == '0') && fmt[a..b] == p.width && fmt[b..at] == WriteModifier(p.modifier) && fmt[at] == p.c
  {
    var w, z, m := Write(p), (if p.zero then "0" else ""), WriteModifier(p.modifier);
    a := i + 1 + |z|;
    b := a + |p.width|;
    at := b + |m|;
    FivePieces("%", z, p.width, m, [p.c]);
    Inside(fmt, i, w, 1, 1 + |z|);
    Inside(fmt, i, w, a - i, b - i);
    Inside(fmt, i, w, b - i, at - i);
    assert fmt[i] == fmt[i..i + |w|][0] && fmt[at] == fmt[i..i + |w|][at - i];
    if p.zero {
      assert fmt[i + 1..i + 1 + |z|][0] == z[0];
    }
  }

  lemma FivePieces(a: string, b: string, c: string, d: string, e: string)
    requires |a| == |e| == 1
    ensures var w := a + b + c + d + e;
            && w[0] == a[0] && w[1..1 + |b|] == b && w[1 + |b|..1 + |b| + |c|] == c
            && w[1 + |b| + |c|..1 + |b| + |c| + |d|] == d && w[1 + |b| + |c| + |d|] == e[0]
  {
  }

  lemma Inside(s: string, i: nat, w: string, j: nat, k: nat)
    requires i + |w| <= |s| && s[i..i + |w|] == w && j <= k <= |w|
    ensures s[i + j..i + k] == w[j..k]
  {
    forall x | 0 <= x < k - j
      ensures s[i + j..i + k][x] == w[j..k][x]
    {
      assert s[i..i + |w|][j + x] == w[j + x];
    }
  }

  /** A specification that is written out is read as what it says: the flag, the width in a machine word, one l for each
      that is there, and one for a z. */
  lemma SpecOf(fmt: CString, i: nat, p: Directive)
    requires p.Conversion? && WellFormed(p) && i + |Write(p)| <= |fmt| && fmt[i..i + |Write(p)|] == Write(p)
    ensures SpecAt(fmt, i + 1) == Spec(if p.zero then '0' else ' ', Decimal(p.width) % WORD, LongsOf(p.modifier), i + |Write(p)| - 1)
    ensures fmt[i] == '%' && fmt[i + |Write(p)| - 1] == p.c && IsConversion(p.c)
  {
    var a, b, at := PartsAt(fmt, i, p);
    assert forall j :: a <= j < b ==> fmt[j] == fmt[a..b][j - a];
    assert forall j :: b <= j < at ==> fmt[j] == fmt[b..at][j - b];
    var m := WriteModifier(p.modifier);
    assert !IsDigit(fmt[b]) by { assert m != "" ==> fmt[b] == m[0]; }
    assert CharAt(fmt, i + 1) == '0' <==> p.zero by {
      if !p.zero && p.width != "" {
        assert fmt[a] == p.width[0];
      }
    }
    DigitsRun(fmt, a, b);
    WidthSoFar(fmt, a, b);
    if p.modifier.Longs? {
      LongsRun(fmt, b, at);
    } else {
      assert fmt[b] == m[0];
      LongsRun(fmt, b, b);
    }
  }

  // ----- one conversion -----

  lemma Modulo(n: nat, a: nat, b: nat)
    requires b > 0 && a > 0
    ensures n % (a * b) % b == n % b
  {
    var q := n / (a * b);
    assert n == a * b * q + n % (a * b);
    assert n % (a * b) == n - b * (a * q);
    Shift(n, b, a * q);
  }

  lemma Shift(n: nat, b: nat, k: nat)
    requires b > 0 && n >= b * k
    ensures (n - b * k) % b == n % b
  {
    var q, r := n / b, n % b;
    var m := n - b * k;
    var q1, r1 := m / b, m % b;
    assert b * (q - k - q1) == r1 - r;
    Multiples(b, q - k - q1);
  }

  lemma {:induction false} NumeralIs(n: nat, base: nat)
    requires 2 <= base <= 16
    ensures Numeral(n, base) == Text(n, base)
  {
    if n < base {
      DigitIs(n);
    } else {
      DigitIs(n % base);
      DivMod(n, base);
      NumeralIs(n / base, base);
    }
  }

  /** The text of a conversion without its width, but for a null character. */
  lemma ConvertedIs(p: Directive, a: Arg)
    requires Defined(p, a)
    ensures var f, text := Meaning(p.c, p.modifier, a), Converted(p.c, LongsOf(p.modifier), a);
            && (!(p.c == 'c' && a.bits % 256 == 0) ==> text == f.sign + f.body)
            && (p.c == 'c' && a.bits % 256 == 0 ==> text == "" && f == Field("", "\0"))
  {
    if p.c != 's' {
      assert a.bits % WORD % 0x1_0000_0000 == a.bits % 0x1_0000_0000 by { Modulo(a.bits, 0x1_0000_0000, 0x1_0000_0000); }
      assert a.bits % 0x1_0000_0000 % 256 == a.bits % 256 by { Modulo(a.bits, 0x100_0000, 256); }
      if p.c == 'd' {
        SignedIs(p.modifier, a);
      } else if p.c != 'c' {
        NumeralIs(Fetch(p.c, LongsOf(p.modifier), a), if p.c == 'u' then 10 else 16);
      }
    }
  }

  lemma SignedIs(m: Modifier, a: Arg)
    requires a.Int? && a.bits % WORD % 0x1_0000_0000 == a.bits % 0x1_0000_0000
    ensures var f := Meaning('d', m, a); SignedText(Fetch('d', LongsOf(m), a)) == f.sign + f.body
  {
    var n, v := Signed(a.bits, Range(m)), Fetch('d', LongsOf(m), a);
    assert v == if n < 0 then WORD + n else n;
    NumeralIs(if n < 0 then -n else n, 10);
  }

  /** What kvsnprintf makes of a conversion, and what the standard does. */
  function Ours(p: Directive, a: Arg): string
    requires Defined(p, a)
  {
    Padded(if p.zero then '0' else ' ', Decimal(p.width) % WORD, Converted(p.c, LongsOf(p.modifier), a))
  }

  function Theirs(p: Directive, a: Arg): string
    requires Defined(p, a)
  {
    Meaning(p.c, p.modifier, a).Padded(p.zero, Decimal(p.width))
  }

  predicate CompareParts(ours: string, theirs: string, same: bool) {
    && |ours| <= |theirs|
    && if same then ours == theirs else '\0' in theirs || |ours| < |theirs| || (ours != [] && ours[0] == '0' && theirs[0] == '-')
  }

  ghost predicate CompareAt(k: int, ours: string, theirs: string, same: bool) {
    k == 0 ==> CompareParts(ours, theirs, same)
  }

  /** They are the same, or it shows in one of three ways that they are not; closed to proofs that only pass it on. */
  ghost predicate Compare(ours: string, theirs: string, same: bool) {
    forall k :: CompareAt(k, ours, theirs, same)
  }

  /** One conversion gives what the standard says exactly if it conforms. */
  lemma FieldStandard(p: Directive, a: Arg)
    requires Defined(p, a)
    ensures Ours(p, a) == Theirs(p, a) <==> Conforming(p, a)
    ensures Compare(Ours(p, a), Theirs(p, a), Conforming(p, a))
  {
    var f, width, text := Meaning(p.c, p.modifier, a), Decimal(p.width), Converted(p.c, LongsOf(p.modifier), a);
    ConvertedIs(p, a);
    if p.c == 'c' && a.bits % 256 == 0 {
      PaddedLength(p.zero, width, f);
      EndsInNull(p.zero, width, f);
    } else {
      SignOf(p, a);
      PaddedIf(p.zero, width, f, text);
    }
    Differing(p, a);
  }

  /** Nothing that kvsnprintf makes of a conversion has a null character in it. */
  lemma Differing(p: Directive, a: Arg)
    requires Defined(p, a) && CompareParts(Ours(p, a), Theirs(p, a), Conforming(p, a))
    ensures Ours(p, a) == Theirs(p, a) <==> Conforming(p, a)
    ensures Compare(Ours(p, a), Theirs(p, a), Conforming(p, a))
  {
    assert '\0' !in Ours(p, a);
  }

  lemma SignOf(p: Directive, a: Arg)
    requires Defined(p, a)
    ensures var f := Meaning(p.c, p.modifier, a);
            (f.sign == "" || f.sign == "-") && (f.sign == "-" <==> p.c == 'd' && Signed(a.bits, Range(p.modifier)) < 0)
  {
  }

  lemma EndsInNull(zero: bool, width: nat, f: Field)
    requires f == Field("", "\0")
    ensures '\0' in f.Padded(zero, width)
  {
    var theirs := f.Padded(zero, width);
    assert theirs[|theirs| - 1] == '\0';
  }

  /** Padding in front of the sign or behind it. */
  lemma PaddedIf(zero: bool, width: nat, f: Field, text: string)
    requires text == f.sign + f.body && (f.sign == "" || f.sign == "-")
    ensures var ours, theirs := Padded(if zero then '0' else ' ', width % WORD, text), f.Padded(zero, width);
            && |ours| <= |theirs|
            && if width >= WORD && width > f.Length() then |ours| < |theirs|
               else if zero && f.sign == "-" && width > f.Length() then ours != [] && theirs != [] && ours[0] == '0' && theirs[0] == '-'
               else ours == theirs
  {
    PaddedLength(zero, width, f);
    if !(width >= WORD && width > f.Length()) {
      if zero && f.sign == "-" && width > f.Length() {
        SignShows(width, f);
      } else {
        PaddedAlike(zero, width, f);
        assert width % WORD == width || width <= f.Length();
      }
    }
  }

  lemma PaddedLength(zero: bool, width: nat, f: Field)
    ensures |f.Padded(zero, width)| == if width > f.Length() then width else f.Length()
  {
  }

  lemma SignShows(width: nat, f: Field)
    requires f.sign == "-" && width > f.Length()
    ensures var ours, theirs := Padded('0', width, f.sign + f.body), f.Padded(true, width);
            ours != [] && theirs != [] && ours[0] == '0' && theirs[0] == '-'
  {
  }

  lemma PaddedAlike(zero: bool, width: nat, f: Field)
    requires f.sign == "" || !zero || width <= f.Length()
    ensures Padded(if zero then '0' else ' ', width, f.sign + f.body) == f.Padded(zero, width)
  {
    var pad := if zero then '0' else ' ';
    var n := if width > f.Length() then width - f.Length() else 0;
    var gap := Repeat(pad, n);
    assert gap == seq(n, _ => pad);
    assert gap + (f.sign + f.body) == gap + f.sign + f.body;
    if f.sign == "" {
      assert f.sign + gap + f.body == gap + f.sign + f.body;
    } else if width <= f.Length() {
      assert gap == [];
    }
  }

  // ----- whole formats -----

  /** What kvsnprintf gives has no null character in it. */
  lemma {:induction false} NoNull(fmt: CString, i: nat, args: seq<Arg>, k: nat)
    requires i <= |fmt|
    ensures '\0' !in Render(fmt, i, args, k)
    decreases |fmt| - i
  {
    if i < |fmt| && fmt[i] != '%' {
      NoNull(fmt, i + 1, args, k);
    } else if i < |fmt| {
      var d := SpecAt(fmt, i + 1);
      if d.at < |fmt| {
        NoNull(fmt, d.at + 1, args, k + 1);
        NoNull(fmt, d.at + 1, args, k);
      }
    }
  }

  lemma Parts(a: string, b: string, x: string, y: string)
    requires |a| <= |x| && |b| <= |y|
    ensures |a + b| <= |x + y|
    ensures a == x ==> (a + b == x + y <==> b == y)
    ensures |a| < |x| ==> a + b != x + y
    ensures a != [] && x != [] && a[0] != x[0] ==> a + b != x + y
    ensures '\0' in x ==> '\0' in x + y
  {
    if a == x && a + b == x + y {
      assert b == (a + b)[|a|..] && y == (x + y)[|x|..];
    }
    if a != [] && x != [] {
      assert (a + b)[0] == a[0] && (x + y)[0] == x[0];
    }
  }

  /** Two texts of two parts each are the same exactly if the parts are, given how the first parts compare. */
  lemma SameParts(a: string, b: string, x: string, y: string, same: bool)
    requires |b| <= |y| && '\0' !in a + b && Compare(a, x, same)
    ensures |a + b| <= |x + y| && (a + b == x + y <==> same && b == y)
  {
    assert CompareAt(0, a, x, same);
    Parts(a, b, x, y);
  }

  ghost predicate StandsAtK(k: int, fmt: CString, i: nat, j: nat, p: Directive) {
    k == 0 ==> j == i + |Write(p)| && j <= |fmt| && fmt[i..j] == Write(p)
  }

  /** The directive is written from i to j; closed to the induction over the format. */
  ghost predicate StandsAt(fmt: CString, i: nat, j: nat, p: Directive) {
    i < j <= |fmt| && forall k :: StandsAtK(k, fmt, i, j, p)
  }

  /** What is written from position i, directive by directive. */
  lemma FirstWritten(fmt: CString, i: nat, ps: seq<Directive>) returns (j: nat)
    requires i <= |fmt| && ps != [] && fmt[i..] == Written(ps)
    ensures StandsAt(fmt, i, j, ps[0]) && fmt[j..] == Written(ps[1..])
  {
    j := i + |Write(ps[0])|;
    assert fmt[i..][..j - i] == fmt[i..j] && fmt[i..][j - i..] == fmt[j..];
  }

  /** What the code makes of plain text and of %%. */
  lemma RenderText(fmt: CString, i: nat, p: Directive, args: seq<Arg>, k: nat)
    requires !p.Conversion? && WellFormed(p) && i + |Write(p)| <= |fmt| && fmt[i..i + |Write(p)|] == Write(p)
    ensures Render(fmt, i, args, k) == (if p.Plain? then [p.c] else "%") + Render(fmt, i + |Write(p)|, args, k)
  {
    if p.Plain? {
      assert fmt[i] == fmt[i..i + 1][0];
    } else {
      assert fmt[i] == fmt[i..i + 2][0] && fmt[i + 1] == fmt[i..i + 2][1];
      assert SpecAt(fmt, i + 1).at == i + 1;
      assert fmt[i + 1..i + 2] == "%";
    }
  }

  ghost predicate AgreeAt(k: int, ours: string, theirs: string, all: bool) {
    k == 0 ==> |ours| <= |theirs| && (ours == theirs <==> all)
  }

  /** Our text is not longer, and it is theirs exactly if all conforms; closed to the induction over the format. */
  ghost predicate Agree(ours: string, theirs: string, all: bool) {
    forall k :: AgreeAt(k, ours, theirs, all)
  }

  ghost predicate CleanAt(k: int, s: string) {
    k == 0 ==> '\0' !in s
  }

  ghost predicate Clean(s: string) {
    forall k :: CleanAt(k, s)
  }

  lemma CleanRender(fmt: CString, i: nat, args: seq<Arg>, k: nat)
    requires i <= |fmt|
    ensures Clean(Render(fmt, i, args, k))
  {
    NoNull(fmt, i, args, k);
  }

  lemma Join(ours: string, a: string, b: string, x: string, y: string, same: bool, rest: bool)
    requires ours == a + b && Clean(ours) && Compare(a, x, same) && Agree(b, y, rest)
    ensures Agree(ours, x + y, same && rest)
  {
    assert CleanAt(0, ours) && AgreeAt(0, b, y, rest);
    SameParts(a, b, x, y, same);
  }

  lemma JoinText(ours: string, a: string, b: string, y: string, rest: bool)
    requires ours == a + b && Agree(b, y, rest)
    ensures Agree(ours, a + y, rest)
  {
    assert AgreeAt(0, b, y, rest);
    Parts(a, b, a, y);
  }

  /** The first directive is a conversion. */
  lemma RenderField(fmt: CString, i: nat, j: nat, p: Directive, args: seq<Arg>, k: nat, theirs: string, rest: bool)
    requires StandsAt(fmt, i, j, p) && k < |args| && Defined(p, args[k])
    requires Agree(Render(fmt, j, args, k + 1), theirs, rest)
    ensures Agree(Render(fmt, i, args, k), Theirs(p, args[k]) + theirs, Conforming(p, args[k]) && rest)
  {
    assert StandsAtK(0, fmt, i, j, p);
    FieldStandard(p, args[k]);
    CleanRender(fmt, i, args, k);
    FieldFirst(fmt, i, p, args, k);
    Join(Render(fmt, i, args, k), Ours(p, args[k]), Render(fmt, j, args, k + 1), Theirs(p, args[k]), theirs, Conforming(p, args[k]), rest);
  }

  /** The first directive is text. */
  lemma RenderPlain(fmt: CString, i: nat, j: nat, p: Directive, args: seq<Arg>, k: nat, theirs: string, rest: bool)
    requires !p.Conversion? && WellFormed(p) && StandsAt(fmt, i, j, p)
    requires Agree(Render(fmt, j, args, k), theirs, rest)
    ensures Agree(Render(fmt, i, args, k), (if p.Plain? then [p.c] else "%") + theirs, rest)
  {
    assert StandsAtK(0, fmt, i, j, p);
    RenderText(fmt, i, p, args, k);
    JoinText(Render(fmt, i, args, k), if p.Plain? then [p.c] else "%", Render(fmt, j, args, k), theirs, rest);
  }

  lemma StandardFirst(ps: seq<Directive>, args: seq<Arg>)
    requires Supported(ps, args) && ps != []
    ensures var p := ps[0];
            if p.Conversion? then
              && args != [] && Defined(p, args[0]) && Supported(ps[1..], args[1..])
              && StandardText(ps, args) == Theirs(p, args[0]) + StandardText(ps[1..], args[1..])
              && (AllConforming(ps, args) <==> Conforming(p, args[0]) && AllConforming(ps[1..], args[1..]))
            else
              && WellFormed(p) && Supported(ps[1..], args)
              && StandardText(ps, args) == (if p.Plain? then [p.c] else "%") + StandardText(ps[1..], args)
              && (AllConforming(ps, args) <==> AllConforming(ps[1..], args))
  {
  }

  lemma {:induction false} RenderAll(fmt: CString, i: nat, ps: seq<Directive>, args: seq<Arg>, k: nat, rest: seq<Arg>)
    requires i <= |fmt| && fmt[i..] == Written(ps) && k <= |args| && rest == args[k..] && Supported(ps, rest)
    ensures Agree(Render(fmt, i, args, k), StandardText(ps, rest), AllConforming(ps, rest))
    decreases |ps|
  {
    if ps == [] {
      return;
    }
    var p, qs := ps[0], ps[1..];
    var j := FirstWritten(fmt, i, ps);
    StandardFirst(ps, rest);
    if p.Conversion? {
      var others := rest[1..];
      assert others == args[k + 1..] && rest[0] == args[k];
      RenderAll(fmt, j, qs, args, k + 1, others);
      RenderField(fmt, i, j, p, args, k, StandardText(qs, others), AllConforming(qs, others));
    } else {
      RenderAll(fmt, j, qs, args, k, rest);
      RenderPlain(fmt, i, j, p, args, k, StandardText(qs, rest), AllConforming(qs, rest));
    }
  }

  /** kvsnprintf gives the text that the standard says, never a longer one, exactly if every conversion conforms. */
  lemma RenderStandard(fmt: CString, ps: seq<Directive>, args: seq<Arg>)
    requires fmt == Written(ps) && Supported(ps, args)
    ensures |Render(fmt, 0, args, 0)| <= |StandardText(ps, args)|
    ensures Render(fmt, 0, args, 0) == StandardText(ps, args) <==> AllConforming(ps, args)
  {
    assert fmt[0..] == fmt && args[0..] == args;
    RenderAll(fmt, 0, ps, args, 0, args);
    assert AgreeAt(0, Render(fmt, 0, args, 0), StandardText(ps, args), AllConforming(ps, args));
  }

  /** What the code makes of a specification that it reads as d. */
  lemma RenderSpecOf(fmt: CString, i: nat, d: Spec, args: seq<Arg>, k: nat)
    requires i < |fmt| && fmt[i] == '%' && d == SpecAt(fmt, i + 1) && d.at < |fmt| && fmt[d.at] != '%'
    ensures Render(fmt, i, args, k)
            == if IsConversion(fmt[d.at])
               then Padded(d.pad, d.width, Converted(fmt[d.at], d.longs, ArgAt(args, k))) + Render(fmt, d.at + 1, args, k + 1)
               else fmt[i..d.at + 1] + Render(fmt, d.at + 1, args, k)
  {
  }

  /** What the code makes of a conversion and what follows it. */
  lemma FieldFirst(fmt: CString, i: nat, p: Directive, args: seq<Arg>, k: nat)
    requires k < |args| && Defined(p, args[k]) && i + |Write(p)| <= |fmt| && fmt[i..i + |Write(p)|] == Write(p)
    ensures Render(fmt, i, args, k) == Ours(p, args[k]) + Render(fmt, i + |Write(p)|, args, k + 1)
  {
    SpecOf(fmt, i, p);
    RenderSpecOf(fmt, i, SpecAt(fmt, i + 1), args, k);
  }

  /** So for such a format the buffer holds what the standard says, cut to its size, and the terminator. */
  lemma BufferStandard(fmt: CString, ps: seq<Directive>, args: seq<Arg>, size: nat)
    requires fmt == Written(ps) && Supported(ps, args) && AllConforming(ps, args) && |StandardText(ps, args)| < WORD && 0 < size < WORD
    ensures var text := StandardText(ps, args);
            Render(fmt, 0, args, 0) == text && Terminator(|text| % WORD, size) == Min(|text|, size - 1)
  {
    RenderStandard(fmt, ps, args);
    TerminatorRight(|StandardText(ps, args)|, size);
  }

  // ----- where it does not conform -----

  /** A format of one conversion. */
  lemma OneField(fmt: CString, p: Directive, a: Arg)
    requires p.Conversion? && fmt == Write(p) && Defined(p, a)
    ensures Written([p]) == fmt && Supported([p], [a]) && StandardText([p], [a]) == Theirs(p, a) && Render(fmt, 0, [a], 0) == Ours(p, a)
  {
    assert [p][1..] == [] && Written([]) == "" && [a][1..] == [] && StandardText([], []) == "";
    assert fmt[0..|Write(p)|] == fmt;
    FieldFirst(fmt, 0, p, [a], 0);
    assert Render(fmt, |fmt|, [a], 1) == "";
  }

  /** A null character is dropped. */
  lemma NullIsDropped()
    ensures var ps := [Conversion(false, "", Longs(0), 'c')];
            && Written(ps) == "%c" && Supported(ps, [Int(0)])
            && Render("%c", 0, [Int(0)], 0) == "" && StandardText(ps, [Int(0)]) == "\0"
  {
    var p := Conversion(false, "", Longs(0), 'c');
    assert Write(p) == "%c";
    OneField("%c", p, Int(0));
  }

  /** Zeros go in front of the minus sign: -1 with %05d. */
  lemma ZerosBeforeSign()
    ensures var ps, args := [Conversion(true, "5", Longs(0), 'd')], [Int(0xFFFF_FFFF)];
            && Written(ps) == "%05d" && Supported(ps, args)
            && Render("%05d", 0, args, 0) == "000-1" && StandardText(ps, args) == "-0001"
  {
    var p := Conversion(true, "5", Longs(0), 'd');
    assert Write(p) == "%05d";
    assert Decimal("5") == 5 by { assert Decimal("") == 0 && "5"[..0] == ""; }
    PaddedMinusOne(p);
    OneField("%05d", p, Int(0xFFFF_FFFF));
  }

  lemma PaddedMinusOne(p: Directive)
    requires p == Conversion(true, "5", Longs(0), 'd')
    ensures Padded('0', 5, Converted('d', 0, Int(0xFFFF_FFFF))) == "000-1"
    ensures Meaning('d', Longs(0), Int(0xFFFF_FFFF)).Padded(true, 5) == "-0001"
  {
    assert Numeral(1, 10) == "1" && Meaning('d', Longs(0), Int(0xFFFF_FFFF)) == Field("-", "1");
    ConvertedIs(p, Int(0xFFFF_FFFF));
    assert "-" + "1" == "-1" && Repeat('0', 3) == "000" && "000" + "-1" == "000-1";
    assert seq(3, _ => '0') == "000" && "-" + "000" + "1" == "-0001";
  }

  lemma DecimalDigit(d: nat)
    requires d < 10
    ensures var c := "0123456789abcdef"[d]; '0' <= c <= '9' && c as int - '0' as int == d && (d > 0 ==> c != '0')
  {
  }

  predicate AllDigits(s: string) {
    forall i :: 0 <= i < |s| ==> '0' <= s[i] <= '9'
  }

  lemma DigitsMore(s: string, c: char)
    requires AllDigits(s) && '0' <= c <= '9'
    ensures AllDigits(s + [c])
  {
  }

  /** The decimal digits of a number stand for it. */
  lemma {:induction false} DecimalNumeral(n: nat)
    ensures AllDigits(Numeral(n, 10)) && Decimal(Numeral(n, 10)) == n
    ensures Numeral(n, 10) != "" && (n > 0 ==> Numeral(n, 10)[0] != '0')
  {
    DecimalDigit(n % 10);
    var c, s := "0123456789abcdef"[n % 10], if n < 10 then "" else Numeral(n / 10, 10);
    if n >= 10 {
      DecimalNumeral(n / 10);
    }
    NumeralLast(n);
    DigitsMore(s, c);
    DecimalMore(s, c);
  }

  lemma NumeralLast(n: nat)
    ensures Numeral(n, 10) == (if n < 10 then "" else Numeral(n / 10, 10)) + ["0123456789abcdef"[n % 10]]
  {
  }

  lemma DecimalMore(s: string, c: char)
    requires (forall i :: 0 <= i < |s| ==> '0' <= s[i] <= '9') && '0' <= c <= '9'
    ensures Decimal(s + [c]) == Decimal(s) * 10 + (c as int - '0' as int)
  {
    assert (s + [c])[..|s|] == s;
  }

  /** A width that a machine word does not hold is cut: 2^64 with %c. */
  lemma WideIsCut(fmt: CString, p: Directive)
    requires p == Conversion(false, Numeral(0x1_0000_0000_0000_0000, 10), Longs(0), 'c') && fmt == Write(p)
    ensures Supported([p], [Int(97)])
    ensures Render(fmt, 0, [Int(97)], 0) == "a" && |StandardText([p], [Int(97)])| == 0x1_0000_0000_0000_0000
  {
    DecimalNumeral(WORD);
    OneField(fmt, p, Int(97));
    WideField();
  }

  lemma WideField()
    ensures |Meaning('c', Longs(0), Int(97)).Padded(false, WORD)| == WORD
    ensures Padded(' ', 0, Converted('c', 0, Int(97))) == "a"
  {
    PaddedLength(false, WORD, Meaning('c', Longs(0), Int(97)));
    assert Converted('c', 0, Int(97)) == "a";
    UnpaddedIs(' ', "a");
  }

  // ----- what is no directive -----

  /** The character ends a specification that is none: it is no conversion, no percent sign, and no part of one. */
  predicate Foreign(c: char) {
    c != '\0' && c != '%' && !IsConversion(c) && !IsDigit(c) && c != 'l' && c != 'z'
  }

  lemma UnknownAt(fmt: CString, i: nat, e: nat)
    requires i < e < |fmt| && Foreign(fmt[e]) && forall j :: i < j < e ==> IsDigit(fmt[j])
    ensures SpecAt(fmt, i + 1).at == e
  {
    var p := if CharAt(fmt, i + 1) == '0' then i + 2 else i + 1;
    DigitsRun(fmt, p, e);
    LongsRun(fmt, e, e);
  }

  /** An unknown conversion is printed as it is written. */
  lemma UnknownIsKept(fmt: CString, i: nat, e: nat, args: seq<Arg>, k: nat)
    requires i < e < |fmt| && fmt[i] == '%' && Foreign(fmt[e]) && forall j :: i < j < e ==> IsDigit(fmt[j])
    ensures Render(fmt, i, args, k) == fmt[i..e + 1] + Render(fmt, e + 1, args, k)
  {
    UnknownAt(fmt, i, e);
    RenderSpecOf(fmt, i, SpecAt(fmt, i + 1), args, k);
  }

  /** A null string has a text of its own. */
  lemma NullString()
    ensures Render("%s", 0, [NullStr], 0) == "(null)"
  {
    var fmt: CString, p := "%s", Conversion(false, "", Longs(0), 's');
    assert Write(p) == fmt && fmt[0..2] == fmt;
    SpecOf(fmt, 0, p);
    UnpaddedIs(' ', "(null)");
    assert Render(fmt, 2, [NullStr], 1) == "";
  }
}
