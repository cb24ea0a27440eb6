/** Formatted output (src/lib/snprintf.c): `kvsnprintf` against an ideal rendering without a buffer. */
module Snprintf {
  import opened Digits

  /** A C string: no terminator inside. */
  type CString = s: string | forall i :: 0 <= i < |s| ==> s[i] != '\0'

  /** An argument; an argument that is missing or of another kind, which C leaves undefined, is read as 0. */
  datatype Arg = Int(bits: nat) | Str(s: CString) | NullStr

  function CharAt(fmt: CString, i: nat): char {
    if i < |fmt| then fmt[i] else '\0'
  }

  predicate IsDigit(c: char) {
    '0' <= c <= '9'
  }

  // ----- the ideal rendering -----

  function DigitsEnd(fmt: CString, p: nat): (e: nat)
    requires p <= |fmt|
    ensures p <= e <= |fmt|
    decreases |fmt| - p
  {
    if p < |fmt| && IsDigit(fmt[p]) then DigitsEnd(fmt, p + 1) else p
  }

  /** The width, in a machine word. */
  function Width(fmt: CString, p: nat, w: nat): nat
    requires p <= |fmt|
    decreases |fmt| - p
  {
    if p < |fmt| && IsDigit(fmt[p]) then Width(fmt, p + 1, (w * 10 + ValueOf(fmt[p])) % WORD) else w
  }

  function LongsEnd(fmt: CString, p: nat): (e: nat)
    requires p <= |fmt|
    ensures p <= e <= |fmt|
    decreases |fmt| - p
  {
    if p < |fmt| && fmt[p] == 'l' then LongsEnd(fmt, p + 1) else p
  }

  /** What stands between the percent sign and the conversion, which is at position `at`. */
  datatype Spec = Spec(pad: char, width: nat, longs: nat, at: nat)

  function SpecAt(fmt: CString, i: nat): (d: Spec)
    requires i <= |fmt|
    ensures i <= d.at <= |fmt|
  {
    var zero := CharAt(fmt, i) == '0';
    var p := if zero then i + 1 else i;
    var q := DigitsEnd(fmt, p);
    var r := LongsEnd(fmt, q);
    var z := CharAt(fmt, r) == 'z' && r == q;
    Spec(if zero then '0' else ' ', Width(fmt, p, 0), if z then 1 else r - q, if z then r + 1 else r)
  }

  predicate IsConversion(c: char) {
    c == 'c' || c == 'd' || c == 'u' || c == 'x' || c == 'p' || c == 's'
  }

  /** The integer that a conversion takes from its argument, in 64 bits. */
  function Fetch(c: char, longs: nat, a: Arg): (v: nat)
    ensures v < WORD
  {
    var bits := if a.Int? then a.bits % WORD else 0;
    var low := bits % 0x1_0000_0000;
    if c == 'p' || longs > 0 then bits
    else if c == 'd' && low >= 0x8000_0000 then low + (WORD - 0x1_0000_0000)
    else low
  }

  function Converted(c: char, longs: nat, a: Arg): CString
    requires IsConversion(c)
  {
    var v := Fetch(c, longs, a);
    match c
    case 'c' => if v % 256 == 0 then "" else [(v % 256) as char]
    case 'd' => SignedText(v)
    case 'u' => Text(v, 10)
    case 'x' => Text(v, 16)
    case 'p' => "0x" + Text(v, 16)
    case _ => if a.Str? then a.s else "(null)"
  }

  function Repeat(c: char, n: nat): string {
    seq(n, _ => c)
  }

  function Padded(pad: char, width: nat, s: string): string {
    Repeat(pad, if width > |s| then width - |s| else 0) + s
  }

  function ArgAt(args: seq<Arg>, k: nat): Arg {
    if k < |args| then args[k] else Int(0)
  }

  /** The rendering of the format from position i, with the arguments from k. */
  function Render(fmt: CString, i: nat, args: seq<Arg>, k: nat): string
    requires i <= |fmt|
    decreases |fmt| - i, 0
  {
    if i == |fmt| then ""
    else if fmt[i] == '%' then RenderSpec(fmt, i + 1, args, k)
    else [fmt[i]] + Render(fmt, i + 1, args, k)
  }

  /** The same behind a percent sign.  What is not a conversion is text, with the percent sign unless it ends in
      a second one. */
  function RenderSpec(fmt: CString, i: nat, args: seq<Arg>, k: nat): string
    requires 0 < i <= |fmt|
    decreases |fmt| - i, 1
  {
    var d := SpecAt(fmt, i);
    if d.at == |fmt| then fmt[i - 1..]
    else
      var c := fmt[d.at];
      if IsConversion(c) then Padded(d.pad, d.width, Converted(c, d.longs, ArgAt(args, k))) + Render(fmt, d.at + 1, args, k + 1)
      else (if c == '%' then fmt[i..d.at + 1] else fmt[i - 1..d.at + 1]) + Render(fmt, d.at + 1, args, k)
  }

  // ----- one conversion -----

  /** strlen */
  method Strlen(buffer: array<char>, ghost n: nat) returns (len: nat)
    requires n < buffer.Length && buffer[n] == '\0' && forall i :: 0 <= i < n ==> buffer[i] != '\0'
    ensures len == n
  {
    len := 0;
    while buffer[len] != '\0'
      invariant len <= n
      decreases n - len
    {
      len := len + 1;
    }
  }

  /** The conversions of integers into the scratch buffer, which is long enough for all of them. */
  method ConvertInto(c: char, longs: nat, a: Arg, scratch: array<char>) returns (len: nat)
    requires IsConversion(c) && c != 's' && scratch.Length == 21
    modifies scratch
    ensures var text := Converted(c, longs, a);
            len == |text| < 21 && scratch[..len] == text && scratch[len] == '\0'
  {
    var v := Fetch(c, longs, a);
    Lengths(v);
    if c == 'c' {
      scratch[0] := (v % 256) as char;
      scratch[1] := '\0';
      len := if v % 256 == 0 then 0 else 1;
    } else if c == 'd' {
      if v >= HALF {
        Lengths(WORD - v);
      }
      len := I64ToA(v, scratch, 0);
    } else if c == 'u' {
      len := U64ToA(v, scratch, 0);
    } else if c == 'x' {
      len := U64ToH(v, scratch, 0);
    } else {
      len := Pointer(v, scratch);
    }
  }

  method Pointer(v: nat, scratch: array<char>) returns (len: nat)
    requires v < WORD && scratch.Length == 21 && |Text(v, 16)| <= 16
    modifies scratch
    ensures len == 2 + |Text(v, 16)| && scratch[..len] == "0x" + Text(v, 16) && scratch[len] == '\0'
  {
    scratch[0] := '0';
    scratch[1] := 'x';
    var digits := U64ToH(v, scratch, 2);
    len := 2 + digits;
    assert scratch[..len] == [scratch[0], scratch[1]] + scratch[2..len];
  }

  /** One conversion: the scratch buffer is read as a string. */
  method Convert(c: char, longs: nat, a: Arg) returns (s: string)
    requires IsConversion(c)
    ensures s == Converted(c, longs, a)
  {
    if c == 's' {
      return if a.Str? then a.s else "(null)";
    }
    var scratch := new char[21];
    var n := ConvertInto(c, longs, a, scratch);
    assert forall i :: 0 <= i < n ==> scratch[i] == scratch[..n][i];
    var len := Strlen(scratch, n);
    s := scratch[..len];
  }

  // ----- the buffer -----

  function Min(a: nat, b: nat): nat {
    if a < b then a else b
  }

  /** The buffer holds what fits of the text, and o is where the next character goes. */
  ghost predicate Holds(out: seq<char>, o: nat, text: string) {
    o == Min(|text|, |out|) && out[..o] == text[..o]
  }

  /** memset and memcpy of the part that fits. */
  method Copy(out: array<char>, o: nat, s: string) returns (o': nat)
    requires o <= out.Length
    modifies out
    ensures o' == Min(o + |s|, out.Length) && out[..o] == old(out[..o]) && out[o..o'] == s[..o' - o]
    ensures forall i :: o' <= i < out.Length ==> out[i] == old(out[i])
  {
    var w := Min(|s|, out.Length - o);
    for i := 0 to w
      invariant forall j :: 0 <= j < out.Length ==> out[j] == if o <= j < o + i then s[j - o] else old(out[j])
    {
      out[o + i] := s[i];
    }
    o' := o + w;
  }

  lemma HoldsMore(before: seq<char>, after: seq<char>, o: nat, o': nat, text: string, s: string)
    requires Holds(before, o, text) && |after| == |before| && o' == Min(o + |s|, |after|)
    requires after[..o] == before[..o] && after[o..o'] == s[..o' - o]
    ensures Holds(after, o', text + s)
  {
    assert after[..o'] == after[..o] + after[o..o'];
  }

  /** flush_str: pad up to the width and copy the string; what does not fit is dropped but counted. */
  method Flush(out: array<char>, o: nat, written: nat, pad: char, width: nat, s: string, ghost text: string) returns (o': nat, written': nat)
    requires Holds(out[..], o, text) && written == |text| % WORD
    modifies out
    ensures Holds(out[..], o', text + Padded(pad, width, s)) && written' == |text + Padded(pad, width, s)| % WORD
    ensures forall i :: o' <= i < out.Length ==> out[i] == old(out[i])
  {
    var padLen := if width > |s| then width - |s| else 0;
    ghost var b0 := out[..];
    var o1 := Copy(out, o, Repeat(pad, padLen));
    HoldsMore(b0, out[..], o, o1, text, Repeat(pad, padLen));
    ghost var b1 := out[..];
    o' := Copy(out, o1, s);
    HoldsMore(b1, out[..], o1, o', text + Repeat(pad, padLen), s);
    assert text + Repeat(pad, padLen) + s == text + Padded(pad, width, s);
    written' := (written + padLen + |s|) % WORD;
    AddMod(|text|, padLen + |s|);
  }

  lemma AddMod(a: nat, b: nat)
    ensures (a % WORD + b) % WORD == (a + b) % WORD
  {
  }

  lemma UnpaddedIs(pad: char, s: string)
    ensures Padded(pad, 0, s) == s
  {
  }

  // ----- reading the specification -----

  /** The loops over the flag, the width and the modifiers. */
  method ReadSpec(fmt: CString, i: nat) returns (d: Spec)
    requires i <= |fmt|
    ensures d == SpecAt(fmt, i)
  {
    var pad, p := ' ', i;
    var width: nat, longs: nat := 0, 0;
    if CharAt(fmt, p) == '0' {
      pad := '0';
      p := p + 1;
    }
    ghost var p0 := p;
    while IsDigit(CharAt(fmt, p))
      invariant p0 <= p <= |fmt| && DigitsEnd(fmt, p0) == DigitsEnd(fmt, p) && Width(fmt, p0, 0) == Width(fmt, p, width)
      decreases |fmt| - p
    {
      width := (width * 10 + ValueOf(fmt[p])) % WORD;
      p := p + 1;
    }
    ghost var q := p;
    while CharAt(fmt, p) == 'l'
      invariant q <= p <= |fmt| && LongsEnd(fmt, q) == LongsEnd(fmt, p) && longs == p - q
      decreases |fmt| - p
    {
      longs := longs + 1;
      p := p + 1;
    }
    if CharAt(fmt, p) == 'z' && longs == 0 {
      longs := 1;
      p := p + 1;
    }
    d := Spec(pad, width, longs, p);
  }

  // ----- kvsnprintf -----

  /** What is still to be rendered: the pending text and the rest, or the rest behind a percent sign. */
  ghost function ToCome(fmt: CString, args: seq<Arg>, start: nat, offset: nat, escape: bool, k: nat): string
    requires start + offset <= |fmt| && (escape ==> offset == 0 && start > 0)
  {
    if escape then RenderSpec(fmt, start, args, k) else fmt[start..start + offset] + Render(fmt, start + offset, args, k)
  }

  /** The variables of kvsnprintf: the place in the buffer, the count, the start of the pending text, its length,
      whether a percent sign was just read, the next argument, and whether the loop goes on. */
  datatype Cursor = Cursor(o: nat, written: nat, start: nat, offset: nat, escape: bool, k: nat, going: bool)

  ghost predicate RestAt(j: int, fmt: CString, args: seq<Arg>, start: nat, offset: nat, escape: bool, k: nat, going: bool, text: string, done: string) {
    && start + offset <= |fmt| && (escape ==> offset == 0 && start > 0)
    && (j == 0 ==> text == if going then done + ToCome(fmt, args, start, offset, escape, k) else done)
  }

  /** The text is `done` and what is to come.  Stated under a quantifier to keep the rendering out of the proof
      of the loop. */
  ghost predicate Rest(fmt: CString, args: seq<Arg>, start: nat, offset: nat, escape: bool, k: nat, going: bool, text: string, done: string) {
    forall j :: RestAt(j, fmt, args, start, offset, escape, k, going, text, done)
  }

  ghost predicate Underway(out: seq<char>, u: Cursor, fmt: CString, args: seq<Arg>, text: string, done: string) {
    && Holds(out, u.o, done) && u.written == |done| % WORD
    && Rest(fmt, args, u.start, u.offset, u.escape, u.k, u.going, text, done)
  }

  lemma RestIs(fmt: CString, args: seq<Arg>, start: nat, offset: nat, escape: bool, k: nat, going: bool, text: string, done: string)
    requires Rest(fmt, args, start, offset, escape, k, going, text, done)
    ensures start + offset <= |fmt| && (escape ==> offset == 0 && start > 0)
    ensures text == if going then done + ToCome(fmt, args, start, offset, escape, k) else done
  {
    assert RestAt(0, fmt, args, start, offset, escape, k, going, text, done);
  }

  /** What a specification leaves to come, in each of its three outcomes. */
  lemma SpecRest(fmt: CString, args: seq<Arg>, start: nat, k: nat, text: string, done: string, d: Spec)
    requires Rest(fmt, args, start, 0, true, k, true, text, done)
    ensures 0 < start <= |fmt|
    ensures d == SpecAt(fmt, start) ==>
              var c := CharAt(fmt, d.at);
              && (IsConversion(c) ==>
                    d.at < |fmt| &&
                    Rest(fmt, args, d.at + 1, 0, false, k + 1, true, text, done + Padded(d.pad, d.width, Converted(c, d.longs, ArgAt(args, k)))))
              && (c == '%' ==> d.at < |fmt| && Rest(fmt, args, start, d.at + 1 - start, false, k, true, text, done))
              && (!IsConversion(c) && c != '%' && c != '\0' ==>
                    d.at < |fmt| && Rest(fmt, args, d.at + 1, 0, false, k, true, text, done + fmt[start - 1..d.at + 1]))
              && (c == '\0' ==> Rest(fmt, args, d.at, 0, false, k, false, text, done + fmt[start - 1..d.at]))
  {
    RestIs(fmt, args, start, 0, true, k, true, text, done);
    if d == SpecAt(fmt, start) && d.at < |fmt| {
      var c, p := fmt[d.at], d.at + 1;
      assert fmt[p..p] == [];
      if IsConversion(c) {
        GoOn(done, Padded(d.pad, d.width, Converted(c, d.longs, ArgAt(args, k))), Render(fmt, p, args, k + 1));
      } else if c != '%' {
        GoOn(done, fmt[start - 1..p], Render(fmt, p, args, k));
      }
    }
  }

  lemma GoOn(a: string, b: string, c: string)
    ensures a + (b + c) == a + b + ([] + c)
  {
    assert a + (b + c) == a + b + c;
    assert [] + c == c;
  }

  /** What a character of plain text at position p leaves to come. */
  lemma TextRest(fmt: CString, args: seq<Arg>, start: nat, offset: nat, k: nat, text: string, done: string)
    requires Rest(fmt, args, start, offset, false, k, true, text, done)
    ensures start + offset <= |fmt|
    ensures var p := start + offset;
            var c := CharAt(fmt, p);
            && (c == '\0' ==> Rest(fmt, args, p, 0, false, k, false, text, done + fmt[start..p]))
            && (c == '%' ==> p < |fmt| && Rest(fmt, args, p + 1, 0, true, k, true, text, done + fmt[start..p]))
            && (c != '\0' && c != '%' ==> p < |fmt| && Rest(fmt, args, start, offset + 1, false, k, true, text, done))
  {
    RestIs(fmt, args, start, offset, false, k, true, text, done);
    var p := start + offset;
    if p < |fmt| && fmt[p] != '%' {
      assert fmt[start..p + 1] == fmt[start..p] + [fmt[p]];
      assert fmt[start..p] + ([fmt[p]] + Render(fmt, p + 1, args, k)) == fmt[start..p + 1] + Render(fmt, p + 1, args, k);
    } else if p < |fmt| {
      assert done + (fmt[start..p] + RenderSpec(fmt, p + 1, args, k)) == done + fmt[start..p] + RenderSpec(fmt, p + 1, args, k);
    }
  }

  /** One round of the loop behind a percent sign. */
  method SpecStep(out: array<char>, fmt: CString, args: seq<Arg>, u: Cursor, ghost text: string, ghost done: string)
      returns (u': Cursor, ghost done': string)
    requires Underway(out[..], u, fmt, args, text, done) && u.going && u.escape && u.offset == 0
    modifies out
    ensures Underway(out[..], u', fmt, args, text, done') && !u'.escape && u.start <= u'.start + u'.offset <= |fmt|
    ensures forall i :: u'.o <= i < out.Length ==> u.o <= i && out[i] == old(out[i])
  {
    SpecRest(fmt, args, u.start, u.k, text, done, Spec(' ', 0, 0, 0));
    var d := ReadSpec(fmt, u.start);
    SpecRest(fmt, args, u.start, u.k, text, done, d);
    var c := CharAt(fmt, d.at);
    done' := done;
    if IsConversion(c) {
      var s := Convert(c, d.longs, ArgAt(args, u.k));
      var o, written := Flush(out, u.o, u.written, d.pad, d.width, s, done);
      done' := done + Padded(d.pad, d.width, s);
      u' := Cursor(o, written, d.at + 1, 0, false, u.k + 1, true);
    } else if c == '%' {
      u' := u.(offset := d.at + 1 - u.start, escape := false);
    } else {
      var s := fmt[u.start - 1..if c == '\0' then d.at else d.at + 1];
      UnpaddedIs(d.pad, s);
      var o, written := Flush(out, u.o, u.written, d.pad, 0, s, done);
      done' := done + s;
      if c == '\0' {
        u' := Cursor(o, written, d.at, 0, false, u.k, false);
      } else {
        u' := Cursor(o, written, d.at + 1, 0, false, u.k, true);
      }
    }
  }

  /** One round of the loop in plain text. */
  method TextStep(out: array<char>, fmt: CString, args: seq<Arg>, u: Cursor, ghost text: string, ghost done: string)
      returns (u': Cursor, ghost done': string)
    requires Underway(out[..], u, fmt, args, text, done) && u.going && !u.escape
    modifies out
    ensures Underway(out[..], u', fmt, args, text, done') && (u'.escape ==> u'.offset == 0) && u'.start + u'.offset <= |fmt|
    ensures u'.going ==> u.start + u.offset < u'.start + u'.offset
    ensures forall i :: u'.o <= i < out.Length ==> u.o <= i && out[i] == old(out[i])
  {
    TextRest(fmt, args, u.start, u.offset, u.k, text, done);
    var p := u.start + u.offset;
    var c := CharAt(fmt, p);
    done' := done;
    if c == '\0' || c == '%' {
      var s := fmt[u.start..p];
      UnpaddedIs(' ', s);
      var o, written := Flush(out, u.o, u.written, ' ', 0, s, done);
      done' := done + s;
      if c == '\0' {
        u' := Cursor(o, written, p, 0, false, u.k, false);
      } else {
        u' := Cursor(o, written, p + 1, 0, true, u.k, true);
      }
    } else {
      u' := u.(offset := u.offset + 1);
    }
  }

  /** Where the terminator is put. */
  function Terminator(written: nat, size: nat): nat
    requires size > 0
  {
    if written < size then written else size - 1
  }

  /** kvsnprintf: the buffer holds the rendering up to the terminator. */
  method Format(out: array<char>, fmt: CString, args: seq<Arg>)
    modifies out
    ensures out.Length > 0 ==>
              var text := Render(fmt, 0, args, 0);
              var m := Terminator(|text| % WORD, out.Length);
              && m <= |text| && out[..m] == text[..m] && out[m] == '\0'
              && forall i :: 0 <= i < out.Length && i != m ==> out[i] == if i < |text| then text[i] else old(out[i])
  {
    ghost var text, done := Render(fmt, 0, args, 0), "";
    var u := Cursor(0, 0, 0, 0, false, 0, true);
    assert Rest(fmt, args, 0, 0, false, 0, true, text, done) by { assert done + (fmt[0..0] + text) == text; }
    while u.going
      invariant Underway(out[..], u, fmt, args, text, done) && (u.escape ==> u.offset == 0) && u.start + u.offset <= |fmt|
      invariant forall i :: u.o <= i < out.Length ==> out[i] == old(out[i])
      decreases u.going, |fmt| - u.start - u.offset, u.escape
    {
      if u.escape {
        u, done := SpecStep(out, fmt, args, u, text, done);
      } else {
        u, done := TextStep(out, fmt, args, u, text, done);
      }
    }
    RestIs(fmt, args, u.start, u.offset, u.escape, u.k, false, text, done);
    if out.Length > 0 {
      Finish(out[..], u.o, text, Terminator(u.written, out.Length));
      out[Terminator(u.written, out.Length)] := '\0';
    }
  }

  lemma Finish(out: seq<char>, o: nat, text: string, m: nat)
    requires |out| > 0 && Holds(out, o, text) && m == Terminator(|text| % WORD, |out|)
    ensures m <= |text| && m < |out| && out[..m] == text[..m] && forall i :: 0 <= i < o ==> out[i] == text[i]
  {
    assert m <= o;
    assert out[..m] == out[..o][..m];
    forall i | 0 <= i < o
      ensures out[i] == text[i]
    {
      assert out[i] == out[..o][i] && text[i] == text[..o][i];
    }
  }

  /** The terminator is where it belongs, behind all that fits, exactly if the length of the rendering does not
      wrap a machine word, or wraps to a value beyond the buffer. */
  lemma TerminatorRight(n: nat, size: nat)
    requires 0 < size < WORD
    ensures Terminator(n % WORD, size) == Min(n, size - 1) <==> n < WORD || n % WORD >= size - 1
  {
  }

  lemma WidthDigit(fmt: CString, p: nat, w: nat)
    requires p < |fmt| && IsDigit(fmt[p]) && 0 <= w * 10 + ValueOf(fmt[p]) < WORD
    ensures Width(fmt, p, w) == Width(fmt, p + 1, w * 10 + ValueOf(fmt[p]))
  {
  }

  /** A width that fits a machine word is what its digits read as. */
  lemma {:induction false} WidthReads(fmt: CString, p: nat, e: nat)
    requires p <= e <= |fmt| && (forall i :: p <= i < e ==> IsDigit(fmt[i])) && 0 <= Read(fmt[p..e], 10) < WORD
    ensures Width(fmt, p, 0) == Width(fmt, e, Read(fmt[p..e], 10))
    decreases e
  {
    if p < e {
      var s, r := fmt[p..e - 1], Read(fmt[p..e - 1], 10);
      assert fmt[p..e] == s + [fmt[e - 1]];
      ReadLast(s, fmt[e - 1], 10);
      WidthReads(fmt, p, e - 1);
      WidthDigit(fmt, e - 1, r);
    }
  }

  lemma {:induction false} DigitsRun(fmt: CString, p: nat, e: nat)
    requires p <= e < |fmt| && (forall i :: p <= i < e ==> IsDigit(fmt[i])) && !IsDigit(fmt[e])
    ensures DigitsEnd(fmt, p) == e
    decreases e - p
  {
    if p < e {
      DigitsRun(fmt, p + 1, e);
    }
  }

  lemma {:induction false} TextDigits(n: nat)
    ensures forall c :: c in Text(n, 10) ==> IsDigit(c)
    ensures n > 0 ==> Text(n, 10)[0] != '0'
  {
    if n >= 10 {
      TextDigits(n / 10);
    }
  }

  /** A width that does wrap it: with the widest one the rendering has 2^64 characters, and the buffer is left with
      the empty string. */
  lemma WidthWraps(fmt: CString, size: nat)
    requires fmt == "%" + Text(WORD - 1, 10) + "ca" && 1 < size < WORD
    ensures var text := Render(fmt, 0, [Int(97)], 0);
            |text| == WORD && Terminator(|text| % WORD, size) == 0 != Min(|text|, size - 1)
  {
    var args, e := [Int(97)], 1 + |Text(WORD - 1, 10)|;
    WidestSpec(fmt, e);
    var s := Padded(' ', WORD - 1, "a");
    assert Render(fmt, e + 1, args, 1) == "a" by {
      assert Render(fmt, e + 2, args, 1) == "";
    }
    assert Converted('c', 0, Int(97)) == "a";
    assert Render(fmt, 0, args, 0) == s + "a";
    assert |s| == WORD - 1;
  }

  lemma WidestSpec(fmt: CString, e: nat)
    requires fmt == "%" + Text(WORD - 1, 10) + "ca" && e == 1 + |Text(WORD - 1, 10)|
    ensures SpecAt(fmt, 1) == Spec(' ', WORD - 1, 0, e) && fmt[e] == 'c' && fmt[e + 1] == 'a' && |fmt| == e + 2
  {
    var digits := Text(WORD - 1, 10);
    assert fmt[1..e] == digits;
    TextDigits(WORD - 1);
    assert fmt[1] == digits[0];
    forall i | 1 <= i < e
      ensures IsDigit(fmt[i])
    {
      assert fmt[i] == digits[i - 1];
    }
    ReadText(WORD - 1, 10);
    WidthReads(fmt, 1, e);
    DigitsRun(fmt, 1, e);
  }
}
