/** printnum of printfmt.c and strtol of string.c: numbers to text and back. */
module NumText {
  const DIGITS := "0123456789abcdef"

  function DigitChar(d: nat): (c: char)
    requires d < 16
    ensures c as int == if d < 10 then 48 + d else 97 + d - 10
  {
    DIGITS[d]
  }

  /** A number with one more digit behind it. */
  function Append(v: int, base: int, d: int): int {
    v * base + d
  }

  /** do_div: the quotient and the remainder. */
  function Quot(num: nat, base: nat): (q: nat)
    requires base >= 1
    ensures num >= base >= 2 ==> q < num
    ensures base == 1 ==> q == num
    ensures num < base ==> q == 0
  {
    num / base
  }

  function Rem(num: nat, base: nat): (r: nat)
    requires base >= 1
    ensures r < base
  {
    num % base
  }

  lemma DivStep(num: nat, base: nat)
    requires base >= 1
    ensures Append(Quot(num, base), base, Rem(num, base)) == num
  {
  }

  /** The recursion of printnum ends within `fuel` calls. */
  predicate Ends(num: nat, base: nat, fuel: nat)
    requires base >= 1
  {
    fuel > 0 && (num < base || Ends(Quot(num, base), base, fuel - 1))
  }

  ghost predicate Terminates(num: nat, base: nat)
    requires base >= 1
  {
    exists fuel: nat :: Ends(num, base, fuel)
  }

  /** It ends for every number, except that in base 1 it ends for zero only. */
  lemma PrintNumEnds(num: nat, base: nat)
    requires base >= 1
    ensures Terminates(num, base) <==> base >= 2 || num < base
  {
    if base >= 2 || num < base {
      EndsWithin(num, base);
    } else {
      forall fuel: nat ensures !Ends(num, base, fuel) {
        NeverEnds(num, fuel);
      }
    }
  }

  lemma {:induction false} EndsWithin(num: nat, base: nat)
    requires base >= 2 || (base == 1 && num < base)
    ensures Ends(num, base, num + 1)
  {
    if num >= base {
      EndsWithin(Quot(num, base), base);
      MoreFuel(Quot(num, base), base, Quot(num, base) + 1, num);
    }
  }

  lemma {:induction false} MoreFuel(num: nat, base: nat, fuel: nat, more: nat)
    requires base >= 1 && Ends(num, base, fuel) && fuel <= more
    ensures Ends(num, base, more)
    decreases fuel
  {
    if num >= base {
      MoreFuel(Quot(num, base), base, fuel - 1, more - 1);
    }
  }

  lemma {:induction false} NeverEnds(num: nat, fuel: nat)
    requires num >= 1
    ensures !Ends(num, 1, fuel)
  {
    if fuel > 0 {
      NeverEnds(num, fuel - 1);
    }
  }

  /** Bases that have digit characters, and numbers for which the recursion ends. */
  predicate Printable(num: nat, base: nat) {
    1 <= base <= 16 && (base >= 2 || num < base)
  }

  /** The condition on the base and the number is the exact one for the recursion to end. */
  lemma PrintableIs(num: nat, base: nat)
    ensures Printable(num, base) <==> 1 <= base <= 16 && Terminates(num, base)
  {
    if base >= 1 {
      PrintNumEnds(num, base);
    }
  }

  /** The characters printed for a number, most significant digit first. */
  function Digits(num: nat, base: nat): (t: string)
    requires Printable(num, base)
    ensures t != []
  {
    (if num >= base then Digits(Quot(num, base), base) else []) + [DigitChar(Rem(num, base))]
  }

  function Repeat(c: char, n: int): (t: string)
    ensures |t| == (if n > 0 then n else 0) && forall i :: 0 <= i < |t| ==> t[i] == c
  {
    if n <= 0 then [] else [c] + Repeat(c, n - 1)
  }

  /** The digits, padded on the left to at least `width` characters. */
  function Field(num: nat, base: nat, width: int, padc: char): string
    requires Printable(num, base)
  {
    Repeat(padc, width - |Digits(num, base)|) + Digits(num, base)
  }

  lemma RepeatAgain(before: string, c: char, n: int)
    requires n >= 0
    ensures before + Repeat(c, n) + [c] == before + Repeat(c, n + 1)
  {
    assert Repeat(c, n) + [c] == Repeat(c, n + 1);
  }

  /** The last digit comes after the field of the digits before it, or after the padding. */
  lemma FieldStep(before: string, num: nat, base: nat, width: int, padc: char)
    requires Printable(num, base)
    ensures var front := if num >= base then Field(Quot(num, base), base, width - 1, padc) else Repeat(padc, width - 1);
            (before + front) + [DigitChar(Rem(num, base))] == before + Field(num, base, width, padc)
  {
    hide Repeat, DigitChar, Quot, Rem;
    var c := [DigitChar(Rem(num, base))];
    if num >= base {
      var d := Digits(Quot(num, base), base);
      assert |Digits(num, base)| == |d| + 1;
      Regroup(before, Repeat(padc, width - 1 - |d|), d, c);
    } else {
      Regroup(before, Repeat(padc, width - 1), [], c);
    }
  }

  lemma Regroup(a: string, p: string, d: string, c: string)
    ensures (a + (p + d)) + c == a + (p + (d + c)) && p + [] == p && [] + c == c
  {
  }

  class Sink {
    var out: string

    constructor ()
      ensures out == ""
    {
      out := "";
    }

    method Putch(c: char)
      modifies this
      ensures out == old(out) + [c]
    {
      out := out + [c];
    }

    /** printnum: the recursion prints the higher digits, the innermost call the padding. */
    method PrintNum(num: nat, base: nat, width: int, padc: char)
      requires Printable(num, base)
      modifies this
      ensures out == old(out) + Field(num, base, width, padc)
      decreases num
    {
      hide Field, DigitChar, Repeat, Quot, Rem;
      var result, mod := Quot(num, base), Rem(num, base);
      ghost var before := out;
      if num >= base {
        PrintNum(result, base, width - 1, padc);
      } else {
        Pad(width, padc);
      }
      FieldStep(before, num, base, width, padc);
      Putch(DigitChar(mod));
    }

    /** The padding loop, which counts the width down before it tests it. */
    method Pad(width: int, padc: char)
      modifies this
      ensures out == old(out) + Repeat(padc, width - 1)
    {
      var w := width - 1;
      ghost var before, done := out, 0;
      while w > 0
        invariant done >= 0 && (if width > 1 then w >= 0 && done == width - 1 - w else w <= 0 && done == 0)
        invariant out == before + Repeat(padc, done)
        decreases w
      {
        RepeatAgain(before, padc, done);
        Putch(padc);
        done := done + 1;
        w := w - 1;
      }
    }
  }

  // ---------------------------------------------------------------- strtol

  /** Reading a string that ends in a zero byte. */
  function At(s: string, i: nat): char {
    if i < |s| then s[i] else '\0'
  }

  /** A letter or digit as a number; -1 for any other character. */
  function DigitVal(c: char): int {
    if '0' <= c <= '9' then c as int - '0' as int
    else if 'a' <= c <= 'z' then c as int - 'a' as int + 10
    else if 'A' <= c <= 'Z' then c as int - 'A' as int + 10
    else -1
  }

  /** Which characters have a value: one digit for each below 10, and for those from 10 to 35 the
      same letter in either case. */
  lemma CharsOfValue(c: char, v: nat)
    ensures DigitVal(c) == v <==> if v < 10 then c as int == 48 + v
                                  else v < 36 && (c as int == 97 + (v - 10) || c as int == 65 + (v - 10))
  {
  }

  predicate IsDigit(c: char, base: int) {
    0 <= DigitVal(c) < base
  }

  predicate IsBlank(c: char) {
    c == ' ' || c == '\t'
  }

  /** The value of a run of digits, the last one the least significant. */
  function Value(t: string, base: int): int {
    if t == [] then 0 else Append(Value(t[..|t| - 1], base), base, DigitVal(t[|t| - 1]))
  }

  /** A 64-bit signed word. */
  function Wrap(x: int): (w: int)
    ensures -0x8000_0000_0000_0000 <= w < 0x8000_0000_0000_0000
    ensures -0x8000_0000_0000_0000 <= x < 0x8000_0000_0000_0000 ==> w == x
    ensures (x - w) % 0x1_0000_0000_0000_0000 == 0
  {
    (x + 0x8000_0000_0000_0000) % 0x1_0000_0000_0000_0000 - 0x8000_0000_0000_0000
  }

  lemma WrapShift(x: int, k: int)
    ensures Wrap(x + k * 0x1_0000_0000_0000_0000) == Wrap(x)
  {
  }

  /** Wrapping at every step is wrapping once at the end. */
  lemma WrapStep(x: int, base: int, d: int)
    ensures Wrap(Append(Wrap(x), base, d)) == Wrap(Append(x, base, d))
  {
    var k := (x - Wrap(x)) / 0x1_0000_0000_0000_0000;
    assert x == Wrap(x) + k * 0x1_0000_0000_0000_0000;
    assert x * base + d == Wrap(x) * base + d + (k * base) * 0x1_0000_0000_0000_0000;
    WrapShift(Wrap(x) * base + d, k * base);
  }

  lemma WrapNegation(x: int)
    ensures Wrap(-Wrap(x)) == Wrap(-x)
  {
    WrapStep(x, -1, 0);
  }

  /** Where the digits start, after blanks, sign and prefix, and what those say. */
  datatype Lead = Lead(start: nat, neg: bool, base: int)

  ghost predicate IsRun(s: string, i: nat, j: nat, base: int) {
    i <= j && (forall k :: i <= k < j ==> IsDigit(At(s, k), base)) && !IsDigit(At(s, j), base)
  }

  ghost predicate IsLead(s: string, base: int, blanks: nat, lead: Lead) {
    && (forall k :: 0 <= k < blanks ==> IsBlank(At(s, k))) && !IsBlank(At(s, blanks))
    && lead.neg == (At(s, blanks) == '-')
    && var i := if At(s, blanks) == '+' || lead.neg then blanks + 1 else blanks;
    var hex := (base == 0 || base == 16) && At(s, i) == '0' && At(s, i + 1) == 'x';
    && lead.base == (if hex then 16 else if base != 0 then base else if At(s, i) == '0' then 8 else 10)
    && lead.start == i + (if hex then 2 else if base == 0 && At(s, i) == '0' then 1 else 0)
  }

  /** `val` is the word that the number at the front of `s` denotes, and `end` is behind its digits. */
  ghost predicate Parses(s: string, base: int, val: int, end: nat) {
    exists blanks: nat, lead ::
      && IsLead(s, base, blanks, lead) && IsRun(s, lead.start, end, lead.base) && lead.start <= end <= |s|
      && val == Wrap(if lead.neg then -Value(s[lead.start..end], lead.base) else Value(s[lead.start..end], lead.base))
  }

  method Strtol(s: string, base: int) returns (val: int, end: nat)
    ensures Parses(s, base, val, end)
  {
    ghost var blanks: nat;
    var i, neg, b;
    i, neg, b, blanks := ReadLead(s, base);
    hide Value, Wrap, IsLead, IsRun;
    val, end := ReadDigits(s, i, b);
    if neg {
      WrapNegation(Value(s[i..end], b));
      val := Wrap(-val);
    }
    assert IsLead(s, base, blanks, Lead(i, neg, b));
  }

  /** The start of strtol: blanks, sign and base prefix. */
  method ReadLead(s: string, base: int) returns (i: nat, neg: bool, b: int, ghost blanks: nat)
    ensures i <= |s| && IsLead(s, base, blanks, Lead(i, neg, b))
  {
    i, neg, b := 0, false, base;
    while IsBlank(At(s, i))
      invariant i <= |s| && forall k :: 0 <= k < i ==> IsBlank(At(s, k))
      decreases |s| - i
    {
      i := i + 1;
    }
    blanks := i;
    if At(s, i) == '+' {
      i := i + 1;
    } else if At(s, i) == '-' {
      i, neg := i + 1, true;
    }
    if (b == 0 || b == 16) && At(s, i) == '0' && At(s, i + 1) == 'x' {
      i, b := i + 2, 16;
    } else if b == 0 && At(s, i) == '0' {
      i, b := i + 1, 8;
    } else if b == 0 {
      b := 10;
    }
  }

  /** The digit loop of strtol. */
  method ReadDigits(s: string, start: nat, base: int) returns (val: int, i: nat)
    requires start <= |s|
    ensures start <= i <= |s| && IsRun(s, start, i, base) && val == Wrap(Value(s[start..i], base))
  {
    i, val := start, 0;
    assert s[start..start] == [];
    while IsDigit(At(s, i), base)
      invariant start <= i <= |s| && forall k :: start <= k < i ==> IsDigit(At(s, k), base)
      invariant val == Wrap(Value(s[start..i], base))
      decreases |s| - i
    {
      hide Wrap, Value, DigitVal, Append;
      assert i < |s| by { DigitIsInside(s, i, base); }
      ValueStep(s, start, i, base);
      WrapStep(Value(s[start..i], base), base, DigitVal(s[i]));
      val := Wrap(Append(val, base, DigitVal(s[i])));
      i := i + 1;
    }
  }

  lemma DigitIsInside(s: string, i: nat, base: int)
    requires IsDigit(At(s, i), base)
    ensures i < |s|
  {
  }

  lemma ValueStep(s: string, start: nat, i: nat, base: int)
    requires start <= i < |s|
    ensures Value(s[start..i + 1], base) == Append(Value(s[start..i], base), base, DigitVal(s[i]))
  {
    assert s[start..i + 1][..i - start] == s[start..i];
  }

  /** The text before the digits and the run of digits are determined by the string. */
  lemma LeadIsUnique(s: string, base: int, blanks: nat, lead: Lead, end: nat, blanks': nat, lead': Lead, end': nat)
    requires IsLead(s, base, blanks, lead) && IsRun(s, lead.start, end, lead.base)
    requires IsLead(s, base, blanks', lead') && IsRun(s, lead'.start, end', lead'.base)
    ensures blanks == blanks' && lead == lead' && end == end'
  {
    assert !(blanks < blanks') && !(blanks' < blanks);
    assert !(end < end') && !(end' < end);
  }

  /** So a string has one parse. */
  lemma ParseIsUnique(s: string, base: int, val: int, end: nat, val': int, end': nat)
    requires Parses(s, base, val, end) && Parses(s, base, val', end')
    ensures val == val' && end == end'
  {
    hide IsLead, IsRun, Value, Wrap;
    var blanks: nat, lead :|
      && IsLead(s, base, blanks, lead) && IsRun(s, lead.start, end, lead.base) && lead.start <= end <= |s|
      && val == Wrap(if lead.neg then -Value(s[lead.start..end], lead.base) else Value(s[lead.start..end], lead.base));
    var blanks': nat, lead' :|
      && IsLead(s, base, blanks', lead') && IsRun(s, lead'.start, end', lead'.base) && lead'.start <= end' <= |s|
      && val' == Wrap(if lead'.neg then -Value(s[lead'.start..end'],
                      lead'.base) else Value(s[lead'.start..end'], lead'.base));
    LeadIsUnique(s, base, blanks, lead, end, blanks', lead', end');
  }

  // ------------------------------------------------------------- round trip

  /** A character that can stand among printed digits. */
  predicate Clean(c: char, base: int) {
    IsDigit(c, base) && c != 'x' && !IsBlank(c)
  }

  lemma {:induction false} DigitsAreClean(num: nat, base: nat)
    requires Printable(num, base)
    ensures forall i :: 0 <= i < |Digits(num, base)| ==> Clean(Digits(num, base)[i], base)
  {
    DigitIs(Rem(num, base));
    hide Clean, DigitVal, DigitChar, Quot, Rem;
    if num >= base {
      DigitsAreClean(Quot(num, base), base);
    }
  }

  lemma {:induction false} DigitsHaveValue(num: nat, base: nat)
    requires Printable(num, base)
    ensures Value(Digits(num, base), base) == num
  {
    DivStep(num, base);
    var q, r := Quot(num, base), Rem(num, base);
    DigitIs(r);
    var front := if num >= base then Digits(q, base) else [];
    ValueAppend(front, DigitChar(r), base);
    EmptyValue(base);
    hide Value, DigitVal, DigitChar, Quot, Rem, Append;
    if num >= base {
      DigitsHaveValue(q, base);
    }
  }

  lemma EmptyValue(base: int)
    ensures Value([], base) == 0
  {
  }

  lemma ValueAppend(t: string, c: char, base: int)
    ensures Value(t + [c], base) == Append(Value(t, base), base, DigitVal(c))
  {
    assert (t + [c])[..|t|] == t;
  }

  lemma DigitIs(d: nat)
    requires d < 16
    ensures DigitVal(DigitChar(d)) == d && forall base :: base > d ==> Clean(DigitChar(d), base)
  {
  }

  lemma {:induction false} LeadingZeros(z: string, t: string, base: nat)
    requires forall i :: 0 <= i < |z| ==> z[i] == '0'
    ensures Value(z + t, base) == Value(t, base)
  {
    if t != [] {
      LeadingZeros(z, t[..|t| - 1], base);
      assert (z + t)[..|z + t| - 1] == z + t[..|t| - 1];
    } else if z != [] {
      assert z + t == z;
      LeadingZeros(z[..|z| - 1], [], base);
      assert z[..|z| - 1] + [] == z[..|z| - 1];
    }
  }

  /** Where parsing starts in padded text: behind blanks, but in front of zeros. */
  function StartOf(pad: nat, padc: char): nat {
    if padc == ' ' then pad else 0
  }

  lemma PaddedParses(s: string, pad: nat, n: nat, base: nat, padc: char)
    requires 1 <= base <= 16 && (padc == ' ' || padc == '0') && pad < n
    requires forall k :: 0 <= k < pad ==> At(s, k) == padc
    requires forall k :: pad <= k < n ==> Clean(At(s, k), base)
    requires !(0 <= DigitVal(At(s, n)) < base)
    requires !(base == 16 && StartOf(pad, padc) + 1 == n && At(s, StartOf(pad, padc)) == '0' && At(s, n) == 'x')
    ensures var start := StartOf(pad, padc);
            IsLead(s, base, start, Lead(start, false, base)) && IsRun(s, start, n, base)
  {
    var start := StartOf(pad, padc);
    assert start == pad ==> Clean(At(s, start), base);
    assert start + 1 < n && start + 1 >= pad ==> Clean(At(s, start + 1), base);
  }

  lemma FieldChars(p: string, d: string, rest: string, k: nat)
    ensures At(p + d + rest, k) ==
            if k < |p| then p[k] else if k < |p| + |d| then d[k - |p|] else At(rest, k - |p| - |d|)
  {
  }

  /** A lone zero with an x behind it looks like a prefix. */
  predicate LooksHex(p: string, d: string, rest: string, base: nat, padc: char) {
    base == 16 && d == "0" && (padc == ' ' || p == "") && At(rest, 0) == 'x'
  }

  /** Padding, digits and a character that is no digit of the base. */
  lemma PiecesParse(p: string, d: string, rest: string, base: nat, padc: char, num: nat)
    requires 1 <= base <= 16 && (padc == ' ' || padc == '0') && !(0 <= DigitVal(At(rest, 0)) < base) && d != []
    requires !LooksHex(p, d, rest, base, padc)
    requires forall k :: 0 <= k < |p| ==> p[k] == padc
    requires forall k :: 0 <= k < |d| ==> Clean(d[k], base)
    requires Value(d, base) == num
    ensures Parses(p + d + rest, base, Wrap(num), |p| + |d|)
  {
    var s, n := p + d + rest, |p| + |d|;
    hide Value, Wrap, Parses, IsLead, IsRun, Clean, At, DigitVal;
    forall k | 0 <= k < n ensures At(s, k) == if k < |p| then padc else d[k - |p|] {
      FieldChars(p, d, rest, k);
    }
    FieldChars(p, d, rest, n);
    if StartOf(|p|, padc) + 1 == n && At(s, StartOf(|p|, padc)) == '0' { assert d == "0"; }
    PaddedParses(s, |p|, n, base, padc);
    if padc == ' ' {
      assert s[|p|..n] == d;
    } else {
      assert s[0..n] == p + d;
      LeadingZeros(p, d, base);
    }
    ParsesFrom(s, base, StartOf(|p|, padc), n, num);
  }

  /** Printed digits behind padding parse back to the number. */
  lemma PaddedDigitsParse(num: nat, base: nat, padc: char, p: string, d: string, rest: string)
    requires Printable(num, base) && (padc == ' ' || padc == '0') && !(0 <= DigitVal(At(rest, 0)) < base)
    requires d == Digits(num, base) && forall k :: 0 <= k < |p| ==> p[k] == padc
    requires !LooksHex(p, d, rest, base, padc)
    ensures Parses(p + d + rest, base, Wrap(num), |p| + |d|)
  {
    DigitsAreClean(num, base);
    DigitsHaveValue(num, base);
    hide *;
    PiecesParse(p, d, rest, base, padc, num);
  }

  /** A zero is printed without leading zeros, in base 16, in front of an x. */
  predicate ZeroX(num: nat, base: nat, width: int, padc: char, rest: string) {
    base == 16 && num == 0 && (padc == ' ' || width <= 1) && At(rest, 0) == 'x'
  }

  lemma ZeroXLooksHex(num: nat, base: nat, width: int, padc: char, rest: string)
    requires Printable(num, base)
    ensures var d := Digits(num, base);
            ZeroX(num, base, width, padc, rest) <==> LooksHex(Repeat(padc, width - |d|), d, rest, base, padc)
  {
    hide Digits, Value, Repeat, At, Printable;
    var d := Digits(num, base);
    DigitsHaveValue(num, base);
    ZeroDigits(num, base);
    RepeatIs(padc, width - |d|);
  }

  /** Only zero is printed as a lone zero. */
  lemma ZeroDigits(num: nat, base: nat)
    requires Printable(num, base)
    ensures Digits(num, base) == "0" <==> num == 0
  {
    hide Digits, Value;
    if Digits(num, base) == "0" {
      DigitsHaveValue(num, base);
      EmptyValue(base);
      ValueAppend([], '0', base);
      assert [] + ['0'] == "0";
      assert Append(0, base, 0) == 0;
    } else if num == 0 {
      DigitsOfZero(base);
    }
  }

  lemma DigitsOfZero(base: nat)
    requires Printable(0, base)
    ensures Digits(0, base) == "0"
  {
    assert Rem(0, base) == 0;
  }

  /** Printed text, whatever the padding, parses back to the number if the next character is no
      digit of the base; with one exception, in which the text is taken for a prefix. */
  lemma FieldParses(num: nat, base: nat, width: int, padc: char, rest: string)
    requires Printable(num, base) && (padc == ' ' || padc == '0') && !(0 <= DigitVal(At(rest, 0)) < base)
    ensures var t := Field(num, base, width, padc);
            if ZeroX(num, base, width, padc, rest)
            then forall val, end: nat :: Parses(t + rest, base, val, end) ==> end > |t|
            else Parses(t + rest, base, Wrap(num), |t|)
  {
    hide Digits, Repeat, Parses, DigitVal, At, Wrap;
    var p, d := Repeat(padc, width - |Digits(num, base)|), Digits(num, base);
    ZeroXLooksHex(num, base, width, padc, rest);
    if LooksHex(p, d, rest, base, padc) {
      RepeatIs(padc, width - |d|);
      PrefixParses(p, rest, padc);
    } else {
      PaddedDigitsParse(num, base, padc, p, d, rest);
    }
  }

  lemma RepeatIs(c: char, n: int)
    ensures |Repeat(c, n)| == (if n > 0 then n else 0) && forall k :: 0 <= k < |Repeat(c, n)| ==> Repeat(c, n)[k] == c
  {
  }

  /** In front of an x a lone zero is skipped. */
  lemma PrefixParses(p: string, rest: string, padc: char)
    requires forall k :: 0 <= k < |p| ==> p[k] == padc
    requires At(rest, 0) == 'x' && (padc == ' ' || (padc == '0' && p == ""))
    ensures forall val, end: nat :: Parses(p + "0" + rest, 16, val, end) ==> end > |p| + 1
  {
    hide Value, Wrap, At;
    var s := p + "0" + rest;
    forall k | 0 <= k <= |p| + 1 ensures At(s, k) == if k < |p| then padc else if k == |p| then '0' else 'x' {
      FieldChars(p, "0", rest, k);
    }
    forall val, end: nat | Parses(s, 16, val, end) ensures end > |p| + 1 {
      var blanks: nat, lead :| IsLead(s, 16, blanks, lead) && IsRun(s, lead.start, end, lead.base);
      assert At(s, |p|) == '0' && At(s, |p| + 1) == 'x';
      assert !(blanks < |p|) && !(|p| < blanks);
    }
  }

  lemma ParsesFrom(s: string, base: int, start: nat, end: nat, num: nat)
    requires IsLead(s, base, start, Lead(start, false, base)) && IsRun(s, start, end, base) && start <= end <= |s|
    requires Value(s[start..end], base) == num
    ensures Parses(s, base, Wrap(num), end)
  {
    hide IsLead, IsRun, Value, Wrap;
    var lead := Lead(start, false, base);
    assert IsLead(s, base, start, lead) && IsRun(s, lead.start, end, lead.base);
  }

  /** What printnum prints, strtol reads back as a 64-bit signed word, hence exactly up to 2^63,
      and it stops right behind the digits; in the one exception it reads on. */
  method RoundTrip(num: nat, base: nat, width: int, padc: char, rest: string) returns (text: string, val: int, end: nat)
    requires Printable(num, base) && (padc == ' ' || padc == '0') && !(0 <= DigitVal(At(rest, 0)) < base)
    ensures text == Field(num, base, width, padc)
    ensures if ZeroX(num, base, width, padc, rest) then end > |text| else end == |text|
    ensures end == |text| ==> val == Wrap(num) && (num < 0x8000_0000_0000_0000 <==> val == num)
  {
    var sink := new Sink();
    sink.PrintNum(num, base, width, padc);
    text := sink.out;
    assert text == Field(num, base, width, padc);
    FieldParses(num, base, width, padc, rest);
    assert num < 0x8000_0000_0000_0000 <==> Wrap(num) == num;
    hide Parses, DigitVal, Field, At, Wrap;
    val, end := Strtol(text + rest, base);
    if !ZeroX(num, base, width, padc, rest) {
      ParseIsUnique(text + rest, base, val, end, Wrap(num), |text|);
    }
  }

  /** A printed zero in front of an x, read in base 16: the end is not behind the zero. */
  method ZeroXExample() returns (text: string, end: nat)
    ensures text == "0" && end > 1
  {
    DigitsOfZero(16);
    assert Printable(0, 16) && At("x", 0) == 'x' && DigitVal('x') == 33;
    var val;
    text, val, end := RoundTrip(0, 16, 1, ' ', "x");
    assert Repeat(' ', 0) + "0" == "0";
  }
}
