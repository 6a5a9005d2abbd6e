/**
  Printing integers and reading them back: `number` of the formatted output and `atoi`.
 */
module Numerals {

  const MAX32 := 0x7fff_ffff
  const WORD := 0x1_0000_0000

  datatype Flags = Flags(zeropad: bool, sign: bool, plus: bool, space: bool, left: bool, special: bool, large: bool)

  /** What `number` hands back: the place behind the last character, or null for a bad base. */
  datatype Pointer = Null | To(place: nat)

  // ----- Digits -----

  const DIGITS := "0123456789abcdefghijklmnopqrstuvwxyz"
  const UPPER_DIGITS := "0123456789ABCDEFGHIJKLMNOPQRSTUVWXYZ"

  /** `n / base` and `n % base`, with what is needed to know of them. */
  function Quotient(n: nat, base: nat): (q: nat)
    requires 2 <= base
    ensures 2 * q <= n && (n >= base ==> q >= 1)
  {
    DivisionShrinks(n, base);
    n / base
  }

  function Remainder(n: nat, base: nat): (r: nat)
    requires 2 <= base
    ensures r < base && n == r + base * Quotient(n, base)
  {
    n % base
  }

  lemma DivisionShrinks(n: nat, base: nat)
    requires 2 <= base
    ensures n / base >= 0 && 2 * (n / base) <= n && (n >= base ==> n / base >= 1)
  {
    QuotientBounds(n, base, n / base, n % base);
  }

  lemma QuotientBounds(n: nat, base: nat, q: int, r: int)
    requires 2 <= base && n == base * q + r && 0 <= r < base
    ensures q >= 0 && 2 * q <= n && (n >= base ==> q >= 1)
  {
    assert q < 0 ==> base * (q + 1) <= 0;
    assert q >= 0 ==> base * q >= 2 * q;
  }

  /** The digits of n, lowest first. */
  function Digits(n: nat, base: nat): (ds: seq<nat>)
    requires 2 <= base
    ensures ds != [] && forall i :: 0 <= i < |ds| ==> ds[i] < base
  {
    if n < base then [n] else [Remainder(n, base)] + Digits(Quotient(n, base), base)
  }

  /** The number that digits, lowest first, stand for. */
  function Value(ds: seq<nat>, base: nat): nat {
    if ds == [] then 0 else ds[0] + base * Value(ds[1..], base)
  }

  lemma {:induction false} ValueOfDigits(n: nat, base: nat)
    requires 2 <= base
    ensures Value(Digits(n, base), base) == n
  {
    hide Quotient, Remainder;
    if n >= base {
      ValueOfDigits(Quotient(n, base), base);
      assert Digits(n, base)[1..] == Digits(Quotient(n, base), base);
    } else {
      assert Digits(n, base) == [n] && Value([], base) == 0;
    }
  }

  function Power2(k: nat): nat {
    if k == 0 then 1 else 2 * Power2(k - 1)
  }

  /** A number of k bits has at most k digits, so the buffer for them never overflows. */
  lemma {:induction false} DigitsFit(n: nat, base: nat, k: nat)
    requires 2 <= base && 1 <= k && n < Power2(k)
    ensures |Digits(n, base)| <= k
  {
    hide Quotient, Remainder;
    if n >= base {
      DigitsFit(Quotient(n, base), base, k - 1);
    }
  }

  // ----- The text that is meant -----

  function Repeat(c: char, n: int): string {
    if n <= 0 then "" else seq(n, _ => c)
  }

  function Max(a: int, b: int): int {
    if a < b then b else a
  }

  function SignText(num: int, flags: Flags): string {
    if !flags.sign then ""
    else if num < 0 then "-"
    else if flags.plus then "+"
    else if flags.space then " "
    else ""
  }

  function PrefixText(base: nat, flags: Flags): string {
    if !flags.special then "" else if base == 8 then "0" else if base == 16 then "0x" else ""
  }

  /** What is written out in digits: the absolute value, or the number as an unsigned word. */
  function Magnitude(num: int, flags: Flags): nat {
    if flags.sign then (if num < 0 then -num else num) else num % WORD
  }

  function DigitChar(d: nat, large: bool): char
    requires d < 36
  {
    if large then UPPER_DIGITS[d] else DIGITS[d]
  }

  /** The digits `ds`, highest first. */
  function DigitText(ds: seq<nat>, large: bool): string
    requires forall i :: 0 <= i < |ds| ==> ds[i] < 36
  {
    seq(|ds|, k requires 0 <= k < |ds| => DigitChar(ds[|ds| - 1 - k], large))
  }

  /** The whole output, in the order in which it is written. */
  function Output(num: int, base: nat, size: int, precision: int, flags: Flags): string
    requires 2 <= base <= 36
  {
    var ds := Digits(Magnitude(num, flags), base);
    var sign, prefix := SignText(num, flags), PrefixText(base, flags);
    Parts(sign, prefix, DigitText(ds, flags.large), size - |sign| - |prefix| - Max(precision, |ds|),
          Max(precision, |ds|), flags)
  }

  /** Padding, sign, prefix, zeros and digits; `pad` is what the width leaves over. */
  function Parts(sign: string, prefix: string, digits: string, pad: int, precision: int, flags: Flags): string {
    Repeat(' ', if flags.left || flags.zeropad then 0 else pad)
    + sign
    + prefix
    + Repeat('0', if flags.zeropad && !flags.left then pad else 0)
    + Repeat('0', precision - |digits|)
    + digits
    + Repeat(' ', if flags.left then pad else 0)
  }

  lemma OutputLength(num: int, base: nat, size: int, precision: int, flags: Flags)
    requires 2 <= base <= 36
    ensures |Output(num, base, size, precision, flags)|
         == Max(size, |SignText(num, flags)| + |PrefixText(base, flags)|
                      + Max(precision, |Digits(Magnitude(num, flags), base)|))
  {
  }

  // ----- Reading -----

  predicate IsSpace(c: char) {
    c == ' ' || c == '\t' || c == '\n' || c == '\r' || c as int == 11 || c as int == 12
  }

  predicate IsDigit(c: char) {
    '0' <= c <= '9'
  }

  function DigitValue(c: char): nat
    requires IsDigit(c)
  {
    c as int - '0' as int
  }

  /** The text from the first character that is no space. */
  function SkipSpaces(s: string): string {
    if s != "" && IsSpace(s[0]) then SkipSpaces(s[1..]) else s
  }

  /** The decimal value of the digits `s` begins with, behind digits already worth `acc`. */
  function Leading(s: string, acc: nat): nat {
    if s != "" && IsDigit(s[0]) then Leading(s[1..], 10 * acc + DigitValue(s[0])) else acc
  }

  /** The integer a text begins with. */
  function Parsed(s: string): int {
    var t := SkipSpaces(s);
    if t == "" then 0
    else if t[0] == '-' then 0 - Leading(t[1..], 0)
    else if t[0] == '+' then Leading(t[1..], 0)
    else Leading(t, 0)
  }

  // ----- Reading back what was printed -----

  lemma {:induction false} SkipRepeat(n: int, t: string)
    ensures SkipSpaces(Repeat(' ', n) + t) == SkipSpaces(t)
    decreases if n < 0 then 0 else n
  {
    var s := Repeat(' ', n) + t;
    if n > 0 {
      assert s[1..] == Repeat(' ', n - 1) + t;
      SkipRepeat(n - 1, t);
    } else {
      assert s == t;
    }
  }

  lemma {:induction false} LeadingZeros(n: int, t: string)
    ensures Leading(Repeat('0', n) + t, 0) == Leading(t, 0)
    decreases if n < 0 then 0 else n
  {
    var s := Repeat('0', n) + t;
    if n > 0 {
      assert s[1..] == Repeat('0', n - 1) + t;
      LeadingZeros(n - 1, t);
    } else {
      assert s == t;
    }
  }

  lemma DecimalDigit(d: nat, large: bool)
    requires d < 10
    ensures IsDigit(DigitChar(d, large)) && DigitValue(DigitChar(d, large)) == d
  {
  }

  lemma {:induction false} CarryIn(ds: seq<nat>, d: nat, acc: nat)
    ensures Value(ds + [d] + [acc], 10) == Value(ds + [10 * acc + d], 10)
  {
    if ds == [] {
      assert ([d] + [acc])[1..] == [acc] && [acc][1..] == [] && [10 * acc + d][1..] == [];
      assert ds + [d] + [acc] == [d] + [acc] && ds + [10 * acc + d] == [10 * acc + d];
    } else {
      CarryIn(ds[1..], d, acc);
      assert (ds + [d] + [acc])[1..] == ds[1..] + [d] + [acc];
      assert (ds + [10 * acc + d])[1..] == ds[1..] + [10 * acc + d];
    }
  }

  lemma {:induction false} TopZero(ds: seq<nat>)
    ensures Value(ds + [0], 10) == Value(ds, 10)
  {
    if ds == [] {
      assert [0][1..] == [] && ds + [0] == [0];
    } else {
      TopZero(ds[1..]);
      assert (ds + [0])[1..] == ds[1..] + [0];
    }
  }

  /** Reading digits behind a value puts the value on top of them. */
  lemma {:induction false} LeadingDigits(ds: seq<nat>, large: bool, tail: string, acc: nat)
    requires forall i :: 0 <= i < |ds| ==> ds[i] < 10
    requires tail == "" || !IsDigit(tail[0])
    ensures Leading(DigitText(ds, large) + tail, acc) == Value(ds + [acc], 10)
    decreases |ds|
  {
    hide DigitChar, DigitValue;
    var s := DigitText(ds, large) + tail;
    if ds == [] {
      assert s == tail && [acc][1..] == [] && ds + [acc] == [acc];
    } else {
      var low, d := ds[..|ds| - 1], ds[|ds| - 1];
      DecimalDigit(d, large);
      assert s[0] == DigitChar(d, large);
      assert s[1..] == DigitText(low, large) + tail;
      LeadingDigits(low, large, tail, 10 * acc + d);
      CarryIn(low, d, acc);
      assert low + [d] == ds;
    }
  }

  lemma ReadDigits(n: nat, precision: int, pad: int, spaces: int, large: bool)
    ensures var ds := Digits(n, 10);
      var s := Repeat('0', pad) + (Repeat('0', precision - |ds|) + DigitText(ds, large) + Repeat(' ', spaces));
      s != "" && IsDigit(s[0]) && Leading(s, 0) == n
  {
    hide DigitChar, DigitValue, Digits;
    var ds, tail := Digits(n, 10), Repeat(' ', spaces);
    var zeros, text := Repeat('0', precision - |ds|), DigitText(ds, large);
    DecimalDigit(ds[|ds| - 1], large);
    assert text[0] == DigitChar(ds[|ds| - 1], large);
    var inner := zeros + text + tail;
    assert inner[0] == if precision > |ds| then '0' else text[0];
    assert (Repeat('0', pad) + inner)[0] == if pad > 0 then '0' else inner[0];
    LeadingZeros(pad, zeros + text + tail);
    assert zeros + text + tail == zeros + (text + tail);
    LeadingZeros(precision - |ds|, text + tail);
    LeadingDigits(ds, large, tail, 0);
    TopZero(ds);
    ValueOfDigits(n, 10);
  }

  /** The output is spaces, the sign, and a part that begins with a digit and reads as the magnitude. */
  lemma OutputParts(num: int, size: int, precision: int, flags: Flags)
    returns (before: int, body: string)
    requires flags.sign
    ensures Output(num, 10, size, precision, flags) == Repeat(' ', before) + (SignText(num, flags) + body)
    ensures body != "" && IsDigit(body[0]) && Leading(body, 0) == Magnitude(num, flags)
  {
    hide Output, Parts, Repeat, DigitText, Digits, SignText, Magnitude, Leading, IsDigit;
    var sign, n := SignText(num, flags), Magnitude(num, flags);
    var ds := Digits(n, 10);
    var digits, places := DigitText(ds, flags.large), Max(precision, |ds|);
    var pad := size - |sign| - places;
    var zeros := if flags.zeropad && !flags.left then pad else 0;
    var after := if flags.left then pad else 0;
    body := Repeat('0', zeros) + (Repeat('0', places - |ds|) + digits + Repeat(' ', after));
    before := if flags.left || flags.zeropad then 0 else pad;
    ReadDigits(n, places, zeros, after, flags.large);
    DigitTextReversed(ds, flags.large);
    PartsRegrouped(sign, digits, pad, places, flags);
    DecimalOutput(num, size, precision, flags);
  }

  /** Decimal output has no prefix. */
  lemma DecimalOutput(num: int, size: int, precision: int, flags: Flags)
    ensures var ds := Digits(Magnitude(num, flags), 10);
      var sign, places := SignText(num, flags), Max(precision, |ds|);
      Output(num, 10, size, precision, flags)
        == Parts(sign, "", DigitText(ds, flags.large), size - |sign| - places, places, flags)
  {
    hide Parts, Digits, DigitText, SignText, Magnitude;
    assert PrefixText(10, flags) == "";
  }

  lemma PartsRegrouped(sign: string, digits: string, pad: int, places: int, flags: Flags)
    ensures Parts(sign, "", digits, pad, places, flags)
         == Repeat(' ', if flags.left || flags.zeropad then 0 else pad)
            + (sign + (Repeat('0', if flags.zeropad && !flags.left then pad else 0)
            + (Repeat('0', places - |digits|) + digits + Repeat(' ', if flags.left then pad else 0))))
  {
    hide Repeat;
    Regroup(Repeat(' ', if flags.left || flags.zeropad then 0 else pad), sign,
            Repeat('0', if flags.zeropad && !flags.left then pad else 0),
            Repeat('0', places - |digits|), digits, Repeat(' ', if flags.left then pad else 0));
  }

  lemma Regroup(a: string, b: string, c: string, d: string, e: string, f: string)
    ensures a + b + "" + c + d + e + f == a + (b + (c + (d + e + f)))
  {
    assert a + b + "" == a + b;
    assert c + d + e + f == c + (d + e + f);
    assert a + b + c + d + e + f == a + b + (c + d + e + f);
  }

  /**
    Printing and then reading gives the number back, whatever the width, the precision and the flags.
   */
  lemma PrintThenRead(num: int, size: int, precision: int, flags: Flags)
    requires flags.sign
    ensures Parsed(Output(num, 10, size, precision, flags)) == num
  {
    var before, body := OutputParts(num, size, precision, flags);
    hide Output, Digits;
    var sign := SignText(num, flags);
    SkipRepeat(before, sign + body);
    hide Repeat;
    assert sign != "" ==> (sign + body)[0] == sign[0] && (sign + body)[1..] == body;
    assert sign == "" ==> sign + body == body;
    assert SkipSpaces(body) == body;
  }

  // ----- What the output says, read character by character -----

  /** The worth of a character as a digit; 36 for one that is none. */
  function Worth(c: char): nat {
    if '0' <= c <= '9' then c as nat - '0' as nat
    else if 'a' <= c <= 'z' then c as nat - 'a' as nat + 10
    else if 'A' <= c <= 'Z' then c as nat - 'A' as nat + 10
    else 36
  }

  /** The number that the digits of a text stand for, read from the left. */
  function Reading(text: string, base: nat): nat {
    if text == "" then 0 else base * Reading(text[..|text| - 1], base) + Worth(text[|text| - 1])
  }

  lemma DigitCode(d: nat, large: bool)
    requires d < 36
    ensures DigitChar(d, large) as int == if d < 10 then 48 + d else if large then 55 + d else 87 + d
  {
    if large { UpperCode(d); } else { LowerCode(d); }
  }

  lemma LowerCode(d: nat)
    requires d < 36
    ensures DIGITS[d] as int == if d < 10 then 48 + d else 87 + d
  {
  }

  lemma UpperCode(d: nat)
    requires d < 36
    ensures UPPER_DIGITS[d] as int == if d < 10 then 48 + d else 55 + d
  {
  }

  lemma DigitWorth(d: nat, large: bool)
    requires d < 36
    ensures Worth(DigitChar(d, large)) == d
    ensures if large then !('a' <= DigitChar(d, large) <= 'z') else !('A' <= DigitChar(d, large) <= 'Z')
  {
    DigitCode(d, large);
    hide DigitChar;
  }

  lemma {:induction false} ReadingIsValue(ds: seq<nat>, base: nat, large: bool)
    requires forall i :: 0 <= i < |ds| ==> ds[i] < 36
    ensures Reading(DigitText(ds, large), base) == Value(ds, base)
  {
    hide DigitChar, Worth;
    if ds != [] {
      var text := DigitText(ds, large);
      assert text[..|text| - 1] == DigitText(ds[1..], large);
      assert text[|text| - 1] == DigitChar(ds[0], large);
      DigitWorth(ds[0], large);
      ReadingIsValue(ds[1..], base, large);
    }
  }

  /** The highest digit is 0 only of a lone digit. */
  lemma {:induction false} TopDigit(n: nat, base: nat)
    requires 2 <= base
    ensures var ds := Digits(n, base); |ds| > 1 ==> ds[|ds| - 1] != 0
  {
    hide Quotient, Remainder;
    if n >= base {
      var q := Quotient(n, base);
      TopDigit(q, base);
      assert |Digits(q, base)| == 1 ==> Digits(q, base)[0] == q;
      assert Digits(n, base)[|Digits(n, base)| - 1] == Digits(q, base)[|Digits(q, base)| - 1];
    }
  }

  /** The text reads as n, in digits of the base and the wanted case, without a leading 0. */
  ghost predicate IsNumeral(text: string, n: int, base: nat, large: bool) {
    && text != "" && (|text| > 1 ==> text[0] != '0') && Reading(text, base) == n
    && forall i :: 0 <= i < |text| ==>
         Worth(text[i]) < base && if large then !('a' <= text[i] <= 'z') else !('A' <= text[i] <= 'Z')
  }

  lemma TextOf(n: nat, base: nat, large: bool)
    requires 2 <= base <= 36
    ensures IsNumeral(DigitText(Digits(n, base), large), n, base, large)
  {
    hide Digits, DigitChar, Worth;
    var ds := Digits(n, base);
    ReadingIsValue(ds, base, large);
    ValueOfDigits(n, base);
    TopDigit(n, base);
    DigitTextReversed(ds, large);
    forall i | 0 <= i < |ds|
      ensures Worth(DigitText(ds, large)[i]) == ds[|ds| - 1 - i]
      ensures var c := DigitText(ds, large)[i]; if large then !('a' <= c <= 'z') else !('A' <= c <= 'Z')
    {
      DigitWorth(ds[|ds| - 1 - i], large);
    }
    assert Worth('0') == 0 by { ZeroWorth(); }
  }

  lemma ZeroWorth()
    ensures Worth('0') == 0
  {
  }

  /**
    What is printed for a number in any base with any flags, a signed number or a word: spaces, the sign, the
    prefix, zeros, and digits that read as the number; the padding fills exactly what the width leaves over.
   */
  lemma OutputMeans(num: int, base: nat, size: int, precision: int, flags: Flags)
    returns (sign: string, prefix: string, spaces: nat, zeros: nat, text: string, after: nat)
    requires 2 <= base <= 36
    ensures Output(num, base, size, precision, flags)
         == seq(spaces, _ => ' ') + sign + prefix + seq(zeros, _ => '0') + text + seq(after, _ => ' ')
    ensures sign == if !flags.sign then [] else if num < 0 then ['-'] else if flags.plus then ['+']
                    else if flags.space then [' '] else []
    ensures prefix == if !flags.special then [] else if base == 8 then ['0'] else if base == 16 then ['0', 'x'] else []
    ensures IsNumeral(text, if flags.sign then (if num < 0 then -num else num) else num % 0x1_0000_0000, base, flags.large)
    ensures var places := if precision > |text| then precision else |text|;
      var left := size - |sign| - |prefix| - places;
      var pad := if left > 0 then left else 0;
      && spaces == (if flags.left || flags.zeropad then 0 else pad)
      && zeros == places - |text| + (if flags.zeropad && !flags.left then pad else 0)
      && after == (if flags.left then pad else 0)
  {
    var ds := Digits(Magnitude(num, flags), base);
    text, sign, prefix := DigitText(ds, flags.large), SignText(num, flags), PrefixText(base, flags);
    TextOf(Magnitude(num, flags), base, flags.large);
    DigitTextReversed(ds, flags.large);
    var places := Max(precision, |text|);
    hide Digits, DigitText, IsNumeral, Parts;
    spaces, zeros, after := PartsMean(sign, prefix, text, size - |sign| - |prefix| - places, places, flags);
    hide Repeat, SignText, PrefixText;
    SignMeans(num, flags);
    PrefixMeans(base, flags);
  }

  lemma SignMeans(num: int, flags: Flags)
    ensures SignText(num, flags)
         == if !flags.sign then [] else if num < 0 then ['-'] else if flags.plus then ['+']
            else if flags.space then [' '] else []
  {
  }

  lemma PrefixMeans(base: nat, flags: Flags)
    ensures PrefixText(base, flags)
         == if !flags.special then [] else if base == 8 then ['0'] else if base == 16 then ['0', 'x'] else []
  {
  }

  /** Padding, sign, prefix, zeros, digits, padding. */
  lemma PartsMean(sign: string, prefix: string, text: string, left: int, places: int, flags: Flags)
    returns (spaces: nat, zeros: nat, after: nat)
    requires |text| <= places
    ensures Parts(sign, prefix, text, left, places, flags)
         == seq(spaces, _ => ' ') + sign + prefix + seq(zeros, _ => '0') + text + seq(after, _ => ' ')
    ensures var pad := if left > 0 then left else 0;
      && spaces == (if flags.left || flags.zeropad then 0 else pad)
      && zeros == places - |text| + (if flags.zeropad && !flags.left then pad else 0)
      && after == (if flags.left then pad else 0)
  {
    var pad := if left > 0 then left else 0;
    spaces := if flags.left || flags.zeropad then 0 else pad;
    var wide: nat, narrow: nat := if flags.zeropad && !flags.left then pad else 0, places - |text|;
    zeros := wide + narrow;
    after := if flags.left then pad else 0;
    RepeatMeans(' ', if flags.left || flags.zeropad then 0 else left, spaces);
    RepeatMeans('0', if flags.zeropad && !flags.left then left else 0, wide);
    RepeatMeans('0', narrow, narrow);
    RepeatMeans(' ', if flags.left then left else 0, after);
    assert seq(wide, _ => '0') + seq(narrow, _ => '0') == seq(zeros, _ => '0');
    hide Repeat;
    Joined(seq(spaces, _ => ' ') + sign + prefix, seq(wide, _ => '0'), seq(narrow, _ => '0'), text, seq(after, _ => ' '));
  }

  lemma Joined(a: string, b: string, c: string, d: string, e: string)
    ensures a + b + c + d + e == a + (b + c) + d + e
  {
    assert a + b + c == a + (b + c);
  }

  lemma RepeatMeans(c: char, n: int, m: nat)
    requires m == if n > 0 then n else 0
    ensures Repeat(c, n) == seq(m, _ => c)
  {
  }

  // ----- The parser -----

  /** The value of an integer in a signed 32-bit word. */
  function Wrap(x: int): int {
    (x + MAX32 + 1) % WORD - MAX32 - 1
  }

  lemma WrapStep(a: int, d: int)
    ensures Wrap(Wrap(Wrap(a) * 10) + d) == Wrap(10 * a + d)
    ensures Wrap(-Wrap(a)) == Wrap(-a)
  {
    var k := (a - Wrap(a)) / WORD;
    assert Wrap(a) == a - k * WORD;
    var j := (Wrap(a) * 10 - Wrap(Wrap(a) * 10)) / WORD;
    assert Wrap(Wrap(a) * 10) == 10 * a - (10 * k + j) * WORD;
    WrapShift(10 * a + d, 10 * k + j);
    WrapShift(-a, -k);
  }

  lemma WrapShift(x: int, k: int)
    ensures Wrap(x - k * WORD) == Wrap(x)
  {
  }

  /** The signed 32-bit word that differs from the number by a multiple of 2^32. */
  lemma WrapMeans(x: int)
    ensures -0x8000_0000 <= Wrap(x) <= 0x7fff_ffff && (x - Wrap(x)) % 0x1_0000_0000 == 0
  {
  }

  /**
    What `atoi` reads off a text: blanks, at most one sign, and digits, up to the first character that is none
    of these; without digits 0.
   */
  lemma ParsedReads(blanks: string, sign: string, digits: string, tail: string)
    requires forall i :: 0 <= i < |blanks| ==> blanks[i] == ' ' || 9 <= blanks[i] as int <= 13
    requires sign == [] || sign == ['-'] || sign == ['+']
    requires forall i :: 0 <= i < |digits| ==> '0' <= digits[i] <= '9'
    requires tail != [] ==> !('0' <= tail[0] <= '9')
    requires tail != [] && sign == [] && digits == [] ==>
               tail[0] != '-' && tail[0] != '+' && tail[0] != ' ' && !(9 <= tail[0] as int <= 13)
    ensures Parsed(blanks + (sign + (digits + tail))) == (if sign == ['-'] then -1 else 1) * Reading(digits, 10)
  {
    var rest := digits + tail;
    SkipBlanks(blanks, sign + rest);
    LeadingReads(digits, tail);
    assert rest != [] ==> rest[0] == if digits != [] then digits[0] else tail[0];
    hide Leading, Reading;
    if sign == [] {
      assert sign + rest == rest;
      ParsedPlain(rest);
      assert rest == [] ==> digits == [];
    } else {
      assert (sign + rest)[0] == sign[0] && (sign + rest)[1..] == rest;
      ParsedSigned(sign[0], rest);
      assert sign + rest == [sign[0]] + rest;
    }
    ParsedSkips(blanks + (sign + rest), sign + rest);
    hide Parsed, SkipSpaces;
  }

  lemma ParsedSkips(s: string, t: string)
    requires SkipSpaces(s) == SkipSpaces(t)
    ensures Parsed(s) == Parsed(t)
  {
    hide SkipSpaces, Leading;
  }

  lemma ParsedPlain(t: string)
    requires t != [] ==> t[0] != '-' && t[0] != '+' && t[0] != ' ' && !(9 <= t[0] as int <= 13)
    ensures Parsed(t) == Leading(t, 0)
  {
    if t != [] {
      BlankIsSpace(t[0]);
    }
  }

  lemma ParsedSigned(c: char, t: string)
    requires c == '-' || c == '+'
    ensures Parsed([c] + t) == if c == '-' then 0 - Leading(t, 0) else Leading(t, 0)
  {
    BlankIsSpace(c);
    assert ([c] + t)[0] == c && ([c] + t)[1..] == t;
    hide Leading, IsSpace;
  }

  lemma {:induction false} SkipBlanks(blanks: string, rest: string)
    requires forall i :: 0 <= i < |blanks| ==> blanks[i] == ' ' || 9 <= blanks[i] as int <= 13
    ensures SkipSpaces(blanks + rest) == SkipSpaces(rest)
  {
    var s := blanks + rest;
    if blanks == [] {
      assert s == rest;
    } else {
      assert s[0] == blanks[0] && s[1..] == blanks[1..] + rest;
      BlankIsSpace(blanks[0]);
      SkipBlanks(blanks[1..], rest);
    }
  }

  lemma BlankIsSpace(c: char)
    ensures IsSpace(c) <==> c == ' ' || 9 <= c as int <= 13
  {
  }

  lemma {:induction false} LeadingReads(digits: string, tail: string)
    requires forall i :: 0 <= i < |digits| ==> '0' <= digits[i] <= '9'
    requires tail != [] ==> !('0' <= tail[0] <= '9')
    ensures Leading(digits + tail, 0) == Reading(digits, 10)
    decreases |digits|
  {
    if digits == [] {
      assert digits + tail == tail;
    } else {
      var low, last := digits[..|digits| - 1], digits[|digits| - 1];
      assert digits + tail == low + ([last] + tail);
      LeadingSplit(low, [last] + tail, 0);
      LeadingReads(low, []);
      assert low + [] == low && ([last] + tail)[1..] == tail;
    }
  }

  /** Digits in front make up the value that is there already. */
  lemma {:induction false} LeadingSplit(digits: string, rest: string, acc: nat)
    requires forall i :: 0 <= i < |digits| ==> '0' <= digits[i] <= '9'
    ensures Leading(digits + rest, acc) == Leading(rest, Leading(digits, acc))
  {
    var s := digits + rest;
    if digits == [] {
      assert s == rest;
    } else {
      assert s[0] == digits[0] && s[1..] == digits[1..] + rest;
      LeadingSplit(digits[1..], rest, 10 * acc + DigitValue(digits[0]));
    }
  }

  /** `atoi`: the integer the text begins with, in 32 bits. */
  method Atoi(s: string) returns (ret: int)
    ensures ret == Wrap(Parsed(s))
  {
    ret := 0;
    var sign, bEmpty, i := false, true, 0;
    hide Wrap, Leading;
    assert Wrap(0) == 0 by { WrapSmall(0); }
    while i < |s|
      invariant i <= |s| && bEmpty && SkipSpaces(s) == SkipSpaces(s[i..])
    {
      if !IsSpace(s[i]) {
        bEmpty := false;
        break;
      }
      assert s[i..][1..] == s[i + 1..];
      i := i + 1;
    }
    assert SkipSpaces(s) == s[i..];
    if bEmpty {
      return 0;
    }
    assert s[i..][1..] == s[i + 1..];
    if s[i] == '+' {
      i := i + 1;
    } else if s[i] == '-' {
      sign, i := true, i + 1;
    }
    ghost var value := Leading(s[i..], 0);
    ret := ReadNumber(s, i);
    WrapStep(value, 0);
    return if sign then Wrap(-ret) else ret;
  }

  /** The digit loop of `atoi`. */
  method ReadNumber(s: string, start: nat) returns (ret: int)
    requires start <= |s|
    ensures ret == Wrap(Leading(s[start..], 0))
  {
    var i := start;
    ret := 0;
    ghost var acc: nat := 0;
    WrapSmall(0);
    hide Wrap;
    while i < |s|
      invariant start <= i <= |s| && Leading(s[i..], acc) == Leading(s[start..], 0) && ret == Wrap(acc)
    {
      if !IsDigit(s[i]) {
        break;
      }
      assert s[i..][1..] == s[i + 1..];
      WrapStep(acc, DigitValue(s[i]));
      ret := Wrap(ret * 10);
      ret := Wrap(ret + DigitValue(s[i]));
      acc := 10 * acc + DigitValue(s[i]);
      i := i + 1;
    }
    assert Leading(s[i..], acc) == acc;
  }

  /** No value reached on the way exceeds the final one, so a value that fits is read without overflow. */
  lemma {:induction false} LeadingGrows(s: string, acc: nat)
    ensures acc <= Leading(s, acc)
    ensures s != "" && IsDigit(s[0]) ==> 10 * acc + DigitValue(s[0]) <= Leading(s, acc)
  {
    if s != "" && IsDigit(s[0]) {
      LeadingGrows(s[1..], 10 * acc + DigitValue(s[0]));
    }
  }

  lemma WrapSmall(x: int)
    requires -MAX32 - 1 <= x <= MAX32
    ensures Wrap(x) == x
  {
  }

  // ----- The printer -----

  /** The loop that makes the digits of n, lowest first. */
  method WriteDigits(tmp: array<char>, n: nat, base: nat, large: bool) returns (i: nat)
    requires 2 <= base <= 36 && n < WORD && tmp.Length == 129
    modifies tmp
    ensures i == |Digits(n, base)| <= 32
    ensures forall j :: 0 <= j < i ==> tmp[j] == DigitChar(Digits(n, base)[j], large)
  {
    hide Digits, Quotient, Remainder, DigitChar;
    ghost var ds := Digits(n, base);
    if n == 0 {
      DigitsOfZero(base, large);
      tmp[0] := '0';
      return 1;
    }
    WordDigitsFit(n, base);
    var rest: nat := n;
    DigitsStep(rest, base);
    tmp[0] := DigitChar(Remainder(rest, base), large);
    rest, i := Quotient(rest, base), 1;
    while rest != 0
      invariant 1 <= i <= |ds|
      invariant ds[i..] == if rest == 0 then [] else Digits(rest, base)
      invariant forall j :: 0 <= j < i ==> tmp[j] == DigitChar(ds[j], large)
      decreases rest
    {
      DigitsStep(rest, base);
      assert ds[i] == ds[i..][0] && ds[i + 1..] == ds[i..][1..];
      tmp[i] := DigitChar(Remainder(rest, base), large);
      rest, i := Quotient(rest, base), i + 1;
    }
  }

  lemma WordHas32Bits()
    ensures Power2(32) == WORD
  {
    assert Power2(8) == 256;
    assert Power2(16) == 65536;
    assert Power2(24) == 0x100_0000;
  }

  lemma DigitsOfZero(base: nat, large: bool)
    requires 2 <= base
    ensures Digits(0, base) == [0] && DigitChar(0, large) == '0'
  {
  }

  lemma WordDigitsFit(n: nat, base: nat)
    requires 2 <= base && n < WORD
    ensures |Digits(n, base)| <= 32
  {
    WordHas32Bits();
    hide Power2, Digits;
    DigitsFit(n, base, 32);
  }

  lemma DigitsStep(n: nat, base: nat)
    requires 2 <= base <= 36
    ensures Digits(n, base)[0] == Remainder(n, base)
    ensures Digits(n, base)[1..] == if Quotient(n, base) == 0 then [] else Digits(Quotient(n, base), base)
  {
    if n < base {
      SmallQuotient(n, base, Quotient(n, base), Remainder(n, base));
    }
    hide Quotient, Remainder;
  }

  lemma SmallQuotient(n: nat, base: nat, q: nat, r: nat)
    requires n < base && n == r + base * q
    ensures q == 0 && r == n
  {
    assert q >= 1 ==> base * q >= base;
  }

  /**
    `out` is to stand at `at`, where there are `bufsize` places.  It does when one place more than its
    length is there; otherwise a part of it does, and `full` says that nothing more is written.  The
    buffer outside these places is as it was.
   */
  ghost predicate Outcome(was: seq<char>, s: seq<char>, at: nat, bufsize: nat,
                          out: string, str: nat, rest: nat, full: bool)
  {
    && at + bufsize <= |s| == |was| && s[..at] == was[..at] && s[at + bufsize..] == was[at + bufsize..]
    && at <= str < at + bufsize && str - at <= |out|
    && s[at..str] == out[..str - at]
    && full == (|out| >= bufsize)
    && (!full ==> str - at == |out| && rest == bufsize - |out|)
  }

  /** Once the buffer is full the rest of the text changes nothing. */
  lemma StaysFull(was: seq<char>, s: seq<char>, at: nat, bufsize: nat, out: string, part: string, str: nat, rest: nat)
    requires Outcome(was, s, at, bufsize, out, str, rest, true)
    ensures Outcome(was, s, at, bufsize, out + part, str, rest, true)
  {
    assert (out + part)[..str - at] == out[..str - at];
  }

  /** A character more, or none when only one place is left. */
  method WriteChar(buf: array<char>, str: nat, rest: nat, full: bool, c: char,
                   ghost was: seq<char>, ghost at: nat, ghost bufsize: nat, ghost out: string)
    returns (end: nat, left: nat, stopped: bool)
    requires Outcome(was, buf[..], at, bufsize, out, str, rest, full)
    modifies buf
    ensures Outcome(was, buf[..], at, bufsize, out + [c], end, left, stopped)
  {
    if full {
      StaysFull(was, buf[..], at, bufsize, out, [c], str, rest);
      return str, rest, true;
    }
    if rest == 1 {
      return str, 0, true;
    }
    buf[str] := c;
    assert buf[at..str] == old(buf[at..str]);
    return str + 1, rest - 1, false;
  }

  /** The loops that write one character `n` times. */
  method Fill(buf: array<char>, str: nat, rest: nat, full: bool, c: char, n: int,
              ghost was: seq<char>, ghost at: nat, ghost bufsize: nat, ghost out: string)
    returns (end: nat, left: nat, stopped: bool)
    requires Outcome(was, buf[..], at, bufsize, out, str, rest, full)
    modifies buf
    ensures Outcome(was, buf[..], at, bufsize, out + Repeat(c, n), end, left, stopped)
  {
    end, left, stopped := str, rest, full;
    var k := 0;
    assert out + Repeat(c, 0) == out;
    hide Outcome;
    while k < n
      invariant 0 <= k && (k <= n || n <= 0 == k) && at + bufsize <= buf.Length
      invariant Outcome(was, buf[..], at, bufsize, out + Repeat(c, k), end, left, stopped)
    {
      end, left, stopped := WriteChar(buf, end, left, stopped, c, was, at, bufsize, out + Repeat(c, k));
      assert out + Repeat(c, k) + [c] == out + Repeat(c, k + 1);
      k := k + 1;
    }
  }

  lemma DigitTextReversed(ds: seq<nat>, large: bool)
    requires forall i :: 0 <= i < |ds| ==> ds[i] < 36
    ensures |DigitText(ds, large)| == |ds|
    ensures forall j :: 0 <= j < |ds| ==> DigitText(ds, large)[j] == DigitChar(ds[|ds| - 1 - j], large)
  {
  }

  lemma OneMore(out: string, text: string, n: nat)
    requires n < |text|
    ensures out + text[..n] + [text[n]] == out + text[..n + 1]
  {
  }

  /** The loop that copies the digits out of `tmp`, the highest first. */
  method CopyDigits(buf: array<char>, str: nat, rest: nat, full: bool, tmp: array<char>, count: nat, ghost text: string,
                    ghost was: seq<char>, ghost at: nat, ghost bufsize: nat, ghost out: string)
    returns (end: nat, left: nat, stopped: bool)
    requires Outcome(was, buf[..], at, bufsize, out, str, rest, full)
    requires count == |text| <= tmp.Length && buf != tmp
    requires forall j :: 0 <= j < count ==> tmp[j] == text[count - 1 - j]
    modifies buf
    ensures Outcome(was, buf[..], at, bufsize, out + text, end, left, stopped)
  {
    hide Outcome;
    end, left, stopped := str, rest, full;
    var i := count;
    ghost var soFar := out;
    assert soFar == out + text[..0];
    while i > 0
      invariant 0 <= i <= count && soFar == out + text[..count - i]
      invariant Outcome(was, buf[..], at, bufsize, soFar, end, left, stopped)
    {
      i := i - 1;
      OneMore(out, text, count - 1 - i);
      end, left, stopped := WriteChar(buf, end, left, stopped, tmp[i], was, at, bufsize, soFar);
      soFar := soFar + [text[count - 1 - i]];
    }
    assert text[..count] == text;
  }

  /** The prefix of octal and hexadecimal output; the latter needs both its characters to fit. */
  method WritePrefix(buf: array<char>, str: nat, rest: nat, full: bool, base: nat, flags: Flags,
                     ghost was: seq<char>, ghost at: nat, ghost bufsize: nat, ghost out: string)
    returns (end: nat, left: nat, stopped: bool)
    requires Outcome(was, buf[..], at, bufsize, out, str, rest, full)
    modifies buf
    ensures Outcome(was, buf[..], at, bufsize, out + PrefixText(base, flags), end, left, stopped)
  {
    end, left, stopped := str, rest, full;
    assert out + "" == out;
    if flags.special {
      if base == 8 {
        end, left, stopped := WriteChar(buf, str, rest, full, '0', was, at, bufsize, out);
      } else if base == 16 {
        if full {
          StaysFull(was, buf[..], at, bufsize, out, "0x", str, rest);
        } else if rest <= 2 {
          stopped := true;
          assert (out + "0x")[..str - at] == out[..str - at];
        } else {
          buf[str], buf[str + 1] := '0', DIGITS['X' as int - 'A' as int + 10];
          end, left := str + 2, rest - 2;
          assert buf[at..str] == old(buf[at..str]);
          assert buf[at..end] == out + "0x";
        }
      }
    }
  }

  /** The writing half of `number`; `pad` is what the width leaves over. */
  method WriteParts(buf: array<char>, at: nat, bufsize: nat, base: nat, flags: Flags, sign: char, pad: int,
                    tmp: array<char>, count: nat, precision: int, ghost digits: string)
    returns (str: nat, rest: nat)
    requires 1 <= bufsize && at + bufsize <= buf.Length && buf != tmp
    requires count == |digits| <= tmp.Length
    requires forall j :: 0 <= j < count ==> tmp[j] == digits[count - 1 - j]
    modifies buf
    ensures var out := Parts(Optional(sign), PrefixText(base, flags), digits, pad, precision, flags);
      Outcome(old(buf[..]), buf[..], at, bufsize, out, str, rest, |out| >= bufsize)
  {
    ghost var was := buf[..];
    str, rest := at, bufsize;
    var full, size := false, pad;
    ghost var out := Repeat(' ', if flags.left || flags.zeropad then 0 else pad);
    assert Outcome(was, buf[..], at, bufsize, "", str, rest, full);
    assert Repeat(' ', 0) == "" && "" + out == out;
    hide Outcome, Repeat, PrefixText;
    if !(flags.zeropad || flags.left) {
      str, rest, full := Fill(buf, str, rest, full, ' ', size, was, at, bufsize, "");
      size := AfterLoop(size);
    }
    if sign != '\0' {
      str, rest, full := WriteChar(buf, str, rest, full, sign, was, at, bufsize, out);
    }
    out := out + Optional(sign);
    str, rest, full := WritePrefix(buf, str, rest, full, base, flags, was, at, bufsize, out);
    out := out + PrefixText(base, flags);
    str, rest := WriteRest(buf, str, rest, full, flags, size, pad, tmp, count, precision, digits, was, at, bufsize, out);
  }

  /** What follows the prefix: zeros for the width, zeros for the precision, digits, spaces for the width. */
  method WriteRest(buf: array<char>, start: nat, left: nat, stopped: bool, flags: Flags, size0: int, ghost pad: int,
                   tmp: array<char>, count: nat, precision: int, ghost digits: string,
                   ghost was: seq<char>, ghost at: nat, ghost bufsize: nat, ghost before: string)
    returns (str: nat, rest: nat)
    requires Outcome(was, buf[..], at, bufsize, before, start, left, stopped) && buf != tmp
    requires count == |digits| <= tmp.Length
    requires forall j :: 0 <= j < count ==> tmp[j] == digits[count - 1 - j]
    requires size0 == if flags.zeropad || flags.left then pad else AfterLoop(pad)
    modifies buf
    ensures var out := before + Repeat('0', if flags.zeropad && !flags.left then pad else 0)
                       + Repeat('0', precision - |digits|) + digits
                       + Repeat(' ', if flags.left then pad else 0);
      Outcome(was, buf[..], at, bufsize, out, str, rest, |out| >= bufsize)
  {
    var full, size := stopped, size0;
    str, rest := start, left;
    ghost var out := before;
    var c := if flags.zeropad then '0' else ' ';
    assert before + Repeat('0', 0) == before;
    assert !flags.left ==> Repeat(c, size) == Repeat('0', if flags.zeropad then pad else 0);
    assert Repeat(' ', if flags.left then size else AfterLoop(size)) == Repeat(' ', if flags.left then pad else 0);
    hide Outcome, Repeat;
    if !flags.left {
      str, rest, full := Fill(buf, str, rest, full, c, size, was, at, bufsize, out);
      size := AfterLoop(size);
    }
    out := out + Repeat('0', if flags.zeropad && !flags.left then pad else 0);
    str, rest, full := Fill(buf, str, rest, full, '0', precision - count, was, at, bufsize, out);
    out := out + Repeat('0', precision - |digits|);
    str, rest, full := CopyDigits(buf, str, rest, full, tmp, count, digits, was, at, bufsize, out);
    out := out + digits;
    str, rest, full := Fill(buf, str, rest, full, ' ', size, was, at, bufsize, out);
    out := out + Repeat(' ', if flags.left then pad else 0);
    assert Outcome(was, buf[..], at, bufsize, out, str, rest, full);
  }

  function Optional(sign: char): string {
    if sign == '\0' then "" else [sign]
  }

  /** What `while (size-- > 0)` leaves in `size`. */
  function AfterLoop(size: int): int {
    if size > 0 then -1 else size - 1
  }

  /** The sign character, '\0' for none, the absolute value and what the width leaves for the rest. */
  method TakeSign(num: int, base: nat, size: int, flags: Flags) returns (sign: char, magnitude: nat, left: int)
    requires -MAX32 - 1 <= num <= MAX32 && (flags.sign ==> num != -MAX32 - 1)
    ensures Optional(sign) == SignText(num, flags)
    ensures magnitude == Magnitude(num, flags) < WORD
    ensures left == size - |SignText(num, flags)| - |PrefixText(base, flags)|
  {
    var n;
    sign, n, left := '\0', num, size;
    if flags.sign {
      if num < 0 {
        sign, n, left := '-', -num, left - 1;
      } else if flags.plus {
        sign, left := '+', left - 1;
      } else if flags.space {
        sign, left := ' ', left - 1;
      }
    }
    if flags.special {
      if base == 16 {
        left := left - 2;
      } else if base == 8 {
        left := left - 1;
      }
    }
    magnitude := if flags.sign then n else n % WORD;
  }

  /** The final precision: room for all digits at least. */
  ghost function Places(ds: seq<nat>, precision: int): int {
    if |ds| > precision then |ds| else precision
  }

  /** The middle of `number`: make the digits, settle the padding, and write. */
  method WriteMagnitude(buf: array<char>, at: nat, bufsize: nat, magnitude: nat, base: nat, flags: Flags, sign: char,
                        left: int, precision: int)
    returns (str: nat, rest: nat)
    requires 2 <= base <= 36 && magnitude < WORD
    requires 1 <= bufsize && at + bufsize <= buf.Length
    modifies buf
    ensures var ds := Digits(magnitude, base);
      var places := Places(ds, precision);
      var out := Parts(Optional(sign), PrefixText(base, flags), DigitText(ds, flags.large), left - places, places, flags);
      Outcome(old(buf[..]), buf[..], at, bufsize, out, str, rest, |out| >= bufsize)
  {
    hide Outcome, PrefixText, Digits, Repeat, DigitText, DigitChar, Optional, Parts;
    ghost var digits := DigitText(Digits(magnitude, base), flags.large);
    DigitTextReversed(Digits(magnitude, base), flags.large);
    var tmp := new char[129];
    var i := WriteDigits(tmp, magnitude, base, flags.large);
    var places := if i > precision then i else precision;
    str, rest :=
      WriteParts(buf, at, bufsize, base, flags, sign, left - places, tmp, i, places, digits);
  }

  /** A zero flag beside the left flag says nothing, and the plan computed is the output meant. */
  lemma SamePlan(num: int, base: nat, size: int, precision: int, flags: Flags, sign: char, left: int)
    requires 2 <= base <= 36 && Optional(sign) == SignText(num, flags)
    requires left == size - |SignText(num, flags)| - |PrefixText(base, flags)|
    ensures var ds := Digits(Magnitude(num, flags), base);
      var places := Places(ds, precision);
      var f := if flags.left then flags.(zeropad := false) else flags;
      Parts(Optional(sign), PrefixText(base, f), DigitText(ds, flags.large), left - places, places, f)
      == Output(num, base, size, precision, flags)
  {
    hide Digits, Magnitude, Repeat, DigitText, SignText;
  }

  /**
    `number`: the output for num, written behind place `at` of the buffer.  Null for a base that has no
    digits.
   */
  method Number(buf: array<char>, at: nat, bufsize: nat, num: int, base: int, size: int, precision: int, flags: Flags)
    returns (str: Pointer, rest: nat)
    requires -MAX32 - 1 <= num <= MAX32 && (flags.sign ==> num != -MAX32 - 1)
    requires 1 <= bufsize && at + bufsize <= buf.Length
    modifies buf
    ensures str == Null <==> !(2 <= base <= 36)
    ensures str == Null ==> rest == bufsize && unchanged(buf)
    ensures str != Null ==> var out := Output(num, base, size, precision, flags);
              Outcome(old(buf[..]), buf[..], at, bufsize, out, str.place, rest, |out| >= bufsize)
  {
    if base < 2 || base > 36 {
      return Null, bufsize;
    }
    hide Outcome, Output;
    var place;
    place, rest := WriteNumber(buf, at, bufsize, num, base, size, precision, flags);
    str := To(place);
  }

  /** `number` for a base that has digits. */
  method WriteNumber(buf: array<char>, at: nat, bufsize: nat, num: int, base: nat, size: int, precision: int, flags: Flags)
    returns (str: nat, rest: nat)
    requires -MAX32 - 1 <= num <= MAX32 && (flags.sign ==> num != -MAX32 - 1) && 2 <= base <= 36
    requires 1 <= bufsize && at + bufsize <= buf.Length
    modifies buf
    ensures var out := Output(num, base, size, precision, flags);
      Outcome(old(buf[..]), buf[..], at, bufsize, out, str, rest, |out| >= bufsize)
  {
    var f := if flags.left then flags.(zeropad := false) else flags;
    hide Outcome, SignText, PrefixText, Digits, Repeat, DigitText, DigitChar, Magnitude, Optional;
    var sign, magnitude, pad := TakeSign(num, base, size, flags);
    SamePlan(num, base, size, precision, flags, sign, pad);
    hide Output, Parts, Places;
    str, rest := WriteMagnitude(buf, at, bufsize, magnitude, base, f, sign, pad, precision);
  }

  /** `atoi` of what `number` wrote in signed decimal is the number, if the buffer is longer than the output. */
  method PrintAndRead(buf: array<char>, num: int, size: int, precision: int, flags: Flags) returns (ret: int)
    requires -MAX32 <= num <= MAX32 && flags.sign
    requires |Output(num, 10, size, precision, flags)| < buf.Length
    modifies buf
    ensures ret == num
  {
    var str, _ := Number(buf, 0, buf.Length, num, 10, size, precision, flags);
    assert buf[..str.place] == buf[0..str.place] == Output(num, 10, size, precision, flags);
    PrintThenRead(num, size, precision, flags);
    WrapSmall(num);
    hide Output, Wrap;
    ret := Atoi(buf[..str.place]);
  }
}
