/** Numbers written out and read back with strtol: white space, a sign, a prefix and the digits of
    any base, followed by anything that is not one of them. */
module Numerals {
  import opened Strtol

  const LOWER := "0123456789abcdefghijklmnopqrstuvwxyz"
  const UPPER := "0123456789ABCDEFGHIJKLMNOPQRSTUVWXYZ"

  /** The character for a digit. */
  function Char(d: nat, upper: bool): (c: int)
    requires d < 36
  {
    (if upper then UPPER[d] else LOWER[d]) as int
  }

  /** Digits of a base, most significant first. */
  predicate Digits(ds: seq<nat>, base: nat) {
    base <= 36 && forall k :: 0 <= k < |ds| ==> ds[k] < base
  }

  function Spelled(ds: seq<nat>, upper: bool): (s: Text)
    requires Digits(ds, 36)
    ensures |s| == |ds| && forall k :: 0 <= k < |ds| ==> s[k] == Char(ds[k], upper)
  {
    seq(|ds|, k requires 0 <= k < |ds| => Char(ds[k], upper))
  }

  /** The number they stand for. */
  function Number(ds: seq<nat>, base: nat): nat {
    if ds == [] then 0 else Number(ds[..|ds| - 1], base) * base + ds[|ds| - 1]
  }

  // ------------------------------------------------------------- one character

  /** Each character is worth its place in the row. */
  lemma Worth(d: nat, upper: bool)
    requires d < 36
    ensures DigitValue(Char(d, upper)) == d
    ensures !IsSpace(Char(d, upper)) && Char(d, upper) != '-' as int && Char(d, upper) != '+' as int
    ensures Char(d, upper) == '0' as int <==> d == 0
    ensures Char(d, upper) == 'x' as int || Char(d, upper) == 'X' as int ==> d == 33
  {
    if d < 10 {
      FirstTen(d);
    } else {
      Letters(d);
    }
  }

  lemma FirstTen(d: nat)
    requires d < 10
    ensures LOWER[d] as int == UPPER[d] as int == 48 + d
  {
  }

  lemma Letters(d: nat)
    requires 10 <= d < 36
    ensures UPPER[d] as int == 55 + d && LOWER[d] as int == 87 + d
  {
  }

  // ---------------------------------------------------------------- one number

  /** The digits stand at place i of s. */
  predicate Stands(s: Text, i: nat, ds: seq<nat>, upper: bool)
    requires Digits(ds, 36)
  {
    i + |ds| <= |s| && forall k :: 0 <= k < |ds| ==> s[i + k] == Char(ds[k], upper)
  }

  lemma {:induction false} StandsFor(s: Text, i: nat, ds: seq<nat>, base: nat, upper: bool)
    requires Digits(ds, base) && Stands(s, i, ds, upper)
    ensures ValueOf(s, i, |ds|, base) == Number(ds, base)
  {
    hide DigitValue, Char;
    if ds == [] {
    } else {
      StandsFor(s, i, ds[..|ds| - 1], base, upper);
      Worth(ds[|ds| - 1], upper);
    }
  }

  lemma StandsAsRun(s: Text, i: nat, ds: seq<nat>, base: nat, upper: bool)
    requires Digits(ds, base) && Stands(s, i, ds, upper) && DigitValue(At(s, i + |ds|)) >= base
    ensures RunLength(s, i, base) == |ds|
  {
    hide DigitValue, Char;
    forall k | i <= k < i + |ds|
      ensures DigitValue(s[k]) < base
    {
      Worth(ds[k - i], upper);
      assert s[i + (k - i)] == s[k];
    }
    RunIs(s, i, |ds|, base);
  }

  lemma Divided(v: nat, base: nat)
    requires v >= base >= 2
    ensures 0 < v / base < v && 0 <= v % base < base && v / base * base + v % base == v
  {
    var q := v / base;
    assert v == q * base + v % base;
    assert q * base >= q * 2;
  }

  /** The digits of a number. */
  function DigitsOf(v: nat, base: nat): (ds: seq<nat>)
    requires 2 <= base <= 36
    ensures ds != []
    decreases v
  {
    if v < base then [v]
    else
      Divided(v, base);
      DigitsOf(v / base, base) + [v % base]
  }

  lemma {:induction false} DigitsOfNumber(v: nat, base: nat)
    requires 2 <= base <= 36
    ensures var ds := DigitsOf(v, base);
            Digits(ds, base) && Number(ds, base) == v && (ds[0] == 0 ==> v == 0)
    decreases v
  {
    var ds := DigitsOf(v, base);
    if v < base {
      assert ds[..0] == [];
    } else {
      Divided(v, base);
      DigitsOfNumber(v / base, base);
      assert ds[..|ds| - 1] == DigitsOf(v / base, base);
    }
  }

  /** What ends a number: the end of the text, a character that is no digit in any base, or a digit
      of a larger base. */
  predicate Ends(tail: Text, base: nat) {
    tail == [] ||
    (forall d :: 0 <= d < base && d < 36 ==> tail[0] != Char(d, false) && tail[0] != Char(d, true))
  }

  lemma NoDigit(tail: Text, base: nat)
    requires base <= 36 && Ends(tail, base)
    ensures DigitValue(At(tail, 0)) >= base
  {
    var c := At(tail, 0);
    if DigitValue(c) < 36 {
      Spells(c);
    }
  }

  /** A digit or letter is one of the characters for its value. */
  lemma Spells(c: int)
    requires DigitValue(c) < 36
    ensures c == Char(DigitValue(c), false) || c == Char(DigitValue(c), true)
  {
    var d := DigitValue(c);
    if d < 10 {
      FirstTen(d);
    } else {
      Letters(d);
    }
  }

  lemma {:induction false} RunIs(s: Text, i: nat, n: nat, base: nat)
    requires base <= 36 && i + n <= |s| && DigitValue(At(s, i + n)) >= base
    requires forall k :: i <= k < i + n ==> DigitValue(s[k]) < base
    ensures RunLength(s, i, base) == n
    decreases n
  {
    hide DigitValue;
    if n == 0 {
    } else {
      RunIs(s, i + 1, n - 1, base);
    }
  }

  // ---------------------------------------------------------------- whole texts

  datatype Sign = Bare | Plus | Minus

  function SignText(sign: Sign): Text {
    match sign
    case Bare => []
    case Plus => ['+' as int]
    case Minus => ['-' as int]
  }

  /** How the base is made known: by the caller, or by a prefix. */
  datatype Notation = Given(b: nat) | Hexadecimal(announced: bool, bigX: bool) | Octal | Decimal

  predicate Possible(form: Notation, ds: seq<nat>) {
    ds != [] && Digits(ds, BaseOf(form)) && (form.Given? ==> form.b >= 2) && (form.Decimal? ==> ds[0] != 0)
  }

  /** The base handed to strtol. */
  function Argument(form: Notation): int {
    match form
    case Given(b) => b
    case Hexadecimal(announced, _) => if announced then 16 else 0
    case _ => 0
  }

  function BaseOf(form: Notation): nat {
    match form
    case Given(b) => b
    case Hexadecimal(_, _) => 16
    case Octal => 8
    case Decimal => 10
  }

  function Prefix(form: Notation): Text {
    match form
    case Hexadecimal(_, bigX) => ['0' as int, (if bigX then 'X' else 'x') as int]
    case Octal => ['0' as int]
    case _ => []
  }

  predicate AllSpace(pad: Text) {
    forall i :: 0 <= i < |pad| ==>
      pad[i] == ' ' as int || pad[i] == '\t' as int || pad[i] == '\n' as int || pad[i] == 11 || pad[i] == 12 ||
      pad[i] == '\r' as int
  }

  /** White space, sign, prefix, digits and whatever follows. */
  function Written(pad: Text, sign: Sign, form: Notation, ds: seq<nat>, upper: bool, tail: Text): Text
    requires Digits(ds, 36)
  {
    pad + SignText(sign) + Prefix(form) + Spelled(ds, upper) + tail
  }

  /** The tail does not run on: a lone zero is not followed by an x where that would be a prefix. */
  predicate Separate(form: Notation, ds: seq<nat>, tail: Text) {
    Ends(tail, BaseOf(form)) &&
    (ds == [0] && form == Given(16) && tail != [] ==> tail[0] != 'x' as int && tail[0] != 'X' as int)
  }

  lemma {:induction false} SkipsPad(s: Text, i: nat, n: nat)
    requires i <= n < |s| && !IsSpace(s[n]) && AllSpace(s[..n])
    ensures AfterSpace(s, i) == n
    decreases n - i
  {
    if i == n {
    } else {
      assert s[..n][i] == s[i];
      SkipsPad(s, i + 1, n);
    }
  }

  /** Head of a text: where the digits begin, and in which base. */
  lemma WrittenHead(pad: Text, sign: Sign, form: Notation, ds: seq<nat>, upper: bool, tail: Text)
    requires AllSpace(pad) && Possible(form, ds) && Separate(form, ds, tail)
    ensures var s := Written(pad, sign, form, ds, upper, tail);
            var n := |pad| + |SignText(sign)|;
            HeadOf(s, Argument(form)) ==
            Head(sign.Minus?, BaseOf(form), if form.Hexadecimal? then n + 2 else n)
  {
    hide AfterSpace, AfterSign, At, Spelled, Separate, HeadOf, Digits;
    StillDigits(form, ds);
    var s, before := Written(pad, sign, form, ds, upper, tail), pad + SignText(sign);
    SignFound(pad, sign, form, ds, upper, tail);
    var rest := Prefix(form) + Spelled(ds, upper) + tail;
    assert s == before + rest;
    AtRest(before, rest, 0);
    AtRest(before, rest, 1);
    SecondCharacter(form, ds, upper, tail);
    HeadIs(s, Argument(form), |before|, sign.Minus?, At(rest, 0), At(rest, 1));
  }

  lemma HeadIs(s: Text, arg: int, n: nat, neg: bool, first: int, second: int)
    requires arg == 0 || 2 <= arg <= 36
    requires AfterSign(s) == n && (At(s, AfterSpace(s, 0)) == '-' as int <==> neg)
    requires At(s, n) == first && At(s, n + 1) == second
    ensures HeadOf(s, arg) ==
            if (arg == 0 || arg == 16) && first == '0' as int && (second == 'x' as int || second == 'X' as int)
            then Head(neg, 16, n + 2)
            else Head(neg, if arg == 0 then if first == '0' as int then 8 else 10 else arg, n)
  {
    hide AfterSign, AfterSpace, At;
  }

  lemma AtRest(before: Text, rest: Text, k: nat)
    ensures At(before + rest, |before| + k) == At(rest, k)
  {
  }

  lemma SignFound(pad: Text, sign: Sign, form: Notation, ds: seq<nat>, upper: bool, tail: Text)
    requires AllSpace(pad) && Possible(form, ds)
    ensures var s := Written(pad, sign, form, ds, upper, tail);
            AfterSpace(s, 0) == |pad| && AfterSign(s) == |pad| + |SignText(sign)| &&
            (At(s, |pad|) == '-' as int <==> sign.Minus?)
  {
    hide AfterSpace, DigitValue, Char;
    var s := Written(pad, sign, form, ds, upper, tail);
    assert s[..|pad|] == pad;
    Worth(ds[0], upper);
    assert !IsSpace(s[|pad|]);
    SkipsPad(s, 0, |pad|);
  }

  /** What stands behind the first character decides on a prefix. */
  lemma SecondCharacter(form: Notation, ds: seq<nat>, upper: bool, tail: Text)
    requires Possible(form, ds) && Separate(form, ds, tail)
    ensures var rest := Prefix(form) + Spelled(ds, upper) + tail;
            var hex := At(rest, 0) == '0' as int && (At(rest, 1) == 'x' as int || At(rest, 1) == 'X' as int);
            (form.Hexadecimal? <==> (Argument(form) == 0 || Argument(form) == 16) && hex) &&
            (form.Octal? ==> At(rest, 0) == '0' as int) && (form.Decimal? ==> At(rest, 0) != '0' as int)
  {
    hide DigitValue, Char;
    Worth(ds[0], upper);
    if |ds| > 1 {
      Worth(ds[1], upper);
    }
  }

  // ---------------------------------------------------------------- reading back

  /** All digits that are read: in octal notation the zero in front is one of them. */
  function Read(form: Notation, ds: seq<nat>): seq<nat> {
    if form.Octal? then [0] + ds else ds
  }

  lemma {:induction false} ZeroInFront(ds: seq<nat>, base: nat)
    ensures Number([0] + ds, base) == Number(ds, base)
  {
    if ds == [] {
      assert [0][..0] == [];
      assert [0] + ds == [0];
    } else {
      ZeroInFront(ds[..|ds| - 1], base);
      assert ([0] + ds)[..|ds|] == [0] + ds[..|ds| - 1];
    }
  }

  /** In a text that is written so, strtol finds exactly these digits. */
  lemma WrittenRun(pad: Text, sign: Sign, form: Notation, ds: seq<nat>, upper: bool, tail: Text)
    requires AllSpace(pad) && Possible(form, ds) && Separate(form, ds, tail)
    ensures var s := Written(pad, sign, form, ds, upper, tail);
            var h := HeadOf(s, Argument(form));
            var n := RunLength(s, h.start, h.base);
            h.neg == sign.Minus? && n > 0 && h.start + n == |s| - |tail| &&
            ValueOf(s, h.start, n, h.base) == Number(ds, BaseOf(form))
  {
    hide HeadOf, RunLength, ValueOf, Number, DigitValue, Separate, Written, Stands, At, Char, Prefix, SignText;
    var s, base := Written(pad, sign, form, ds, upper, tail), BaseOf(form);
    var i := HeadOf(s, Argument(form)).start;
    WrittenHead(pad, sign, form, ds, upper, tail);
    var all := Read(form, ds);
    WrittenStands(pad, sign, form, ds, upper, tail);
    assert Ends(tail, base) by { TailEnds(form, ds, tail); }
    NoDigit(tail, base);
    StandsAsRun(s, i, all, base, upper);
    StandsFor(s, i, all, base, upper);
    ZeroInFront(ds, base);
  }

  lemma TailEnds(form: Notation, ds: seq<nat>, tail: Text)
    requires Separate(form, ds, tail)
    ensures Ends(tail, BaseOf(form))
  {
  }

  /** Where they stand. */
  lemma WrittenStands(pad: Text, sign: Sign, form: Notation, ds: seq<nat>, upper: bool, tail: Text)
    requires Possible(form, ds)
    ensures var s, all := Written(pad, sign, form, ds, upper, tail), Read(form, ds);
            var i := |pad| + |SignText(sign)| + (if form.Hexadecimal? then 2 else 0);
            Digits(all, BaseOf(form)) && Stands(s, i, all, upper) && i + |all| == |s| - |tail| &&
            At(s, i + |all|) == At(tail, 0)
  {
    hide Char, At, Stands, Spelled, Digits;
    var before, all := pad + SignText(sign) + (if form.Hexadecimal? then Prefix(form) else []), Read(form, ds);
    StillDigits(form, ds);
    SpelledAll(form, ds, upper);
    StandsIn(before, all, upper, tail);
    var t := Spelled(ds, upper);
    if form.Octal? {
      assert before + (Prefix(form) + t) + tail == pad + SignText(sign) + Prefix(form) + t + tail;
    } else if form.Hexadecimal? {
    } else {
      assert pad + SignText(sign) + [] == pad + SignText(sign);
    }
  }

  lemma StillDigits(form: Notation, ds: seq<nat>)
    requires Possible(form, ds)
    ensures Digits(Read(form, ds), BaseOf(form)) && Digits(Read(form, ds), 36) && Digits(ds, 36)
  {
  }

  lemma SpelledAll(form: Notation, ds: seq<nat>, upper: bool)
    requires Possible(form, ds)
    ensures Digits(Read(form, ds), 36)
    ensures Spelled(Read(form, ds), upper) ==
            if form.Octal? then Prefix(form) + Spelled(ds, upper) else Spelled(ds, upper)
  {
    hide Char;
    Worth(0, upper);
  }

  lemma StandsIn(before: Text, all: seq<nat>, upper: bool, tail: Text)
    requires Digits(all, 36)
    ensures var s := before + Spelled(all, upper) + tail;
            Stands(s, |before|, all, upper) && |before| + |all| == |s| - |tail| &&
            At(s, |before| + |all|) == At(tail, 0)
  {
    hide Char;
  }

  /** Reading back what is written: the number, if it is in the range of a long, and otherwise the
      end of the range it is beyond, with an error; the end is where the digits end. */
  method ReadBack(pad: Text, sign: Sign, form: Notation, ds: seq<nat>, upper: bool, tail: Text, rounding: Rounding)
    returns (value: int, error: Error, end: nat)
    requires AllSpace(pad) && Possible(form, ds) && Separate(form, ds, tail)
    ensures var v := Number(ds, BaseOf(form));
            if sign.Minus? then
              if v <= 0x8000_0000_0000_0000 then value == 0 - v && error == NoError
              else value == -0x8000_0000_0000_0000 && error == OutOfRange
            else
              if v <= 0x7FFF_FFFF_FFFF_FFFF then value == v && error == NoError
              else value == 0x7FFF_FFFF_FFFF_FFFF && error == OutOfRange
    ensures end == |pad| + |SignText(sign)| + |Prefix(form)| + |ds|
  {
    hide HeadOf, RunLength, ValueOf, Number;
    WrittenRun(pad, sign, form, ds, upper, tail);
    value, error, end := Convert(Written(pad, sign, form, ds, upper, tail), Argument(form), rounding);
  }

  /** In particular every number in every base, in either case, with or without a minus sign. */
  method ReadBackNumber(v: nat, base: nat, neg: bool, upper: bool, rounding: Rounding)
    returns (value: int, error: Error, end: nat)
    requires 2 <= base <= 36
    requires v <= 0x7FFF_FFFF_FFFF_FFFF || (neg && v == 0x8000_0000_0000_0000)
    ensures value == (if neg then 0 - v else v) && error == NoError
    ensures end == |DigitsOf(v, base)| + (if neg then 1 else 0)
  {
    hide Number, DigitsOf;
    DigitsOfNumber(v, base);
    var sign := if neg then Minus else Bare;
    value, error, end := ReadBack([], sign, Given(base), DigitsOf(v, base), upper, [], rounding);
  }
}
