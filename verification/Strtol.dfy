/** strtol (src/libc/stdlib/strtol.c) for 64-bit longs. */
module Strtol {

  const LONG_MAX: int := 0x7FFF_FFFF_FFFF_FFFF
  const LONG_MIN: int := -0x8000_0000_0000_0000

  type Text = seq<int>

  /** Character i of a text, with the terminating zero. */
  function At(s: Text, i: nat): int {
    if i < |s| then s[i] else 0
  }

  predicate IsSpace(c: int) { c == 32 || 9 <= c <= 13 }
  predicate IsDigit(c: int) { 48 <= c <= 57 }
  predicate IsUpper(c: int) { 65 <= c <= 90 }
  predicate IsAlpha(c: int) { IsUpper(c) || 97 <= c <= 122 }

  /** Value of a digit or letter; other characters are above every base. */
  function DigitValue(c: int): (d: nat) {
    if IsDigit(c) then c - 48 else if IsUpper(c) then c - 55 else if IsAlpha(c) then c - 87 else 36
  }

  // ------------------------------------------------------------ specification

  function AfterSpace(s: Text, i: nat): (j: nat)
    requires i <= |s|
    ensures i <= j <= |s|
    decreases |s| - i
  {
    if i < |s| && IsSpace(s[i]) then AfterSpace(s, i + 1) else i
  }

  /** Sign, base and the place where the digits begin. */
  datatype Head = Head(neg: bool, base: nat, start: nat)

  function AfterSign(s: Text): (i: nat)
    ensures i <= |s|
  {
    var i := AfterSpace(s, 0);
    if At(s, i) == '-' as int || At(s, i) == '+' as int then i + 1 else i
  }

  predicate HexPrefix(s: Text, base: int) {
    var i := AfterSign(s);
    (base == 0 || base == 16) && At(s, i) == '0' as int && (At(s, i + 1) == 'x' as int || At(s, i + 1) == 'X' as int)
  }

  function HeadOf(s: Text, base: int): (h: Head)
    requires base == 0 || 2 <= base <= 36
    ensures 2 <= h.base <= 36 && h.start <= |s|
  {
    var i := AfterSign(s);
    var neg := At(s, AfterSpace(s, 0)) == '-' as int;
    if HexPrefix(s, base) then Head(neg, 16, i + 2)
    else if base == 0 then Head(neg, if At(s, i) == '0' as int then 8 else 10, i)
    else Head(neg, base, i)
  }

  /** Length of the longest run of digits of the base. */
  function RunLength(s: Text, i: nat, base: nat): (n: nat)
    requires i <= |s| && base <= 36
    ensures i + n <= |s|
    ensures forall k :: i <= k < i + n ==> DigitValue(s[k]) < base
    ensures DigitValue(At(s, i + n)) >= base
    decreases |s| - i
  {
    if i < |s| && DigitValue(s[i]) < base then 1 + RunLength(s, i + 1, base) else 0
  }

  /** The number written by n digits. */
  function ValueOf(s: Text, i: nat, n: nat, base: nat): (v: nat)
    requires i + n <= |s|
  {
    if n == 0 then 0 else ValueOf(s, i, n - 1, base) * base + DigitValue(s[i + n - 1])
  }

  /** The largest magnitude of a sign. */
  function Limit(neg: bool): nat {
    if neg then -LONG_MIN else LONG_MAX
  }

  function Signed(neg: bool, v: nat): int {
    if neg then 0 - v else v
  }

  function Clamped(neg: bool, v: nat): int {
    Signed(neg, if v > Limit(neg) then Limit(neg) else v)
  }

  // ------------------------------------------------------------------ cutoff

  /** Division may round towards zero or down. */
  datatype Rounding = TowardsZero | Down

  function Quotient(r: Rounding, a: int, b: nat): int
    requires b > 0
  {
    if a >= 0 || r == Down then a / b else -(-a / b)
  }

  function Remainder(r: Rounding, a: int, b: nat): int
    requires b > 0
  {
    if a >= 0 || r == Down then a % b else -(-a % b)
  }

  /** Largest magnitude divided by the base, and the rest, whichever way division rounds. */
  method Cutoff(neg: bool, base: nat, r: Rounding) returns (cutoff: int, cutlim: int)
    requires 2 <= base <= 36
    ensures cutoff == Signed(neg, Limit(neg) / base) && cutlim == Limit(neg) % base
    ensures LONG_MIN <= cutoff <= LONG_MAX
  {
    cutoff := if neg then LONG_MIN else LONG_MAX;
    cutlim := Remainder(r, cutoff, base);
    cutoff := Quotient(r, cutoff, base);
    if neg {
      if cutlim > 0 {
        DownIsUp(-LONG_MIN, base);
        cutlim := cutlim - base;
        cutoff := cutoff + 1;
      } else if r == Down {
        ExactDown(-LONG_MIN, base);
      }
      cutlim := -cutlim;
    }
  }

  lemma DownIsUp(m: int, b: int)
    requires m >= 0 && b > 0 && (-m) % b > 0
    ensures (-m) / b + 1 == -(m / b) && b - (-m) % b == m % b
  {
    var q, r := (-m) / b, (-m) % b;
    assert -m == q * b + r;
    assert m == (-q - 1) * b + (b - r);
    DivisionIs(m, b, -q - 1, b - r);
  }

  lemma ExactDown(m: int, b: int)
    requires m >= 0 && b > 0 && (-m) % b == 0
    ensures (-m) / b == -(m / b) && m % b == 0
  {
    var q := (-m) / b;
    assert m == (-q) * b;
    DivisionIs(m, b, -q, 0);
  }

  lemma DivisionIs(m: int, b: int, q: int, r: int)
    requires b > 0 && m == q * b + r && 0 <= r < b
    ensures m / b == q && m % b == r
  {
    var d := m / b - q;
    assert m == (m / b) * b + m % b;
    assert d * b == r - m % b;
    assert d > 0 ==> d * b >= b;
    assert d < 0 ==> d * b <= -b;
  }

  /** The cutoff comparison says exactly whether one more digit goes beyond the limit. */
  lemma CutoffIsExact(v: nat, d: nat, m: nat, base: nat)
    requires base > 0 && d < base
    ensures v > m / base || (v == m / base && d > m % base) <==> v * base + d > m
  {
    var q, r := m / base, m % base;
    assert m == q * base + r;
    if v > q {
      assert v * base >= (q + 1) * base;
    } else if v < q {
      assert v * base <= (q - 1) * base;
    }
  }

  // -------------------------------------------------------------- conversion

  datatype Error = NoError | InvalidBase | OutOfRange

  method SkipSpace(s: Text) returns (i: nat)
    ensures i == AfterSpace(s, 0)
  {
    i := 0;
    while i < |s| && IsSpace(At(s, i))
      invariant i <= |s| && AfterSpace(s, i) == AfterSpace(s, 0)
    {
      i := i + 1;
    }
  }

  /** One more digit c behind the number v. */
  method OneDigit(h: Head, cutoff: int, cutlim: int, before: int, flag: int, c: nat, ghost v: nat)
    returns (acc: int, any: int)
    requires 2 <= h.base <= 36 && c < h.base
    requires cutoff == Signed(h.neg, Limit(h.neg) / h.base) && cutlim == Limit(h.neg) % h.base
    requires before == Clamped(h.neg, v) && (flag < 0 <==> v > Limit(h.neg))
    ensures acc == Clamped(h.neg, v * h.base + c) && any != 0 && (any < 0 <==> v * h.base + c > Limit(h.neg))
  {
    acc, any := before, flag;
    if any < 0 {
      StillBeyond(v, c, Limit(h.neg), h.base);
      return;
    }
    CutoffIsExact(v, c, Limit(h.neg), h.base);
    ghost var next := v * h.base + c;
    if h.neg {
      if acc < cutoff || (acc == cutoff && c > cutlim) {
        any, acc := -1, LONG_MIN;
      } else {
        any := 1;
        acc := acc * h.base;
        assert acc == 0 - v * h.base && LONG_MIN <= acc <= 0 by { Negated(v, h.base); }
        acc := acc - c;
      }
    } else {
      if acc > cutoff || (acc == cutoff && c > cutlim) {
        any, acc := -1, LONG_MAX;
      } else {
        any := 1;
        acc := acc * h.base;
        assert acc <= LONG_MAX;
        acc := acc + c;
      }
    }
  }

  lemma Negated(v: int, b: int)
    ensures (0 - v) * b == 0 - v * b
  {
  }

  lemma ValueNext(s: Text, i: nat, n: nat, base: nat)
    requires i + n < |s|
    ensures ValueOf(s, i, n + 1, base) == ValueOf(s, i, n, base) * base + DigitValue(s[i + n])
  {
  }

  /** Consumes the digits: the value, clamped at the limit, and where the digits end. */
  method Accumulate(s: Text, h: Head, cutoff: int, cutlim: int) returns (acc: int, any: int, i: nat)
    requires 2 <= h.base <= 36 && h.start <= |s|
    requires cutoff == Signed(h.neg, Limit(h.neg) / h.base) && cutlim == Limit(h.neg) % h.base
    ensures var n := RunLength(s, h.start, h.base);
            var v := ValueOf(s, h.start, n, h.base);
            i == h.start + n && acc == Clamped(h.neg, v) && (any == 0 <==> n == 0) && (any < 0 <==> v > Limit(h.neg))
  {
    hide RunLength, ValueOf, DigitValue, Clamped, Limit;
    acc, any, i := 0, 0, h.start;
    ghost var n := RunLength(s, h.start, h.base);
    NothingYet(s, h);
    while DigitValue(At(s, i)) < h.base
      invariant h.start <= i <= h.start + n
      invariant var v := ValueOf(s, h.start, i - h.start, h.base);
                acc == Clamped(h.neg, v) && (any == 0 <==> i == h.start) && (any < 0 <==> v > Limit(h.neg))
      decreases |s| - i
    {
      ValueNext(s, h.start, i - h.start, h.base);
      acc, any := OneDigit(h, cutoff, cutlim, acc, any, DigitValue(s[i]), ValueOf(s, h.start, i - h.start, h.base));
      i := i + 1;
    }
  }

  lemma NothingYet(s: Text, h: Head)
    requires h.start <= |s|
    ensures ValueOf(s, h.start, 0, h.base) == 0 && Clamped(h.neg, 0) == 0 && Limit(h.neg) >= 0
  {
  }

  lemma StillBeyond(v: nat, d: nat, m: nat, base: nat)
    requires v > m && base > 0
    ensures v * base + d > m
  {
    assert v * base >= v;
  }

  method ParseHead(s: Text, base: int) returns (h: Head)
    requires base == 0 || 2 <= base <= 36
    ensures h == HeadOf(s, base)
  {
    hide AfterSpace;
    var i := SkipSpace(s);
    var neg, b := false, base;
    if At(s, i) == '-' as int {
      neg, i := true, i + 1;
    } else if At(s, i) == '+' as int {
      i := i + 1;
    }
    if (b == 0 || b == 16) && At(s, i) == '0' as int && (At(s, i + 1) == 'x' as int || At(s, i + 1) == 'X' as int) {
      b, i := 16, i + 2;
    }
    if b == 0 {
      b := if At(s, i) == '0' as int then 8 else 10;
    }
    h := Head(neg, b, i);
  }

  /** The value of the longest run of digits after white space, sign and base prefix, clamped to
      the range of a long; an error is reported exactly when it was clamped, or the base is
      wrong; without digits the end is the beginning. */
  method Convert(s: Text, base: int, rounding: Rounding) returns (value: int, error: Error, end: nat)
    ensures base != 0 && (base < 2 || base > 36) ==> value == 0 && error == InvalidBase && end == 0
    ensures base == 0 || 2 <= base <= 36 ==>
      var h := HeadOf(s, base);
      var n := RunLength(s, h.start, h.base);
      var v := ValueOf(s, h.start, n, h.base);
      value == Clamped(h.neg, v) && end == (if n == 0 then 0 else h.start + n) &&
      error == if v > Limit(h.neg) then OutOfRange else NoError
    ensures LONG_MIN <= value <= LONG_MAX && end <= |s|
  {
    if base != 0 && (base < 2 || base > 36) {
      return 0, InvalidBase, 0;
    }
    hide RunLength, ValueOf, HeadOf, Limit;
    var h := ParseHead(s, base);
    var cutoff, cutlim := Cutoff(h.neg, h.base, rounding);
    var any;
    value, any, end := Accumulate(s, h, cutoff, cutlim);
    error := if any < 0 then OutOfRange else NoError;
    if any == 0 {
      end := 0;
    }
  }

  // ------------------------------------------------------- the standard's end

  /** Where the subject sequence of section 7.22.1.4 of ISO C11 ends: a 0x that no digit follows
      is the number 0 followed by something else. */
  function StandardEnd(s: Text, base: int): nat
    requires base == 0 || 2 <= base <= 36
  {
    var h := HeadOf(s, base);
    var n := RunLength(s, h.start, h.base);
    if n > 0 then h.start + n else if HexPrefix(s, base) then h.start - 1 else 0
  }

  function CodeEnd(s: Text, base: int): nat
    requires base == 0 || 2 <= base <= 36
  {
    var h := HeadOf(s, base);
    var n := RunLength(s, h.start, h.base);
    if n == 0 then 0 else h.start + n
  }

  /** The code agrees with the standard exactly if no 0x stands without a digit behind it. */
  lemma EndsAgreeExactly(s: Text, base: int)
    requires base == 0 || 2 <= base <= 36
    ensures CodeEnd(s, base) == StandardEnd(s, base) <==>
            !(HexPrefix(s, base) && DigitValue(At(s, AfterSign(s) + 2)) >= 16)
  {
  }

  /** For example the text "0x". */
  lemma BareHexPrefix()
    ensures CodeEnd([48, 120], 16) == 0 && StandardEnd([48, 120], 16) == 1
  {
    var s := [48, 120];
    assert AfterSpace(s, 0) == 0;
    assert HeadOf(s, 16) == Head(false, 16, 2);
  }
}
