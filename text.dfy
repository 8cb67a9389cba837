/** The few operations on Python `str` values that the inventory logic relies
    on: ordering with `<`, decimal digits (`str(int)`, `'%04d'`), ASCII
    lowercasing and substring search. Strings are sequences of code points. */
module Text {

  /** Python's `x < y` on str: lexicographic by code point, and a proper
      prefix is smaller. (Dafny's own `<` on sequences means "proper prefix",
      which is a different relation.) */
  predicate LexLess(x: string, y: string): (r: bool)
    ensures r ==> x != y
    ensures |x| < |y| && x == y[..|x|] ==> r
  {
    if y == [] then false
    else if x == [] then true
    else if x[0] != y[0] then x[0] < y[0]
    else LexLess(x[1..], y[1..])
  }

  /** Comparing two strings whose first parts have the same length compares
      the first parts, and only on a tie the rest. */
  lemma {:induction false} LexLessAppend(p: string, q: string, p': string, q': string)
    requires |p| == |p'|
    ensures LexLess(p + q, p' + q') <==> LexLess(p, p') || (p == p' && LexLess(q, q'))
  {
    if p == [] {
      assert p + q == q && p' + q' == q';
    } else {
      assert (p + q)[0] == p[0] && (p' + q')[0] == p'[0];
      assert (p + q)[1..] == p[1..] + q && (p' + q')[1..] == p'[1..] + q';
      if p[0] == p'[0] {
        LexLessAppend(p[1..], q, p'[1..], q');
        assert p == p' <==> p[1..] == p'[1..] by {
          if p[1..] == p'[1..] { assert p == [p[0]] + p[1..] && p' == [p'[0]] + p'[1..]; }
        }
      }
    }
  }

  predicate IsDigit(c: char)
  {
    '0' <= c <= '9'
  }

  predicate AllDigits(s: string)
  {
    forall i :: 0 <= i < |s| ==> IsDigit(s[i])
  }

  function DigitChar(d: int): (c: char)
    requires 0 <= d < 10
    ensures IsDigit(c) && c as int - '0' as int == d
  {
    ('0' as int + d) as char
  }

  function DigitValue(c: char): (d: int)
    requires IsDigit(c)
    ensures 0 <= d < 10 && DigitChar(d) == c
  {
    c as int - '0' as int
  }

  function Pow10(n: nat): (r: nat)
    ensures r > 0
  {
    if n == 0 then 1 else 10 * Pow10(n - 1)
  }

  /** The number a string of decimal digits denotes (leading zeros allowed). */
  function Value(s: string): (v: nat)
    requires AllDigits(s)
    ensures v < Pow10(|s|)
  {
    if s == [] then 0 else 10 * Value(s[..|s| - 1]) + DigitValue(s[|s| - 1])
  }

  /** For digit strings of equal length, string order is numeric order and
      string equality is numeric equality. */
  lemma {:induction false} DigitsOrder(x: string, y: string)
    requires |x| == |y| && AllDigits(x) && AllDigits(y)
    ensures LexLess(x, y) <==> Value(x) < Value(y)
    ensures x == y <==> Value(x) == Value(y)
  {
    if x != [] {
      var n := |x|;
      var x', y' := x[..n - 1], y[..n - 1];
      assert x == x' + [x[n - 1]] && y == y' + [y[n - 1]];
      LexLessAppend(x', [x[n - 1]], y', [y[n - 1]]);
      DigitsOrder(x', y');
      var a, b := DigitValue(x[n - 1]), DigitValue(y[n - 1]);
      assert LexLess([x[n - 1]], [y[n - 1]]) <==> a < b;
      assert x == y <==> x' == y' && a == b;
    }
  }

  /** `'%0*d' % (width, n)` for an n that fits: exactly `width` digits, with
      leading zeros. */
  function Pad(n: nat, width: nat): (s: string)
    ensures |s| == width && AllDigits(s)
  {
    if width == 0 then [] else Pad(n / 10, width - 1) + [DigitChar(n % 10)]
  }

  /** Reading a padded number back gives the number. */
  lemma {:induction false} ValueOfPad(n: nat, width: nat)
    requires n < Pow10(width)
    ensures Value(Pad(n, width)) == n
  {
    if width > 0 {
      var s := Pad(n, width);
      assert s[..width - 1] == Pad(n / 10, width - 1);
      ValueOfPad(n / 10, width - 1);
    }
  }

  /** Padding the value of a digit string to its own length gives the string. */
  lemma {:induction false} PadOfValue(s: string)
    requires AllDigits(s)
    ensures Pad(Value(s), |s|) == s
  {
    if s != [] {
      var n := |s|;
      var s' := s[..n - 1];
      PadOfValue(s');
      var v := Value(s);
      assert v / 10 == Value(s') && v % 10 == DigitValue(s[n - 1]);
      assert s == s' + [s[n - 1]];
    }
  }

  /** The digits of a natural number, without leading zeros. */
  function NatDecimal(n: nat): (s: string)
    ensures |s| > 0 && AllDigits(s)
  {
    if n < 10 then [DigitChar(n)] else NatDecimal(n / 10) + [DigitChar(n % 10)]
  }

  /** Python's `str(n)` for an int. */
  function Decimal(n: int): (s: string)
    ensures |s| > 0
  {
    if n < 0 then "-" + NatDecimal(-n) else NatDecimal(n)
  }

  /** `str(n)` reads back as n and never starts with a superfluous zero. */
  lemma {:induction false} NatDecimalValue(n: nat)
    ensures Value(NatDecimal(n)) == n
    ensures NatDecimal(n)[0] == '0' ==> n == 0
  {
    if n >= 10 {
      NatDecimalValue(n / 10);
      var s := NatDecimal(n);
      assert s[..|s| - 1] == NatDecimal(n / 10);
      assert s[0] == NatDecimal(n / 10)[0];
    }
  }

  /** Different numbers are written differently, so `str(id)` identifies an id. */
  lemma DecimalInjective(m: int, n: int)
    ensures Decimal(m) == Decimal(n) ==> m == n
  {
    if m < 0 && n < 0 {
      assert Decimal(m)[1..] == NatDecimal(-m) && Decimal(n)[1..] == NatDecimal(-n);
      NatDecimalValue(-m);
      NatDecimalValue(-n);
    } else if m >= 0 && n >= 0 {
      NatDecimalValue(m);
      NatDecimalValue(n);
    } else {
      var neg, pos := if m < 0 then m else n, if m < 0 then n else m;
      assert Decimal(neg)[0] == '-';
      assert IsDigit(Decimal(pos)[0]);
    }
  }

  /** ASCII lowercasing of one character. */
  function LowerChar(c: char): (r: char)
  {
    if 'A' <= c <= 'Z' then (c as int + 32) as char else c
  }

  /** ASCII lowercasing of a string: same length, upper-case letters mapped
      to lower-case ones, everything else kept. */
  function Lower(s: string): (r: string)
    ensures |r| == |s|
    ensures forall i :: 0 <= i < |s| ==> r[i] == LowerChar(s[i])
  {
    seq(|s|, i requires 0 <= i < |s| => LowerChar(s[i]))
  }

  predicate OccursAt(hay: string, needle: string, i: int)
  {
    0 <= i && i + |needle| <= |hay| && hay[i..i + |needle|] == needle
  }

  /** Python's `needle in hay` (literal substring search). */
  predicate Contains(hay: string, needle: string): (r: bool)
    ensures needle == [] ==> r
    ensures needle == hay ==> r
    ensures r ==> |needle| <= |hay|
  {
    (|needle| <= |hay| && hay[..|needle|] == needle) || (hay != [] && Contains(hay[1..], needle))
  }

  /** The search finds the needle exactly when it occurs at some position. */
  lemma {:induction false} ContainsIff(hay: string, needle: string)
    ensures Contains(hay, needle) <==> exists i :: OccursAt(hay, needle, i)
  {
    if |needle| <= |hay| && hay[..|needle|] == needle {
      assert OccursAt(hay, needle, 0);
    }
    if hay != [] {
      ContainsIff(hay[1..], needle);
      if exists i :: OccursAt(hay[1..], needle, i) {
        var i :| OccursAt(hay[1..], needle, i);
        assert hay[i + 1..i + 1 + |needle|] == hay[1..][i..i + |needle|];
        assert OccursAt(hay, needle, i + 1);
      }
      if exists i :: OccursAt(hay, needle, i) {
        var i :| OccursAt(hay, needle, i);
        if i > 0 {
          assert hay[1..][i - 1..i - 1 + |needle|] == hay[i..i + |needle|];
          assert OccursAt(hay[1..], needle, i - 1);
        }
      }
    } else {
      if exists i :: OccursAt(hay, needle, i) {
        var i :| OccursAt(hay, needle, i);
        assert needle == [];
      }
    }
  }
}
