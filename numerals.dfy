/** `parseInt` and `parseFloat` on the numerals the parsers capture: a run
    of decimal digits, optionally followed by a point and more digits.
    Values are exact; the IEEE-754 rounding of `parseFloat` is not modelled. */
module Numerals {
  import opened JsString

  predicate AllDigits(s: string) {
    forall k :: 0 <= k < |s| ==> IsDigit(s[k])
  }

  /** A numeral in the sense above: `\d+(\.\d*)?`. */
  predicate IsNumeral(s: string) {
    if '.' in s then
      var k := IndexOf(s, '.');
      0 < k && AllDigits(s[..k]) && AllDigits(s[k + 1..])
    else
      s != [] && AllDigits(s)
  }

  function DigitValue(c: char): (v: nat)
    requires IsDigit(c)
    ensures v < 10
  {
    c as int - '0' as int
  }

  function Pow10(n: nat): (r: nat)
    ensures r >= 1
  {
    if n == 0 then 1 else 10 * Pow10(n - 1)
  }

  /** A run of digit characters, cut out, is a digit string. */
  lemma DigitRun(s: string, x: nat, y: nat)
    requires x <= y <= |s| && forall k :: x <= k < y ==> IsDigit(s[k])
    ensures AllDigits(s[x..y])
  {
    assert forall k :: 0 <= k < y - x ==> s[x..y][k] == s[x + k];
  }

  /** `parseInt` of a digit string. */
  function DigitsValue(s: string): (v: nat)
    requires AllDigits(s)
    ensures v < Pow10(|s|)
  {
    if s == [] then 0 else 10 * DigitsValue(s[..|s| - 1]) + DigitValue(s[|s| - 1])
  }

  /** The value of `ip.fp`: the integer part plus the fraction digits over
      their place value; it lies in [ip, ip + 1). */
  function PointValue(ip: string, fp: string): (v: real)
    requires AllDigits(ip) && AllDigits(fp)
    ensures DigitsValue(ip) as real <= v < DigitsValue(ip) as real + 1.0
  {
    FractionBelowOne(DigitsValue(fp) as real, Pow10(|fp|) as real);
    DigitsValue(ip) as real + DigitsValue(fp) as real / Pow10(|fp|) as real
  }

  /** Two fraction digits are hundredths. */
  lemma Hundredths(ip: string, fp: string)
    requires AllDigits(ip) && AllDigits(fp) && |fp| == 2
    ensures PointValue(ip, fp) == DigitsValue(ip) as real + DigitsValue(fp) as real / 100.0
  {
    assert Pow10(2) == 100;
  }

  /** `parseFloat` of a numeral. */
  function NumeralValue(s: string): (v: real)
    requires IsNumeral(s)
    ensures v >= 0.0
  {
    if '.' in s then
      var k := IndexOf(s, '.');
      PointValue(s[..k], s[k + 1..])
    else
      DigitsValue(s) as real
  }

  /** Digit strings concatenate like place values. */
  lemma {:induction false} DigitsAppend(a: string, b: string)
    requires AllDigits(a) && AllDigits(b)
    ensures AllDigits(a + b)
    ensures DigitsValue(a + b) == DigitsValue(a) * Pow10(|b|) + DigitsValue(b)
    decreases |b|
  {
    if b == [] {
      assert a + b == a;
    } else {
      var b' := b[..|b| - 1];
      var d := DigitValue(b[|b| - 1]);
      assert (a + b)[..|a + b| - 1] == a + b';
      assert (a + b)[|a + b| - 1] == b[|b| - 1];
      DigitsAppend(a, b');
      assert DigitsValue(a + b) == 10 * DigitsValue(a + b') + d;
      assert DigitsValue(b) == 10 * DigitsValue(b') + d;
      assert Pow10(|b|) == 10 * Pow10(|b'|);
      ShiftPlace(DigitsValue(a), Pow10(|b'|), DigitsValue(b'), d);
    }
  }

  lemma ShiftPlace(x: int, p: int, y: int, d: int)
    ensures 10 * (x * p + y) + d == x * (10 * p) + (10 * y + d)
  {
  }

  lemma FractionBelowOne(d: real, q: real)
    requires 0.0 <= d < q
    ensures 0.0 <= d / q < 1.0
  {
  }

  lemma ScaleFraction(d: real, q: real)
    requires q > 0.0
    ensures (10.0 * d) / (10.0 * q) == d / q
  {
  }

  /** A leading zero does not change the value. */
  lemma LeadingZero(s: string)
    requires AllDigits(s)
    ensures AllDigits("0" + s) && DigitsValue("0" + s) == DigitsValue(s)
  {
    DigitsAppend("0", s);
  }

  /** The integer part of a numeral is its floor: the value lies in
      [int part, int part + 1). */
  lemma NumeralFloor(s: string)
    requires IsNumeral(s)
    ensures var ip := if '.' in s then s[..IndexOf(s, '.')] else s;
            AllDigits(ip) &&
            DigitsValue(ip) as real <= NumeralValue(s) < DigitsValue(ip) as real + 1.0
  {
  }

  /** A trailing zero after the point does not change the value. */
  lemma TrailingZero(s: string)
    requires IsNumeral(s) && '.' in s
    ensures IsNumeral(s + "0") && NumeralValue(s + "0") == NumeralValue(s)
  {
    var k := IndexOf(s, '.');
    var t := s + "0";
    assert t[..k] == s[..k];
    assert t[k] == '.';
    IndexOfAt(t, '.', k);
    var f := s[k + 1..];
    assert t[k + 1..] == f + "0";
    DigitsAppend(f, "0");
    assert DigitsValue(f + "0") == 10 * DigitsValue(f);
    assert Pow10(|f| + 1) == 10 * Pow10(|f|);
    ScaleFraction(DigitsValue(f) as real, Pow10(|f|) as real);
  }

  /** A run of digits, then at most one point, then digits, is a numeral;
      it has a point exactly when the middle part is one. */
  lemma SegmentsNumeral(s: string, x: nat, y: nat, z: nat, w: nat)
    requires x < y <= z <= w <= |s| && z - y <= 1
    requires forall k :: x <= k < y ==> IsDigit(s[k])
    requires forall k :: y <= k < z ==> s[k] == '.'
    requires forall k :: z <= k < w ==> IsDigit(s[k])
    ensures IsNumeral(s[x..w])
    ensures ('.' in s[x..w]) <==> z == y + 1
    ensures z == y + 1 ==> IndexOf(s[x..w], '.') == y - x
  {
    var t := s[x..w];
    if z == y + 1 {
      assert t[y - x] == '.';
      assert '.' !in t[..y - x] by {
        forall k | 0 <= k < y - x ensures t[k] != '.' {
          assert IsDigit(s[x + k]);
        }
      }
      assert t[..y - x] == s[x..y];
      assert t[y - x + 1..] == s[z..w];
    } else {
      assert '.' !in t by {
        forall k | 0 <= k < |t| ensures t[k] != '.' {
          assert IsDigit(s[x + k]);
        }
      }
    }
  }

  /** The numeral with integer digits `a` and fraction digits `f`. */
  lemma PointedNumeral(a: string, f: string)
    requires a != [] && AllDigits(a) && AllDigits(f)
    ensures IsNumeral(a + "." + f)
    ensures NumeralValue(a + "." + f) == PointValue(a, f)
  {
    var t := a + "." + f;
    assert t[..|a|] == a;
    assert t[|a| + 1..] == f;
    assert '.' !in a by {
      forall k | 0 <= k < |a| ensures a[k] != '.' {
        assert IsDigit(a[k]);
      }
    }
    IndexOfAt(t, '.', |a|);
  }

  /** The numeral made of the digits `a` alone. */
  lemma PlainNumeral(a: string)
    requires a != [] && AllDigits(a)
    ensures IsNumeral(a) && NumeralValue(a) == DigitsValue(a) as real
  {
    assert '.' !in a by {
      forall k | 0 <= k < |a| ensures a[k] != '.' {
        assert IsDigit(a[k]);
      }
    }
  }
}
