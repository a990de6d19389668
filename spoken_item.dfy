/** `createSpokenItem` of utils/speechRecognition.ts: an item name and an
    optional price read off a spoken phrase. A "N dollars (and) M cents"
    phrase wins; otherwise the first number gives the price and every
    number, with its dollar sign or its "dollars"/"cents" word, is cut
    out of the name. */
module SpokenItems {
  import opened Wrappers
  import opened JsString
  import opened Numerals
  import opened Regex

  datatype SpokenItem = SpokenItem(name: string, price: Option<real>)

  /* ---------- the regular expressions ---------- */

  /** `/(\d+)\s*dollars?\s+(?:and\s+)?(\d+)\s*cents?/`, group 1 over
      element 0 and group 2 over element 15. The `g` pattern that cuts the
      phrase out of the name is the same without the groups. It is written
      as its dollars half and its cents half. */
  const DollarsAndCents: Pattern := DollarsHalf + CentsHalf

  /** `(\d+)\s*dollars?\s+`, elements 0..9 */
  const DollarsHalf: Pattern :=
    [Some1(Digit), Many(Space),
     One('d'), One('o'), One('l'), One('l'), One('a'), One('r'), Maybe(Chr('s')), Some1(Space)]

  /** `(?:and\s+)?(\d+)\s*cents?`, elements 10..21 */
  const CentsHalf: Pattern :=
    [Optional(4), One('a'), One('n'), One('d'), Some1(Space),
     Some1(Digit), Many(Space), One('c'), One('e'), One('n'), One('t'), Maybe(Chr('s'))]

  /** `/\$?\s*(\d+(?:\.\d*)?)/`, group 1 over elements 2..5. */
  const SpokenPrice: Pattern :=
    [Maybe(Chr('$')), Many(Space), Some1(Digit), Optional(2), One('.'), Many(Digit)]

  /** `/\$\s*\d+(?:\.\d*)?/g` */
  const DollarAmount: Pattern :=
    [One('$'), Many(Space), Some1(Digit), Optional(2), One('.'), Many(Digit)]

  /** `/\d+(?:\.\d*)?\s*dollars?/g` */
  const NumberDollars: Pattern :=
    [Some1(Digit), Optional(2), One('.'), Many(Digit), Many(Space),
     One('d'), One('o'), One('l'), One('l'), One('a'), One('r'), Maybe(Chr('s'))]

  /** `/\d+(?:\.\d*)?\s*cents?/g` */
  const NumberCents: Pattern :=
    [Some1(Digit), Optional(2), One('.'), Many(Digit), Many(Space),
     One('c'), One('e'), One('n'), One('t'), Maybe(Chr('s'))]

  /** `/\d+(?:\.\d*)?/g` */
  const BareNumber: Pattern := [Some1(Digit), Optional(2), One('.'), Many(Digit)]

  /** `/\s+/g` */
  const Spaces: Pattern := [Some1(Space)]

  /** The greedy matcher is the ECMAScript one for all seven patterns. */
  lemma DollarsAndCentsCommitted()
    ensures Committed(DollarsAndCents, 0)
  {
    assert Committed(DollarsAndCents, 21);
    assert Committed(DollarsAndCents, 20);
    assert Committed(DollarsAndCents, 19);
    assert Committed(DollarsAndCents, 18);
    assert Committed(DollarsAndCents, 17);
    assert Committed(DollarsAndCents, 16);
    assert Committed(DollarsAndCents, 15);
    assert Committed(DollarsAndCents, 14);
    assert Committed(DollarsAndCents, 13);
    assert Committed(DollarsAndCents, 12);
    assert Committed(DollarsAndCents, 11);
    assert Committed(DollarsAndCents, 10);
    assert Committed(DollarsAndCents, 9);
    assert Committed(DollarsAndCents, 8);
    assert Committed(DollarsAndCents, 7);
    assert Committed(DollarsAndCents, 6);
    assert Committed(DollarsAndCents, 5);
    assert Committed(DollarsAndCents, 4);
    assert Committed(DollarsAndCents, 3);
    assert Committed(DollarsAndCents, 2);
    assert Committed(DollarsAndCents, 1);
  }

  lemma SpokenPriceCommitted()
    ensures Committed(SpokenPrice, 0)
  {
  }

  lemma CleanupCommitted()
    ensures Committed(DollarAmount, 0) && Committed(NumberDollars, 0) && Committed(NumberCents, 0)
    ensures Committed(BareNumber, 0) && Committed(Spaces, 0)
  {
    assert Committed(NumberDollars, 4);
    assert Committed(NumberCents, 4);
  }

  /* ---------- the dollars-and-cents phrase ---------- */

  /** The parts of a dollars-and-cents match: two digit groups, the word
      "dollar" after the first and "cent" before the end. */
  lemma DollarsAndCentsParts(text: string, b: seq<nat>)
    requires Accepts(DollarsAndCents, 0, text, b)
    ensures |b| == 23 && b[0] < b[1] <= b[15] < b[16] <= End(b) <= |text|
    ensures AllDigits(text[b[0]..b[1]]) && AllDigits(text[b[15]..b[16]])
    ensures b[2] + 1 <= |text| && text[b[2]] == 'd' && b[17] + 1 <= |text| && text[b[17]] == 'c'
  {
    DollarsAndCentsShaped();
    PhraseParts(DollarsAndCents, text, b);
  }

  /** What the parts of a dollars-and-cents match rest on: the two digit
      groups and the two letters, none of them inside the optional
      "and". */
  predicate PhraseShaped(p: Pattern) {
    |p| == 22 && p[0] == Some1(Digit) && p[2] == One('d') && p[15] == Some1(Digit) &&
    p[17] == One('c') && Outside(p, 0, 2) && Outside(p, 0, 15) && Outside(p, 0, 17)
  }

  lemma DollarsAndCentsShaped()
    ensures PhraseShaped(DollarsAndCents)
  {
    var p := DollarsAndCents;
    assert Outside(p, 14, 17) && Outside(p, 10, 17) && Outside(p, 6, 17) && Outside(p, 2, 17);
    assert Outside(p, 10, 15) && Outside(p, 6, 15) && Outside(p, 2, 15);
  }

  lemma PhraseParts(p: Pattern, text: string, b: seq<nat>)
    requires PhraseShaped(p) && Accepts(p, 0, text, b)
    ensures |b| == 23 && b[0] < b[1] <= b[15] < b[16] <= End(b) <= |text|
    ensures AllDigits(text[b[0]..b[1]]) && AllDigits(text[b[15]..b[16]])
    ensures b[2] + 1 <= |text| && text[b[2]] == 'd' && b[17] + 1 <= |text| && text[b[17]] == 'c'
  {
    AcceptsElem(p, 0, text, b, 0);
    AcceptsElem(p, 0, text, b, 2);
    AcceptsElem(p, 0, text, b, 15);
    AcceptsElem(p, 0, text, b, 17);
    AcceptsBounds(p, 0, text, b);
    assert b[1] <= b[15] && b[16] <= b[22];
    DigitRun(text, b[0], b[1]);
    DigitRun(text, b[15], b[16]);
  }

  /** No dollars-and-cents phrase can occur in a text without a 'd' or
      without a 'c'. */
  lemma PhraseNeedsLetters(text: string)
    requires 'd' !in text || 'c' !in text
    ensures Search(DollarsAndCents, text, 0).None?
  {
    DollarsAndCentsCommitted();
    var m := Search(DollarsAndCents, text, 0);
    if m.Some? {
      ScanSound(DollarsAndCents, text, m.value[0]);
      DollarsAndCentsParts(text, m.value);
      assert false;
    }
  }

  /* ---------- the first number ---------- */

  /** The price pattern, element by element. The lemmas below take any
      pattern of this shape, which spares the solver from unfolding the
      constant itself. */
  predicate PriceShaped(p: Pattern) {
    |p| == 6 && p[0] == Maybe(Chr('$')) && p[1] == Many(Space) && p[2] == Some1(Digit) &&
    p[3] == Optional(2) && p[4] == One('.') && p[5] == Many(Digit)
  }

  lemma SpokenPriceShaped()
    ensures PriceShaped(SpokenPrice) && Committed(SpokenPrice, 0)
  {
    SpokenPriceCommitted();
  }

  /** The parts of a `\$?\s*(\d+(?:\.\d*)?)` match: group 1 is a numeral
      that starts with a digit, after at most a dollar sign and white
      space. */
  lemma SpokenPriceParts(p: Pattern, text: string, b: seq<nat>)
    requires PriceShaped(p) && Accepts(p, 0, text, b)
    ensures |b| == 7 && b[0] <= b[1] <= b[2] < b[3] <= b[6] <= |text|
    ensures forall k :: b[0] <= k < b[1] ==> text[k] == '$'
    ensures forall k :: b[1] <= k < b[2] ==> IsSpace(text[k])
    ensures IsDigit(text[b[2]]) && IsNumeral(text[b[2]..b[6]])
  {
    PriceHead(p, text, b);
    PriceTail(p, text, b);
    SegmentsNumeral(text, b[2], b[3], b[5], b[6]);
  }

  /** The dollar sign, the white space and the integer digits. */
  lemma PriceHead(p: Pattern, text: string, b: seq<nat>)
    requires PriceShaped(p) && Accepts(p, 0, text, b)
    ensures |b| == 7 && b[0] <= b[1] <= b[2] < b[3] <= |text|
    ensures forall k :: b[0] <= k < b[1] ==> text[k] == '$'
    ensures forall k :: b[1] <= k < b[2] ==> IsSpace(text[k])
    ensures forall k :: b[2] <= k < b[3] ==> IsDigit(text[k])
  {
    assert Outside(p, 0, 2);
    AcceptsElem(p, 0, text, b, 0);
    AcceptsElem(p, 0, text, b, 1);
    AcceptsElem(p, 0, text, b, 2);
  }

  /** The optional point and the fraction digits. */
  lemma PriceTail(p: Pattern, text: string, b: seq<nat>)
    requires PriceShaped(p) && Accepts(p, 0, text, b)
    ensures |b| == 7 && b[3] <= b[5] <= b[6] <= |text| && b[5] - b[3] <= 1
    ensures forall k :: b[3] <= k < b[5] ==> text[k] == '.'
    ensures forall k :: b[5] <= k < b[6] ==> IsDigit(text[k])
  {
    AcceptsGroup(p, 0, text, b, 3);
    AcceptsElem(p, 0, text, b, 4);
    AcceptsElem(p, 0, text, b, 5);
  }

  /** A single digit is already a match of the price pattern. */
  lemma DigitIsSpokenPrice(p: Pattern, text: string, k: nat)
    requires PriceShaped(p) && k < |text| && IsDigit(text[k])
    ensures Accepts(p, 0, text, [k, k, k, k + 1, k + 1, k + 1, k + 1])
  {
    var c := [k, k, k, k + 1, k + 1, k + 1, k + 1];
    assert Accepts(p, 6, text, c[6..]);
    assert Skip(p, 3) == 6;
    assert c[3..][3..] == c[6..];
    assert Accepts(p, 3, text, c[3..]);
    assert AllIn(Digit, text, k, k + 1);
    assert Accepts(p, 2, text, c[2..]);
    assert Accepts(p, 1, text, c[1..]);
  }

  /** Index of the first digit. */
  function FirstDigit(s: string): (k: nat)
    requires HasDigit(s)
    ensures k < |s| && IsDigit(s[k]) && forall i :: 0 <= i < k ==> !IsDigit(s[i])
  {
    if IsDigit(s[0]) then 0
    else
      assert HasDigit(s[1..]) by {
        var k :| 0 <= k < |s| && IsDigit(s[k]);
        assert s[1..][k - 1] == s[k];
      }
      1 + FirstDigit(s[1..])
  }

  /** End of the longest numeral `\d+(\.\d*)?` that starts at `d`: the digit
      run, and then a point and a second digit run if a point follows. */
  function NumeralEnd(s: string, d: nat): (e: nat)
    requires d <= |s|
    ensures d <= e <= |s|
    ensures d < |s| && IsDigit(s[d]) ==> IsNumeral(s[d..e])
    ensures e < |s| ==> !IsDigit(s[e]) && (s[e] == '.' ==> '.' in s[d..e])
  {
    var x := d + Span(Digit, s, d);
    NumeralSegments(s, d, x);
    FractionEnd(s, x)
  }

  /** The digit run from `d` and the fraction after it form a numeral, and
      neither can be extended. */
  lemma NumeralSegments(s: string, d: nat, x: nat)
    requires d <= |s| && x == d + Span(Digit, s, d)
    ensures var e := FractionEnd(s, x);
            (d < |s| && IsDigit(s[d]) ==> IsNumeral(s[d..e])) &&
            (e < |s| ==> !IsDigit(s[e]) && (s[e] == '.' ==> '.' in s[d..e]))
  {
    var e := FractionEnd(s, x);
    var z := if x < |s| && s[x] == '.' then x + 1 else x;
    if d < |s| && IsDigit(s[d]) {
      assert x > d;
      SegmentsNumeral(s, d, x, z, e);
    }
    SegmentsStop(s, d, x, e);
  }

  /** What follows the fraction is neither a digit nor a second point. */
  lemma SegmentsStop(s: string, d: nat, x: nat, e: nat)
    requires d <= |s| && x == d + Span(Digit, s, d) && e == FractionEnd(s, x)
    ensures e < |s| ==> !IsDigit(s[e]) && (s[e] == '.' ==> '.' in s[d..e])
  {
    if e < |s| && s[e] == '.' {
      assert s[d..e][x - d] == '.';
    }
  }

  /** End of the optional fraction `(\.\d*)?` that starts at `x`. */
  function FractionEnd(s: string, x: nat): (e: nat)
    requires x <= |s|
    ensures x <= e <= |s|
  {
    if x < |s| && s[x] == '.' then x + 1 + Span(Digit, s, x + 1) else x
  }

  /** The first three elements: the digit run is taken whole. */
  lemma ScanDigits(p: Pattern, text: string, i: nat)
    requires PriceShaped(p) && i <= |text| && Scan(p, 0, text, i).Some?
    ensures var c := Scan(p, 0, text, i).value;
            |c| == 7 && c[2] <= c[3] <= |text| && c[3] == c[2] + Span(Digit, text, c[2]) &&
            Scan(p, 3, text, c[3]) == Some(c[3..])
  {
    var c := Scan(p, 0, text, i).value;
    ScanThree(p, 0, text, i, c);
    TakeUnbounded(Digit, text, c[2]);
  }

  /** The optional fraction: taken exactly when a point follows. */
  lemma ScanFraction(p: Pattern, text: string, x: nat)
    requires PriceShaped(p) && x <= |text| && Scan(p, 3, text, x).Some?
    ensures var c := Scan(p, 3, text, x).value;
            |c| == 4 && c[3] == FractionEnd(text, x)
  {
    var c := Scan(p, 3, text, x).value;
    assert Skip(p, 3) == 6;
    ScanOptional(p, 3, text, x);
    if x < |text| && text[x] == '.' {
      assert Take(Chr('.'), AtMost(1), text, x) == 1;
      assert Scan(p, 5, text, x + 1).Some?;
      assert Scan(p, 4, text, x).Some?;
      ScanRepeat(p, 4, text, x);
      assert Scan(p, 5, text, x + 1) == Some(c[1..][1..]);
      ScanRepeat(p, 5, text, x + 1);
      assert c[1..][1..][1] == c[3];
    } else {
      assert Scan(p, 4, text, x).None?;
      assert Scan(p, 6, text, x) == Some(c[3..]);
    }
  }

  /** The greedy match of the price pattern takes the whole digit run
      and, when a point follows it, the point and the digits after it. */
  lemma SpokenPriceScan(p: Pattern, text: string, i: nat)
    requires PriceShaped(p) && i <= |text| && Scan(p, 0, text, i).Some?
    ensures var c := Scan(p, 0, text, i).value;
            |c| == 7 && c[2] <= |text| && c[6] == NumeralEnd(text, c[2])
  {
    var c := Scan(p, 0, text, i).value;
    assert |c| == 7 && c[2] <= c[3] <= |text| && c[3] == c[2] + Span(Digit, text, c[2]) &&
           Scan(p, 3, text, c[3]) == Some(c[3..]) by {
      ScanDigits(p, text, i);
    }
    assert c[6] == FractionEnd(text, c[3]) by {
      ScanFraction(p, text, c[3]);
      assert c[3..][3] == c[6];
    }
    FractionAfterDigits(text, c[2], c[3], c[6]);
  }

  /** A fraction that starts where the digit run from `d` stops ends the
      numeral at `d`. */
  lemma FractionAfterDigits(text: string, d: nat, x: nat, e: nat)
    requires d <= |text| && x == d + Span(Digit, text, d) && e == FractionEnd(text, x)
    ensures e == NumeralEnd(text, d)
  {
  }

  /** Nothing before the leftmost match of the price pattern is a digit,
      so its group starts at the first digit. */
  lemma SpokenPriceFound(p: Pattern, text: string, b: seq<nat>)
    requires PriceShaped(p) && Accepts(p, 0, text, b) && Scan(p, 0, text, b[0]) == Some(b)
    requires forall c :: c != [] && c[0] < b[0] ==> !Accepts(p, 0, text, c)
    ensures HasDigit(text) && |b| == 7 && b[2] == FirstDigit(text) && b[6] == NumeralEnd(text, b[2])
    ensures IsNumeral(text[b[2]..b[6]])
  {
    SpokenPriceParts(p, text, b);
    SpokenPriceScan(p, text, b[0]);
    NoDigitBeforeGroup(p, text, b);
    assert HasDigit(text) by {
      assert IsDigit(text[b[2]]);
    }
    var d := FirstDigit(text);
    assert d == b[2];
  }

  /** Before the group of the leftmost match there is no digit: not before
      the match, and not in its dollar sign and spaces. */
  lemma NoDigitBeforeGroup(p: Pattern, text: string, b: seq<nat>)
    requires PriceShaped(p) && |b| == 7 && b[0] <= b[1] <= b[2] <= |text|
    requires forall k :: b[0] <= k < b[1] ==> text[k] == '$'
    requires forall k :: b[1] <= k < b[2] ==> IsSpace(text[k])
    requires forall c :: c != [] && c[0] < b[0] ==> !Accepts(p, 0, text, c)
    ensures forall k :: 0 <= k < b[2] ==> !IsDigit(text[k])
  {
    forall k | 0 <= k < b[2] ensures !IsDigit(text[k]) {
      if k < b[0] {
        if IsDigit(text[k]) {
          DigitIsSpokenPrice(p, text, k);
        }
      } else if k >= b[1] {
        SpaceIsNoDigit(text[k]);
      }
    }
  }

  /** The leftmost match of the price pattern exists exactly when the text
      has a digit; its group starts at the first digit and runs to the end
      of the longest numeral there. */
  lemma SpokenPriceSearch(p: Pattern, text: string)
    requires PriceShaped(p) && Committed(p, 0)
    ensures Search(p, text, 0).Some? <==> HasDigit(text)
    ensures Search(p, text, 0).Some? ==>
              var b := Search(p, text, 0).value;
              |b| == 7 && b[2] == FirstDigit(text) && b[6] == NumeralEnd(text, b[2]) &&
              IsNumeral(text[b[2]..b[6]])
  {
    SearchIsLeftmost(p, text, 0);
    var m := Search(p, text, 0);
    if m.Some? {
      SpokenPriceFound(p, text, m.value);
    } else if HasDigit(text) {
      var k :| 0 <= k < |text| && IsDigit(text[k]);
      DigitIsSpokenPrice(p, text, k);
    }
  }

  /** `priceMatch ? parseFloat(priceMatch[1]) : undefined`. */
  function SpokenPriceOf(text: string): Option<real> {
    match Search(SpokenPrice, text, 0)
    case None => None
    case Some(b) =>
      SpokenPriceShaped();
      ScanSound(SpokenPrice, text, b[0]);
      SpokenPriceParts(SpokenPrice, text, b);
      Some(NumeralValue(text[b[2]..b[6]]))
  }

  /** A phrase has a price exactly when it has a digit; the price is the
      longest numeral that starts at the first digit, whatever word follows
      it. */
  lemma SpokenPriceSpec(text: string)
    ensures SpokenPriceOf(text).Some? <==> HasDigit(text)
    ensures SpokenPriceOf(text).Some? ==>
              var d := FirstDigit(text);
              var e := NumeralEnd(text, d);
              IsNumeral(text[d..e]) && SpokenPriceOf(text).value == NumeralValue(text[d..e])
  {
    SpokenPriceShaped();
    SpokenPriceSearch(SpokenPrice, text);
  }

  /* ---------- the clean-up passes ---------- */

  /** No two white-space characters stand side by side. */
  predicate NoSpaceRun(s: string) {
    forall k :: 0 <= k < |s| - 1 ==> !(IsSpace(s[k]) && IsSpace(s[k + 1]))
  }

  /** `/\s+/`, element by element. */
  predicate SpacesShaped(p: Pattern) {
    |p| == 1 && p[0] == Some1(Space)
  }

  /** `/\s+/` matches exactly where a white-space character stands, and
      takes the whole run. */
  lemma SpacesScan(p: Pattern, s: string, i: nat)
    requires SpacesShaped(p) && i <= |s|
    ensures Scan(p, 0, s, i) == if i < |s| && IsSpace(s[i]) then Some([i, i + Span(Space, s, i)]) else None
  {
    var k := Take(Space, Unbounded, s, i);
    assert k == Span(Space, s, i);
    assert k >= 1 <==> i < |s| && IsSpace(s[i]);
    if k >= 1 {
      assert Scan(p, 1, s, i + k) == Some([i + k]);
      assert Scan(p, 0, s, i) == Then(i, Some([i + k]));
      assert [i] + [i + k] == [i, i + k];
    }
  }

  /** `.replace(/\s+/g, ' ')` from `from` on: every run of white space
      becomes one space, so no two white-space characters are left side by
      side; the result starts with white space only where the text does;
      and every other character comes from the text. */
  lemma {:induction false} CollapseFrom(p: Pattern, s: string, from: nat)
    requires SpacesShaped(p) && from <= |s|
    ensures var r := ReplaceAll(p, s, " ", from);
            NoSpaceRun(r) &&
            (r != [] && IsSpace(r[0]) ==> from < |s| && IsSpace(s[from])) &&
            (forall k :: 0 <= k < |r| ==> r[k] == ' ' || r[k] in s[from..])
    decreases |s| - from
  {
    var r := ReplaceAll(p, s, " ", from);
    var m := Search(p, s, from);
    SearchSkips(p, s, from);
    forall i | from <= i < |s| && IsSpace(s[i]) ensures m.Some? && m.value[0] <= i {
      SpacesScan(p, s, i);
    }
    if m.None? {
      assert r == s[from..];
    } else {
      var b := m.value;
      SpacesScan(p, s, b[0]);
      var e := End(b);
      assert b[0] < e && (e == |s| || !IsSpace(s[e]));
      var a := s[from..b[0]];
      var r' := ReplaceAll(p, s, " ", e);
      assert r == a + " " + r';
      CollapseFrom(p, s, e);
      CollapseJoin(s, from, b[0], e, r');
    }
  }

  /** The collapse keeps every character that is not white space, in
      order. */
  lemma {:induction false} CollapseKeeps(p: Pattern, s: string, from: nat)
    requires SpacesShaped(p) && from <= |s|
    ensures NonSpace(ReplaceAll(p, s, " ", from)) == NonSpace(s[from..])
    decreases |s| - from
  {
    var m := Search(p, s, from);
    if m.Some? {
      var b := m.value;
      SpacesScan(p, s, b[0]);
      var e := End(b);
      var r' := ReplaceAll(p, s, " ", e);
      assert ReplaceAll(p, s, " ", from) == s[from..b[0]] + " " + r';
      CollapseKeeps(p, s, e);
      RunDropped(s, from, b[0], e, r');
    }
  }

  predicate StartsSpace(t: string) {
    t != [] && IsSpace(t[0])
  }

  predicate EndsSpace(t: string) {
    t != [] && IsSpace(t[|t| - 1])
  }

  /** What collapsing the white-space runs of `t` should give: its words
      joined by single spaces, with one space in front when `t` starts with
      white space, and one behind when it ends with white space after a
      word. */
  function Collapsed(t: string): string {
    Lead(t) + JoinSpace(Words(t)) + Trail(t, Words(t))
  }

  function Lead(t: string): string {
    if StartsSpace(t) then " " else ""
  }

  function Trail(t: string, ws: seq<string>): string {
    if EndsSpace(t) && ws != [] then " " else ""
  }

  /** `.replace(/\s+/g, ' ')` from `from` on is the collapse of the rest of
      the text: every white-space run becomes exactly one space. */
  lemma {:induction false} CollapseWords(p: Pattern, s: string, from: nat)
    requires SpacesShaped(p) && from <= |s|
    ensures ReplaceAll(p, s, " ", from) == Collapsed(s[from..])
    decreases |s| - from
  {
    var m := Search(p, s, from);
    SearchSkips(p, s, from);
    forall i | from <= i < |s| && IsSpace(s[i]) ensures m.Some? && m.value[0] <= i {
      SpacesScan(p, s, i);
    }
    if m.None? {
      assert ReplaceAll(p, s, " ", from) == s[from..];
      CollapsedPlain(s[from..]);
    } else {
      var b := m.value;
      SpacesScan(p, s, b[0]);
      var e := End(b);
      assert ReplaceAll(p, s, " ", from) == s[from..b[0]] + " " + ReplaceAll(p, s, " ", e);
      CollapseWords(p, s, e);
      CollapsedRun(s, from, b[0], e);
    }
  }

  /** A text without white space collapses to itself. */
  lemma CollapsedPlain(t: string)
    requires forall k :: 0 <= k < |t| ==> !IsSpace(t[k])
    ensures Collapsed(t) == t
  {
    if t != [] {
      WordsOfWord(t, []);
      assert t + [] == t;
    }
  }

  /** Collapsing text without white space, a white-space run and a rest is
      the text, one space, and the collapse of the rest. */
  lemma CollapsedRun(s: string, from: nat, x: nat, e: nat)
    requires from <= x < e <= |s|
    requires forall i :: from <= i < x ==> !IsSpace(s[i])
    requires AllIn(Space, s, x, e) && (e == |s| || !IsSpace(s[e]))
    ensures Collapsed(s[from..]) == s[from..x] + " " + Collapsed(s[e..])
  {
    var t, rest := s[from..], s[e..];
    var ws := Words(rest);
    RunWords(s, from, x, e);
    RunEnds(s, from, x, e);
    assert Collapsed(t) == Lead(t) + JoinSpace(Words(t)) + Trail(t, Words(t));
    assert Collapsed(rest) == Lead(rest) + JoinSpace(ws) + Trail(rest, ws);
    if from == x {
      assert s[from..x] == [] && t[0] == s[x];
      assert Words(t) == ws;
      RunFirst(t, rest, ws);
    } else {
      assert t[0] == s[from];
      WordFirst(s[from..x], t, rest, ws);
    }
  }

  /** The words of such a text: the leading word, if any, then the words
      of the rest. */
  lemma RunWords(s: string, from: nat, x: nat, e: nat)
    requires from <= x < e <= |s|
    requires forall i :: from <= i < x ==> !IsSpace(s[i])
    requires AllIn(Space, s, x, e) && (e == |s| || !IsSpace(s[e]))
    ensures Words(s[from..]) == (if from == x then [] else [s[from..x]]) + Words(s[e..])
  {
    var a, run, rest := s[from..x], s[x..e], s[e..];
    assert s[from..] == a + (run + rest);
    assert AllSpaces(run) by {
      forall k | 0 <= k < |run| ensures IsSpace(run[k]) {
        assert run[k] == s[x + k];
      }
    }
    WordsAfterSpaces(run, rest);
    if a == [] {
      assert s[from..] == run + rest;
    } else {
      assert forall k :: 0 <= k < |a| ==> a[k] == s[from + k];
      WordsOfWord(a, run + rest);
    }
  }

  /** How such a text ends, and the rest has words exactly when it is not
      empty. */
  lemma RunEnds(s: string, from: nat, x: nat, e: nat)
    requires from <= x < e <= |s|
    requires AllIn(Space, s, x, e) && (e == |s| || !IsSpace(s[e]))
    ensures EndsSpace(s[from..]) == (e == |s| || EndsSpace(s[e..]))
    ensures e == |s| || !IsSpace(s[e..][0])
    ensures e < |s| <==> Words(s[e..]) != []
  {
    var t, rest := s[from..], s[e..];
    if rest != [] {
      assert t[|t| - 1] == rest[|rest| - 1] && rest[0] == s[e];
      WordsStartWord(rest);
    } else {
      assert t[|t| - 1] == s[e - 1];
    }
  }

  /** `CollapsedRun` when the text starts with the run. */
  lemma RunFirst(t: string, rest: string, ws: seq<string>)
    requires t != [] && IsSpace(t[0]) && (rest == [] || !IsSpace(rest[0]))
    requires rest != [] <==> ws != []
    requires EndsSpace(t) == (rest == [] || EndsSpace(rest))
    ensures Lead(t) + JoinSpace(ws) + Trail(t, ws) == [] + " " + (Lead(rest) + JoinSpace(ws) + Trail(rest, ws))
  {
    assert Lead(t) == " " && Lead(rest) == "" && Trail(t, ws) == Trail(rest, ws);
    assert "" + JoinSpace(ws) == JoinSpace(ws);
    assert [] + " " == " ";
  }

  /** `CollapsedRun` when a word comes before the run. */
  lemma WordFirst(a: string, t: string, rest: string, ws: seq<string>)
    requires a != [] && t != [] && !IsSpace(t[0]) && (rest == [] || !IsSpace(rest[0]))
    requires rest != [] <==> ws != []
    requires EndsSpace(t) == (rest == [] || EndsSpace(rest))
    ensures Lead(t) + JoinSpace([a] + ws) + Trail(t, [a] + ws) == a + " " + (Lead(rest) + JoinSpace(ws) + Trail(rest, ws))
  {
    if ws == [] {
      WordLast(a, t, rest, ws);
    } else {
      WordBefore(a, t, rest, ws);
    }
  }

  lemma WordLast(a: string, t: string, rest: string, ws: seq<string>)
    requires t != [] && !IsSpace(t[0]) && rest == [] && ws == [] && EndsSpace(t)
    ensures Lead(t) + JoinSpace([a] + ws) + Trail(t, [a] + ws) == a + " " + (Lead(rest) + JoinSpace(ws) + Trail(rest, ws))
  {
    assert [a] + ws == [a];
    assert Lead(t) + JoinSpace([a]) + Trail(t, [a]) == "" + a + " ";
    assert Lead(rest) + JoinSpace(ws) + Trail(rest, ws) == "" + "" + "";
  }

  lemma WordBefore(a: string, t: string, rest: string, ws: seq<string>)
    requires t != [] && !IsSpace(t[0]) && rest != [] && !IsSpace(rest[0]) && ws != []
    requires EndsSpace(t) == EndsSpace(rest)
    ensures Lead(t) + JoinSpace([a] + ws) + Trail(t, [a] + ws) == a + " " + (Lead(rest) + JoinSpace(ws) + Trail(rest, ws))
  {
    JoinCons(a, ws);
    var j, tr := JoinSpace(ws), Trail(rest, ws);
    assert Trail(t, [a] + ws) == tr && Lead(t) == "" && Lead(rest) == "";
    assert "" + (a + " " + j) + tr == a + " " + ("" + j + tr);
  }

  /** Trimming the collapse leaves the words joined by single spaces. */
  lemma TrimCollapsed(t: string)
    ensures Trim(Collapsed(t)) == JoinSpace(Words(t))
  {
    WordsAreWords(t);
    JoinTrimmed(Words(t));
    assert AllSpaces(Lead(t)) && AllSpaces(Trail(t, Words(t)));
    TrimPadded(Lead(t), JoinSpace(Words(t)), Trail(t, Words(t)));
  }

  /** A white-space run replaced by one space, between the same text on
      either side, leaves the same non-white-space characters. */
  lemma RunDropped(s: string, from: nat, x: nat, e: nat, r: string)
    requires from <= x <= e <= |s| && AllIn(Space, s, x, e) && NonSpace(r) == NonSpace(s[e..])
    ensures NonSpace(s[from..x] + " " + r) == NonSpace(s[from..])
  {
    var a, run, rest := s[from..x], s[x..e], s[e..];
    assert s[from..] == a + run + rest;
    assert AllSpaces(run) by {
      forall k | 0 <= k < |run| ensures IsSpace(run[k]) {
        assert run[k] == s[x + k];
      }
    }
    NonSpaceAppend(a + " ", r);
    NonSpaceAppend(a, " ");
    NonSpaceAppend(a + run, rest);
    NonSpaceAppend(a, run);
    NonSpaceOfSpaces(" ");
    NonSpaceOfSpaces(run);
  }

  /** One step of the collapse: text without white space, one space, and
      the collapse of what follows the run. */
  lemma CollapseJoin(s: string, from: nat, x: nat, e: nat, r': string)
    requires from <= x < e <= |s|
    requires forall i :: from <= i < x ==> !IsSpace(s[i])
    requires IsSpace(s[x]) && (e == |s| || !IsSpace(s[e]))
    requires NoSpaceRun(r') && (r' != [] && IsSpace(r'[0]) ==> e < |s| && IsSpace(s[e]))
    requires forall k :: 0 <= k < |r'| ==> r'[k] == ' ' || r'[k] in s[e..]
    ensures var r := s[from..x] + " " + r';
            NoSpaceRun(r) &&
            (r != [] && IsSpace(r[0]) ==> from < |s| && IsSpace(s[from])) &&
            (forall k :: 0 <= k < |r| ==> r[k] == ' ' || r[k] in s[from..])
  {
    var a := s[from..x];
    var r := a + " " + r';
    forall k | 0 <= k < |r| - 1 ensures !(IsSpace(r[k]) && IsSpace(r[k + 1])) {
      if k < |a| {
        assert r[k] == s[from + k];
      } else if k > |a| {
        assert r[k] == r'[k - |a| - 1] && r[k + 1] == r'[k - |a|];
      } else {
        assert r[k + 1] == r'[0];
      }
    }
    forall k | 0 <= k < |r| ensures r[k] == ' ' || r[k] in s[from..] {
      if k < |a| {
        assert r[k] == s[from + k];
      } else if k > |a| {
        var c := r'[k - |a| - 1];
        assert r[k] == c;
        if c != ' ' {
          var y :| 0 <= y < |s[e..]| && s[e..][y] == c;
          assert s[from..][e - from + y] == c;
        }
      }
    }
    if a != [] {
      assert r[0] == s[from];
    }
  }

  /** A slice of a text without white-space runs has none either. */
  lemma NoSpaceRunSlice(s: string, x: nat, y: nat)
    requires x <= y <= |s| && NoSpaceRun(s)
    ensures NoSpaceRun(s[x..y])
  {
    var t := s[x..y];
    assert forall k :: 0 <= k < |t| ==> t[k] == s[x + k];
  }

  /** `.replace(/\s+/g, ' ').trim()`. */
  function Tidy(s: string): string {
    Trim(ReplaceAll(Spaces, s, " ", 0))
  }

  /** A tidied text is the words of the text joined by single spaces. So it
      has no white space at its ends and no white-space runs, keeps every
      character of the text that is not white space, in order, and its only
      other characters are single spaces. */
  lemma TidySpec(s: string)
    ensures Tidy(s) == JoinSpace(Words(s))
    ensures Trimmed(Tidy(s)) && NoSpaceRun(Tidy(s))
    ensures NonSpace(Tidy(s)) == NonSpace(s)
    ensures forall k :: 0 <= k < |Tidy(s)| ==> Tidy(s)[k] == ' ' || Tidy(s)[k] in s
  {
    assert SpacesShaped(Spaces);
    TidyWith(Spaces, s);
    CollapseKeeps(Spaces, s, 0);
    assert s[0..] == s;
    TrimKeepsNonSpace(ReplaceAll(Spaces, s, " ", 0));
    TidyWords(s);
  }

  /** `.replace(/\s+/g, ' ').trim()` joins the words of the text by single
      spaces. */
  lemma TidyWords(s: string)
    ensures Tidy(s) == JoinSpace(Words(s))
  {
    assert SpacesShaped(Spaces);
    CollapseWords(Spaces, s, 0);
    assert s[0..] == s;
    TrimCollapsed(s);
  }

  lemma TidyWith(p: Pattern, s: string)
    requires SpacesShaped(p)
    ensures var t := Trim(ReplaceAll(p, s, " ", 0));
            Trimmed(t) && NoSpaceRun(t) && forall k :: 0 <= k < |t| ==> t[k] == ' ' || t[k] in s
  {
    var r := ReplaceAll(p, s, " ", 0);
    CollapseFrom(p, s, 0);
    assert s[0..] == s;
    assert NoSpaceRun(r) && SpacesOrFrom(r, s);
    TrimSliceKeeps(r, s);
  }

  /** Every character is a space or a character of `s`. */
  predicate SpacesOrFrom(r: string, s: string) {
    forall k :: 0 <= k < |r| ==> r[k] == ' ' || r[k] in s
  }

  /** Trimming keeps both facts about a collapsed text. */
  lemma TrimSliceKeeps(r: string, s: string)
    requires NoSpaceRun(r) && SpacesOrFrom(r, s)
    ensures Trimmed(Trim(r)) && NoSpaceRun(Trim(r)) && SpacesOrFrom(Trim(r), s)
  {
    var a := |r| - |TrimStart(r)|;
    NoSpaceRunSlice(r, a, a + |Trim(r)|);
    SliceSpacesOrFrom(r, s, a, a + |Trim(r)|);
  }

  lemma SliceSpacesOrFrom(r: string, s: string, x: nat, y: nat)
    requires x <= y <= |r| && SpacesOrFrom(r, s)
    ensures SpacesOrFrom(r[x..y], s)
  {
    forall k | 0 <= k < y - x ensures r[x..y][k] == ' ' || r[x..y][k] in s {
      assert r[x..y][k] == r[x + k];
    }
  }

  /** A bare-number match starts exactly at a digit and is never empty. */
  lemma BareNumberScan(p: Pattern, s: string, i: nat)
    requires p == BareNumber && i <= |s|
    ensures Scan(p, 0, s, i).Some? <==> i < |s| && IsDigit(s[i])
    ensures Scan(p, 0, s, i).Some? ==> i < End(Scan(p, 0, s, i).value)
  {
    var k := Take(Digit, Unbounded, s, i);
    if i < |s| && IsDigit(s[i]) {
      assert k >= 1;
      assert Skip(p, 1) == 4;
      assert Scan(p, 4, s, i + k).Some?;
      assert Scan(p, 1, s, i + k).Some?;
    }
    if Scan(p, 0, s, i).Some? {
      ScanRepeat(p, 0, s, i);
      var c := Scan(p, 0, s, i).value;
      assert Monotone(c);
      assert c[1] <= End(c);
    }
  }

  /** `.replace(/\d+(?:\.\d*)?/g, '')` from `from` on leaves no digit. */
  lemma {:induction false} StripBareNumbers(s: string, from: nat)
    requires from <= |s|
    ensures !HasDigit(ReplaceAll(BareNumber, s, "", from))
    decreases |s| - from
  {
    var r := ReplaceAll(BareNumber, s, "", from);
    var m := Search(BareNumber, s, from);
    SearchSkips(BareNumber, s, from);
    forall i | from <= i < |s| && IsDigit(s[i]) ensures m.Some? && m.value[0] <= i {
      BareNumberScan(BareNumber, s, i);
    }
    if m.Some? {
      var b := m.value;
      BareNumberScan(BareNumber, s, b[0]);
      var a := s[from..b[0]];
      var r' := ReplaceAll(BareNumber, s, "", End(b));
      assert r == a + "" + r';
      StripBareNumbers(s, End(b));
      forall k | 0 <= k < |r| ensures !IsDigit(r[k]) {
        if k < |a| {
          assert r[k] == s[from + k];
        } else {
          assert r[k] == r'[k - |a|];
        }
      }
    } else {
      forall k | 0 <= k < |r| ensures !IsDigit(r[k]) {
        assert r[k] == s[from + k];
      }
    }
  }

  /** The four strip passes of the name, in their order: dollar amounts
      with their sign, amounts with "dollar(s)", amounts with "cent(s)",
      then every remaining number. */
  function StripAmounts(text: string): string {
    var noSigned := ReplaceAll(DollarAmount, text, "", 0);
    var noDollars := ReplaceAll(NumberDollars, noSigned, "", 0);
    var noCents := ReplaceAll(NumberCents, noDollars, "", 0);
    ReplaceAll(BareNumber, noCents, "", 0)
  }

  /* ---------- createSpokenItem ---------- */

  /** `parseInt` of the two groups of a dollars-and-cents match, as dollars
      plus cents over a hundred. */
  function PhraseValue(text: string, b: seq<nat>): (v: real)
    requires Accepts(DollarsAndCents, 0, text, b)
    ensures v >= 0.0
  {
    DollarsAndCentsParts(text, b);
    DigitsValue(text[b[0]..b[1]]) as real + DigitsValue(text[b[15]..b[16]]) as real / 100.0
  }

  /** `createSpokenItem`. */
  function CreateSpokenItem(text: string): SpokenItem {
    match Search(DollarsAndCents, text, 0)
    case Some(b) =>
      DollarsAndCentsCommitted();
      ScanSound(DollarsAndCents, text, b[0]);
      SpokenItem(Tidy(ReplaceAll(DollarsAndCents, text, "", 0)), Some(PhraseValue(text, b)))
    case None =>
      SpokenItem(Tidy(StripAmounts(text)), SpokenPriceOf(text))
  }

  /** On both paths the name has no white space at its ends and no runs of
      white space. */
  lemma SpokenNameTidy(text: string)
    ensures Trimmed(CreateSpokenItem(text).name) && NoSpaceRun(CreateSpokenItem(text).name)
  {
    if Search(DollarsAndCents, text, 0).Some? {
      TidySpec(ReplaceAll(DollarsAndCents, text, "", 0));
    } else {
      TidySpec(StripAmounts(text));
    }
  }

  /** With a dollars-and-cents phrase, the price is the dollars plus the
      cents over a hundred of the leftmost phrase, the match the
      backtracking matcher picks there; the name is the words of the text
      between the phrases, joined by single spaces. */
  lemma PhrasePath(text: string)
    requires Search(DollarsAndCents, text, 0).Some?
    ensures var b := Search(DollarsAndCents, text, 0).value;
            Accepts(DollarsAndCents, 0, text, b) && Bt(DollarsAndCents, 0, text, b[0]) == Some(b) &&
            (forall c :: c != [] && c[0] < b[0] ==> !Accepts(DollarsAndCents, 0, text, c))
    ensures var b := Search(DollarsAndCents, text, 0).value;
            |b| == 23 && b[0] < b[1] <= b[15] < b[16] <= |text| &&
            AllDigits(text[b[0]..b[1]]) && AllDigits(text[b[15]..b[16]]) &&
            CreateSpokenItem(text).price.Some? &&
            CreateSpokenItem(text).price.value ==
              DigitsValue(text[b[0]..b[1]]) as real + DigitsValue(text[b[15]..b[16]]) as real / 100.0
    ensures NonSpace(CreateSpokenItem(text).name) == NonSpace(Gaps(text, 0, Cuts(DollarsAndCents, text, 0)))
    ensures CreateSpokenItem(text).name == JoinSpace(Words(Gaps(text, 0, Cuts(DollarsAndCents, text, 0))))
  {
    DollarsAndCentsCommitted();
    SearchIsLeftmost(DollarsAndCents, text, 0);
    PhrasePrice(text);
    PhraseName(text);
  }

  /** With a dollars-and-cents phrase, the name is what lies between the
      phrases, tidied: the words there, joined by single spaces. So every
      character outside the phrases that is not white space, digits
      included, is kept in order. */
  lemma PhraseName(text: string)
    requires Search(DollarsAndCents, text, 0).Some?
    ensures var cs := Cuts(DollarsAndCents, text, 0);
            cs != [] && NonSpace(CreateSpokenItem(text).name) == NonSpace(Gaps(text, 0, cs))
    ensures CreateSpokenItem(text).name == JoinSpace(Words(Gaps(text, 0, Cuts(DollarsAndCents, text, 0))))
  {
    PhraseItemName(text);
    CutsFound(DollarsAndCents, text, 0);
    TidyGaps(DollarsAndCents, text);
    ReplaceAllCuts(DollarsAndCents, text, 0);
    TidyWords(ReplaceAll(DollarsAndCents, text, "", 0));
  }

  /** The stretches cut out of the name are dollars-and-cents phrases. */
  lemma PhraseCuts(text: string)
    ensures var cs := Cuts(DollarsAndCents, text, 0);
            forall k :: 0 <= k < |cs| ==>
              exists b :: Accepts(DollarsAndCents, 0, text, b) && b[0] == cs[k].start && End(b) == cs[k].end
  {
    DollarsAndCentsCommitted();
    CutsAccepted(DollarsAndCents, text, 0);
  }

  lemma PhraseItemName(text: string)
    requires Search(DollarsAndCents, text, 0).Some?
    ensures CreateSpokenItem(text).name == Tidy(ReplaceAll(DollarsAndCents, text, "", 0))
  {
  }

  /** A strip pass followed by tidying keeps what lies between the
      matches, less its white space. */
  lemma TidyGaps(p: Pattern, s: string)
    ensures NonSpace(Tidy(ReplaceAll(p, s, "", 0))) == NonSpace(Gaps(s, 0, Cuts(p, s, 0)))
  {
    ReplaceAllCuts(p, s, 0);
    TidySpec(ReplaceAll(p, s, "", 0));
  }

  lemma PhrasePrice(text: string)
    requires Search(DollarsAndCents, text, 0).Some?
    ensures var b := Search(DollarsAndCents, text, 0).value;
            |b| == 23 && b[0] < b[1] <= b[15] < b[16] <= |text| &&
            AllDigits(text[b[0]..b[1]]) && AllDigits(text[b[15]..b[16]]) &&
            CreateSpokenItem(text).price.Some? &&
            CreateSpokenItem(text).price.value ==
              DigitsValue(text[b[0]..b[1]]) as real + DigitsValue(text[b[15]..b[16]]) as real / 100.0
  {
    var b := Search(DollarsAndCents, text, 0).value;
    DollarsAndCentsCommitted();
    ScanSound(DollarsAndCents, text, b[0]);
    DollarsAndCentsParts(text, b);
    assert CreateSpokenItem(text).price == Some(PhraseValue(text, b));
    assert PhraseValue(text, b) == DigitsValue(text[b[0]..b[1]]) as real + DigitsValue(text[b[15]..b[16]]) as real / 100.0;
  }

  /** Without a dollars-and-cents phrase, the price is the longest numeral
      at the first digit, none if there is no digit; the name is the words
      left by the strip passes, joined by single spaces, and no digit is
      left in it. */
  lemma NumberPath(text: string)
    requires Search(DollarsAndCents, text, 0).None?
    ensures forall c :: c != [] && c[0] <= |text| ==> !Accepts(DollarsAndCents, 0, text, c)
    ensures !HasDigit(CreateSpokenItem(text).name)
    ensures CreateSpokenItem(text).name == JoinSpace(Words(StripAmounts(text)))
    ensures CreateSpokenItem(text).price.Some? <==> HasDigit(text)
    ensures HasDigit(text) ==>
              var d := FirstDigit(text);
              var e := NumeralEnd(text, d);
              IsNumeral(text[d..e]) && CreateSpokenItem(text).price == Some(NumeralValue(text[d..e]))
  {
    DollarsAndCentsCommitted();
    SearchIsLeftmost(DollarsAndCents, text, 0);
    SpokenPriceSpec(text);
    NumberPathName(text);
    TidyWords(StripAmounts(text));
  }

  lemma NumberPathName(text: string)
    requires Search(DollarsAndCents, text, 0).None?
    ensures !HasDigit(CreateSpokenItem(text).name)
  {
    StripAmountsNoDigit(text);
    TidyNoDigit(StripAmounts(text));
  }

  /** The last strip pass leaves no digit. */
  lemma StripAmountsNoDigit(text: string)
    ensures !HasDigit(StripAmounts(text))
  {
    var noSigned := ReplaceAll(DollarAmount, text, "", 0);
    var noDollars := ReplaceAll(NumberDollars, noSigned, "", 0);
    var noCents := ReplaceAll(NumberCents, noDollars, "", 0);
    StripBareNumbers(noCents, 0);
  }

  /** Tidying brings in no digit. */
  lemma TidyNoDigit(s: string)
    requires !HasDigit(s)
    ensures !HasDigit(Tidy(s))
  {
    TidySpec(s);
    var t := Tidy(s);
    forall k | 0 <= k < |t| ensures !IsDigit(t[k]) {
      if t[k] != ' ' {
        var x :| 0 <= x < |s| && s[x] == t[k];
      }
    }
  }

  /** A phrase without a digit has no price and keeps its words, tidied. */
  lemma NoNumberItem(text: string)
    requires !HasDigit(text)
    ensures CreateSpokenItem(text) == SpokenItem(Tidy(text), None)
  {
    DollarsAndCentsCommitted();
    CleanupCommitted();
    SearchNeedsClass(DollarsAndCents, text, 0, 0);
    NoDigitKept(DollarAmount, text, 2);
    NoDigitKept(NumberDollars, text, 0);
    NoDigitKept(NumberCents, text, 0);
    NoDigitKept(BareNumber, text, 0);
    assert StripAmounts(text) == text;
    SpokenPriceSpec(text);
  }

  /** A strip pass that needs a digit leaves a text without one as it is. */
  lemma NoDigitKept(p: Pattern, s: string, e: nat)
    requires Committed(p, 0) && e < |p| && p[e] == Some1(Digit) && Outside(p, 0, e) && !HasDigit(s)
    ensures ReplaceAll(p, s, "", 0) == s
  {
    SearchNeedsClass(p, s, 0, e);
    assert s[0..] == s;
  }

  /** A phrase of lower-case letters alone is its own name, with no price. */
  lemma WordItem(s: string)
    requires forall k :: 0 <= k < |s| ==> 'a' <= s[k] <= 'z'
    ensures CreateSpokenItem(s) == SpokenItem(s, None)
  {
    LettersOnly(s);
    NoNumberItem(s);
    TidyPlain(s);
  }

  lemma LettersOnly(s: string)
    requires forall k :: 0 <= k < |s| ==> 'a' <= s[k] <= 'z'
    ensures !HasDigit(s) && forall k :: 0 <= k < |s| ==> !IsSpace(s[k])
  {
    forall k | 0 <= k < |s| ensures !IsDigit(s[k]) && !IsSpace(s[k]) { }
  }

  /** "apple" gives the item "apple" without a price. */
  lemma AppleHasNoPrice()
    ensures CreateSpokenItem("apple") == SpokenItem("apple", None)
  {
    WordItem("apple");
  }

  /** A text without white space is already tidy. */
  lemma TidyPlain(s: string)
    requires forall k :: 0 <= k < |s| ==> !IsSpace(s[k])
    ensures Tidy(s) == s
  {
    CleanupCommitted();
    SearchNeedsClass(Spaces, s, 0, 0);
    assert s[0..] == s;
    TrimOfTrimmed(s);
  }

  lemma MilkNumeral()
    ensures HasDigit("milk $3.99") && FirstDigit("milk $3.99") == 6 && NumeralEnd("milk $3.99", 6) == 10
    ensures "milk $3.99"[6..10] == "3.99" && IsNumeral("3.99") && NumeralValue("3.99") == 3.99
  {
    MilkFirstDigit();
    MilkNumeralEnd();
    ThreeNinetyNine();
  }

  lemma MilkFirstDigit()
    ensures HasDigit("milk $3.99") && FirstDigit("milk $3.99") == 6
  {
    assert IsDigit("milk $3.99"[6]);
  }

  lemma MilkNumeralEnd()
    ensures NumeralEnd("milk $3.99", 6) == 10 && "milk $3.99"[6..10] == "3.99"
  {
    var t := "milk $3.99";
    assert Span(Digit, t, 6) == 1;
    assert Span(Digit, t, 8) == 2;
  }

  lemma ThreeNinetyNine()
    ensures IsNumeral("3.99") && NumeralValue("3.99") == 3.99
  {
    assert IndexOf("3.99", '.') == 1;
    assert "3.99"[..1] == "3" && "3.99"[2..] == "99";
    Hundredths("3", "99");
  }
}
