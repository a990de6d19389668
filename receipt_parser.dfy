/** The receipt-text parser of utils/ocrProcessor.ts: the helpers that pull
    a price, a date or a total out of one line, and the loop that turns the
    recognised text into items, a total and a date. The text recognition
    itself is an input. */
module ReceiptParser {
  import opened Wrappers
  import opened JsString
  import opened Numerals
  import opened Regex
  import opened Categories

  datatype Item = Item(name: string, price: Option<real>, category: Option<string>)

  datatype ProcessedReceipt = ProcessedReceipt(items: seq<Item>, total: Option<real>, date: Option<string>)

  /* ---------- the regular expressions ---------- */

  /** `/\$?\d+\.\d{2}/` */
  const StrictPrice: Pattern := [Maybe(Chr('$')), Some1(Digit), One('.'), Repeat(Digit, 2, AtMost(2))]

  /** `/\d{1,2}[-/]\d{1,2}[-/]\d{2,4}/`; the loop's `dateRegex` is the same
      pattern wrapped in one capture group, so its group 1 is its whole
      match. */
  const DateToken: Pattern :=
    [Repeat(Digit, 1, AtMost(2)), Repeat(Either('-', '/'), 1, AtMost(1)),
     Repeat(Digit, 1, AtMost(2)), Repeat(Either('-', '/'), 1, AtMost(1)),
     Repeat(Digit, 2, AtMost(4))]

  /** `/\$?\s*(\d+\.?\d*)/`, group 1 over elements 2..4. */
  const LoosePrice: Pattern := [Maybe(Chr('$')), Many(Space), Some1(Digit), Maybe(Chr('.')), Many(Digit)]

  /** A letter under the `i` flag: its two ASCII cases. */
  function Letter(lower: char, upper: char): Elem {
    Repeat(Either(lower, upper), 1, AtMost(1))
  }

  /** `/total:?\s*\$?\s*(\d+\.?\d*)/i`, group 1 over elements 9..11. Under
      the `i` flag without `u`, a letter matches only its ASCII case
      variants. */
  const TotalLine: Pattern :=
    [Letter('t', 'T'), Letter('o', 'O'), Letter('t', 'T'), Letter('a', 'A'), Letter('l', 'L'),
     Maybe(Chr(':')), Many(Space), Maybe(Chr('$')), Many(Space),
     Some1(Digit), Maybe(Chr('.')), Many(Digit)]

  lemma StrictPriceCommitted()
    ensures Committed(StrictPrice, 0)
  {
  }

  lemma DateTokenCommitted()
    ensures Committed(DateToken, 0)
  {
  }

  lemma LoosePriceCommitted()
    ensures Committed(LoosePrice, 0)
  {
  }

  lemma TotalLineCommitted()
    ensures Committed(TotalLine, 0)
  {
    assert Committed(TotalLine, 6);
    assert Committed(TotalLine, 3);
  }

  /* ---------- extractPrice ---------- */

  /** The parts of a `\$?\d+\.\d{2}` match: an optional dollar sign, the
      whole-dollar digits, the point and two cent digits. */
  lemma StrictPriceParts(text: string, b: seq<nat>)
    requires Accepts(StrictPrice, 0, text, b)
    ensures |b| == 5 && b[0] <= b[1] < b[2] && b[3] == b[2] + 1 && b[4] == b[3] + 2 && b[4] <= |text|
    ensures b[1] - b[0] <= 1 && (b[1] > b[0] ==> text[b[0]] == '$')
    ensures AllDigits(text[b[1]..b[2]]) && text[b[2]] == '.' && AllDigits(text[b[3]..b[4]])
  {
    assert Outside(StrictPrice, 0, 3);
    AcceptsElem(StrictPrice, 0, text, b, 0);
    AcceptsElem(StrictPrice, 0, text, b, 1);
    AcceptsElem(StrictPrice, 0, text, b, 2);
    AcceptsElem(StrictPrice, 0, text, b, 3);
    DigitRun(text, b[1], b[2]);
    DigitRun(text, b[3], b[4]);
  }

  /** Dropping the first dollar sign of such a match leaves the numeral
      `digits.dd`: dollars plus cents over a hundred. */
  lemma StrictPriceValue(text: string, b: seq<nat>)
    requires Accepts(StrictPrice, 0, text, b)
    ensures |b| == 5 && b[0] <= b[1] <= b[2] <= b[3] <= b[4] <= |text|
    ensures AllDigits(text[b[1]..b[2]]) && AllDigits(text[b[3]..b[4]]) && b[4] - b[3] == 2
    ensures IsNumeral(RemoveFirst(text[b[0]..b[4]], '$'))
    ensures NumeralValue(RemoveFirst(text[b[0]..b[4]], '$')) == PointValue(text[b[1]..b[2]], text[b[3]..b[4]])
  {
    StrictPriceParts(text, b);
    var m := text[b[0]..b[4]];
    var a, f := text[b[1]..b[2]], text[b[3]..b[4]];
    var t := a + "." + f;
    assert text[b[1]..b[4]] == t;
    if b[1] > b[0] {
      assert m[0] == '$';
      IndexOfAt(m, '$', 0);
      assert m[1..] == t;
    } else {
      assert m == t;
      assert '$' !in m by {
        forall k | 0 <= k < |m| ensures m[k] != '$' {
          assert IsDigit(text[b[1] + k]) || text[b[1] + k] == '.';
        }
      }
    }
    assert RemoveFirst(m, '$') == t;
    PointedNumeral(a, f);
  }

  /** `extractPrice`: the number of the first `$?digits.dd` in the text. */
  function ExtractPrice(text: string): Option<real> {
    match Search(StrictPrice, text, 0)
    case None => None
    case Some(b) =>
      StrictPriceCommitted();
      ScanSound(StrictPrice, text, b[0]);
      StrictPriceValue(text, b);
      Some(NumeralValue(RemoveFirst(text[b[0]..End(b)], '$')))
  }

  /** `extractPrice` finds a price exactly when some `$?digits.dd` occurs,
      and then it is the value of the leftmost occurrence, the match the
      backtracking matcher picks there: its dollars plus its two cent digits
      over a hundred. */
  lemma ExtractPriceSpec(text: string)
    ensures ExtractPrice(text).None? <==>
              forall c :: c != [] && c[0] <= |text| ==> !Accepts(StrictPrice, 0, text, c)
    ensures ExtractPrice(text).Some? ==>
              var b := Search(StrictPrice, text, 0).value;
              Accepts(StrictPrice, 0, text, b) && Bt(StrictPrice, 0, text, b[0]) == Some(b) &&
              (forall c :: c != [] && c[0] < b[0] ==> !Accepts(StrictPrice, 0, text, c)) &&
              AllDigits(text[b[1]..b[2]]) && AllDigits(text[b[3]..b[4]]) && b[4] - b[3] == 2 &&
              ExtractPrice(text).value == PointValue(text[b[1]..b[2]], text[b[3]..b[4]]) &&
              ExtractPrice(text).value ==
                DigitsValue(text[b[1]..b[2]]) as real + DigitsValue(text[b[3]..b[4]]) as real / 100.0
  {
    StrictPriceCommitted();
    SearchIsLeftmost(StrictPrice, text, 0);
    var m := Search(StrictPrice, text, 0);
    if m.Some? {
      ExtractPriceFound(text, m.value);
    }
  }

  /** The value found at a match `b`. */
  lemma ExtractPriceFound(text: string, b: seq<nat>)
    requires Search(StrictPrice, text, 0) == Some(b) && Accepts(StrictPrice, 0, text, b)
    ensures |b| == 5 && b[0] <= b[1] <= b[2] <= b[3] <= b[4] <= |text|
    ensures AllDigits(text[b[1]..b[2]]) && AllDigits(text[b[3]..b[4]]) && b[4] - b[3] == 2
    ensures ExtractPrice(text) == Some(PointValue(text[b[1]..b[2]], text[b[3]..b[4]]))
    ensures PointValue(text[b[1]..b[2]], text[b[3]..b[4]]) ==
              DigitsValue(text[b[1]..b[2]]) as real + DigitsValue(text[b[3]..b[4]]) as real / 100.0
  {
    StrictPriceValue(text, b);
    Hundredths(text[b[1]..b[2]], text[b[3]..b[4]]);
  }

  /** A price is never negative. */
  lemma ExtractPriceNonNegative(text: string)
    ensures ExtractPrice(text).Some? ==> ExtractPrice(text).value >= 0.0
  {
  }

  /* ---------- extractDate ---------- */

  /** `extractDate`, and the loop's `dateRegex` group 1: the first date
      token of the text. */
  function ExtractDate(text: string): Option<string> {
    match Search(DateToken, text, 0)
    case None => None
    case Some(b) => Some(text[b[0]..End(b)])
  }

  /** The parts of a date-token match. */
  lemma DateTokenParts(text: string, b: seq<nat>)
    requires Accepts(DateToken, 0, text, b)
    ensures |b| == 6 && b[5] <= |text|
    ensures 1 <= b[1] - b[0] <= 2 && b[2] == b[1] + 1 && 1 <= b[3] - b[2] <= 2 &&
            b[4] == b[3] + 1 && 2 <= b[5] - b[4] <= 4
    ensures (text[b[1]] == '-' || text[b[1]] == '/') && (text[b[3]] == '-' || text[b[3]] == '/')
    ensures AllDigits(text[b[0]..b[1]]) && AllDigits(text[b[2]..b[3]]) && AllDigits(text[b[4]..b[5]])
  {
    assert Outside(DateToken, 0, 4);
    AcceptsElem(DateToken, 0, text, b, 0);
    AcceptsElem(DateToken, 0, text, b, 1);
    AcceptsElem(DateToken, 0, text, b, 2);
    AcceptsElem(DateToken, 0, text, b, 3);
    AcceptsElem(DateToken, 0, text, b, 4);
    DigitRun(text, b[0], b[1]);
    DigitRun(text, b[2], b[3]);
    DigitRun(text, b[4], b[5]);
  }

  /** A date is found exactly when a date token occurs, and it is the text
      of the leftmost one: one or two digits, `-` or `/`, one or two digits,
      `-` or `/`, two to four digits. */
  lemma ExtractDateSpec(text: string)
    ensures ExtractDate(text).None? <==>
              forall c :: c != [] && c[0] <= |text| ==> !Accepts(DateToken, 0, text, c)
    ensures ExtractDate(text).Some? ==>
              var b := Search(DateToken, text, 0).value;
              Accepts(DateToken, 0, text, b) && Bt(DateToken, 0, text, b[0]) == Some(b) &&
              (forall c :: c != [] && c[0] < b[0] ==> !Accepts(DateToken, 0, text, c)) &&
              ExtractDate(text).value == text[b[0]..b[5]] && |ExtractDate(text).value| >= 6
  {
    DateTokenCommitted();
    SearchIsLeftmost(DateToken, text, 0);
    var m := Search(DateToken, text, 0);
    if m.Some? {
      DateTokenParts(text, m.value);
    }
  }

  /* ---------- the loop's total and price branches ---------- */

  /** The shape of `totalRegex`, so that its parts are read off without
      unfolding the literal pattern. */
  predicate TotalShaped(p: Pattern) {
    |p| == 12 && p[0] == Letter('t', 'T') && p[1] == Letter('o', 'O') &&
    p[2] == Letter('t', 'T') && p[3] == Letter('a', 'A') && p[4] == Letter('l', 'L') &&
    p[5] == Maybe(Chr(':')) && p[6] == Many(Space) && p[7] == Maybe(Chr('$')) && p[8] == Many(Space) &&
    p[9] == Some1(Digit) && p[10] == Maybe(Chr('.')) && p[11] == Many(Digit)
  }

  /** The parts of a `totalRegex` match: the word "total" in any ASCII case
      at its start, and group 1 a numeral. */
  lemma TotalLineParts(line: string, b: seq<nat>)
    requires Accepts(TotalLine, 0, line, b)
    ensures |b| == 13 && b[0] + 5 == b[5] && b[9] < b[12] <= |line|
    ensures ToLowerCase(line[b[0]..b[5]]) == "total"
    ensures IsNumeral(line[b[9]..b[12]])
  {
    assert TotalShaped(TotalLine);
    TotalWord(TotalLine, line, b);
    TotalNumber(TotalLine, line, b);
  }

  lemma TotalWord(p: Pattern, line: string, b: seq<nat>)
    requires TotalShaped(p) && Accepts(p, 0, line, b)
    ensures |b| == 13 && b[0] + 5 == b[5] <= |line| && ToLowerCase(line[b[0]..b[5]]) == "total"
  {
    assert Outside(p, 0, 1) && Outside(p, 0, 2) && Outside(p, 0, 3) && Outside(p, 0, 4);
    LetterAt(p, line, b, 0, 't', 'T');
    LetterAt(p, line, b, 1, 'o', 'O');
    LetterAt(p, line, b, 2, 't', 'T');
    LetterAt(p, line, b, 3, 'a', 'A');
    LetterAt(p, line, b, 4, 'l', 'L');
    var lw := ToLowerCase(line[b[0]..b[5]]);
    assert lw == [Lower(line[b[0]]), Lower(line[b[1]]), Lower(line[b[2]]), Lower(line[b[3]]), Lower(line[b[4]])];
  }

  /** A letter element of a match took one character, in either case. */
  lemma LetterAt(p: Pattern, line: string, b: seq<nat>, e: nat, lo: char, up: char)
    requires e < |p| && p[e] == Letter(lo, up) && Outside(p, 0, e) && Accepts(p, 0, line, b)
    requires 'a' <= lo <= 'z' && up as int == lo as int - 32
    ensures b[e] < |line| && b[e + 1] == b[e] + 1 && Lower(line[b[e]]) == lo
  {
    AcceptsElem(p, 0, line, b, e);
    assert InClass(Either(lo, up), line[b[e]]);
  }

  lemma TotalNumber(p: Pattern, line: string, b: seq<nat>)
    requires TotalShaped(p) && Accepts(p, 0, line, b)
    ensures |b| == 13 && b[9] < b[12] <= |line| && IsNumeral(line[b[9]..b[12]])
  {
    TotalDigits(p, line, b);
    TotalFraction(p, line, b);
    SegmentsNumeral(line, b[9], b[10], b[11], b[12]);
  }

  /** At most one point, then any number of digits. */
  lemma TotalFraction(p: Pattern, line: string, b: seq<nat>)
    requires TotalShaped(p) && Accepts(p, 0, line, b)
    ensures |b| == 13 && b[10] <= b[11] <= b[12] <= |line| && b[11] - b[10] <= 1
    ensures forall k :: b[10] <= k < b[11] ==> line[k] == '.'
    ensures forall k :: b[11] <= k < b[12] ==> IsDigit(line[k])
  {
    AcceptsElem(p, 0, line, b, 10);
    AcceptsElem(p, 0, line, b, 11);
  }

  /** The integer part of the amount is a non-empty run of digits. */
  lemma TotalDigits(p: Pattern, line: string, b: seq<nat>)
    requires TotalShaped(p) && Accepts(p, 0, line, b)
    ensures |b| == 13 && b[9] < b[10] <= |line|
    ensures forall k :: b[9] <= k < b[10] ==> IsDigit(line[k])
  {
    assert Outside(p, 0, 9);
    AcceptsElem(p, 0, line, b, 9);
  }

  /** `totalMatch ? parseFloat(totalMatch[1]) : none`. */
  function TotalAmount(line: string): Option<real> {
    match Search(TotalLine, line, 0)
    case None => None
    case Some(b) =>
      TotalLineCommitted();
      ScanSound(TotalLine, line, b[0]);
      TotalLineParts(line, b);
      Some(NumeralValue(line[b[9]..b[12]]))
  }

  /** A line yields a total exactly when "total", in any ASCII case and
      anywhere in the line, is followed by an optional colon, spaces, an
      optional dollar sign, spaces and a number; the amount is the number
      of the leftmost such match. */
  lemma TotalAmountSpec(line: string)
    ensures TotalAmount(line).None? <==>
              forall c :: c != [] && c[0] <= |line| ==> !Accepts(TotalLine, 0, line, c)
    ensures TotalAmount(line).Some? ==>
              var b := Search(TotalLine, line, 0).value;
              Accepts(TotalLine, 0, line, b) && Bt(TotalLine, 0, line, b[0]) == Some(b) &&
              (forall c :: c != [] && c[0] < b[0] ==> !Accepts(TotalLine, 0, line, c)) &&
              ToLowerCase(line[b[0]..b[5]]) == "total" &&
              IsNumeral(line[b[9]..b[12]]) && TotalAmount(line).value == NumeralValue(line[b[9]..b[12]])
  {
    TotalLineCommitted();
    SearchIsLeftmost(TotalLine, line, 0);
    var m := Search(TotalLine, line, 0);
    if m.Some? {
      TotalLineParts(line, m.value);
    }
  }

  /** The parts of a `priceRegex` match: group 1 is a numeral, and the match
      starts at most a dollar sign and white space before it. */
  lemma LoosePriceParts(line: string, b: seq<nat>)
    requires Accepts(LoosePrice, 0, line, b)
    ensures |b| == 6 && b[0] <= b[1] <= b[2] < b[3] <= b[4] <= b[5] <= |line|
    ensures b[1] - b[0] <= 1 && (b[1] > b[0] ==> line[b[0]] == '$') && AllIn(Space, line, b[1], b[2])
    ensures IsNumeral(line[b[2]..b[5]])
  {
    AcceptsElem(LoosePrice, 0, line, b, 0);
    AcceptsElem(LoosePrice, 0, line, b, 1);
    AcceptsElem(LoosePrice, 0, line, b, 2);
    AcceptsElem(LoosePrice, 0, line, b, 3);
    AcceptsElem(LoosePrice, 0, line, b, 4);
    SegmentsNumeral(line, b[2], b[3], b[4], b[5]);
  }

  /** `priceMatch ? parseFloat(priceMatch[1]) : none`. */
  function LinePrice(line: string): Option<real> {
    match Search(LoosePrice, line, 0)
    case None => None
    case Some(b) =>
      LoosePriceCommitted();
      ScanSound(LoosePrice, line, b[0]);
      LoosePriceParts(line, b);
      Some(NumeralValue(line[b[2]..b[5]]))
  }

  /** A line has a price exactly when the loose pattern matches somewhere,
      and the price is group 1 of the leftmost match. */
  lemma LinePriceSpec(line: string)
    ensures LinePrice(line).None? <==>
              forall c :: c != [] && c[0] <= |line| ==> !Accepts(LoosePrice, 0, line, c)
    ensures LinePrice(line).Some? ==>
              var b := Search(LoosePrice, line, 0).value;
              Accepts(LoosePrice, 0, line, b) && Bt(LoosePrice, 0, line, b[0]) == Some(b) &&
              (forall c :: c != [] && c[0] < b[0] ==> !Accepts(LoosePrice, 0, line, c)) &&
              IsNumeral(line[b[2]..b[5]]) && LinePrice(line).value == NumeralValue(line[b[2]..b[5]])
  {
    LoosePriceCommitted();
    SearchIsLeftmost(LoosePrice, line, 0);
    var m := Search(LoosePrice, line, 0);
    if m.Some? {
      LoosePriceParts(line, m.value);
    }
  }

  /** The loose pattern needs nothing but a digit: a line has a price
      exactly when it contains one. */
  lemma LinePriceIffDigit(line: string)
    ensures LinePrice(line).Some? <==> HasDigit(line)
  {
    if LinePrice(line).Some? {
      PricedLineHasDigit(line);
    } else if HasDigit(line) {
      var k :| 0 <= k < |line| && IsDigit(line[k]);
      DigitIsPrice(line, k);
      LinePriceSpec(line);
    }
  }

  lemma PricedLineHasDigit(line: string)
    requires LinePrice(line).Some?
    ensures HasDigit(line)
  {
    var b := Search(LoosePrice, line, 0).value;
    LoosePriceCommitted();
    ScanSound(LoosePrice, line, b[0]);
    LoosePriceParts(line, b);
    assert IsDigit(line[b[2]]);
  }

  /** `line.replace(priceRegex, '')` cuts out exactly the match whose group
      gave the price: the dollar sign, the spaces and the number. */
  lemma LineNameCut(line: string)
    ensures LinePrice(line).None? ==> ReplaceFirst(LoosePrice, line, "") == line
    ensures LinePrice(line).Some? ==>
              var b := Search(LoosePrice, line, 0).value;
              |b| == 6 && b[5] <= |line| && ReplaceFirst(LoosePrice, line, "") == line[..b[0]] + line[b[5]..]
  {
    ReplaceFirstCut(LoosePrice, line);
    var m := Search(LoosePrice, line, 0);
    if m.Some? {
      LoosePriceCommitted();
      ScanSound(LoosePrice, line, m.value[0]);
      LoosePriceParts(line, m.value);
    }
  }

  /** A single digit is already a match of the loose price pattern. */
  lemma DigitIsPrice(line: string, k: nat)
    requires k < |line| && IsDigit(line[k])
    ensures Accepts(LoosePrice, 0, line, [k, k, k, k + 1, k + 1, k + 1])
  {
    var c := [k, k, k, k + 1, k + 1, k + 1];
    assert Accepts(LoosePrice, 5, line, c[5..]);
    assert Accepts(LoosePrice, 4, line, c[4..]);
    assert Accepts(LoosePrice, 3, line, c[3..]);
    assert AllIn(Digit, line, k, k + 1);
    assert Accepts(LoosePrice, 2, line, c[2..]);
    assert Accepts(LoosePrice, 1, line, c[1..]);
  }

  /* ---------- one item line ---------- */

  /** A category as the item stores it: the table key, or nothing. */
  function LabelOf(c: Option<Category>): Option<string> {
    match c
    case None => None
    case Some(k) => Some(Label(k))
  }

  /** The item branch on one line: with a price, the name is the line with
      the price match cut out and trimmed; an empty name gives no item. */
  function ItemOf(line: string): Option<Item> {
    match LinePrice(line)
    case None => None
    case Some(price) =>
      var name := Trim(ReplaceFirst(LoosePrice, line, ""));
      if name == [] then None else Some(Item(name, Some(price), LabelOf(Categorise(name))))
  }

  /** The labels an item can carry: the five keyed categories, never
      "Other". */
  predicate KeyedLabel(s: string) {
    s == "Produce" || s == "Dairy" || s == "Meat" || s == "Cleaning" || s == "Pantry"
  }

  /** An item as the loop pushes it: a non-empty trimmed name, a
      non-negative price, and a category that is either missing or the
      first keyed category with a keyword in the lower-cased name. */
  predicate WellFormed(it: Item) {
    it.name != [] && Trimmed(it.name) && it.price.Some? && it.price.value >= 0.0 &&
    (it.category.None? <==> Classify(ToLowerCase(it.name)) == Other) &&
    (it.category.Some? ==> KeyedLabel(it.category.value) &&
                           it.category.value == Label(Classify(ToLowerCase(it.name))))
  }

  /** A line yields an item exactly when it has a price and something is
      left of it once the first price match is cut out; the item is that
      price and that rest, and it is well formed. */
  lemma ItemOfSpec(line: string)
    ensures ItemOf(line).Some? <==>
              LinePrice(line).Some? && Trim(ReplaceFirst(LoosePrice, line, "")) != []
    ensures ItemOf(line).Some? ==>
              var b := Search(LoosePrice, line, 0).value;
              |b| == 6 && b[5] <= |line| &&
              ItemOf(line).value.name == Trim(line[..b[0]] + line[b[5]..]) &&
              ItemOf(line).value.price == LinePrice(line) &&
              WellFormed(ItemOf(line).value)
  {
    LineNameCut(line);
    if ItemOf(line).Some? {
      var name := Trim(ReplaceFirst(LoosePrice, line, ""));
      LinePriceNonNegative(line);
      NewItemWellFormed(name, LinePrice(line).value);
    }
  }

  /** A price read off a line is never negative. */
  lemma LinePriceNonNegative(line: string)
    ensures LinePrice(line).Some? ==> LinePrice(line).value >= 0.0
  {
  }

  /** The item the loop builds from a non-empty trimmed name and a
      non-negative price is well formed. */
  lemma NewItemWellFormed(name: string, price: real)
    requires name != [] && Trimmed(name) && price >= 0.0
    ensures WellFormed(Item(name, Some(price), LabelOf(Categorise(name))))
  {
    var c := Classify(ToLowerCase(name));
    assert c != Other ==> KeyedLabel(Label(c));
  }

  /* ---------- the lines the loop sees ---------- */

  /** `.map(line => line.trim())`. */
  function TrimAll(parts: seq<string>): (r: seq<string>)
    ensures |r| == |parts| && forall k :: 0 <= k < |parts| ==> r[k] == Trim(parts[k])
  {
    if parts == [] then [] else [Trim(parts[0])] + TrimAll(parts[1..])
  }

  /** `.filter(Boolean)` on strings: drops the empty ones. */
  function NonEmpty(parts: seq<string>): (r: seq<string>)
    ensures forall x :: x in r <==> x in parts && x != []
  {
    if parts == [] then []
    else if parts[0] == [] then NonEmpty(parts[1..])
    else [parts[0]] + NonEmpty(parts[1..])
  }

  /** The filter keeps order: filtering a concatenation filters each
      part. */
  lemma {:induction false} NonEmptyAppend(a: seq<string>, b: seq<string>)
    ensures NonEmpty(a + b) == NonEmpty(a) + NonEmpty(b)
  {
    if a != [] {
      assert (a + b)[1..] == a[1..] + b;
      NonEmptyAppend(a[1..], b);
    } else {
      assert a + b == b;
    }
  }

  /** `text.split('\n').map(line => line.trim()).filter(Boolean)`. */
  function Lines(text: string): seq<string> {
    NonEmpty(TrimAll(Split(text, '\n')))
  }

  /** The loop sees only trimmed, non-empty lines, and they are the trimmed
      non-blank pieces of the text between line breaks. */
  lemma LinesSpec(text: string)
    ensures forall k :: 0 <= k < |Lines(text)| ==> Lines(text)[k] != [] && Trimmed(Lines(text)[k])
    ensures forall x :: x in Lines(text) <==> x != [] && exists k :: 0 <= k < |Split(text, '\n')| && x == Trim(Split(text, '\n')[k])
  {
    var parts := Split(text, '\n');
    var t := TrimAll(parts);
    forall k | 0 <= k < |Lines(text)| ensures Lines(text)[k] != [] && Trimmed(Lines(text)[k]) {
      assert Lines(text)[k] in t;
    }
  }

  /* ---------- the loop, specified line by line ---------- */

  /** What each of the loop's three regular expressions gives on one line.
      None of them depends on the loop's state; only which branch is
      reached does. */
  datatype LineFields = LineFields(date: Option<string>, total: Option<real>, item: Option<Item>)

  function Fields(line: string): LineFields {
    LineFields(ExtractDate(line), TotalAmount(line), ItemOf(line))
  }

  function FieldsOf(ls: seq<string>): (fs: seq<LineFields>)
    ensures |fs| == |ls| && forall k :: 0 <= k < |ls| ==> fs[k] == Fields(ls[k])
  {
    seq(|ls|, k requires 0 <= k < |ls| => Fields(ls[k]))
  }

  /** A date token is never the empty string. */
  predicate DatesNonEmpty(fs: seq<LineFields>) {
    forall k :: 0 <= k < |fs| && fs[k].date.Some? ==> fs[k].date.value != []
  }

  lemma FieldsDatesNonEmpty(ls: seq<string>)
    ensures DatesNonEmpty(FieldsOf(ls))
  {
    forall k | 0 <= k < |ls| {
      ExtractDateSpec(ls[k]);
    }
  }

  /** `!date`: no date yet, or the empty string. */
  predicate Falsy(d: Option<string>) {
    d.None? || d.value == []
  }

  /** The date branch fires: the line has a date and none is held yet. */
  predicate TakesDate(date: Option<string>, f: LineFields) {
    f.date.Some? && Falsy(date)
  }

  /** The date the loop holds after the lines with fields `fs`. */
  function DateOf(fs: seq<LineFields>): Option<string>
    decreases |fs|
  {
    if fs == [] then None
    else
      var k := |fs| - 1;
      if TakesDate(DateOf(fs[..k]), fs[k]) then fs[k].date else DateOf(fs[..k])
  }

  /** Line `k` is consumed by the date branch. */
  predicate DateLine(fs: seq<LineFields>, k: nat)
    requires k < |fs|
  {
    TakesDate(DateOf(fs[..k]), fs[k])
  }

  /** Line `k` reaches the total branch and matches there. */
  predicate TotalLineAt(fs: seq<LineFields>, k: nat)
    requires k < |fs|
  {
    !DateLine(fs, k) && fs[k].total.Some?
  }

  /** Line `k` reaches the item branch and pushes an item. */
  predicate ItemLineAt(fs: seq<LineFields>, k: nat)
    requires k < |fs|
  {
    !DateLine(fs, k) && fs[k].total.None? && fs[k].item.Some?
  }

  /** The total the loop holds after the lines with fields `fs`. */
  function TotalOf(fs: seq<LineFields>): Option<real>
    decreases |fs|
  {
    if fs == [] then None
    else
      var k := |fs| - 1;
      if TotalLineAt(fs, k) then fs[k].total else TotalOf(fs[..k])
  }

  /** The items the loop has pushed after the lines with fields `fs`. */
  function ItemsOf(fs: seq<LineFields>): seq<Item>
    decreases |fs|
  {
    if fs == [] then []
    else
      var k := |fs| - 1;
      ItemsOf(fs[..k]) + (if ItemLineAt(fs, k) then [fs[k].item.value] else [])
  }

  /** One more line. */
  lemma Step(fs: seq<LineFields>, f: LineFields)
    ensures var fs' := fs + [f];
            var taken := TakesDate(DateOf(fs), f);
            DateOf(fs') == (if taken then f.date else DateOf(fs)) &&
            TotalOf(fs') == (if !taken && f.total.Some? then f.total else TotalOf(fs)) &&
            ItemsOf(fs') == ItemsOf(fs) + (if !taken && f.total.None? && f.item.Some? then [f.item.value] else [])
  {
    var fs' := fs + [f];
    assert fs'[..|fs|] == fs;
    assert fs'[|fs|] == f;
  }

  /** What the loop returns for a recognised text. */
  function Parsed(text: string): ProcessedReceipt {
    var fs := FieldsOf(Lines(text));
    ProcessedReceipt(ItemsOf(fs), TotalOf(fs), DateOf(fs))
  }

  /** The receipt loop of `processReceipt`, on the text the recogniser
      produced: date, then total, then item, line by line. */
  method ParseReceiptText(text: string) returns (receipt: ProcessedReceipt)
    ensures receipt == Parsed(text)
  {
    var lines := Lines(text);
    ghost var fs := FieldsOf(lines);
    var items: seq<Item> := [];
    var total: Option<real> := None;
    var date: Option<string> := None;
    for i := 0 to |lines|
      invariant items == ItemsOf(fs[..i])
      invariant total == TotalOf(fs[..i])
      invariant date == DateOf(fs[..i])
    {
      var line := lines[i];
      PrefixSnoc(fs, i);
      Step(fs[..i], fs[i]);
      ItemBranch(line);
      var dateMatch := ExtractDate(line);
      if dateMatch.Some? && Falsy(date) {
        date := dateMatch;
        continue;
      }
      var totalMatch := TotalAmount(line);
      if totalMatch.Some? {
        total := totalMatch;
        continue;
      }
      var priceMatch := LinePrice(line);
      if priceMatch.Some? {
        var name := Trim(ReplaceFirst(LoosePrice, line, ""));
        if name != [] {
          var category := InlineCategory(name);
          items := items + [Item(name, priceMatch, LabelOf(category))];
        }
      }
    }
    PrefixSnoc(fs, |fs|);
    receipt := ProcessedReceipt(items, total, date);
  }

  /** The item branch of the loop body computes `ItemOf`. */
  lemma ItemBranch(line: string)
    ensures LinePrice(line).None? ==> ItemOf(line).None?
    ensures LinePrice(line).Some? ==>
              var name := Trim(ReplaceFirst(LoosePrice, line, ""));
              (name == [] ==> ItemOf(line).None?) &&
              (name != [] ==> ItemOf(line) == Some(Item(name, LinePrice(line), LabelOf(Categorise(name)))))
  {
  }

  /** Growing a prefix by one element, and the whole prefix. */
  lemma PrefixSnoc<T>(s: seq<T>, i: nat)
    requires i <= |s|
    ensures i < |s| ==> s[..i + 1] == s[..i] + [s[i]]
    ensures s[..|s|] == s
  {
  }

  /** `processReceipt`: the recogniser's text, or the one error message
      every failure of the recognition step turns into. */
  method ProcessReceipt(recognised: Option<string>) returns (r: Result<ProcessedReceipt, string>)
    ensures recognised.None? ==> r == Failure("Failed to process receipt")
    ensures recognised.Some? ==> r == Success(Parsed(recognised.value))
  {
    if recognised.None? {
      return Failure("Failed to process receipt");
    }
    var receipt := ParseReceiptText(recognised.value);
    return Success(receipt);
  }

  /* ---------- what the loop computes ---------- */

  /** Which branch a line takes depends only on the lines before it. */
  lemma PrefixBranches(fs: seq<LineFields>, m: nat, k: nat)
    requires k < m <= |fs|
    ensures DateLine(fs[..m], k) == DateLine(fs, k)
    ensures TotalLineAt(fs[..m], k) == TotalLineAt(fs, k)
    ensures ItemLineAt(fs[..m], k) == ItemLineAt(fs, k)
  {
    assert fs[..m][..k] == fs[..k];
  }

  /** Line `k` is the first line with a date token. */
  predicate FirstDate(fs: seq<LineFields>, k: nat) {
    k < |fs| && fs[k].date.Some? && forall j :: 0 <= j < k ==> fs[j].date.None?
  }

  /** `date` is set exactly when some line has a date token, and it is the
      token of the earliest such line. */
  lemma {:induction false} DateOfSpec(fs: seq<LineFields>)
    requires DatesNonEmpty(fs)
    ensures DateOf(fs).None? <==> forall k :: 0 <= k < |fs| ==> fs[k].date.None?
    ensures DateOf(fs).Some? ==>
              DateOf(fs).value != [] && exists k: nat :: FirstDate(fs, k) && DateOf(fs) == fs[k].date
    decreases |fs|
  {
    if fs != [] {
      var n := |fs| - 1;
      var fs' := fs[..n];
      assert forall j :: 0 <= j < n ==> fs'[j] == fs[j];
      DateOfSpec(fs');
      if DateOf(fs').Some? {
        var k: nat :| FirstDate(fs', k) && DateOf(fs') == fs'[k].date;
        assert FirstDate(fs, k);
      } else if fs[n].date.Some? {
        assert FirstDate(fs, n);
      }
    }
  }

  /** A line is consumed by the date branch exactly when it is the first
      line with a date token: every later date line falls through to the
      total and item branches. */
  lemma DateLineIffFirst(fs: seq<LineFields>, k: nat)
    requires DatesNonEmpty(fs) && k < |fs|
    ensures DateLine(fs, k) <==> FirstDate(fs, k)
  {
    assert forall j :: 0 <= j < k ==> fs[..k][j] == fs[j];
    DateOfSpec(fs[..k]);
  }

  /** Once set, `date` is never overwritten. */
  lemma {:induction false} DateNeverOverwritten(fs: seq<LineFields>, n: nat)
    requires DatesNonEmpty(fs) && n <= |fs| && DateOf(fs[..n]).Some?
    ensures DateOf(fs) == DateOf(fs[..n])
    decreases |fs|
  {
    if n < |fs| {
      var m := |fs| - 1;
      assert fs[..m][..n] == fs[..n];
      DateNeverOverwritten(fs[..m], n);
      DateOfSpec(fs[..m]);
    } else {
      assert fs[..n] == fs;
    }
  }

  /** `total` is set exactly when some line reaches the total branch and
      matches there. */
  lemma {:induction false} TotalSetIffTotalLine(fs: seq<LineFields>)
    ensures TotalOf(fs).None? <==> forall k :: 0 <= k < |fs| ==> !TotalLineAt(fs, k)
    decreases |fs|
  {
    if fs != [] {
      var n := |fs| - 1;
      TotalSetIffTotalLine(fs[..n]);
      forall j | 0 <= j < n ensures TotalLineAt(fs[..n], j) == TotalLineAt(fs, j) {
        PrefixBranches(fs, n, j);
      }
    }
  }

  /** When set, `total` is the amount of the last line that reaches the
      total branch and matches there. */
  lemma {:induction false} TotalIsLast(fs: seq<LineFields>)
    ensures TotalOf(fs).Some? ==>
              exists k: nat :: k < |fs| && TotalLineAt(fs, k) && TotalOf(fs) == fs[k].total &&
                forall j :: k < j < |fs| ==> !TotalLineAt(fs, j)
    decreases |fs|
  {
    if fs != [] && TotalOf(fs).Some? {
      var n := |fs| - 1;
      var fs' := fs[..n];
      if TotalLineAt(fs, n) {
        assert TotalOf(fs) == fs[n].total;
      } else {
        assert TotalOf(fs) == TotalOf(fs');
        TotalIsLast(fs');
        var k: nat :| k < n && TotalLineAt(fs', k) && TotalOf(fs') == fs'[k].total &&
                      forall j :: k < j < n ==> !TotalLineAt(fs', j);
        PrefixBranches(fs, n, k);
        forall j | k < j < n ensures !TotalLineAt(fs, j) {
          PrefixBranches(fs, n, j);
        }
        assert fs'[k] == fs[k];
        assert TotalLineAt(fs, k) && TotalOf(fs) == fs[k].total && forall j :: k < j < |fs| ==> !TotalLineAt(fs, j);
      }
    }
  }

  /** The indices of the lines that pushed an item, in order. */
  function ItemLines(fs: seq<LineFields>): seq<nat>
    decreases |fs|
  {
    if fs == [] then []
    else
      var k := |fs| - 1;
      ItemLines(fs[..k]) + (if ItemLineAt(fs, k) then [k] else [])
  }

  /** The items are, in line order, the items of exactly the lines that
      reach the item branch and yield one: neither the first date line nor
      a total line ever produces an item. */
  lemma ItemsOfSpec(fs: seq<LineFields>)
    ensures |ItemsOf(fs)| == |ItemLines(fs)|
    ensures forall i :: 0 <= i < |ItemLines(fs)| ==>
              ItemLines(fs)[i] < |fs| && ItemLineAt(fs, ItemLines(fs)[i]) &&
              ItemsOf(fs)[i] == fs[ItemLines(fs)[i]].item.value
    ensures forall i, j :: 0 <= i < j < |ItemLines(fs)| ==> ItemLines(fs)[i] < ItemLines(fs)[j]
    ensures forall k :: 0 <= k < |fs| && ItemLineAt(fs, k) ==> k in ItemLines(fs)
  {
    ItemLinesPick(fs);
    ItemLinesSorted(fs);
    ItemLinesComplete(fs);
  }

  /** Dropping the last line changes no earlier line's branch. */
  lemma ItemPrefix(fs: seq<LineFields>)
    requires fs != []
    ensures forall j :: 0 <= j < |fs| - 1 ==>
              fs[..|fs| - 1][j] == fs[j] && ItemLineAt(fs[..|fs| - 1], j) == ItemLineAt(fs, j)
  {
    var n := |fs| - 1;
    forall j | 0 <= j < n ensures fs[..n][j] == fs[j] && ItemLineAt(fs[..n], j) == ItemLineAt(fs, j) {
      PrefixBranches(fs, n, j);
    }
  }

  /** The `i`-th item comes from the `i`-th item line. */
  lemma {:induction false} ItemLinesPick(fs: seq<LineFields>)
    ensures |ItemsOf(fs)| == |ItemLines(fs)|
    ensures forall i :: 0 <= i < |ItemLines(fs)| ==>
              ItemLines(fs)[i] < |fs| && ItemLineAt(fs, ItemLines(fs)[i]) &&
              ItemsOf(fs)[i] == fs[ItemLines(fs)[i]].item.value
    decreases |fs|
  {
    if fs != [] {
      ItemLinesPick(fs[..|fs| - 1]);
      ItemPrefix(fs);
    }
  }

  /** The item lines are listed in increasing order. */
  lemma {:induction false} ItemLinesSorted(fs: seq<LineFields>)
    ensures forall i :: 0 <= i < |ItemLines(fs)| ==> ItemLines(fs)[i] < |fs|
    ensures forall i, j :: 0 <= i < j < |ItemLines(fs)| ==> ItemLines(fs)[i] < ItemLines(fs)[j]
    decreases |fs|
  {
    if fs != [] {
      ItemLinesSorted(fs[..|fs| - 1]);
    }
  }

  /** Every item line is listed. */
  lemma {:induction false} ItemLinesComplete(fs: seq<LineFields>)
    ensures forall k :: 0 <= k < |fs| && ItemLineAt(fs, k) ==> k in ItemLines(fs)
    decreases |fs|
  {
    if fs != [] {
      ItemLinesComplete(fs[..|fs| - 1]);
      ItemPrefix(fs);
    }
  }

  /** Every pushed item is well formed. */
  lemma ItemsWellFormed(ls: seq<string>)
    ensures forall i :: 0 <= i < |ItemsOf(FieldsOf(ls))| ==> WellFormed(ItemsOf(FieldsOf(ls))[i])
  {
    var fs := FieldsOf(ls);
    ItemsOfSpec(fs);
    forall i | 0 <= i < |ItemsOf(fs)| ensures WellFormed(ItemsOf(fs)[i]) {
      ItemOfSpec(ls[ItemLines(fs)[i]]);
    }
  }

  /* ---------- "total" anywhere in a line ---------- */

  /** The boundaries of a `totalRegex` match from group 1 on, for a one-digit
      number. */
  lemma NumberAt(p: Pattern, line: string, i: nat) returns (c: seq<nat>)
    requires TotalShaped(p)
    requires i < |line| && IsDigit(line[i])
    ensures c != [] && c[0] == i && Accepts(p, 9, line, c)
  {
    c := [i + 1];
    AcceptsCons(p, 11, line, i + 1, c);
    c := [i + 1] + c;
    AcceptsCons(p, 10, line, i + 1, c);
    c := [i + 1] + c;
    assert AllIn(Digit, line, i, i + 1);
    AcceptsCons(p, 9, line, i, c);
    c := [i] + c;
  }

  /** ... preceded by one white-space character. */
  lemma SpaceThenNumber(p: Pattern, line: string, i: nat) returns (c: seq<nat>)
    requires TotalShaped(p)
    requires i + 1 < |line| && IsSpace(line[i]) && IsDigit(line[i + 1])
    ensures c != [] && c[0] == i && Accepts(p, 5, line, c)
  {
    c := NumberAt(p, line, i + 1);
    AcceptsCons(p, 8, line, i + 1, c);
    c := [i + 1] + c;
    AcceptsCons(p, 7, line, i + 1, c);
    c := [i + 1] + c;
    assert AllIn(Space, line, i, i + 1);
    AcceptsCons(p, 6, line, i, c);
    c := [i] + c;
    AcceptsCons(p, 5, line, i, c);
    c := [i] + c;
  }

  /** ... preceded by the letters "tal" in any ASCII case. */
  lemma TalAt(p: Pattern, line: string, i: nat) returns (c: seq<nat>)
    requires TotalShaped(p)
    requires i + 5 <= |line|
    requires InClass(Either('t', 'T'), line[i]) && InClass(Either('a', 'A'), line[i + 1]) &&
             InClass(Either('l', 'L'), line[i + 2])
    requires IsSpace(line[i + 3]) && IsDigit(line[i + 4])
    ensures c != [] && c[0] == i && Accepts(p, 2, line, c)
  {
    c := SpaceThenNumber(p, line, i + 3);
    assert AllIn(Either('l', 'L'), line, i + 2, i + 3);
    AcceptsCons(p, 4, line, i + 2, c);
    c := [i + 2] + c;
    assert AllIn(Either('a', 'A'), line, i + 1, i + 2);
    AcceptsCons(p, 3, line, i + 1, c);
    c := [i + 1] + c;
    assert AllIn(Either('t', 'T'), line, i, i + 1);
    AcceptsCons(p, 2, line, i, c);
    c := [i] + c;
  }

  /** ... preceded by the whole word. */
  lemma TotalWordAt(p: Pattern, line: string, i: nat) returns (c: seq<nat>)
    requires TotalShaped(p)
    requires i + 7 <= |line|
    requires InClass(Either('t', 'T'), line[i]) && InClass(Either('o', 'O'), line[i + 1]) &&
             InClass(Either('t', 'T'), line[i + 2]) && InClass(Either('a', 'A'), line[i + 3]) &&
             InClass(Either('l', 'L'), line[i + 4])
    requires IsSpace(line[i + 5]) && IsDigit(line[i + 6])
    ensures c != [] && c[0] == i && Accepts(p, 0, line, c)
  {
    c := TalAt(p, line, i + 2);
    assert AllIn(Either('o', 'O'), line, i + 1, i + 2);
    AcceptsCons(p, 1, line, i + 1, c);
    c := [i + 1] + c;
    assert AllIn(Either('t', 'T'), line, i, i + 1);
    AcceptsCons(p, 0, line, i, c);
    c := [i] + c;
  }

  /** `totalRegex` is not anchored: "total" in any ASCII case anywhere in
      the line, then white space and a digit, is enough for a total. */
  lemma TotalAnywhere(line: string, i: nat)
    requires i + 7 <= |line|
    requires Lower(line[i]) == 't' && Lower(line[i + 1]) == 'o' && Lower(line[i + 2]) == 't' &&
             Lower(line[i + 3]) == 'a' && Lower(line[i + 4]) == 'l'
    requires IsSpace(line[i + 5]) && IsDigit(line[i + 6])
    ensures TotalAmount(line).Some?
  {
    LowerLetter(line[i], 't', 'T');
    LowerLetter(line[i + 1], 'o', 'O');
    LowerLetter(line[i + 2], 't', 'T');
    LowerLetter(line[i + 3], 'a', 'A');
    LowerLetter(line[i + 4], 'l', 'L');
    assert TotalShaped(TotalLine);
    var c := TotalWordAt(TotalLine, line, i);
    TotalAmountSpec(line);
  }

  /** So a subtotal line counts as a total. */
  lemma Subtotal()
    ensures TotalAmount("Subtotal 5.00").Some?
  {
    TotalAnywhere("Subtotal 5.00", 3);
  }
}
