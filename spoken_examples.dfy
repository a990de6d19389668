/** Phrases worked through `createSpokenItem` by hand: the items the
    spoken-item tests of utils/speechRecognition.ts expect.

    The texts are parameters equal to the phrases, and the facts that need
    the characters of a phrase (where each element of a pattern stops, where
    no sign or digit occurs) are proved apart from the matcher, in lemmas
    that mention no `Scan`. */
module SpokenExamples {
  import opened Wrappers
  import opened JsString
  import opened Numerals
  import opened Regex
  import opened SpokenItems

  /* ---------- the white-space pass, one run at a time ---------- */

  /** `/\s+/g` replaced by a space, at a run of white space from `x` to `e`
      with none before it. */
  lemma CollapseAt(p: Pattern, s: string, from: nat, x: nat, e: nat)
    requires SpacesShaped(p) && from <= x < e <= |s|
    requires forall i :: from <= i < x ==> !IsSpace(s[i])
    requires AllIn(Space, s, x, e) && (e == |s| || !IsSpace(s[e]))
    ensures ReplaceAll(p, s, " ", from) == s[from..x] + " " + ReplaceAll(p, s, " ", e)
  {
    SpanExact(Space, s, x, e);
    assert Greedy(p, s, [x, e], 0);
    ReplaceAt(p, s, " ", from, [x, e]);
  }

  /** A last word followed by one space is kept as it is. */
  lemma CollapseTail(p: Pattern, s: string, y: nat)
    requires SpacesShaped(p) && y < |s| && s[|s| - 1] == ' '
    requires forall i :: y <= i < |s| - 1 ==> !IsSpace(s[i])
    ensures ReplaceAll(p, s, " ", y) == s[y..]
  {
    CollapseAt(p, s, y, |s| - 1, |s|);
    ReplaceRest(p, s, " ", |s|);
    assert s[y..|s| - 1] + " " + s[|s|..] == s[y..];
  }

  /** Two words, a run of white space between them and one space after
      them: the run becomes one space. */
  lemma CollapseGap(p: Pattern, s: string, x: nat, y: nat)
    requires SpacesShaped(p) && 0 < x < y < |s| && s[|s| - 1] == ' '
    requires forall i :: 0 <= i < x ==> !IsSpace(s[i])
    requires AllIn(Space, s, x, y) && !IsSpace(s[y])
    requires forall i :: y <= i < |s| - 1 ==> !IsSpace(s[i])
    ensures ReplaceAll(p, s, " ", 0) == s[0..x] + " " + s[y..]
  {
    CollapseAt(p, s, 0, x, y);
    CollapseTail(p, s, y);
  }

  /** A text that ends in one space after a character that is not white
      space, and starts with one, trims to all but its last character. */
  lemma TrimLastSpace(r: string)
    requires 2 <= |r| && r[|r| - 1] == ' ' && !IsSpace(r[0]) && !IsSpace(r[|r| - 2])
    ensures Trim(r) == r[..|r| - 1]
  {
    assert SkipSpaces(r, 0) == 0;
    assert TrimStart(r) == r;
    assert BackSpaces(r, |r| - 1) == |r| - 1;
  }

  /** The three passes after the first leave a text without digits as it
      is. */
  lemma NoDigitLeft(s: string)
    requires !HasDigit(s)
    ensures ReplaceAll(BareNumber, ReplaceAll(NumberCents, ReplaceAll(NumberDollars, s, "", 0), "", 0), "", 0) == s
  {
    CleanupCommitted();
    NoDigitKept(NumberDollars, s, 0);
    NoDigitKept(NumberCents, s, 0);
    NoDigitKept(BareNumber, s, 0);
  }

  /** Unfolds `CreateSpokenItem` on a text without a dollars-and-cents
      phrase, for the worked examples below. */
  lemma NumberItem(text: string)
    requires Search(DollarsAndCents, text, 0).None?
    ensures CreateSpokenItem(text) == SpokenItem(Tidy(StripAmounts(text)), SpokenPriceOf(text))
  {
  }

  /* ---------- "milk $3.99" ---------- */

  /** Where each element of the dollar-amount pattern stops. */
  lemma MilkGreedy(t: string, bs: seq<nat>)
    requires t == "milk $3.99" && bs == [5, 6, 6, 7, 7, 8, 10]
    ensures Greedy(DollarAmount, t, bs, 0)
  {
    assert Greedy(DollarAmount, t, bs, 6);
    assert Greedy(DollarAmount, t, bs, 5);
    assert Greedy(DollarAmount, t, bs, 4);
    assert Greedy(DollarAmount, t, bs, 3);
    assert Greedy(DollarAmount, t, bs, 2);
    assert Greedy(DollarAmount, t, bs, 1);
  }

  lemma MilkText(t: string)
    requires t == "milk $3.99"
    ensures forall i :: 0 <= i < 5 ==> !InClass(DollarAmount[0].cls, t[i])
    ensures !HasDigit(t[0..5]) && 'd' !in t
  {
    assert t[2] == 'l';
  }

  lemma MilkWord(t: string, u: string)
    requires t == "milk $3.99" && u == t[0..5]
    ensures u[4] == ' ' && !IsSpace(u[0]) && !IsSpace(u[3]) && forall i :: 0 <= i < 4 ==> !IsSpace(u[i])
    ensures u[..4] == "milk"
  {
  }

  /** The dollar amount is cut out. */
  lemma MilkAmount(t: string, bs: seq<nat>)
    requires t == "milk $3.99" && bs == [5, 6, 6, 7, 7, 8, 10]
    ensures ReplaceAll(DollarAmount, t, "", 0) == t[0..5]
  {
    MilkGreedy(t, bs);
    MilkText(t);
    ReplaceAt(DollarAmount, t, "", 0, bs);
    ReplaceRest(DollarAmount, t, "", 10);
  }

  /** The three other strip passes find nothing. */
  lemma MilkStripped(t: string)
    requires t == "milk $3.99"
    ensures StripAmounts(t) == t[0..5]
  {
    MilkAmount(t, [5, 6, 6, 7, 7, 8, 10]);
    MilkText(t);
    NoDigitLeft(t[0..5]);
  }

  /** The stripped text tidies to its word. */
  lemma MilkTidy(t: string)
    requires t == "milk $3.99"
    ensures Tidy(StripAmounts(t)) == "milk"
  {
    var u := t[0..5];
    MilkStripped(t);
    MilkWord(t, u);
    TidyWordSpace(u);
  }

  /** A word and one space after it tidy to the word. */
  lemma TidyWordSpace(u: string)
    requires 2 <= |u| && u[|u| - 1] == ' ' && forall i :: 0 <= i < |u| - 1 ==> !IsSpace(u[i])
    ensures Tidy(u) == u[..|u| - 1]
  {
    assert SpacesShaped(Spaces);
    CollapseTail(Spaces, u, 0);
    assert u[0..] == u;
    TrimLastSpace(u);
  }

  /** "milk $3.99" is priced 3.99. */
  lemma MilkPrice(t: string)
    requires t == "milk $3.99"
    ensures CreateSpokenItem(t).price == Some(3.99)
  {
    MilkText(t);
    PhraseNeedsLetters(t);
    MilkNumeral();
    NumberPath(t);
  }

  /** "milk $3.99" gives the item "milk" priced 3.99. */
  lemma MilkItem(t: string)
    requires t == "milk $3.99"
    ensures CreateSpokenItem(t) == SpokenItem("milk", Some(3.99))
  {
    MilkText(t);
    PhraseNeedsLetters(t);
    NumberItem(t);
    MilkTidy(t);
    MilkPrice(t);
  }

  /* ---------- "milk $3.99 or $4.99" ---------- */

  /** Two words, a run of white space between them and one space after
      them tidy to the words with one space between them. */
  lemma TidyTwoWords(u: string, x: nat, y: nat)
    requires 0 < x < y < |u| - 1 && u[|u| - 1] == ' '
    requires forall i :: 0 <= i < x ==> !IsSpace(u[i])
    requires AllIn(Space, u, x, y)
    requires forall i :: y <= i < |u| - 1 ==> !IsSpace(u[i])
    ensures Tidy(u) == u[0..x] + " " + u[y..|u| - 1]
  {
    assert SpacesShaped(Spaces);
    CollapseGap(Spaces, u, x, y);
    TrimJoined(u, x, y);
  }

  lemma TrimJoined(u: string, x: nat, y: nat)
    requires 0 < x < y < |u| - 1 && u[|u| - 1] == ' ' && !IsSpace(u[0]) && !IsSpace(u[|u| - 2])
    ensures Trim(u[0..x] + " " + u[y..]) == u[0..x] + " " + u[y..|u| - 1]
  {
    var r := u[0..x] + " " + u[y..];
    assert r[0] == u[0] && r[|r| - 2] == u[|u| - 2] && r[|r| - 1] == ' ';
    TrimLastSpace(r);
    assert r[..|r| - 1] == u[0..x] + " " + u[y..|u| - 1];
  }

  lemma MilkOrFirst(t: string, bs: seq<nat>)
    requires t == "milk $3.99 or $4.99" && bs == [5, 6, 6, 7, 7, 8, 10]
    ensures Greedy(DollarAmount, t, bs, 0)
  {
    SpanExact(Digit, t, 8, 10);
    assert Greedy(DollarAmount, t, bs, 6);
    assert Greedy(DollarAmount, t, bs, 5);
    assert Greedy(DollarAmount, t, bs, 4);
    assert Greedy(DollarAmount, t, bs, 3);
    assert Greedy(DollarAmount, t, bs, 2);
    assert Greedy(DollarAmount, t, bs, 1);
  }

  lemma MilkOrSecond(t: string, cs: seq<nat>)
    requires t == "milk $3.99 or $4.99" && cs == [14, 15, 15, 16, 16, 17, 19]
    ensures Greedy(DollarAmount, t, cs, 0)
  {
    assert Greedy(DollarAmount, t, cs, 6);
    assert Greedy(DollarAmount, t, cs, 5);
    assert Greedy(DollarAmount, t, cs, 4);
    assert Greedy(DollarAmount, t, cs, 3);
    assert Greedy(DollarAmount, t, cs, 2);
    assert Greedy(DollarAmount, t, cs, 1);
  }

  lemma MilkOrText(t: string)
    requires t == "milk $3.99 or $4.99"
    ensures forall i :: 0 <= i < 5 ==> !InClass(DollarAmount[0].cls, t[i])
    ensures forall i :: 10 <= i < 14 ==> !InClass(DollarAmount[0].cls, t[i])
    ensures 'd' !in t
  {
    assert t[2] == 'l';
  }

  lemma MilkOrLeft(t: string, u: string)
    requires t == "milk $3.99 or $4.99" && u == t[0..5] + "" + (t[10..14] + "" + t[19..])
    ensures u == "milk  or "
  {
    assert t[0..5] == "milk " && t[10..14] == " or " && t[19..] == [];
  }

  lemma MilkOrWords(u: string)
    requires u == "milk  or "
    ensures !HasDigit(u) && |u| == 9 && u[8] == ' '
    ensures (forall i :: 0 <= i < 4 ==> !IsSpace(u[i])) && AllIn(Space, u, 4, 6)
    ensures forall i :: 6 <= i < 8 ==> !IsSpace(u[i])
    ensures u[0..4] + " " + u[6..8] == "milk or"
  {
  }

  /** Both dollar amounts are cut out. */
  lemma MilkOrAmounts(t: string, bs: seq<nat>, cs: seq<nat>)
    requires t == "milk $3.99 or $4.99"
    requires bs == [5, 6, 6, 7, 7, 8, 10] && cs == [14, 15, 15, 16, 16, 17, 19]
    ensures ReplaceAll(DollarAmount, t, "", 0) == t[0..5] + "" + (t[10..14] + "" + t[19..])
  {
    MilkOrFirst(t, bs);
    MilkOrSecond(t, cs);
    MilkOrText(t);
    ReplaceAt(DollarAmount, t, "", 0, bs);
    ReplaceAt(DollarAmount, t, "", 10, cs);
    ReplaceRest(DollarAmount, t, "", 19);
  }

  /** The name keeps both words, one space apart. */
  lemma MilkOrTidy(t: string)
    requires t == "milk $3.99 or $4.99"
    ensures Tidy(StripAmounts(t)) == "milk or"
  {
    var u := t[0..5] + "" + (t[10..14] + "" + t[19..]);
    MilkOrAmounts(t, [5, 6, 6, 7, 7, 8, 10], [14, 15, 15, 16, 16, 17, 19]);
    MilkOrLeft(t, u);
    MilkOrWords(u);
    NoDigitLeft(u);
    TidyTwoWords(u, 4, 6);
  }

  lemma MilkOrNumeral(t: string)
    requires t == "milk $3.99 or $4.99"
    ensures HasDigit(t) && FirstDigit(t) == 6 && NumeralEnd(t, 6) == 10 && t[6..10] == "3.99"
  {
    MilkOrFirstDigit(t);
    MilkOrNumeralEnd(t);
  }

  lemma MilkOrFirstDigit(t: string)
    requires t == "milk $3.99 or $4.99"
    ensures HasDigit(t) && FirstDigit(t) == 6 && t[6..10] == "3.99"
  {
    FirstDigitAt(t, 6);
  }

  /** The first digit is the one with no digit before it. */
  lemma FirstDigitAt(s: string, d: nat)
    requires d < |s| && IsDigit(s[d]) && forall i :: 0 <= i < d ==> !IsDigit(s[i])
    ensures HasDigit(s) && FirstDigit(s) == d
  {
  }

  lemma MilkOrNumeralEnd(t: string)
    requires t == "milk $3.99 or $4.99"
    ensures NumeralEnd(t, 6) == 10
  {
    SpanExact(Digit, t, 6, 7);
    SpanExact(Digit, t, 8, 10);
  }

  /** The first amount gives the price. */
  lemma MilkOrPrice(t: string)
    requires t == "milk $3.99 or $4.99"
    ensures CreateSpokenItem(t).price == Some(3.99)
  {
    MilkOrText(t);
    PhraseNeedsLetters(t);
    MilkOrNumeral(t);
    ThreeNinetyNine();
    NumberPath(t);
  }

  /** "milk $3.99 or $4.99" gives the item "milk or" priced 3.99: both
      amounts leave the name, the first one is the price. */
  lemma MilkOrItem(t: string)
    requires t == "milk $3.99 or $4.99"
    ensures CreateSpokenItem(t) == SpokenItem("milk or", Some(3.99))
  {
    MilkOrText(t);
    PhraseNeedsLetters(t);
    NumberItem(t);
    MilkOrTidy(t);
    MilkOrPrice(t);
  }

  /* ---------- "coffee 5 dollars and 50 cents" ---------- */

  /** The boundaries of the phrase in "coffee 5 dollars and 50 cents":
      "5" at 7, "dollars" from 9, the optional "and " taken at 17, "50" at
      21 and "cents" from 24 to the end. */
  predicate CoffeeBounds(bs: seq<nat>) {
    |bs| == 23 &&
    bs[0] == 7 && bs[1] == 8 && bs[2] == 9 && bs[3] == 10 && bs[4] == 11 && bs[5] == 12 &&
    bs[6] == 13 && bs[7] == 14 && bs[8] == 15 && bs[9] == 16 && bs[10] == 17 && bs[11] == 17 &&
    bs[12] == 18 && bs[13] == 19 && bs[14] == 20 && bs[15] == 21 && bs[16] == 23 && bs[17] == 24 &&
    bs[18] == 25 && bs[19] == 26 && bs[20] == 27 && bs[21] == 28 && bs[22] == 29
  }

  /** Element by element, from the last back to the first: "ts". */
  lemma CoffeeCents(t: string, bs: seq<nat>)
    requires t == "coffee 5 dollars and 50 cents" && CoffeeBounds(bs)
    ensures Greedy(DollarsAndCents, t, bs, 19)
  {
    assert Greedy(DollarsAndCents, t, bs, 22);
    assert Greedy(DollarsAndCents, t, bs, 21);
    assert Greedy(DollarsAndCents, t, bs, 20);
  }

  /** "ce" and the space before it. */
  lemma CoffeeCe(t: string, bs: seq<nat>)
    requires t == "coffee 5 dollars and 50 cents" && CoffeeBounds(bs)
    requires Greedy(DollarsAndCents, t, bs, 19)
    ensures Greedy(DollarsAndCents, t, bs, 16)
  {
    assert Greedy(DollarsAndCents, t, bs, 18);
    assert Greedy(DollarsAndCents, t, bs, 17);
  }

  /** "50", the space before it and the "d" of "and". */
  lemma CoffeeFifty(t: string, bs: seq<nat>)
    requires t == "coffee 5 dollars and 50 cents" && CoffeeBounds(bs)
    requires Greedy(DollarsAndCents, t, bs, 16)
    ensures Greedy(DollarsAndCents, t, bs, 13)
  {
    SpanExact(Digit, t, 21, 23);
    assert Greedy(DollarsAndCents, t, bs, 15);
    assert Greedy(DollarsAndCents, t, bs, 14);
  }

  /** "an" and the optional group taken. */
  lemma CoffeeAnd(t: string, bs: seq<nat>)
    requires t == "coffee 5 dollars and 50 cents" && CoffeeBounds(bs)
    requires Greedy(DollarsAndCents, t, bs, 13)
    ensures Greedy(DollarsAndCents, t, bs, 10)
  {
    assert Greedy(DollarsAndCents, t, bs, 12);
    assert Greedy(DollarsAndCents, t, bs, 11);
  }

  /** "r", the optional "s" and the space. */
  lemma CoffeeRs(t: string, bs: seq<nat>)
    requires t == "coffee 5 dollars and 50 cents" && CoffeeBounds(bs)
    requires Greedy(DollarsAndCents, t, bs, 10)
    ensures Greedy(DollarsAndCents, t, bs, 7)
  {
    assert Greedy(DollarsAndCents, t, bs, 9);
    assert Greedy(DollarsAndCents, t, bs, 8);
  }

  /** "lla". */
  lemma CoffeeDolla(t: string, bs: seq<nat>)
    requires t == "coffee 5 dollars and 50 cents" && CoffeeBounds(bs)
    requires Greedy(DollarsAndCents, t, bs, 7)
    ensures Greedy(DollarsAndCents, t, bs, 4)
  {
    assert Greedy(DollarsAndCents, t, bs, 6);
    assert Greedy(DollarsAndCents, t, bs, 5);
  }

  /** "do" and the space before it. */
  lemma CoffeeDo(t: string, bs: seq<nat>)
    requires t == "coffee 5 dollars and 50 cents" && CoffeeBounds(bs)
    requires Greedy(DollarsAndCents, t, bs, 4)
    ensures Greedy(DollarsAndCents, t, bs, 1)
  {
    assert Greedy(DollarsAndCents, t, bs, 3);
    assert Greedy(DollarsAndCents, t, bs, 2);
  }

  /** "5". */
  lemma CoffeeFive(t: string, bs: seq<nat>)
    requires t == "coffee 5 dollars and 50 cents" && CoffeeBounds(bs)
    requires Greedy(DollarsAndCents, t, bs, 1)
    ensures Greedy(DollarsAndCents, t, bs, 0)
  {
  }

  lemma CoffeePhrase(t: string, bs: seq<nat>)
    requires t == "coffee 5 dollars and 50 cents" && CoffeeBounds(bs)
    ensures Greedy(DollarsAndCents, t, bs, 0)
  {
    CoffeeCents(t, bs);
    CoffeeCe(t, bs);
    CoffeeFifty(t, bs);
    CoffeeAnd(t, bs);
    CoffeeRs(t, bs);
    CoffeeDolla(t, bs);
    CoffeeDo(t, bs);
    CoffeeFive(t, bs);
  }

  const CoffeeBoundary: seq<nat> :=
    [7, 8, 9, 10, 11, 12, 13, 14, 15, 16, 17, 17, 18, 19, 20, 21, 23, 24, 25, 26, 27, 28, 29]

  lemma CoffeeBoundaryFits()
    ensures CoffeeBounds(CoffeeBoundary)
  {
  }

  lemma CoffeeText(t: string)
    requires t == "coffee 5 dollars and 50 cents"
    ensures forall i :: 0 <= i < 7 ==> !InClass(DollarsAndCents[0].cls, t[i])
  {
  }

  lemma CoffeeNumbers(t: string)
    requires t == "coffee 5 dollars and 50 cents"
    ensures t[7..8] == "5" && t[21..23] == "50"
  {
    assert t[7] == '5' && t[21] == '5' && t[22] == '0';
  }

  lemma CoffeeWord(t: string, u: string)
    requires t == "coffee 5 dollars and 50 cents" && u == t[0..7] + "" + t[29..]
    ensures |u| == 7 && u[6] == ' ' && (forall i :: 0 <= i < 6 ==> !IsSpace(u[i])) && u[..6] == "coffee"
  {
    assert u == "coffee ";
  }

  /** The phrase is cut out of the name, and it is the leftmost one. */
  lemma CoffeeCut(t: string, bs: seq<nat>)
    requires t == "coffee 5 dollars and 50 cents" && CoffeeBounds(bs)
    ensures Search(DollarsAndCents, t, 0) == Some(bs)
    ensures ReplaceAll(DollarsAndCents, t, "", 0) == t[0..7] + "" + t[29..]
  {
    CoffeePhrase(t, bs);
    CoffeeText(t);
    FoundAt(DollarsAndCents, t, 0, bs);
    ReplaceAt(DollarsAndCents, t, "", 0, bs);
    ReplaceRest(DollarsAndCents, t, "", 29);
  }

  /** The name is the word before the phrase. */
  lemma CoffeeName(t: string)
    requires t == "coffee 5 dollars and 50 cents"
    ensures CreateSpokenItem(t).name == "coffee"
  {
    var u := t[0..7] + "" + t[29..];
    CoffeeBoundaryFits();
    CoffeeCut(t, CoffeeBoundary);
    PhraseItemName(t);
    CoffeeWord(t, u);
    TidyWordSpace(u);
  }

  /** Five dollars and fifty cents. */
  lemma CoffeePrice(t: string)
    requires t == "coffee 5 dollars and 50 cents"
    ensures CreateSpokenItem(t).price == Some(5.5)
  {
    CoffeeBoundaryFits();
    CoffeeCut(t, CoffeeBoundary);
    PhrasePrice(t);
    CoffeeNumbers(t);
    FiftyCents();
  }

  lemma FiftyCents()
    ensures AllDigits("5") && AllDigits("50") && DigitsValue("5") == 5 && DigitsValue("50") == 50
  {
    assert "50"[..1] == "5";
  }

  /** "coffee 5 dollars and 50 cents" gives the item "coffee" priced 5.5. */
  lemma CoffeeItem(t: string)
    requires t == "coffee 5 dollars and 50 cents"
    ensures CreateSpokenItem(t) == SpokenItem("coffee", Some(5.5))
  {
    CoffeeName(t);
    CoffeePrice(t);
  }
}
