# Receipt and spoken-item parsing, modelled in Dafny

This project models the text-processing core of a grocery app. There are
two source files.

* `utils/ocrProcessor.ts` turns the text that optical character
  recognition read off a receipt into items, a total and a date. It also
  sorts item names into categories with a keyword table, lists the
  distinct categories of a list of items, and groups items by category.
* `utils/speechRecognition.ts` holds two things. `SpeechRecognizer` wraps
  the browser's speech-recognition engine: it starts and stops the engine,
  forwards its events and reports failures. `createSpokenItem` reads an
  item name and an optional price off a spoken phrase.

Both files do most of their work with ECMAScript regular expressions. The
model gives them one small regular-expression engine (`Regex`), which has
three parts:

* a pattern is a sequence of elements: a character class with a greedy
  `{min,max}` quantifier, or an optional group;
* there are three meanings: `Accepts`, which says which boundary lists
  are matches; `Bt`, ECMAScript's backtracking order; and `Scan`, a
  greedy matcher with no backtracking;
* the lemmas show that `Bt` is sound and complete for `Accepts`, and that
  `Scan` equals `Bt` on "committed" patterns. All the patterns of the two
  files are committed. So `Search`, and with it `match`, `replace` and
  `replace` with the `g` flag, report the leftmost match that ECMAScript
  reports.

Numbers are exact: `parseInt` and `parseFloat` of the captured numerals
are `nat` and `real` values (`Numerals`).

Modules and files:

| file | module | models |
|---|---|---|
| wrappers.dfy | Wrappers | `Option`, `Result` |
| js_string.dfy | JsString | `\d`, `\s`, `trim`, `toLowerCase`, `includes`, `indexOf`, `split`, `replace` of one character |
| numerals.dfy | Numerals | `parseInt` and `parseFloat` of digit strings and numerals |
| regex.dfy | Regex | the regular-expression engine, `match`, `replace`, `replace` with `g` |
| categories.dfy | Categories | the keyword table, `determineCategory` and the category loop inside `processReceipt` |
| receipt_parser.dfy | ReceiptParser | `extractPrice`, `extractDate`, the line loop of `processReceipt` |
| receipt_items.dfy | ReceiptItems | `getUniqueCategories`, `groupItemsByCategory` |
| speech_recognizer.dfy | SpeechRecognition | the `SpeechRecognizer` class |
| spoken_item.dfy | SpokenItems | `createSpokenItem` |

Where the documented design and the code differ, the model follows the
code:

* The design describes the recognizer's states as idle and listening, and
  says an error event moves it back to idle. In the code, the error
  handler only forwards the error code (utils/speechRecognition.ts:86-88).
  `isListening` stays true until `stop`, so a `start` after an error is
  ignored. `DeliverError` and `ErrorKeepsListening` state this.
* The design says `start` switches the engine to continuous, interim
  results. The code does that once, in the constructor
  (utils/speechRecognition.ts:57-59).

## Model

| member | source | states |
|---|---|---|
| Categories.Rank | utils/ocrProcessor.ts:4-11 | the table's keys in declaration order, Produce first and Other last |
| Categories.LabelInjective | utils/ocrProcessor.ts:4-11 | distinct categories have distinct key strings |
| Categories.FirstHitFrom | utils/ocrProcessor.ts:37-41 | the first category from a table position on whose keywords occur in the name; Other if there is none |
| Categories.FirstHitIs | utils/ocrProcessor.ts:37-43 | a category with a hit after categories that all miss is the classification; when every category misses, it is Other |
| Categories.Classify | utils/ocrProcessor.ts:34-44 | Other exactly when no keyword of any category occurs; otherwise a category with a hit, and no earlier category has one |
| Categories.DetermineCategory | utils/ocrProcessor.ts:34-44 | the loop returns the label of the first category, in table order, with a keyword in the lower-cased name, and "Other" after the loop |
| Categories.EmptyNameIsOther | utils/ocrProcessor.ts:5-10 | every keyword is non-empty, so the empty name is Other |
| Categories.InlineCategory | utils/ocrProcessor.ts:108-114 | the loop with `break` yields the first category with a hit, and nothing when no keyword occurs |
| Categories.Categorise | utils/ocrProcessor.ts:108-114 | no category exactly when no keyword of any category occurs in the lower-cased name; otherwise a category other than Other with a hit, and no category earlier in the table has one |
| Categories.InlineNeverOther | utils/ocrProcessor.ts:108-114 | the inline loop never yields Other, and agrees with `determineCategory` when it yields a category |
| JsString.TrimStart | utils/ocrProcessor.ts:75 | the suffix left after the leading white space, which starts with a non-space |
| JsString.TrimEnd | utils/ocrProcessor.ts:75 | the prefix left before the trailing white space, which ends with a non-space |
| JsString.Trim | utils/ocrProcessor.ts:75 | a slice of the input, with no white space at either end, and only white space cut on both sides |
| JsString.TrimOfTrimmed | utils/ocrProcessor.ts:104 | a string without white space at its ends is its own trim |
| JsString.TrimIdempotent | utils/ocrProcessor.ts:104 | trimming twice is trimming once |
| JsString.TrimPadded | utils/speechRecognition.ts:138 | `trim` of a trimmed text with white space on both sides gives that text back |
| JsString.JoinTrimmed | utils/speechRecognition.ts:137-138 | words joined by single spaces have no white space at the ends, and are empty only when there are no words |
| JsString.WordsOfJoin | utils/speechRecognition.ts:137-138 | splitting words joined by single spaces at white space gives the same words back |
| JsString.ToLowerCase | utils/ocrProcessor.ts:35 | same length, lower-cased character by character |
| JsString.LowerLetter | utils/ocrProcessor.ts:83 | only the two ASCII cases of a letter lower-case to it, so `toLowerCase` agrees with the `i` flag on "total" |
| JsString.IndexOf | utils/ocrProcessor.ts:28 | the first occurrence of the character: it is there and not before |
| JsString.Split | utils/ocrProcessor.ts:75 | at least one piece, and no piece holds the separator |
| JsString.JoinSplit | utils/ocrProcessor.ts:75 | joining the pieces with the separator gives the text back |
| JsString.SplitJoin | utils/ocrProcessor.ts:75 | pieces without the separator come back out of their join |
| JsString.RemoveFirst | utils/ocrProcessor.ts:28 | `replace('$', '')` cuts out only the first dollar sign, and leaves a string without one as it is |
| Numerals.DigitsValue | utils/speechRecognition.ts:132-133 | `parseInt` of n digits is below 10^n |
| Numerals.PointValue | utils/ocrProcessor.ts:28 | the value of `ip.fp` lies in [ip, ip + 1) |
| Numerals.Hundredths | utils/ocrProcessor.ts:25-28 | with two fraction digits the value is dollars plus cents over a hundred |
| Numerals.NumeralValue | utils/ocrProcessor.ts:96 | `parseFloat` of a numeral is never negative |
| Numerals.DigitsAppend | utils/speechRecognition.ts:132-133 | digit strings concatenate like place values |
| Numerals.LeadingZero | utils/speechRecognition.ts:132-133 | a leading zero does not change `parseInt` |
| Numerals.NumeralFloor | utils/ocrProcessor.ts:103 | the integer part of a numeral is the floor of its value |
| Numerals.TrailingZero | utils/ocrProcessor.ts:103 | a trailing fraction zero does not change `parseFloat` |
| Numerals.SegmentsNumeral | utils/ocrProcessor.ts:81 | digits, at most one point, then digits, form a numeral, and the point is where the optional part matched |
| Numerals.PointedNumeral | utils/ocrProcessor.ts:25-28 | `a.f` is a numeral whose value is `PointValue(a, f)` |
| Numerals.PlainNumeral | utils/speechRecognition.ts:145 | a digit string is a numeral whose `parseFloat` is its `parseInt` |
| Regex.BtSound | utils/ocrProcessor.ts:26 | every match the backtracking matcher reports is a match of the pattern |
| Regex.BtComplete | utils/ocrProcessor.ts:26 | if a match starts at a position, the backtracking matcher finds one there |
| Regex.BtFailsIffNoMatch | utils/ocrProcessor.ts:26 | the backtracking matcher fails at a position exactly when no match starts there |
| Regex.ScanIsBt | utils/ocrProcessor.ts:26 | on committed patterns the greedy matcher gives the backtracking result |
| Regex.GiveBackFails | utils/ocrProcessor.ts:81 | if the rest of a pattern matches after a run of a class it shifts over, it still matches after a longer run |
| Regex.NoGiveBack | utils/ocrProcessor.ts:81 | at a committed element, backtracking below the greedy count finds nothing the greedy count does not |
| Regex.Search | utils/ocrProcessor.ts:26 | the first start position, from where the search begins, at which the greedy matcher succeeds |
| Regex.SearchIsLeftmost | utils/ocrProcessor.ts:26 | `match` reports the backtracking match at the leftmost position where any match exists, and none when there is no match |
| Regex.SearchSkips | utils/speechRecognition.ts:130 | no match starts between the search position and the match found; with no match found, none starts anywhere after the search position |
| Regex.CutIsMatch | utils/speechRecognition.ts:136 | each stretch `replace` with `g` cuts out starts after the search position and is the greedy match at its start |
| Regex.CutsAccepted | utils/speechRecognition.ts:136 | on a committed pattern, each such stretch is a match of the pattern |
| Regex.ReplaceAllCuts | utils/speechRecognition.ts:136 | `replace` with `g` and an empty replacement leaves exactly the text between the stretches it cuts out |
| Regex.GreedyScan | utils/speechRecognition.ts:136 | boundaries that follow each element's greedy run, with every optional group taken, are what the greedy matcher returns |
| Regex.FoundAt | utils/speechRecognition.ts:130 | such boundaries are the match `match` reports when no earlier character can start the first element |
| Regex.ReplaceAt | utils/speechRecognition.ts:136 | then `replace` with `g` keeps the text before the match, puts the replacement there, and goes on after it |
| Regex.ReplaceRest | utils/speechRecognition.ts:149-152 | where no character can start the first element, `replace` with `g` leaves the rest unchanged |
| Regex.ReplaceFirstCut | utils/ocrProcessor.ts:104 | `replace` without `g` cuts out exactly the first match, and leaves a string without a match unchanged |
| Regex.MatchHasClass | utils/speechRecognition.ts:149-152 | a match of a pattern with a mandatory element holds a character of that element's class |
| Regex.SearchNeedsClass | utils/speechRecognition.ts:149-152 | such a pattern never matches a text without a character of that class |
| ReceiptParser.StrictPriceParts | utils/ocrProcessor.ts:25 | a `\$?\d+\.\d{2}` match is an optional '$', digits, a point and exactly two digits |
| ReceiptParser.StrictPriceValue | utils/ocrProcessor.ts:28 | dropping the '$' leaves the numeral `dollars.cc` |
| ReceiptParser.ExtractPriceSpec | utils/ocrProcessor.ts:24-31 | a price exactly when some `$?digits.dd` occurs; then it is the leftmost one's dollars plus cents over a hundred |
| ReceiptParser.ExtractPriceNonNegative | utils/ocrProcessor.ts:24-31 | the price is never negative |
| ReceiptParser.DateTokenParts | utils/ocrProcessor.ts:48 | a date token is 1-2 digits, '-' or '/', 1-2 digits, '-' or '/', 2-4 digits |
| ReceiptParser.ExtractDateSpec | utils/ocrProcessor.ts:47-51 | a date exactly when a date token occurs; then it is the text of the leftmost one, at least 6 characters long |
| ReceiptParser.TotalLineParts | utils/ocrProcessor.ts:83 | a total match starts with "total" in any ASCII case, and group 1 is a numeral |
| ReceiptParser.TotalWord | utils/ocrProcessor.ts:83 | a total match begins with five characters that lower-case to "total" |
| ReceiptParser.TotalNumber | utils/ocrProcessor.ts:83 | group 1 of a total match is a numeral |
| ReceiptParser.TotalAmountSpec | utils/ocrProcessor.ts:94-96 | a total exactly when the total pattern matches anywhere; then it is `parseFloat` of group 1 of the leftmost match |
| ReceiptParser.TotalAnywhere | utils/ocrProcessor.ts:83 | "total" in any ASCII case anywhere in a line, then white space and a digit, is enough for a total |
| ReceiptParser.Subtotal | utils/ocrProcessor.ts:83 | so "Subtotal 5.00" counts as a total line |
| ReceiptParser.LoosePriceParts | utils/ocrProcessor.ts:81 | a price match is at most a '$', white space and then a numeral, group 1 |
| ReceiptParser.LinePriceSpec | utils/ocrProcessor.ts:101-103 | a price exactly when the pattern matches; then it is `parseFloat` of group 1 of the leftmost match |
| ReceiptParser.LinePriceIffDigit | utils/ocrProcessor.ts:81 | a line has a price exactly when it holds a digit |
| ReceiptParser.PricedLineHasDigit | utils/ocrProcessor.ts:81 | a line with a price holds a digit |
| ReceiptParser.LineNameCut | utils/ocrProcessor.ts:104 | the name is the line with exactly the priced match cut out |
| ReceiptParser.DigitIsPrice | utils/ocrProcessor.ts:81 | a single digit is already a match |
| ReceiptParser.ItemOfSpec | utils/ocrProcessor.ts:100-117 | an item exactly when the line has a price and a non-empty rest; then its name is that trimmed rest, its price the line's price, and it is well formed |
| ReceiptParser.NewItemWellFormed | utils/ocrProcessor.ts:106-116 | a non-empty trimmed name, a non-negative price and the name's category make a well-formed item |
| ReceiptParser.TrimAll | utils/ocrProcessor.ts:75 | each line trimmed, in order |
| ReceiptParser.NonEmpty | utils/ocrProcessor.ts:75 | `filter(Boolean)` keeps exactly the non-empty strings |
| ReceiptParser.NonEmptyAppend | utils/ocrProcessor.ts:75 | the filter keeps order |
| ReceiptParser.LinesSpec | utils/ocrProcessor.ts:75 | the loop sees only non-empty trimmed lines, and exactly the trimmed non-blank pieces between line breaks |
| ReceiptParser.FieldsDatesNonEmpty | utils/ocrProcessor.ts:87-89 | a matched date is never the empty string, so `!date` means "no date yet" |
| ReceiptParser.Step | utils/ocrProcessor.ts:85-119 | one more line: date branch, else total branch, else item branch, each with `continue` |
| ReceiptParser.ParseReceiptText | utils/ocrProcessor.ts:75-125 | the loop's items, total and date are those of the line-by-line specification |
| ReceiptParser.ProcessReceipt | utils/ocrProcessor.ts:54-129 | a recognised text is parsed; any failure before that becomes the one error "Failed to process receipt" |
| ReceiptParser.PrefixBranches | utils/ocrProcessor.ts:85-119 | which branch a line takes depends only on the lines before it |
| ReceiptParser.DateOfSpec | utils/ocrProcessor.ts:87-91 | the date is set exactly when some line has a date token, and it is the token of the first such line |
| ReceiptParser.DateLineIffFirst | utils/ocrProcessor.ts:87-91 | a line takes the date branch exactly when it is the first line with a date token |
| ReceiptParser.DateNeverOverwritten | utils/ocrProcessor.ts:88 | once set, the date never changes |
| ReceiptParser.TotalSetIffTotalLine | utils/ocrProcessor.ts:94-98 | the total is set exactly when some line reaches the total branch and matches |
| ReceiptParser.TotalIsLast | utils/ocrProcessor.ts:94-98 | the total is the amount of the last line that does so |
| ReceiptParser.ItemsOfSpec | utils/ocrProcessor.ts:100-117 | the items are, in line order, those of exactly the lines that reach the item branch and yield one |
| ReceiptParser.ItemsWellFormed | utils/ocrProcessor.ts:106-116 | every item has a non-empty trimmed name, a non-negative price, and a category that is missing or the first keyed category of its name |
| ReceiptItems.DefinedCategories | utils/ocrProcessor.ts:135-137 | the defined categories are those some item carries |
| ReceiptItems.Dedup | utils/ocrProcessor.ts:134 | a `Set` holds each value once, and the same values |
| ReceiptItems.DedupKeepsFirstOrder | utils/ocrProcessor.ts:134 | a `Set` keeps the order of first insertion |
| ReceiptItems.UniqueCategoriesSpec | utils/ocrProcessor.ts:133-139 | each defined category once, nothing else, in order of first appearance |
| ReceiptItems.GroupOfAbsent | utils/ocrProcessor.ts:145-147 | a category no item carries has an empty group |
| ReceiptItems.SkipStep | utils/ocrProcessor.ts:144 | an item without a truthy category leaves the grouping a grouping |
| ReceiptItems.PushStep | utils/ocrProcessor.ts:145-148 | pushing an item onto its group, made first if missing, keeps the grouping |
| ReceiptItems.GroupItemsByCategory | utils/ocrProcessor.ts:142-152 | fails with a TypeError exactly when a grouped category names an `Object.prototype` member; otherwise each non-empty category maps to its items in order |
| ReceiptItems.GroupKeys | utils/ocrProcessor.ts:142-152 | the keys are the non-empty unique categories, each once |
| ReceiptItems.GroupingKeys | utils/ocrProcessor.ts:142-152 | a grouping has exactly those keys |
| ReceiptItems.GroupSizes | utils/ocrProcessor.ts:142-152 | no item is lost or counted twice: the group sizes add up to the number of items with a non-empty category |
| ReceiptItems.GroupSizesStep | utils/ocrProcessor.ts:144-148 | one more item keeps the group sizes adding up to the number of categorised items |
| ReceiptItems.ParsedItemsGroup | utils/ocrProcessor.ts:116 | items the parser produces never make grouping throw |
| SpeechRecognition.Supported | utils/speechRecognition.ts:119-124 | supported means web platform plus an engine constructor |
| SpeechRecognition.SpeechRecognizer.constructor | utils/speechRecognition.ts:52-62 | an engine exactly when supported, set to continuous and interim results; not listening |
| SpeechRecognition.SpeechRecognizer.StartFailed | utils/speechRecognition.ts:96-100 | stops listening, reports "Failed to start speech recognition" and logs the error |
| SpeechRecognition.SpeechRecognizer.Start | utils/speechRecognition.ts:64-101 | ignored while listening; on mobile, reports the mobile message; without an engine or when its start throws, reports the start failure; otherwise installs both handlers, starts the engine and listens |
| SpeechRecognition.SpeechRecognizer.Stop | utils/speechRecognition.ts:103-117 | ignored unless listening; otherwise stops the engine, logs a throwing stop, and always ends listening |
| SpeechRecognition.SpeechRecognizer.IsSupported | utils/speechRecognition.ts:119-124 | true exactly on the web with an engine constructor available |
| SpeechRecognition.SpeechRecognizer.DeliverResult | utils/speechRecognition.ts:77-84 | forwards the last result's first alternative; throws in the handler when there is none |
| SpeechRecognition.SpeechRecognizer.DeliverError | utils/speechRecognition.ts:86-88 | forwards the error code verbatim and leaves listening unchanged |
| SpeechRecognition.StartTwice | utils/speechRecognition.ts:65-67 | a second start while listening does not start the engine again |
| SpeechRecognition.ResultForwarded | utils/__tests__/speechRecognition.test.ts:102-150 | a result event reaches `onResult` as text and confidence |
| SpeechRecognition.ErrorKeepsListening | utils/speechRecognition.ts:86-88 | an error event reaches `onError` with its code, and the recognizer keeps listening |
| SpeechRecognition.StartWithoutEngine | utils/__tests__/speechRecognition.test.ts:192-206 | without an engine, start reports the start failure |
| SpeechRecognition.StartThrows | utils/__tests__/speechRecognition.test.ts:208-235 | a throwing engine start is reported as the start failure |
| SpeechRecognition.StartOnMobile | utils/__tests__/speechRecognition.test.ts:237-250 | on mobile, start reports the mobile message |
| SpeechRecognition.StartThenStop | utils/__tests__/speechRecognition.test.ts:252-278 | stop after start stops the engine, and a throwing stop is logged |
| SpeechRecognition.StopWhenIdle | utils/__tests__/speechRecognition.test.ts:280-305 | stop when not listening does not touch the engine |
| SpeechRecognition.SupportMatchesEngine | utils/__tests__/speechRecognition.test.ts:37-69 | `isSupported` agrees with whether the constructor made an engine, and is false on mobile |
| SpokenItems.DollarsAndCentsParts | utils/speechRecognition.ts:130 | both groups of a phrase match are digit runs, followed by "d…" and "c…" |
| SpokenItems.PhraseNeedsLetters | utils/speechRecognition.ts:130 | no phrase without a 'd' or without a 'c' |
| SpokenItems.SpokenPriceParts | utils/speechRecognition.ts:144 | a price match is dollar signs, white space, then a numeral starting with a digit |
| SpokenItems.FirstDigit | utils/speechRecognition.ts:144 | the index of the first digit |
| SpokenItems.NumeralEnd | utils/speechRecognition.ts:144 | from a digit, the text up to the end is a numeral, and the character after it is neither a digit nor a second point, so the numeral cannot be extended |
| SpokenItems.SpokenPriceSpec | utils/speechRecognition.ts:144-145 | a price exactly when the text has a digit; it is the longest numeral starting at the first digit |
| SpokenItems.TidySpec | utils/speechRecognition.ts:153-154 | the tidied text is exactly the words of the input (maximal runs without white space) joined by single spaces; hence no white space at the ends, no two white-space characters side by side, every character that is not white space kept in order, and nothing else but spaces |
| SpokenItems.TidyWords | utils/speechRecognition.ts:153-154 | `replace(/\s+/g, ' ')` then `trim` is the words of the text joined by single spaces |
| SpokenItems.CollapseWords | utils/speechRecognition.ts:137 | `replace(/\s+/g, ' ')` turns every white-space run into exactly one space: the text's words joined by single spaces, with one space in front when the text starts with white space and one behind when it ends with white space after a word |
| SpokenItems.TrimCollapsed | utils/speechRecognition.ts:138 | trimming the collapsed text drops just those end spaces, leaving the words joined by single spaces |
| SpokenItems.CollapseKeeps | utils/speechRecognition.ts:137 | `replace(/\s+/g, ' ')` keeps every character that is not white space, in order |
| JsString.TrimKeepsNonSpace | utils/speechRecognition.ts:138 | `trim` removes only white space |
| SpokenItems.StripBareNumbers | utils/speechRecognition.ts:152 | after the last strip pass no digit is left |
| SpokenItems.StripAmountsNoDigit | utils/speechRecognition.ts:148-152 | the four strip passes leave no digit |
| SpokenItems.TidyNoDigit | utils/speechRecognition.ts:153-154 | tidying brings in no digit |
| SpokenItems.NoDigitKept | utils/speechRecognition.ts:149-152 | a strip pass leaves a text without digits as it is |
| SpokenItems.TidyPlain | utils/speechRecognition.ts:153-154 | a text without white space is already tidy |
| SpokenItems.PhraseValue | utils/speechRecognition.ts:132-139 | the phrase price is never negative |
| SpokenItems.SpokenNameTidy | utils/speechRecognition.ts:128-157 | on both paths the name is trimmed and has no white-space runs |
| SpokenItems.PhrasePath | utils/speechRecognition.ts:130-141 | with a phrase, the price is dollars plus cents over a hundred of the leftmost phrase, which is the backtracking match; the name is exactly the words of the text left once every phrase is cut out, joined by single spaces |
| SpokenItems.PhraseName | utils/speechRecognition.ts:135-138 | with a phrase, the name is exactly the words of the pieces of text between the phrases that `replace` with `g` cuts out, joined by single spaces; its characters other than white space are those of the pieces, in order |
| SpokenItems.PhraseCuts | utils/speechRecognition.ts:136 | every stretch cut out of the name is a dollars-and-cents phrase of the text |
| SpokenItems.PhrasePrice | utils/speechRecognition.ts:132-139 | the same price, from the greedy match |
| SpokenItems.NumberPath | utils/speechRecognition.ts:143-156 | without a phrase, a price exactly when the text has a digit: the numeral at the first digit; the name is exactly the words left by the four strip passes, joined by single spaces, and has no digit |
| SpokenItems.NumberPathName | utils/speechRecognition.ts:148-154 | without a phrase, the name holds no digit |
| SpokenItems.NoNumberItem | utils/speechRecognition.ts:143-156 | a text without a digit has no price and is its own name, tidied |
| SpokenItems.WordItem | utils/speechRecognition.ts:143-156 | a run of lower-case letters is its own name, without a price |
| SpokenItems.AppleHasNoPrice | utils/__tests__/speechRecognition.test.ts:347-349 | "apple" gives the name "apple" and no price |
| SpokenExamples.MilkPrice | utils/__tests__/speechRecognition.test.ts:343-345 | "milk $3.99" is priced 3.99 |
| SpokenExamples.MilkItem | utils/__tests__/speechRecognition.test.ts:343-345 | "milk $3.99" gives the name "milk" and the price 3.99 |
| SpokenExamples.MilkOrItem | utils/__tests__/speechRecognition.test.ts:363-365 | "milk $3.99 or $4.99" gives the name "milk or" and the first price, 3.99 |
| SpokenExamples.CoffeeItem | utils/__tests__/speechRecognition.test.ts:367-369 | "coffee 5 dollars and 50 cents" gives the name "coffee" and the price 5.5 |

## Left out

- Text recognition. `processReceipt` creates a Tesseract worker, makes an object URL for a file or blob, recognises the image and frees the URL. None of this is modelled: the recognised text is an input to `ProcessReceipt`, as an `Option` whose `None` stands for any failure of that step.
- `processReceipt` writes to the console before it rethrows. The model keeps only the rethrown error message.
- Asynchrony. `start`, `stop` and `processReceipt` are `async`. The model runs them to completion, and engine events are method calls made afterwards.
- The platform and the browser globals. `Platform.OS` and the presence of `window.SpeechRecognition` or `window.webkitSpeechRecognition` are parameters. The engine's behaviour is also a parameter: whether its `start` or `stop` throws, and the events it delivers.
- SpeechRecognition.SpeechRecognizer.Start: the `console.error` call is recorded by its message only, not by the error object. The engine's `continuous` and `interimResults` flags are plain fields.
- SpeechRecognition.SpeechRecognizer.DeliverResult: the handler that throws on a missing result is modelled by a flag. Where the exception goes after that lies in the browser, outside the source.
- Floating point. `parseFloat`, `parseInt` and `dollars + cents / 100` give exact rational values here. IEEE-754 rounding (3.99 is not exactly representable) and `parseInt` overflow to imprecise doubles are not modelled.
- Case folding. `toLowerCase` is modelled exactly on ASCII and on KELVIN SIGN (U+212A, which lower-cases to 'k'). Other non-ASCII characters are kept unchanged. That cannot change whether an ASCII keyword occurs, except through characters that lower-case to several characters. U+0130 is the only such character in the default mapping, and it gives "i̇", which no keyword contains.
- The regular-expression engine covers only the constructs the two files use: single-character classes with greedy quantifiers and optional groups. Capture groups are read off the match boundaries.
- ReceiptParser.ExtractPrice and ReceiptParser.ExtractDate model `extractPrice` and `extractDate`, which the source defines but never calls. `processReceipt` uses its own patterns inline, modelled by `LinePrice`, `ExtractDate` and `TotalAmount`.
- ReceiptItems.GroupItemsByCategory: the result is a map, so the order of the keys of the returned object (insertion order) is not modelled. `GroupKeys` gives that order separately, for the distinct categories.
- SpokenItems: of the source's test examples, the whole results for "apple", "milk $3.99", "milk $3.99 or $4.99" and "coffee 5 dollars and 50 cents" are proved for the concrete strings. "bread 5 dollars", "coffee 2.50" and "eggs 4" are not worked out; they follow the number path that `NumberPath` states in general.
- SpeechRecognition.SpeechRecognizer: the caller's `onResult` and `onError` callbacks are modelled as identifiers, and are assumed not to throw. In the source, a throwing mobile `onError` (utils/speechRecognition.ts:94) is inside the `try`, so its exception reaches the `catch` (96-99), which calls `onError` again with 'Failed to start speech recognition'. A throwing `onResult` (83) or `onError` in the error handler (87) escapes that handler. Neither path is modelled.
