/** The pieces of JavaScript's string library that the two parsers rely on:
    the `\d` and `\s` regular-expression classes, `trim`, `toLowerCase`,
    `includes` and `split` with a one-character separator. */
module JsString {

  /** `\d`: an ASCII decimal digit. */
  predicate IsDigit(c: char) {
    '0' <= c <= '9'
  }

  /** `\s`, which is also the set `trim` removes: the WhiteSpace and
      LineTerminator code points of ECMAScript. */
  predicate IsSpace(c: char) {
    c == '\t' || c == '\n' || c == '\U{000B}' || c == '\U{000C}' || c == '\r' ||
    c == ' ' || c == '\U{00A0}' || c == '\U{1680}' || ('\U{2000}' <= c <= '\U{200A}') ||
    c == '\U{2028}' || c == '\U{2029}' || c == '\U{202F}' || c == '\U{205F}' ||
    c == '\U{3000}' || c == '\U{FEFF}'
  }

  lemma SpaceIsNoDigit(c: char)
    requires IsSpace(c)
    ensures !IsDigit(c)
  {
  }

  predicate HasDigit(s: string) {
    exists k :: 0 <= k < |s| && IsDigit(s[k])
  }

  predicate AllSpaces(s: string) {
    forall k :: 0 <= k < |s| ==> IsSpace(s[k])
  }

  /** `s` has no white space at either end. */
  predicate Trimmed(s: string) {
    s == [] || (!IsSpace(s[0]) && !IsSpace(s[|s| - 1]))
  }

  /** The first index at or after `i` that does not hold white space. */
  function SkipSpaces(s: string, i: nat): (e: nat)
    requires i <= |s|
    ensures i <= e <= |s| && (e == |s| || !IsSpace(s[e]))
    ensures forall k :: i <= k < e ==> IsSpace(s[k])
    decreases |s| - i
  {
    if i < |s| && IsSpace(s[i]) then SkipSpaces(s, i + 1) else i
  }

  /** The last index at or before `j` that does not follow white space. */
  function BackSpaces(s: string, j: nat): (e: nat)
    requires j <= |s|
    ensures e <= j && (e == 0 || !IsSpace(s[e - 1]))
    ensures forall k :: e <= k < j ==> IsSpace(s[k])
  {
    if j > 0 && IsSpace(s[j - 1]) then BackSpaces(s, j - 1) else j
  }

  /** `trimStart`: drops the leading white space, keeps the rest as it is. */
  function TrimStart(s: string): (r: string)
    ensures |r| <= |s| && r == s[|s| - |r|..]
    ensures AllSpaces(s[..|s| - |r|])
    ensures r == [] || !IsSpace(r[0])
  {
    s[SkipSpaces(s, 0)..]
  }

  /** `trimEnd`: drops the trailing white space, keeps the rest as it is. */
  function TrimEnd(s: string): (r: string)
    ensures |r| <= |s| && r == s[..|r|]
    ensures AllSpaces(s[|r|..])
    ensures r == [] || !IsSpace(r[|r| - 1])
  {
    s[..BackSpaces(s, |s|)]
  }

  /** `trim`: the result is the slice of `s` that starts where `trimStart`
      stops, with no white space at either end; everything cut away is
      white space. */
  function Trim(s: string): (r: string)
    ensures Trimmed(r)
    ensures var a := |s| - |TrimStart(s)|;
            a + |r| <= |s| && r == s[a..a + |r|] && AllSpaces(s[..a]) && AllSpaces(s[a + |r|..])
  {
    var t := TrimStart(s);
    var r := TrimEnd(t);
    TrimSlices(s, t, r);
    assert r != [] ==> r[0] == t[0];
    r
  }

  lemma TrimSlices(s: string, t: string, r: string)
    requires |t| <= |s| && t == s[|s| - |t|..] && AllSpaces(s[..|s| - |t|])
    requires |r| <= |t| && r == t[..|r|] && AllSpaces(t[|r|..])
    ensures var a := |s| - |t|;
            r == s[a..a + |r|] && AllSpaces(s[..a]) && AllSpaces(s[a + |r|..])
  {
    var a := |s| - |t|;
    assert s[a + |r|..] == t[|r|..];
  }

  lemma {:induction false} TrimStartOfTrimmed(s: string)
    requires s == [] || !IsSpace(s[0])
    ensures TrimStart(s) == s
  {
  }

  /** A string without white space at its ends is its own trim; in particular
      `trim` is idempotent. */
  lemma TrimOfTrimmed(s: string)
    requires Trimmed(s)
    ensures Trim(s) == s
  {
    TrimStartOfTrimmed(s);
  }

  lemma TrimIdempotent(s: string)
    ensures Trim(Trim(s)) == Trim(s)
  {
    TrimOfTrimmed(Trim(s));
  }

  /** The characters of `s` that are not white space, in their order. */
  function NonSpace(s: string): string {
    if s == [] then [] else (if IsSpace(s[0]) then [] else [s[0]]) + NonSpace(s[1..])
  }

  lemma {:induction false} NonSpaceAppend(a: string, b: string)
    ensures NonSpace(a + b) == NonSpace(a) + NonSpace(b)
  {
    if a == [] {
      assert a + b == b;
    } else {
      assert (a + b)[0] == a[0] && (a + b)[1..] == a[1..] + b;
      NonSpaceAppend(a[1..], b);
    }
  }

  lemma {:induction false} NonSpaceOfSpaces(s: string)
    requires AllSpaces(s)
    ensures NonSpace(s) == []
  {
    if s != [] {
      NonSpaceOfSpaces(s[1..]);
    }
  }

  /** `trim` only removes white space: every other character stays, in
      order. */
  lemma TrimKeepsNonSpace(s: string)
    ensures NonSpace(Trim(s)) == NonSpace(s)
  {
    var r := Trim(s);
    var a := |s| - |TrimStart(s)|;
    var l, rr := s[..a], s[a + |r|..];
    assert s == l + r + rr;
    NonSpacePadded(l, r, rr);
  }

  lemma NonSpacePadded(l: string, m: string, r: string)
    requires AllSpaces(l) && AllSpaces(r)
    ensures NonSpace(l + m + r) == NonSpace(m)
  {
    NonSpaceAppend(l + m, r);
    NonSpaceAppend(l, m);
    NonSpaceOfSpaces(l);
    NonSpaceOfSpaces(r);
  }

  /** Trimming white space off both sides of a trimmed string gives it
      back. */
  lemma TrimPadded(l: string, j: string, r: string)
    requires AllSpaces(l) && AllSpaces(r) && Trimmed(j)
    ensures Trim(l + j + r) == j
  {
    var u := l + j + r;
    var t := Trim(u);
    var a := |u| - |TrimStart(u)|;
    assert AllSpaces(u[..a]) && AllSpaces(u[a + |t|..]);
    if j != [] {
      assert u[|l|] == j[0] && u[|l| + |j| - 1] == j[|j| - 1];
      assert u[..a + |t|] == u[..a] + t;
    }
    assert t == u[|l|..|l| + |j|];
  }

  /* ---------- words ---------- */

  /** A word: a non-empty string without white space. */
  predicate IsWord(w: string) {
    w != [] && forall k :: 0 <= k < |w| ==> !IsSpace(w[k])
  }

  /** Length of the run of characters other than white space at the start
      of `t`. */
  function WordLen(t: string): (n: nat)
    ensures n <= |t| && (n == |t| || IsSpace(t[n]))
    ensures forall k :: 0 <= k < n ==> !IsSpace(t[k])
  {
    if t == [] || IsSpace(t[0]) then 0
    else
      var n := 1 + WordLen(t[1..]);
      assert forall k :: 1 <= k < n ==> t[k] == t[1..][k - 1];
      n
  }

  /** The words of `t`: its maximal runs without white space, in order. */
  function Words(t: string): seq<string>
    decreases |t|
  {
    if t == [] then []
    else if IsSpace(t[0]) then Words(t[1..])
    else [t[..WordLen(t)]] + Words(t[WordLen(t)..])
  }

  /** Words joined by single spaces. */
  function JoinSpace(ws: seq<string>): string {
    if ws == [] then "" else if |ws| == 1 then ws[0] else ws[0] + " " + JoinSpace(ws[1..])
  }

  /** Every word of a text is a word. */
  lemma {:induction false} WordsAreWords(t: string)
    ensures forall w :: w in Words(t) ==> IsWord(w)
    decreases |t|
  {
    if t != [] {
      if IsSpace(t[0]) {
        WordsAreWords(t[1..]);
      } else {
        WordsAreWords(t[WordLen(t)..]);
      }
    }
  }

  /** White space in front of a text adds no word. */
  lemma {:induction false} WordsAfterSpaces(run: string, rest: string)
    requires AllSpaces(run)
    ensures Words(run + rest) == Words(rest)
    decreases |run|
  {
    if run != [] {
      assert (run + rest)[0] == run[0] && (run + rest)[1..] == run[1..] + rest;
      assert AllSpaces(run[1..]) by {
        forall k | 0 <= k < |run| - 1 ensures IsSpace(run[1..][k]) {
          assert run[1..][k] == run[k + 1];
        }
      }
      WordsAfterSpaces(run[1..], rest);
    } else {
      assert run + rest == rest;
    }
  }

  /** A word followed by white space, or by nothing, is the first word. */
  lemma WordsOfWord(a: string, rest: string)
    requires IsWord(a) && (rest == [] || IsSpace(rest[0]))
    ensures Words(a + rest) == [a] + Words(rest)
  {
    var t := a + rest;
    WordLenOf(a, rest);
    assert t[..|a|] == a && t[|a|..] == rest;
  }

  lemma {:induction false} WordLenOf(a: string, rest: string)
    requires (forall k :: 0 <= k < |a| ==> !IsSpace(a[k])) && (rest == [] || IsSpace(rest[0]))
    ensures WordLen(a + rest) == |a|
    decreases |a|
  {
    if a == [] {
      assert a + rest == rest;
    } else {
      assert (a + rest)[1..] == a[1..] + rest;
      WordLenOf(a[1..], rest);
    }
  }

  /** A text that starts with a character other than white space has a
      word. */
  lemma WordsStartWord(t: string)
    requires t != [] && !IsSpace(t[0])
    ensures Words(t) != []
  {
  }

  /** Joining a word in front of other words puts one space between. */
  lemma JoinCons(a: string, ws: seq<string>)
    requires ws != []
    ensures JoinSpace([a] + ws) == a + " " + JoinSpace(ws)
  {
    assert ([a] + ws)[1..] == ws;
  }

  /** Words joined by single spaces have no white space at the ends, and
      are empty only when there is no word. */
  lemma {:induction false} JoinTrimmed(ws: seq<string>)
    requires forall w :: w in ws ==> IsWord(w)
    ensures Trimmed(JoinSpace(ws)) && (JoinSpace(ws) == [] <==> ws == [])
    ensures ws != [] ==> JoinSpace(ws)[0] == ws[0][0]
  {
    if |ws| > 1 {
      assert ws[0] in ws && ws[1..][0] in ws;
      JoinTrimmed(ws[1..]);
      var j := JoinSpace(ws[1..]);
      assert JoinSpace(ws) == ws[0] + " " + j;
      assert JoinSpace(ws)[|JoinSpace(ws)| - 1] == j[|j| - 1];
    } else if ws != [] {
      assert ws[0] in ws;
    }
  }

  /** Splitting words joined by single spaces gives the words back. */
  lemma {:induction false} WordsOfJoin(ws: seq<string>)
    requires forall w :: w in ws ==> IsWord(w)
    ensures Words(JoinSpace(ws)) == ws
  {
    if |ws| == 1 {
      assert ws[0] in ws;
      WordAlone(ws[0], ws);
    } else if ws != [] {
      assert ws[0] in ws;
      var rest := ws[1..];
      assert forall w :: w in rest ==> w in ws;
      WordsOfJoin(rest);
      JoinCons(ws[0], rest);
      assert [ws[0]] + rest == ws;
      WordThenSpace(ws[0], JoinSpace(rest), rest);
    }
  }

  /** A lone word is its only word. */
  lemma WordAlone(a: string, ws: seq<string>)
    requires IsWord(a) && ws == [a]
    ensures Words(JoinSpace(ws)) == ws
  {
    WordsOfWord(a, []);
    assert a + [] == a;
  }

  /** A word, one space, then a text: the word comes first. */
  lemma WordThenSpace(a: string, j: string, rest: seq<string>)
    requires IsWord(a) && Words(j) == rest
    ensures Words(a + " " + j) == [a] + rest
  {
    assert a + " " + j == a + (" " + j);
    WordsOfWord(a, " " + j);
    assert AllSpaces(" ");
    WordsAfterSpaces(" ", j);
  }

  /** `toLowerCase` on one character, as far as it can matter for ASCII
      keywords: ASCII capitals, and KELVIN SIGN, which lower-cases to an
      ASCII 'k'. Every other character is either unchanged or lower-cases to
      characters outside ASCII letters (U+0130 gives "i" followed by U+0307,
      which no ASCII keyword can match across). */
  function Lower(c: char): char {
    if 'A' <= c <= 'Z' then (c as int + 32) as char
    else if c == '\U{212A}' then 'k'
    else c
  }

  /** The characters that lower-case to an ASCII letter other than 'k' are
      that letter and its capital. */
  lemma LowerLetter(c: char, lo: char, up: char)
    requires 'a' <= lo <= 'z' && lo != 'k' && up as int == lo as int - 32 && Lower(c) == lo
    ensures c == lo || c == up
  {
  }

  /** `toLowerCase`, character by character. */
  function ToLowerCase(s: string): (r: string)
    ensures |r| == |s|
    ensures forall k :: 0 <= k < |s| ==> r[k] == Lower(s[k])
  {
    if s == [] then [] else [Lower(s[0])] + ToLowerCase(s[1..])
  }

  /** `k` occurs in `s` starting at index `i`. */
  predicate OccursAt(s: string, k: string, i: nat) {
    i + |k| <= |s| && s[i..i + |k|] == k
  }

  /** `s.includes(k)`. */
  predicate Includes(s: string, k: string) {
    exists i :: 0 <= i <= |s| && OccursAt(s, k, i)
  }

  /** Index of the first `c` in `s`. */
  function IndexOf(s: string, c: char): (k: nat)
    requires c in s
    ensures k < |s| && s[k] == c && c !in s[..k]
  {
    if s[0] == c then 0 else 1 + IndexOf(s[1..], c)
  }

  /** The first `c` is the one with no `c` before it. */
  lemma IndexOfAt(s: string, c: char, k: nat)
    requires k < |s| && s[k] == c && c !in s[..k]
    ensures IndexOf(s, c) == k
  {
  }

  /** `s.split(sep)` for a one-character separator `sep`. */
  function Split(s: string, sep: char): (parts: seq<string>)
    ensures |parts| >= 1
    ensures forall k :: 0 <= k < |parts| ==> sep !in parts[k]
    decreases |s|
  {
    if sep !in s then [s]
    else
      var k := IndexOf(s, sep);
      [s[..k]] + Split(s[k + 1..], sep)
  }

  /** `parts.join(sep)`. */
  function Join(parts: seq<string>, sep: char): string {
    if parts == [] then []
    else if |parts| == 1 then parts[0]
    else parts[0] + [sep] + Join(parts[1..], sep)
  }

  /** Splitting loses nothing: joining the pieces gives the text back. */
  lemma {:induction false} JoinSplit(s: string, sep: char)
    ensures Join(Split(s, sep), sep) == s
    decreases |s|
  {
    if sep in s {
      var k := IndexOf(s, sep);
      var parts := Split(s, sep);
      var rest := Split(s[k + 1..], sep);
      assert parts == [s[..k]] + rest;
      assert parts[1..] == rest;
      JoinSplit(s[k + 1..], sep);
      assert Join(parts, sep) == s[..k] + [sep] + s[k + 1..];
      assert s == s[..k] + [sep] + s[k + 1..];
    }
  }

  /** And the other way round: pieces without the separator come back out of
      `split` exactly as they were joined. */
  lemma {:induction false} SplitJoin(parts: seq<string>, sep: char)
    requires |parts| >= 1
    requires forall k :: 0 <= k < |parts| ==> sep !in parts[k]
    ensures Split(Join(parts, sep), sep) == parts
  {
    if |parts| > 1 {
      var s := Join(parts, sep);
      assert s == parts[0] + [sep] + Join(parts[1..], sep);
      assert s[|parts[0]|] == sep;
      assert s[..|parts[0]|] == parts[0];
      assert sep in s;
      var k := IndexOf(s, sep);
      assert k == |parts[0]|;
      assert s[k + 1..] == Join(parts[1..], sep);
      SplitJoin(parts[1..], sep);
    }
  }

  /** `s.replace(c, "")` with a one-character string pattern: only the first
      occurrence goes: the result is the input with one character cut out,
      at the first position that holds `c`. */
  function RemoveFirst(s: string, c: char): (r: string)
    ensures c !in s ==> r == s
    ensures c in s ==> exists i :: 0 <= i < |s| && s[i] == c && c !in s[..i] && r == s[..i] + s[i + 1..]
  {
    if c in s then s[..IndexOf(s, c)] + s[IndexOf(s, c) + 1..] else s
  }
}
