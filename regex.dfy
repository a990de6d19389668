/** The fragment of JavaScript regular expressions the parsers use: a pattern
    is a sequence of single-character classes, each with a greedy `{min,max}`
    quantifier, and non-repeated optional groups `(?:...)?` of such atoms.

    Three semantics are given for a pattern matched at a fixed position:
     - `Accepts`, declarative: which boundary sequences form a match;
     - `Bt`, the backtracking order of ECMAScript (section 22.2.2 of
       ECMA-262): a greedy quantifier tries the longest run first and then
       gives back one character at a time, an optional group is tried before
       it is skipped;
     - `Scan`, a greedy matcher that never gives characters back.
    `Bt` is sound and complete for `Accepts`, and for "committed" patterns
    (all the patterns in this project) `Scan` and `Bt` agree.

    A match is described by its boundaries `b`: `b[0]` is where it starts and
    `b[e + 1]` is where pattern element `e` stops, so the last entry is the
    end of the match and a capture group over elements `x..y-1` is the slice
    `s[b[x]..b[y]]`. */
module Regex {
  import opened Wrappers
  import opened JsString

  datatype CharClass = Digit | Space | Chr(c: char) | Either(a: char, b: char)

  predicate InClass(cls: CharClass, ch: char) {
    match cls
    case Digit => IsDigit(ch)
    case Space => IsSpace(ch)
    case Chr(c) => ch == c
    case Either(a, b) => ch == a || ch == b
  }

  /** A sufficient, syntactic test that two classes share no character. */
  predicate Disjoint(c: CharClass, d: CharClass) {
    match (c, d)
    case (Chr(a), _) => !InClass(d, a)
    case (Either(a, b), _) => !InClass(d, a) && !InClass(d, b)
    case (_, Chr(a)) => !InClass(c, a)
    case (_, Either(a, b)) => !InClass(c, a) && !InClass(c, b)
    case (Digit, Space) => true
    case (Space, Digit) => true
    case _ => false
  }

  lemma DisjointMeans(c: CharClass, d: CharClass, ch: char)
    requires Disjoint(c, d) && InClass(c, ch)
    ensures !InClass(d, ch)
  {
  }

  datatype Bound = AtMost(n: nat) | Unbounded

  predicate Fits(b: Bound, k: nat) {
    b.Unbounded? || k <= b.n
  }

  /** `Repeat` is an atom with its quantifier; `Optional(len)` opens an
      optional group made of the `len` elements that follow it. */
  datatype Elem = Repeat(cls: CharClass, min: nat, max: Bound) | Optional(len: nat)

  type Pattern = seq<Elem>

  /** A literal character, `c?`, `c*` and `c+`. */
  function One(c: char): Elem { Repeat(Chr(c), 1, AtMost(1)) }
  function Maybe(cls: CharClass): Elem { Repeat(cls, 0, AtMost(1)) }
  function Many(cls: CharClass): Elem { Repeat(cls, 0, Unbounded) }
  function Some1(cls: CharClass): Elem { Repeat(cls, 1, Unbounded) }

  /** First element after the optional group that starts at `j`. */
  function Skip(p: Pattern, j: nat): (k: nat)
    requires j < |p| && p[j].Optional?
    ensures j < k <= |p|
  {
    if j + 1 + p[j].len <= |p| then j + 1 + p[j].len else |p|
  }

  predicate AllIn(cls: CharClass, s: string, x: nat, y: nat)
    requires x <= y <= |s|
  {
    forall k :: x <= k < y ==> InClass(cls, s[k])
  }

  /** Length of the run of `cls` characters starting at `i`. */
  function Span(cls: CharClass, s: string, i: nat): (n: nat)
    requires i <= |s|
    ensures i + n <= |s| && AllIn(cls, s, i, i + n)
    ensures i + n == |s| || !InClass(cls, s[i + n])
    decreases |s| - i
  {
    if i < |s| && InClass(cls, s[i]) then 1 + Span(cls, s, i + 1) else 0
  }

  /** The most a quantifier bounded by `b` can take of `k` characters. */
  function Cap(b: Bound, k: nat): (r: nat)
    ensures r <= k && Fits(b, r)
    ensures forall m: nat :: m <= k && Fits(b, m) ==> m <= r
  {
    match b
    case AtMost(n) => if k <= n then k else n
    case Unbounded => k
  }

  /** How many characters a greedy quantifier takes at `i`. */
  function Take(cls: CharClass, max: Bound, s: string, i: nat): (k: nat)
    requires i <= |s|
    ensures i + k <= |s|
  {
    Cap(max, Span(cls, s, i))
  }

  /** An unbounded quantifier takes the whole run. */
  lemma TakeUnbounded(cls: CharClass, s: string, i: nat)
    requires i <= |s|
    ensures Take(cls, Unbounded, s, i) == Span(cls, s, i)
  {
  }

  predicate Monotone(b: seq<nat>) {
    forall x, y :: 0 <= x <= y < |b| ==> b[x] <= b[y]
  }

  /** `b` is a boundary sequence for `n` elements starting at `i`, inside a
      string of length `len`. */
  predicate Bounds(b: seq<nat>, n: nat, i: nat, len: nat) {
    |b| == n + 1 && b[0] == i && Monotone(b) && b[n] <= len
  }

  function Then(i: nat, r: Option<seq<nat>>): (q: Option<seq<nat>>)
    ensures q.Some? <==> r.Some?
    ensures q.Some? ==> q.value == [i] + r.value
  {
    if r.Some? then Some([i] + r.value) else None
  }

  /** `n` empty elements in front of `r`. */
  function Fill(i: nat, n: nat, r: Option<seq<nat>>): (q: Option<seq<nat>>)
    ensures q.Some? <==> r.Some?
    ensures q.Some? ==> |q.value| == n + |r.value| && q.value[n..] == r.value &&
                        forall e :: 0 <= e < n ==> q.value[e] == i
  {
    if n == 0 then r else Then(i, Fill(i, n - 1, r))
  }

  lemma BoundsCons(b: seq<nat>, n: nat, i: nat, i': nat, len: nat)
    requires Bounds(b, n, i', len) && i <= i'
    ensures Bounds([i] + b, n + 1, i, len)
  {
    var c := [i] + b;
    forall x, y | 0 <= x <= y < |c|
      ensures c[x] <= c[y]
    {
      if x > 0 {
        assert c[x] == b[x - 1] && c[y] == b[y - 1];
      } else {
        assert c[y] == i || c[y] == b[y - 1];
      }
    }
  }

  lemma BoundsFill(r: Option<seq<nat>>, n: nat, m: nat, i: nat, len: nat)
    requires r.Some? && Bounds(r.value, m, i, len)
    ensures Fill(i, n, r).Some? && Bounds(Fill(i, n, r).value, n + m, i, len)
  {
    if n > 0 {
      BoundsFill(r, n - 1, m, i, len);
      BoundsCons(Fill(i, n - 1, r).value, n - 1 + m, i, i, len);
    }
  }

  /** The boundary sequences that form a match of `p[j..]` starting at
      `b[0]`. */
  predicate Accepts(p: Pattern, j: nat, s: string, b: seq<nat>)
    requires j <= |p|
    decreases |p| - j
  {
    |b| == |p| - j + 1 && b[0] <= |s| &&
    (j == |p| ||
     match p[j]
     case Repeat(c, mn, mx) =>
       b[0] <= b[1] <= |s| && mn <= b[1] - b[0] && Fits(mx, b[1] - b[0]) &&
       AllIn(c, s, b[0], b[1]) && Accepts(p, j + 1, s, b[1..])
     case Optional(_) =>
       b[1] == b[0] &&
       (Accepts(p, j + 1, s, b[1..]) ||
        ((forall e :: 1 <= e <= Skip(p, j) - j ==> b[e] == b[0]) &&
         Accepts(p, Skip(p, j), s, b[Skip(p, j) - j..]))))
  }

  /** The ECMAScript backtracking matcher. */
  function Bt(p: Pattern, j: nat, s: string, i: nat): (r: Option<seq<nat>>)
    requires j <= |p| && i <= |s|
    ensures r.Some? ==> Bounds(r.value, |p| - j, i, |s|)
    decreases |p| - j, 1, 0
  {
    if j == |p| then Some([i])
    else match p[j]
      case Repeat(c, mn, mx) =>
        TryDown(p, j, s, i, Take(c, mx, s, i))
      case Optional(_) =>
        var r := Bt(p, j + 1, s, i);
        if r.Some? then
          BoundsCons(r.value, |p| - j - 1, i, i, |s|);
          Then(i, r)
        else
          var k := Skip(p, j);
          var q := Bt(p, k, s, i);
          if q.Some? then
            BoundsFill(q, k - j - 1, |p| - k, i, |s|);
            BoundsCons(Fill(i, k - j - 1, q).value, |p| - j - 1, i, i, |s|);
            Then(i, Fill(i, k - j - 1, q))
          else None
  }

  /** Element `j` takes `k` characters, then fewer and fewer. */
  function TryDown(p: Pattern, j: nat, s: string, i: nat, k: nat): (r: Option<seq<nat>>)
    requires j < |p| && p[j].Repeat? && i + k <= |s|
    ensures r.Some? ==> Bounds(r.value, |p| - j, i, |s|)
    decreases |p| - j, 0, k
  {
    if k < p[j].min then None
    else
      var r := Bt(p, j + 1, s, i + k);
      if r.Some? then
        BoundsCons(r.value, |p| - j - 1, i, i + k, |s|);
        Then(i, r)
      else if k == 0 then None
      else TryDown(p, j, s, i, k - 1)
  }

  /** The greedy matcher: an element never gives characters back; only an
      optional group that leads to failure is retried as skipped. */
  function Scan(p: Pattern, j: nat, s: string, i: nat): (r: Option<seq<nat>>)
    requires j <= |p| && i <= |s|
    ensures r.Some? ==> Bounds(r.value, |p| - j, i, |s|)
    decreases |p| - j
  {
    if j == |p| then Some([i])
    else match p[j]
      case Repeat(c, mn, mx) =>
        var k := Take(c, mx, s, i);
        if k < mn then None
        else
          var r := Scan(p, j + 1, s, i + k);
          if r.Some? then
            BoundsCons(r.value, |p| - j - 1, i, i + k, |s|);
            Then(i, r)
          else None
      case Optional(_) =>
        var r := Scan(p, j + 1, s, i);
        if r.Some? then
          BoundsCons(r.value, |p| - j - 1, i, i, |s|);
          Then(i, r)
        else
          var k := Skip(p, j);
          var q := Scan(p, k, s, i);
          if q.Some? then
            BoundsFill(q, k - j - 1, |p| - k, i, |s|);
            BoundsCons(Fill(i, k - j - 1, q).value, |p| - j - 1, i, i, |s|);
            Then(i, Fill(i, k - j - 1, q))
          else None
  }

  /* ---------- Bt against Accepts ---------- */

  lemma {:induction false} AllInShrink(cls: CharClass, s: string, x: nat, y: nat, x': nat, y': nat)
    requires x <= x' <= y' <= y <= |s| && AllIn(cls, s, x, y)
    ensures AllIn(cls, s, x', y')
  {
  }

  /** A run of `cls` characters is never longer than `Span`. */
  lemma {:induction false} SpanIsMaximal(cls: CharClass, s: string, i: nat, k: nat)
    requires i + k <= |s| && AllIn(cls, s, i, i + k)
    ensures k <= Span(cls, s, i)
    decreases k
  {
    if k > 0 {
      SpanIsMaximal(cls, s, i + 1, k - 1);
    }
  }

  lemma FitsBelow(b: Bound, k: nat, m: nat)
    requires Fits(b, k) && m <= k
    ensures Fits(b, m)
  {
  }

  /** Every match `Bt` reports is a match. */
  lemma {:induction false} BtSound(p: Pattern, j: nat, s: string, i: nat)
    requires j <= |p| && i <= |s| && Bt(p, j, s, i).Some?
    ensures Accepts(p, j, s, Bt(p, j, s, i).value)
    decreases |p| - j, 1, 0
  {
    if j < |p| {
      match p[j]
      case Repeat(c, mn, mx) =>
        TryDownSound(p, j, s, i, Take(c, mx, s, i));
      case Optional(_) =>
        if Bt(p, j + 1, s, i).Some? {
          BtSound(p, j + 1, s, i);
          assert Bt(p, j, s, i).value[1..] == Bt(p, j + 1, s, i).value;
        } else {
          BtSound(p, Skip(p, j), s, i);
          SkippedAccepts(p, j, s, i, Bt(p, Skip(p, j), s, i).value);
        }
    }
  }

  /** Skipping the optional group at `j` and matching the rest from `i`
      matches `p[j..]`. */
  lemma SkippedAccepts(p: Pattern, j: nat, s: string, i: nat, q: seq<nat>)
    requires j < |p| && p[j].Optional? && i <= |s|
    requires q != [] && q[0] == i && Accepts(p, Skip(p, j), s, q)
    ensures var b := [i] + Fill(i, Skip(p, j) - j - 1, Some(q)).value;
            b[1..] == Fill(i, Skip(p, j) - j - 1, Some(q)).value && Accepts(p, j, s, b)
  {
    var k := Skip(p, j);
    var f := Fill(i, k - j - 1, Some(q)).value;
    var b := [i] + f;
    assert b[k - j..] == f[k - j - 1..] == q;
    assert b[1..] == f;
    assert b[1] == i;
    assert forall e :: 1 <= e <= k - j ==> b[e] == i;
  }

  /** A count up to the greedy one is a run of the class within the bound. */
  lemma CountFits(c: CharClass, mx: Bound, s: string, i: nat, k: nat)
    requires i <= |s| && k <= Take(c, mx, s, i)
    ensures i + k <= |s| && AllIn(c, s, i, i + k) && Fits(mx, k)
  {
    AllInShrink(c, s, i, i + Span(c, s, i), i, i + k);
    FitsBelow(mx, Take(c, mx, s, i), k);
  }

  lemma {:induction false} TryDownSound(p: Pattern, j: nat, s: string, i: nat, k: nat)
    requires j < |p| && p[j].Repeat? && i + k <= |s|
    requires k <= Take(p[j].cls, p[j].max, s, i) && TryDown(p, j, s, i, k).Some?
    ensures Accepts(p, j, s, TryDown(p, j, s, i, k).value)
    decreases |p| - j, 0, k
  {
    var r := Bt(p, j + 1, s, i + k);
    assert p[j].min <= k;
    TryDownAt(p, j, s, i, k);
    if r.Some? {
      BtSound(p, j + 1, s, i + k);
      CountFits(p[j].cls, p[j].max, s, i, k);
      AcceptsCons(p, j, s, i, r.value);
    } else {
      TryDownSound(p, j, s, i, k - 1);
    }
  }

  /** `TryDown` succeeds as soon as one of the counts it will try works. */
  lemma {:induction false} TryDownReaches(p: Pattern, j: nat, s: string, i: nat, k: nat, k': nat)
    requires j < |p| && p[j].Repeat? && i + k <= |s|
    requires p[j].min <= k' <= k && Bt(p, j + 1, s, i + k').Some?
    ensures TryDown(p, j, s, i, k).Some?
    decreases k
  {
    if k > k' && Bt(p, j + 1, s, i + k).None? {
      TryDownReaches(p, j, s, i, k - 1, k');
    }
  }

  /** Every match is found by `Bt` (possibly a different one). */
  lemma {:induction false} BtComplete(p: Pattern, j: nat, s: string, b: seq<nat>)
    requires j <= |p| && Accepts(p, j, s, b)
    ensures Bt(p, j, s, b[0]).Some?
    decreases |p| - j
  {
    if j < |p| {
      match p[j]
      case Repeat(c, mn, mx) =>
        BtComplete(p, j + 1, s, b[1..]);
        SpanIsMaximal(c, s, b[0], b[1] - b[0]);
        TryDownReaches(p, j, s, b[0], Take(c, mx, s, b[0]), b[1] - b[0]);
      case Optional(_) =>
        if Accepts(p, j + 1, s, b[1..]) {
          BtComplete(p, j + 1, s, b[1..]);
        } else {
          BtComplete(p, Skip(p, j), s, b[Skip(p, j) - j..]);
        }
    }
  }

  /** `Bt` fails exactly when there is no match. */
  lemma BtFailsIffNoMatch(p: Pattern, j: nat, s: string, i: nat)
    requires j <= |p| && i <= |s|
    ensures Bt(p, j, s, i).None? <==> forall b :: b != [] && b[0] == i ==> !Accepts(p, j, s, b)
  {
    if Bt(p, j, s, i).Some? {
      BtSound(p, j, s, i);
    }
    forall b | b != [] && b[0] == i && Accepts(p, j, s, b)
      ensures Bt(p, j, s, i).Some?
    {
      BtComplete(p, j, s, b);
    }
  }

  /* ---------- committed patterns ---------- */

  /** A match of `p[j..]` that starts on a `c` character can always be
      started one character later instead (sufficient syntactic test). */
  predicate Shifts(c: CharClass, p: Pattern, j: nat)
    decreases |p| - j
  {
    j >= |p| ||
    match p[j]
    case Repeat(d, mn, _) =>
      if mn > 0 then Disjoint(c, d) else (Disjoint(c, d) || c == d) && Shifts(c, p, j + 1)
    case Optional(_) => Shifts(c, p, j + 1) && Shifts(c, p, Skip(p, j))
  }

  /** Every element whose count can vary is followed by a continuation that
      `Shifts` over the element's class: giving a character back can then
      never turn a failure into a success. */
  predicate Committed(p: Pattern, j: nat)
    decreases |p| - j
  {
    j >= |p| ||
    ((p[j].Repeat? && p[j].max != AtMost(p[j].min) ==> Shifts(p[j].cls, p, j + 1)) &&
     Committed(p, j + 1))
  }

  lemma {:induction false} CommittedFrom(p: Pattern, j: nat, k: nat)
    requires j <= k && Committed(p, j)
    ensures Committed(p, k)
    decreases k - j
  {
    if j < k && j < |p| {
      CommittedFrom(p, j + 1, k);
    }
  }

  lemma {:induction false} Shift(c: CharClass, p: Pattern, j: nat, s: string, b: seq<nat>) returns (b': seq<nat>)
    requires j <= |p| && Shifts(c, p, j) && Accepts(p, j, s, b)
    requires b[0] < |s| && InClass(c, s[b[0]])
    ensures Accepts(p, j, s, b') && b'[0] == b[0] + 1
    decreases |p| - j, 1
  {
    if j == |p| {
      b' := [b[0] + 1];
    } else if p[j].Repeat? {
      b' := ShiftRepeat(c, p, j, s, b);
    } else {
      b' := ShiftOptional(c, p, j, s, b);
    }
  }

  /** `Shift` at a repeated element: it takes the character itself when it
      is of the same class, and passes it on otherwise. */
  lemma {:induction false} ShiftRepeat(c: CharClass, p: Pattern, j: nat, s: string, b: seq<nat>) returns (b': seq<nat>)
    requires j < |p| && p[j].Repeat? && Shifts(c, p, j) && Accepts(p, j, s, b)
    requires b[0] < |s| && InClass(c, s[b[0]])
    ensures Accepts(p, j, s, b') && b'[0] == b[0] + 1
    decreases |p| - j, 0
  {
    var q, d := b[0], p[j].cls;
    if b[1] > q && c == d {
      b' := [q + 1] + b[1..];
      RepeatGivesOne(p, j, s, b);
    } else {
      if b[1] > q {
        assert InClass(d, s[q]);
        DisjointMeans(c, d, s[q]);
      }
      assert b[1] == q;
      var b2 := Shift(c, p, j + 1, s, b[1..]);
      b' := [q + 1] + b2;
      AcceptsCons(p, j, s, q + 1, b2);
    }
  }

  /** `Shift` at an optional group, taken or skipped as in the given match. */
  lemma {:induction false} ShiftOptional(c: CharClass, p: Pattern, j: nat, s: string, b: seq<nat>) returns (b': seq<nat>)
    requires j < |p| && p[j].Optional? && Shifts(c, p, j) && Accepts(p, j, s, b)
    requires b[0] < |s| && InClass(c, s[b[0]])
    ensures Accepts(p, j, s, b') && b'[0] == b[0] + 1
    decreases |p| - j, 0
  {
    var q := b[0];
    if Accepts(p, j + 1, s, b[1..]) {
      var b2 := Shift(c, p, j + 1, s, b[1..]);
      b' := [q + 1] + b2;
      TakenAccepts(p, j, s, b2);
    } else {
      var k := Skip(p, j);
      var b2 := Shift(c, p, k, s, b[k - j..]);
      b' := SkipGroup(p, j, s, q + 1, b2);
    }
  }

  /** Skipping the optional group at `j` in front of a match of the rest. */
  lemma SkipGroup(p: Pattern, j: nat, s: string, i: nat, q: seq<nat>) returns (b: seq<nat>)
    requires j < |p| && p[j].Optional? && i <= |s|
    requires q != [] && q[0] == i && Accepts(p, Skip(p, j), s, q)
    ensures b != [] && b[0] == i && Accepts(p, j, s, b)
  {
    SkippedAccepts(p, j, s, i, q);
    b := [i] + Fill(i, Skip(p, j) - j - 1, Some(q)).value;
  }

  /** A repeated element that took a character can start one later. */
  lemma RepeatGivesOne(p: Pattern, j: nat, s: string, b: seq<nat>)
    requires j < |p| && p[j].Repeat? && p[j].min == 0 && Accepts(p, j, s, b) && b[1] > b[0]
    ensures Accepts(p, j, s, [b[0] + 1] + b[1..])
  {
    var b' := [b[0] + 1] + b[1..];
    assert b'[1..] == b[1..];
    AllInShrink(p[j].cls, s, b[0], b[1], b[0] + 1, b[1]);
    FitsBelow(p[j].max, b[1] - b[0], b[1] - b[0] - 1);
  }

  /** Taking the optional group at `j` and matching the rest from there
      matches `p[j..]`. */
  lemma TakenAccepts(p: Pattern, j: nat, s: string, q: seq<nat>)
    requires j < |p| && p[j].Optional? && Accepts(p, j + 1, s, q)
    ensures Accepts(p, j, s, [q[0]] + q)
  {
    var b := [q[0]] + q;
    assert b[1..] == q && b[1] == b[0] && b[0] <= |s|;
  }

  lemma {:induction false} ShiftTo(c: CharClass, p: Pattern, j: nat, s: string, b: seq<nat>, t: nat) returns (b': seq<nat>)
    requires j <= |p| && Shifts(c, p, j) && Accepts(p, j, s, b)
    requires b[0] <= t <= |s| && AllIn(c, s, b[0], t)
    ensures Accepts(p, j, s, b') && b'[0] == t
    decreases t - b[0]
  {
    if b[0] == t {
      b' := b;
    } else {
      var b2 := Shift(c, p, j, s, b);
      b' := ShiftTo(c, p, j, s, b2, t);
    }
  }

  /** For committed patterns the greedy matcher is the backtracking one. */
  lemma {:induction false} ScanIsBt(p: Pattern, j: nat, s: string, i: nat)
    requires j <= |p| && i <= |s| && Committed(p, j)
    ensures Scan(p, j, s, i) == Bt(p, j, s, i)
    decreases |p| - j, 1
  {
    if j < |p| {
      CommittedFrom(p, j, j + 1);
      if p[j].Repeat? {
        RepeatIsBt(p, j, s, i);
      } else {
        OptionalIsBt(p, j, s, i);
      }
    }
  }

  /** `ScanIsBt` at a repeated element: the rest after the greedy count. */
  lemma {:induction false} RepeatIsBt(p: Pattern, j: nat, s: string, i: nat)
    requires j < |p| && p[j].Repeat? && i <= |s| && Committed(p, j) && Committed(p, j + 1)
    ensures Scan(p, j, s, i) == Bt(p, j, s, i)
    decreases |p| - j, 0
  {
    var k := Take(p[j].cls, p[j].max, s, i);
    ScanIsBt(p, j + 1, s, i + k);
    NoGiveBack(p, j, s, i);
    RepeatSame(p, j, s, i, k);
  }

  /** `ScanIsBt` at an optional group: both the taken and the skipped rest. */
  lemma {:induction false} OptionalIsBt(p: Pattern, j: nat, s: string, i: nat)
    requires j < |p| && p[j].Optional? && i <= |s| && Committed(p, j) && Committed(p, j + 1)
    ensures Scan(p, j, s, i) == Bt(p, j, s, i)
    decreases |p| - j, 0
  {
    ScanIsBt(p, j + 1, s, i);
    CommittedFrom(p, j, Skip(p, j));
    ScanIsBt(p, Skip(p, j), s, i);
    OptionalSame(p, j, s, i);
  }

  /** One step of `ScanIsBt` at a repeated element. */
  lemma RepeatSame(p: Pattern, j: nat, s: string, i: nat, k: nat)
    requires j < |p| && p[j].Repeat? && i <= |s| && k == Take(p[j].cls, p[j].max, s, i)
    requires Scan(p, j + 1, s, i + k) == Bt(p, j + 1, s, i + k)
    requires p[j].min <= k ==> TryDown(p, j, s, i, k) == Then(i, Bt(p, j + 1, s, i + k))
    ensures Scan(p, j, s, i) == Bt(p, j, s, i)
  {
    assert Bt(p, j, s, i) == TryDown(p, j, s, i, k);
    if k < p[j].min {
      assert Scan(p, j, s, i) == None;
    } else {
      assert Scan(p, j, s, i) == Then(i, Scan(p, j + 1, s, i + k));
    }
  }

  /** One step of `ScanIsBt` at an optional group. */
  lemma OptionalSame(p: Pattern, j: nat, s: string, i: nat)
    requires j < |p| && p[j].Optional? && i <= |s|
    requires Scan(p, j + 1, s, i) == Bt(p, j + 1, s, i)
    requires Scan(p, Skip(p, j), s, i) == Bt(p, Skip(p, j), s, i)
    ensures Scan(p, j, s, i) == Bt(p, j, s, i)
  {
  }

  /** At a committed element, if the greedy count fails then every smaller
      count fails too. */
  lemma NoGiveBack(p: Pattern, j: nat, s: string, i: nat)
    requires j < |p| && p[j].Repeat? && i <= |s| && Committed(p, j)
    ensures p[j].min <= Take(p[j].cls, p[j].max, s, i) ==>
            TryDown(p, j, s, i, Take(p[j].cls, p[j].max, s, i)) ==
            Then(i, Bt(p, j + 1, s, i + Take(p[j].cls, p[j].max, s, i)))
  {
    var k := Take(p[j].cls, p[j].max, s, i);
    if p[j].min <= k {
      TryDownAt(p, j, s, i, k);
      if Bt(p, j + 1, s, i + k).None? && k > 0 {
        if p[j].max != AtMost(p[j].min) {
          GreedyRunFails(p, j, s, i, k);
        } else {
          FixedCountFails(p, j, s, i, k);
        }
      }
    }
  }

  /** When the rest fails after the greedy run, no shorter run helps. */
  lemma GreedyRunFails(p: Pattern, j: nat, s: string, i: nat, k: nat)
    requires j < |p| && p[j].Repeat? && Committed(p, j) && p[j].max != AtMost(p[j].min) && i <= |s|
    requires 0 < k == Take(p[j].cls, p[j].max, s, i) && Bt(p, j + 1, s, i + k).None?
    ensures TryDown(p, j, s, i, k - 1).None?
  {
    assert Shifts(p[j].cls, p, j + 1);
    TakeAllIn(p[j].cls, p[j].max, s, i, 0);
    SmallerCountsFail(p, j, s, i, k, k - 1);
  }

  /** A fixed count `{n}` has nothing to give back. */
  lemma FixedCountFails(p: Pattern, j: nat, s: string, i: nat, k: nat)
    requires j < |p| && p[j].Repeat? && p[j].max == AtMost(p[j].min) && i <= |s|
    requires 0 < k == Take(p[j].cls, p[j].max, s, i)
    ensures TryDown(p, j, s, i, k - 1).None?
  {
    assert k - 1 < p[j].min;
  }

  /** One step of the backtracking count. */
  lemma TryDownAt(p: Pattern, j: nat, s: string, i: nat, k: nat)
    requires j < |p| && p[j].Repeat? && i + k <= |s| && p[j].min <= k
    ensures Bt(p, j + 1, s, i + k).Some? ==> TryDown(p, j, s, i, k) == Then(i, Bt(p, j + 1, s, i + k))
    ensures Bt(p, j + 1, s, i + k).None? && k > 0 ==> TryDown(p, j, s, i, k) == TryDown(p, j, s, i, k - 1)
    ensures Bt(p, j + 1, s, i + k).None? && k == 0 ==> TryDown(p, j, s, i, k).None?
  {
  }

  /** Once the rest fails after a run of `k` characters of the element's
      class, it fails after every shorter run too. */
  lemma {:induction false} SmallerCountsFail(p: Pattern, j: nat, s: string, i: nat, k: nat, n: nat)
    requires j < |p| && p[j].Repeat? && Shifts(p[j].cls, p, j + 1)
    requires n < k && i + k <= |s| && AllIn(p[j].cls, s, i, i + k)
    requires Bt(p, j + 1, s, i + k).None?
    ensures TryDown(p, j, s, i, n).None?
    decreases n
  {
    if p[j].min <= n {
      if Bt(p, j + 1, s, i + n).Some? {
        AllInShrink(p[j].cls, s, i, i + k, i + n, i + k);
        GiveBackFails(p, j, s, i + n, i + k);
      }
      if n > 0 {
        SmallerCountsFail(p, j, s, i, k, n - 1);
      }
    }
  }

  /** What a greedy quantifier takes is a run of its class. */
  lemma TakeAllIn(c: CharClass, mx: Bound, s: string, i: nat, a: nat)
    requires i <= |s| && a <= Take(c, mx, s, i)
    ensures AllIn(c, s, i + a, i + Take(c, mx, s, i))
  {
    AllInShrink(c, s, i, i + Span(c, s, i), i + a, i + Take(c, mx, s, i));
  }

  /** If the rest matches after a shorter run of the element's class, it
      matches after a longer one too. */
  lemma GiveBackFails(p: Pattern, j: nat, s: string, x: nat, y: nat)
    requires j < |p| && p[j].Repeat? && Shifts(p[j].cls, p, j + 1)
    requires x <= y <= |s| && AllIn(p[j].cls, s, x, y)
    requires Bt(p, j + 1, s, x).Some?
    ensures Bt(p, j + 1, s, y).Some?
  {
    var b := Bt(p, j + 1, s, x).value;
    BtSound(p, j + 1, s, x);
    ShiftMatches(p[j].cls, p, j + 1, s, b, y);
  }

  /** A match that starts on a run of `c` characters can start anywhere
      later in that run. */
  lemma ShiftMatches(c: CharClass, p: Pattern, j: nat, s: string, b: seq<nat>, t: nat)
    requires j <= |p| && Shifts(c, p, j) && Accepts(p, j, s, b)
    requires b[0] <= t <= |s| && AllIn(c, s, b[0], t)
    ensures Bt(p, j, s, t).Some?
  {
    var b' := ShiftTo(c, p, j, s, b, t);
    BtComplete(p, j, s, b');
  }

  /** What `Scan` reports for a committed pattern is a match. */
  lemma ScanSound(p: Pattern, s: string, i: nat)
    requires Committed(p, 0) && i <= |s| && Scan(p, 0, s, i).Some?
    ensures Accepts(p, 0, s, Scan(p, 0, s, i).value)
  {
    ScanIsBt(p, 0, s, i);
    BtSound(p, 0, s, i);
  }

  /** In a greedy match, a repeated element took all it could. */
  lemma ScanRepeat(p: Pattern, j: nat, s: string, i: nat)
    requires j < |p| && p[j].Repeat? && i <= |s| && Scan(p, j, s, i).Some?
    ensures var c := Scan(p, j, s, i).value;
            c[1] == i + Take(p[j].cls, p[j].max, s, i) && p[j].min <= c[1] - i &&
            Scan(p, j + 1, s, c[1]) == Some(c[1..])
  {
    var k := Take(p[j].cls, p[j].max, s, i);
    var r := Scan(p, j + 1, s, i + k);
    assert Scan(p, j, s, i) == Then(i, r);
    var c := [i] + r.value;
    assert c[1..] == r.value;
  }

  /** The same, for a given result of the greedy matcher. */
  lemma ScanNext(p: Pattern, j: nat, s: string, i: nat, c: seq<nat>)
    requires j < |p| && p[j].Repeat? && i <= |s| && Scan(p, j, s, i) == Some(c)
    ensures |c| >= 2 && c[1] == i + Take(p[j].cls, p[j].max, s, i) && c[1] <= |s| &&
            Scan(p, j + 1, s, c[1]) == Some(c[1..])
  {
    ScanRepeat(p, j, s, i);
  }

  /** Three repetitions in a row: the scan after them goes on from the
      fourth boundary. */
  lemma ScanThree(p: Pattern, j: nat, s: string, i: nat, c: seq<nat>)
    requires j + 3 <= |p| && p[j].Repeat? && p[j + 1].Repeat? && p[j + 2].Repeat?
    requires i <= |s| && Scan(p, j, s, i) == Some(c)
    ensures |c| >= 4 && c[2] <= c[3] <= |s| &&
            c[3] == c[2] + Take(p[j + 2].cls, p[j + 2].max, s, c[2]) &&
            Scan(p, j + 3, s, c[3]) == Some(c[3..])
  {
    ScanNext(p, j, s, i, c);
    var c1 := c[1..];
    ScanNext(p, j + 1, s, c[1], c1);
    var c2 := c1[1..];
    assert c2 == c[2..];
    ScanNext(p, j + 2, s, c[2], c2);
    assert c2[1..] == c[3..];
  }

  /** In a greedy match, an optional group was taken if the rest matched
      with it, and skipped otherwise. */
  lemma ScanOptional(p: Pattern, j: nat, s: string, i: nat)
    requires j < |p| && p[j].Optional? && i <= |s| && Scan(p, j, s, i).Some?
    ensures var c := Scan(p, j, s, i).value;
            c[1] == i &&
            (Scan(p, j + 1, s, i).Some? ==> Scan(p, j + 1, s, i) == Some(c[1..])) &&
            (Scan(p, j + 1, s, i).None? ==>
               Scan(p, Skip(p, j), s, i) == Some(c[Skip(p, j) - j..]) &&
               forall e :: 1 <= e <= Skip(p, j) - j ==> c[e] == i)
  {
    if Scan(p, j + 1, s, i).Some? {
      ScanOptionalTaken(p, j, s, i);
    } else {
      ScanOptionalSkipped(p, j, s, i);
    }
  }

  lemma ScanOptionalTaken(p: Pattern, j: nat, s: string, i: nat)
    requires j < |p| && p[j].Optional? && i <= |s| && Scan(p, j + 1, s, i).Some?
    ensures Scan(p, j, s, i).Some? && Scan(p, j, s, i).value[1] == i &&
            Scan(p, j + 1, s, i) == Some(Scan(p, j, s, i).value[1..])
  {
    var r := Scan(p, j + 1, s, i);
    assert Scan(p, j, s, i) == Then(i, r);
    var c := [i] + r.value;
    assert c[1..] == r.value;
  }

  lemma ScanOptionalSkipped(p: Pattern, j: nat, s: string, i: nat)
    requires j < |p| && p[j].Optional? && i <= |s| && Scan(p, j, s, i).Some? && Scan(p, j + 1, s, i).None?
    ensures var c := Scan(p, j, s, i).value;
            c[1] == i && Scan(p, Skip(p, j), s, i) == Some(c[Skip(p, j) - j..]) &&
            forall e :: 1 <= e <= Skip(p, j) - j ==> c[e] == i
  {
    var k := Skip(p, j);
    SkippedIsFill(p, j, s, i);
    FillFront(i, k - j - 1, Scan(p, k, s, i).value, Scan(p, j, s, i).value);
  }

  lemma SkippedIsFill(p: Pattern, j: nat, s: string, i: nat)
    requires j < |p| && p[j].Optional? && i <= |s| && Scan(p, j + 1, s, i).None? && Scan(p, j, s, i).Some?
    ensures Scan(p, Skip(p, j), s, i).Some? && Scan(p, Skip(p, j), s, i).value[0] == i
    ensures Scan(p, j, s, i).value ==
            [i] + Fill(i, Skip(p, j) - j - 1, Some(Scan(p, Skip(p, j), s, i).value)).value
  {
  }

  /** A skipped group's boundaries all sit where the rest starts. */
  lemma FillFront(i: nat, n: nat, q: seq<nat>, c: seq<nat>)
    requires q != [] && q[0] == i && c == [i] + Fill(i, n, Some(q)).value
    ensures c[1] == i && c[n + 1..] == q && forall e :: 1 <= e <= n + 1 ==> c[e] == i
  {
    var f := Fill(i, n, Some(q)).value;
    assert c[n + 1..] == f[n..];
    forall e | 1 <= e <= n + 1
      ensures c[e] == i
    {
      assert c[e] == f[e - 1];
      if e == n + 1 {
        assert f[n] == f[n..][0];
      }
    }
  }

  /* ---------- what one element of a match consumed ---------- */

  /** Element `e` lies in no optional group opened at `j..e-1`. */
  predicate Outside(p: Pattern, j: nat, e: nat)
    decreases e - j
  {
    j >= e || (j < |p| && (p[j].Optional? ==> j + p[j].len < e) && Outside(p, j + 1, e))
  }

  lemma {:induction false} OutsideFrom(p: Pattern, j: nat, k: nat, e: nat)
    requires j <= k && Outside(p, j, e)
    ensures Outside(p, k, e)
    decreases k - j
  {
    if j < k && j < e {
      OutsideFrom(p, j + 1, k, e);
    }
  }

  /** A run of `k` characters of element `j`'s class, within its bounds,
      followed by a match of the rest, is a match from element `j` on. */
  lemma AcceptsCons(p: Pattern, j: nat, s: string, i: nat, b: seq<nat>)
    requires j < |p| && p[j].Repeat? && Accepts(p, j + 1, s, b)
    requires i <= b[0] && p[j].min <= b[0] - i && Fits(p[j].max, b[0] - i) && AllIn(p[j].cls, s, i, b[0])
    ensures Accepts(p, j, s, [i] + b)
  {
    assert ([i] + b)[1..] == b;
  }

  /** In a match, element `e` consumed characters of its class, no more
      than its upper bound, and at least its lower bound unless it sits in
      an optional group (which may have been skipped). */
  lemma {:induction false} AcceptsElem(p: Pattern, j: nat, s: string, b: seq<nat>, e: nat)
    requires j <= e < |p| && p[e].Repeat? && Accepts(p, j, s, b)
    ensures b[e - j] <= b[e - j + 1] <= |s|
    ensures AllIn(p[e].cls, s, b[e - j], b[e - j + 1])
    ensures Fits(p[e].max, b[e - j + 1] - b[e - j])
    ensures Outside(p, j, e) ==> p[e].min <= b[e - j + 1] - b[e - j]
    decreases e - j
  {
    if j < e {
      match p[j]
      case Repeat(_, _, _) =>
        AcceptsElem(p, j + 1, s, b[1..], e);
      case Optional(n) =>
        if Accepts(p, j + 1, s, b[1..]) {
          AcceptsElem(p, j + 1, s, b[1..], e);
        } else {
          var k := Skip(p, j);
          if e < k {
            assert b[e - j] == b[0] && b[e - j + 1] == b[0];
          } else {
            AcceptsElem(p, k, s, b[k - j..], e);
            if Outside(p, j, e) {
              OutsideFrom(p, j, k, e);
            }
          }
        }
    }
  }

  /** The boundaries of a match never go backwards and stay inside the
      string. */
  lemma {:induction false} AcceptsBounds(p: Pattern, j: nat, s: string, b: seq<nat>)
    requires j <= |p| && Accepts(p, j, s, b)
    ensures Bounds(b, |p| - j, b[0], |s|)
    decreases |p| - j
  {
    if j < |p| {
      match p[j]
      case Repeat(_, _, _) =>
        AcceptsBounds(p, j + 1, s, b[1..]);
        BoundsCons(b[1..], |p| - j - 1, b[0], b[1], |s|);
        assert [b[0]] + b[1..] == b;
      case Optional(_) =>
        if Accepts(p, j + 1, s, b[1..]) {
          AcceptsBounds(p, j + 1, s, b[1..]);
          BoundsCons(b[1..], |p| - j - 1, b[0], b[1], |s|);
          assert [b[0]] + b[1..] == b;
        } else {
          var k := Skip(p, j);
          AcceptsBounds(p, k, s, b[k - j..]);
          SkippedBounds(b, k - j, |p| - j, |s|);
        }
    }
  }

  lemma SkippedBounds(b: seq<nat>, m: nat, n: nat, len: nat)
    requires 0 < m <= n && |b| == n + 1
    requires forall e :: 1 <= e <= m ==> b[e] == b[0]
    requires Bounds(b[m..], n - m, b[m], len)
    ensures Bounds(b, n, b[0], len)
  {
    var q := b[m..];
    forall x, y | 0 <= x <= y < |b| ensures b[x] <= b[y] {
      if x >= m {
        assert b[x] == q[x - m] && b[y] == q[y - m];
      } else if y >= m {
        assert b[x] == q[0] && b[y] == q[y - m];
      }
    }
    assert b[n] == q[n - m];
  }

  /** In a match, an optional group's own boundary consumes nothing. */
  lemma {:induction false} AcceptsGroup(p: Pattern, j: nat, s: string, b: seq<nat>, e: nat)
    requires j <= e < |p| && p[e].Optional? && Accepts(p, j, s, b)
    ensures b[e - j] == b[e - j + 1]
    decreases e - j
  {
    if j < e {
      match p[j]
      case Repeat(_, _, _) =>
        AcceptsGroup(p, j + 1, s, b[1..], e);
      case Optional(n) =>
        if Accepts(p, j + 1, s, b[1..]) {
          AcceptsGroup(p, j + 1, s, b[1..], e);
        } else {
          var k := Skip(p, j);
          if e < k {
            assert b[e - j] == b[0] && b[e - j + 1] == b[0];
          } else {
            AcceptsGroup(p, k, s, b[k - j..], e);
          }
        }
    }
  }

  /* ---------- searching and replacing ---------- */

  function End(b: seq<nat>): nat
    requires b != []
  {
    b[|b| - 1]
  }

  /** `re.exec(s)` with `lastIndex` at `from`: the match at the leftmost
      position at or after `from` where the pattern matches. */
  function Search(p: Pattern, s: string, from: nat): (m: Option<seq<nat>>)
    requires from <= |s|
    ensures m.Some? ==> m.value != [] && from <= m.value[0] <= |s| && Scan(p, 0, s, m.value[0]) == m
    decreases |s| - from
  {
    var r := Scan(p, 0, s, from);
    if r.Some? then r else if from == |s| then None else Search(p, s, from + 1)
  }

  /** `Search` reports the greedy match at the leftmost position where
      there is one, and nothing only when there is none. */
  lemma {:induction false} SearchSkips(p: Pattern, s: string, from: nat)
    requires from <= |s|
    ensures var m := Search(p, s, from);
            (m.Some? ==> forall i :: from <= i < m.value[0] ==> Scan(p, 0, s, i).None?) &&
            (m.None? ==> forall i :: from <= i <= |s| ==> Scan(p, 0, s, i).None?)
    decreases |s| - from
  {
    if Scan(p, 0, s, from).None? && from < |s| {
      SearchSkips(p, s, from + 1);
    }
  }

  /** For a committed pattern `Search` reports the match ECMAScript reports:
      the backtracking match at the leftmost position where any match
      exists. */
  lemma SearchIsLeftmost(p: Pattern, s: string, from: nat)
    requires Committed(p, 0) && from <= |s|
    ensures Search(p, s, from).Some? ==>
              var b := Search(p, s, from).value;
              Bt(p, 0, s, b[0]) == Some(b) && Accepts(p, 0, s, b) &&
              forall c :: c != [] && from <= c[0] < b[0] ==> !Accepts(p, 0, s, c)
    ensures Search(p, s, from).None? ==>
              forall c :: c != [] && from <= c[0] <= |s| ==> !Accepts(p, 0, s, c)
  {
    var m := Search(p, s, from);
    SearchSkips(p, s, from);
    if m.Some? {
      ScanSound(p, s, m.value[0]);
      ScanIsBt(p, 0, s, m.value[0]);
    }
    forall c | c != [] && from <= c[0] <= |s| && (m.Some? ==> c[0] < m.value[0])
      ensures !Accepts(p, 0, s, c)
    {
      if Accepts(p, 0, s, c) {
        BtComplete(p, 0, s, c);
        ScanIsBt(p, 0, s, c[0]);
      }
    }
  }

  /** `s.replace(re, rep)` for a regular expression without the `g` flag. */
  function ReplaceFirst(p: Pattern, s: string, rep: string): string {
    match Search(p, s, 0)
    case None => s
    case Some(b) => s[..b[0]] + rep + s[End(b)..]
  }

  /** Replacing by nothing cuts the first match out, and leaves a string
      without a match as it is. */
  lemma ReplaceFirstCut(p: Pattern, s: string)
    ensures Search(p, s, 0).None? ==> ReplaceFirst(p, s, "") == s
    ensures Search(p, s, 0).Some? ==>
              var b := Search(p, s, 0).value;
              ReplaceFirst(p, s, "") == s[..b[0]] + s[End(b)..]
  {
    var m := Search(p, s, 0);
    if m.Some? {
      var b := m.value;
      assert s[..b[0]] + "" == s[..b[0]];
    }
  }

  /** `s.replace(re, rep)` for a regular expression with the `g` flag, from
      the point `from` on: every match, searched for from where the previous
      one ended, is replaced; after an empty match the search moves on by
      one character. */
  function ReplaceAll(p: Pattern, s: string, rep: string, from: nat): string
    requires from <= |s|
    decreases |s| - from
  {
    match Search(p, s, from)
    case None => s[from..]
    case Some(b) =>
      if b[0] < End(b) then s[from..b[0]] + rep + ReplaceAll(p, s, rep, End(b))
      else if b[0] == |s| then s[from..] + rep
      else s[from..b[0]] + rep + [s[b[0]]] + ReplaceAll(p, s, rep, b[0] + 1)
  }

  /** A stretch `[start, end)` of the text that a replacement cuts out. */
  datatype Cut = Cut(start: nat, end: nat)

  /** Cuts that follow each other in order from `from` on, inside a text
      of length `n`. */
  predicate Ordered(cs: seq<Cut>, from: nat, n: nat)
    decreases cs
  {
    from <= n &&
    (cs == [] || (from <= cs[0].start <= cs[0].end <= n && Ordered(cs[1..], cs[0].end, n)))
  }

  lemma OrderedFrom(cs: seq<Cut>, x: nat, y: nat, n: nat)
    requires x <= y && Ordered(cs, y, n)
    ensures Ordered(cs, x, n)
  {
  }

  /** The matches a `g`-flag replacement finds from `from` on: each is the
      leftmost match from where the previous one ended, or from one
      character further after an empty match, and an empty match at the
      end of the text is the last. */
  function Cuts(p: Pattern, s: string, from: nat): (cs: seq<Cut>)
    requires from <= |s|
    ensures Ordered(cs, from, |s|)
    decreases |s| - from
  {
    match Search(p, s, from)
    case None => []
    case Some(b) =>
      if b[0] < End(b) then [Cut(b[0], End(b))] + Cuts(p, s, End(b))
      else if b[0] == |s| then [Cut(b[0], b[0])]
      else
        OrderedFrom(Cuts(p, s, b[0] + 1), b[0], b[0] + 1, |s|);
        [Cut(b[0], b[0])] + Cuts(p, s, b[0] + 1)
  }

  /** Each cut is a match: the greedy match at its start ends at its end. */
  lemma {:induction false} CutIsMatch(p: Pattern, s: string, from: nat, k: nat)
    requires from <= |s| && k < |Cuts(p, s, from)|
    ensures var c := Cuts(p, s, from)[k];
            from <= c.start <= |s| && Scan(p, 0, s, c.start).Some? &&
            End(Scan(p, 0, s, c.start).value) == c.end
    decreases k
  {
    var cs := Cuts(p, s, from);
    var b := Search(p, s, from).value;
    if k > 0 {
      var next := if b[0] < End(b) then End(b) else b[0] + 1;
      assert b[0] < |s| && cs == [cs[0]] + Cuts(p, s, next);
      assert cs[k] == Cuts(p, s, next)[k - 1];
      CutIsMatch(p, s, next, k - 1);
    }
  }

  /** A text with a match from `from` on has at least one cut. */
  lemma CutsFound(p: Pattern, s: string, from: nat)
    requires from <= |s| && Search(p, s, from).Some?
    ensures Cuts(p, s, from) != []
  {
  }

  /** For a committed pattern every cut is a match in the declarative
      sense. */
  lemma CutsAccepted(p: Pattern, s: string, from: nat)
    requires Committed(p, 0) && from <= |s|
    ensures var cs := Cuts(p, s, from);
            forall k :: 0 <= k < |cs| ==>
              exists b :: Accepts(p, 0, s, b) && b[0] == cs[k].start && End(b) == cs[k].end
  {
    var cs := Cuts(p, s, from);
    forall k | 0 <= k < |cs|
      ensures exists b :: Accepts(p, 0, s, b) && b[0] == cs[k].start && End(b) == cs[k].end
    {
      CutIsMatch(p, s, from, k);
      ScanSound(p, s, cs[k].start);
      var b := Scan(p, 0, s, cs[k].start).value;
      assert Accepts(p, 0, s, b) && b[0] == cs[k].start;
    }
  }

  /** What is left of the text from `from` on when the cuts are taken out:
      the stretches between them, in order. */
  function Gaps(s: string, from: nat, cs: seq<Cut>): string
    requires Ordered(cs, from, |s|)
    decreases cs
  {
    if cs == [] then s[from..] else s[from..cs[0].start] + Gaps(s, cs[0].end, cs[1..])
  }

  lemma GapsStep(s: string, x: nat, cs: seq<Cut>)
    requires x < |s| && Ordered(cs, x + 1, |s|)
    ensures Ordered(cs, x, |s|) && Gaps(s, x, cs) == [s[x]] + Gaps(s, x + 1, cs)
  {
    OrderedFrom(cs, x, x + 1, |s|);
    if cs == [] {
      assert s[x..] == [s[x]] + s[x + 1..];
    } else {
      assert s[x..cs[0].start] == [s[x]] + s[x + 1..cs[0].start];
    }
  }

  lemma GapsCut(s: string, from: nat, x: nat, e: nat, cs: seq<Cut>)
    requires from <= x <= e <= |s| && Ordered(cs, e, |s|)
    ensures Ordered([Cut(x, e)] + cs, from, |s|)
    ensures Gaps(s, from, [Cut(x, e)] + cs) == s[from..x] + "" + Gaps(s, e, cs)
  {
    assert ([Cut(x, e)] + cs)[1..] == cs;
    assert s[from..x] + "" == s[from..x];
  }

  /** After an empty cut at `x` the gap goes on with the character at `x`. */
  lemma GapsEmptyCut(s: string, from: nat, x: nat, cs: seq<Cut>)
    requires from <= x < |s| && Ordered(cs, x + 1, |s|)
    ensures Ordered([Cut(x, x)] + cs, from, |s|)
    ensures Gaps(s, from, [Cut(x, x)] + cs) == s[from..x] + "" + [s[x]] + Gaps(s, x + 1, cs)
  {
    var cs' := [Cut(x, x)] + cs;
    assert cs'[1..] == cs;
    GapsStep(s, x, cs);
    assert s[from..x] + "" + [s[x]] + Gaps(s, x + 1, cs) == s[from..x] + ([s[x]] + Gaps(s, x + 1, cs));
  }

  /** Replacing every match by nothing leaves exactly the text between the
      matches. */
  lemma {:induction false} ReplaceAllCuts(p: Pattern, s: string, from: nat)
    requires from <= |s|
    ensures ReplaceAll(p, s, "", from) == Gaps(s, from, Cuts(p, s, from))
    decreases |s| - from
  {
    var m := Search(p, s, from);
    if m.Some? {
      var b := m.value;
      if b[0] < End(b) {
        ReplaceAllCuts(p, s, End(b));
        CutsNonEmpty(p, s, from, b);
      } else if b[0] == |s| {
        CutsAtEnd(p, s, from, b);
      } else {
        ReplaceAllCuts(p, s, b[0] + 1);
        GapsAfterEmpty(p, s, from, b);
        EmptyMatchStep(p, s, from, b);
      }
    }
  }

  /** A match that consumes text is cut out whole. */
  lemma CutsNonEmpty(p: Pattern, s: string, from: nat, b: seq<nat>)
    requires from <= |s| && Search(p, s, from) == Some(b) && b[0] < End(b)
    requires ReplaceAll(p, s, "", End(b)) == Gaps(s, End(b), Cuts(p, s, End(b)))
    ensures ReplaceAll(p, s, "", from) == Gaps(s, from, Cuts(p, s, from))
  {
    var cs' := Cuts(p, s, End(b));
    assert Cuts(p, s, from) == [Cut(b[0], End(b))] + cs';
    GapsCut(s, from, b[0], End(b), cs');
  }

  /** An empty match at the very end leaves the rest of the text. */
  lemma CutsAtEnd(p: Pattern, s: string, from: nat, b: seq<nat>)
    requires from <= |s| && Search(p, s, from) == Some(b) && b[0] == End(b) == |s|
    ensures ReplaceAll(p, s, "", from) == Gaps(s, from, Cuts(p, s, from))
  {
    assert Cuts(p, s, from) == [Cut(b[0], b[0])];
    assert s[from..] + "" == s[from..b[0]] + s[|s|..];
  }

  /** An empty match inside the text keeps the character after it. */
  lemma GapsAfterEmpty(p: Pattern, s: string, from: nat, b: seq<nat>)
    requires from <= |s| && Search(p, s, from) == Some(b) && b[0] == End(b) < |s|
    ensures Gaps(s, from, Cuts(p, s, from)) ==
              s[from..b[0]] + "" + [s[b[0]]] + Gaps(s, b[0] + 1, Cuts(p, s, b[0] + 1))
  {
    EmptyCutStep(p, s, from, b);
    GapsEmptyCut(s, from, b[0], Cuts(p, s, b[0] + 1));
  }

  lemma EmptyCutStep(p: Pattern, s: string, from: nat, b: seq<nat>)
    requires from <= |s| && Search(p, s, from) == Some(b) && b[0] == End(b) < |s|
    ensures Cuts(p, s, from) == [Cut(b[0], b[0])] + Cuts(p, s, b[0] + 1)
  {
  }

  lemma EmptyMatchStep(p: Pattern, s: string, from: nat, b: seq<nat>)
    requires from <= |s| && Search(p, s, from) == Some(b) && b[0] == End(b) < |s|
    ensures ReplaceAll(p, s, "", from) == s[from..b[0]] + "" + [s[b[0]]] + ReplaceAll(p, s, "", b[0] + 1)
  {
  }

  /* ---------- working a search out by hand ---------- */

  /** A pattern whose first element needs a character of its class fails
      where there is none. */
  lemma ScanFailsAt(p: Pattern, s: string, i: nat)
    requires p != [] && p[0].Repeat? && 1 <= p[0].min && i <= |s|
    requires i == |s| || !InClass(p[0].cls, s[i])
    ensures Scan(p, 0, s, i).None?
  {
    assert Span(p[0].cls, s, i) == 0;
  }

  /** One repeated element taken greedily in front of the rest. */
  lemma StepRepeat(p: Pattern, j: nat, s: string, i: nat, k: nat, c: seq<nat>)
    requires j < |p| && p[j].Repeat? && i <= |s|
    requires k == Take(p[j].cls, p[j].max, s, i) && p[j].min <= k
    requires Scan(p, j + 1, s, i + k) == Some(c)
    ensures Scan(p, j, s, i) == Some([i] + c)
  {
  }

  /** An optional group taken because the rest matches with it. */
  lemma StepOptional(p: Pattern, j: nat, s: string, i: nat, c: seq<nat>)
    requires j < |p| && p[j].Optional? && i <= |s| && Scan(p, j + 1, s, i) == Some(c)
    ensures Scan(p, j, s, i) == Some([i] + c)
  {
  }

  /** Element `e` takes exactly the characters from `x` to `y` when the
      rest of the pattern matches after it: a repetition its greedy count,
      an optional group nothing of its own. */
  predicate TakesAt(e: Elem, s: string, x: nat, y: nat) {
    x <= y <= |s| &&
    match e
    case Repeat(c, mn, mx) =>
      mn <= y - x && Fits(mx, y - x) && AllIn(c, s, x, y) &&
      (y == |s| || !InClass(c, s[y]) || !Fits(mx, y - x + 1))
    case Optional(_) => y == x
  }

  /** `bs` are the boundaries of a match of elements `j..` in which every
      optional group is taken and each element takes what `TakesAt` says. */
  predicate Greedy(p: Pattern, s: string, bs: seq<nat>, j: nat)
    decreases |p| - j
  {
    |bs| == |p| + 1 && j <= |p| && bs[j] <= |s| &&
    (j < |p| ==> TakesAt(p[j], s, bs[j], bs[j + 1]) && Greedy(p, s, bs, j + 1))
  }

  /** Such boundaries are what the greedy matcher returns. */
  lemma {:induction false} GreedyScan(p: Pattern, s: string, bs: seq<nat>, j: nat)
    requires Greedy(p, s, bs, j)
    ensures Scan(p, j, s, bs[j]) == Some(bs[j..])
    decreases |p| - j
  {
    if j < |p| {
      GreedyScan(p, s, bs, j + 1);
      GreedyStep(p, s, bs, j);
    } else {
      assert bs[j..] == [bs[j]];
    }
  }

  lemma GreedyStep(p: Pattern, s: string, bs: seq<nat>, j: nat)
    requires j < |p| && |bs| == |p| + 1 && TakesAt(p[j], s, bs[j], bs[j + 1])
    requires Scan(p, j + 1, s, bs[j + 1]) == Some(bs[j + 1..])
    ensures Scan(p, j, s, bs[j]) == Some(bs[j..])
  {
    DropFirst(bs, j);
    if p[j].Repeat? {
      GreedyRepeat(p, s, bs[j], bs[j + 1], bs[j + 1..], j);
    } else {
      StepOptional(p, j, s, bs[j], bs[j + 1..]);
    }
  }

  lemma GreedyRepeat(p: Pattern, s: string, x: nat, y: nat, c: seq<nat>, j: nat)
    requires j < |p| && p[j].Repeat? && TakesAt(p[j], s, x, y) && Scan(p, j + 1, s, y) == Some(c)
    ensures Scan(p, j, s, x) == Some([x] + c)
  {
    TakesCount(p[j], s, x, y);
    StepRepeat(p, j, s, x, y - x, c);
  }

  /** What `TakesAt` describes is what the greedy quantifier takes. */
  lemma TakesCount(e: Elem, s: string, x: nat, y: nat)
    requires e.Repeat? && TakesAt(e, s, x, y)
    ensures Take(e.cls, e.max, s, x) == y - x
  {
    SpanIsMaximal(e.cls, s, x, y - x);
  }

  /** The run of `cls` from `x` ends exactly at `e`. */
  lemma SpanExact(cls: CharClass, s: string, x: nat, e: nat)
    requires x <= e <= |s| && AllIn(cls, s, x, e) && (e == |s| || !InClass(cls, s[e]))
    ensures Span(cls, s, x) == e - x
  {
    SpanIsMaximal(cls, s, x, e - x);
  }

  lemma DropFirst(bs: seq<nat>, j: nat)
    requires j < |bs|
    ensures bs[j..] == [bs[j]] + bs[j + 1..]
  {
  }

  /** A pattern that must start with a character of its first class, and
      no such character between `from` and the start of a greedy match:
      that match is the leftmost one. */
  lemma FoundAt(p: Pattern, s: string, from: nat, bs: seq<nat>)
    requires p != [] && p[0].Repeat? && 1 <= p[0].min && Greedy(p, s, bs, 0) && from <= bs[0]
    requires forall i :: from <= i < bs[0] ==> !InClass(p[0].cls, s[i])
    ensures Search(p, s, from) == Some(bs)
  {
    GreedyScan(p, s, bs, 0);
    assert bs[0..] == bs;
    SearchFirst(p, s, from, bs[0]);
  }

  /** One step of a `g` replace at a leftmost greedy match found that way. */
  lemma ReplaceAt(p: Pattern, s: string, rep: string, from: nat, bs: seq<nat>)
    requires p != [] && p[0].Repeat? && 1 <= p[0].min && Greedy(p, s, bs, 0) && from <= bs[0]
    requires forall i :: from <= i < bs[0] ==> !InClass(p[0].cls, s[i])
    ensures bs[0] < End(bs) <= |s|
    ensures ReplaceAll(p, s, rep, from) == s[from..bs[0]] + rep + ReplaceAll(p, s, rep, End(bs))
  {
    FoundAt(p, s, from, bs);
    assert bs[0] < bs[1] <= End(bs);
    ReplaceAllStep(p, s, rep, from, bs);
  }

  /** With no character of the first class left, a `g` replace keeps the
      rest of the text. */
  lemma ReplaceRest(p: Pattern, s: string, rep: string, from: nat)
    requires p != [] && p[0].Repeat? && 1 <= p[0].min && from <= |s|
    requires forall i :: from <= i < |s| ==> !InClass(p[0].cls, s[i])
    ensures ReplaceAll(p, s, rep, from) == s[from..]
  {
    SearchFails(p, s, from);
    ReplaceAllDone(p, s, rep, from);
  }

  /** The leftmost match is the first one a search from `from` meets. */
  lemma {:induction false} SearchAt(p: Pattern, s: string, from: nat, x: nat)
    requires from <= x <= |s| && Scan(p, 0, s, x).Some?
    requires forall i :: from <= i < x ==> Scan(p, 0, s, i).None?
    ensures Search(p, s, from) == Scan(p, 0, s, x)
    decreases x - from
  {
    if from < x {
      SearchAt(p, s, from + 1, x);
    }
  }

  /** A pattern whose first element needs a character of its class finds
      nothing where there is none. */
  lemma {:induction false} SearchFails(p: Pattern, s: string, from: nat)
    requires p != [] && p[0].Repeat? && 1 <= p[0].min && from <= |s|
    requires forall i :: from <= i < |s| ==> !InClass(p[0].cls, s[i])
    ensures Search(p, s, from).None?
    decreases |s| - from
  {
    ScanFailsAt(p, s, from);
    if from < |s| {
      SearchFails(p, s, from + 1);
    }
  }

  /** Such a pattern meets its first match at the first character of its
      class. */
  lemma SearchFirst(p: Pattern, s: string, from: nat, x: nat)
    requires p != [] && p[0].Repeat? && 1 <= p[0].min && from <= x <= |s|
    requires forall i :: from <= i < x ==> !InClass(p[0].cls, s[i])
    requires Scan(p, 0, s, x).Some?
    ensures Search(p, s, from) == Scan(p, 0, s, x)
  {
    forall i | from <= i < x ensures Scan(p, 0, s, i).None? {
      ScanFailsAt(p, s, i);
    }
    SearchAt(p, s, from, x);
  }

  /** One step of a replacement: the text up to a non-empty match, the
      replacement, and the replacement of the rest. */
  lemma ReplaceAllStep(p: Pattern, s: string, rep: string, from: nat, b: seq<nat>)
    requires from <= |s| && Search(p, s, from) == Some(b) && b[0] < End(b)
    ensures End(b) <= |s| && ReplaceAll(p, s, rep, from) == s[from..b[0]] + rep + ReplaceAll(p, s, rep, End(b))
  {
  }

  lemma ReplaceAllDone(p: Pattern, s: string, rep: string, from: nat)
    requires from <= |s| && Search(p, s, from).None?
    ensures ReplaceAll(p, s, rep, from) == s[from..]
  {
  }

  /** A match of a pattern with an element that must consume at least one
      character holds a character of that element's class. */
  lemma MatchHasClass(p: Pattern, s: string, from: nat, e: nat)
    requires Committed(p, 0) && from <= |s| && Search(p, s, from).Some?
    requires e < |p| && p[e].Repeat? && 1 <= p[e].min && Outside(p, 0, e)
    ensures var b := Search(p, s, from).value;
            |b| == |p| + 1 && from <= b[e] < |s| && InClass(p[e].cls, s[b[e]])
  {
    var b := Search(p, s, from).value;
    ScanSound(p, s, b[0]);
    AcceptsBounds(p, 0, s, b);
    assert from <= b[0] <= b[e];
    AcceptsElem(p, 0, s, b, e);
    assert b[e] < b[e + 1] <= |s| && AllIn(p[e].cls, s, b[e], b[e + 1]);
  }

  /** Such a pattern finds no match in a text without a character of the
      class. */
  lemma SearchNeedsClass(p: Pattern, s: string, from: nat, e: nat)
    requires Committed(p, 0) && from <= |s|
    requires e < |p| && p[e].Repeat? && 1 <= p[e].min && Outside(p, 0, e)
    requires forall k :: from <= k < |s| ==> !InClass(p[e].cls, s[k])
    ensures Search(p, s, from).None?
  {
    if Search(p, s, from).Some? {
      MatchHasClass(p, s, from, e);
    }
  }
}
