/**
 * The `parseBold` helper of the memories and timeline sections: a string is split on the
 * regular expression `(\*\*.*?\*\*)` with JavaScript's `String.prototype.split`, and every
 * part that starts and ends with `**` is rendered bold with two characters trimmed from each
 * end; every other part is rendered as plain text.
 *
 * The regular expression is replaced by an explicit scanner (MatchAt), the library split by
 * the split loop of the ECMAScript standard (SplitFrom), and both are related to a
 * declarative description of a leftmost-shortest split (IsLeftmostShortestSplit).
 */
module BoldMarkup {
  import opened Wrappers

  /** What `parseBold` emits per part: a `<span>` or a `<strong>` holding `text`. */
  datatype Segment = Plain(text: string) | Bold(text: string)

  // ---------------------------------------------------------------------------------------
  // The pattern `\*\*.*?\*\*`
  // ---------------------------------------------------------------------------------------

  /** The characters `.` does not match in a JavaScript regular expression. */
  predicate IsLineTerminator(c: char) {
    c == '\n' || c == '\r' || c == '\U{2028}' || c == '\U{2029}'
  }

  /** `s` holds the delimiter `**` at positions i and i + 1. */
  predicate StarPairAt(s: string, i: int) {
    0 <= i && i + 1 < |s| && s[i] == '*' && s[i + 1] == '*'
  }

  /**
   * Declarative reading of the pattern anchored at q: `s[q..e]` is `**X**` where X has no line
   * terminator and no `**` starts inside X or straddles its end. The last condition is what
   * makes `.*?` lazy: the closing delimiter is the first `**` after the opening one.
   */
  ghost predicate IsMatch(s: string, q: int, e: int) {
    && 0 <= q && q + 4 <= e <= |s|
    && StarPairAt(s, q)
    && StarPairAt(s, e - 2)
    && forall j :: q + 2 <= j < e - 2 ==> !IsLineTerminator(s[j]) && !StarPairAt(s, j)
  }

  /** No match of the pattern starts at q. */
  ghost predicate NoMatchAt(s: string, q: int) {
    forall e :: !IsMatch(s, q, e)
  }

  /**
   * The lazy tail `.*?\*\*` tried from position i: stop at the first `**`, otherwise consume
   * one character that is not a line terminator and try again.
   */
  function FindClose(s: string, i: nat): (r: Option<nat>)
    requires i <= |s|
    decreases |s| - i
    ensures r.Some? ==> i + 2 <= r.value <= |s| && StarPairAt(s, r.value - 2)
  {
    if StarPairAt(s, i) then Some(i + 2)
    else if i < |s| && !IsLineTerminator(s[i]) then FindClose(s, i + 1)
    else None
  }

  /** The sticky match of the pattern at q: the end of the match, if there is one. */
  function MatchAt(s: string, q: nat): (r: Option<nat>)
    requires q <= |s|
    ensures r.Some? ==> q + 4 <= r.value <= |s|
  {
    if StarPairAt(s, q) then FindClose(s, q + 2) else None
  }

  lemma {:induction false} FindCloseExact(s: string, i: nat, e: int)
    requires i <= |s|
    decreases |s| - i
    ensures FindClose(s, i) == Some(e) <==>
      && i + 2 <= e <= |s| && StarPairAt(s, e - 2)
      && forall j :: i <= j < e - 2 ==> !IsLineTerminator(s[j]) && !StarPairAt(s, j)
  {
    if StarPairAt(s, i) {
    } else if i < |s| && !IsLineTerminator(s[i]) {
      FindCloseExact(s, i + 1, e);
    }
  }

  /** The scanner finds exactly the declarative matches: a match, when there is one, is unique. */
  lemma MatchAtExact(s: string, q: nat, e: int)
    requires q <= |s|
    ensures MatchAt(s, q) == Some(e) <==> IsMatch(s, q, e)
  {
    if StarPairAt(s, q) {
      FindCloseExact(s, q + 2, e);
    }
  }

  lemma MatchAtNone(s: string, q: nat)
    requires q <= |s|
    ensures MatchAt(s, q).None? <==> NoMatchAt(s, q)
  {
    if MatchAt(s, q).Some? {
      MatchAtExact(s, q, MatchAt(s, q).value);
    } else {
      forall e ensures !IsMatch(s, q, e) { MatchAtExact(s, q, e); }
    }
  }

  /** Lazy matching: two matches from the same start end at the same place. */
  lemma {:induction false} IsMatchUnique(s: string, q: int, e1: int, e2: int)
    requires IsMatch(s, q, e1) && IsMatch(s, q, e2)
    ensures e1 == e2
  {
  }

  // ---------------------------------------------------------------------------------------
  // `text.split(/(\*\*.*?\*\*)/g)`
  // ---------------------------------------------------------------------------------------

  /**
   * The split loop of the ECMAScript standard for a splitter with one capturing group that
   * spans the whole match: p is the end of the last match, q the position tried next. A failed
   * match advances q by one code unit; a match `s[q..e]` emits the gap `s[p..q]` and the
   * captured `s[q..e]` and restarts at e; at the end the final gap `s[p..]` is emitted.
   */
  function SplitFrom(s: string, p: nat, q: nat): (parts: seq<string>)
    requires p <= q <= |s|
    decreases |s| - q
    ensures |parts| % 2 == 1
  {
    if q == |s| then [s[p..]]
    else match MatchAt(s, q)
      case Some(e) => [s[p..q], s[q..e]] + SplitFrom(s, e, e)
      case None => SplitFrom(s, p, q + 1)
  }

  /** The parts of `s`, as `s.split(/(\*\*.*?\*\*)/g)` returns them: gaps and matches in
   *  turn, beginning and ending with a gap. */
  function Split(s: string): (parts: seq<string>)
    ensures |parts| % 2 == 1
  {
    SplitFrom(s, 0, 0)
  }

  /** `parts.join('')`. */
  function Concat(parts: seq<string>): string {
    if parts == [] then [] else parts[0] + Concat(parts[1..])
  }

  /** Where part i begins in the concatenation of the parts. */
  ghost function Start(parts: seq<string>, i: nat): nat
    requires i <= |parts|
  {
    |Concat(parts[..i])|
  }

  /**
   * `parts` is the split of `s[p..]` at its leftmost-shortest matches: they concatenate to
   * `s[p..]`, alternate gap, match, gap, ..., gap, every odd-indexed part is a match of the
   * pattern on its own, and no match of the pattern starts at any position of a gap.
   */
  ghost predicate SplitsFrom(s: string, p: nat, parts: seq<string>) {
    && p <= |s|
    && |parts| % 2 == 1
    && Concat(parts) == s[p..]
    && (forall i :: 0 <= i < |parts| && i % 2 == 1 ==> IsMatch(parts[i], 0, |parts[i]|))
    && (forall i, q :: 0 <= i < |parts| && i % 2 == 0 && p + Start(parts, i) <= q < p + Start(parts, i) + |parts[i]|
          ==> NoMatchAt(s, q))
  }

  ghost predicate IsLeftmostShortestSplit(s: string, parts: seq<string>) {
    SplitsFrom(s, 0, parts)
  }

  lemma {:induction false} ConcatAppend(a: seq<string>, b: seq<string>)
    ensures Concat(a + b) == Concat(a) + Concat(b)
  {
    if a != [] {
      assert (a + b)[1..] == a[1..] + b;
      ConcatAppend(a[1..], b);
    } else {
      assert a + b == b;
    }
  }

  /** Prefix offsets of `[g, m] + rest` are those of rest shifted by `|g| + |m|`. */
  lemma StartShift(g: string, m: string, rest: seq<string>, i: nat)
    requires i <= |rest|
    ensures Start([g, m] + rest, i + 2) == |g| + |m| + Start(rest, i)
  {
    assert ([g, m] + rest)[..i + 2] == [g, m] + rest[..i];
    ConcatAppend([g, m], rest[..i]);
    assert Concat([g, m]) == g + m by {
      assert [g, m][1..] == [m];
      assert [m][1..] == [];
    }
  }

  /** A match found in `s` is also a match of the pattern on its own. */
  lemma IsMatchSlice(s: string, q: int, e: int)
    requires IsMatch(s, q, e)
    ensures IsMatch(s[q..e], 0, e - q)
  {
    var m := s[q..e];
    forall j | 2 <= j < e - q - 2
      ensures !IsLineTerminator(m[j]) && !StarPairAt(m, j)
    {
      assert m[j] == s[q + j] && m[j + 1] == s[q + j + 1];
    }
  }

  /** The rest of the input, when no match starts in it, is split into itself. */
  lemma SplitsFromLast(s: string, p: nat)
    requires p <= |s|
    requires forall k :: p <= k < |s| ==> NoMatchAt(s, k)
    ensures SplitsFrom(s, p, [s[p..]])
  {
    var parts := [s[p..]];
    assert Concat(parts) == s[p..] by { assert parts[1..] == []; }
    forall i, k | 0 <= i < |parts| && i % 2 == 0 && p + Start(parts, i) <= k < p + Start(parts, i) + |parts[i]|
      ensures NoMatchAt(s, k)
    {
      assert parts[..0] == [];
    }
  }

  /** A gap without a match, then a match, then a split of what follows, split the whole. */
  lemma SplitsFromCons(s: string, p: nat, q: nat, e: nat, rest: seq<string>)
    requires p <= q && IsMatch(s, q, e)
    requires forall k :: p <= k < q ==> NoMatchAt(s, k)
    requires SplitsFrom(s, e, rest)
    ensures SplitsFrom(s, p, [s[p..q], s[q..e]] + rest)
  {
    var parts := [s[p..q], s[q..e]] + rest;
    ConcatCons(s, p, q, e, rest);
    ConsMatches(s, q, e, s[p..q], rest);
    ConsGaps(s, p, s[p..q], s[q..e], rest);
  }

  lemma ConsGaps(s: string, p: nat, g: string, m: string, rest: seq<string>)
    requires forall k :: p <= k < p + |g| ==> NoMatchAt(s, k)
    requires var e := p + |g| + |m|;
      forall i, k :: 0 <= i < |rest| && i % 2 == 0 && e + Start(rest, i) <= k < e + Start(rest, i) + |rest[i]|
        ==> NoMatchAt(s, k)
    ensures var parts := [g, m] + rest;
      forall i, k :: 0 <= i < |parts| && i % 2 == 0 && p + Start(parts, i) <= k < p + Start(parts, i) + |parts[i]|
        ==> NoMatchAt(s, k)
  {
    var parts := [g, m] + rest;
    forall i, k | 0 <= i < |parts| && i % 2 == 0 && p + Start(parts, i) <= k < p + Start(parts, i) + |parts[i]|
      ensures NoMatchAt(s, k)
    {
      if i == 0 {
        assert parts[..0] == [];
      } else {
        StartShift(g, m, rest, i - 2);
        assert parts[i] == rest[i - 2];
      }
    }
  }

  lemma ConsMatches(s: string, q: nat, e: nat, g: string, rest: seq<string>)
    requires IsMatch(s, q, e)
    requires forall i :: 0 <= i < |rest| && i % 2 == 1 ==> IsMatch(rest[i], 0, |rest[i]|)
    ensures var parts := [g, s[q..e]] + rest;
      forall i :: 0 <= i < |parts| && i % 2 == 1 ==> IsMatch(parts[i], 0, |parts[i]|)
  {
    var parts := [g, s[q..e]] + rest;
    forall i | 0 <= i < |parts| && i % 2 == 1
      ensures IsMatch(parts[i], 0, |parts[i]|)
    {
      if i == 1 {
        IsMatchSlice(s, q, e);
      } else {
        assert parts[i] == rest[i - 2];
      }
    }
  }

  lemma ConcatCons(s: string, p: nat, q: nat, e: nat, rest: seq<string>)
    requires p <= q <= e <= |s| && Concat(rest) == s[e..]
    ensures Concat([s[p..q], s[q..e]] + rest) == s[p..]
  {
    var parts := [s[p..q], s[q..e]] + rest;
    assert parts[1..] == [s[q..e]] + rest;
    assert parts[1..][1..] == rest;
    assert Concat(parts) == s[p..q] + (s[q..e] + s[e..]);
    assert s[p..] == s[p..q] + (s[q..e] + s[e..]);
  }

  /** The split loop started at (p, q), with no match at any position of `[p, q)`, is correct. */
  lemma {:induction false} SplitFromCorrect(s: string, p: nat, q: nat)
    requires p <= q <= |s|
    requires forall k :: p <= k < q ==> NoMatchAt(s, k)
    decreases |s| - q
    ensures SplitsFrom(s, p, SplitFrom(s, p, q))
  {
    if q == |s| {
      SplitsFromLast(s, p);
    } else {
      match MatchAt(s, q)
      case None =>
        MatchAtNone(s, q);
        SplitFromCorrect(s, p, q + 1);
      case Some(e) =>
        MatchAtExact(s, q, e);
        SplitFromCorrect(s, e, e);
        SplitsFromCons(s, p, q, e, SplitFrom(s, e, e));
    }
  }

  /** What `split` returns is the leftmost-shortest split of the input. */
  lemma SplitCorrect(s: string)
    ensures IsLeftmostShortestSplit(s, Split(s))
  {
    SplitFromCorrect(s, 0, 0);
  }

  /** Splitting and joining again gives back the input: the capturing group keeps every match. */
  lemma SplitConcat(s: string)
    ensures Concat(Split(s)) == s
  {
    SplitCorrect(s);
  }

  /** A match of the pattern on its own is a match wherever it occurs. */
  lemma IsMatchEmbed(s: string, q: int, e: int)
    requires 0 <= q <= e <= |s|
    requires IsMatch(s[q..e], 0, e - q)
    ensures IsMatch(s, q, e)
  {
    var m := s[q..e];
    assert StarPairAt(m, 0) && StarPairAt(m, e - q - 2);
    forall j | q + 2 <= j < e - 2
      ensures !IsLineTerminator(s[j]) && !StarPairAt(s, j)
    {
      assert m[j - q] == s[j] && m[j - q + 1] == s[j + 1];
      assert !StarPairAt(m, j - q);
    }
  }

  /** The first gap of a split is where the input starts, and no match starts inside it. */
  lemma SplitsFromHead(s: string, p: nat, parts: seq<string>)
    requires SplitsFrom(s, p, parts)
    ensures p + |parts[0]| <= |s| && s[p..p + |parts[0]|] == parts[0]
    ensures forall k :: p <= k < p + |parts[0]| ==> NoMatchAt(s, k)
    ensures |parts| == 1 ==> parts[0] == s[p..]
  {
    assert Concat(parts) == parts[0] + Concat(parts[1..]);
    assert s[p..][..|parts[0]|] == parts[0];
    forall k | p <= k < p + |parts[0]| ensures NoMatchAt(s, k) {
      assert parts[..0] == [];
      assert p + Start(parts, 0) <= k < p + Start(parts, 0) + |parts[0]|;
    }
    if |parts| == 1 {
      assert parts[1..] == [];
    }
  }

  /** After the first gap comes a match of `s`, and the remaining parts split what follows it. */
  lemma SplitsFromTail(s: string, p: nat, parts: seq<string>)
    requires SplitsFrom(s, p, parts) && |parts| > 1
    ensures var q := p + |parts[0]|;
      var e := q + |parts[1]|;
      && e <= |s| && parts[1] == s[q..e] && IsMatch(s, q, e)
      && SplitsFrom(s, e, parts[2..])
  {
    var g, m, rest := parts[0], parts[1], parts[2..];
    var q := p + |g|;
    var e := q + |m|;
    assert parts == [g, m] + rest;
    TailPieces(s, p, g, m, rest);
    assert IsMatch(parts[1], 0, |parts[1]|);
    IsMatchEmbed(s, q, e);
    forall i | 0 <= i < |rest| && i % 2 == 1
      ensures IsMatch(rest[i], 0, |rest[i]|)
    {
      assert rest[i] == parts[i + 2];
    }
    TailGaps(s, p, g, m, rest);
  }

  /** Where the first gap and the first match of a split lie in the input. */
  lemma TailPieces(s: string, p: nat, g: string, m: string, rest: seq<string>)
    requires p <= |s| && Concat([g, m] + rest) == s[p..]
    ensures p + |g| + |m| <= |s| && s[p + |g|..p + |g| + |m|] == m
    ensures Concat(rest) == s[p + |g| + |m|..]
  {
    ConcatAppend([g, m], rest);
    assert Concat([g, m]) == g + m by {
      assert [g, m][1..] == [m];
      assert [m][1..] == [];
    }
    assert s[p..] == g + m + Concat(rest);
    assert s[p..][|g|..|g| + |m|] == m;
    assert s[p + |g| + |m|..] == s[p..][|g| + |m|..];
  }

  /** The gaps after the first match keep their property, counted from the match's end. */
  lemma TailGaps(s: string, p: nat, g: string, m: string, rest: seq<string>)
    requires var parts := [g, m] + rest;
      forall i, k :: 0 <= i < |parts| && i % 2 == 0 && p + Start(parts, i) <= k < p + Start(parts, i) + |parts[i]|
        ==> NoMatchAt(s, k)
    ensures var e := p + |g| + |m|;
      forall i, k :: 0 <= i < |rest| && i % 2 == 0 && e + Start(rest, i) <= k < e + Start(rest, i) + |rest[i]|
        ==> NoMatchAt(s, k)
  {
    var parts := [g, m] + rest;
    var e := p + |g| + |m|;
    forall i, k | 0 <= i < |rest| && i % 2 == 0 && e + Start(rest, i) <= k < e + Start(rest, i) + |rest[i]|
      ensures NoMatchAt(s, k)
    {
      StartShift(g, m, rest, i);
      assert rest[i] == parts[i + 2];
      assert p + Start(parts, i + 2) <= k < p + Start(parts, i + 2) + |parts[i + 2]|;
    }
  }

  /** Two leftmost-shortest splits agree on their first gap: it ends at the first match, or
   *  at the end of the input. */
  lemma SplitsFromSameHead(s: string, p: nat, a: seq<string>, b: seq<string>)
    requires SplitsFrom(s, p, a) && SplitsFrom(s, p, b)
    ensures a[0] == b[0] && (|a| == 1 <==> |b| == 1)
  {
    SplitsFromHead(s, p, a);
    SplitsFromHead(s, p, b);
    if |a| > 1 {
      SplitsFromTail(s, p, a);
      var k := p + |a[0]|;
      assert !NoMatchAt(s, k) by { assert IsMatch(s, k, k + |a[1]|); }
      assert |b[0]| <= |a[0]|;
    }
    if |b| > 1 {
      SplitsFromTail(s, p, b);
      var k := p + |b[0]|;
      assert !NoMatchAt(s, k) by { assert IsMatch(s, k, k + |b[1]|); }
      assert |a[0]| <= |b[0]|;
    }
  }

  /** There is only one leftmost-shortest split, so `split` is characterised by it. */
  lemma {:induction false} SplitsFromUnique(s: string, p: nat, a: seq<string>, b: seq<string>)
    requires SplitsFrom(s, p, a) && SplitsFrom(s, p, b)
    decreases |a|
    ensures a == b
  {
    SplitsFromSameHead(s, p, a, b);
    if |a| > 1 {
      SplitsFromTail(s, p, a);
      SplitsFromTail(s, p, b);
      var q := p + |a[0]|;
      IsMatchUnique(s, q, q + |a[1]|, q + |b[1]|);
      SplitsFromUnique(s, q + |a[1]|, a[2..], b[2..]);
      assert a == [a[0], a[1]] + a[2..] && b == [b[0], b[1]] + b[2..];
    }
  }

  /** `parts` is the leftmost-shortest split of `s` exactly when `split` returns it. */
  lemma SplitIsTheLeftmostShortestSplit(s: string, parts: seq<string>)
    ensures IsLeftmostShortestSplit(s, parts) <==> parts == Split(s)
  {
    SplitCorrect(s);
    if IsLeftmostShortestSplit(s, parts) {
      SplitsFromUnique(s, 0, parts, Split(s));
    }
  }

  // ---------------------------------------------------------------------------------------
  // `parseBold`
  // ---------------------------------------------------------------------------------------

  function Min(a: int, b: int): int { if a <= b then a else b }
  function Max(a: int, b: int): int { if a <= b then b else a }

  /** `s.startsWith(prefix)`: the first characters of `s` are those of `prefix`, one by one. */
  predicate StartsWith(s: string, prefix: string): (b: bool)
    ensures b <==> |prefix| <= |s| && forall j :: 0 <= j < |prefix| ==> s[j] == prefix[j]
  {
    |prefix| <= |s| && s[..|prefix|] == prefix
  }

  /** `s.endsWith(suffix)`: the last characters of `s` are those of `suffix`, one by one. */
  predicate EndsWith(s: string, suffix: string): (b: bool)
    ensures b <==> |suffix| <= |s| && forall j :: 0 <= j < |suffix| ==> s[|s| - |suffix| + j] == suffix[j]
  {
    |suffix| <= |s| && s[|s| - |suffix|..] == suffix
  }

  /**
   * `s.slice(start, end)`: a negative position counts back from the end, both positions are
   * clamped to `[0, |s|]`, and an empty string results when they cross.
   */
  function JsSlice(s: string, start: int, end: int): (r: string)
    ensures |r| <= |s|
    ensures 0 <= start <= end <= |s| ==> r == s[start..end]
    ensures 0 <= end <= start ==> r == []
    ensures 0 <= start && end < 0 && start <= |s| + end ==> r == s[start..|s| + end]
  {
    var from := if start < 0 then Max(|s| + start, 0) else Min(start, |s|);
    var to := if end < 0 then Max(|s| + end, 0) else Min(end, |s|);
    if from < to then s[from..to] else []
  }

  /** `part.slice(2, -2)` drops two characters at each end, leaving nothing of a short part. */
  lemma TrimmedText(part: string)
    ensures JsSlice(part, 2, -2) == if |part| >= 4 then part[2..|part| - 2] else []
  {
  }

  /** The test `part.startsWith('**') && part.endsWith('**')`. The two delimiters may overlap,
   *  so `**` and `***` pass it too. */
  predicate LooksBold(part: string): (b: bool)
    ensures b <==> (|part| >= 2 && part[0] == '*' && part[1] == '*'
                    && part[|part| - 2] == '*' && part[|part| - 1] == '*')
  {
    StartsWith(part, "**") && EndsWith(part, "**")
  }

  /** The callback of `parts.map`: one part becomes one segment. */
  function Classify(part: string): (seg: Segment)
    ensures seg.Bold? <==> LooksBold(part)
    ensures seg.Plain? ==> seg.text == part
    ensures seg.Bold? && |part| >= 4 ==> "**" + seg.text + "**" == part
    ensures seg.Bold? && |part| < 4 ==> seg.text == []
  {
    if LooksBold(part) then Bold(JsSlice(part, 2, -2)) else Plain(part)
  }

  /** `parts.map(...)`. */
  function ClassifyAll(parts: seq<string>): (segs: seq<Segment>)
    ensures |segs| == |parts|
    ensures forall i :: 0 <= i < |parts| ==> (segs[i].Bold? <==> LooksBold(parts[i]))
    ensures forall i :: 0 <= i < |parts| && segs[i].Plain? ==> segs[i].text == parts[i]
  {
    seq(|parts|, i requires 0 <= i < |parts| => Classify(parts[i]))
  }

  /** `parseBold(text)`: null for the empty (falsy) string, else one segment per split part. */
  function ParseBold(text: string): (r: Option<seq<Segment>>)
    ensures r.None? <==> text == []
  {
    if text == [] then None else Some(ClassifyAll(Split(text)))
  }

  /** The markup a segment list stands for: each bold text wrapped in `**` again. */
  function Render(segs: seq<Segment>): string {
    if segs == [] then []
    else
      (match segs[0]
       case Plain(t) => t
       case Bold(t) => "**" + t + "**") + Render(segs[1..])
  }

  /** The inner text of a match holds no line terminator and no `**`, nor ends with `*`. */
  ghost predicate IsBoldInner(t: string) {
    && (forall j :: 0 <= j < |t| ==> !IsLineTerminator(t[j]))
    && (forall j :: 0 <= j < |t| ==> !StarPairAt(t + "*", j))
  }

  lemma MatchInner(m: string)
    requires IsMatch(m, 0, |m|)
    ensures LooksBold(m) && IsBoldInner(m[2..|m| - 2])
  {
    var t := m[2..|m| - 2];
    assert m[..2] == "**" && m[|m| - 2..] == "**";
    forall j | 0 <= j < |t|
      ensures !IsLineTerminator(t[j]) && !StarPairAt(t + "*", j)
    {
      assert t[j] == m[j + 2];
      assert (t + "*")[j] == m[j + 2] && (t + "*")[j + 1] == m[j + 3];
      assert !StarPairAt(m, j + 2);
    }
  }

  /**
   * The segments of a non-empty text: one per part, odd in number, every odd-indexed one bold
   * with the inner text of its match verbatim, every even-indexed one plain unless the gap
   * itself starts and ends with `**`.
   */
  lemma ParseBoldSegments(text: string)
    requires text != []
    ensures var segs, parts := ParseBold(text).value, Split(text);
      && |segs| == |parts| && |segs| % 2 == 1
      && (forall i :: 0 <= i < |segs| && i % 2 == 1 ==>
            segs[i].Bold? && parts[i] == "**" + segs[i].text + "**" && IsBoldInner(segs[i].text))
      && (forall i :: 0 <= i < |segs| && i % 2 == 0 ==>
            segs[i] == if LooksBold(parts[i]) then Bold(JsSlice(parts[i], 2, -2)) else Plain(parts[i]))
  {
    var segs, parts := ParseBold(text).value, Split(text);
    SplitCorrect(text);
    forall i | 0 <= i < |segs| && i % 2 == 1
      ensures segs[i].Bold? && parts[i] == "**" + segs[i].text + "**" && IsBoldInner(segs[i].text)
    {
      MatchInner(parts[i]);
      TrimmedText(parts[i]);
    }
  }

  /** A part `**` or `***`: it passes the bold test, but its trimmed text is empty. */
  predicate IsBareDelimiter(part: string) {
    LooksBold(part) && |part| < 4
  }

  lemma {:induction false} RenderClassifyAll(parts: seq<string>)
    ensures |Render(ClassifyAll(parts))| >= |Concat(parts)|
    ensures (forall i :: 0 <= i < |parts| ==> !IsBareDelimiter(parts[i])) ==>
      Render(ClassifyAll(parts)) == Concat(parts)
    ensures (exists i :: 0 <= i < |parts| && IsBareDelimiter(parts[i])) ==>
      |Render(ClassifyAll(parts))| > |Concat(parts)|
  {
    if parts != [] {
      var segs := ClassifyAll(parts);
      assert segs[1..] == ClassifyAll(parts[1..]);
      RenderClassifyAll(parts[1..]);
      TrimmedText(parts[0]);
      if exists i :: 0 <= i < |parts| && IsBareDelimiter(parts[i]) {
        var i :| 0 <= i < |parts| && IsBareDelimiter(parts[i]);
        if i > 0 {
          assert parts[1..][i - 1] == parts[i];
        }
      }
      if forall i :: 0 <= i < |parts| ==> !IsBareDelimiter(parts[i]) {
        forall i | 0 <= i < |parts[1..]| ensures !IsBareDelimiter(parts[1..][i]) {
          assert parts[1..][i] == parts[i + 1];
        }
      }
    }
  }

  /**
   * Putting the `**` back around every bold text gives the input back exactly when no part is a
   * bare `**` or `***`; such a part still passes the bold test (the source checks only the two
   * ends) and renders as an empty `<strong>`, so its two or three asterisks are lost.
   */
  lemma RenderRoundTrip(text: string)
    requires text != []
    ensures Render(ParseBold(text).value) == text <==>
      forall i :: 0 <= i < |Split(text)| ==> !IsBareDelimiter(Split(text)[i])
  {
    SplitConcat(text);
    RenderClassifyAll(Split(text));
  }

  lemma {:induction false} FindCloseBlocked(s: string, i: nat, k: int)
    requires i <= k && i <= |s|
    requires FindClose(s, i).None? && StarPairAt(s, k)
    decreases |s| - i
    ensures exists j :: i <= j < k && IsLineTerminator(s[j])
  {
    if i < |s| && !IsLineTerminator(s[i]) {
      FindCloseBlocked(s, i + 1, k);
    }
  }

  /** A gap of `s[p..q]` that starts and ends with `**` but was not matched holds a line break. */
  lemma UnmatchedGap(s: string, p: nat, q: nat)
    requires p < q <= |s| && MatchAt(s, p).None?
    requires LooksBold(s[p..q]) && q - p >= 4
    ensures exists j :: 2 <= j < q - p - 2 && IsLineTerminator(s[p..q][j])
  {
    var g := s[p..q];
    assert g[..2] == "**" && g[|g| - 2..] == "**";
    assert g[0] == s[p] && g[1] == s[p + 1];
    assert g[|g| - 2] == s[q - 2] && g[|g| - 1] == s[q - 1];
    FindCloseBlocked(s, p + 2, q - 2);
    var j :| p + 2 <= j < q - 2 && IsLineTerminator(s[j]);
    assert g[j - p] == s[j];
  }

  /** A part that passes the bold test with four characters or more has a line break inside. */
  ghost predicate BrokenIfBold(part: string) {
    LooksBold(part) && |part| >= 4 ==> exists j :: 2 <= j < |part| - 2 && IsLineTerminator(part[j])
  }

  /** Every gap of a part list that passes the bold test, four characters or more, is broken. */
  ghost predicate GapsBroken(parts: seq<string>) {
    forall i :: 0 <= i < |parts| && i % 2 == 0 ==> BrokenIfBold(parts[i])
  }

  lemma GapsBrokenCons(g: string, m: string, rest: seq<string>)
    requires BrokenIfBold(g) && GapsBroken(rest)
    ensures GapsBroken([g, m] + rest)
  {
    var parts := [g, m] + rest;
    forall i | 0 <= i < |parts| && i % 2 == 0
      ensures BrokenIfBold(parts[i])
    {
      if i > 0 {
        assert parts[i] == rest[i - 2];
      }
    }
  }

  lemma {:induction false} SplitFromGaps(s: string, p: nat, q: nat)
    requires p <= q <= |s|
    requires p < q ==> MatchAt(s, p).None?
    decreases |s| - q
    ensures GapsBroken(SplitFrom(s, p, q))
  {
    if q == |s| {
      if LooksBold(s[p..]) && |s| - p >= 4 {
        UnmatchedGap(s, p, |s|);
      }
      assert SplitFrom(s, p, q) == [s[p..]];
    } else {
      match MatchAt(s, q)
      case None =>
        SplitFromGaps(s, p, q + 1);
      case Some(e) =>
        SplitFromGaps(s, e, e);
        if LooksBold(s[p..q]) && q - p >= 4 {
          UnmatchedGap(s, p, q);
        }
        GapsBrokenCons(s[p..q], s[q..e], SplitFrom(s, e, e));
    }
  }

  /**
   * The edge case of the bold test: a gap emitted bold is a bare `**` or `***`, or a `**X**`
   * that the pattern could not match because X holds a line break.
   */
  lemma BoldGapHasLineBreak(text: string)
    ensures var parts := Split(text);
      forall i :: 0 <= i < |parts| && i % 2 == 0 && LooksBold(parts[i]) ==>
        IsBareDelimiter(parts[i]) || exists j :: 2 <= j < |parts[i]| - 2 && IsLineTerminator(parts[i][j])
  {
    var parts := Split(text);
    SplitFromGaps(text, 0, 0);
    forall i | 0 <= i < |parts| && i % 2 == 0 && LooksBold(parts[i])
      ensures IsBareDelimiter(parts[i]) || exists j :: 2 <= j < |parts[i]| - 2 && IsLineTerminator(parts[i][j])
    {
      assert BrokenIfBold(parts[i]);
    }
  }

  // ---------------------------------------------------------------------------------------
  // Splitting text piece by piece
  // ---------------------------------------------------------------------------------------

  /** A match found in `s` past position n is a match of `s[n..]`, shifted back by n. */
  lemma IsMatchShift(s: string, n: nat, k: int, x: int)
    requires n <= |s| && 0 <= k && IsMatch(s, n + k, x)
    ensures IsMatch(s[n..], k, x - n)
  {
    var t := s[n..];
    assert t[k] == s[n + k] && t[k + 1] == s[n + k + 1];
    assert t[x - n - 2] == s[x - 2] && t[x - n - 1] == s[x - 1];
    forall j | k + 2 <= j < x - n - 2
      ensures !IsLineTerminator(t[j]) && !StarPairAt(t, j)
    {
      assert t[j] == s[n + j] && t[j + 1] == s[n + j + 1];
      assert !StarPairAt(s, n + j);
    }
  }

  /** A leftmost-shortest split of what follows position n is one of `s` from n: the pattern
   *  looks only forward, so no match is gained by what precedes n. */
  lemma SplitsFromShift(s: string, n: nat, parts: seq<string>)
    requires n <= |s| && SplitsFrom(s[n..], 0, parts)
    ensures SplitsFrom(s, n, parts)
  {
    assert s[n..][0..] == s[n..];
    forall i, k | 0 <= i < |parts| && i % 2 == 0 && n + Start(parts, i) <= k < n + Start(parts, i) + |parts[i]|
      ensures NoMatchAt(s, k)
    {
      assert NoMatchAt(s[n..], k - n);
      forall x ensures !IsMatch(s, k, x) {
        if IsMatch(s, k, x) {
          IsMatchShift(s, n, k - n, x);
        }
      }
    }
  }

  /** What precedes a position does not change how the text after it is split: the split loop
   *  restarted at n gives the parts of `s[n..]`. */
  lemma SplitFromShift(s: string, n: nat)
    requires n <= |s|
    ensures SplitFrom(s, n, n) == Split(s[n..])
  {
    SplitFromCorrect(s, n, n);
    SplitCorrect(s[n..]);
    SplitsFromShift(s, n, Split(s[n..]));
    SplitsFromUnique(s, n, SplitFrom(s, n, n), Split(s[n..]));
  }

  /** One step of the split loop where the match `s[q..e]` is found. */
  lemma SplitFromMatch(s: string, p: nat, q: nat, e: nat)
    requires p <= q < |s| && MatchAt(s, q) == Some(e)
    ensures SplitFrom(s, p, q) == [s[p..q], s[q..e]] + SplitFrom(s, e, e)
  {
  }

  /** Positions that hold no `*` are skipped over without a match. */
  lemma {:induction false} SkipPlain(s: string, p: nat, q: nat, k: nat)
    requires p <= q <= k <= |s|
    requires forall j :: q <= j < k ==> s[j] != '*'
    decreases k - q
    ensures SplitFrom(s, p, q) == SplitFrom(s, p, k)
  {
    if q < k {
      SkipPlain(s, p, q + 1, k);
    }
  }

  /** Text without `*` is a single part. */
  lemma SplitPlain(t: string)
    requires '*' !in t
    ensures Split(t) == [t]
  {
    SkipPlain(t, 0, 0, |t|);
  }

  /** A single `**` between two texts without `*` leaves the whole text as one part. */
  lemma SplitUnpaired(g: string, t: string)
    requires '*' !in g && '*' !in t
    ensures Split(g + "**" + t) == [g + "**" + t]
  {
    var s := g + "**" + t;
    var n := |g|;
    assert forall j :: 0 <= j < n ==> s[j] == g[j];
    assert forall j :: n + 2 <= j < |s| ==> s[j] == t[j - n - 2];
    SkipPlain(s, 0, 0, n);
    forall e ensures !IsMatch(s, n, e) {
      if n + 4 <= e <= |s| {
        assert s[e - 2] == t[e - n - 4];
      }
    }
    MatchAtNone(s, n);
    assert !StarPairAt(s, n + 1);
    SkipPlain(s, 0, n + 2, |s|);
  }

  /** Text without `*`, then a bold run whose text has no `*` and no line break, then the rest. */
  lemma SplitBoldRun(g: string, x: string, t: string)
    requires '*' !in g && '*' !in x
    requires forall j :: 0 <= j < |x| ==> !IsLineTerminator(x[j])
    ensures Split(g + "**" + x + "**" + t) == [g, "**" + x + "**"] + Split(t)
  {
    var s := g + "**" + x + "**" + t;
    var n, e := |g|, |g| + |x| + 4;
    BoldRunMatch(g, x, t);
    SkipPlain(s, 0, 0, n);
    SplitFromMatch(s, 0, n, e);
    SplitFromShift(s, e);
  }

  /** The pieces of a text made of plain text, a bold run and the rest, and the run's match. */
  lemma BoldRunMatch(g: string, x: string, t: string)
    requires '*' !in g && '*' !in x
    requires forall j :: 0 <= j < |x| ==> !IsLineTerminator(x[j])
    ensures var s := g + "**" + x + "**" + t;
      && (forall j :: 0 <= j < |g| ==> s[j] != '*')
      && MatchAt(s, |g|) == Some(|g| + |x| + 4)
      && s[0..|g|] == g && s[|g|..|g| + |x| + 4] == "**" + x + "**" && s[|g| + |x| + 4..] == t
  {
    var s := g + "**" + x + "**" + t;
    var n, e := |g|, |g| + |x| + 4;
    assert forall j :: 0 <= j < n ==> s[j] == g[j];
    assert forall j :: n + 2 <= j < n + 2 + |x| ==> s[j] == x[j - n - 2];
    assert IsMatch(s, n, e);
    MatchAtExact(s, n, e);
    assert s[..n] == g && s[n..e] == "**" + x + "**";
    assert s[e..] == t;
  }

  /** Runs `**x**`, each after a piece of plain text, followed by a plain tail. */
  function Compose(runs: seq<(string, string)>, tail: string): string {
    if runs == [] then tail
    else runs[0].0 + "**" + runs[0].1 + "**" + Compose(runs[1..], tail)
  }

  lemma ComposeCons(g: string, x: string, runs: seq<(string, string)>, tail: string)
    ensures Compose([(g, x)] + runs, tail) == g + "**" + x + "**" + Compose(runs, tail)
  {
    assert ([(g, x)] + runs)[1..] == runs;
  }

  /** The segments such a text is meant to give: plain, bold, plain, ..., plain. */
  function Expected(runs: seq<(string, string)>, tail: string): seq<Segment> {
    if runs == [] then [Plain(tail)]
    else [Plain(runs[0].0), Bold(runs[0].1)] + Expected(runs[1..], tail)
  }

  lemma ExpectedCons(g: string, x: string, runs: seq<(string, string)>, tail: string)
    ensures Expected([(g, x)] + runs, tail) == [Plain(g), Bold(x)] + Expected(runs, tail)
  {
    assert ([(g, x)] + runs)[1..] == runs;
  }

  /** The authored form: no `*` outside the delimiters, no line break inside a bold run. */
  ghost predicate WellFormedRuns(runs: seq<(string, string)>, tail: string) {
    && '*' !in tail
    && (forall r :: r in runs ==> '*' !in r.0 && '*' !in r.1)
    && (forall r, j :: r in runs && 0 <= j < |r.1| ==> !IsLineTerminator(r.1[j]))
  }

  /** Well-formedness is checked one run at a time. */
  lemma WellFormedCons(g: string, x: string, runs: seq<(string, string)>, tail: string)
    requires '*' !in g && '*' !in x && forall j :: 0 <= j < |x| ==> !IsLineTerminator(x[j])
    requires WellFormedRuns(runs, tail)
    ensures WellFormedRuns([(g, x)] + runs, tail)
  {
  }

  lemma ClassifyAllAppend(a: seq<string>, b: seq<string>)
    ensures ClassifyAll(a + b) == ClassifyAll(a) + ClassifyAll(b)
  {
  }

  lemma ClassifyPlain(g: string)
    requires '*' !in g
    ensures Classify(g) == Plain(g)
  {
    if |g| >= 2 {
      assert g[0] in g;
    }
  }

  lemma ClassifyRun(x: string)
    ensures Classify("**" + x + "**") == Bold(x)
  {
    var m := "**" + x + "**";
    assert m[..2] == "**" && m[|m| - 2..] == "**";
    assert m[2..|m| - 2] == x;
  }

  /** Well-formed text splits into its runs, left to right, and each is emitted bold. */
  lemma {:induction false} ParseComposed(runs: seq<(string, string)>, tail: string)
    requires WellFormedRuns(runs, tail)
    ensures Split(Compose(runs, tail)) ==
      (if runs == [] then [tail] else [runs[0].0, "**" + runs[0].1 + "**"] + Split(Compose(runs[1..], tail)))
    ensures ClassifyAll(Split(Compose(runs, tail))) == Expected(runs, tail)
  {
    if runs == [] {
      SplitPlain(tail);
      ClassifyPlain(tail);
      assert ClassifyAll([tail]) == [Classify(tail)];
    } else {
      var g, x := runs[0].0, runs[0].1;
      assert runs[0] in runs;
      assert WellFormedRuns(runs[1..], tail) by {
        forall r | r in runs[1..] ensures r in runs { }
      }
      SplitBoldRun(g, x, Compose(runs[1..], tail));
      assert Compose(runs, tail) == g + "**" + x + "**" + Compose(runs[1..], tail);
      ParseComposed(runs[1..], tail);
      ClassifyRunStep(g, x, Split(Compose(runs[1..], tail)));
    }
  }

  /** Classifying a plain piece and a run in front of further parts. */
  lemma ClassifyRunStep(g: string, x: string, rest: seq<string>)
    requires '*' !in g && '*' !in x
    ensures ClassifyAll([g, "**" + x + "**"] + rest) == [Plain(g), Bold(x)] + ClassifyAll(rest)
  {
    ClassifyAllAppend([g, "**" + x + "**"], rest);
    ClassifyPlain(g);
    ClassifyRun(x);
    assert ClassifyAll([g, "**" + x + "**"]) == [Classify(g), Classify("**" + x + "**")];
  }

  /** Several bold runs in one text are split out independently, left to right. */
  lemma ParseBoldRuns(runs: seq<(string, string)>, tail: string)
    requires WellFormedRuns(runs, tail) && Compose(runs, tail) != []
    ensures ParseBold(Compose(runs, tail)) == Some(Expected(runs, tail))
  {
    ParseComposed(runs, tail);
  }

  // ---------------------------------------------------------------------------------------
  // Authored text
  // ---------------------------------------------------------------------------------------

  /** One bold quotation in the middle of a sentence of the first memory. */
  lemma LearningTogetherVector()
    ensures ParseBold("嗯，总体上，还是这句**“共同学习，一起进步”**最不错！") ==
      Some([Plain("嗯，总体上，还是这句"), Bold("“共同学习，一起进步”"), Plain("最不错！")])
  {
    var g, x, tail := "嗯，总体上，还是这句", "“共同学习，一起进步”", "最不错！";
    ComposeCons(g, x, [], tail);
    assert Compose([], tail) == tail;
    assert g + "**" + x + "**" + tail == "嗯，总体上，还是这句**“共同学习，一起进步”**最不错！";
    assert '*' !in g && '*' !in x && '*' !in tail;
    assert forall j :: 0 <= j < |x| ==> !IsLineTerminator(x[j]);
    assert WellFormedRuns([], tail);
    WellFormedCons(g, x, [], tail);
    assert [(g, x)] + [] == [(g, x)];
    ParseBoldRuns([(g, x)], tail);
    assert Expected([(g, x)], tail) == [Plain(g), Bold(x), Plain(tail)];
  }

  lemma InlineVector()
    ensures ParseBold("a **b** c") == Some([Plain("a "), Bold("b"), Plain(" c")])
  {
    var runs, tail := [("a ", "b")], " c";
    assert Compose(runs, tail) == "a **b** c";
    assert '*' !in "a ";
    assert '*' !in "b";
    assert '*' !in tail;
    assert WellFormedRuns(runs, tail);
    ParseBoldRuns(runs, tail);
    assert Expected(runs, tail) == [Plain("a "), Bold("b"), Plain(" c")];
  }

  lemma UnpairedVector()
    ensures ParseBold("a ** b") == Some([Plain("a ** b")])
  {
    assert "a ** b" == "a " + "**" + " b";
    SplitUnpaired("a ", " b");
    assert Split("a ** b") == ["a ** b"];
    assert !StartsWith("a ** b", "**") by { assert "a ** b"[..2] == "a "; }
    assert Classify("a ** b") == Plain("a ** b");
    assert ClassifyAll(["a ** b"]) == [Plain("a ** b")];
  }

  /** A text that opens with a bold run keeps the empty leading part, as split does. */
  lemma LeadingRunVector()
    ensures ParseBold("**a** b") == Some([Plain(""), Bold("a"), Plain(" b")])
  {
    var runs, tail := [("", "a")], " b";
    assert Compose(runs, tail) == "**a** b";
    assert '*' !in "a";
    assert '*' !in tail;
    assert WellFormedRuns(runs, tail);
    ParseBoldRuns(runs, tail);
    assert Expected(runs, tail) == [Plain(""), Bold("a"), Plain(" b")];
  }

  /** `***` holds no match, yet passes the starts-with/ends-with test: an empty bold segment. */
  lemma TripleStarVector()
    ensures ParseBold("***") == Some([Bold("")])
  {
    var s := "***";
    assert MatchAt(s, 0) == None && MatchAt(s, 1) == None && MatchAt(s, 2) == None;
    assert Split(s) == [s];
    assert Classify(s) == Bold("");
    assert ClassifyAll([s]) == [Bold("")];
  }

  /** A line break stops the lazy `.*?`, so `**\n**` is not a match but is still emitted bold. */
  lemma LineBreakVector()
    ensures ParseBold("**\n**") == Some([Bold("\n")])
  {
    var s := "**\n**";
    assert IsLineTerminator(s[2]);
    assert MatchAt(s, 0) == None;
    assert MatchAt(s, 1) == None && MatchAt(s, 2) == None && MatchAt(s, 3) == None && MatchAt(s, 4) == None;
    assert Split(s) == [s];
    assert Classify(s) == Bold("\n");
    assert ClassifyAll([s]) == [Bold("\n")];
  }
}
