/** The `- name: range` pairs of the normal-ranges section (app.py:126-128). */
module Ranges {

  import opened Text
  import opened Options

  /** The last position in `[lo, hi)` whose character is not a newline, or `hi`. */
  function LastNonNewline(s: string, lo: nat, hi: nat): (p: nat)
    requires lo <= hi <= |s|
    ensures lo <= p <= hi
    ensures p < hi ==> s[p] != '\n'
    ensures forall k :: (if p < hi then p + 1 else lo) <= k < hi ==> s[k] == '\n'
    decreases hi - lo
  {
    if lo == hi then hi
    else if s[hi - 1] != '\n' then hi - 1
    else
      var p := LastNonNewline(s, lo, hi - 1);
      if p < hi - 1 then p else hi
  }

  /** Where the colon of a match at `i` of `-\s*([^:]+):` stands, if there is one: the
      first colon after the dash, provided the name between them is not empty. When the
      whitespace after the dash reaches that colon, `\s*` gives its last character back
      to the name. */
  function RangeColon(b: string, i: nat): (c: Option<nat>)
    requires i <= |b|
    ensures c.Some? ==> i < c.value < |b| && b[i] == '-' && b[c.value] == ':'
    ensures c.Some? ==> forall k :: i < k < c.value ==> b[k] != ':'
  {
    if i < |b| && b[i] == '-' then
      var w1 := RunEnd(b, i + 1, Whitespace);
      var c := IndexOfChar(b, w1, ':');
      assert ':' !in Whitespace;
      if c == |b| || (c == w1 && w1 == i + 1) then None else Some(c)
    else None
  }

  /** The name group `([^:]+)` of the match whose colon is at `c`. */
  function NameGroup(b: string, i: nat, c: nat): (g: string)
    requires i <= |b| && RangeColon(b, i) == Some(c)
  {
    var w1 := RunEnd(b, i + 1, Whitespace);
    if c == w1 then b[w1 - 1..c] else b[w1..c]
  }

  /** The range group `\s*([^\n]+)` after the colon at `c`, and where the match ends: from
      the first non-whitespace character after the colon to the end of its line; when only
      whitespace follows the colon, `\s*` gives back down to its last character that is
      not a newline, which becomes the whole group; when there is none, no match. */
  function RangeTail(b: string, c: nat): (r: Option<(string, nat)>)
    requires c < |b|
    ensures r.Some? ==> c < r.value.1 <= |b|
  {
    var w2 := RunEnd(b, c + 1, Whitespace);
    if w2 < |b| then
      var n := IndexOfChar(b, w2, '\n');
      Some((b[w2..n], n))
    else
      var x := LastNonNewline(b, c + 1, |b|);
      if x < |b| then Some((b[x..x + 1], x + 1)) else None
  }

  /** What the range group is and where the match ends, after the colon at `c`. The match
      ends at the end of a line. When something other than whitespace follows the colon,
      the group is the text from the first such character to the end of its line. When
      only whitespace follows, the group strips to nothing and only newlines come after
      the match. */
  predicate TailAt(b: string, c: nat, g: string, e: nat)
    requires c < |b|
  {
    && c < e <= |b| && (e == |b| || b[e] == '\n')
    && (RunEnd(b, c + 1, Whitespace) < |b| ==>
          RunEnd(b, c + 1, Whitespace) < e && g == b[RunEnd(b, c + 1, Whitespace)..e] && NoNewline(g))
    && (RunEnd(b, c + 1, Whitespace) == |b| ==>
          Strip(g) == [] && forall k :: e <= k < |b| ==> b[k] == '\n')
  }

  /** The range group is missing exactly when nothing but newlines follows the colon;
      otherwise it is as `TailAt` describes. */
  lemma RangeTailMeaning(b: string, c: nat)
    requires c < |b|
    ensures RangeTail(b, c).None? <==> forall k :: c < k < |b| ==> b[k] == '\n'
    ensures RangeTail(b, c).Some? ==> TailAt(b, c, RangeTail(b, c).value.0, RangeTail(b, c).value.1)
    ensures RangeTail(b, c).Some? ==>
      && Strip(RangeTail(b, c).value.0) == Strip(b[c + 1..RangeTail(b, c).value.1])
      && NoNewline(Strip(RangeTail(b, c).value.0))
  {
    var w2 := RunEnd(b, c + 1, Whitespace);
    if w2 < |b| {
      var n := IndexOfChar(b, w2, '\n');
      RangeValueLine(b, c, w2, n);
      assert b[w2] != '\n';
    } else {
      var x := LastNonNewline(b, c + 1, |b|);
      if x < |b| {
        RangeValueBlank(b, c, x + 1);
      }
    }
  }

  /** The match of `-\s*([^:]+):\s*([^\n]+)` at `i`, if any: the two groups and where the
      match ends. */
  function RangeAt(b: string, i: nat): (r: Option<(string, string, nat)>)
    requires i <= |b|
    ensures r.Some? ==> i < r.value.2 <= |b|
  {
    match RangeColon(b, i)
    case None => None
    case Some(c) =>
      match RangeTail(b, c)
      case None => None
      case Some((range, e)) => Some((NameGroup(b, i, c), range, e))
  }

  /** Where the leftmost match from `from` starts, or `|b|` when there is none. */
  function NextRange(b: string, from: nat): (p: nat)
    requires from <= |b|
    ensures from <= p <= |b|
    ensures p < |b| ==> RangeAt(b, p).Some?
    ensures NoMatchBetween(b, from, p)
    decreases |b| - from
  {
    if from == |b| || RangeAt(b, from).Some? then from else NextRange(b, from + 1)
  }

  /** No match starts in `[from, p)`, stated one position at a time. */
  predicate NoMatchBetween(b: string, from: nat, p: nat)
    requires p <= |b|
    decreases p - from
  {
    from >= p || (RangeAt(b, from).None? && NoMatchBetween(b, from + 1, p))
  }

  /** The same, for each position. */
  lemma {:induction false} NoMatchBetweenAt(b: string, from: nat, p: nat, q: nat)
    requires p <= |b| && NoMatchBetween(b, from, p) && from <= q < p
    ensures RangeAt(b, q).None?
    decreases q - from
  {
    assert RangeAt(b, from).None? && NoMatchBetween(b, from + 1, p);
    if from < q {
      NoMatchBetweenAt(b, from + 1, p, q);
    }
  }

  /** `re.findall` of the range pattern from `from`: the leftmost match, then the matches
      from where it ends, so that no two overlap. */
  function RangeMatches(b: string, from: nat): (ms: seq<(string, string)>)
    requires from <= |b|
    decreases |b| - from
  {
    var p := NextRange(b, from);
    if p == |b| then []
    else
      var (name, range, e) := RangeAt(b, p).value;
      [(name, range)] + RangeMatches(b, e)
  }

  /** `m` is the pair of groups of the match at some position from `from` on. */
  predicate MatchFrom(b: string, from: nat, m: (string, string)) {
    exists p: nat :: from <= p < |b| && RangeAt(b, p).Some?
      && RangeAt(b, p).value.0 == m.0 && RangeAt(b, p).value.1 == m.1
  }

  /** Every pair `findall` returns is the pair of groups of a match at some position. */
  lemma {:induction false} RangeMatchesSound(b: string, from: nat)
    requires from <= |b|
    ensures forall m :: m in RangeMatches(b, from) ==> MatchFrom(b, from, m)
    decreases |b| - from
  {
    var p := NextRange(b, from);
    if p < |b| {
      var (name, range, e) := RangeAt(b, p).value;
      RangeMatchesSound(b, e);
      assert MatchFrom(b, from, (name, range));
    }
  }

  /** The first match found is the leftmost one, and the search goes on where it ends. */
  lemma RangeMatchesFirst(b: string, from: nat, p: nat)
    requires from <= p < |b| && RangeAt(b, p).Some?
    requires forall q :: from <= q < p ==> RangeAt(b, q).None?
    ensures var (name, range, e) := RangeAt(b, p).value;
      RangeMatches(b, from) == [(name, range)] + RangeMatches(b, e)
  {
    var n := NextRange(b, from);
    assert n == p by {
      if p < n {
        NoMatchBetweenAt(b, from, n, p);
      }
    }
  }

  /** Without a match from `from` on, there are no pairs. */
  lemma RangeMatchesNone(b: string, from: nat)
    requires from <= |b|
    requires forall q :: from <= q < |b| ==> RangeAt(b, q).None?
    ensures RangeMatches(b, from) == []
  {
    assert NextRange(b, from) == |b|;
  }

  /** Every range `findall` returns strips to text without a newline. */
  lemma RangeMatchesOneLine(b: string, from: nat)
    requires from <= |b|
    ensures forall m :: m in RangeMatches(b, from) ==> NoNewline(Strip(m.1))
  {
    RangeMatchesSound(b, from);
    forall m | m in RangeMatches(b, from) ensures NoNewline(Strip(m.1)) {
      var p: nat :| from <= p < |b| && RangeAt(b, p).Some?
        && RangeAt(b, p).value.0 == m.0 && RangeAt(b, p).value.1 == m.1;
      RangeAtMeaning(b, p);
      var c: nat :| MatchAt(b, p, c, RangeAt(b, p).value.0, m.1, RangeAt(b, p).value.2);
    }
  }

  /** No newline anywhere in `s`. */
  predicate NoNewline(s: string) {
    forall k :: 0 <= k < |s| ==> s[k] != '\n'
  }

  /** What one match stores, `biomarker.strip() -> rng.strip()`: the name is the stripped
      text between the dash and the first colon after it, and the range is the stripped
      text from that colon to the end of the line on which the range starts, so it holds
      no newline; the match ends at the end of that line. */
  lemma RangeAtMeaning(b: string, i: nat)
    requires i <= |b| && RangeAt(b, i).Some?
    ensures exists c: nat :: MatchAt(b, i, c, RangeAt(b, i).value.0, RangeAt(b, i).value.1, RangeAt(b, i).value.2)
  {
    var c := RangeColon(b, i).value;
    var (range, e) := RangeTail(b, c).value;
    var name := NameGroup(b, i, c);
    assert RangeAt(b, i).value == (name, range, e);
    assert Strip(name) == Strip(b[i + 1..c]) by {
      RangeName(b, i, RunEnd(b, i + 1, Whitespace), c);
    }
    RangeTailMeaning(b, c);
    assert MatchAt(b, i, c, name, range, e);
  }

  /** The match at `i` has its colon at `c`, its groups `name` and `range` and ends at `e`:
      `c` is the first colon after the dash at `i`, the name strips to what stands
      between them, and the range is as `TailAt` says and strips to text on one line. */
  predicate MatchAt(b: string, i: nat, c: nat, name: string, range: string, e: nat) {
    && i < c < e <= |b| && b[i] == '-' && b[c] == ':'
    && (forall k :: i < k < c ==> b[k] != ':')
    && Strip(name) == Strip(b[i + 1..c])
    && Strip(range) == Strip(b[c + 1..e])
    && NoNewline(Strip(range))
    && TailAt(b, c, range, e)
  }

  /** There is no match at `i` exactly when `i` holds no dash, when a colon follows the
      dash at once (the name would be empty), when no colon follows the dash at all, or
      when nothing but newlines follows the first colon after it. */
  lemma RangeAtNone(b: string, i: nat)
    requires i <= |b|
    ensures RangeAt(b, i).None? <==>
      || i == |b| || b[i] != '-'
      || (i + 1 < |b| && b[i + 1] == ':')
      || (forall k :: i < k < |b| ==> b[k] != ':')
      || exists c: nat :: FirstColon(b, i, c) && forall k :: c < k < |b| ==> b[k] == '\n'
  {
    if i < |b| && b[i] == '-' {
      var w1 := RunEnd(b, i + 1, Whitespace);
      var c := IndexOfChar(b, w1, ':');
      assert ':' !in Whitespace;
      if c < |b| && !(c == w1 && w1 == i + 1) {
        assert FirstColon(b, i, c);
        RangeTailMeaning(b, c);
        forall c': nat | FirstColon(b, i, c') ensures c' == c {
          assert !(c' < c) && !(c < c');
        }
      }
    }
  }

  /** `c` holds the first colon after the dash at `i`. */
  predicate FirstColon(b: string, i: nat, c: nat) {
    i < c < |b| && b[c] == ':' && forall k :: i < k < c ==> b[k] != ':'
  }

  lemma RangeName(b: string, i: nat, w1: nat, c: nat)
    requires i < |b| && b[i] == '-' && w1 == RunEnd(b, i + 1, Whitespace)
    requires c == IndexOfChar(b, w1, ':') && c < |b| && !(c == w1 && w1 == i + 1)
    ensures Strip(if c == w1 then b[w1 - 1..c] else b[w1..c]) == Strip(b[i + 1..c])
  {
    if c == w1 {
      var g := b[w1 - 1..c];
      assert AllIn(g, Whitespace);
      StripCharsEmpty(g, Whitespace);
      assert AllIn(b[i + 1..c], Whitespace);
      StripCharsEmpty(b[i + 1..c], Whitespace);
    } else {
      assert b[i + 1..c] == b[i + 1..w1] + b[w1..c];
      StripCharsPrefix(b[i + 1..w1], b[w1..c], Whitespace);
    }
  }

  /** The range when something other than whitespace follows the colon. */
  lemma RangeValueLine(b: string, c: nat, w2: nat, e: nat)
    requires c < w2 < |b| && w2 == RunEnd(b, c + 1, Whitespace)
    requires e == IndexOfChar(b, w2, '\n')
    ensures Strip(b[w2..e]) == Strip(b[c + 1..e]) && NoNewline(Strip(b[c + 1..e]))
    ensures NoNewline(b[w2..e])
  {
    var u := b[c + 1..w2];
    var x := b[w2..e];
    assert NoNewline(x) by {
      forall k | 0 <= k < |x| ensures x[k] != '\n' {
        assert x[k] == b[w2 + k];
      }
    }
    assert NoNewline(Strip(x)) by {
      StripNoNewline(x);
    }
    assert AllIn(u, Whitespace) by {
      forall k | 0 <= k < |u| ensures u[k] in Whitespace {
        assert u[k] == b[c + 1 + k];
      }
    }
    assert b[c + 1..e] == u + x;
    StripCharsPrefix(u, x, Whitespace);
  }

  /** Stripping a text without a newline leaves none. */
  lemma StripNoNewline(x: string)
    requires NoNewline(x)
    ensures NoNewline(Strip(x))
  {
    var r := Strip(x);
    var a := StripOffset(x, Whitespace);
    forall k | 0 <= k < |r| ensures r[k] != '\n' {
      assert r[k] == x[a + k];
    }
  }

  /** The range when only whitespace follows the colon: a lone character, stripped away. */
  lemma RangeValueBlank(b: string, c: nat, e: nat)
    requires c < |b| && RunEnd(b, c + 1, Whitespace) == |b|
    requires e == LastNonNewline(b, c + 1, |b|) + 1 && e <= |b|
    ensures Strip(b[e - 1..e]) == [] && Strip(b[c + 1..e]) == []
  {
    assert AllIn(b[e - 1..e], Whitespace);
    StripCharsEmpty(b[e - 1..e], Whitespace);
    assert AllIn(b[c + 1..e], Whitespace);
    StripCharsEmpty(b[c + 1..e], Whitespace);
  }

  /** The pairs the loop assigns, in match order. */
  function RangePairs(ms: seq<(string, string)>): (ps: seq<(string, string)>)
    ensures |ps| == |ms|
    ensures forall j :: 0 <= j < |ms| ==> ps[j] == (Strip(ms[j].0), Strip(ms[j].1))
  {
    seq(|ms|, j requires 0 <= j < |ms| => (Strip(ms[j].0), Strip(ms[j].1)))
  }
}
