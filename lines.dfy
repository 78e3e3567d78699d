/** The line-oriented rules of the parser: `clean_line` (app.py:66-67), the numbered
    top priorities and the `**Key Strengths:**` list of the executive summary
    (app.py:94-101), and the interaction alerts (app.py:119). */
module Lines {

  import opened Text
  import opened Options

  /** The list markers `clean_line` deletes: `-`, `*` and the bullet U+2022. */
  const Markers: set<char> := {'-', '*', '•'}

  /** `re.sub(r"[\-\*•]+\s*", "", s)`: every run of markers, with the whitespace
      right after it, is deleted; every other character stays. */
  function DeleteMarkers(s: string): (r: string)
    ensures |r| <= |s|
    ensures forall k :: 0 <= k < |r| ==> r[k] !in Markers
    ensures (s == [] || s[0] !in Whitespace) ==> (r == [] || r[0] !in Whitespace)
    decreases |s|
  {
    if s == [] then []
    else if s[0] in Markers then
      var j := RunEnd(s, 0, Markers);
      var w := RunEnd(s, j, Whitespace);
      DeleteMarkers(s[w..])
    else
      [s[0]] + DeleteMarkers(s[1..])
  }

  /** `clean_line(line)` */
  function CleanLine(line: string): (r: string)
    ensures forall k :: 0 <= k < |r| ==> r[k] !in Markers
    ensures r == [] || r[0] !in Whitespace
  {
    DeleteMarkers(Strip(line))
  }

  /** The marker deletion removes markers and whitespace only: every other character
      stays, in order. */
  lemma {:induction false} DeleteMarkersOthers(s: string)
    ensures Without(DeleteMarkers(s), Markers + Whitespace) == Without(s, Markers + Whitespace)
    decreases |s|
  {
    if s != [] {
      if s[0] in Markers {
        var j := RunEnd(s, 0, Markers);
        var w := RunEnd(s, j, Whitespace);
        DeleteMarkersOthers(s[w..]);
        WithoutDropped(s, w, Markers + Whitespace);
      } else {
        DeleteMarkersOthers(s[1..]);
        WithoutCons(s[0], DeleteMarkers(s[1..]), Markers + Whitespace);
        WithoutCons(s[0], s[1..], Markers + Whitespace);
        assert s == [s[0]] + s[1..];
      }
    }
  }

  /** `clean_line` deletes markers and whitespace only: every other character of the
      line stays, in order. */
  lemma CleanLineKeeps(line: string)
    ensures Without(CleanLine(line), Markers + Whitespace) == Without(line, Markers + Whitespace)
  {
    StripCharsKeeps(line, Whitespace);
    WithoutWiden(Strip(line), line, Whitespace, Markers + Whitespace);
    DeleteMarkersOthers(Strip(line));
  }

  /** A character that is neither a marker nor whitespace is never deleted. */
  lemma {:induction false} DeleteMarkersKeeps(s: string, k: nat)
    requires k < |s| && s[k] !in Markers && s[k] !in Whitespace
    ensures s[k] in DeleteMarkers(s)
    decreases |s|
  {
    if s[0] in Markers {
      var j := RunEnd(s, 0, Markers);
      var w := RunEnd(s, j, Whitespace);
      assert !(k < j) && !(j <= k < w);
      assert s[w..][k - w] == s[k];
      DeleteMarkersKeeps(s[w..], k - w);
    } else if k > 0 {
      assert s[1..][k - 1] == s[k];
      DeleteMarkersKeeps(s[1..], k - 1);
    }
  }

  /** A string of markers and whitespace that does not start with whitespace is deleted whole. */
  lemma {:induction false} DeleteMarkersAll(s: string)
    requires AllIn(s, Markers + Whitespace)
    requires s == [] || s[0] !in Whitespace
    ensures DeleteMarkers(s) == []
    decreases |s|
  {
    if s != [] {
      var j := RunEnd(s, 0, Markers);
      var w := RunEnd(s, j, Whitespace);
      var rest := s[w..];
      assert AllIn(rest, Markers + Whitespace) by {
        forall k | 0 <= k < |rest| ensures rest[k] in Markers + Whitespace {
          assert rest[k] == s[w + k];
        }
      }
      DeleteMarkersAll(rest);
    }
  }

  /** `clean_line` gives the empty string exactly for a line made of nothing but markers
      and whitespace: a line of dashes or a bare bullet yields no entry. */
  lemma CleanLineEmpty(line: string)
    ensures CleanLine(line) == [] <==> AllIn(line, Markers + Whitespace)
  {
    var s := Strip(line);
    StripCharsSplit(line, Whitespace);
    var a := StripOffset(line, Whitespace);
    if CleanLine(line) == [] {
      CleanLineEmptyOnly(line, s, a);
    }
    if AllIn(line, Markers + Whitespace) {
      assert AllIn(s, Markers + Whitespace) by {
        forall k | 0 <= k < |s| ensures s[k] in Markers + Whitespace {
          assert s[k] == line[a + k];
        }
      }
      DeleteMarkersAll(s);
    }
  }

  lemma CleanLineEmptyOnly(line: string, s: string, a: nat)
    requires s == Strip(line) && a == StripOffset(line, Whitespace)
    requires a + |s| <= |line| && s == line[a..a + |s|]
    requires AllIn(line[..a], Whitespace) && AllIn(line[a + |s|..], Whitespace)
    requires DeleteMarkers(s) == []
    ensures AllIn(line, Markers + Whitespace)
  {
    assert AllIn(s, Markers + Whitespace) by {
      forall k | 0 <= k < |s| ensures s[k] in Markers + Whitespace {
        if s[k] !in Markers && s[k] !in Whitespace {
          DeleteMarkersKeeps(s, k);
        }
      }
    }
    forall k | 0 <= k < |line| ensures line[k] in Markers + Whitespace {
      if k < a {
        assert line[k] == line[..a][k];
      } else if k < a + |s| {
        assert line[k] == s[k - a];
      } else {
        assert line[k] == line[a + |s|..][k - a - |s|];
      }
    }
  }

  /** `[clean_line(l) for l in lines if clean_line(l)]` */
  function NonEmptyCleanLines(lines: seq<string>): (r: seq<string>)
    ensures |r| <= |lines|
    ensures forall x :: x in r ==> x != [] && exists i :: 0 <= i < |lines| && CleanLine(lines[i]) == x
    decreases |lines|
  {
    if lines == [] then []
    else
      var rest := NonEmptyCleanLines(lines[1..]);
      assert forall i :: 0 <= i < |lines| - 1 ==> lines[1..][i] == lines[i + 1];
      var c := CleanLine(lines[0]);
      if c != [] then [c] + rest else rest
  }

  /** Every line whose cleaned form is not empty contributes it. */
  lemma {:induction false} NonEmptyCleanLinesComplete(lines: seq<string>, i: nat)
    requires i < |lines| && CleanLine(lines[i]) != []
    ensures CleanLine(lines[i]) in NonEmptyCleanLines(lines)
    decreases |lines|
  {
    if i > 0 {
      assert lines[1..][i - 1] == lines[i];
      NonEmptyCleanLinesComplete(lines[1..], i - 1);
    }
  }

  /** The entries of consecutive groups of lines come out in document order. */
  lemma {:induction false} NonEmptyCleanLinesAppend(xs: seq<string>, ys: seq<string>)
    ensures NonEmptyCleanLines(xs + ys) == NonEmptyCleanLines(xs) + NonEmptyCleanLines(ys)
    decreases |xs|
  {
    if xs == [] {
      assert xs + ys == ys;
    } else {
      assert (xs + ys)[0] == xs[0];
      assert (xs + ys)[1..] == xs[1..] + ys;
      NonEmptyCleanLinesAppend(xs[1..], ys);
    }
  }

  /** The list kept from a block: one entry per line whose `clean_line` is not empty
      (app.py:100, 119). */
  function LineItems(block: string): (r: seq<string>)
  {
    NonEmptyCleanLines(SplitLines(block))
  }

  /** `x` is the non-empty cleaned form of one of the lines. */
  predicate FromLine(lines: seq<string>, x: string) {
    x != [] && exists i :: 0 <= i < |lines| && CleanLine(lines[i]) == x
  }

  /** No marker anywhere and no whitespace in front. */
  predicate Unmarked(x: string) {
    (x == [] || x[0] !in Whitespace) && forall k :: 0 <= k < |x| ==> x[k] !in Markers
  }

  /** Every item is a non-empty cleaned line with no marker and no leading whitespace,
      and every line that cleans to something non-empty gives its item. */
  lemma LineItemsExact(block: string)
    ensures forall x :: x in LineItems(block) <==> FromLine(SplitLines(block), x)
    ensures forall x :: x in LineItems(block) ==> Unmarked(x)
  {
    assert LineItems(block) == NonEmptyCleanLines(SplitLines(block));
    NonEmptyCleanLinesExact(SplitLines(block));
  }

  /** The same, for any list of lines. */
  lemma NonEmptyCleanLinesExact(lines: seq<string>)
    ensures forall x :: x in NonEmptyCleanLines(lines) <==> FromLine(lines, x)
    ensures forall x :: x in NonEmptyCleanLines(lines) ==> Unmarked(x)
  {
    forall x | FromLine(lines, x) ensures x in NonEmptyCleanLines(lines) {
      var i :| 0 <= i < |lines| && CleanLine(lines[i]) == x;
      NonEmptyCleanLinesComplete(lines, i);
    }
  }

  /** The literal that opens the key-strengths list (matched case-sensitively). */
  const KeyStrengthsLabel: string := "**Key Strengths:**"

  /** `re.search(r"\*\*Key Strengths:\*\*(.*)", block, re.S)` and the list built from
      the rest of the block after it; `None` when the label does not occur. */
  function KeyStrengths(block: string): (r: Option<seq<string>>)
    ensures r.Some? <==> exists p :: 0 <= p < |block| && StartsAt(block, p, KeyStrengthsLabel)
  {
    match FindLiteral(block, 0, KeyStrengthsLabel)
    case None => None
    case Some(k) => Some(LineItems(block[k + |KeyStrengthsLabel|..]))
  }

  /** When the label first occurs at `k`, the list is built from everything after that
      occurrence, to the end of the block. */
  lemma KeyStrengthsFirst(block: string, k: nat)
    requires StartsAt(block, k, KeyStrengthsLabel)
    requires forall p :: 0 <= p < k ==> !StartsAt(block, p, KeyStrengthsLabel)
    ensures KeyStrengths(block) == Some(LineItems(block[k + |KeyStrengthsLabel|..]))
  {
    var f := FindLiteral(block, 0, KeyStrengthsLabel);
    assert f.Some? && !(f.value < k) && !(k < f.value);
  }

  /** The match of `\d+\.\s*(.*?)\n` at `i`, if any: its group and where it ends. The
      digits and the dot are fixed; `\s*` takes the whole whitespace run when a newline
      follows later on, and otherwise gives back characters up to the last newline in
      that run, leaving an empty group. */
  function PriorityAt(b: string, i: nat): (r: Option<(string, nat)>)
    requires i <= |b|
    ensures r.Some? ==> i < r.value.1 <= |b| && b[r.value.1 - 1] == '\n'
    ensures r.Some? ==> |r.value.0| < r.value.1 - i && r.value.0 == b[r.value.1 - 1 - |r.value.0|..r.value.1 - 1]
    ensures r.Some? ==> forall k :: 0 <= k < |r.value.0| ==> r.value.0[k] != '\n'
    ensures r.Some? ==> i < |b| && b[i] in Digits
  {
    if i < |b| && b[i] in Digits then
      var d := RunEnd(b, i, Digits);
      if d < |b| && b[d] == '.' then PriorityGroup(b, d) else None
    else None
  }

  /** The rest of that match after the dot at `d`: `\s*(.*?)\n`. */
  function PriorityGroup(b: string, d: nat): (r: Option<(string, nat)>)
    requires d < |b| && b[d] == '.'
    ensures r.Some? ==> d < r.value.1 <= |b| && b[r.value.1 - 1] == '\n'
    ensures r.Some? ==> |r.value.0| < r.value.1 - d && r.value.0 == b[r.value.1 - 1 - |r.value.0|..r.value.1 - 1]
    ensures r.Some? ==> forall k :: 0 <= k < |r.value.0| ==> r.value.0[k] != '\n'
  {
    var w := RunEnd(b, d + 1, Whitespace);
    var nl := IndexOfChar(b, w, '\n');
    if nl < |b| then
      var g := b[w..nl];
      assert forall k :: 0 <= k < |g| ==> g[k] == b[w + k];
      Some((g, nl + 1))
    else
      var x := LastIndexOf(b, d + 1, w, '\n');
      if x < w then Some(([], x + 1)) else None
  }

  /** After the dot, `\s*` runs to `w`, the first character that is not whitespace, and
      a newline follows at `n` with none in between: the group is the text from `w` to
      that newline, and the match ends after it. */
  lemma PriorityGroupLine(b: string, d: nat, w: nat, n: nat)
    requires d < |b| && b[d] == '.'
    requires d < w <= n < |b| && b[w] !in Whitespace
    requires forall k :: d < k < w ==> b[k] in Whitespace
    requires b[n] == '\n' && forall k :: w <= k < n ==> b[k] != '\n'
    ensures PriorityGroup(b, d) == Some((b[w..n], n + 1))
  {
    RunEndFrom(b, d + 1, w, Whitespace);
    assert RunEnd(b, w, Whitespace) == w;
  }

  /** No newline follows the whitespace run after the dot, which ends at `w`: `\s*` gives
      back characters up to the last newline inside the run, the group is empty and the
      match ends after that newline; without a newline in the run there is no match. */
  lemma PriorityGroupBlank(b: string, d: nat, w: nat)
    requires d < |b| && b[d] == '.'
    requires d < w <= |b| && (w == |b| || b[w] !in Whitespace)
    requires forall k :: d < k < w ==> b[k] in Whitespace
    requires forall k :: w <= k < |b| ==> b[k] != '\n'
    ensures PriorityGroup(b, d).Some? <==> exists k :: d < k < w && b[k] == '\n'
    ensures PriorityGroup(b, d).Some? ==>
      var e := PriorityGroup(b, d).value.1;
      && PriorityGroup(b, d).value.0 == [] && d < e <= w && b[e - 1] == '\n'
      && forall k :: e <= k < |b| ==> b[k] != '\n'
  {
    RunEndFrom(b, d + 1, w, Whitespace);
    assert RunEnd(b, w, Whitespace) == w;
    assert IndexOfChar(b, w, '\n') == |b|;
  }

  /** The last position in `[lo, hi)` holding `c`, or `hi` when there is none. */
  function LastIndexOf(s: string, lo: nat, hi: nat, c: char): (p: nat)
    requires lo <= hi <= |s|
    ensures lo <= p <= hi
    ensures p < hi ==> s[p] == c
    ensures forall k :: (if p < hi then p + 1 else lo) <= k < hi ==> s[k] != c
    decreases hi - lo
  {
    if lo == hi then hi
    else if s[hi - 1] == c then hi - 1
    else
      var p := LastIndexOf(s, lo, hi - 1, c);
      if p < hi - 1 then p else hi
  }

  /** `re.findall(r"\d+\.\s*(.*?)\n", block)` from position `from`: leftmost,
      non-overlapping matches. */
  function PriorityMatches(b: string, from: nat): (gs: seq<string>)
    requires from <= |b|
    ensures forall g :: g in gs ==> forall k :: 0 <= k < |g| ==> g[k] != '\n'
    decreases |b| - from
  {
    if from == |b| then []
    else
      match PriorityAt(b, from)
      case None => PriorityMatches(b, from + 1)
      case Some((g, e)) => [g] + PriorityMatches(b, e)
  }

  /** `[clean_line(p) for p in priorities]`: every item is kept, even an empty one. */
  function TopPriorities(block: string): (r: seq<string>)
    ensures |r| == |PriorityMatches(block, 0)|
    ensures forall i :: 0 <= i < |r| ==> r[i] == CleanLine(PriorityMatches(block, 0)[i])
  {
    var ps := PriorityMatches(block, 0);
    seq(|ps|, i requires 0 <= i < |ps| => CleanLine(ps[i]))
  }

  /** One numbered line `<digit>. <g>` followed by a newline is one match, whose group is `g`. */
  lemma PriorityItem(b: string, i: nat, g: string, e: nat)
    requires LineAt(b, i, g) && Item(g) && e == i + 4 + |g|
    ensures PriorityMatches(b, i) == [g] + PriorityMatches(b, e)
  {
    var n := i + 3 + |g|;
    assert b[i + 3] == g[0];
    forall k | i + 3 <= k < n ensures b[k] != '\n' {
      assert b[k] == g[k - i - 3];
    }
    assert RunEnd(b, i + 1, Digits) == i + 1;
    assert RunEnd(b, i, Digits) == i + 1;
    PriorityGroupLine(b, i + 1, i + 3, n);
  }

  /** A priority as a model writes it: not empty, on one line, with no list marker and
      no whitespace at either end. */
  predicate Item(g: string) {
    && g != [] && g[0] !in Whitespace && g[|g| - 1] !in Whitespace
    && forall k :: 0 <= k < |g| ==> g[k] !in Markers && g[k] != '\n'
  }

  /** `clean_line` leaves such a priority as it is. */
  lemma CleanItem(g: string)
    requires Item(g)
    ensures CleanLine(g) == g
  {
    StripCharsNoop(g, Whitespace);
    DeleteMarkersNoop(g);
  }

  /** A string without markers has none to delete. */
  lemma {:induction false} DeleteMarkersNoop(s: string)
    requires forall k :: 0 <= k < |s| ==> s[k] !in Markers
    ensures DeleteMarkers(s) == s
    decreases |s|
  {
    if s != [] {
      assert forall k :: 0 <= k < |s| - 1 ==> s[1..][k] == s[k + 1];
      DeleteMarkersNoop(s[1..]);
      assert s == [s[0]] + s[1..];
    }
  }

  /** At `i` stands a numbered line `<digit>. g` and its newline. */
  predicate LineAt(b: string, i: nat, g: string) {
    && i + 4 + |g| <= |b| && b[i] in Digits && b[i + 1] == '.' && b[i + 2] == ' '
    && b[i + 3..i + 3 + |g|] == g && b[i + 3 + |g|] == '\n'
  }

  /** Where the parts of such a line sit when it is written out inside a text. */
  lemma ItemParts(b: string, p: string, h: string, g: string, q: string)
    requires b == p + (h + g + "\n") + q && |h| == 3 && h[0] in Digits && h[1] == '.' && h[2] == ' '
    ensures LineAt(b, |p|, g)
  {
    assert b[|p|] == h[0] && b[|p| + 1] == h[1] && b[|p| + 2] == h[2];
  }

  /** Two numbered lines give the two priorities, in order. */
  lemma TwoPriorities(g1: string, g2: string)
    requires Item(g1) && Item(g2)
    ensures TopPriorities(("1. " + g1 + "\n") + ("2. " + g2 + "\n")) == [g1, g2]
  {
    var l1, l2 := "1. " + g1 + "\n", "2. " + g2 + "\n";
    var b := l1 + l2;
    assert LineAt(b, 0, g1) && LineAt(b, |l1|, g2) by {
      assert b == [] + l1 + l2;
      ItemParts(b, [], "1. ", g1, l2);
      assert b == l1 + l2 + [];
      ItemParts(b, l1, "2. ", g2, []);
    }
    TwoPrioritiesAt(b, g1, g2);
  }

  /** The same, with the two lines located. */
  lemma TwoPrioritiesAt(b: string, g1: string, g2: string)
    requires Item(g1) && Item(g2)
    requires LineAt(b, 0, g1) && LineAt(b, 4 + |g1|, g2) && |b| == 8 + |g1| + |g2|
    ensures TopPriorities(b) == [g1, g2]
  {
    TwoMatchesAt(b, g1, g2);
    var r := TopPriorities(b);
    assert r[0] == g1 by { CleanItem(g1); }
    assert r[1] == g2 by { CleanItem(g2); }
    assert r == [r[0], r[1]];
  }

  /** The matches of those two lines. */
  lemma TwoMatchesAt(b: string, g1: string, g2: string)
    requires Item(g1) && Item(g2)
    requires LineAt(b, 0, g1) && LineAt(b, 4 + |g1|, g2) && |b| == 8 + |g1| + |g2|
    ensures PriorityMatches(b, 0) == [g1, g2]
  {
    var m := 4 + |g1|;
    assert PriorityMatches(b, m) == [g2] by {
      PriorityItem(b, m, g2, |b|);
      assert PriorityMatches(b, |b|) == [];
    }
    PriorityItem(b, 0, g1, m);
  }

  /** The two numbered lines of a typical summary, `1. Reduce sodium` and
      `2. Monitor glucose`, each ending in a newline. */
  lemma PrioritiesSample()
    ensures TopPriorities(("1. " + "Reduce sodium" + "\n") + ("2. " + "Monitor glucose" + "\n"))
      == ["Reduce sodium", "Monitor glucose"]
  {
    WordsItem("Reduce sodium");
    WordsItem("Monitor glucose");
    TwoPriorities("Reduce sodium", "Monitor glucose");
  }

  /** From `i` on, ASCII letters and spaces. */
  predicate WordsFrom(s: string, i: nat)
    decreases |s| - i
  {
    i >= |s| || (('A' <= s[i] <= 'Z' || 'a' <= s[i] <= 'z' || s[i] == ' ') && WordsFrom(s, i + 1))
  }

  /** Letters and spaces, with a letter at both ends, make an item. */
  lemma WordsItem(s: string)
    requires WordsFrom(s, 0) && s != [] && s[0] != ' ' && s[|s| - 1] != ' '
    ensures Item(s)
  {
    forall k | 0 <= k < |s| ensures s[k] !in Markers && s[k] != '\n' {
      WordsAt(s, 0, k);
    }
    WordsAt(s, 0, 0);
    WordsAt(s, 0, |s| - 1);
  }

  lemma {:induction false} WordsAt(s: string, i: nat, k: nat)
    requires WordsFrom(s, i) && i <= k < |s|
    ensures 'A' <= s[k] <= 'Z' || 'a' <= s[k] <= 'z' || s[k] == ' '
    decreases k - i
  {
    if i < k {
      WordsAt(s, i + 1, k);
    }
  }

  /** A block without a newline has no numbered priorities: every item must be followed
      by one. */
  lemma {:induction false} NoNewlineNoPriorities(b: string, from: nat)
    requires from <= |b|
    requires forall k :: from <= k < |b| ==> b[k] != '\n'
    ensures PriorityMatches(b, from) == []
    decreases |b| - from
  {
    if from < |b| {
      assert PriorityAt(b, from).None?;
      NoNewlineNoPriorities(b, from + 1);
    }
  }
}
