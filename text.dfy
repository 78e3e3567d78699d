/** Character classes and the small string operations of Python's `str` and `re`
    that the report parser and the normaliser are built from. */
module Text {

  import opened Options

  /** The characters for which Python's `str.isspace()` holds. The same set is
      matched by `\s` in a `str` pattern and removed by `str.strip()` without
      arguments. */
  const Whitespace: set<char> := {
    '\t', '\n', '\U{0B}', '\U{0C}', '\r', '\U{1C}', '\U{1D}', '\U{1E}', '\U{1F}', ' ',
    '\U{85}', '\U{A0}', '\U{1680}',
    '\U{2000}', '\U{2001}', '\U{2002}', '\U{2003}', '\U{2004}', '\U{2005}',
    '\U{2006}', '\U{2007}', '\U{2008}', '\U{2009}', '\U{200A}',
    '\U{2028}', '\U{2029}', '\U{202F}', '\U{205F}', '\U{3000}'
  }

  /** The characters at which `str.splitlines()` ends a line ("\r\n" counts once). */
  const LineBreaks: set<char> := {
    '\n', '\r', '\U{0B}', '\U{0C}', '\U{1C}', '\U{1D}', '\U{1E}', '\U{85}', '\U{2028}', '\U{2029}'
  }

  const Digits: set<char> := {'0', '1', '2', '3', '4', '5', '6', '7', '8', '9'}

  /** `[A-Za-z0-9]` */
  predicate IsAsciiAlnum(c: char) {
    ('A' <= c <= 'Z') || ('a' <= c <= 'z') || ('0' <= c <= '9')
  }

  /** ASCII lower-casing, the case folding assumed for `re.I`. */
  function Lower(c: char): (r: char)
    ensures 'A' <= c <= 'Z' ==> 'a' <= r <= 'z' && r as int == c as int + 32
    ensures !('A' <= c <= 'Z') ==> r == c
  {
    if 'A' <= c <= 'Z' then (c as int + 32) as char else c
  }

  /** The end of the run of characters from `cs` that starts at `i`. */
  function RunEnd(s: string, i: nat, cs: set<char>): (j: nat)
    requires i <= |s|
    ensures i <= j <= |s|
    ensures forall k :: i <= k < j ==> s[k] in cs
    ensures j == |s| || s[j] !in cs
    decreases |s| - i
  {
    if i < |s| && s[i] in cs then RunEnd(s, i + 1, cs) else i
  }

  /** How many copies of `c` the string starts with. */
  function Lead(s: string, c: char): (n: nat)
    ensures n <= |s|
    ensures forall k :: 0 <= k < n ==> s[k] == c
    ensures n == |s| || s[n] != c
    decreases |s|
  {
    if s != [] && s[0] == c then 1 + Lead(s[1..], c) else 0
  }

  /** The start of the run of characters from `cs` that ends at `hi`, not going below `lo`. */
  function RunStart(s: string, lo: nat, hi: nat, cs: set<char>): (j: nat)
    requires lo <= hi <= |s|
    ensures lo <= j <= hi
    ensures forall k :: j <= k < hi ==> s[k] in cs
    ensures j == lo || s[j - 1] !in cs
    decreases hi
  {
    if lo < hi && s[hi - 1] in cs then RunStart(s, lo, hi - 1, cs) else hi
  }

  /** Where `s.strip(cs)` starts: the end of the leading run of characters of `cs`. */
  function StripOffset(s: string, cs: set<char>): (a: nat)
    ensures a <= |s|
    ensures forall k :: 0 <= k < a ==> s[k] in cs
    ensures a == |s| || s[a] !in cs
  {
    RunEnd(s, 0, cs)
  }

  /** `s.strip(cs)`: the slice of `s` left after removing characters of `cs` from both ends. */
  function StripChars(s: string, cs: set<char>): (r: string)
    ensures StripOffset(s, cs) + |r| <= |s|
    ensures forall k :: 0 <= k < |r| ==> r[k] == s[StripOffset(s, cs) + k]
    ensures forall k :: StripOffset(s, cs) + |r| <= k < |s| ==> s[k] in cs
    ensures r == [] || (r[0] !in cs && r[|r| - 1] !in cs)
  {
    var a := StripOffset(s, cs);
    s[a..RunStart(s, a, |s|, cs)]
  }

  /** `s.strip()` */
  function Strip(s: string): (r: string)
    ensures |r| <= |s|
    ensures r == [] || (r[0] !in Whitespace && r[|r| - 1] !in Whitespace)
  {
    StripChars(s, Whitespace)
  }

  /** Every character of `s` belongs to `cs`. */
  predicate AllIn(s: string, cs: set<char>) {
    forall k :: 0 <= k < |s| ==> s[k] in cs
  }

  /** Stripping removes everything exactly when everything is strippable. */
  lemma StripCharsEmpty(s: string, cs: set<char>)
    ensures StripChars(s, cs) == [] <==> AllIn(s, cs)
  {
    var r := StripChars(s, cs);
    var a := StripOffset(s, cs);
    if r == [] {
      assert forall k :: 0 <= k < |s| ==> s[k] in cs by {
        forall k | 0 <= k < |s| ensures s[k] in cs {
          if k < a { } else { }
        }
      }
    } else {
      assert r[0] == s[a];
    }
  }

  /** A string none of whose ends is in `cs` is left as it is by stripping `cs`. */
  lemma StripCharsNoop(s: string, cs: set<char>)
    requires s == [] || (s[0] !in cs && s[|s| - 1] !in cs)
    ensures StripChars(s, cs) == s
  {
    if s != [] {
      assert RunEnd(s, 0, cs) == 0;
      assert RunStart(s, 0, |s|, cs) == |s|;
    }
  }

  /** `re.sub(r"\s+", " ", s)`: every maximal run of whitespace becomes one space. */
  function CollapseSpace(s: string): (r: string)
    ensures |r| <= |s|
    ensures s == [] <==> r == []
    ensures s != [] && s[0] in Whitespace ==> r[0] == ' '
    ensures s != [] && s[0] !in Whitespace ==> r[0] == s[0]
    ensures s != [] && s[|s| - 1] !in Whitespace ==> r[|r| - 1] == s[|s| - 1]
    ensures SinglySpaced(r)
    decreases |s|
  {
    if s == [] then []
    else if s[0] in Whitespace then
      var e := RunEnd(s, 0, Whitespace);
      [' '] + CollapseSpace(s[e..])
    else
      [s[0]] + CollapseSpace(s[1..])
  }

  /** Each whitespace character is a plain space and is not followed by another one. */
  predicate SinglySpaced(s: string) {
    forall i :: 0 <= i < |s| && s[i] in Whitespace ==>
      s[i] == ' ' && (i + 1 == |s| || s[i + 1] !in Whitespace)
  }

  /** Collapsing whitespace in a string where it is already collapsed changes nothing. */
  lemma {:induction false} CollapseSpaceNoop(s: string)
    requires SinglySpaced(s)
    ensures CollapseSpace(s) == s
    decreases |s|
  {
    if s != [] {
      SinglySpacedSlice(s, 1, |s|);
      assert s[1..|s|] == s[1..];
      CollapseSpaceNoop(s[1..]);
      if s[0] in Whitespace {
        assert s[0] == ' ';
        assert RunEnd(s, 0, Whitespace) == 1 by {
          assert |s| == 1 || s[1] !in Whitespace;
          assert RunEnd(s, 1, Whitespace) == 1;
        }
      }
      assert s == [s[0]] + s[1..];
    }
  }

  /** A slice of a singly spaced string is singly spaced. */
  lemma SinglySpacedSlice(s: string, a: nat, b: nat)
    requires SinglySpaced(s) && a <= b <= |s|
    ensures SinglySpaced(s[a..b])
  {
    forall i | 0 <= i < b - a && s[a..b][i] in Whitespace
      ensures s[a..b][i] == ' ' && (i + 1 == b - a || s[a..b][i + 1] !in Whitespace)
    {
      assert s[a + i] in Whitespace;
    }
  }

  /** `s.replace("\n", " ")` */
  function ReplaceNewlines(s: string): (r: string)
    ensures |r| == |s|
    ensures forall i :: 0 <= i < |s| ==> r[i] == if s[i] == '\n' then ' ' else s[i]
  {
    seq(|s|, i requires 0 <= i < |s| => if s[i] == '\n' then ' ' else s[i])
  }

  /** `lit` occurs in `s` at position `p`. */
  predicate StartsAt(s: string, p: nat, lit: string) {
    p + |lit| <= |s| && s[p..p + |lit|] == lit
  }

  /** The first occurrence of `lit` in `s` at or after `from` (`s.find(lit, from)`). */
  function FindLiteral(s: string, from: nat, lit: string): (r: Option<nat>)
    requires from <= |s|
    requires lit != []
    ensures r.Some? ==> from <= r.value < |s| && StartsAt(s, r.value, lit)
    ensures forall p :: from <= p < (if r.Some? then r.value else |s|) ==> !StartsAt(s, p, lit)
    decreases |s| - from
  {
    if from == |s| then None
    else if StartsAt(s, from, lit) then Some(from)
    else FindLiteral(s, from + 1, lit)
  }

  /** The first position at or after `from` holding character `c`, or `|s|`. */
  function IndexOfChar(s: string, from: nat, c: char): (p: nat)
    requires from <= |s|
    ensures from <= p <= |s|
    ensures p < |s| ==> s[p] == c
    ensures forall k :: from <= k < p ==> s[k] != c
    decreases |s| - from
  {
    if from == |s| || s[from] == c then from else IndexOfChar(s, from + 1, c)
  }

  /** Where `$` (without `re.M`) matches: at the end, or just before a final newline. */
  predicate AtDollar(s: string, p: nat) {
    p == |s| || (p + 1 == |s| && s[p] == '\n')
  }

  /** The lookahead `(?=lit1|lit2|...|$)` holds at `p`. */
  predicate StopsAt(s: string, p: nat, lits: seq<string>) {
    AtDollar(s, p) || exists m :: 0 <= m < |lits| && StartsAt(s, p, lits[m])
  }

  /** Where a lazy `(.*?)` with `re.S`, followed by `(?=lit1|...|$)`, stops when it
      starts at `from`: the first position at which the lookahead holds. */
  function LookaheadEnd(s: string, from: nat, lits: seq<string>): (p: nat)
    requires from <= |s|
    ensures from <= p <= |s|
    ensures StopsAt(s, p, lits)
    ensures forall q :: from <= q < p ==> !StopsAt(s, q, lits)
    decreases |s| - from
  {
    if StopsAt(s, from, lits) then from else LookaheadEnd(s, from + 1, lits)
  }

  /** Where the line that starts at `from` ends: the next line break or the end. */
  function LineEnd(s: string, from: nat): (p: nat)
    requires from <= |s|
    ensures from <= p <= |s|
    ensures p < |s| ==> s[p] in LineBreaks
    ensures forall k :: from <= k < p ==> s[k] !in LineBreaks
    decreases |s| - from
  {
    if from == |s| || s[from] in LineBreaks then from else LineEnd(s, from + 1)
  }

  /** `s.splitlines()`: the lines of `s` without their line breaks; "\r\n" is one
      break, and a break at the very end does not start an empty last line. */
  function SplitLines(s: string): (lines: seq<string>)
    ensures forall i, k :: 0 <= i < |lines| && 0 <= k < |lines[i]| ==> lines[i][k] !in LineBreaks
    ensures s == [] <==> lines == []
    decreases |s|
  {
    if s == [] then []
    else
      var e := LineEnd(s, 0);
      if e == |s| then [s]
      else
        var next := if s[e] == '\r' && e + 1 < |s| && s[e + 1] == '\n' then e + 2 else e + 1;
        [s[..e]] + SplitLines(s[next..])
  }

  /** The lines joined back, each followed by a newline. */
  function Terminated(lines: seq<string>): (s: string)
    decreases |lines|
  {
    if lines == [] then [] else lines[0] + "\n" + Terminated(lines[1..])
  }

  /** In text whose only line break is the newline, `splitlines()` takes nothing away but
      the newlines: joining its lines back with a newline after each gives the text again,
      with one newline added when the text did not end with one. */
  lemma {:induction false} SplitLinesTerminated(s: string)
    requires OnlyNewlines(s)
    ensures Terminated(SplitLines(s)) == if s == [] || s[|s| - 1] == '\n' then s else s + "\n"
    decreases |s|
  {
    if s != [] {
      var e := LineEnd(s, 0);
      if e == |s| {
        assert s[|s| - 1] !in LineBreaks;
        assert SplitLines(s) == [s];
        assert Terminated([s]) == s + "\n" + Terminated([]);
      } else {
        assert s[e] == '\n';
        var t := s[e + 1..];
        assert OnlyNewlines(t) by {
          forall k | 0 <= k < |t| && t[k] in LineBreaks ensures t[k] == '\n' {
            assert t[k] == s[e + 1 + k];
          }
        }
        SplitLinesTerminated(t);
        SplitLinesStep(s, e);
        SplitAtNewline(s, e);
        NewlineJoin(s[..e], t, Terminated(SplitLines(t)));
      }
    }
  }

  /** One step of `SplitLines` at a newline that ends the first line. */
  lemma SplitLinesStep(s: string, e: nat)
    requires s != [] && e == LineEnd(s, 0) && e < |s| && s[e] == '\n'
    ensures Terminated(SplitLines(s)) == s[..e] + "\n" + Terminated(SplitLines(s[e + 1..]))
  {
    var ls := SplitLines(s);
    assert ls == [s[..e]] + SplitLines(s[e + 1..]);
    assert ls[1..] == SplitLines(s[e + 1..]);
  }

  lemma SplitAtNewline(s: string, e: nat)
    requires e < |s| && s[e] == '\n'
    ensures s == s[..e] + "\n" + s[e + 1..]
  {
    assert [s[e]] == "\n";
    assert s[..e + 1] == s[..e] + [s[e]];
    assert s == s[..e + 1] + s[e + 1..];
  }

  lemma NewlineJoin(a: string, t: string, r: string)
    requires r == if t == [] || t[|t| - 1] == '\n' then t else t + "\n"
    ensures var u := a + "\n" + t;
      a + "\n" + r == if u[|u| - 1] == '\n' then u else u + "\n"
  {
    var u := a + "\n" + t;
    if t != [] {
      assert u[|u| - 1] == t[|t| - 1];
    }
  }

  /** The newline is the only line break in `s`. */
  predicate OnlyNewlines(s: string) {
    forall k :: 0 <= k < |s| && s[k] in LineBreaks ==> s[k] == '\n'
  }

  /** The run of characters from `cs` that starts at `i` goes on past every position inside it. */
  lemma {:induction false} RunEndFrom(s: string, i: nat, j: nat, cs: set<char>)
    requires i <= j <= |s|
    requires forall k :: i <= k < j ==> s[k] in cs
    ensures RunEnd(s, i, cs) == RunEnd(s, j, cs)
    decreases j - i
  {
    if i < j {
      RunEndFrom(s, i + 1, j, cs);
    }
  }

  /** The run of characters from `cs` that ends at `hi` goes back past every position inside it. */
  lemma {:induction false} RunStartFrom(s: string, lo: nat, j: nat, hi: nat, cs: set<char>)
    requires lo <= j <= hi <= |s|
    requires forall k :: j <= k < hi ==> s[k] in cs
    ensures RunStart(s, lo, hi, cs) == RunStart(s, lo, j, cs)
    decreases hi - j
  {
    if j < hi {
      RunStartFrom(s, lo, j, hi - 1, cs);
    }
  }

  /** Stripping `cs` from a string padded on both sides with characters of `cs` gives
      back the middle, when the middle neither starts nor ends with one of them. */
  lemma StripCharsPadded(p: string, m: string, q: string, cs: set<char>)
    requires AllIn(p, cs) && AllIn(q, cs)
    requires m != [] && m[0] !in cs && m[|m| - 1] !in cs
    ensures StripChars(p + m + q, cs) == m
  {
    var s := p + m + q;
    assert s[|p|] == m[0];
    RunEndFrom(s, 0, |p|, cs);
    assert StripOffset(s, cs) == |p|;
    var e := |p| + |m|;
    assert s[e - 1] == m[|m| - 1];
    RunStartFrom(s, |p|, e, |s|, cs);
    assert s[|p|..e] == m;
  }

  /** Stripping with the whitespace-free core given: padding of strippable characters on
      both sides of a core that starts and ends with kept characters is all that goes. */
  lemma StripCharsAround(p: string, m: string, q: string, cs: set<char>)
    requires AllIn(p, cs) && AllIn(q, cs)
    requires m == [] || (m[0] !in cs && m[|m| - 1] !in cs)
    ensures StripChars(p + m + q, cs) == m
  {
    if m == [] {
      assert AllIn(p + m + q, cs);
      StripCharsEmpty(p + m + q, cs);
    } else {
      StripCharsPadded(p, m, q, cs);
    }
  }

  /** A string is its leading strippable run, the stripped core, and a trailing strippable run. */
  lemma StripCharsSplit(s: string, cs: set<char>)
    ensures var a := StripOffset(s, cs);
      var r := StripChars(s, cs);
      && s == s[..a] + r + s[a + |r|..]
      && AllIn(s[..a], cs) && AllIn(s[a + |r|..], cs)
  {
    var a := StripOffset(s, cs);
    var r := StripChars(s, cs);
    assert s[a..a + |r|] == r;
    assert s == s[..a] + s[a..a + |r|] + s[a + |r|..];
  }

  /** Strippable characters in front change nothing about what stripping leaves. */
  lemma StripCharsPrefix(u: string, x: string, cs: set<char>)
    requires AllIn(u, cs)
    ensures StripChars(u + x, cs) == StripChars(x, cs)
  {
    StripCharsSplit(x, cs);
    var a := StripOffset(x, cs);
    var r := StripChars(x, cs);
    assert u + x == (u + x[..a]) + r + x[a + |r|..];
    StripCharsAround(u + x[..a], r, x[a + |r|..], cs);
  }

  /** The characters of `s` that are not in `cs`, in their order: what survives of `s`
      when only characters of `cs` may be deleted. */
  function Without(s: string, cs: set<char>): (r: string)
    ensures |r| <= |s|
    ensures forall k :: 0 <= k < |r| ==> r[k] !in cs
    decreases |s|
  {
    if s == [] then [] else (if s[0] in cs then [] else [s[0]]) + Without(s[1..], cs)
  }

  /** Filtering distributes over concatenation. */
  lemma {:induction false} WithoutAppend(a: string, b: string, cs: set<char>)
    ensures Without(a + b, cs) == Without(a, cs) + Without(b, cs)
    decreases |a|
  {
    if a != [] {
      assert (a + b)[1..] == a[1..] + b;
      WithoutAppend(a[1..], b, cs);
    } else {
      assert a + b == b;
    }
  }

  /** A string made of characters of `cs` leaves nothing. */
  lemma {:induction false} WithoutAll(s: string, cs: set<char>)
    requires AllIn(s, cs)
    ensures Without(s, cs) == []
    decreases |s|
  {
    if s != [] {
      WithoutAll(s[1..], cs);
    }
  }

  /** A string with no character of `cs` is kept whole. */
  lemma {:induction false} WithoutNone(s: string, cs: set<char>)
    requires forall k :: 0 <= k < |s| ==> s[k] !in cs
    ensures Without(s, cs) == s
    decreases |s|
  {
    if s != [] {
      WithoutNone(s[1..], cs);
      assert s == [s[0]] + s[1..];
    }
  }

  /** Dropping a prefix of characters of `cs` does not change what survives. */
  lemma WithoutDropped(s: string, e: nat, cs: set<char>)
    requires e <= |s| && forall k :: 0 <= k < e ==> s[k] in cs
    ensures Without(s, cs) == Without(s[e..], cs)
  {
    assert s == s[..e] + s[e..];
    WithoutAppend(s[..e], s[e..], cs);
    WithoutAll(s[..e], cs);
  }

  /** One kept character in front of a string. */
  lemma WithoutCons(c: char, s: string, cs: set<char>)
    ensures Without([c] + s, cs) == (if c in cs then [] else [c]) + Without(s, cs)
  {
    assert ([c] + s)[1..] == s;
  }

  /** Filtering by a larger set after a smaller one is filtering by the larger set. */
  lemma {:induction false} WithoutWithout(s: string, a: set<char>, b: set<char>)
    requires a <= b
    ensures Without(Without(s, a), b) == Without(s, b)
    decreases |s|
  {
    if s != [] {
      var h := if s[0] in a then [] else [s[0]];
      WithoutAppend(h, Without(s[1..], a), b);
      WithoutWithout(s[1..], a, b);
      if s[0] !in a {
        WithoutCons(s[0], [], b);
      }
    }
  }

  /** Two strings that keep the same characters outside `a` keep the same outside any
      larger set. */
  lemma WithoutWiden(x: string, y: string, a: set<char>, b: set<char>)
    requires a <= b && Without(x, a) == Without(y, a)
    ensures Without(x, b) == Without(y, b)
  {
    WithoutWithout(x, a, b);
    WithoutWithout(y, a, b);
  }

  /** `str.strip(cs)` deletes characters of `cs` only: everything else stays, in order. */
  lemma StripCharsKeeps(s: string, cs: set<char>)
    ensures Without(StripChars(s, cs), cs) == Without(s, cs)
  {
    StripCharsSplit(s, cs);
    var a := StripOffset(s, cs);
    var r := StripChars(s, cs);
    WithoutAppend(s[..a] + r, s[a + |r|..], cs);
    WithoutAppend(s[..a], r, cs);
    WithoutAll(s[..a], cs);
    WithoutAll(s[a + |r|..], cs);
  }

  /** `re.sub(r"\s+", " ", s)` deletes and inserts whitespace only: every other character
      stays, in order. */
  lemma {:induction false} CollapseSpaceKeeps(s: string)
    ensures Without(CollapseSpace(s), Whitespace) == Without(s, Whitespace)
    decreases |s|
  {
    if s != [] {
      if s[0] in Whitespace {
        var e := RunEnd(s, 0, Whitespace);
        CollapseSpaceKeeps(s[e..]);
        WithoutCons(' ', CollapseSpace(s[e..]), Whitespace);
        WithoutDropped(s, e, Whitespace);
      } else {
        CollapseSpaceKeeps(s[1..]);
        WithoutCons(s[0], CollapseSpace(s[1..]), Whitespace);
        WithoutCons(s[0], s[1..], Whitespace);
        assert s == [s[0]] + s[1..];
      }
    }
  }

  /** Concatenation of a list of lines. */
  function Concat(lines: seq<string>): (s: string)
    ensures lines == [] ==> s == []
    decreases |lines|
  {
    if lines == [] then [] else lines[0] + Concat(lines[1..])
  }

  /** `splitlines()` deletes the line breaks only: its lines, put back together, are the
      text without its line-break characters, for every text. */
  lemma {:induction false} SplitLinesKeeps(s: string)
    ensures Concat(SplitLines(s)) == Without(s, LineBreaks)
    decreases |s|
  {
    if s != [] {
      var e := LineEnd(s, 0);
      if e == |s| {
        assert SplitLines(s) == [s];
        assert Concat([s]) == s + Concat([]);
        WithoutNone(s, LineBreaks);
      } else {
        var next := if s[e] == '\r' && e + 1 < |s| && s[e + 1] == '\n' then e + 2 else e + 1;
        var t := s[next..];
        var ls := SplitLines(s);
        assert ls == [s[..e]] + SplitLines(t);
        assert ls[1..] == SplitLines(t);
        SplitLinesKeeps(t);
        assert s == s[..e] + s[e..];
        WithoutAppend(s[..e], s[e..], LineBreaks);
        WithoutNone(s[..e], LineBreaks);
        WithoutDropped(s[e..], next - e, LineBreaks);
        assert s[e..][next - e..] == t;
      }
    }
  }
}
