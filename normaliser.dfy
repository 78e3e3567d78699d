/** `clean_json` (app.py:46-57): the recursive normaliser applied to the parsed
    report. Strings lose `---` runs and doubled whitespace and are trimmed; lists
    lose falsy elements; dict keys are whitespace-stripped. */
module Normaliser {

  import opened Text
  import opened Dicts
  import opened Options

  /** The JSON-like values `clean_json` walks. `Null`, `Bool` and `Num` are the
      "other" values it passes through unchanged; `Obj` is a dict. */
  datatype Value =
    | Null
    | Bool(b: bool)
    | Num(n: int)
    | Str(s: string)
    | Arr(items: seq<Value>)
    | Obj(entries: Dict<Value>)

  /** Python truthiness: `None`, `False`, `0` and empty strings, lists and dicts are falsy. */
  predicate Truthy(v: Value) {
    match v
    case Null => false
    case Bool(b) => b
    case Num(n) => n != 0
    case Str(s) => s != []
    case Arr(xs) => xs != []
    case Obj(es) => es != []
  }

  /** The characters `text.strip(" -\n\t\r")` removes from both ends. */
  const EndChars: set<char> := {' ', '-', '\n', '\t', '\r'}

  /** No run of three dashes anywhere. */
  predicate NoDashTriple(s: string) {
    forall i :: 0 <= i && i + 2 < |s| ==> !(s[i] == '-' && s[i + 1] == '-' && s[i + 2] == '-')
  }

  /** Prefixing one character keeps "no `---`" when it cannot start a new run. */
  lemma ConsNoDashTriple(c: char, s: string)
    requires NoDashTriple(s)
    requires c == '-' ==> Lead(s, '-') < 2
    ensures NoDashTriple([c] + s)
  {
    var r := [c] + s;
    forall i | 0 <= i && i + 2 < |r| ensures !(r[i] == '-' && r[i + 1] == '-' && r[i + 2] == '-') {
      if i > 0 {
        assert r[i] == s[i - 1] && r[i + 1] == s[i] && r[i + 2] == s[i + 1];
      } else if c == '-' && s[0] == '-' {
        assert Lead(s, '-') == 1 + Lead(s[1..], '-');
        assert s[1..][0] == s[1];
      }
    }
  }

  /** `re.sub(r"-{3,}", "", s)`: every maximal run of three or more dashes is deleted;
      shorter runs stay, and no two runs can meet after a deletion. */
  function RemoveDashRuns(s: string): (r: string)
    ensures |r| <= |s|
    ensures NoDashTriple(r)
    ensures Lead(r, '-') == if Lead(s, '-') >= 3 then 0 else Lead(s, '-')
    decreases |s|
  {
    if s == [] then []
    else if s[0] == '-' && Lead(s, '-') >= 3 then
      var rest := s[Lead(s, '-')..];
      assert Lead(rest, '-') == 0;
      RemoveDashRuns(rest)
    else
      var rest := RemoveDashRuns(s[1..]);
      ConsNoDashTriple(s[0], rest);
      [s[0]] + rest
  }

  /** A string without `---` is left as it is by the dash pass. */
  lemma {:induction false} RemoveDashRunsNoop(s: string)
    requires NoDashTriple(s)
    ensures RemoveDashRuns(s) == s
    decreases |s|
  {
    if s != [] {
      assert NoDashTriple(s[1..]) by {
        forall i | 0 <= i && i + 2 < |s[1..]|
          ensures !(s[1..][i] == '-' && s[1..][i + 1] == '-' && s[1..][i + 2] == '-')
        {
          assert s[1..][i] == s[i + 1];
        }
      }
      RemoveDashRunsNoop(s[1..]);
      if s[0] == '-' {
        assert Lead(s, '-') < 3 by {
          assert !(|s| > 2 && s[0] == '-' && s[1] == '-' && s[2] == '-');
        }
      }
      assert s == [s[0]] + s[1..];
    }
  }

  /** `re.sub(r"-{3,}", "", s)` deletes dashes only: every other character stays, in order. */
  lemma {:induction false} RemoveDashRunsKeeps(s: string)
    ensures Without(RemoveDashRuns(s), {'-'}) == Without(s, {'-'})
    decreases |s|
  {
    if s != [] {
      if s[0] == '-' && Lead(s, '-') >= 3 {
        RemoveDashRunsKeeps(s[Lead(s, '-')..]);
        WithoutDropped(s, Lead(s, '-'), {'-'});
      } else {
        RemoveDashRunsKeeps(s[1..]);
        WithoutCons(s[0], RemoveDashRuns(s[1..]), {'-'});
        WithoutCons(s[0], s[1..], {'-'});
        assert s == [s[0]] + s[1..];
      }
    }
  }

  /** Collapsing whitespace keeps the leading dashes. */
  lemma {:induction false} CollapseSpaceLead(s: string)
    ensures Lead(CollapseSpace(s), '-') == Lead(s, '-')
    decreases |s|
  {
    if s != [] && s[0] !in Whitespace {
      CollapseSpaceLead(s[1..]);
    }
  }

  /** Collapsing whitespace cannot create a `---`. */
  lemma {:induction false} CollapseSpaceNoDashTriple(s: string)
    requires NoDashTriple(s)
    ensures NoDashTriple(CollapseSpace(s))
    decreases |s|
  {
    if s != [] {
      var e := if s[0] in Whitespace then RunEnd(s, 0, Whitespace) else 1;
      assert NoDashTriple(s[e..]) by {
        forall i | 0 <= i && i + 2 < |s[e..]|
          ensures !(s[e..][i] == '-' && s[e..][i + 1] == '-' && s[e..][i + 2] == '-')
        {
          assert s[e..][i] == s[e + i];
        }
      }
      CollapseSpaceNoDashTriple(s[e..]);
      if s[0] in Whitespace {
        ConsNoDashTriple(' ', CollapseSpace(s[e..]));
      } else {
        CollapseSpaceLead(s[1..]);
        if s[0] == '-' {
          assert Lead(s[1..], '-') < 2 by {
            assert !(|s| > 2 && s[1..][0] == '-' && s[1..][1] == '-');
          }
        }
        ConsNoDashTriple(s[0], CollapseSpace(s[1..]));
      }
    }
  }

  /** What every cleaned string satisfies: no `---`, every whitespace character a
      single space, and no space, dash, newline, tab or carriage return at either end. */
  predicate IsClean(s: string) {
    && NoDashTriple(s)
    && SinglySpaced(s)
    && (s == [] || (s[0] !in EndChars && s[|s| - 1] !in EndChars))
  }

  /** The string case of `clean_json` (app.py:49-52). */
  function CleanString(s: string): (r: string)
    ensures IsClean(r)
    ensures |r| <= |s|
  {
    var collapsed := CollapseSpace(RemoveDashRuns(s));
    CleanStringSteps(s);
    StripChars(collapsed, EndChars)
  }

  /** String cleaning deletes only dashes and whitespace (and turns whitespace runs into
      spaces): every other character of the input stays, in its order. */
  lemma CleanStringKeeps(s: string)
    ensures Without(CleanString(s), {'-'} + Whitespace) == Without(s, {'-'} + Whitespace)
  {
    var d := RemoveDashRuns(s);
    var c := CollapseSpace(d);
    var all := {'-'} + Whitespace;
    RemoveDashRunsKeeps(s);
    WithoutWiden(d, s, {'-'}, all);
    CollapseSpaceKeeps(d);
    WithoutWiden(c, d, Whitespace, all);
    StripCharsKeeps(c, EndChars);
    WithoutWiden(StripChars(c, EndChars), c, EndChars, all);
  }

  lemma CleanStringSteps(s: string)
    ensures IsClean(StripChars(CollapseSpace(RemoveDashRuns(s)), EndChars))
  {
    var collapsed := CollapseSpace(RemoveDashRuns(s));
    var r := StripChars(collapsed, EndChars);
    CollapseSpaceNoDashTriple(RemoveDashRuns(s));
    StripKeeps(collapsed, EndChars);
    assert r == [] || (r[0] !in EndChars && r[|r| - 1] !in EndChars);
  }

  /** Stripping keeps "no `---`" and single spacing, which hold of every slice. */
  lemma StripKeeps(s: string, cs: set<char>)
    requires NoDashTriple(s) && SinglySpaced(s)
    ensures NoDashTriple(StripChars(s, cs)) && SinglySpaced(StripChars(s, cs))
  {
    var r := StripChars(s, cs);
    var a := StripOffset(s, cs);
    assert r == s[a..a + |r|] by {
      assert forall k :: 0 <= k < |r| ==> r[k] == s[a..a + |r|][k];
    }
    SinglySpacedSlice(s, a, a + |r|);
    forall i | 0 <= i && i + 2 < |r| ensures !(r[i] == '-' && r[i + 1] == '-' && r[i + 2] == '-') {
      assert r[i] == s[a + i] && r[i + 1] == s[a + i + 1] && r[i + 2] == s[a + i + 2];
    }
  }

  /** A clean string is its own cleaning. */
  lemma CleanStringNoop(s: string)
    requires IsClean(s)
    ensures CleanString(s) == s
  {
    RemoveDashRunsNoop(s);
    CollapseSpaceNoop(s);
    StripCharsNoop(s, EndChars);
  }

  /** Cleaning a string twice is cleaning it once. */
  lemma CleanStringIdempotent(s: string)
    ensures CleanString(CleanString(s)) == CleanString(s)
  {
    CleanStringNoop(CleanString(s));
  }

  /** A cleaned string has no whitespace at either end, and no line break, tab or
      other whitespace except single spaces between words. */
  lemma CleanStringShape(s: string)
    ensures var r := CleanString(s);
      && (r == [] || (r[0] !in Whitespace && r[|r| - 1] !in Whitespace))
      && forall i :: 0 <= i < |r| && r[i] in Whitespace ==> r[i] == ' ' && 0 < i < |r| - 1
  {
    var r := CleanString(s);
    assert IsClean(r);
  }

  /** A word without whitespace passes through the whitespace pass unchanged. */
  lemma {:induction false} CollapseSpaceWord(u: string, w: string)
    requires forall k :: 0 <= k < |u| ==> u[k] !in Whitespace
    ensures CollapseSpace(u + w) == u + CollapseSpace(w)
    decreases |u|
  {
    if u != [] {
      assert (u + w)[1..] == u[1..] + w;
      CollapseSpaceWord(u[1..], w);
    } else {
      assert u + w == w;
    }
  }

  /** A whole gap of whitespace becomes one space. */
  lemma CollapseSpaceGap(g: string, w: string)
    requires g != [] && AllIn(g, Whitespace)
    requires w == [] || w[0] !in Whitespace
    ensures CollapseSpace(g + w) == [' '] + CollapseSpace(w)
  {
    var s := g + w;
    assert RunEnd(s, |g|, Whitespace) == |g|;
    RunEndFrom(s, 0, |g|, Whitespace);
    assert s[|g|..] == w;
  }

  /** A string that starts with a run of `c`, followed by anything not starting with
      `c`, leads with exactly that run. */
  lemma {:induction false} LeadRun(d: string, rest: string, c: char)
    requires forall k :: 0 <= k < |d| ==> d[k] == c
    requires rest == [] || rest[0] != c
    ensures Lead(d + rest, c) == |d|
    decreases |d|
  {
    if d != [] {
      assert (d + rest)[1..] == d[1..] + rest;
      LeadRun(d[1..], rest, c);
    } else {
      assert d + rest == rest;
    }
  }

  /** A word: non-empty, with no whitespace and no dash in it. */
  predicate IsWord(u: string) {
    u != [] && forall k :: 0 <= k < |u| ==> u[k] !in Whitespace && u[k] != '-'
  }

  /** The string rule on a two-word phrase: a leading run of three or more dashes is
      dropped, the whitespace between the words becomes one space, and the whitespace
      around them is trimmed away. `"--- Elevated   ALP \n\n "` is one instance and
      cleans to `"Elevated ALP"`. */
  lemma CleanStringPhrase(d: string, g0: string, a: string, g: string, b: string, t: string)
    requires |d| >= 3 && forall k :: 0 <= k < |d| ==> d[k] == '-'
    requires AllIn(g0, Whitespace) && AllIn(t, Whitespace)
    requires g != [] && AllIn(g, Whitespace)
    requires IsWord(a) && IsWord(b)
    ensures CleanString(d + g0 + a + g + b + t) == a + " " + b
  {
    var rest := g0 + (a + (g + (b + t)));
    PhraseAssoc(d, g0, a, g, b, t);
    PhraseDashes(d, rest);
    PhraseNoDashTriple(g0, a, g, b, t);
    RemoveDashRunsNoop(rest);
    PhraseSpaces(g0, a, g, b, t);
    PhraseStrip(g0, a, b, t);
  }

  lemma PhraseAssoc(d: string, g0: string, a: string, g: string, b: string, t: string)
    ensures d + g0 + a + g + b + t == d + (g0 + (a + (g + (b + t))))
  {
  }

  lemma PhraseStrip(g0: string, a: string, b: string, t: string)
    requires IsWord(a) && IsWord(b)
    ensures StripChars(Pad(g0) + (a + ([' '] + (b + Pad(t)))), EndChars) == a + " " + b
  {
    var m := a + " " + b;
    assert Pad(g0) + (a + ([' '] + (b + Pad(t)))) == Pad(g0) + m + Pad(t);
    assert m[0] == a[0] && m[|m| - 1] == b[|b| - 1];
    StripCharsPadded(Pad(g0), m, Pad(t), EndChars);
  }

  lemma PhraseDashes(d: string, rest: string)
    requires |d| >= 3 && forall k :: 0 <= k < |d| ==> d[k] == '-'
    requires rest == [] || rest[0] != '-'
    ensures RemoveDashRuns(d + rest) == RemoveDashRuns(rest)
  {
    LeadRun(d, rest, '-');
    assert (d + rest)[0] == '-';
    assert (d + rest)[|d|..] == rest;
  }

  lemma PhraseNoDashTriple(g0: string, a: string, g: string, b: string, t: string)
    requires AllIn(g0, Whitespace) && AllIn(t, Whitespace) && AllIn(g, Whitespace)
    requires IsWord(a) && IsWord(b)
    ensures var rest := g0 + (a + (g + (b + t)));
      NoDashTriple(rest) && rest[0] != '-'
  {
    var rest := g0 + (a + (g + (b + t)));
    assert '-' !in Whitespace;
    assert forall k :: 0 <= k < |rest| ==> rest[k] != '-';
  }

  lemma PhraseSpaces(g0: string, a: string, g: string, b: string, t: string)
    requires AllIn(g0, Whitespace) && AllIn(t, Whitespace)
    requires g != [] && AllIn(g, Whitespace)
    requires IsWord(a) && IsWord(b)
    ensures CollapseSpace(g0 + (a + (g + (b + t)))) == Pad(g0) + (a + ([' '] + (b + Pad(t))))
  {
    PhraseWord(b, t);
    CollapseSpaceGap(g, b + t);
    CollapseSpaceWord(a, g + (b + t));
    PhraseLead(g0, a + (g + (b + t)));
  }

  /** One space for a non-empty run of whitespace, nothing for an empty one. */
  function Pad(g: string): (r: string)
    ensures AllIn(r, EndChars)
  {
    if g == [] then [] else " "
  }

  lemma PhraseWord(b: string, t: string)
    requires AllIn(t, Whitespace) && IsWord(b)
    ensures CollapseSpace(b + t) == b + Pad(t)
  {
    CollapseSpaceWord(b, t);
    if t != [] {
      CollapseSpaceGap(t, []);
      assert t + [] == t;
    }
  }

  lemma PhraseLead(g0: string, x: string)
    requires AllIn(g0, Whitespace)
    requires x != [] && x[0] !in Whitespace
    ensures CollapseSpace(g0 + x) == Pad(g0) + CollapseSpace(x)
  {
    if g0 != [] {
      CollapseSpaceGap(g0, x);
    } else {
      assert g0 + x == x;
    }
  }

  /** `[x for x in xs if x and cleaned(x)]`, where `cs` holds the cleaned elements. */
  function KeepTruthy(xs: seq<Value>, cs: seq<Value>): (r: seq<Value>)
    requires |xs| == |cs|
    ensures |r| <= |cs|
    ensures forall y :: y in r ==> Truthy(y) && y in cs
    decreases |xs|
  {
    if xs == [] then []
    else (if Truthy(xs[0]) && Truthy(cs[0]) then [cs[0]] else []) + KeepTruthy(xs[1..], cs[1..])
  }

  /** An element is kept exactly when both it and its cleaned form are truthy. */
  lemma {:induction false} KeepTruthyMembers(xs: seq<Value>, cs: seq<Value>, i: nat)
    requires |xs| == |cs| && i < |xs|
    ensures cs[i] in KeepTruthy(xs, cs) <== Truthy(xs[i]) && Truthy(cs[i])
    decreases |xs|
  {
    if i > 0 {
      KeepTruthyMembers(xs[1..], cs[1..], i - 1);
    }
  }

  /** Head and tail of a concatenation whose first part is non-empty. */
  lemma HeadTailAppend<T>(a: seq<T>, b: seq<T>)
    requires a != []
    ensures (a + b)[0] == a[0] && (a + b)[1..] == a[1..] + b
  {
  }

  /** Filtering respects order: it distributes over concatenation. */
  lemma {:induction false} KeepTruthyAppend(xs1: seq<Value>, cs1: seq<Value>, xs2: seq<Value>, cs2: seq<Value>)
    requires |xs1| == |cs1| && |xs2| == |cs2|
    ensures KeepTruthy(xs1 + xs2, cs1 + cs2) == KeepTruthy(xs1, cs1) + KeepTruthy(xs2, cs2)
    decreases |xs1|
  {
    if xs1 == [] {
      assert xs1 + xs2 == xs2 && cs1 + cs2 == cs2;
    } else {
      HeadTailAppend(xs1, xs2);
      HeadTailAppend(cs1, cs2);
      KeepTruthyAppend(xs1[1..], cs1[1..], xs2, cs2);
    }
  }

  /** A list all of whose elements are truthy and already clean is kept whole. */
  lemma {:induction false} KeepTruthyAll(xs: seq<Value>)
    requires forall i :: 0 <= i < |xs| ==> Truthy(xs[i])
    ensures KeepTruthy(xs, xs) == xs
    decreases |xs|
  {
    if xs != [] {
      KeepTruthyAll(xs[1..]);
    }
  }

  /** `clean_json` (app.py:46-57). */
  function CleanJson(v: Value): (r: Value)
    ensures v.Str? <==> r.Str?
    ensures v.Arr? <==> r.Arr?
    ensures v.Obj? <==> r.Obj?
    ensures !v.Str? && !v.Arr? && !v.Obj? ==> r == v
    ensures v.Arr? ==> |r.items| <= |v.items|
    ensures v.Obj? ==> DistinctKeys(r.entries)
    decreases v
  {
    match v
    case Str(s) => Str(CleanString(s))
    case Arr(xs) =>
      Arr(KeepTruthy(xs, seq(|xs|, i requires 0 <= i < |xs| => CleanJson(xs[i]))))
    case Obj(es) =>
      var cs := seq(|es|, i requires 0 <= i < |es| => (Strip(es[i].0), CleanJson(es[i].1)));
      Obj(PutAll([], cs))
    case _ => v
  }

  /** The normal form `clean_json` produces, at every depth: clean strings, lists
      without falsy elements, dicts with stripped and distinct keys. */
  predicate Normalized(v: Value)
    decreases v
  {
    match v
    case Str(s) => IsClean(s)
    case Arr(xs) => forall i :: 0 <= i < |xs| ==> Truthy(xs[i]) && Normalized(xs[i])
    case Obj(es) =>
      && DistinctKeys(es)
      && forall i :: 0 <= i < |es| ==> Strip(es[i].0) == es[i].0 && Normalized(es[i].1)
    case _ => true
  }

  lemma StripIdempotent(s: string)
    ensures Strip(Strip(s)) == Strip(s)
  {
    StripCharsNoop(Strip(s), Whitespace);
  }

  /** Every result of `clean_json` is in normal form. */
  lemma {:induction false} CleanJsonNormalized(v: Value)
    ensures Normalized(CleanJson(v))
    decreases v
  {
    match v
    case Str(s) =>
    case Arr(xs) =>
      var cs := seq(|xs|, i requires 0 <= i < |xs| => CleanJson(xs[i]));
      var r := KeepTruthy(xs, cs);
      assert CleanJson(v) == Arr(r);
      forall j | 0 <= j < |r| ensures Truthy(r[j]) && Normalized(r[j]) {
        assert r[j] in r;
        var i :| 0 <= i < |cs| && cs[i] == r[j];
        CleanJsonNormalized(xs[i]);
      }
    case Obj(es) =>
      var cs := seq(|es|, i requires 0 <= i < |es| => (Strip(es[i].0), CleanJson(es[i].1)));
      var r := PutAll([], cs);
      assert CleanJson(v) == Obj(r);
      PutAllEntries([], cs);
      forall j | 0 <= j < |r| ensures Strip(r[j].0) == r[j].0 && Normalized(r[j].1) {
        assert r[j] in r;
        var i :| 0 <= i < |cs| && cs[i] == r[j];
        StripIdempotent(es[i].0);
        CleanJsonNormalized(es[i].1);
      }
    case _ =>
  }

  /** `clean_json` leaves a value in normal form unchanged. */
  lemma {:induction false} CleanJsonNoop(v: Value)
    requires Normalized(v)
    ensures CleanJson(v) == v
    decreases v
  {
    match v
    case Str(s) => CleanStringNoop(s);
    case Arr(xs) =>
      var cs := seq(|xs|, i requires 0 <= i < |xs| => CleanJson(xs[i]));
      forall i | 0 <= i < |xs| ensures cs[i] == xs[i] {
        CleanJsonNoop(xs[i]);
      }
      assert cs == xs;
      KeepTruthyAll(xs);
    case Obj(es) =>
      var cs := seq(|es|, i requires 0 <= i < |es| => (Strip(es[i].0), CleanJson(es[i].1)));
      forall i | 0 <= i < |es| ensures cs[i] == es[i] {
        CleanJsonNoop(es[i].1);
      }
      assert cs == es;
      PutAllDistinct(es);
    case _ =>
  }

  /** `clean_json` is idempotent. */
  lemma CleanJsonIdempotent(v: Value)
    ensures CleanJson(CleanJson(v)) == CleanJson(v)
  {
    CleanJsonNormalized(v);
    CleanJsonNoop(CleanJson(v));
  }

  /** The list case: cleaned elements in their order, minus those falsy before or
      after cleaning; every element that survives is truthy. */
  lemma CleanJsonList(xs: seq<Value>)
    ensures var r := CleanJson(Arr(xs)).items;
      && (forall y :: y in r ==> Truthy(y))
      && (forall i :: 0 <= i < |xs| && Truthy(xs[i]) && Truthy(CleanJson(xs[i])) ==> CleanJson(xs[i]) in r)
      && (forall y :: y in r ==> exists i :: 0 <= i < |xs| && Truthy(xs[i]) && y == CleanJson(xs[i]))
  {
    var cs := seq(|xs|, i requires 0 <= i < |xs| => CleanJson(xs[i]));
    var r := KeepTruthy(xs, cs);
    forall i | 0 <= i < |xs| && Truthy(xs[i]) && Truthy(CleanJson(xs[i])) ensures CleanJson(xs[i]) in r {
      KeepTruthyMembers(xs, cs, i);
    }
    forall y | y in r ensures exists i :: 0 <= i < |xs| && Truthy(xs[i]) && y == CleanJson(xs[i]) {
      KeepTruthyOrigin(xs, cs, y);
    }
  }

  /** Each kept element comes from a truthy original. */
  lemma {:induction false} KeepTruthyOrigin(xs: seq<Value>, cs: seq<Value>, y: Value)
    requires |xs| == |cs| && y in KeepTruthy(xs, cs)
    ensures exists i :: 0 <= i < |xs| && Truthy(xs[i]) && y == cs[i]
    decreases |xs|
  {
    if !(Truthy(xs[0]) && Truthy(cs[0]) && y == cs[0]) {
      KeepTruthyOrigin(xs[1..], cs[1..], y);
      var i :| 0 <= i < |xs[1..]| && Truthy(xs[1..][i]) && y == cs[1..][i];
      assert Truthy(xs[i + 1]) && y == cs[i + 1];
    }
  }

  /** The dict case: each key is stripped and each value cleaned; the value under a
      stripped key is that of the last entry whose key strips to it. */
  lemma CleanJsonDict(es: Dict<Value>, i: nat)
    requires i < |es|
    requires forall j :: i < j < |es| ==> Strip(es[j].0) != Strip(es[i].0)
    ensures Get(CleanJson(Obj(es)).entries, Strip(es[i].0)) == Some(CleanJson(es[i].1))
  {
    var cs := seq(|es|, j requires 0 <= j < |es| => (Strip(es[j].0), CleanJson(es[j].1)));
    assert CleanJson(Obj(es)) == Obj(PutAll([], cs));
    PutAllLastWins([], cs, Strip(es[i].0), i);
  }

  /** The keys of a cleaned dict are exactly the stripped keys of the original: no entry
      is dropped for being empty. */
  lemma CleanJsonKeys(es: Dict<Value>)
    ensures Keys(CleanJson(Obj(es)).entries) == set i | 0 <= i < |es| :: Strip(es[i].0)
  {
    var cs := seq(|es|, j requires 0 <= j < |es| => (Strip(es[j].0), CleanJson(es[j].1)));
    assert CleanJson(Obj(es)) == Obj(PutAll([], cs));
    PutAllKeys([], cs);
    assert forall i :: 0 <= i < |es| ==> cs[i].0 == Strip(es[i].0);
    assert Keys(cs) == set i | 0 <= i < |es| :: Strip(es[i].0);
  }

  /** A dict whose keys are already stripped and distinct keeps its keys in their order;
      only its values are cleaned. */
  lemma CleanJsonDictKept(es: Dict<Value>)
    requires DistinctKeys(es)
    requires forall i :: 0 <= i < |es| ==> Strip(es[i].0) == es[i].0
    ensures var r := CleanJson(Obj(es)).entries;
      |r| == |es| && forall i :: 0 <= i < |es| ==> r[i] == (es[i].0, CleanJson(es[i].1))
  {
    var cs := seq(|es|, j requires 0 <= j < |es| => (Strip(es[j].0), CleanJson(es[j].1)));
    assert CleanJson(Obj(es)) == Obj(PutAll([], cs));
    assert DistinctKeys(cs);
    PutAllDistinct(cs);
  }
}
