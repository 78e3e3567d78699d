/** Locating the `### <Name>` sections of the report (app.py:91, 104, 110, 116, 123, 131).
    Each is a `re.search` with `re.S | re.I` for `###\s*<Name>` followed either by a lazy
    body up to `(?=###|$)` or, for the table section, by the whole rest of the text. */
module Sections {

  import opened Text
  import opened Options

  /** A header name as a sequence of character classes, each holding lower-case
      characters; a text character matches a class when its ASCII lower case is in it. */
  type Pattern = seq<set<char>>

  /** The pattern of a plain name, matched case-insensitively. */
  function Lit(name: string): (p: Pattern)
    ensures |p| == |name|
    ensures forall k :: 0 <= k < |name| ==> p[k] == {Lower(name[k])}
  {
    seq(|name|, k requires 0 <= k < |name| => {Lower(name[k])})
  }

  const ExecutiveSummary: Pattern := Lit("Executive Summary")
  /** `System[- ]Specific Analysis` */
  const SystemAnalysis: Pattern := Lit("System") + [{'-', ' '}] + Lit("Specific Analysis")
  const ActionPlan: Pattern := Lit("Personalized Action Plan")
  const InteractionAlerts: Pattern := Lit("Interaction Alerts")
  const NormalRanges: Pattern := Lit("Normal Ranges")
  const TabularMapping: Pattern := Lit("Tabular Mapping")

  /** The pattern matches the text at position `j`, ignoring ASCII case. */
  predicate ClassesAt(t: string, j: nat, pat: Pattern) {
    j + |pat| <= |t| && forall k :: 0 <= k < |pat| ==> Lower(t[j + k]) in pat[k]
  }

  /** The pattern's first class admits no whitespace, so `\s*` before it never has to
      give characters back. All six header names start with a letter. */
  predicate StartsSolid(pat: Pattern) {
    pat != [] && forall c :: c in pat[0] ==> c !in Whitespace
  }

  /** Where `###\s*<pat>` matched at `i` leaves off, if it matches there: `\s*` takes the
      whole whitespace run, which is the only choice when `StartsSolid(pat)`. */
  function HeaderAt(t: string, i: nat, pat: Pattern): (r: Option<nat>)
    ensures r.Some? ==> StartsAt(t, i, "###") && i + 3 + |pat| <= r.value <= |t|
  {
    if StartsAt(t, i, "###") then
      var w := RunEnd(t, i + 3, Whitespace);
      if ClassesAt(t, w, pat) then Some(w + |pat|) else None
    else None
  }

  /** `###`, then nothing but whitespace, then the name, with the name starting at `w`. */
  predicate HeaderWith(t: string, i: nat, w: nat, pat: Pattern) {
    && StartsAt(t, i, "###") && i + 3 <= w <= |t|
    && (forall k :: i + 3 <= k < w ==> t[k] in Whitespace)
    && ClassesAt(t, w, pat)
  }

  /** `HeaderAt` finds a header at `i` exactly when some amount of whitespace between the
      hashes and the name makes one, and then it ends after the name. */
  lemma HeaderAtIff(t: string, i: nat, pat: Pattern)
    requires StartsSolid(pat)
    ensures HeaderAt(t, i, pat).Some? <==> exists w: nat :: HeaderWith(t, i, w, pat)
    ensures forall w: nat :: HeaderWith(t, i, w, pat) ==> HeaderAt(t, i, pat) == Some(w + |pat|)
  {
    forall w: nat | HeaderWith(t, i, w, pat) ensures HeaderAt(t, i, pat) == Some(w + |pat|) {
      HeaderRunEnd(t, i, w, pat);
    }
    if HeaderAt(t, i, pat).Some? {
      assert HeaderWith(t, i, RunEnd(t, i + 3, Whitespace), pat);
    }
  }

  lemma HeaderRunEnd(t: string, i: nat, w: nat, pat: Pattern)
    requires StartsSolid(pat) && HeaderWith(t, i, w, pat)
    ensures RunEnd(t, i + 3, Whitespace) == w
  {
    var e := RunEnd(t, i + 3, Whitespace);
    assert Lower(t[w]) in pat[0];
    assert t[w] !in Whitespace by {
      if 'A' <= t[w] <= 'Z' { } else { assert Lower(t[w]) == t[w]; }
    }
    RunEndUpTo(t, i + 3, w);
  }

  /** A whitespace run that holds up to `w`, where a non-whitespace character stands, ends at `w`. */
  lemma {:induction false} RunEndUpTo(t: string, i: nat, w: nat)
    requires i <= w < |t| && t[w] !in Whitespace
    requires forall k :: i <= k < w ==> t[k] in Whitespace
    ensures RunEnd(t, i, Whitespace) == w
    decreases w - i
  {
    if i < w {
      RunEndUpTo(t, i + 1, w);
    }
  }

  /** `re.search`: the leftmost position from `from` on where the header matches,
      with the position where the header ends. */
  function FindHeader(t: string, from: nat, pat: Pattern): (r: Option<(nat, nat)>)
    requires from <= |t|
    ensures r.Some? ==> from <= r.value.0 && HeaderAt(t, r.value.0, pat) == Some(r.value.1)
    ensures forall i :: from <= i <= |t| && (r.None? || i < r.value.0) ==> HeaderAt(t, i, pat).None?
    decreases |t| - from
  {
    match HeaderAt(t, from, pat)
    case Some(j) => Some((from, j))
    case None => if from == |t| then None else FindHeader(t, from + 1, pat)
  }

  /** The body of a section whose header ends at `j`: the lazy `(.*?)` with `re.S`,
      stopped by `(?=###|$)`. */
  function BodyFrom(t: string, j: nat): (b: string)
    requires j <= |t|
  {
    t[j..LookaheadEnd(t, j, ["###"])]
  }

  /** The body of the first section with header `pat`, if there is one. */
  function Section(t: string, pat: Pattern): (r: Option<string>)
  {
    match FindHeader(t, 0, pat)
    case None => None
    case Some((_, j)) => Some(BodyFrom(t, j))
  }

  /** The rest of the text after the first `Tabular Mapping` header, `(.*)` with `re.S`. */
  function TableSection(t: string): (r: Option<string>)
  {
    match FindHeader(t, 0, TabularMapping)
    case None => None
    case Some((_, j)) => Some(t[j..])
  }

  /** A section is found exactly when its header occurs somewhere in the text. */
  lemma SectionFound(t: string, pat: Pattern)
    requires StartsSolid(pat)
    ensures Section(t, pat).Some? <==> exists i: nat, w: nat :: HeaderWith(t, i, w, pat)
  {
    if exists i: nat, w: nat :: HeaderWith(t, i, w, pat) {
      var i: nat, w: nat :| HeaderWith(t, i, w, pat);
      HeaderAtIff(t, i, pat);
      assert i <= |t|;
    }
    if Section(t, pat).Some? {
      var (i, _) := FindHeader(t, 0, pat).value;
      HeaderAtIff(t, i, pat);
    }
  }

  /** The body of the first header: it starts right after the first (leftmost) header
      occurrence, holds no `###`, and ends where a `###` starts, at the end of the text,
      or just before a final newline. */
  lemma SectionBody(t: string, pat: Pattern)
    requires Section(t, pat).Some?
    ensures var (i, j) := FindHeader(t, 0, pat).value;
      var b := Section(t, pat).value;
      && j + |b| <= |t|
      && b == t[j..j + |b|]
      && (forall i' :: 0 <= i' < i ==> HeaderAt(t, i', pat).None?)
      && (forall q :: j <= q < j + |b| ==> !StartsAt(t, q, "###"))
      && (StartsAt(t, j + |b|, "###") || AtDollar(t, j + |b|))
  {
    var (i, j) := FindHeader(t, 0, pat).value;
    var p := LookaheadEnd(t, j, ["###"]);
    assert StopsAt(t, p, ["###"]);
    forall q | j <= q < p ensures !StartsAt(t, q, "###") {
      assert !StopsAt(t, q, ["###"]);
      assert ["###"][0] == "###";
    }
  }

  /** The table section is found under the same header as a lazy section would be, but
      its body is the whole rest of the text: it ends the text and extends the body a
      lazy `(.*?)(?=###|$)` would capture. */
  lemma TableSectionRest(t: string)
    ensures TableSection(t).Some? <==> Section(t, TabularMapping).Some?
    ensures TableSection(t).Some? ==>
      var b := TableSection(t).value;
      && |b| <= |t| && t[|t| - |b|..] == b
      && Section(t, TabularMapping).value <= b
  {
    match FindHeader(t, 0, TabularMapping)
    case None =>
    case Some((i, j)) =>
      var e := LookaheadEnd(t, j, ["###"]);
      assert TableSection(t).value == t[j..];
      assert Section(t, TabularMapping).value == t[j..e];
      assert t[j..e] == t[j..][..e - j];
  }

  /** A text without `###` has none of the sections, so every field keeps its default. */
  lemma NoHashesNoSections(t: string, pat: Pattern)
    requires forall q :: 0 <= q < |t| ==> !StartsAt(t, q, "###")
    ensures Section(t, pat).None?
    ensures pat == TabularMapping ==> TableSection(t).None?
  {
  }

  /** All six header names start with a letter. */
  lemma HeadersStartSolid()
    ensures StartsSolid(ExecutiveSummary) && StartsSolid(SystemAnalysis)
    ensures StartsSolid(ActionPlan) && StartsSolid(InteractionAlerts)
    ensures StartsSolid(NormalRanges) && StartsSolid(TabularMapping)
  {
    LitStartsSolid("Executive Summary");
    LitStartsSolid("System");
    assert SystemAnalysis[0] == Lit("System")[0];
    LitStartsSolid("Personalized Action Plan");
    LitStartsSolid("Interaction Alerts");
    LitStartsSolid("Normal Ranges");
    LitStartsSolid("Tabular Mapping");
  }

  /** A name that starts with an ASCII letter gives a pattern that starts solid. */
  lemma LitStartsSolid(name: string)
    requires name != [] && ('A' <= name[0] <= 'Z' || 'a' <= name[0] <= 'z')
    ensures StartsSolid(Lit(name))
  {
    assert Lit(name)[0] == {Lower(name[0])};
  }
}
