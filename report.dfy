/** `parse_medical_report` (app.py:61-167): the record of six fields, each left at its
    default unless its section is found, and then filled by that section's rule. */
module Report {

  import opened Text
  import opened Dicts
  import opened Options
  import opened Sections
  import opened Bold
  import opened Lines
  import opened Ranges
  import opened Table

  /** The `executive_summary` field. */
  datatype Summary = Summary(topPriorities: seq<string>, keyStrengths: seq<string>)

  /** The `data` dict the parser fills (app.py:81-88). */
  datatype Parsed = Parsed(
    executiveSummary: Summary,
    systemAnalysis: Dict<string>,
    actionPlan: Dict<string>,
    interactionAlerts: seq<string>,
    normalRanges: Dict<string>,
    biomarkerTable: seq<BiomarkerRow>)

  /** Every field at its initial value. */
  const Default: Parsed := Parsed(Summary([], []), [], [], [], [], [])

  /** The executive summary of a found section body (app.py:93-101). */
  function SummaryOf(block: string): (s: Summary)
    ensures s.topPriorities == TopPriorities(block)
    ensures s.keyStrengths == if KeyStrengths(block).Some? then KeyStrengths(block).value else []
  {
    var top := if PriorityMatches(block, 0) != [] then TopPriorities(block) else [];
    match KeyStrengths(block)
    case None => Summary(top, [])
    case Some(ks) => Summary(top, ks)
  }

  /** The normal-ranges dict of a found section body (app.py:125-128). */
  function RangesOf(block: string): (d: Dict<string>)
  {
    PutAll([], RangePairs(RangeMatches(block, 0)))
  }

  /** The stripped cells of every row match (app.py:138-142). */
  function StrippedRows(ms: seq<seq<string>>): (cs: seq<seq<string>>)
    requires forall j :: 0 <= j < |ms| ==> |ms[j]| == 5
    ensures |cs| == |ms|
    ensures forall j :: 0 <= j < |ms| ==> cs[j] == StripCells(ms[j]) && |cs[j]| == 5
  {
    seq(|ms|, j requires 0 <= j < |ms| => StripCells(ms[j]))
  }

  /** The biomarker rows of a found table block (app.py:133-165). */
  function RowsOf(block: string): (rows: seq<BiomarkerRow>)
  {
    KeptRows(StrippedRows(RowMatches(block, 0)))
  }

  /** The `executive_summary` field for `text`. */
  function ExecutiveOf(text: string): (s: Summary)
  {
    match Section(text, ExecutiveSummary)
    case None => Default.executiveSummary
    case Some(block) => SummaryOf(block)
  }

  /** The `system_analysis` field for `text`. */
  function SystemOf(text: string): (d: Dict<string>)
  {
    match Section(text, SystemAnalysis)
    case None => Default.systemAnalysis
    case Some(block) => BoldEntities(block)
  }

  /** The `personalized_action_plan` field for `text`. */
  function ActionPlanOf(text: string): (d: Dict<string>)
  {
    match Section(text, ActionPlan)
    case None => Default.actionPlan
    case Some(block) => BoldEntities(block)
  }

  /** The `interaction_alerts` field for `text`. */
  function AlertsOf(text: string): (alerts: seq<string>)
  {
    match Section(text, InteractionAlerts)
    case None => Default.interactionAlerts
    case Some(block) => LineItems(block)
  }

  /** The `normal_ranges` field for `text`. */
  function NormalRangesOf(text: string): (d: Dict<string>)
  {
    match Section(text, NormalRanges)
    case None => Default.normalRanges
    case Some(block) => RangesOf(block)
  }

  /** The `biomarker_table` field for `text`. */
  function TableOf(text: string): (rows: seq<BiomarkerRow>)
  {
    match TableSection(text)
    case None => Default.biomarkerTable
    case Some(block) => RowsOf(block)
  }

  /** What `parse_medical_report(text)` returns. */
  function Parse(text: string): (r: Parsed)
  {
    Parsed(ExecutiveOf(text), SystemOf(text), ActionPlanOf(text),
      AlertsOf(text), NormalRangesOf(text), TableOf(text))
  }

  /** The parser as the source writes it: `data` starts at its defaults and each section
      block, when its header is found, overwrites or fills its own field. */
  method ParseMedicalReport(text: string) returns (data: Parsed)
    ensures data == Parse(text)
  {
    data := Default;
    var summary := ExecutiveBlock(text);
    data := data.(executiveSummary := summary);
    var system := BoldBlock(text, SystemAnalysis);
    data := data.(systemAnalysis := system);
    var plan := BoldBlock(text, ActionPlan);
    data := data.(actionPlan := plan);
    var alerts := AlertsBlock(text);
    data := data.(interactionAlerts := alerts);
    var ranges := NormalRangesBlock(text);
    data := data.(normalRanges := ranges);
    var table := TableBlock(text);
    data := data.(biomarkerTable := table);
  }

  /** The executive-summary block (app.py:91-101): the priorities replace the empty list
      only when there is at least one, and the key strengths only when their label occurs. */
  method ExecutiveBlock(text: string) returns (summary: Summary)
    ensures summary == ExecutiveOf(text)
  {
    summary := Default.executiveSummary;
    var execMatch := Section(text, ExecutiveSummary);
    if execMatch.Some? {
      var block := execMatch.value;
      var priorities := PriorityMatches(block, 0);
      if priorities != [] {
        summary := summary.(topPriorities := TopPriorities(block));
      }
      var strengthsMatch := FindLiteral(block, 0, KeyStrengthsLabel);
      if strengthsMatch.Some? {
        var strengths := LineItems(block[strengthsMatch.value + |KeyStrengthsLabel|..]);
        summary := summary.(keyStrengths := strengths);
      }
    }
  }

  /** The system-analysis and action-plan blocks (app.py:104-113): the dict of bold
      entities of the section body replaces the empty dict when the header is found. */
  method BoldBlock(text: string, pat: Pattern) returns (entities: Dict<string>)
    ensures entities == match Section(text, pat) case None => [] case Some(block) => BoldEntities(block)
  {
    entities := [];
    var secMatch := Section(text, pat);
    if secMatch.Some? {
      entities := ParseBoldEntities(secMatch.value);
    }
  }

  /** The interaction-alerts block (app.py:116-120). */
  method AlertsBlock(text: string) returns (alerts: seq<string>)
    ensures alerts == AlertsOf(text)
  {
    alerts := [];
    var alertsMatch := Section(text, InteractionAlerts);
    if alertsMatch.Some? {
      alerts := LineItems(alertsMatch.value);
    }
  }

  /** The normal-ranges block (app.py:123-128). */
  method NormalRangesBlock(text: string) returns (ranges: Dict<string>)
    ensures ranges == NormalRangesOf(text)
  {
    ranges := [];
    var normalMatch := Section(text, NormalRanges);
    if normalMatch.Some? {
      ranges := ParseNormalRanges(normalMatch.value);
    }
  }

  /** The tabular-mapping block (app.py:131-165). */
  method TableBlock(text: string) returns (rows: seq<BiomarkerRow>)
    ensures rows == TableOf(text)
  {
    rows := [];
    var tableMatch := TableSection(text);
    if tableMatch.Some? {
      rows := ParseTable(tableMatch.value);
    }
  }

  /** The normal-ranges loop (app.py:126-128): one assignment per match, on the
      stripped name and range, into the dict that starts empty. */
  method ParseNormalRanges(block: string) returns (ranges: Dict<string>)
    ensures ranges == RangesOf(block)
  {
    var ms := RangeMatches(block, 0);
    ranges := [];
    for i := 0 to |ms|
      invariant ranges == PutAll([], RangePairs(ms[..i]))
    {
      var (biomarker, rng) := ms[i];
      RangePairsStep(ms, i);
      ranges := Put(ranges, Strip(biomarker), Strip(rng));
    }
    assert ms[..|ms|] == ms;
  }

  /** The table loop (app.py:136-165): strip the five cells of each match, skip a row
      whose cells are all empty, then one whose cells are all separators, and append
      the rest in order. */
  method ParseTable(block: string) returns (rows: seq<BiomarkerRow>)
    ensures rows == RowsOf(block)
  {
    var ms := RowMatches(block, 0);
    rows := [];
    for i := 0 to |ms|
      invariant rows == KeptRows(StrippedRows(ms[..i]))
    {
      var cells := StripCells(ms[i]);
      var biomarker, value, status, insight, ref := cells[0], cells[1], cells[2], cells[3], cells[4];
      KeptRowsStep(ms, i, cells);
      if AllEmpty(cells) {
        continue;
      }
      if AllSeparators(cells) {
        continue;
      }
      rows := rows + [BiomarkerRow(biomarker, value, status, insight, ref)];
    }
    assert ms[..|ms|] == ms;
  }

  lemma RangePairsStep(ms: seq<(string, string)>, i: nat)
    requires i < |ms|
    ensures PutAll([], RangePairs(ms[..i + 1]))
      == Put(PutAll([], RangePairs(ms[..i])), Strip(ms[i].0), Strip(ms[i].1))
  {
    assert RangePairs(ms[..i + 1]) == RangePairs(ms[..i]) + [(Strip(ms[i].0), Strip(ms[i].1))];
    PutAllSnoc([], RangePairs(ms[..i]), (Strip(ms[i].0), Strip(ms[i].1)));
  }

  lemma KeptRowsStep(ms: seq<seq<string>>, i: nat, cells: seq<string>)
    requires forall j :: 0 <= j < |ms| ==> |ms[j]| == 5
    requires i < |ms| && cells == StripCells(ms[i])
    ensures var prev := KeptRows(StrippedRows(ms[..i]));
      KeptRows(StrippedRows(ms[..i + 1]))
        == if AllEmpty(cells) || AllSeparators(cells) then prev else prev + [MakeRow(cells)]
  {
    var cs := StrippedRows(ms[..i + 1]);
    assert cs[..i] == StrippedRows(ms[..i]);
    assert cs[i] == cells;
  }

  /** A text with no `###` anywhere has none of the six sections, so the parser returns
      the initial `data` unchanged; the empty text is one such text. */
  lemma NoHeadersDefault(text: string)
    requires forall q :: 0 <= q < |text| ==> !StartsAt(text, q, "###")
    ensures Parse(text) == Default
  {
    NoHashesNoSections(text, ExecutiveSummary);
    NoHashesNoSections(text, SystemAnalysis);
    NoHashesNoSections(text, ActionPlan);
    NoHashesNoSections(text, InteractionAlerts);
    NoHashesNoSections(text, NormalRanges);
    NoHashesNoSections(text, TabularMapping);
  }

  /** In the normal-ranges dict the last match whose stripped name is `k` decides the
      range stored under `k`, and a name no match yields is absent. */
  lemma RangesLastWins(block: string, k: string)
    ensures var ms := RangeMatches(block, 0);
      && (forall i :: 0 <= i < |ms| && Strip(ms[i].0) == k
            && (forall j :: i < j < |ms| ==> Strip(ms[j].0) != k)
            ==> Get(RangesOf(block), k) == Some(Strip(ms[i].1)))
      && ((forall j :: 0 <= j < |ms| ==> Strip(ms[j].0) != k) ==> Get(RangesOf(block), k).None?)
  {
    PairsDecide(RangeMatches(block, 0), k);
  }

  lemma PairsDecide(ms: seq<(string, string)>, k: string)
    ensures forall i ::
        0 <= i < |ms| && Strip(ms[i].0) == k && (forall j :: i < j < |ms| ==> Strip(ms[j].0) != k)
        ==> Get(PutAll([], RangePairs(ms)), k) == Some(Strip(ms[i].1))
    ensures (forall j :: 0 <= j < |ms| ==> Strip(ms[j].0) != k) ==> Get(PutAll([], RangePairs(ms)), k).None?
  {
    var ps := RangePairs(ms);
    forall i | 0 <= i < |ms| && Strip(ms[i].0) == k && (forall j :: i < j < |ms| ==> Strip(ms[j].0) != k)
      ensures Get(PutAll([], ps), k) == Some(Strip(ms[i].1))
    {
      PutAllLastWins([], ps, k, i);
    }
    if forall j :: 0 <= j < |ms| ==> Strip(ms[j].0) != k {
      PutAllUntouched([], ps, k);
    }
  }

  /** What every parsed report looks like: the three dicts have distinct keys; every
      bold-entity key is non-empty and its text on one line; every normal range is on one
      line; every alert and key strength is a non-empty cleaned line; every top priority
      is a cleaned line; every table row holds an ASCII letter or digit. */
  lemma ParseWellFormed(text: string)
    ensures var r := Parse(text);
      && DistinctKeys(r.systemAnalysis) && DistinctKeys(r.actionPlan) && DistinctKeys(r.normalRanges)
      && (forall e :: e in r.systemAnalysis ==> e.0 != [] && OneLine(e.1))
      && (forall e :: e in r.actionPlan ==> e.0 != [] && OneLine(e.1))
      && (forall e :: e in r.normalRanges ==> NoNewline(e.1))
      && (forall x :: x in r.interactionAlerts ==> Cleaned(x) && x != [])
      && (forall x :: x in r.executiveSummary.keyStrengths ==> Cleaned(x) && x != [])
      && (forall x :: x in r.executiveSummary.topPriorities ==> Cleaned(x))
      && (forall row :: row in r.biomarkerTable ==> !AllSeparators(RowCells(row)))
  {
    BoldFieldShape(text, SystemAnalysis);
    BoldFieldShape(text, ActionPlan);
    RangesFieldShape(text);
    AlertsFieldShape(text);
    ExecutiveFieldShape(text);
    TableFieldShape(text);
  }

  lemma BoldFieldShape(text: string, pat: Pattern)
    ensures var d := match Section(text, pat) case None => [] case Some(b) => BoldEntities(b);
      DistinctKeys(d) && forall e :: e in d ==> e.0 != [] && OneLine(e.1)
  {
    if Section(text, pat).Some? {
      BoldEntitiesShape(Section(text, pat).value);
    }
  }

  lemma RangesFieldShape(text: string)
    ensures DistinctKeys(NormalRangesOf(text))
    ensures forall e :: e in NormalRangesOf(text) ==> NoNewline(e.1)
  {
    if Section(text, NormalRanges).Some? {
      RangesOneLine(Section(text, NormalRanges).value);
    }
  }

  lemma AlertsFieldShape(text: string)
    ensures forall x :: x in AlertsOf(text) ==> Cleaned(x) && x != []
  {
    if Section(text, InteractionAlerts).Some? {
      LineItemsCleaned(Section(text, InteractionAlerts).value);
    }
  }

  lemma ExecutiveFieldShape(text: string)
    ensures forall x :: x in ExecutiveOf(text).keyStrengths ==> Cleaned(x) && x != []
    ensures forall x :: x in ExecutiveOf(text).topPriorities ==> Cleaned(x)
  {
    if Section(text, ExecutiveSummary).Some? {
      var b := Section(text, ExecutiveSummary).value;
      var f := FindLiteral(b, 0, KeyStrengthsLabel);
      if f.Some? {
        LineItemsCleaned(b[f.value + |KeyStrengthsLabel|..]);
      }
      var ps := TopPriorities(b);
      forall x | x in ps ensures Cleaned(x) {
        var i :| 0 <= i < |ps| && ps[i] == x;
      }
    }
  }

  lemma TableFieldShape(text: string)
    ensures forall row :: row in TableOf(text) ==> !AllSeparators(RowCells(row))
  {
    if TableSection(text).Some? {
      KeptRowsSound(StrippedRows(RowMatches(TableSection(text).value, 0)));
    }
  }

  /** The output of `clean_line`: no marker anywhere and no whitespace in front. */
  predicate Cleaned(x: string) {
    (x == [] || x[0] !in Whitespace) && forall k :: 0 <= k < |x| ==> x[k] !in Markers
  }

  lemma LineItemsCleaned(block: string)
    ensures forall x :: x in LineItems(block) ==> Cleaned(x) && x != []
  {
    LineItemsExact(block);
  }

  lemma RangesOneLine(block: string)
    ensures DistinctKeys(RangesOf(block))
    ensures forall e :: e in RangesOf(block) ==> NoNewline(e.1)
  {
    var ms := RangeMatches(block, 0);
    var ps := RangePairs(ms);
    PutAllEntries([], ps);
    RangeMatchesOneLine(block, 0);
    forall e | e in RangesOf(block) ensures NoNewline(e.1) {
      var j :| 0 <= j < |ps| && ps[j] == e;
      assert ms[j] in ms;
    }
  }
}
