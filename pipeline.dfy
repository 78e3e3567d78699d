/** The pure part of the `/predict` endpoint (app.py:265-269): the stripped model reply is
    parsed, the parsed record is turned into its JSON-like value, and `clean_json` is
    applied to that value. */
module Pipeline {

  import opened Text
  import opened Dicts
  import opened Normaliser
  import opened Table
  import opened Report

  /** The keys of the `data` dict, in insertion order (app.py:81-88). */
  const FieldNames: seq<string> := [
    "executive_summary", "system_analysis", "personalized_action_plan",
    "interaction_alerts", "normal_ranges", "biomarker_table"]

  /** A list of strings as a list value. */
  function Strs(xs: seq<string>): (vs: seq<Value>)
    ensures |vs| == |xs|
    ensures forall i :: 0 <= i < |xs| ==> vs[i] == Str(xs[i])
  {
    seq(|xs|, i requires 0 <= i < |xs| => Str(xs[i]))
  }

  /** A string-valued dict as a dict value, in the same order. */
  function StrDict(d: Dict<string>): (es: Dict<Value>)
    ensures |es| == |d|
    ensures forall i :: 0 <= i < |d| ==> es[i] == (d[i].0, Str(d[i].1))
  {
    seq(|d|, i requires 0 <= i < |d| => (d[i].0, Str(d[i].1)))
  }

  /** One appended table row, the dict of app.py:158-164. */
  function RowValue(row: BiomarkerRow): (v: Value)
    ensures v.Obj? && |v.entries| == 5
  {
    Obj([("biomarker", Str(row.biomarker)), ("value", Str(row.value)), ("status", Str(row.status)),
      ("insight", Str(row.insight)), ("reference_range", Str(row.referenceRange))])
  }

  /** The parsed record as the nested dict the parser returns. */
  function ToValue(r: Parsed): (v: Value)
    ensures v.Obj? && |v.entries| == |FieldNames|
    ensures forall i :: 0 <= i < |FieldNames| ==> v.entries[i].0 == FieldNames[i]
    ensures v.entries[0].1.Obj? && v.entries[1].1.Obj? && v.entries[2].1.Obj?
    ensures v.entries[3].1.Arr? && v.entries[4].1.Obj? && v.entries[5].1.Arr?
  {
    var summary := Obj([
      ("top_priorities", Arr(Strs(r.executiveSummary.topPriorities))),
      ("key_strengths", Arr(Strs(r.executiveSummary.keyStrengths)))]);
    var rows := seq(|r.biomarkerTable|, i requires 0 <= i < |r.biomarkerTable| => RowValue(r.biomarkerTable[i]));
    Obj([
      ("executive_summary", summary),
      ("system_analysis", Obj(StrDict(r.systemAnalysis))),
      ("personalized_action_plan", Obj(StrDict(r.actionPlan))),
      ("interaction_alerts", Arr(Strs(r.interactionAlerts))),
      ("normal_ranges", Obj(StrDict(r.normalRanges))),
      ("biomarker_table", Arr(rows))])
  }

  /** `clean_json(parse_medical_report(response.text.strip()))` */
  function Process(reply: string): (v: Value)
  {
    CleanJson(ToValue(Parse(Strip(reply))))
  }

  /** The endpoint's result is in the normal form of `clean_json`, so cleaning it once
      more changes nothing. */
  lemma ProcessNormalized(reply: string)
    ensures Normalized(Process(reply))
    ensures CleanJson(Process(reply)) == Process(reply)
  {
    CleanJsonNormalized(ToValue(Parse(Strip(reply))));
    CleanJsonNoop(Process(reply));
  }

  /** The endpoint always returns the six fields, in order, whatever the reply says: a
      dict for the summary, the two bold-entity maps and the normal ranges, and a list
      for the alerts and the table. */
  lemma ProcessFields(reply: string)
    ensures var v := Process(reply);
      && v.Obj? && |v.entries| == |FieldNames|
      && (forall i :: 0 <= i < |FieldNames| ==> v.entries[i].0 == FieldNames[i])
      && v.entries[0].1.Obj? && v.entries[1].1.Obj? && v.entries[2].1.Obj?
      && v.entries[3].1.Arr? && v.entries[4].1.Obj? && v.entries[5].1.Arr?
  {
    CleanedFields(ToValue(Parse(Strip(reply))));
  }

  /** Cleaning a dict keyed by the six field names keeps those keys in their order and
      cleans each field in place. */
  lemma CleanedFields(v: Value)
    requires v.Obj? && |v.entries| == |FieldNames|
    requires forall i :: 0 <= i < |FieldNames| ==> v.entries[i].0 == FieldNames[i]
    ensures CleanJson(v).Obj? && |CleanJson(v).entries| == |FieldNames|
    ensures forall i :: 0 <= i < |FieldNames| ==>
      CleanJson(v).entries[i] == (FieldNames[i], CleanJson(v.entries[i].1))
  {
    var es := v.entries;
    assert DistinctKeys(es) by {
      FieldNamesDistinct();
    }
    assert forall i :: 0 <= i < |es| ==> Strip(es[i].0) == es[i].0 by {
      FieldNamesLower();
      forall i | 0 <= i < |es| ensures Strip(es[i].0) == es[i].0 {
        NameStripped(es[i].0);
      }
    }
    CleanJsonDictKept(es);
  }

  /** The field names are written in lower-case letters and underscores. */
  predicate LowerName(n: string) {
    forall k :: 0 <= k < |n| ==> 'a' <= n[k] <= 'z' || n[k] == '_'
  }

  lemma FieldNamesLower()
    ensures forall i :: 0 <= i < |FieldNames| ==> LowerName(FieldNames[i])
  {
  }

  /** Such a name is its own strip. */
  lemma NameStripped(n: string)
    requires LowerName(n)
    ensures Strip(n) == n
  {
    if n != [] {
      assert n[0] !in Whitespace && n[|n| - 1] !in Whitespace;
    }
    StripCharsNoop(n, Whitespace);
  }

  /** The six field names are distinct. */
  lemma FieldNamesDistinct()
    ensures forall i, j :: 0 <= i < j < |FieldNames| ==> FieldNames[i] != FieldNames[j]
  {
    forall i, j | 0 <= i < j < |FieldNames| ensures FieldNames[i] != FieldNames[j] {
      assert FieldNames[i][0] != FieldNames[j][0] || |FieldNames[i]| != |FieldNames[j]|;
    }
  }
}
