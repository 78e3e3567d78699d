/** `parse_bold_entities` (app.py:69-79): every `**label** text` in a section body
    becomes an entry `label -> text` of an ordered dict. */
module Bold {

  import opened Text
  import opened Dicts
  import opened Options

  /** Where the match of `\*\*(.*?)\*\*(.*?)(?=\*\*|###|$)` (with `re.S`) that starts at
      `i` puts its closing `**` and where it ends. The label runs to the first `**` after
      the opening one; without such a `**` there is no match at `i`. The text then runs to
      the first `**`, `###` or end of the block (or its final newline). */
  function BoldAt(b: string, i: nat): (r: Option<(nat, nat)>)
    requires i <= |b|
    ensures r.Some? ==>
      var (k, p) := r.value;
      && StartsAt(b, i, "**") && i + 2 <= k && k + 2 <= p <= |b| && StartsAt(b, k, "**")
      && (forall q :: i + 2 <= q < k ==> !StartsAt(b, q, "**"))
      && StopsAt(b, p, ["**", "###"])
      && (forall q :: k + 2 <= q < p ==> !StopsAt(b, q, ["**", "###"]))
    ensures r.None? ==> !StartsAt(b, i, "**") || forall q :: i + 2 <= q < |b| ==> !StartsAt(b, q, "**")
  {
    if StartsAt(b, i, "**") then
      match FindLiteral(b, i + 2, "**")
      case None => None
      case Some(k) => Some((k, LookaheadEnd(b, k + 2, ["**", "###"])))
    else None
  }

  /** Where the leftmost match from `from` starts, or `|b|` when there is none. */
  function NextBold(b: string, from: nat): (p: nat)
    requires from <= |b|
    ensures from <= p <= |b|
    ensures p < |b| ==> BoldAt(b, p).Some?
    ensures NoBoldBetween(b, from, p)
    decreases |b| - from
  {
    if from == |b| || BoldAt(b, from).Some? then from else NextBold(b, from + 1)
  }

  /** No match starts in `[from, p)`, stated one position at a time. */
  predicate NoBoldBetween(b: string, from: nat, p: nat)
    requires p <= |b|
    decreases p - from
  {
    from >= p || (BoldAt(b, from).None? && NoBoldBetween(b, from + 1, p))
  }

  /** The same, for each position. */
  lemma {:induction false} NoBoldBetweenAt(b: string, from: nat, p: nat, q: nat)
    requires p <= |b| && NoBoldBetween(b, from, p) && from <= q < p
    ensures BoldAt(b, q).None?
    decreases q - from
  {
    assert BoldAt(b, from).None? && NoBoldBetween(b, from + 1, p);
    if from < q {
      NoBoldBetweenAt(b, from + 1, p, q);
    }
  }

  /** `finditer`: the (label, text) groups of the leftmost match from `from`, then of the
      matches from where it ends, so that no two overlap. */
  function BoldMatches(b: string, from: nat): (ms: seq<(string, string)>)
    requires from <= |b|
    decreases |b| - from
  {
    var p := NextBold(b, from);
    if p == |b| then []
    else [BoldPair(b, p)] + BoldMatches(b, BoldAt(b, p).value.1)
  }

  /** The groups of the match at `p`: the label between the two `**`, then the text up to
      where the match stops. */
  function BoldPair(b: string, p: nat): (m: (string, string))
    requires p <= |b| && BoldAt(b, p).Some?
  {
    var (k, e) := BoldAt(b, p).value;
    (b[p + 2..k], b[k + 2..e])
  }

  /** `m` is the (label, text) pair of the match at some position from `from` on. */
  predicate BoldFrom(b: string, from: nat, m: (string, string)) {
    exists p: nat :: from <= p < |b| && BoldAt(b, p).Some? && m == BoldPair(b, p)
  }

  /** Every pair `finditer` yields is the label and text of a match at some position. */
  lemma {:induction false} BoldMatchesSound(b: string, from: nat)
    requires from <= |b|
    ensures forall m :: m in BoldMatches(b, from) ==> BoldFrom(b, from, m)
    decreases |b| - from
  {
    var p := NextBold(b, from);
    if p < |b| {
      BoldMatchesSound(b, BoldAt(b, p).value.1);
      assert BoldFrom(b, from, BoldPair(b, p));
    }
  }

  /** The first match found is the leftmost one, and the search goes on where it ends. */
  lemma BoldMatchesFirst(b: string, from: nat, p: nat)
    requires from <= p < |b| && BoldAt(b, p).Some?
    requires forall q :: from <= q < p ==> BoldAt(b, q).None?
    ensures BoldMatches(b, from) == [BoldPair(b, p)] + BoldMatches(b, BoldAt(b, p).value.1)
  {
    var n := NextBold(b, from);
    assert n == p by {
      if p < n {
        NoBoldBetweenAt(b, from, n, p);
      }
    }
  }

  /** Without a match from `from` on, there are no pairs. */
  lemma BoldMatchesNone(b: string, from: nat)
    requires from <= |b|
    requires forall q :: from <= q < |b| ==> BoldAt(b, q).None?
    ensures BoldMatches(b, from) == []
  {
    assert NextBold(b, from) == |b|;
  }

  /** `match.group(1).strip().strip(":")` */
  function BoldKey(g: string): (key: string)
    ensures key == [] || (key[0] != ':' && key[|key| - 1] != ':')
    ensures key == [] <==> AllIn(Strip(g), {':'})
  {
    StripCharsEmpty(Strip(g), {':'});
    StripChars(Strip(g), {':'})
  }

  /** `re.sub(r"\s+", " ", match.group(2).strip().replace("\n", " "))` */
  function BoldValue(g: string): (val: string)
  {
    CollapseSpace(ReplaceNewlines(Strip(g)))
  }

  /** Text with no line break, no whitespace at either end and no run of whitespace:
      every whitespace character in it is a single space between two words. */
  predicate OneLine(s: string) {
    && SinglySpaced(s)
    && (s == [] || (s[0] !in Whitespace && s[|s| - 1] !in Whitespace))
  }

  /** The cleaned text of a bold entity is on one line, trimmed and singly spaced. */
  lemma BoldValueOneLine(g: string)
    ensures OneLine(BoldValue(g))
    ensures forall k :: 0 <= k < |BoldValue(g)| ==> BoldValue(g)[k] != '\n'
  {
    var s := Strip(g);
    var n := ReplaceNewlines(s);
    if s != [] {
      assert n[0] == s[0] && n[|n| - 1] == s[|s| - 1];
    }
  }

  /** The cleaned key and text of each match, in match order. */
  function Entries(ms: seq<(string, string)>): (es: seq<(string, string)>)
    ensures |es| == |ms|
    ensures forall j :: 0 <= j < |ms| ==> es[j] == (BoldKey(ms[j].0), BoldValue(ms[j].1))
  {
    seq(|ms|, j requires 0 <= j < |ms| => (BoldKey(ms[j].0), BoldValue(ms[j].1)))
  }

  /** The entries the loop assigns (`if key:`): those whose key is not empty, in order. */
  function Keyed<V>(es: seq<(string, V)>): (ks: seq<(string, V)>)
    ensures |ks| <= |es|
    ensures forall e :: e in ks ==> e.0 != [] && e in es
    decreases |es|
  {
    if es == [] then []
    else
      var init := Keyed(es[..|es| - 1]);
      var e := es[|es| - 1];
      assert forall x :: x in es[..|es| - 1] ==> x in es;
      if e.0 != [] then init + [e] else init
  }

  /** The dict `parse_bold_entities` returns. */
  function BoldEntities(block: string): (d: Dict<string>)
  {
    PutAll([], Keyed(Entries(BoldMatches(block, 0))))
  }

  /** The loop of `parse_bold_entities`: one assignment per match with a non-empty key. */
  method ParseBoldEntities(block: string) returns (entities: Dict<string>)
    ensures entities == BoldEntities(block)
  {
    var ms := BoldMatches(block, 0);
    ghost var es := Entries(ms);
    entities := [];
    for i := 0 to |ms|
      invariant entities == PutAll([], Keyed(es[..i]))
    {
      var key := BoldKey(ms[i].0);
      var val := BoldValue(ms[i].1);
      assert es[i] == (key, val);
      KeyedStep(es, i);
      if key != [] {
        entities := Put(entities, key, val);
      }
    }
    assert es[..|ms|] == es;
  }

  /** One more pair: `Keyed` grows by it exactly when its key is not empty. */
  lemma KeyedStep<V>(es: seq<(string, V)>, i: nat)
    requires i < |es|
    ensures var d := PutAll([], Keyed(es[..i]));
      PutAll([], Keyed(es[..i + 1])) == if es[i].0 != [] then Put(d, es[i].0, es[i].1) else d
  {
    assert es[..i + 1][..i] == es[..i];
    if es[i].0 != [] {
      assert Keyed(es[..i + 1]) == Keyed(es[..i]) + [es[i]];
      PutAllSnoc([], Keyed(es[..i]), es[i]);
    }
  }

  /** Every entry has a non-empty key with no colon at either end, and a one-line value. */
  lemma BoldEntitiesShape(block: string)
    ensures DistinctKeys(BoldEntities(block))
    ensures forall e :: e in BoldEntities(block) ==>
      && e.0 != [] && e.0[0] != ':' && e.0[|e.0| - 1] != ':'
      && OneLine(e.1)
  {
    EntriesShape(BoldMatches(block, 0));
  }

  lemma EntriesShape(ms: seq<(string, string)>)
    ensures DistinctKeys(PutAll([], Keyed(Entries(ms))))
    ensures forall e :: e in PutAll([], Keyed(Entries(ms))) ==>
      && e.0 != [] && e.0[0] != ':' && e.0[|e.0| - 1] != ':'
      && OneLine(e.1)
  {
    var es := Entries(ms);
    KeyedEntries(es);
    forall e | e in PutAll([], Keyed(es))
      ensures e.0 != [] && e.0[0] != ':' && e.0[|e.0| - 1] != ':' && OneLine(e.1)
    {
      var j :| 0 <= j < |es| && es[j] == e;
      assert e.0 == BoldKey(ms[j].0);
      assert e.1 == BoldValue(ms[j].1);
      BoldValueOneLine(ms[j].1);
    }
  }

  /** The dict built from `Keyed(es)` has distinct keys, and its entries are pairs of
      `es` with non-empty keys. */
  lemma KeyedEntries<V>(es: seq<(string, V)>)
    ensures DistinctKeys(PutAll([], Keyed(es)))
    ensures forall e :: e in PutAll([], Keyed(es)) ==> e.0 != [] && exists j :: 0 <= j < |es| && es[j] == e
  {
    PutAllEntries([], Keyed(es));
    forall e | e in PutAll([], Keyed(es)) ensures e.0 != [] && exists j :: 0 <= j < |es| && es[j] == e {
      assert e in Keyed(es);
    }
  }

  /** The last pair with a non-empty key decides that key's value. */
  lemma {:induction false} KeyedLastWins<V>(es: seq<(string, V)>, i: nat)
    requires i < |es| && es[i].0 != []
    requires forall j :: i < j < |es| ==> es[j].0 != es[i].0
    ensures Get(PutAll([], Keyed(es)), es[i].0) == Some(es[i].1)
    decreases |es|
  {
    var n := |es| - 1;
    var init := es[..n];
    var e := es[n];
    var k := es[i].0;
    var before := PutAll([], Keyed(init));
    if i < n {
      assert init[i] == es[i];
      assert forall j :: i < j < |init| ==> init[j] == es[j];
      KeyedLastWins(init, i);
      assert Get(before, k) == Some(es[i].1);
      if e.0 != [] {
        assert Keyed(es) == Keyed(init) + [e];
        PutAllSnoc([], Keyed(init), e);
        assert e.0 != k;
        PutGet(before, e.0, e.1, k);
      } else {
        assert Keyed(es) == Keyed(init);
      }
    } else {
      assert Keyed(es) == Keyed(init) + [e];
      PutAllSnoc([], Keyed(init), e);
      PutGet(before, e.0, e.1, k);
    }
  }

  /** A key that no pair has is absent. */
  lemma KeyedAbsent<V>(es: seq<(string, V)>, k: string)
    requires forall j :: 0 <= j < |es| ==> es[j].0 != k
    ensures Get(PutAll([], Keyed(es)), k).None?
  {
    var ks := Keyed(es);
    forall j | 0 <= j < |ks| ensures ks[j].0 != k {
      assert ks[j] in ks;
    }
    PutAllUntouched([], ks, k);
  }

  /** The dict built from `Keyed(es)` holds, for each key, the value of the last pair with
      that key, and no key that no pair has. */
  lemma KeyedDecides(es: seq<(string, string)>, k: string)
    ensures forall i ::
        0 <= i < |es| && k != [] && es[i].0 == k && (forall j :: i < j < |es| ==> es[j].0 != k)
        ==> Get(PutAll([], Keyed(es)), k) == Some(es[i].1)
    ensures (forall j :: 0 <= j < |es| ==> es[j].0 != k) ==> Get(PutAll([], Keyed(es)), k).None?
  {
    forall i | 0 <= i < |es| && k != [] && es[i].0 == k
        && (forall j :: i < j < |es| ==> es[j].0 != k)
      ensures Get(PutAll([], Keyed(es)), k) == Some(es[i].1)
    {
      KeyedLastWins(es, i);
    }
    if forall j :: 0 <= j < |es| ==> es[j].0 != k {
      KeyedAbsent(es, k);
    }
  }

  /** The bold-entity dict holds, for each key, the text of the last match with that key,
      and no key that no match yields. */
  lemma BoldEntitiesLastWins(block: string, k: string)
    ensures var es := Entries(BoldMatches(block, 0));
      && (forall i :: 0 <= i < |es| && k != [] && es[i].0 == k
            && (forall j :: i < j < |es| ==> es[j].0 != k)
            ==> Get(BoldEntities(block), k) == Some(es[i].1))
      && ((forall j :: 0 <= j < |es| ==> es[j].0 != k) ==> Get(BoldEntities(block), k).None?)
  {
    var es := Entries(BoldMatches(block, 0));
    assert BoldEntities(block) == PutAll([], Keyed(es));
    KeyedDecides(es, k);
  }
}
