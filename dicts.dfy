/** Python dictionaries as association lists: the entries, keyed by strings, in the order their keys
    were first inserted, each key at most once. Assigning `d[k] = v` to a key that is
    already present replaces its value where it stands; a new key goes at the end. */
module Dicts {

  import opened Options

  type Dict<V> = seq<(string, V)>

  function Keys<V>(d: Dict<V>): set<string> {
    set i | 0 <= i < |d| :: d[i].0
  }

  /** No key occurs twice: the shape every Python dict has. */
  predicate DistinctKeys<V>(d: Dict<V>) {
    forall i, j :: 0 <= i < j < |d| ==> d[i].0 != d[j].0
  }

  /** The position of key `k` in `d`, or `|d|` when it is absent. */
  function Find<V>(d: Dict<V>, k: string): (i: nat)
    ensures i <= |d|
    ensures i < |d| ==> d[i].0 == k
    ensures forall j :: 0 <= j < i ==> d[j].0 != k
    ensures i == |d| <==> k !in Keys(d)
    decreases |d|
  {
    if d == [] then 0
    else if d[0].0 == k then 0
    else
      var i := Find(d[1..], k);
      assert forall j :: 0 <= j < |d[1..]| ==> d[1..][j] == d[j + 1];
      assert k in Keys(d) ==> k in Keys(d[1..]) by {
        if k in Keys(d) {
          var j :| 0 <= j < |d| && d[j].0 == k;
          assert d[1..][j - 1].0 == k;
        }
      }
      1 + i
  }

  /** `d.get(k)` */
  function Get<V>(d: Dict<V>, k: string): (r: Option<V>)
    ensures r.Some? <==> k in Keys(d)
    ensures r.Some? ==> (k, r.value) in d
  {
    var i := Find(d, k);
    if i < |d| then Some(d[i].1) else None
  }

  /** In a dict, an entry for `k` holds exactly the value `Get` finds. */
  lemma GetEntry<V>(d: Dict<V>, k: string, v: V)
    requires DistinctKeys(d)
    ensures (k, v) in d <==> Get(d, k) == Some(v)
  {
    if (k, v) in d {
      var j :| 0 <= j < |d| && d[j] == (k, v);
      var i := Find(d, k);
      assert i <= j;
      assert i == j;
    }
  }

  /** `d[k] = v` */
  function Put<V>(d: Dict<V>, k: string, v: V): (r: Dict<V>)
    ensures DistinctKeys(d) ==> DistinctKeys(r)
  {
    var i := Find(d, k);
    if i < |d| then
      ReplaceFacts(d, i, k, v);
      d[i := (k, v)]
    else
      AppendFacts(d, k, v);
      d + [(k, v)]
  }

  /** What `Get` sees after one assignment: the new value under `k`, every other key
      unchanged. */
  lemma PutGet<V>(d: Dict<V>, k: string, v: V, k': string)
    ensures Get(Put(d, k, v), k') == if k' == k then Some(v) else Get(d, k')
  {
    var i := Find(d, k);
    if i < |d| {
      ReplaceFacts(d, i, k, v);
    } else {
      AppendFacts(d, k, v);
    }
  }

  /** An assignment brings in no entry other than the one assigned. */
  lemma PutEntries<V>(d: Dict<V>, k: string, v: V)
    ensures forall e :: e in Put(d, k, v) ==> e in d || e == (k, v)
  {
    var i := Find(d, k);
    if i < |d| {
      ReplaceFacts(d, i, k, v);
    } else {
      AppendFacts(d, k, v);
    }
  }

  lemma ReplaceFacts<V>(d: Dict<V>, i: nat, k: string, v: V)
    requires i == Find(d, k) < |d|
    ensures var r := d[i := (k, v)];
      && (DistinctKeys(d) ==> DistinctKeys(r))
      && Keys(r) == Keys(d)
      && Get(r, k) == Some(v)
      && (forall k' :: k' != k ==> Get(r, k') == Get(d, k'))
      && (forall e :: e in r ==> e in d || e == (k, v))
  {
    var r := d[i := (k, v)];
    assert forall j :: 0 <= j < |d| ==> r[j].0 == d[j].0;
    assert Keys(r) == Keys(d);
    assert Find(r, k) == i;
    forall e | e in r ensures e in d || e == (k, v) {
      var j :| 0 <= j < |r| && r[j] == e;
      if j != i { assert d[j] == e; }
    }
  }

  lemma AppendFacts<V>(d: Dict<V>, k: string, v: V)
    requires k !in Keys(d)
    ensures var r := d + [(k, v)];
      && (DistinctKeys(d) ==> DistinctKeys(r))
      && Keys(r) == Keys(d) + {k}
      && Get(r, k) == Some(v)
      && (forall k' :: k' != k ==> Get(r, k') == Get(d, k'))
  {
    var r := d + [(k, v)];
    assert forall j :: 0 <= j < |d| ==> r[j] == d[j];
    assert r[|d|] == (k, v);
    assert Keys(r) == Keys(d) + {k};
    assert Find(r, k) == |d|;
  }

  /** Assigning the pairs of `ps` one after the other, as a `for` loop over them does. */
  function PutAll<V>(d: Dict<V>, ps: seq<(string, V)>): (r: Dict<V>)
    ensures DistinctKeys(d) ==> DistinctKeys(r)
    decreases |ps|
  {
    if ps == [] then d
    else
      var init := ps[..|ps| - 1];
      Put(PutAll(d, init), ps[|ps| - 1].0, ps[|ps| - 1].1)
  }

  /** `d[k] = v` adds `k` to the keys and removes none. */
  lemma PutKeys<V>(d: Dict<V>, k: string, v: V)
    ensures Keys(Put(d, k, v)) == Keys(d) + {k}
  {
    var i := Find(d, k);
    if i < |d| {
      ReplaceFacts(d, i, k, v);
    } else {
      AppendFacts(d, k, v);
    }
  }

  /** After the assignments, the keys are those of `d` and those of the pairs. */
  lemma {:induction false} PutAllKeys<V>(d: Dict<V>, ps: seq<(string, V)>)
    ensures Keys(PutAll(d, ps)) == Keys(d) + Keys(ps)
    decreases |ps|
  {
    if ps != [] {
      var init := ps[..|ps| - 1];
      var last := ps[|ps| - 1];
      PutAllKeys(d, init);
      PutKeys(PutAll(d, init), last.0, last.1);
      assert Keys(ps) == Keys(init) + {last.0} by {
        assert forall i :: 0 <= i < |init| ==> init[i] == ps[i];
      }
    }
  }

  lemma PutAllSnoc<V>(d: Dict<V>, ps: seq<(string, V)>, p: (string, V))
    ensures PutAll(d, ps + [p]) == Put(PutAll(d, ps), p.0, p.1)
  {
    assert (ps + [p])[..|ps|] == ps;
  }

  /** The last pair for a key decides its value: a repeated key keeps the later value. */
  lemma {:induction false} PutAllLastWins<V>(d: Dict<V>, ps: seq<(string, V)>, k: string, i: nat)
    requires i < |ps| && ps[i].0 == k
    requires forall j :: i < j < |ps| ==> ps[j].0 != k
    ensures Get(PutAll(d, ps), k) == Some(ps[i].1)
    decreases |ps|
  {
    var n := |ps| - 1;
    var init := ps[..n];
    var before := PutAll(d, init);
    assert PutAll(d, ps) == Put(before, ps[n].0, ps[n].1);
    PutGet(before, ps[n].0, ps[n].1, k);
    if i < n {
      assert init[i] == ps[i];
      assert forall j :: i < j < |init| ==> init[j] == ps[j];
      PutAllLastWins(d, init, k, i);
    }
  }

  /** A key no pair mentions keeps whatever value it had before. */
  lemma {:induction false} PutAllUntouched<V>(d: Dict<V>, ps: seq<(string, V)>, k: string)
    requires forall j :: 0 <= j < |ps| ==> ps[j].0 != k
    ensures Get(PutAll(d, ps), k) == Get(d, k)
    decreases |ps|
  {
    if ps != [] {
      var init := ps[..|ps| - 1];
      PutAllUntouched(d, init, k);
      PutGet(PutAll(d, init), ps[|ps| - 1].0, ps[|ps| - 1].1, k);
    }
  }

  /** Every entry of the result was already in `d` or is one of the pairs. */
  lemma {:induction false} PutAllEntries<V>(d: Dict<V>, ps: seq<(string, V)>)
    ensures forall e :: e in PutAll(d, ps) ==> e in d || e in ps
    decreases |ps|
  {
    if ps != [] {
      var init := ps[..|ps| - 1];
      PutAllEntries(d, init);
      PutEntries(PutAll(d, init), ps[|ps| - 1].0, ps[|ps| - 1].1);
      assert forall x :: x in init ==> x in ps;
    }
  }

  /** Assigning pairs whose keys are all different, into an empty dict, gives back
      those pairs in their order. */
  lemma {:induction false} PutAllDistinct<V>(ps: seq<(string, V)>)
    requires DistinctKeys(ps)
    ensures PutAll([], ps) == ps
    decreases |ps|
  {
    if ps != [] {
      var init := ps[..|ps| - 1];
      assert DistinctKeys(init);
      PutAllDistinct(init);
      var last := ps[|ps| - 1];
      assert last.0 !in Keys(init) by {
        forall j | 0 <= j < |init| ensures init[j].0 != last.0 {
          assert init[j] == ps[j];
        }
      }
      assert init + [last] == ps;
    }
  }
}
