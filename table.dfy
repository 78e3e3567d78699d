/** The five-cell rows of the tabular-mapping section and the rule that decides which
    of them are kept (app.py:135-165). */
module Table {

  import opened Text
  import opened Options

  /** One appended row, with its five stripped cells. */
  datatype BiomarkerRow = BiomarkerRow(
    biomarker: string, value: string, status: string, insight: string, referenceRange: string)

  /** No pipe in `s`. */
  predicate NoPipe(s: string) {
    forall k :: 0 <= k < |s| ==> s[k] != '|'
  }

  /** The group `([^|]+)` of one cell whose text runs from `s` to the pipe at `q`: the
      leading `\s*` takes the whitespace, unless the whole cell is whitespace, in which
      case it gives the last character back to the group. The trailing `\s*` is empty,
      since the group runs right up to the pipe. */
  function CellGroup(b: string, s: nat, q: nat): (g: string)
    requires s < q <= |b|
    requires forall k :: s <= k < q ==> b[k] != '|'
    ensures g != [] && NoPipe(g)
  {
    var w := RunEnd(b, s, Whitespace);
    if w < q then b[w..q] else b[q - 1..q]
  }

  /** The group strips to the stripped text of its cell. */
  lemma CellGroupStrip(b: string, s: nat, q: nat)
    requires s < q <= |b|
    requires forall k :: s <= k < q ==> b[k] != '|'
    ensures Strip(CellGroup(b, s, q)) == Strip(b[s..q])
  {
    CellStrip(b, s, RunEnd(b, s, Whitespace), q);
  }

  lemma CellStrip(b: string, s: nat, w: nat, q: nat)
    requires s < q <= |b| && w == RunEnd(b, s, Whitespace)
    ensures w < q ==> Strip(b[w..q]) == Strip(b[s..q])
    ensures w >= q ==> Strip(b[q - 1..q]) == Strip(b[s..q])
  {
    if w < q {
      assert b[s..q] == b[s..w] + b[w..q];
      StripCharsPrefix(b[s..w], b[w..q], Whitespace);
    } else {
      assert AllIn(b[q - 1..q], Whitespace);
      StripCharsEmpty(b[q - 1..q], Whitespace);
      assert AllIn(b[s..q], Whitespace);
      StripCharsEmpty(b[s..q], Whitespace);
    }
  }

  /** `n` more cells starting at `s`, each a non-empty run of non-pipe characters closed
      by a pipe: their groups and the position after the last pipe. Every pipe is forced,
      so a missing one or an empty cell fails the whole match. */
  function Cells(b: string, s: nat, n: nat): (r: Option<(seq<string>, nat)>)
    requires s <= |b|
    ensures r.Some? ==> |r.value.0| == n && s + n <= r.value.1 <= |b|
    decreases |b| - s
  {
    if n == 0 then Some(([], s))
    else
      var q := IndexOfChar(b, s, '|');
      if q == |b| || q == s then None
      else
        match Cells(b, q + 1, n - 1)
        case None => None
        case Some((gs, e)) =>
          Some(([CellGroup(b, s, q)] + gs, e))
  }

  /** `qs` are the pipes that close the cells from `s` on: each is the first pipe after
      the previous one (or after `s`), with at least one character before it. */
  predicate PipesFrom(b: string, s: nat, qs: seq<nat>)
    decreases |qs|
  {
    qs == [] ||
      (&& s < qs[0] < |b| && b[qs[0]] == '|'
       && (forall k :: s <= k < qs[0] ==> b[k] != '|')
       && PipesFrom(b, qs[0] + 1, qs[1..]))
  }

  /** Each group is the group of its cell, which runs from the previous pipe (or `s`)
      to its own pipe; `CellGroupStrip` says what that group strips to. */
  predicate GroupsAt(b: string, s: nat, qs: seq<nat>, gs: seq<string>)
    requires s <= |b| && PipesFrom(b, s, qs)
    decreases |qs|
  {
    && |gs| == |qs|
    && (qs != [] ==>
          && gs[0] == CellGroup(b, s, qs[0])
          && GroupsAt(b, qs[0] + 1, qs[1..], gs[1..]))
  }

  /** The cells match exactly when the next `n` pipes each close a non-empty cell; then
      each group is the group of its cell between two consecutive pipes (`CellGroup`, which
      strips to the cell's stripped text), and the match ends right after the last pipe. */
  lemma CellsMeaning(b: string, s: nat, n: nat)
    requires s <= |b|
    ensures Cells(b, s, n).Some? <==> exists qs :: |qs| == n && PipesFrom(b, s, qs)
    ensures forall qs :: |qs| == n && PipesFrom(b, s, qs) ==>
      && GroupsAt(b, s, qs, Cells(b, s, n).value.0)
      && Cells(b, s, n).value.1 == (if n == 0 then s else qs[n - 1] + 1)
  {
    if Cells(b, s, n).Some? {
      CellsPipesExist(b, s, n);
    }
    forall qs | |qs| == n && PipesFrom(b, s, qs)
      ensures && Cells(b, s, n).Some?
              && GroupsAt(b, s, qs, Cells(b, s, n).value.0)
              && Cells(b, s, n).value.1 == (if n == 0 then s else qs[n - 1] + 1)
    {
      CellsAtPipes(b, s, n, qs);
    }
  }

  lemma {:induction false} CellsPipesExist(b: string, s: nat, n: nat)
    requires s <= |b| && Cells(b, s, n).Some?
    ensures exists qs :: |qs| == n && PipesFrom(b, s, qs)
    decreases n
  {
    if n == 0 {
      assert PipesFrom(b, s, []);
    } else {
      var q := IndexOfChar(b, s, '|');
      assert q < |b| && q != s && Cells(b, q + 1, n - 1).Some?;
      CellsPipesExist(b, q + 1, n - 1);
      var qs' :| |qs'| == n - 1 && PipesFrom(b, q + 1, qs');
      assert ([q] + qs')[1..] == qs';
      assert PipesFrom(b, s, [q] + qs');
    }
  }

  lemma {:induction false} CellsAtPipes(b: string, s: nat, n: nat, qs: seq<nat>)
    requires s <= |b| && |qs| == n && PipesFrom(b, s, qs)
    ensures Cells(b, s, n).Some?
    ensures GroupsAt(b, s, qs, Cells(b, s, n).value.0)
    ensures Cells(b, s, n).value.1 == (if n == 0 then s else qs[n - 1] + 1)
    decreases n
  {
    if n > 0 {
      var q := IndexOfChar(b, s, '|');
      FirstPipe(b, s, qs);
      var qs' := qs[1..];
      CellsAtPipes(b, q + 1, n - 1, qs');
      var (gs, e) := Cells(b, q + 1, n - 1).value;
      var g := CellGroup(b, s, q);
      assert Cells(b, s, n).value == ([g] + gs, e);
      GroupsCons(b, s, q, qs, g, gs);
      if n > 1 {
        assert qs'[n - 2] == qs[n - 1];
      }
    }
  }

  lemma FirstPipe(b: string, s: nat, qs: seq<nat>)
    requires s <= |b| && PipesFrom(b, s, qs) && qs != []
    ensures IndexOfChar(b, s, '|') == qs[0]
  {
    var q := IndexOfChar(b, s, '|');
    assert !(qs[0] < q) && !(q < qs[0]);
  }

  lemma GroupsCons(b: string, s: nat, q: nat, qs: seq<nat>, g: string, gs: seq<string>)
    requires s <= |b| && PipesFrom(b, s, qs) && qs != [] && qs[0] == q
    requires g == CellGroup(b, s, q)
    requires GroupsAt(b, q + 1, qs[1..], gs)
    ensures GroupsAt(b, s, qs, [g] + gs)
  {
    assert ([g] + gs)[1..] == gs;
  }

  /** The match of the row pattern at `i`: a pipe and then five cells. */
  function RowAt(b: string, i: nat): (r: Option<(seq<string>, nat)>)
    requires i <= |b|
    ensures r.Some? ==> |r.value.0| == 5 && i < r.value.1 <= |b| && b[i] == '|'
  {
    if i < |b| && b[i] == '|' then Cells(b, i + 1, 5) else None
  }

  /** Where the leftmost row match from `from` starts, or `|b|` when there is none. */
  function NextRow(b: string, from: nat): (p: nat)
    requires from <= |b|
    ensures from <= p <= |b|
    ensures p < |b| ==> RowAt(b, p).Some?
    ensures NoRowBetween(b, from, p)
    decreases |b| - from
  {
    if from == |b| || RowAt(b, from).Some? then from else NextRow(b, from + 1)
  }

  /** No row match starts in `[from, p)`, stated one position at a time. */
  predicate NoRowBetween(b: string, from: nat, p: nat)
    requires p <= |b|
    decreases p - from
  {
    from >= p || (RowAt(b, from).None? && NoRowBetween(b, from + 1, p))
  }

  /** The same, for each position. */
  lemma {:induction false} NoRowBetweenAt(b: string, from: nat, p: nat, q: nat)
    requires p <= |b| && NoRowBetween(b, from, p) && from <= q < p
    ensures RowAt(b, q).None?
    decreases q - from
  {
    assert RowAt(b, from).None? && NoRowBetween(b, from + 1, p);
    if from < q {
      NoRowBetweenAt(b, from + 1, p, q);
    }
  }

  /** `re.findall(table_pattern, table_block)` from `from`: the leftmost match with its
      five groups, then the matches from where it ends, so that no two overlap. */
  function RowMatches(b: string, from: nat): (rs: seq<seq<string>>)
    requires from <= |b|
    ensures forall j :: 0 <= j < |rs| ==> |rs[j]| == 5
    decreases |b| - from
  {
    var p := NextRow(b, from);
    if p == |b| then []
    else
      var (gs, e) := RowAt(b, p).value;
      var rest := RowMatches(b, e);
      ConsRows(gs, rest);
      [gs] + rest
  }

  lemma ConsRows(gs: seq<string>, rs: seq<seq<string>>)
    requires |gs| == 5 && forall j :: 0 <= j < |rs| ==> |rs[j]| == 5
    ensures forall j :: 0 <= j < |rs| + 1 ==> |([gs] + rs)[j]| == 5
  {
    assert forall j :: 1 <= j < |rs| + 1 ==> ([gs] + rs)[j] == rs[j - 1];
  }

  /** The row pattern matches at `i` exactly when `i` holds a pipe and the next five
      pipes after it each close a non-empty cell; the groups are then the groups of
      those five cells, and the match ends right after the fifth pipe. */
  lemma RowAtMeaning(b: string, i: nat)
    requires i <= |b|
    ensures RowAt(b, i).Some? <==>
      i < |b| && b[i] == '|' && exists qs :: |qs| == 5 && PipesFrom(b, i + 1, qs)
    ensures forall qs :: i < |b| && b[i] == '|' && |qs| == 5 && PipesFrom(b, i + 1, qs) ==>
      GroupsAt(b, i + 1, qs, RowAt(b, i).value.0) && RowAt(b, i).value.1 == qs[4] + 1
  {
    if i < |b| && b[i] == '|' {
      CellsMeaning(b, i + 1, 5);
    }
  }

  /** `g` is the five groups of the match at some position from `from` on. */
  predicate RowFrom(b: string, from: nat, g: seq<string>) {
    exists p: nat :: from <= p < |b| && RowAt(b, p).Some? && RowAt(b, p).value.0 == g
  }

  /** Every row `findall` returns is the groups of a match at some position. */
  lemma {:induction false} RowMatchesSound(b: string, from: nat)
    requires from <= |b|
    ensures forall g :: g in RowMatches(b, from) ==> RowFrom(b, from, g)
    decreases |b| - from
  {
    var p := NextRow(b, from);
    if p < |b| {
      var (gs, e) := RowAt(b, p).value;
      RowMatchesSound(b, e);
      assert RowFrom(b, from, gs);
    }
  }

  /** The first row found is the leftmost match, and the search goes on where it ends. */
  lemma RowMatchesFirst(b: string, from: nat, p: nat)
    requires from <= p < |b| && RowAt(b, p).Some?
    requires forall q :: from <= q < p ==> RowAt(b, q).None?
    ensures RowMatches(b, from) == [RowAt(b, p).value.0] + RowMatches(b, RowAt(b, p).value.1)
  {
    var n := NextRow(b, from);
    assert n == p by {
      if p < n {
        NoRowBetweenAt(b, from, n, p);
      }
    }
  }

  /** Without a match from `from` on, there are no rows. */
  lemma RowMatchesNone(b: string, from: nat)
    requires from <= |b|
    requires forall q :: from <= q < |b| ==> RowAt(b, q).None?
    ensures RowMatches(b, from) == []
  {
    assert NextRow(b, from) == |b|;
  }

  /** `is_separator_cell`: no ASCII letter or digit in the cell. */
  predicate IsSeparatorCell(c: string) {
    forall k :: 0 <= k < |c| ==> !IsAsciiAlnum(c[k])
  }

  /** `not any(cells)`: every cell is empty. */
  predicate AllEmpty(cells: seq<string>) {
    forall j :: 0 <= j < |cells| ==> cells[j] == []
  }

  /** `all(is_separator_cell(c) for c in cells)` */
  predicate AllSeparators(cells: seq<string>) {
    forall j :: 0 <= j < |cells| ==> IsSeparatorCell(cells[j])
  }

  /** The row built from five stripped cells. */
  function MakeRow(cells: seq<string>): (row: BiomarkerRow)
    requires |cells| == 5
  {
    BiomarkerRow(cells[0], cells[1], cells[2], cells[3], cells[4])
  }

  /** The stripped cells of one match. */
  function StripCells(gs: seq<string>): (cells: seq<string>)
    ensures |cells| == |gs|
    ensures forall j :: 0 <= j < |gs| ==> cells[j] == Strip(gs[j])
  {
    seq(|gs|, j requires 0 <= j < |gs| => Strip(gs[j]))
  }

  /** The two skip rules together keep a row exactly when one of its cells holds an
      ASCII letter or digit; the all-empty rule never skips a row the separator rule
      would keep. */
  lemma KeepRule(cells: seq<string>)
    ensures AllEmpty(cells) ==> AllSeparators(cells)
    ensures (!AllEmpty(cells) && !AllSeparators(cells)) <==>
      exists j, k :: 0 <= j < |cells| && 0 <= k < |cells[j]| && IsAsciiAlnum(cells[j][k])
  {
  }

  /** The rows the loop appends, from the stripped cells of each match, in order. */
  function KeptRows(cs: seq<seq<string>>): (rows: seq<BiomarkerRow>)
    requires forall j :: 0 <= j < |cs| ==> |cs[j]| == 5
    ensures |rows| <= |cs|
    decreases |cs|
  {
    if cs == [] then []
    else
      var n := |cs| - 1;
      var init := KeptRows(cs[..n]);
      if AllEmpty(cs[n]) || AllSeparators(cs[n]) then init else init + [MakeRow(cs[n])]
  }

  /** The five fields of a row, in column order. */
  function RowCells(row: BiomarkerRow): (cells: seq<string>)
    ensures |cells| == 5
  {
    [row.biomarker, row.value, row.status, row.insight, row.referenceRange]
  }

  /** Every kept row holds an ASCII letter or digit in one of its cells and is the row of
      one of the matches. */
  lemma {:induction false} KeptRowsSound(cs: seq<seq<string>>)
    requires forall j :: 0 <= j < |cs| ==> |cs[j]| == 5
    ensures forall row :: row in KeptRows(cs) ==>
      !AllSeparators(RowCells(row)) && exists j :: 0 <= j < |cs| && row == MakeRow(cs[j])
    decreases |cs|
  {
    if cs != [] {
      var n := |cs| - 1;
      var init := cs[..n];
      KeptRowsSound(init);
      assert forall j :: 0 <= j < n ==> init[j] == cs[j];
      if !(AllEmpty(cs[n]) || AllSeparators(cs[n])) {
        assert RowCells(MakeRow(cs[n])) == cs[n];
        assert KeptRows(cs) == KeptRows(init) + [MakeRow(cs[n])];
      } else {
        assert KeptRows(cs) == KeptRows(init);
      }
    }
  }

  /** Every match with an ASCII letter or digit in one of its cells gives its row. */
  lemma {:induction false} KeptRowsComplete(cs: seq<seq<string>>, j: nat)
    requires forall j :: 0 <= j < |cs| ==> |cs[j]| == 5
    requires j < |cs| && !AllSeparators(cs[j])
    ensures MakeRow(cs[j]) in KeptRows(cs)
    decreases |cs|
  {
    var n := |cs| - 1;
    var init := cs[..n];
    KeepRule(cs[j]);
    if j < n {
      assert init[j] == cs[j];
      KeptRowsComplete(init, j);
    }
  }

  /** Front and last element of a concatenation whose second part is non-empty. */
  lemma InitLastAppend<T>(a: seq<T>, b: seq<T>)
    requires b != []
    ensures (a + b)[..|a + b| - 1] == a + b[..|b| - 1] && (a + b)[|a + b| - 1] == b[|b| - 1]
  {
  }

  /** The appended rows keep the order of their matches. */
  lemma {:induction false} KeptRowsAppend(xs: seq<seq<string>>, ys: seq<seq<string>>)
    requires forall j :: 0 <= j < |xs| ==> |xs[j]| == 5
    requires forall j :: 0 <= j < |ys| ==> |ys[j]| == 5
    ensures KeptRows(xs + ys) == KeptRows(xs) + KeptRows(ys)
    decreases |ys|
  {
    if ys == [] {
      assert xs + ys == xs;
    } else {
      InitLastAppend(xs, ys);
      KeptRowsAppend(xs, ys[..|ys| - 1]);
    }
  }
}
