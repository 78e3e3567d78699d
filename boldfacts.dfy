/** What `parse_bold_entities` (app.py:69-79) yields on a well-formed body: bold labels
    that close with `:**`, each followed by one line of text. */
module BoldFacts {
  import opened Text
  import opened Dicts
  import opened Options
  import opened Bold

  /** No asterisk and no hash in `s`: nothing in it can close a label or a text. */
  predicate Plain(s: string) {
    forall k :: 0 <= k < |s| ==> s[k] != '*' && s[k] != '#'
  }

  /** The closing `**` of a label is the first pair of asterisks. */
  lemma CloseAt(b: string, from: nat, k: nat)
    requires from <= k && k + 2 <= |b| && b[k] == '*' && b[k + 1] == '*'
    requires Plain(b[from..k])
    ensures FindLiteral(b, from, "**") == Some(k)
  {
    assert StartsAt(b, k, "**") by { assert b[k..k + 2] == "**"; }
    var f := FindLiteral(b, from, "**");
    forall q | from <= q < k ensures !StartsAt(b, q, "**") {
      assert b[q] == b[from..k][q - from];
      assert b[q..q + 2][0] == b[q];
    }
    assert f.Some? && !(f.value < k) && !(k < f.value);
  }

  /** A text with no asterisk, hash or final newline stops at the next `**` or at the end. */
  lemma TextStopsAt(b: string, from: nat, p: nat)
    requires from <= p <= |b|
    requires Plain(b[from..p])
    requires p == |b| ==> p == from || b[p - 1] != '\n'
    requires p < |b| ==> p + 2 <= |b| && b[p] == '*' && b[p + 1] == '*'
    ensures LookaheadEnd(b, from, ["**", "###"]) == p
  {
    var lits := ["**", "###"];
    assert StopsAt(b, p, lits) by {
      if p < |b| {
        assert b[p..p + 2] == "**";
        assert StartsAt(b, p, lits[0]);
      }
    }
    forall q | from <= q < p ensures !StopsAt(b, q, lits) {
      assert b[q] == b[from..p][q - from];
      assert !StartsAt(b, q, lits[0]) by { assert q + 2 > |b| || b[q..q + 2][0] == b[q]; }
      assert !StartsAt(b, q, lits[1]) by { assert q + 3 > |b| || b[q..q + 3][0] == b[q]; }
    }
    var e := LookaheadEnd(b, from, lits);
    assert !(e < p) && !(p < e);
  }

  /** The match at `i` is read off the first `**` after the label and the first stop
      after the text. */
  lemma BoldAtPlain(b: string, i: nat, k: nat, p: nat)
    requires i + 2 <= k && k + 2 <= p <= |b|
    requires StartsAt(b, i, "**")
    requires FindLiteral(b, i + 2, "**") == Some(k)
    requires LookaheadEnd(b, k + 2, ["**", "###"]) == p
    ensures BoldAt(b, i) == Some((k, p))
  {
  }

  /** The entity that opens at `i`, closes its label `l` at `k` and stops its text `t`
      at `p` is the first match from `i`. */
  lemma EntityMatchAt(b: string, i: nat, k: nat, p: nat, l: string, t: string)
    requires i + 2 <= k && k + 2 <= p <= |b|
    requires b[i] == '*' && b[i + 1] == '*' && b[k] == '*' && b[k + 1] == '*'
    requires b[i + 2..k] == l && b[k + 2..p] == t && Plain(l) && Plain(t)
    requires p == |b| ==> p == k + 2 || b[p - 1] != '\n'
    requires p < |b| ==> p + 2 <= |b| && b[p] == '*' && b[p + 1] == '*'
    ensures BoldMatches(b, i) == [(l, t)] + BoldMatches(b, p)
  {
    assert StartsAt(b, i, "**") by { assert b[i..i + 2] == "**"; }
    CloseAt(b, i + 2, k);
    TextStopsAt(b, k + 2, p);
    BoldAtPlain(b, i, k, p);
    BoldMatchesStep(b, i, k, p);
  }

  /** A match at `i` is the first of the matches from `i`. */
  lemma BoldMatchesStep(b: string, i: nat, k: nat, p: nat)
    requires i < |b| && BoldAt(b, i) == Some((k, p))
    ensures BoldMatches(b, i) == [(b[i + 2..k], b[k + 2..p])] + BoldMatches(b, p)
  {
    assert NextBold(b, i) == i;
    assert BoldPair(b, i) == (b[i + 2..k], b[k + 2..p]);
  }

  /** The last entity, whose text runs to the end. */
  lemma LastEntity(b: string, i: nat, k: nat, l: string, t: string)
    requires i + 2 <= k && k + 2 <= |b|
    requires b[i] == '*' && b[i + 1] == '*' && b[k] == '*' && b[k + 1] == '*'
    requires b[i + 2..k] == l && b[k + 2..] == t && Plain(l) && Plain(t)
    requires k + 2 == |b| || b[|b| - 1] != '\n'
    ensures BoldMatches(b, i) == [(l, t)]
  {
    assert b[k + 2..|b|] == t;
    EntityMatchAt(b, i, k, |b|, l, t);
    assert BoldMatches(b, |b|) == [];
    assert [(l, t)] + [] == [(l, t)];
  }

  /** `**l1**t1**l2**t2`, where no label or text holds an asterisk or a hash and the last
      text does not end in a newline, gives exactly the two matches `(l1, t1)` and
      `(l2, t2)`. */
  lemma BoldTwoMatches(l1: string, t1: string, l2: string, t2: string)
    requires Plain(l1) && Plain(t1) && Plain(l2) && Plain(t2)
    requires t2 == [] || t2[|t2| - 1] != '\n'
    ensures BoldMatches("**" + l1 + "**" + t1 + "**" + l2 + "**" + t2, 0) == [(l1, t1), (l2, t2)]
  {
    var b := "**" + l1 + "**" + t1 + "**" + l2 + "**" + t2;
    var k1 := 2 + |l1|;
    var p1 := k1 + 2 + |t1|;
    var k2 := p1 + 2 + |l2|;
    assert [(l1, t1)] + [(l2, t2)] == [(l1, t1), (l2, t2)];
    TwoParts(b, l1, t1, l2, t2, k1, p1, k2);
    EntityMatchAt(b, 0, k1, p1, l1, t1);
    LastEntity(b, p1, k2, l2, t2);
  }

  /** Where the four parts of `**l1**t1**l2**t2` sit. */
  lemma TwoParts(b: string, l1: string, t1: string, l2: string, t2: string, k1: nat, p1: nat, k2: nat)
    requires b == "**" + l1 + "**" + t1 + "**" + l2 + "**" + t2
    requires k1 == 2 + |l1| && p1 == k1 + 2 + |t1| && k2 == p1 + 2 + |l2|
    ensures k2 + 2 + |t2| == |b|
    ensures b[0] == '*' && b[1] == '*' && b[k1] == '*' && b[k1 + 1] == '*'
    ensures b[p1] == '*' && b[p1 + 1] == '*' && b[k2] == '*' && b[k2 + 1] == '*'
    ensures b[2..k1] == l1 && b[k1 + 2..p1] == t1 && b[p1 + 2..k2] == l2 && b[k2 + 2..] == t2
    ensures t2 != [] ==> b[|b| - 1] == t2[|t2| - 1]
  {
  }

  /** A label word as the report writes it before its colon: not empty, and with no
      whitespace and no colon at either end. */
  predicate Label(w: string) {
    w != [] && w[0] !in Whitespace && w[0] != ':' && w[|w| - 1] !in Whitespace && w[|w| - 1] != ':'
  }

  /** The key of `**w:**` is `w`: the strip removes nothing and the colon goes. */
  lemma BoldKeyColon(w: string)
    requires Label(w)
    ensures BoldKey(w + ":") == w
  {
    var g := w + ":";
    assert Strip(g) == g by {
      assert g[0] == w[0] && g[|g| - 1] == ':';
      StripCharsNoop(g, Whitespace);
    }
    assert StripChars(g, {':'}) == w by {
      assert AllIn([':'], {':'});
      assert [] + w + [':'] == g;
      StripCharsAround([], w, [':'], {':'});
    }
  }

  /** The whitespace strip runs before the colon strip, so whitespace that stood inside a
      colon stays: the key of `**w :**` is `w` followed by a space. */
  lemma BoldKeySpaceKept(w: string)
    requires Label(w)
    ensures BoldKey(w + " :") == w + " "
  {
    var g := w + " :";
    assert Strip(g) == g by {
      assert g[0] == w[0] && g[|g| - 1] == ':';
      StripCharsNoop(g, Whitespace);
    }
    assert StripChars(g, {':'}) == w + " " by {
      var m := w + " ";
      assert m[0] == w[0] && m[|m| - 1] == ' ';
      assert AllIn([':'], {':'});
      assert [] + m + [':'] == g;
      StripCharsAround([], m, [':'], {':'});
    }
  }

  /** The space after `**w:**` is stripped, and text that is already on one line is
      left as it is. */
  lemma BoldValueSpaced(s: string)
    requires OneLine(s)
    ensures BoldValue(" " + s) == s
  {
    assert Strip(" " + s) == s by {
      assert AllIn([' '], Whitespace);
      assert [' '] + s + [] == " " + s;
      StripCharsAround([' '], s, [], Whitespace);
    }
    assert ReplaceNewlines(s) == s by {
      forall i | 0 <= i < |s| ensures s[i] != '\n' {
        if s[i] in Whitespace { assert s[i] == ' '; }
      }
    }
    assert CollapseSpace(s) == s by {
      CollapseSpaceNoop(s);
    }
  }

  /** Prefixing a colon or a space keeps a part plain. */
  lemma PlainParts(w: string, s: string)
    requires Plain(w) && Plain(s)
    ensures Plain(w + ":") && Plain(" " + s)
  {
    assert forall k :: 0 <= k < |w| ==> (w + ":")[k] == w[k];
    assert forall k :: 1 <= k < |s| + 1 ==> (" " + s)[k] == s[k - 1];
  }

  /** The text after a label never ends in a newline when it is a space and one line. */
  lemma SpacedEnd(s: string)
    requires OneLine(s)
    ensures (" " + s)[|s|] != '\n'
  {
    if s != [] {
      assert (" " + s)[|s|] == s[|s| - 1];
    }
  }

  /** Both pairs have non-empty keys, so both are assigned. */
  lemma KeyedTwo(e1: (string, string), e2: (string, string))
    requires e1.0 != [] && e2.0 != []
    ensures Keyed([e1, e2]) == [e1, e2]
  {
    assert [e1, e2][..1] == [e1];
    assert [e1][..0] == [];
  }

  /** Assigning two pairs: two entries, or one when the keys coincide and the later value
      wins. */
  lemma PutAllTwo(e1: (string, string), e2: (string, string))
    ensures PutAll([], [e1, e2]) == if e1.0 != e2.0 then [e1, e2] else [(e1.0, e2.1)]
  {
    assert PutAll([], [e1, e2]) == Put(PutAll([], [e1]), e2.0, e2.1) by {
      assert [e1, e2][..1] == [e1];
    }
    assert PutAll([], [e1]) == [e1] by {
      PutAllOne(e1);
    }
    PutSecond(e1, e2);
  }

  lemma PutAllOne(e1: (string, string))
    ensures PutAll([], [e1]) == [e1]
  {
    var empty: Dict<string> := [];
    assert [e1][..0] == empty;
    assert e1.0 !in Keys(empty);
  }

  lemma PutSecond(e1: (string, string), e2: (string, string))
    ensures Put([e1], e2.0, e2.1) == if e1.0 != e2.0 then [e1, e2] else [(e1.0, e2.1)]
  {
    if e1.0 == e2.0 {
      assert Find([e1], e2.0) == 0;
    } else {
      assert e2.0 !in Keys([e1]);
    }
  }

  /** A body made of two bold labels `**w1:**` and `**w2:**`, each followed by a space and
      one line of text, yields those two labels mapped to their texts; when the two labels
      are the same, the single entry keeps the second text. */
  lemma BoldTwoEntities(w1: string, s1: string, w2: string, s2: string)
    requires Label(w1) && Label(w2) && OneLine(s1) && OneLine(s2)
    requires Plain(w1) && Plain(s1) && Plain(w2) && Plain(s2)
    ensures BoldEntities("**" + (w1 + ":") + "**" + (" " + s1) + "**" + (w2 + ":") + "**" + (" " + s2))
      == if w1 != w2 then [(w1, s1), (w2, s2)] else [(w1, s2)]
  {
    var l1, t1, l2, t2 := w1 + ":", " " + s1, w2 + ":", " " + s2;
    var b := "**" + l1 + "**" + t1 + "**" + l2 + "**" + t2;
    var ms := [(l1, t1), (l2, t2)];
    var es := [(w1, s1), (w2, s2)];
    assert BoldMatches(b, 0) == ms by {
      PlainParts(w1, s1);
      PlainParts(w2, s2);
      SpacedEnd(s2);
      BoldTwoMatches(l1, t1, l2, t2);
    }
    assert Entries(ms) == es by {
      EntriesTwo(w1, s1, w2, s2);
    }
    assert PutAll([], Keyed(es)) == if w1 != w2 then es else [(w1, s2)] by {
      KeyedTwo((w1, s1), (w2, s2));
      PutAllTwo((w1, s1), (w2, s2));
    }
  }

  /** The cleaned keys and texts of the two matches. */
  lemma EntriesTwo(w1: string, s1: string, w2: string, s2: string)
    requires Label(w1) && Label(w2) && OneLine(s1) && OneLine(s2)
    ensures Entries([(w1 + ":", " " + s1), (w2 + ":", " " + s2)]) == [(w1, s1), (w2, s2)]
  {
    var g1, g2 := (w1 + ":", " " + s1), (w2 + ":", " " + s2);
    assert BoldKey(g1.0) == w1 by { BoldKeyColon(w1); }
    assert BoldKey(g2.0) == w2 by { BoldKeyColon(w2); }
    assert BoldValue(g1.1) == s1 by { BoldValueSpaced(s1); }
    assert BoldValue(g2.1) == s2 by { BoldValueSpaced(s2); }
    EntriesPair(g1, g2);
  }

  lemma EntriesPair(g1: (string, string), g2: (string, string))
    ensures Entries([g1, g2]) == [(BoldKey(g1.0), BoldValue(g1.1)), (BoldKey(g2.0), BoldValue(g2.1))]
  {
    var es := Entries([g1, g2]);
    assert es[0] == (BoldKey(g1.0), BoldValue(g1.1));
    assert es[1] == (BoldKey(g2.0), BoldValue(g2.1));
  }

  /** One entity as the report writes it: `**w:** s`. */
  function Entity(w: string, s: string): (b: string)
    ensures b == "**" + (w + ":") + "**" + (" " + s)
  {
    "**" + w + ":** " + s
  }

  /** A visible ASCII character other than `*` and `#`: none of them is whitespace. */
  predicate Visible(c: char) {
    '!' <= c <= '~' && c != '*' && c != '#'
  }

  /** From `i` on, every character is visible or a space followed by a visible one. */
  predicate VisibleFrom(s: string, i: nat)
    decreases |s| - i
  {
    i >= |s| || ((Visible(s[i]) || (s[i] == ' ' && i + 1 < |s| && Visible(s[i + 1]))) && VisibleFrom(s, i + 1))
  }

  lemma {:induction false} VisibleFromAll(s: string, i: nat, k: nat)
    requires VisibleFrom(s, i) && i <= k < |s|
    ensures Visible(s[k]) || (s[k] == ' ' && k + 1 < |s| && Visible(s[k + 1]))
    decreases k - i
  {
    if i < k {
      VisibleFromAll(s, i + 1, k);
    }
  }

  /** Visible words with single spaces between them are plain text on one line. */
  lemma VisibleText(s: string)
    requires s != [] ==> Visible(s[0]) && Visible(s[|s| - 1])
    requires VisibleFrom(s, 0)
    ensures OneLine(s) && Plain(s)
  {
    forall k | 0 <= k < |s| ensures s[k] != '*' && s[k] != '#' {
      VisibleFromAll(s, 0, k);
    }
    forall k | 0 <= k < |s| && s[k] in Whitespace
      ensures s[k] == ' ' && (k + 1 == |s| || s[k + 1] !in Whitespace)
    {
      VisibleFromAll(s, 0, k);
      assert !Visible(s[k]);
    }
  }

  /** Such text that neither starts nor ends with a colon is a label. */
  lemma VisibleLabel(w: string)
    requires w != [] && Visible(w[0]) && Visible(w[|w| - 1]) && w[0] != ':' && w[|w| - 1] != ':'
    requires VisibleFrom(w, 0)
    ensures Label(w) && Plain(w)
  {
    VisibleText(w);
  }

  /** Two labels and texts in a row, as two such entities. */
  lemma TwoEntitiesText(w1: string, s1: string, w2: string, s2: string)
    ensures Entity(w1, s1) + Entity(w2, s2)
      == "**" + (w1 + ":") + "**" + (" " + s1) + "**" + (w2 + ":") + "**" + (" " + s2)
  {
  }

  /** A two-entity action-plan line: the label `Nutrition` gives `Eat more fiber.` and
      `Lifestyle` gives `Walk daily.`. */
  lemma NutritionLifestyle()
    ensures BoldEntities("**Nutrition:** Eat more fiber.**Lifestyle:** Walk daily.")
      == [("Nutrition", "Eat more fiber."), ("Lifestyle", "Walk daily.")]
  {
    var w1, s1, w2, s2 := "Nutrition", "Eat more fiber.", "Lifestyle", "Walk daily.";
    assert "**Nutrition:** Eat more fiber.**Lifestyle:** Walk daily."
      == "**" + (w1 + ":") + "**" + (" " + s1) + "**" + (w2 + ":") + "**" + (" " + s2) by {
      NutritionLifestyleText();
      TwoEntitiesText(w1, s1, w2, s2);
    }
    NutritionWords();
    LifestyleWords();
    assert w1 != w2 by { assert w1[0] != w2[0]; }
    BoldTwoEntities(w1, s1, w2, s2);
  }

  lemma NutritionLifestyleText()
    ensures "**Nutrition:** Eat more fiber.**Lifestyle:** Walk daily."
      == Entity("Nutrition", "Eat more fiber.") + Entity("Lifestyle", "Walk daily.")
  {
    LineHalves();
    NutritionEntity();
    LifestyleEntity();
  }

  lemma LineHalves()
    ensures "**Nutrition:** Eat more fiber.**Lifestyle:** Walk daily."
      == "**Nutrition:** Eat more fiber." + "**Lifestyle:** Walk daily."
  {
  }

  lemma NutritionEntity()
    ensures "**Nutrition:** Eat more fiber." == Entity("Nutrition", "Eat more fiber.")
  {
  }

  lemma LifestyleEntity()
    ensures "**Lifestyle:** Walk daily." == Entity("Lifestyle", "Walk daily.")
  {
  }

  lemma NutritionWords()
    ensures Label("Nutrition") && Plain("Nutrition")
    ensures OneLine("Eat more fiber.") && Plain("Eat more fiber.")
  {
    VisibleLabel("Nutrition");
    VisibleText("Eat more fiber.");
  }

  lemma LifestyleWords()
    ensures Label("Lifestyle") && Plain("Lifestyle")
    ensures OneLine("Walk daily.") && Plain("Walk daily.")
  {
    VisibleLabel("Lifestyle");
    VisibleText("Walk daily.");
  }
}
