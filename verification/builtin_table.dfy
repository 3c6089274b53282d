/**
 * The built-in table as the lookup sees it: four entries whose keys are
 * already normal and pairwise different, and a lookup of one built-in text
 * that finds exactly that entry's hidden modifier.
 */
module BuiltInTable {
  import opened Opt
  import opened Text
  import opened Canon
  import opened CanonFacts
  import opened HiddenMapping
  import opened Sentences
  import opened BuiltInFacts

  /** The normalised `Match` of built-in entry `i`. */
  function BuiltInKey(i: nat): string
    requires i < 4
  {
    Join(BuiltInKeyWords[i], " ")
  }

  /** The built-in entry `i` as the table holds it. */
  function BuiltInEntry(i: nat): Option<Entry>
    requires i < 4
  {
    Some(Entry(Some(BuiltInKey(i)), Some(BuiltInHidden[i])))
  }

  /** A normal string has no upper-case letter, so folding keeps it. */
  lemma FoldOfNormal(s: string)
    requires Normalize(s) == s
    ensures Fold(s) == s
  {
    NormalizeCanonical(s);
    assert NoUpper(s);
    FoldOfNoUpper(s);
  }

  lemma Key1Chars()
    ensures 'k' in BuiltInKey(0) && 'w' !in BuiltInKey(0) && '#' !in BuiltInKey(0)
  {
    Key1HasK();
    Key1Lacks('w');
    Key1Lacks('#');
  }

  lemma Key1HasK()
    ensures 'k' in BuiltInKey(0)
  {
    var ws := BuiltInKeyWords[0];
    assert 'k' in ws[2];
    JoinHasChar(ws, " ", 2, 'k');
  }

  lemma Key1Lacks(c: char)
    requires c == 'w' || c == '#'
    ensures c !in BuiltInKey(0)
  {
    var ws := BuiltInKeyWords[0];
    assert c !in ws[0];
    assert c !in ws[1];
    assert c !in ws[2];
    assert c !in ws[3];
    assert c !in ws[4];
    assert c !in ws[5];
    assert c !in ws[6];
    assert c !in ws[7];
    assert c !in ws[8];
    assert c !in ws[9];
    assert c !in ws[10];
    JoinLacks(ws, " ", c);
  }

  lemma Entry1()
    ensures GetBuiltInMappings()[0] == BuiltInEntry(0)
  {
    BuiltInKey1();
  }

  lemma Normal1()
    ensures Normalize(BuiltInKey(0)) == BuiltInKey(0) && Fold(BuiltInKey(0)) == BuiltInKey(0)
  {
    BuiltInStable1();
    FoldOfNormal(BuiltInKey(0));
  }

  lemma Key2HasW()
    ensures 'w' in BuiltInKey(1)
  {
    var ws := BuiltInKeyWords[1];
    assert 'w' in ws[11];
    JoinHasChar(ws, " ", 11, 'w');
  }

  lemma Key2Chars()
    ensures '#' !in BuiltInKey(1)
  {
    var ws := BuiltInKeyWords[1];
    assert '#' !in ws[0];
    assert '#' !in ws[1];
    assert '#' !in ws[2];
    assert '#' !in ws[3];
    assert '#' !in ws[4];
    assert '#' !in ws[5];
    assert '#' !in ws[6];
    assert '#' !in ws[7];
    assert '#' !in ws[8];
    assert '#' !in ws[9];
    assert '#' !in ws[10];
    assert '#' !in ws[11];
    assert '#' !in ws[12];
    assert '#' !in ws[13];
    assert '#' !in ws[14];
    JoinLacks(ws, " ", '#');
  }

  lemma Entry2()
    ensures GetBuiltInMappings()[1] == BuiltInEntry(1)
  {
    BuiltInKey2();
  }

  lemma Normal2()
    ensures Normalize(BuiltInKey(1)) == BuiltInKey(1) && Fold(BuiltInKey(1)) == BuiltInKey(1)
  {
    BuiltInStable2();
    FoldOfNormal(BuiltInKey(1));
  }

  lemma Key3Chars()
    ensures 'k' !in BuiltInKey(2) && 'w' !in BuiltInKey(2) && '#' !in BuiltInKey(2)
  {
    var ws := BuiltInKeyWords[2];
    assert 'k' !in ws[0];
    assert 'k' !in ws[1];
    assert 'k' !in ws[2];
    assert 'k' !in ws[3];
    assert 'k' !in ws[4];
    assert 'k' !in ws[5];
    assert 'k' !in ws[6];
    JoinLacks(ws, " ", 'k');
    assert 'w' !in ws[0];
    assert 'w' !in ws[1];
    assert 'w' !in ws[2];
    assert 'w' !in ws[3];
    assert 'w' !in ws[4];
    assert 'w' !in ws[5];
    assert 'w' !in ws[6];
    JoinLacks(ws, " ", 'w');
    assert '#' !in ws[0];
    assert '#' !in ws[1];
    assert '#' !in ws[2];
    assert '#' !in ws[3];
    assert '#' !in ws[4];
    assert '#' !in ws[5];
    assert '#' !in ws[6];
    JoinLacks(ws, " ", '#');
  }

  lemma Entry3()
    ensures GetBuiltInMappings()[2] == BuiltInEntry(2)
  {
    BuiltInKey3();
  }

  lemma Normal3()
    ensures Normalize(BuiltInKey(2)) == BuiltInKey(2) && Fold(BuiltInKey(2)) == BuiltInKey(2)
  {
    BuiltInStable3();
    FoldOfNormal(BuiltInKey(2));
  }

  lemma Key4Chars()
    ensures '#' in BuiltInKey(3)
  {
    var ws := BuiltInKeyWords[3];
    assert '#' in ws[6];
    JoinHasChar(ws, " ", 6, '#');
  }

  lemma Entry4()
    ensures GetBuiltInMappings()[3] == BuiltInEntry(3)
  {
    BuiltInKey4();
  }

  lemma Normal4()
    ensures Normalize(BuiltInKey(3)) == BuiltInKey(3) && Fold(BuiltInKey(3)) == BuiltInKey(3)
  {
    BuiltInStable4();
    FoldOfNormal(BuiltInKey(3));
  }

  /** Entry `i` of the built-in table, its key being normal and lower-case. */
  lemma EntryAt(i: nat)
    requires i < 4
    ensures GetBuiltInMappings()[i] == BuiltInEntry(i)
    ensures Normalize(BuiltInKey(i)) == BuiltInKey(i) && Fold(BuiltInKey(i)) == BuiltInKey(i)
  {
    if i == 0 {
      Entry1();
      Normal1();
    } else if i == 1 {
      Entry2();
      Normal2();
    } else if i == 2 {
      Entry3();
      Normal3();
    } else {
      Entry4();
      Normal4();
    }
  }

  /** Characters that tell the built-in keys apart. */
  lemma KeyChars(i: nat)
    requires i < 4
    ensures '#' in BuiltInKey(i) <==> i == 3
    ensures i == 1 ==> 'w' in BuiltInKey(i)
    ensures i == 0 || i == 2 ==> 'w' !in BuiltInKey(i)
    ensures i == 0 ==> 'k' in BuiltInKey(i)
    ensures i == 2 ==> 'k' !in BuiltInKey(i) && 'a' in BuiltInKey(i)
    ensures i == 3 ==> 'w' !in BuiltInKey(i)
  {
    if i == 0 {
      Key1Chars();
    } else if i == 1 {
      Key2HasW();
      Key2Chars();
    } else if i == 2 {
      Key3Chars();
      Key3HasA();
    } else {
      Key4Chars();
      Key4LacksW();
    }
  }

  /** The built-in entries hold their normalised keys and their hidden lists, and the keys are normal already. */
  lemma BuiltInEntries()
    ensures forall i :: 0 <= i < 4 ==> GetBuiltInMappings()[i] == BuiltInEntry(i)
    ensures forall i :: 0 <= i < 4 ==> Normalize(BuiltInKey(i)) == BuiltInKey(i)
  {
    forall i | 0 <= i < 4
      ensures GetBuiltInMappings()[i] == BuiltInEntry(i)
      ensures Normalize(BuiltInKey(i)) == BuiltInKey(i)
    {
      EntryAt(i);
    }
  }

  /**
   * No two built-in keys are equal up to case, so merging the built-ins
   * keeps four separate entries.
   */
  lemma BuiltInKeysDistinct()
    ensures forall i, j :: 0 <= i < j < 4 ==> !EqualsIgnoreCase(BuiltInKey(i), BuiltInKey(j))
  {
    forall i, j | 0 <= i < j < 4 ensures !EqualsIgnoreCase(BuiltInKey(i), BuiltInKey(j)) {
      EntryAt(i);
      EntryAt(j);
      KeyChars(i);
      KeyChars(j);
    }
  }

  /** A key holding a character that `key` lacks is not contained in `key`. */
  lemma NotContained(k: string, key: string, c: char)
    requires c in k && c !in key
    ensures !IsSubstring(k, key)
  {
    if IsSubstring(k, key) {
      SubstringChar(k, key, c);
    }
  }

  /** When exactly one element hits, the collected hits are its hidden list. */
  lemma {:induction false} HitListSingle(nv: string, ms: Mappings, k: nat)
    requires k < |ms| && Hits(nv, ms[k])
    requires forall j :: 0 <= j < |ms| && j != k ==> !Hits(nv, ms[j])
    ensures HitList(nv, ms) == HiddenOf(ms[k].value)
    decreases |ms|
  {
    if k > 0 {
      assert forall j :: 0 <= j < |ms| - 1 ==> ms[1..][j] == ms[j + 1];
      HitListSingle(nv, ms[1..], k - 1);
    } else {
      HitListNone(nv, ms[1..]);
    }
  }

  lemma {:induction false} HitListNone(nv: string, ms: Mappings)
    requires forall j :: 0 <= j < |ms| ==> !Hits(nv, ms[j])
    ensures HitList(nv, ms) == []
    decreases |ms|
  {
    if |ms| > 0 {
      assert forall j :: 0 <= j < |ms| - 1 ==> ms[1..][j] == ms[j + 1];
      HitListNone(nv, ms[1..]);
    }
  }

  /** A lookup where exactly one element hits gives that element's hidden list. */
  lemma LookupOnly(text: string, ms: Mappings, k: nat)
    requires !IsBlank(text) && !IsBlank(Normalize(text))
    requires k < |ms| && Hits(Normalize(text), ms[k])
    requires forall j :: 0 <= j < |ms| && j != k ==> !Hits(Normalize(text), ms[j])
    requires |HiddenOf(ms[k].value)| > 0 && NoDupIgnoreCase(HiddenOf(ms[k].value))
    ensures GetHiddenModsFor(Some(text), Some(ms)) == Some(HiddenOf(ms[k].value))
  {
    HitListSingle(Normalize(text), ms, k);
    DistinctOfDistinct(HiddenOf(ms[k].value));
  }

  lemma Key3HasA()
    ensures 'a' in BuiltInKey(2)
  {
    var ws := BuiltInKeyWords[2];
    assert 'a' in ws[0];
    JoinHasChar(ws, " ", 0, 'a');
  }

  lemma LookupCore(text: string, ms: Mappings, k: nat)
    requires text == Join(BuiltInWords[2], " ") && ms == GetBuiltInMappings() && k == 2
    ensures GetHiddenModsFor(Some(text), Some(ms)) == Some(BuiltInHidden[k])
  {
    BuiltInKey3();
    var nv := BuiltInKey(k);
    assert Normalize(text) == nv;
    Key3HasA();
    assert !IsBlank(nv) by {
      var i :| 0 <= i < |nv| && nv[i] == 'a';
      assert !IsWhite(nv[i]);
    }
    assert !IsBlank(text) by {
      NormalizeCanonical(text);
    }
    EntryAt(k);
    forall j | 0 <= j < |ms| ensures Hits(nv, ms[j]) <==> j == k {
      EntryAt(j);
      KeyChars(j);
      KeyChars(k);
      if j == k {
        EqualIsContained(nv, nv);
      } else if j == 0 {
        NotContained(BuiltInKey(j), nv, 'k');
      } else if j == 1 {
        NotContained(BuiltInKey(j), nv, 'w');
      } else {
        NotContained(BuiltInKey(j), nv, '#');
      }
    }
    assert HiddenOf(ms[k].value) == BuiltInHidden[k] == [HPack];
    LookupOnly(text, ms, k);
  }

  /**
   * Looking up the third built-in text, as written, in the built-in table
   * finds that entry alone: its normal form is the entry's key, and no other
   * key is contained in it.
   */
  lemma LookupBuiltInText()
    ensures GetHiddenModsFor(Some(Join(BuiltInWords[2], " ")), Some(GetBuiltInMappings())) == Some([HPack])
  {
    assert BuiltInHidden[2] == [HPack];
    LookupCore(Join(BuiltInWords[2], " "), GetBuiltInMappings(), 2);
  }

  lemma Key4LacksW()
    ensures 'w' !in BuiltInKey(3)
  {
    var ws := BuiltInKeyWords[3];
    assert 'w' !in ws[0];
    assert 'w' !in ws[1];
    assert 'w' !in ws[2];
    assert 'w' !in ws[3];
    assert 'w' !in ws[4];
    assert 'w' !in ws[5];
    assert 'w' !in ws[6];
    assert 'w' !in ws[7];
    assert 'w' !in ws[8];
    assert 'w' !in ws[9];
    assert 'w' !in ws[10];
    assert 'w' !in ws[11];
    assert 'w' !in ws[12];
    assert 'w' !in ws[13];
    assert 'w' !in ws[14];
    JoinLacks(ws, " ", 'w');
  }

  /** The collected hits are the first element's contribution, then the rest's. */
  lemma HitListFront(nv: string, ms: Mappings, h: seq<string>)
    requires |ms| > 0 && h == (if Hits(nv, ms[0]) then HiddenOf(ms[0].value) else [])
    ensures HitList(nv, ms) == h + HitList(nv, ms[1..])
  {
  }

  /** The four contributions, each concatenated in front of the rest, make the repeated list. */
  lemma RepeatsOfFour(h0: seq<string>, a: string, b: string, hits: seq<string>)
    requires hits == h0 + ([] + ([a] + ([b, a] + [])))
    ensures hits == h0 + [a] + [b, a]
  {
  }

  /** Two strings of different lengths are different up to case. */
  lemma LengthsDiffer(a: string, b: string)
    requires |a| != |b|
    ensures !EqualsIgnoreCase(a, b)
  {
  }

  /** De-duplicating `[a] + [a] + [b, a]` or `[a] + [b, a]` keeps `[a, b]`. */
  lemma DistinctOfRepeats(p: seq<string>, a: string, b: string)
    requires p == [] || p == [a]
    requires !EqualsIgnoreCase(a, b)
    ensures DistinctIgnoreCase(p + [a] + [b, a]) == [a, b]
  {
    SingleContains(a, a);
    SingleContains(a, b);
    assert ContainsIgnoreCase([a, b], a) by {
      assert [a, b][0] == a;
    }
    assert !ContainsIgnoreCase([], a);
    assert AppendNew([a], [b, a]) == AppendNew([a, b], [a]) by {
      assert [b, a][1..] == [a];
      assert [a] + [[b, a][0]] == [a, b];
    }
    assert AppendNew([a, b], [a]) == [a, b] by {
      assert [a][1..] == [];
    }
    if p == [] {
      assert p + [a] + [b, a] == [a, b, a];
      assert [a, b, a][1..] == [b, a];
      assert [] + [a] == [a];
      assert AppendNew([], [a, b, a]) == AppendNew([a], [b, a]);
    } else {
      assert p + [a] + [b, a] == [a, a, b, a];
      assert [a, a, b, a][1..] == [a, b, a];
      assert [a, b, a][1..] == [b, a];
      assert [] + [a] == [a];
      assert AppendNew([], [a, a, b, a]) == AppendNew([a], [a, b, a]);
      assert AppendNew([a], [a, b, a]) == AppendNew([a], [b, a]);
    }
  }

  lemma NormalizeTwo(text: string, i: nat, j: nat)
    requires text == Join(BuiltInWords[2] + BuiltInWords[3], " ") && i == 2 && j == 3
    ensures Normalize(text) == BuiltInKey(i) + " " + BuiltInKey(j)
  {
    Text3Words();
    Text4Words();
    WordsRewriteAppend(BuiltInWords[2], BuiltInKeyWords[2], BuiltInWords[3], BuiltInKeyWords[3]);
    NormalizeSentence(BuiltInWords[2] + BuiltInWords[3], BuiltInKeyWords[2] + BuiltInKeyWords[3]);
    JoinAppend(BuiltInKeyWords[2], BuiltInKeyWords[3], " ");
  }

  /** Folding keeps a join of two lower-case keys. */
  lemma FoldOfTwo(k: string, k': string)
    requires Fold(k) == k && Fold(k') == k'
    ensures Fold(k + " " + k') == k + " " + k'
  {
    FoldAppend(k, " ");
    FoldAppend(k + " ", k');
  }

  /** A text holding an `'a'` is not blank. */
  lemma NotBlankOfA(t: string)
    requires 'a' in t
    ensures !IsBlank(t)
  {
    var x :| 0 <= x < |t| && t[x] == 'a';
    assert !IsWhite(t[x]);
  }

  /** The first of two keys joined by a space is hit. */
  lemma HitsFirstOfTwo(ms: Mappings, k: string, k': string)
    requires |ms| == 4 && ms[2].Some? && ms[2].value.text == Some(k)
    requires Fold(k) == k && Fold(k') == k' && 'a' in k
    ensures Hits(k + " " + k', ms[2])
  {
    FoldOfTwo(k, k');
    NotBlankOfA(k);
    SubstringOfPrefix(k, " " + k');
    AppendAssoc(k, " ", k');
    HitsBySubstring(k + " " + k', ms[2]);
  }

  /** An element with a non-blank `Match` whose folded form occurs in the folded text is hit. */
  lemma HitsBySubstring(nv: string, m: Option<Entry>)
    requires m.Some? && m.value.text.Some? && !IsBlank(m.value.text.value)
    requires IsSubstring(Fold(m.value.text.value), Fold(nv))
    ensures Hits(nv, m)
  {
  }

  /** The second of two keys joined by a space is hit. */
  lemma HitsSecondOfTwo(ms: Mappings, k: string, k': string)
    requires |ms| == 4 && ms[3].Some? && ms[3].value.text == Some(k')
    requires Fold(k) == k && Fold(k') == k' && '#' in k'
    ensures Hits(k + " " + k', ms[3])
  {
    FoldOfTwo(k, k');
    assert !IsBlank(k') by {
      var x :| 0 <= x < |k'| && k'[x] == '#';
      assert !IsWhite(k'[x]);
    }
    SubstringOfSuffix(k + " ", k');
  }

  /** A key with a `'w'` is not hit by two keys without one. */
  lemma MissesWithoutW(ms: Mappings, k1: string, k: string, k': string)
    requires |ms| == 4 && ms[1].Some? && ms[1].value.text == Some(k1)
    requires Fold(k1) == k1 && Fold(k) == k && Fold(k') == k'
    requires 'w' in k1 && 'w' !in k && 'w' !in k'
    ensures !Hits(k + " " + k', ms[1])
  {
    FoldOfTwo(k, k');
    assert 'w' !in k + " " + k';
    NotContained(k1, k + " " + k', 'w');
  }

  lemma HiddenOfBuiltIns(ms: Mappings)
    requires ms == GetBuiltInMappings()
    ensures HiddenOf(ms[0].value) == [HPack] && HiddenOf(ms[2].value) == [HPack] && HiddenOf(ms[3].value) == [HRarity, HPack]
  {
  }

  /**
   * In a four-element table where elements 2 and 3 hit and element 1 does
   * not, with hidden lists `[a]`, `[a]` and `[b, a]` at 0, 2 and 3, the
   * lookup gives `[a, b]` whether or not element 0 hits.
   */
  lemma LookupOfHits(text: string, ms: Mappings, a: string, b: string)
    requires |ms| == 4 && !IsBlank(Normalize(text)) && ms[0].Some?
    requires !Hits(Normalize(text), ms[1]) && Hits(Normalize(text), ms[2]) && Hits(Normalize(text), ms[3])
    requires HiddenOf(ms[0].value) == [a] && HiddenOf(ms[2].value) == [a] && HiddenOf(ms[3].value) == [b, a]
    requires !EqualsIgnoreCase(a, b)
    ensures GetHiddenModsFor(Some(text), Some(ms)) == Some([a, b])
  {
    var nv := Normalize(text);
    HitsOfFour(nv, ms, a, b);
    LookupIs(text, ms, HitList(nv, ms));
  }

  /** The lookup de-duplicates whatever the collected hits are. */
  lemma LookupIs(text: string, ms: Mappings, hits: seq<string>)
    requires |ms| > 0 && !IsBlank(Normalize(text))
    requires HitList(Normalize(text), ms) == hits && |hits| > 0
    ensures GetHiddenModsFor(Some(text), Some(ms)) == Some(DistinctIgnoreCase(hits))
  {
    NormalizeCanonical(text);
  }

  lemma HitsOfFour(nv: string, ms: Mappings, a: string, b: string)
    requires |ms| == 4 && ms[0].Some?
    requires !Hits(nv, ms[1]) && Hits(nv, ms[2]) && Hits(nv, ms[3])
    requires HiddenOf(ms[0].value) == [a] && HiddenOf(ms[2].value) == [a] && HiddenOf(ms[3].value) == [b, a]
    requires !EqualsIgnoreCase(a, b)
    ensures |HitList(nv, ms)| > 0 && DistinctIgnoreCase(HitList(nv, ms)) == [a, b]
  {
    var hits := HitList(nv, ms);
    var h0 := if Hits(nv, ms[0]) then [a] else [];
    HitListFront(nv, ms, h0);
    assert ms[1..][0] == ms[1] && ms[1..][1..] == ms[2..];
    HitListFront(nv, ms[1..], []);
    assert ms[2..][0] == ms[2] && ms[2..][1..] == ms[3..];
    HitListFront(nv, ms[2..], [a]);
    assert ms[3..][0] == ms[3] && |ms[3..][1..]| == 0;
    HitListFront(nv, ms[3..], [b, a]);
    RepeatsOfFour(h0, a, b, hits);
    DistinctOfRepeats(h0, a, b);
  }

  lemma LookupTwoCore(text: string, ms: Mappings, i: nat, j: nat)
    requires text == Join(BuiltInWords[2] + BuiltInWords[3], " ") && ms == GetBuiltInMappings() && i == 2 && j == 3
    ensures GetHiddenModsFor(Some(text), Some(ms)) == Some([HPack, HRarity])
  {
    NormalizeTwo(text, i, j);
    EntryAt(i - 1);
    EntryAt(i);
    EntryAt(j);
    KeyChars(i - 1);
    KeyChars(i);
    KeyChars(j);
    NotBlankOfA(Normalize(text));
    HitsFirstOfTwo(ms, BuiltInKey(i), BuiltInKey(j));
    HitsSecondOfTwo(ms, BuiltInKey(i), BuiltInKey(j));
    MissesWithoutW(ms, BuiltInKey(i - 1), BuiltInKey(i), BuiltInKey(j));
    HiddenOfBuiltIns(ms);
    LengthsDiffer(HPack, HRarity);
    LookupOfHits(text, ms, HPack, HRarity);
  }

  /**
   * Hits add up: a text holding the mana-siphoning line followed by the
   * marked-for-death line gets the hidden modifiers of both entries, each
   * once, whether or not the first built-in key also matches.
   */
  lemma LookupTwoBuiltInTexts()
    ensures GetHiddenModsFor(Some(Join(BuiltInWords[2] + BuiltInWords[3], " ")), Some(GetBuiltInMappings())) == Some([HPack, HRarity])
  {
    LookupTwoCore(Join(BuiltInWords[2] + BuiltInWords[3], " "), GetBuiltInMappings(), 2, 3);
  }
}
