/**
 * The hidden-mapping table: entries that say which hidden modifiers a visible
 * modifier text implies, merged by normalised text and looked up by
 * substring containment.
 */
module HiddenMapping {
  import opened Opt
  import opened Text
  import opened Canon
  import opened CiDict

  /** `HiddenMapEntry`: `Match` (here `text`), the visible text to look for, and the hidden modifiers it implies. Either may be null. */
  datatype Entry = Entry(text: Option<string>, hidden: Option<seq<string>>)

  /** `List<HiddenMapEntry>`, whose elements may be null. */
  type Mappings = seq<Option<Entry>>

  /** The canonical hidden labels. */
  const HRare := "# increased Number of Rare Monsters"
  const HMagic := "# increased Number of Magic Monsters"
  const HRarity := "# increased Item Rarity"
  const HWay := "# increased Waystones found"
  const HPack := "# increased Pack Size"

  /** The four built-in `Match` texts, each given as the words it is written with, joined by single spaces. */
  const BuiltInWords: seq<seq<string>> := [
    ["Natural", "Monster", "Packs", "in", "Area", "are", "in", "a", "Union", "of", "Souls"],
    ["Natural", "Rare", "Monsters", "in", "Area", "are", "in", "a", "Union", "of", "Souls", "with", "the", "Map", "Boss"],
    ["Area", "has", "patches", "of", "Mana", "Siphoning", "Ground"],
    ["Players", "are", "Marked", "for", "Death", "for", "10", "seconds", "after", "killing", "a", "Rare", "or", "Unique", "monster"]
  ]

  /** The hidden lists of the four built-in entries. */
  const BuiltInHidden: seq<seq<string>> := [[HPack], [HRare], [HPack], [HRarity, HPack]]

  /** `GetBuiltInMappings()`: the four entries, with `Match` normalised. */
  function GetBuiltInMappings(): (r: Mappings)
    ensures |r| == 4
  {
    [BuiltInAt(0), BuiltInAt(1), BuiltInAt(2), BuiltInAt(3)]
  }

  /** The `i`-th built-in entry: the normalised text of its words and its hidden list. */
  function BuiltInAt(i: nat): Option<Entry>
    requires i < 4
  {
    Some(Entry(Some(Normalize(Join(BuiltInWords[i], " "))), Some(BuiltInHidden[i])))
  }

  /** The merge's working table: normalised key to hidden list, in insertion order. */
  type Table = Dict<seq<string>>

  /** `e.Hidden ?? Enumerable.Empty<string>()`. */
  function HiddenOf(e: Entry): seq<string> {
    if e.hidden.Some? then e.hidden.value else []
  }

  /** An element the merge takes: not null, with a `Match` that is not blank. */
  predicate Usable(m: Option<Entry>) {
    m.Some? && !IsNullOrWhiteSpace(m.value.text)
  }

  /** The key a usable element is merged under. */
  function KeyOf(m: Option<Entry>): string
    requires Usable(m)
  {
    Normalize(m.value.text.value)
  }

  /** `key` is the normalised `Match` of some usable element of `src`. */
  predicate KeyFrom(src: Mappings, key: string) {
    exists i :: 0 <= i < |src| && Usable(src[i]) && key == KeyOf(src[i])
  }

  /** `h` is in the hidden list of some usable element of `src` whose key equals `k` up to case. */
  predicate HiddenFrom(src: Mappings, k: string, h: string) {
    exists i :: 0 <= i < |src| && Usable(src[i]) && EqualsIgnoreCase(KeyOf(src[i]), k) && h in HiddenOf(src[i].value)
  }

  /** The hidden list a key holds after one more element with hidden list `hs`. */
  function Extend(existing: Option<seq<string>>, hs: seq<string>): seq<string> {
    match existing
    case None => hs
    case Some(l) => AppendNew(l, hs)
  }

  /**
   * One step of `AddRange`: skip a null element or a blank `Match`; a new key
   * gets a copy of the element's hidden list; a known key gets the element's
   * hidden strings that it does not hold yet, ignoring case.
   */
  function AddOne(d: Table, m: Option<Entry>): Table {
    if !Usable(m) then d
    else
      var k := KeyOf(m);
      Put(d, k, Extend(Get(d, k), HiddenOf(m.value)))
  }

  /** `AddRange(src)` over a non-null list. */
  function AddRange(d: Table, src: Mappings): Table
    decreases |src|
  {
    if |src| == 0 then d else AddRange(AddOne(d, src[0]), src[1..])
  }

  /** A null list adds nothing. */
  function OrEmpty(src: Option<Mappings>): Mappings {
    if src.None? then [] else src.value
  }

  /** The dictionary `MergeMappings` builds: the base elements, then the user elements. */
  function MergeTable(base: Option<Mappings>, user: Option<Mappings>): Table {
    AddRange(AddRange([], OrEmpty(base)), OrEmpty(user))
  }

  /** `merged.Values.ToList()`: every entry carries its key as `Match` and a non-null hidden list. */
  function Entries(d: Table): (r: Mappings)
    ensures |r| == |d|
    ensures forall i :: 0 <= i < |d| ==> r[i] == Some(Entry(Some(d[i].0), Some(d[i].1)))
  {
    seq(|d|, i requires 0 <= i < |d| => Some(Entry(Some(d[i].0), Some(d[i].1))))
  }

  /** `MergeMappings(baseMappings, userMappings)`. */
  function MergeMappings(base: Option<Mappings>, user: Option<Mappings>): Mappings {
    Entries(MergeTable(base, user))
  }

  // ---------------------------------------------------------------------------
  // One step
  // ---------------------------------------------------------------------------

  /** What a lookup sees after one step: only the element's own key changes, and it is extended. */
  lemma AddOneGet(d: Table, m: Option<Entry>, k: string)
    ensures Get(AddOne(d, m), k) ==
      if Usable(m) && EqualsIgnoreCase(KeyOf(m), k) then Some(Extend(Get(d, k), HiddenOf(m.value)))
      else Get(d, k)
  {
    if Usable(m) {
      var key := KeyOf(m);
      GetPut(d, key, Extend(Get(d, key), HiddenOf(m.value)), k);
      if EqualsIgnoreCase(key, k) {
        GetIgnoresCase(d, key, k);
      }
    }
  }

  /** A step keeps keys distinct up to case; a new key is the element's normalised `Match`. */
  lemma AddOneKeys(d: Table, m: Option<Entry>)
    requires Valid(d)
    ensures Valid(AddOne(d, m))
    ensures Keys(AddOne(d, m)) == Keys(d) || (Usable(m) && Keys(AddOne(d, m)) == Keys(d) + [KeyOf(m)])
  {
    if Usable(m) {
      PutValid(d, KeyOf(m), Extend(Get(d, KeyOf(m)), HiddenOf(m.value)));
    }
  }

  /** A step keeps every hidden list free of duplicates when the element's own list is. */
  lemma AddOneDistinct(d: Table, m: Option<Entry>)
    requires forall j :: 0 <= j < |d| ==> NoDupIgnoreCase(d[j].1)
    requires Usable(m) ==> NoDupIgnoreCase(HiddenOf(m.value))
    ensures forall j :: 0 <= j < |AddOne(d, m)| ==> NoDupIgnoreCase(AddOne(d, m)[j].1)
  {
    if Usable(m) {
      var k := KeyOf(m);
      var hs := HiddenOf(m.value);
      match Find(d, k)
      case Some(i) =>
        assert Get(d, k) == Some(d[i].1);
        AppendNewDistinct(d[i].1, hs);
      case None =>
        assert Get(d, k) == None;
    }
  }

  // ---------------------------------------------------------------------------
  // Whole ranges
  // ---------------------------------------------------------------------------

  /** Adding two lists one after the other is adding their concatenation. */
  lemma {:induction false} AddRangeAppend(d: Table, a: Mappings, b: Mappings)
    ensures AddRange(AddRange(d, a), b) == AddRange(d, a + b)
    decreases |a|
  {
    if |a| == 0 {
      assert a + b == b;
    } else {
      assert (a + b)[1..] == a[1..] + b;
      AddRangeAppend(AddOne(d, a[0]), a[1..], b);
    }
  }

  /** A key that holds a list keeps holding it as a prefix: nothing is removed or reordered. */
  lemma {:induction false} AddRangeGrows(d: Table, src: Mappings, k: string)
    requires Get(d, k).Some?
    ensures Get(AddRange(d, src), k).Some?
    ensures Get(d, k).value <= Get(AddRange(d, src), k).value
    decreases |src|
  {
    if |src| > 0 {
      var d1 := AddOne(d, src[0]);
      AddOneGet(d, src[0], k);
      if Usable(src[0]) && EqualsIgnoreCase(KeyOf(src[0]), k) {
        AppendNewKeepsPrefix(Get(d, k).value, HiddenOf(src[0].value));
      }
      AddRangeGrows(d1, src[1..], k);
    }
  }

  /** Union: every hidden string of every usable element is under that element's key at the end. */
  lemma {:induction false} AddRangeCovers(d: Table, src: Mappings, i: nat, h: string)
    requires i < |src| && Usable(src[i]) && h in HiddenOf(src[i].value)
    ensures Get(AddRange(d, src), KeyOf(src[i])).Some?
    ensures ContainsIgnoreCase(Get(AddRange(d, src), KeyOf(src[i])).value, h)
    decreases |src|
  {
    if i == 0 {
      AddRangeCoversFirst(d, src, h);
    } else {
      TailIndex(src, i);
      AddRangeCovers(AddOne(d, src[0]), src[1..], i - 1, h);
    }
  }

  /** The first element's hidden strings are under its key at the end of the range. */
  lemma AddRangeCoversFirst(d: Table, src: Mappings, h: string)
    requires 0 < |src| && Usable(src[0]) && h in HiddenOf(src[0].value)
    ensures Get(AddRange(d, src), KeyOf(src[0])).Some?
    ensures ContainsIgnoreCase(Get(AddRange(d, src), KeyOf(src[0])).value, h)
  {
    var k := KeyOf(src[0]);
    var d1 := AddOne(d, src[0]);
    AddOneGet(d, src[0], k);
    var l := Get(d1, k).value;
    AppendNewCovers(if Get(d, k).Some? then Get(d, k).value else [], HiddenOf(src[0].value));
    assert ContainsIgnoreCase(l, h) by {
      if Get(d, k).None? {
        var j :| 0 <= j < |l| && l[j] == h;
      }
    }
    AddRangeGrows(d1, src[1..], k);
    var l' := Get(AddRange(d1, src[1..]), k).value;
    var j :| 0 <= j < |l| && Fold(l[j]) == Fold(h);
    assert l'[j] == l[j];
  }

  /** The range split around its `i`-th element. */
  lemma AddRangeAt(d: Table, src: Mappings, i: nat)
    requires i < |src|
    ensures AddRange(d, src) == AddRange(AddOne(AddRange(d, src[..i]), src[i]), src[i + 1..])
  {
    assert src == src[..i] + src[i..];
    AddRangeAppend(d, src[..i], src[i..]);
    assert src[i..][1..] == src[i + 1..];
  }

  /** First seen: an element whose key is new at its turn puts its whole hidden list first. */
  lemma AddRangeFirstSeen(d: Table, src: Mappings, i: nat)
    requires i < |src| && Usable(src[i])
    requires Get(AddRange(d, src[..i]), KeyOf(src[i])).None?
    ensures Get(AddRange(d, src), KeyOf(src[i])).Some?
    ensures HiddenOf(src[i].value) <= Get(AddRange(d, src), KeyOf(src[i])).value
  {
    var k := KeyOf(src[i]);
    var d0 := AddRange(d, src[..i]);
    AddRangeAt(d, src, i);
    AddOneGet(d0, src[i], k);
    AddRangeGrows(AddOne(d0, src[i]), src[i + 1..], k);
  }

  /** Nothing is invented: a hidden string under a key was already there or came from an element with that key. */
  lemma {:induction false} AddRangeSourced(d: Table, src: Mappings, k: string, h: string)
    requires Get(AddRange(d, src), k).Some? && h in Get(AddRange(d, src), k).value
    ensures (Get(d, k).Some? && h in Get(d, k).value) || HiddenFrom(src, k, h)
    decreases |src|
  {
    if |src| > 0 {
      var d1 := AddOne(d, src[0]);
      AddRangeSourced(d1, src[1..], k, h);
      AddOneGet(d, src[0], k);
      if Get(d1, k).Some? && h in Get(d1, k).value {
        if Usable(src[0]) && EqualsIgnoreCase(KeyOf(src[0]), k) {
          AppendNewElements(if Get(d, k).Some? then Get(d, k).value else [], HiddenOf(src[0].value));
        }
      } else {
        var i :| 0 <= i < |src[1..]| && Usable(src[1..][i]) && EqualsIgnoreCase(KeyOf(src[1..][i]), k) && h in HiddenOf(src[1..][i].value);
        assert src[1..][i] == src[i + 1];
        assert HiddenFrom(src, k, h);
      }
    }
  }

  /** Keys stay distinct up to case, and each one is the normalised `Match` of some usable element. */
  lemma {:induction false} AddRangeKeys(d: Table, src: Mappings)
    requires Valid(d)
    ensures Valid(AddRange(d, src))
    ensures forall j :: 0 <= j < |AddRange(d, src)| ==> AddRange(d, src)[j].0 in Keys(d) || KeyFrom(src, AddRange(d, src)[j].0)
    decreases |src|
  {
    if |src| > 0 {
      var d1 := AddOne(d, src[0]);
      AddOneKeys(d, src[0]);
      AddRangeKeys(d1, src[1..]);
      var r := AddRange(d, src);
      forall j | 0 <= j < |r| ensures r[j].0 in Keys(d) || KeyFrom(src, r[j].0) {
        if r[j].0 !in Keys(d1) {
          var i :| 0 <= i < |src[1..]| && Usable(src[1..][i]) && r[j].0 == KeyOf(src[1..][i]);
          assert src[1..][i] == src[i + 1];
        } else if r[j].0 !in Keys(d) {
          assert r[j].0 == KeyOf(src[0]);
        }
      }
    }
  }

  /** Lists free of duplicates stay free of duplicates. */
  lemma {:induction false} AddRangeDistinct(d: Table, src: Mappings)
    requires forall j :: 0 <= j < |d| ==> NoDupIgnoreCase(d[j].1)
    requires forall i :: 0 <= i < |src| && Usable(src[i]) ==> NoDupIgnoreCase(HiddenOf(src[i].value))
    ensures forall j :: 0 <= j < |AddRange(d, src)| ==> NoDupIgnoreCase(AddRange(d, src)[j].1)
    decreases |src|
  {
    if |src| > 0 {
      AddOneDistinct(d, src[0]);
      assert forall i :: 0 <= i < |src[1..]| ==> src[1..][i] == src[i + 1];
      AddRangeDistinct(AddOne(d, src[0]), src[1..]);
    }
  }

  /** Every usable element's key is present at the end. */
  lemma AddRangeHasKey(d: Table, src: Mappings, i: nat)
    requires i < |src| && Usable(src[i])
    ensures Get(AddRange(d, src), KeyOf(src[i])).Some?
  {
    var k := KeyOf(src[i]);
    var d0 := AddRange(d, src[..i]);
    AddRangeAt(d, src, i);
    AddOneGet(d0, src[i], k);
    AddRangeGrows(AddOne(d0, src[i]), src[i + 1..], k);
  }

  // ---------------------------------------------------------------------------
  // MergeMappings
  // ---------------------------------------------------------------------------

  /** The elements the merge reads, in order: the base list, then the user list. */
  function Inputs(base: Option<Mappings>, user: Option<Mappings>): Mappings {
    OrEmpty(base) + OrEmpty(user)
  }

  lemma MergeTableInputs(base: Option<Mappings>, user: Option<Mappings>)
    ensures MergeTable(base, user) == AddRange([], Inputs(base, user))
  {
    AddRangeAppend([], OrEmpty(base), OrEmpty(user));
  }

  /**
   * The merged keys are distinct up to case, each is the normalised `Match` of
   * some usable input, and every usable input's normalised `Match` is a key.
   */
  lemma MergeKeys(base: Option<Mappings>, user: Option<Mappings>)
    ensures Valid(MergeTable(base, user))
    ensures forall j :: 0 <= j < |MergeTable(base, user)| ==> KeyFrom(Inputs(base, user), MergeTable(base, user)[j].0)
    ensures forall i :: 0 <= i < |Inputs(base, user)| && Usable(Inputs(base, user)[i]) ==>
      ContainsKey(MergeTable(base, user), KeyOf(Inputs(base, user)[i]))
  {
    var src := Inputs(base, user);
    MergeTableInputs(base, user);
    var e: Table := [];
    AddRangeKeys(e, src);
    var t := AddRange(e, src);
    assert |Keys(e)| == 0;
    forall i | 0 <= i < |src| && Usable(src[i]) ensures ContainsKey(AddRange([], src), KeyOf(src[i])) {
      AddRangeHasKey([], src, i);
    }
  }

  /** Union, not override: every hidden string of every usable input is under its key, ignoring case. */
  lemma MergeUnion(base: Option<Mappings>, user: Option<Mappings>, i: nat, h: string)
    requires i < |Inputs(base, user)| && Usable(Inputs(base, user)[i])
    requires h in HiddenOf(Inputs(base, user)[i].value)
    ensures Get(MergeTable(base, user), KeyOf(Inputs(base, user)[i])).Some?
    ensures ContainsIgnoreCase(Get(MergeTable(base, user), KeyOf(Inputs(base, user)[i])).value, h)
  {
    MergeTableInputs(base, user);
    AddRangeCovers([], Inputs(base, user), i, h);
  }

  /** Nothing is invented: every merged hidden string comes from an input with that key. */
  lemma MergeSourced(base: Option<Mappings>, user: Option<Mappings>, k: string, h: string)
    requires Get(MergeTable(base, user), k).Some? && h in Get(MergeTable(base, user), k).value
    ensures HiddenFrom(Inputs(base, user), k, h)
  {
    MergeTableInputs(base, user);
    AddRangeSourced([], Inputs(base, user), k, h);
  }

  /** The first input seen with a key gives the start of that key's list, unchanged and in order. */
  lemma MergeFirstSeen(base: Option<Mappings>, user: Option<Mappings>, i: nat)
    requires i < |Inputs(base, user)| && Usable(Inputs(base, user)[i])
    requires forall j :: 0 <= j < i && Usable(Inputs(base, user)[j]) ==>
      !EqualsIgnoreCase(KeyOf(Inputs(base, user)[j]), KeyOf(Inputs(base, user)[i]))
    ensures Get(MergeTable(base, user), KeyOf(Inputs(base, user)[i])).Some?
    ensures HiddenOf(Inputs(base, user)[i].value) <= Get(MergeTable(base, user), KeyOf(Inputs(base, user)[i])).value
  {
    var src := Inputs(base, user);
    var k := KeyOf(src[i]);
    MergeTableInputs(base, user);
    assert Get(AddRange([], src[..i]), k).None? by {
      if Get(AddRange([], src[..i]), k).Some? {
        AddRangeSourcedKey([], src[..i], k);
      }
    }
    AddRangeFirstSeen([], src, i);
  }

  /** A key present after a range is present before it or is the key of one of its usable elements. */
  lemma {:induction false} AddRangeSourcedKey(d: Table, src: Mappings, k: string)
    requires Get(AddRange(d, src), k).Some?
    ensures Get(d, k).Some? || exists i :: 0 <= i < |src| && Usable(src[i]) && EqualsIgnoreCase(KeyOf(src[i]), k)
    decreases |src|
  {
    if |src| > 0 {
      var d1 := AddOne(d, src[0]);
      AddRangeSourcedKey(d1, src[1..], k);
      AddOneGet(d, src[0], k);
      if Get(d1, k).None? || !(Usable(src[0]) && EqualsIgnoreCase(KeyOf(src[0]), k)) {
        if Get(d1, k).None? || Get(d, k).None? {
          if Get(d1, k).None? {
            var i :| 0 <= i < |src[1..]| && Usable(src[1..][i]) && EqualsIgnoreCase(KeyOf(src[1..][i]), k);
            assert src[1..][i] == src[i + 1];
          }
        }
      }
    }
  }

  /** When no input list repeats a string, ignoring case, no merged list does. */
  lemma MergeKeepsDistinct(base: Option<Mappings>, user: Option<Mappings>)
    requires forall i :: 0 <= i < |Inputs(base, user)| && Usable(Inputs(base, user)[i]) ==>
      NoDupIgnoreCase(HiddenOf(Inputs(base, user)[i].value))
    ensures forall j :: 0 <= j < |MergeTable(base, user)| ==> NoDupIgnoreCase(MergeTable(base, user)[j].1)
  {
    MergeTableInputs(base, user);
    AddRangeDistinct([], Inputs(base, user));
  }

  // ---------------------------------------------------------------------------
  // GetHiddenModsFor
  // ---------------------------------------------------------------------------

  /**
   * An element contributes to a lookup of the normalised text `nv` when it is
   * not null, its `Match` is not blank, and `nv` equals or contains that
   * `Match`, ignoring case.
   */
  predicate Hits(nv: string, m: Option<Entry>) {
    m.Some? && !IsNullOrWhiteSpace(m.value.text) &&
    (EqualsIgnoreCase(nv, m.value.text.value) || IsSubstring(Fold(m.value.text.value), Fold(nv)))
  }

  /** The collected `hits`: the hidden lists of the contributing elements, concatenated in table order. */
  function HitList(nv: string, ms: Mappings): seq<string>
    decreases |ms|
  {
    if |ms| == 0 then []
    else (if Hits(nv, ms[0]) then HiddenOf(ms[0].value) else []) + HitList(nv, ms[1..])
  }

  /** `GetHiddenModsFor(visible, mappings)`; `None` is the code's `null`. */
  function GetHiddenModsFor(visible: Option<string>, mappings: Option<Mappings>): Option<seq<string>> {
    if IsNullOrWhiteSpace(visible) || mappings.None? || |mappings.value| == 0 then None
    else
      var nv := Normalize(visible.value);
      if IsBlank(nv) then None
      else
        var hits := HitList(nv, mappings.value);
        if |hits| > 0 then Some(DistinctIgnoreCase(hits)) else None
  }

  /** A hidden string of some element that hits. */
  predicate HitHidden(nv: string, ms: Mappings, h: string) {
    exists i :: 0 <= i < |ms| && Hits(nv, ms[i]) && h in HiddenOf(ms[i].value)
  }

  /** The collected hits are exactly the hidden strings of the elements that hit. */
  lemma {:induction false} HitListSpec(nv: string, ms: Mappings)
    ensures forall h :: h in HitList(nv, ms) <==> HitHidden(nv, ms, h)
    decreases |ms|
  {
    if |ms| > 0 {
      HitListSpec(nv, ms[1..]);
      forall h ensures h in HitList(nv, ms) <==> HitHidden(nv, ms, h) {
        if HitHidden(nv, ms[1..], h) {
          var i :| 0 <= i < |ms[1..]| && Hits(nv, ms[1..][i]) && h in HiddenOf(ms[1..][i].value);
          assert ms[1..][i] == ms[i + 1];
        }
        if HitHidden(nv, ms, h) && !(Hits(nv, ms[0]) && h in HiddenOf(ms[0].value)) {
          var i :| 0 <= i < |ms| && Hits(nv, ms[i]) && h in HiddenOf(ms[i].value);
          assert i > 0 && ms[1..][i - 1] == ms[i];
        }
      }
    }
  }

  /** An exact match is also a contained one: the equality test adds no hits. */
  lemma EqualIsContained(nv: string, m: string)
    requires EqualsIgnoreCase(nv, m)
    ensures IsSubstring(Fold(m), Fold(nv))
  {
    assert OccursAt(Fold(m), Fold(nv), 0);
  }

  /**
   * The lookup gives `null` exactly when the text is blank, the table is null
   * or empty, the normalised text is blank, or no element that hits has a
   * hidden string. Otherwise it gives every hidden string of every element
   * that hits, once up to case, and nothing else.
   */
  lemma GetHiddenModsForSpec(visible: Option<string>, mappings: Option<Mappings>)
    ensures GetHiddenModsFor(visible, mappings).None? <==>
      IsNullOrWhiteSpace(visible) || mappings.None? || |mappings.value| == 0 ||
      IsBlank(Normalize(visible.value)) ||
      forall h :: !HitHidden(Normalize(visible.value), mappings.value, h)
    ensures GetHiddenModsFor(visible, mappings).Some? ==>
      var r := GetHiddenModsFor(visible, mappings).value;
      var nv := Normalize(visible.value);
      && NoDupIgnoreCase(r)
      && (forall h :: h in r ==> HitHidden(nv, mappings.value, h))
      && (forall h :: HitHidden(nv, mappings.value, h) ==> ContainsIgnoreCase(r, h))
  {
    if !(IsNullOrWhiteSpace(visible) || mappings.None? || |mappings.value| == 0 || IsBlank(Normalize(visible.value))) {
      var nv := Normalize(visible.value);
      var hits := HitList(nv, mappings.value);
      HitListSpec(nv, mappings.value);
      DistinctIgnoreCaseSpec(hits);
      if |hits| == 0 {
        assert forall h :: !HitHidden(nv, mappings.value, h);
      } else {
        assert HitHidden(nv, mappings.value, hits[0]);
      }
    }
  }

  // ---------------------------------------------------------------------------
  // Known visible and hidden modifiers
  // ---------------------------------------------------------------------------

  /** No element is null; reading `m.Match` or `m.Hidden` of a null element throws. */
  predicate NoNullElement(ms: Mappings) {
    forall i :: 0 <= i < |ms| ==> ms[i].Some?
  }

  /** The non-null `Match` values, in table order. */
  function PresentTexts(ms: Mappings): (r: seq<string>)
    requires NoNullElement(ms)
    ensures forall x :: x in r <==> exists i :: 0 <= i < |ms| && ms[i].value.text == Some(x)
    decreases |ms|
  {
    if |ms| == 0 then []
    else
      var rest := PresentTexts(ms[1..]);
      assert forall i :: 0 <= i < |ms[1..]| ==> ms[1..][i] == ms[i + 1];
      (if ms[0].value.text.Some? then [ms[0].value.text.value] else []) + rest
  }

  /** `SelectMany(m => m.Hidden ?? Enumerable.Empty<string>())`. */
  function AllHidden(ms: Mappings): (r: seq<string>)
    requires NoNullElement(ms)
    ensures forall x :: x in r <==> exists i :: 0 <= i < |ms| && x in HiddenOf(ms[i].value)
    decreases |ms|
  {
    if |ms| == 0 then []
    else
      var rest := AllHidden(ms[1..]);
      assert forall i :: 0 <= i < |ms[1..]| ==> ms[1..][i] == ms[i + 1];
      HiddenOf(ms[0].value) + rest
  }

  /** Some element has a null `Match`. */
  predicate SomeNullText(ms: Mappings)
    requires NoNullElement(ms)
  {
    exists i :: 0 <= i < |ms| && ms[i].value.text.None?
  }

  /** Wraps each name as a non-null string. */
  function Present(xs: seq<string>): (r: seq<Option<string>>)
    ensures |r| == |xs| && forall i :: 0 <= i < |xs| ==> r[i] == Some(xs[i])
  {
    seq(|xs|, i requires 0 <= i < |xs| => Some(xs[i]))
  }

  /**
   * `GetAllKnownVisibleMods`: the `Match` values, distinct up to case and
   * sorted, with one `null` first when some `Match` is null. `None` stands for
   * the exception a null element raises; a null table gives an empty list.
   */
  function GetAllKnownVisibleMods(mappings: Option<Mappings>): Option<seq<Option<string>>> {
    if mappings.None? then Some([])
    else if !NoNullElement(mappings.value) then None
    else
      var ms := mappings.value;
      var nulls: seq<Option<string>> := if SomeNullText(ms) then [None] else [];
      Some(nulls + Present(Sort(DistinctIgnoreCase(PresentTexts(ms)))))
  }

  /** `GetAllKnownHiddenMods`: every hidden string, distinct up to case and sorted. */
  function GetAllKnownHiddenMods(mappings: Option<Mappings>): Option<seq<string>> {
    if mappings.None? then Some([])
    else if !NoNullElement(mappings.value) then None
    else Some(Sort(DistinctIgnoreCase(AllHidden(mappings.value))))
  }

  /** Sorting the case-insensitive distinct list keeps it distinct and keeps its members. */
  lemma SortedDistinct(xs: seq<string>)
    ensures Sorted(Sort(DistinctIgnoreCase(xs)))
    ensures NoDupIgnoreCase(Sort(DistinctIgnoreCase(xs)))
    ensures forall y :: y in Sort(DistinctIgnoreCase(xs)) ==> y in xs
    ensures forall x :: x in xs ==> ContainsIgnoreCase(Sort(DistinctIgnoreCase(xs)), x)
  {
    var d := DistinctIgnoreCase(xs);
    var r := Sort(d);
    DistinctIgnoreCaseSpec(xs);
    PermutedNoDup(d, r);
    forall y | y in r ensures y in d {
      assert y in multiset(r);
    }
    forall x | x in xs ensures ContainsIgnoreCase(r, x) {
      var i :| 0 <= i < |d| && Fold(d[i]) == Fold(x);
      assert d[i] in multiset(d);
      var j :| 0 <= j < |r| && r[j] == d[i];
    }
  }

  /** 1 when the listing `r` starts with `null`, else 0: where its names begin. */
  function NullPrefix(r: seq<Option<string>>): nat {
    if |r| > 0 && r[0].None? then 1 else 0
  }

  /** From position `k` on, every element of `r` is the `Match` of some mapping. */
  predicate ListedFrom(ms: Mappings, r: seq<Option<string>>, k: nat)
    requires NoNullElement(ms)
  {
    forall i :: k <= i < |r| ==> r[i].Some? && exists j :: 0 <= j < |ms| && ms[j].value.text == r[i]
  }

  /** From position `k` on, `r` is sorted and has no two names equal up to case. */
  predicate ListedInOrder(r: seq<Option<string>>, k: nat) {
    forall i, j :: k <= i < j < |r| ==> r[i].Some? && r[j].Some? && LessEq(r[i].value, r[j].value) && !EqualsIgnoreCase(r[i].value, r[j].value)
  }

  /** Every non-null `Match` equals, up to case, a name of `r` from position `k` on. */
  predicate ListedAll(ms: Mappings, r: seq<Option<string>>, k: nat)
    requires NoNullElement(ms)
  {
    forall j :: 0 <= j < |ms| && ms[j].value.text.Some? ==>
      exists i :: k <= i < |r| && r[i].Some? && EqualsIgnoreCase(r[i].value, ms[j].value.text.value)
  }

  /**
   * What the known visible list of `ms` promises: one leading `null` exactly
   * when some `Match` is null, then the `Match` values, sorted, distinct up to
   * case, and covering every one of them.
   */
  predicate KnownListing(ms: Mappings, r: seq<Option<string>>)
    requires NoNullElement(ms)
  {
    var k := NullPrefix(r);
    && (k == 1 <==> SomeNullText(ms))
    && ListedFrom(ms, r, k) && ListedInOrder(r, k) && ListedAll(ms, r, k)
  }

  /** The known visible list exists exactly when no element is null, and is then a `KnownListing`. */
  lemma KnownVisibleSpec(mappings: Option<Mappings>)
    ensures GetAllKnownVisibleMods(mappings).Some? <==> mappings.None? || NoNullElement(mappings.value)
    ensures mappings.Some? && NoNullElement(mappings.value) ==>
      KnownListing(mappings.value, GetAllKnownVisibleMods(mappings).value)
  {
    if mappings.Some? && NoNullElement(mappings.value) {
      var ms := mappings.value;
      var texts := PresentTexts(ms);
      var names := Sort(DistinctIgnoreCase(texts));
      SortedDistinct(texts);
      var nulls: seq<Option<string>> := if SomeNullText(ms) then [None] else [];
      var r := GetAllKnownVisibleMods(mappings).value;
      assert r == nulls + Present(names);
      NamesOfTexts(ms, texts, names);
      ListingSpec(ms, names, nulls, r);
    }
  }

  /** Names drawn from, and covering, the non-null `Match` values, stated mapping by mapping. */
  lemma NamesOfTexts(ms: Mappings, texts: seq<string>, names: seq<string>)
    requires NoNullElement(ms) && texts == PresentTexts(ms)
    requires forall y :: y in names ==> y in texts
    requires forall x :: x in texts ==> ContainsIgnoreCase(names, x)
    ensures forall y :: y in names ==> exists j :: 0 <= j < |ms| && ms[j].value.text == Some(y)
    ensures forall j :: 0 <= j < |ms| && ms[j].value.text.Some? ==> ContainsIgnoreCase(names, ms[j].value.text.value)
  {
    forall j | 0 <= j < |ms| && ms[j].value.text.Some? ensures ContainsIgnoreCase(names, ms[j].value.text.value) {
      assert ms[j].value.text.value in texts;
    }
  }

  /** The list `nulls + names` is a `KnownListing` of `ms` when `names` are sorted, distinct, drawn from and covering the `Match` values. */
  lemma ListingSpec(ms: Mappings, names: seq<string>, nulls: seq<Option<string>>, r: seq<Option<string>>)
    requires NoNullElement(ms) && (nulls == [] || nulls == [None]) && r == nulls + Present(names)
    requires nulls == [None] <==> SomeNullText(ms)
    requires Sorted(names) && NoDupIgnoreCase(names)
    requires forall y :: y in names ==> exists j :: 0 <= j < |ms| && ms[j].value.text == Some(y)
    requires forall j :: 0 <= j < |ms| && ms[j].value.text.Some? ==> ContainsIgnoreCase(names, ms[j].value.text.value)
    ensures KnownListing(ms, r)
  {
    ListingShape(nulls, names);
    ListingSourced(ms, names, nulls);
    ListingOrdered(names, nulls);
    ListingCovers(ms, names, nulls);
  }

  lemma ListingSourced(ms: Mappings, names: seq<string>, nulls: seq<Option<string>>)
    requires NoNullElement(ms) && (nulls == [] || nulls == [None])
    requires forall y :: y in names ==> exists j :: 0 <= j < |ms| && ms[j].value.text == Some(y)
    ensures ListedFrom(ms, nulls + Present(names), |nulls|)
  {
    var r, k := nulls + Present(names), |nulls|;
    ListingShape(nulls, names);
    forall i | k <= i < |r| ensures r[i].Some? && exists j :: 0 <= j < |ms| && ms[j].value.text == r[i] {
      assert names[i - k] in names;
    }
  }

  lemma ListingOrdered(names: seq<string>, nulls: seq<Option<string>>)
    requires nulls == [] || nulls == [None]
    requires Sorted(names) && NoDupIgnoreCase(names)
    ensures ListedInOrder(nulls + Present(names), |nulls|)
  {
    var r, k := nulls + Present(names), |nulls|;
    ListingShape(nulls, names);
    forall i, j | k <= i < j < |r|
      ensures r[i].Some? && r[j].Some? && LessEq(r[i].value, r[j].value) && !EqualsIgnoreCase(r[i].value, r[j].value)
    {
      var a, b := names[i - k], names[j - k];
      assert r[i] == Some(a) && r[j] == Some(b);
      assert LessEq(a, b) && Fold(a) != Fold(b);
    }
  }

  lemma ListingCovers(ms: Mappings, names: seq<string>, nulls: seq<Option<string>>)
    requires NoNullElement(ms) && (nulls == [] || nulls == [None])
    requires forall j :: 0 <= j < |ms| && ms[j].value.text.Some? ==> ContainsIgnoreCase(names, ms[j].value.text.value)
    ensures ListedAll(ms, nulls + Present(names), |nulls|)
  {
    var r, k := nulls + Present(names), |nulls|;
    ListingShape(nulls, names);
    forall j | 0 <= j < |ms| && ms[j].value.text.Some?
      ensures exists i :: k <= i < |r| && r[i].Some? && EqualsIgnoreCase(r[i].value, ms[j].value.text.value)
    {
      var i :| 0 <= i < |names| && Fold(names[i]) == Fold(ms[j].value.text.value);
      assert r[i + k] == Some(names[i]);
    }
  }

  lemma ListingShape(nulls: seq<Option<string>>, names: seq<string>)
    requires nulls == [] || nulls == [None]
    ensures |nulls + Present(names)| == |nulls| + |names|
    ensures |nulls| == NullPrefix(nulls + Present(names))
    ensures forall i :: |nulls| <= i < |nulls| + |names| ==> (nulls + Present(names))[i] == Some(names[i - |nulls|])
  {
  }

  /**
   * The known hidden list exists exactly when no element is null, and is then
   * sorted, distinct up to case, made of hidden strings, and covers all of them.
   */
  lemma KnownHiddenSpec(mappings: Option<Mappings>)
    ensures GetAllKnownHiddenMods(mappings).Some? <==> mappings.None? || NoNullElement(mappings.value)
    ensures mappings.Some? && NoNullElement(mappings.value) ==>
      var r := GetAllKnownHiddenMods(mappings).value;
      var ms := mappings.value;
      && Sorted(r) && NoDupIgnoreCase(r)
      && (forall y :: y in r ==> exists i :: 0 <= i < |ms| && y in HiddenOf(ms[i].value))
      && (forall i, h :: 0 <= i < |ms| && h in HiddenOf(ms[i].value) ==> ContainsIgnoreCase(r, h))
  {
    if mappings.Some? && NoNullElement(mappings.value) {
      SortedDistinct(AllHidden(mappings.value));
    }
  }
}
