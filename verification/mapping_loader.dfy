/**
 * `HiddenMappingLoader`: reads the seeds and user mapping files, cleans
 * their entries, layers them over the built-in table, and imports or exports
 * the user file.
 *
 * File access is abstracted: a read is given as a `FileRead`, and whether a
 * write succeeded or an exception escaped is given as a flag.
 */
module MappingLoader {
  import opened Opt
  import opened Text
  import opened Canon
  import opened CanonFacts
  import opened CiDict
  import opened HiddenMapping
  import opened BuiltInTable

  /** `HiddenMap`: the document's `Schema` and its `Mappings` list, which may be null. */
  datatype HiddenMap = HiddenMap(schema: int, mappings: Option<Mappings>)

  /** What reading one mapping file gave. */
  datatype FileRead =
    | Missing                                /* `File.Exists` is false */
    | Unreadable                             /* reading or deserialising threw */
    | Parsed(content: Option<HiddenMap>)     /* the document; `None` for a JSON `null` */

  /** The loader's state, `_currentMappings`. */
  datatype Loader = Loader(current: Mappings)

  // ---------------------------------------------------------------------------
  // Cleaning the entries of a file
  // ---------------------------------------------------------------------------

  /** `.Where(h => !string.IsNullOrWhiteSpace(h))`. */
  function NonBlank(xs: seq<string>): (r: seq<string>)
    ensures |r| <= |xs|
    ensures forall x :: x in r <==> x in xs && !IsBlank(x)
  {
    if |xs| == 0 then []
    else (if IsBlank(xs[0]) then [] else [xs[0]]) + NonBlank(xs[1..])
  }

  /** The hidden list a file entry is kept with: blanks dropped, then first occurrences up to case. */
  function CleanHidden(hidden: Option<seq<string>>): seq<string> {
    DistinctIgnoreCase(NonBlank(if hidden.Some? then hidden.value else []))
  }

  /** A kept file entry: `Match` normalised, hidden list cleaned. */
  function CleanEntry(m: Option<Entry>): Option<Entry>
    requires Usable(m)
  {
    Some(Entry(Some(Normalize(m.value.text.value)), Some(CleanHidden(m.value.hidden))))
  }

  /** The loop of `LoadMappingFile`: null elements and blank `Match` texts are skipped. */
  function CleanEntries(ms: Mappings): (r: Mappings)
    ensures |r| <= |ms|
  {
    if |ms| == 0 then []
    else (if Usable(ms[0]) then [CleanEntry(ms[0])] else []) + CleanEntries(ms[1..])
  }

  /** `LoadMappingFile(path)`: any failure, a null document or a null or empty list gives no entries. */
  function LoadMappingFile(f: FileRead): Mappings {
    match f
    case Parsed(Some(HiddenMap(_, Some(ms)))) => if |ms| == 0 then [] else CleanEntries(ms)
    case _ => []
  }

  /** The cleaned hidden list holds every non-blank string of the input once up to case, and nothing else. */
  lemma CleanHiddenSpec(hidden: Option<seq<string>>)
    ensures NoDupIgnoreCase(CleanHidden(hidden))
    ensures forall h :: h in CleanHidden(hidden) ==> hidden.Some? && h in hidden.value && !IsBlank(h)
    ensures forall h :: hidden.Some? && h in hidden.value && !IsBlank(h) ==> ContainsIgnoreCase(CleanHidden(hidden), h)
  {
    DistinctIgnoreCaseSpec(NonBlank(if hidden.Some? then hidden.value else []));
  }

  /** A non-blank list keeps its strings under `NonBlank`. */
  lemma {:induction false} NonBlankOfNonBlank(xs: seq<string>)
    requires forall i :: 0 <= i < |xs| ==> !IsBlank(xs[i])
    ensures NonBlank(xs) == xs
  {
    if |xs| > 0 {
      NonBlankOfNonBlank(xs[1..]);
    }
  }

  /** Cleaning a cleaned hidden list changes nothing. */
  lemma CleanHiddenTwice(hidden: Option<seq<string>>)
    ensures CleanHidden(Some(CleanHidden(hidden))) == CleanHidden(hidden)
  {
    var c := CleanHidden(hidden);
    CleanHiddenSpec(hidden);
    NonBlankOfNonBlank(c);
    DistinctOfDistinct(c);
  }

  /** Usable elements of a list. */
  function CountUsable(ms: Mappings): nat {
    if |ms| == 0 then 0 else (if Usable(ms[0]) then 1 else 0) + CountUsable(ms[1..])
  }

  /** `e` is the cleaned form of some usable element of `ms`. */
  predicate KeptFrom(ms: Mappings, e: Option<Entry>) {
    exists i :: 0 <= i < |ms| && Usable(ms[i]) && e == CleanEntry(ms[i])
  }

  /** One kept entry per usable element. */
  lemma {:induction false} CleanEntriesCount(ms: Mappings)
    ensures |CleanEntries(ms)| == CountUsable(ms)
  {
    if |ms| > 0 {
      CleanEntriesCount(ms[1..]);
    }
  }

  /** Every kept entry is the cleaned form of a usable element. */
  lemma {:induction false} CleanEntriesSourced(ms: Mappings)
    ensures forall k :: 0 <= k < |CleanEntries(ms)| ==> KeptFrom(ms, CleanEntries(ms)[k])
  {
    if |ms| > 0 {
      CleanEntriesSourced(ms[1..]);
      var rest := CleanEntries(ms[1..]);
      forall k | 0 <= k < |rest| ensures KeptFrom(ms, rest[k]) {
        KeptFromTail(ms, rest[k]);
      }
    }
  }

  lemma KeptFromTail(ms: Mappings, e: Option<Entry>)
    requires |ms| > 0 && KeptFrom(ms[1..], e)
    ensures KeptFrom(ms, e)
  {
    var i :| 0 <= i < |ms[1..]| && Usable(ms[1..][i]) && e == CleanEntry(ms[1..][i]);
    assert ms[1..][i] == ms[i + 1];
  }

  /** Every usable element is kept, in cleaned form. */
  lemma {:induction false} CleanEntriesCovers(ms: Mappings)
    ensures forall i :: 0 <= i < |ms| && Usable(ms[i]) ==> CleanEntry(ms[i]) in CleanEntries(ms)
  {
    if |ms| > 0 {
      CleanEntriesCovers(ms[1..]);
      forall i | 0 <= i < |ms| && Usable(ms[i]) ensures CleanEntry(ms[i]) in CleanEntries(ms) {
        if i > 0 {
          assert ms[1..][i - 1] == ms[i];
        }
      }
    }
  }

  /** A read that fails or finds a null document, or a null or empty list. */
  predicate EmptyRead(f: FileRead) {
    || f.Missing? || f.Unreadable? || f == Parsed(None)
    || (f.Parsed? && f.content.Some? && (f.content.value.mappings.None? || f.content.value.mappings == Some([])))
  }

  /** The read failures and the empty documents give no entries; anything else is cleaned. */
  lemma LoadMappingFileEmpty(f: FileRead)
    ensures EmptyRead(f) ==> LoadMappingFile(f) == []
    ensures LoadMappingFile(f) != [] ==>
      (f.Parsed? && f.content.Some? && f.content.value.mappings.Some? &&
       LoadMappingFile(f) == CleanEntries(f.content.value.mappings.value))
  {
  }

  // ---------------------------------------------------------------------------
  // Layering
  // ---------------------------------------------------------------------------

  /**
   * `LoadMappings()`: the built-ins, then the seeds, then the user file. When
   * an exception escapes (`thrown`), the current table is kept unless it is
   * empty, in which case the built-ins are installed.
   */
  function LoadMappings(l: Loader, seeds: FileRead, user: FileRead, thrown: bool): Loader {
    if thrown then
      if |l.current| == 0 then Loader(GetBuiltInMappings()) else l
    else
      var merged := MergeMappings(Some(GetBuiltInMappings()), Some(LoadMappingFile(seeds)));
      Loader(MergeMappings(Some(merged), Some(LoadMappingFile(user))))
  }

  /** Some element of `ms` has `Match` equal to `k` up to case. */
  predicate HasKey(ms: Mappings, k: string) {
    exists j :: 0 <= j < |ms| && ms[j].Some? && ms[j].value.text.Some? && EqualsIgnoreCase(ms[j].value.text.value, k)
  }

  /** `ms` has an element whose `Match` is exactly `k`. */
  predicate HasExactKey(ms: Mappings, k: string) {
    exists j :: 0 <= j < |ms| && ms[j].Some? && ms[j].value.text == Some(k)
  }

  /** All four built-in keys are present. */
  predicate HasBuiltIns(ms: Mappings) {
    forall i :: 0 <= i < 4 ==> HasExactKey(ms, BuiltInKey(i))
  }

  /** A string holding a character that is not white space is not blank. */
  lemma NotBlankOf(s: string, c: char)
    requires c in s && !IsWhite(c)
    ensures !IsBlank(s)
  {
  }

  lemma NotBlank0() ensures !IsBlank(BuiltInKey(0)) { Key1Chars(); NotBlankOf(BuiltInKey(0), 'k'); }
  lemma NotBlank1() ensures !IsBlank(BuiltInKey(1)) { Key2HasW(); NotBlankOf(BuiltInKey(1), 'w'); }
  lemma NotBlank2() ensures !IsBlank(BuiltInKey(2)) { Key3HasA(); NotBlankOf(BuiltInKey(2), 'a'); }
  lemma NotBlank3() ensures !IsBlank(BuiltInKey(3)) { Key4Chars(); NotBlankOf(BuiltInKey(3), '#'); }

  /** Each built-in key holds a character that is not white space. */
  lemma KeyNotBlank(i: nat)
    requires i < 4
    ensures !IsBlank(BuiltInKey(i))
  {
    if i == 0 {
      NotBlank0();
    } else if i == 1 {
      NotBlank1();
    } else if i == 2 {
      NotBlank2();
    } else {
      NotBlank3();
    }
  }

  lemma UsableOfKey(m: Option<Entry>, k: string)
    requires m.Some? && m.value.text == Some(k) && !IsBlank(k) && Normalize(k) == k
    ensures Usable(m) && KeyOf(m) == k
  {
  }

  /** The built-in entries are usable, under their own keys. */
  lemma BuiltInUsable(i: nat)
    requires i < 4
    ensures Usable(GetBuiltInMappings()[i]) && KeyOf(GetBuiltInMappings()[i]) == BuiltInKey(i)
  {
    EntryAt(i);
    KeyNotBlank(i);
    UsableOfKey(GetBuiltInMappings()[i], BuiltInKey(i));
  }

  /** Two lower-case strings equal up to case are equal. */
  lemma LowerEqual(a: string, b: string)
    requires Fold(a) == a && Fold(b) == b && EqualsIgnoreCase(a, b)
    ensures a == b
  {
  }

  /** In a table whose keys are all normalised texts, a lower-case key that is present is present verbatim. */
  lemma ExactIn(t: Table, src: Mappings, k: string)
    requires ContainsKey(t, k) && Fold(k) == k
    requires forall j :: 0 <= j < |t| ==> KeyFrom(src, t[j].0)
    ensures exists j :: 0 <= j < |t| && t[j].0 == k
  {
    var j := Find(t, k).value;
    assert KeyFrom(src, t[j].0);
    var n :| 0 <= n < |src| && Usable(src[n]) && t[j].0 == KeyOf(src[n]);
    FoldOfNormalized(src[n].value.text.value);
    LowerEqual(t[j].0, k);
  }

  /** The key of a usable input appears verbatim in the merge. */
  lemma MergeHasExact(base: Option<Mappings>, user: Option<Mappings>, i: nat)
    requires i < |Inputs(base, user)| && Usable(Inputs(base, user)[i])
    ensures HasExactKey(MergeMappings(base, user), KeyOf(Inputs(base, user)[i]))
  {
    var src := Inputs(base, user);
    var t := MergeTable(base, user);
    var k := KeyOf(src[i]);
    MergeKeys(base, user);
    FoldOfNormalized(src[i].value.text.value);
    ExactIn(t, src, k);
    var j :| 0 <= j < |t| && t[j].0 == k;
    EntriesExact(t, j);
  }

  /** Every key of a table is the `Match` of its entry. */
  lemma EntriesExact(t: Table, j: nat)
    requires j < |t|
    ensures HasExactKey(Entries(t), t[j].0)
  {
    assert Entries(t)[j].value.text == Some(t[j].0);
  }

  /** An element with exactly the key `k` that is usable and normal keeps `k` present through a merge in front of anything. */
  lemma MergeKeepsExact(ms: Mappings, user: Option<Mappings>, k: string)
    requires HasExactKey(ms, k) && !IsBlank(k) && Normalize(k) == k
    ensures HasExactKey(MergeMappings(Some(ms), user), k)
  {
    var j :| 0 <= j < |ms| && ms[j].Some? && ms[j].value.text == Some(k);
    assert Inputs(Some(ms), user)[j] == ms[j];
    MergeHasExact(Some(ms), user, j);
  }

  /** A load that completes installs a table holding every built-in key, whatever the files hold. */
  lemma LoadKeepsBuiltIns(l: Loader, seeds: FileRead, user: FileRead)
    ensures HasBuiltIns(LoadMappings(l, seeds, user, false).current)
  {
    var b := GetBuiltInMappings();
    var merged := MergeMappings(Some(b), Some(LoadMappingFile(seeds)));
    forall i | 0 <= i < 4 ensures HasExactKey(LoadMappings(l, seeds, user, false).current, BuiltInKey(i)) {
      BuiltInUsable(i);
      EntryAt(i);
      assert Inputs(Some(b), Some(LoadMappingFile(seeds)))[i] == b[i];
      MergeHasExact(Some(b), Some(LoadMappingFile(seeds)), i);
      MergeKeepsExact(merged, Some(LoadMappingFile(user)), BuiltInKey(i));
    }
  }

  /** The built-in table holds its own keys. */
  lemma BuiltInsHaveKeys()
    ensures HasBuiltIns(GetBuiltInMappings())
  {
    forall i | 0 <= i < 4 ensures HasExactKey(GetBuiltInMappings(), BuiltInKey(i)) {
      EntryAt(i);
    }
  }

  /**
   * Whatever happens, after `LoadMappings` the table is not empty and holds
   * every built-in key, provided it was empty or held them before.
   */
  lemma LoadMappingsInvariant(l: Loader, seeds: FileRead, user: FileRead, thrown: bool)
    requires |l.current| == 0 || HasBuiltIns(l.current)
    ensures |LoadMappings(l, seeds, user, thrown).current| > 0
    ensures HasBuiltIns(LoadMappings(l, seeds, user, thrown).current)
  {
    var r := LoadMappings(l, seeds, user, thrown).current;
    if thrown {
      if |l.current| == 0 {
        BuiltInsHaveKeys();
      }
    } else {
      LoadKeepsBuiltIns(l, seeds, user);
    }
    assert HasExactKey(r, BuiltInKey(0));
  }
}
