/**
 * `HiddenMappingLoader.ExportCurrentMappings`: writes the current table to
 * the user file, each hidden list de-duplicated up to case.
 */
module MappingExport {
  import opened Opt
  import opened Text
  import opened HiddenMapping
  import opened BuiltInTable
  import opened MappingLoader

  /** The exported form of one entry: `Match` as it is, hidden list (null read as empty) de-duplicated up to case. */
  function ExportEntry(e: Entry): Option<Entry> {
    Some(Entry(e.text, Some(DistinctIgnoreCase(HiddenOf(e)))))
  }

  function ExportEntries(ms: Mappings): (r: Mappings)
    requires NoNullElement(ms)
    ensures |r| == |ms| && forall i :: 0 <= i < |ms| ==> r[i] == ExportEntry(ms[i].value)
    decreases |ms|
  {
    if |ms| == 0 then [] else [ExportEntry(ms[0].value)] + ExportEntries(ms[1..])
  }

  /**
   * The document `ExportCurrentMappings` writes, schema 2. A null element
   * makes reading `e.Match` throw; the exception is caught and nothing is
   * written, which is `None` here.
   */
  function ExportCurrentMappings(l: Loader): Option<HiddenMap> {
    if !NoNullElement(l.current) then None
    else Some(HiddenMap(2, Some(ExportEntries(l.current))))
  }

  /**
   * The export is written exactly when no element is null; it then has one
   * entry per element, in order, with the same `Match`, and a hidden list that
   * is distinct up to case, drawn from the element's list, and covering it.
   */
  lemma ExportSpec(l: Loader)
    ensures ExportCurrentMappings(l).Some? <==> NoNullElement(l.current)
    ensures ExportCurrentMappings(l).Some? ==>
      var doc := ExportCurrentMappings(l).value;
      var ms := l.current;
      && doc.schema == 2 && doc.mappings.Some? && |doc.mappings.value| == |ms|
      && forall i :: 0 <= i < |ms| ==>
        && doc.mappings.value[i].Some? && doc.mappings.value[i].value.text == ms[i].value.text
        && doc.mappings.value[i].value.hidden.Some?
        && var hs := doc.mappings.value[i].value.hidden.value;
        && NoDupIgnoreCase(hs)
        && (forall h :: h in hs ==> h in HiddenOf(ms[i].value))
        && (forall h :: h in HiddenOf(ms[i].value) ==> ContainsIgnoreCase(hs, h))
  {
    if NoNullElement(l.current) {
      forall i | 0 <= i < |l.current| ensures
        var hs := DistinctIgnoreCase(HiddenOf(l.current[i].value));
        && NoDupIgnoreCase(hs)
        && (forall h :: h in hs ==> h in HiddenOf(l.current[i].value))
        && (forall h :: h in HiddenOf(l.current[i].value) ==> ContainsIgnoreCase(hs, h))
      {
        DistinctIgnoreCaseSpec(HiddenOf(l.current[i].value));
      }
    }
  }

  /** Every element is present, with a hidden list free of repeats up to case. */
  predicate DistinctTable(ms: Mappings) {
    forall i :: 0 <= i < |ms| ==> ms[i].Some? && ms[i].value.hidden.Some? && NoDupIgnoreCase(ms[i].value.hidden.value)
  }

  /** A table whose lists are already distinct is exported as it is. */
  lemma ExportOfDistinct(l: Loader)
    requires DistinctTable(l.current)
    ensures ExportCurrentMappings(l) == Some(HiddenMap(2, Some(l.current)))
  {
    forall i | 0 <= i < |l.current| ensures ExportEntry(l.current[i].value) == l.current[i] {
      DistinctOfDistinct(l.current[i].value.hidden.value);
    }
    assert ExportEntries(l.current) == l.current;
  }

  /** The merge gives every key a list, and the lists are distinct when the inputs' lists are. */
  lemma MergeDistinctTable(base: Option<Mappings>, user: Option<Mappings>)
    requires forall i :: 0 <= i < |Inputs(base, user)| && Usable(Inputs(base, user)[i]) ==>
      NoDupIgnoreCase(HiddenOf(Inputs(base, user)[i].value))
    ensures DistinctTable(MergeMappings(base, user))
  {
    MergeKeepsDistinct(base, user);
  }

  /** Entries kept from a file have distinct hidden lists. */
  lemma LoadedFileDistinct(f: FileRead)
    ensures forall i :: 0 <= i < |LoadMappingFile(f)| && Usable(LoadMappingFile(f)[i]) ==>
      NoDupIgnoreCase(HiddenOf(LoadMappingFile(f)[i].value))
  {
    var ms := LoadMappingFile(f);
    if f.Parsed? && f.content.Some? && f.content.value.mappings.Some? {
      var src := f.content.value.mappings.value;
      CleanEntriesSourced(src);
      forall i | 0 <= i < |ms| && Usable(ms[i]) ensures NoDupIgnoreCase(HiddenOf(ms[i].value)) {
        var j :| 0 <= j < |src| && Usable(src[j]) && ms[i] == CleanEntry(src[j]);
        CleanHiddenSpec(src[j].value.hidden);
      }
    }
  }

  /** The built-in hidden lists have no repeats. */
  lemma BuiltInDistinct(i: nat)
    requires i < 4
    ensures GetBuiltInMappings()[i].Some? && NoDupIgnoreCase(HiddenOf(GetBuiltInMappings()[i].value))
  {
    EntryAt(i);
    HiddenListDistinct(i);
  }

  /** Each built-in hidden list has no two entries equal up to case. */
  lemma HiddenListDistinct(i: nat)
    requires i < 4
    ensures NoDupIgnoreCase(BuiltInHidden[i])
  {
    if i == 3 {
      LengthsDiffer(HRarity, HPack);
    }
  }

  /** Two lists that each meet a property meet it together. */
  lemma InputsDistinct(a: Mappings, b: Mappings)
    requires forall i :: 0 <= i < |a| && Usable(a[i]) ==> NoDupIgnoreCase(HiddenOf(a[i].value))
    requires forall i :: 0 <= i < |b| && Usable(b[i]) ==> NoDupIgnoreCase(HiddenOf(b[i].value))
    ensures forall i :: 0 <= i < |Inputs(Some(a), Some(b))| && Usable(Inputs(Some(a), Some(b))[i]) ==>
      NoDupIgnoreCase(HiddenOf(Inputs(Some(a), Some(b))[i].value))
  {
    forall i | 0 <= i < |Inputs(Some(a), Some(b))| && Usable(Inputs(Some(a), Some(b))[i])
      ensures NoDupIgnoreCase(HiddenOf(Inputs(Some(a), Some(b))[i].value))
    {
      if i >= |a| {
        assert Inputs(Some(a), Some(b))[i] == b[i - |a|];
      }
    }
  }

  /**
   * Export after a load that completes writes back the loaded table exactly:
   * every merged list is already distinct up to case.
   */
  lemma ExportOfLoaded(l: Loader, seeds: FileRead, user: FileRead)
    ensures var loaded := LoadMappings(l, seeds, user, false);
      ExportCurrentMappings(loaded) == Some(HiddenMap(2, Some(loaded.current)))
  {
    var b := GetBuiltInMappings();
    forall i | 0 <= i < |b| && Usable(b[i]) ensures NoDupIgnoreCase(HiddenOf(b[i].value)) {
      BuiltInDistinct(i);
    }
    LoadedFileDistinct(seeds);
    InputsDistinct(b, LoadMappingFile(seeds));
    var merged := MergeMappings(Some(b), Some(LoadMappingFile(seeds)));
    MergeDistinctTable(Some(b), Some(LoadMappingFile(seeds)));
    LoadedFileDistinct(user);
    InputsDistinct(merged, LoadMappingFile(user));
    MergeDistinctTable(Some(merged), Some(LoadMappingFile(user)));
    ExportOfDistinct(LoadMappings(l, seeds, user, false));
  }
}
