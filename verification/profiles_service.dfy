/**
 * `ProfilesService`: the in-memory profiles file and the operations the
 * profiles panel calls on it: choosing the active profile, writing one
 * weight, and creating, deleting and renaming profiles. Every operation that
 * changes the file also saves it, and saving first re-creates a missing
 * "Default" profile.
 *
 * The service's state is its `ProfilesFile`; each operation is a function
 * from the state before to the state after. The store normalises the weight
 * keys of the very object it is given when it saves, so the state after a save
 * is the record that was written. The file itself and the `ProfilesChanged`
 * event are left out.
 */
module ProfilesService {
  import opened Opt
  import opened Text
  import opened Canon
  import opened CiDict
  import opened ProfileModel
  import opened ProfileStore
  import opened ProfileMigration
  import opened Scoring

  /** The file's comparer finds a "Default" profile. */
  predicate HasDefault(f: ProfilesFile) {
    ContainsKey(f.profiles, DefaultName, f.comparer)
  }

  /** What the service keeps true between calls. */
  predicate Inv(f: ProfilesFile) {
    Valid(f.profiles, f.comparer) && HasDefault(f)
  }

  // ---------------------------------------------------------------------------
  // Construction, load and save
  // ---------------------------------------------------------------------------

  /** `EnsureDefaultExists`: a missing "Default" is added empty and made active. */
  function EnsureDefault(f: ProfilesFile): (g: ProfilesFile)
    ensures HasDefault(g)
    ensures HasDefault(f) ==> g == f
    ensures !HasDefault(f) ==> g.active == Some(DefaultName) && Get(g.profiles, DefaultName, f.comparer) == Some(FreshProfile())
    ensures !HasDefault(f) ==> Keys(g.profiles) == Keys(f.profiles) + [DefaultName]
    ensures g.comparer == f.comparer
    ensures Valid(f.profiles, f.comparer) ==> Valid(g.profiles, g.comparer)
  {
    if HasDefault(f) then f
    else
      var ps := Put(f.profiles, DefaultName, FreshProfile(), f.comparer);
      GetPut(f.profiles, DefaultName, FreshProfile(), DefaultName, f.comparer);
      PutKeepsValid(f.profiles, DefaultName, FreshProfile(), f.comparer);
      f.(profiles := ps, active := Some(DefaultName))
  }

  /** The constructor: a new file with "Default" added, names compared ignoring case. */
  function New(): (f: ProfilesFile)
    ensures Inv(f) && f.comparer == IgnoreCase
    ensures Keys(f.profiles) == [DefaultName] && f.active == Some(DefaultName)
    ensures Get(f.profiles, DefaultName) == Some(FreshProfile())
  {
    EnsureDefault(FreshFile())
  }

  /** `LoadProfiles`: the store's result with "Default" added when missing. */
  function Load(read: ProfilesRead): (f: ProfilesFile)
    ensures HasDefault(f)
  {
    EnsureDefault(LoadProfiles(read))
  }

  /**
   * The store's result has distinct names whenever the names read do; a
   * file whose JSON holds `Profiles` compares its names ordinally, any other
   * outcome ignoring case.
   */
  lemma LoadValid(read: ProfilesRead)
    requires read.Parsed? && read.file.Some? && read.file.value.profiles.Read? ==> Valid(read.file.value.profiles.entries, Ordinal)
    ensures Inv(Load(read))
    ensures Load(read).comparer == if read.Parsed? && read.file.Some? && read.file.value.profiles.Read? then Ordinal else IgnoreCase
  {
    LoadProfilesValid(read);
  }

  /** The store's read keeps names distinct: a migrated file keeps its names, the default set has one. */
  lemma LoadProfilesValid(read: ProfilesRead)
    requires read.Parsed? && read.file.Some? && read.file.value.profiles.Read? ==> Valid(read.file.value.profiles.entries, Ordinal)
    ensures Valid(LoadProfiles(read).profiles, LoadProfiles(read).comparer)
    ensures LoadProfiles(read).comparer == if read.Parsed? && read.file.Some? && read.file.value.profiles.Read? then Ordinal else IgnoreCase
  {
    if read.Parsed? && read.file.Some? && !read.file.value.profiles.Null? {
      var raw := read.file.value;
      LoadParsed(raw, read.doc);
      LoadedValid(Record(raw), read.doc);
    } else {
      LoadFallsBack(read);
      DefaultsValid();
    }
  }

  /** The default set has distinct names, compared ignoring case. */
  lemma DefaultsValid()
    ensures Valid(CreateDefaultProfiles().profiles, CreateDefaultProfiles().comparer)
    ensures CreateDefaultProfiles().comparer == IgnoreCase
  {
    PutValid(FreshFile().profiles, DefaultName, DefaultProfile());
  }

  /** Migrating when the schema is old, then normalising weight keys, keeps the names and their comparer. */
  lemma LoadedValid(f: ProfilesFile, doc: Json)
    requires Valid(f.profiles, f.comparer)
    ensures Valid(NormalizeProfileKeys(Upgrade(f, doc)).profiles, f.comparer)
    ensures NormalizeProfileKeys(Upgrade(f, doc)).comparer == f.comparer
  {
    SameKeysValid(f.profiles, Upgrade(f, doc).profiles, f.comparer);
    SameKeysValid(f.profiles, NormalizeProfileKeys(Upgrade(f, doc)).profiles, f.comparer);
  }

  /**
   * `SaveProfiles`: "Default" is ensured, then the store forces schema 2 and
   * normalises the weight keys in place. Names and the active name survive
   * unless "Default" had to be re-created.
   */
  function Save(f: ProfilesFile): (g: ProfilesFile)
    ensures HasDefault(g) && g.schema == CurrentSchema
    ensures HasDefault(f) ==> Keys(g.profiles) == Keys(f.profiles) && g.active == f.active
    ensures !HasDefault(f) ==> g.active == Some(DefaultName)
    ensures g.comparer == f.comparer
    ensures Valid(f.profiles, f.comparer) ==> Valid(g.profiles, g.comparer)
  {
    var e := EnsureDefault(f);
    var g := SaveProfiles(e);
    SameKeysFind(e.profiles, g.profiles, DefaultName, f.comparer);
    SameKeysValid(e.profiles, g.profiles, f.comparer);
    g
  }

  /** A profile as it reads after a save: its weight maps re-keyed. */
  function Saved(p: Option<WeightProfile>): Option<WeightProfile> {
    match p
    case None => None
    case Some(q) => Some(NormalizeProfile(q))
  }

  /** Saving re-keys every stored profile's weights and nothing else. */
  lemma SaveReads(f: ProfilesFile, k: string)
    ensures Get(Save(f).profiles, k, f.comparer) == Saved(Get(EnsureDefault(f).profiles, k, f.comparer))
  {
    SameKeysFind(EnsureDefault(f).profiles, Save(f).profiles, k, f.comparer);
  }

  /** With "Default" present, a save changes what every name reads only by re-keying. */
  lemma GetSaved(f: ProfilesFile, k: string)
    requires HasDefault(f)
    ensures Get(Save(f).profiles, k, f.comparer) == Saved(Get(f.profiles, k, f.comparer))
  {
    SaveReads(f, k);
  }

  /** An empty profile is left as it is by a save. */
  lemma FreshSaved()
    ensures NormalizeProfile(FreshProfile()) == FreshProfile()
  {
    assert NormalizeDictionary(Some([])) == [];
  }

  // ---------------------------------------------------------------------------
  // The active profile
  // ---------------------------------------------------------------------------

  /** The `ActiveProfile` getter: "Default" stands in for a null or blank name. */
  function ActiveName(f: ProfilesFile): (n: string)
    ensures !IsBlank(n)
    ensures IsNullOrWhiteSpace(f.active) ==> n == DefaultName
    ensures !IsNullOrWhiteSpace(f.active) ==> f.active == Some(n)
  {
    assert !IsWhite(DefaultName[0]);
    if IsNullOrWhiteSpace(f.active) then DefaultName else f.active.value
  }

  /** The `ActiveProfile` setter: only a stored name is taken, and then the file is saved. */
  function SetActive(f: ProfilesFile, name: string): (g: ProfilesFile)
    ensures !ContainsKey(f.profiles, name, f.comparer) ==> g == f
    ensures ContainsKey(f.profiles, name, f.comparer) && HasDefault(f) ==> g.active == Some(name) && Keys(g.profiles) == Keys(f.profiles)
    ensures g.comparer == f.comparer
    ensures Valid(f.profiles, f.comparer) ==> Valid(g.profiles, g.comparer)
  {
    if ContainsKey(f.profiles, name, f.comparer) then Save(f.(active := Some(name))) else f
  }

  /** `GetActiveProfile`: the stored profile of the active name, or a fresh empty one. */
  function GetActiveProfile(f: ProfilesFile): (p: WeightProfile)
    ensures Get(f.profiles, ActiveName(f), f.comparer) == Some(p) || (!ContainsKey(f.profiles, ActiveName(f), f.comparer) && p == FreshProfile())
  {
    GetOr(f.profiles, ActiveName(f), FreshProfile(), f.comparer)
  }

  /** After choosing a stored, non-blank name, the active profile is that profile, saved. */
  lemma SetActiveSpec(f: ProfilesFile, name: string)
    requires HasDefault(f) && ContainsKey(f.profiles, name, f.comparer) && !IsBlank(name)
    ensures ActiveName(SetActive(f, name)) == name
    ensures Some(GetActiveProfile(SetActive(f, name))) == Saved(Get(f.profiles, name, f.comparer))
  {
    var f' := f.(active := Some(name));
    GetSaved(f', name);
  }

  /** `GetProfileNames`: the names in ordinal order, each once under the file's comparer. */
  function GetProfileNames(f: ProfilesFile): (names: seq<string>)
    ensures Sorted(names)
    ensures forall x :: x in names <==> x in Keys(f.profiles)
    ensures |names| == |f.profiles|
    ensures Valid(f.profiles, f.comparer) ==> DistinctKeys(names, f.comparer)
  {
    var names := Sort(Keys(f.profiles));
    assert forall x :: x in names <==> x in multiset(Keys(f.profiles));
    assert |names| == |multiset(names)|;
    SortedNames(f);
    names
  }

  lemma SortedNames(f: ProfilesFile)
    ensures Valid(f.profiles, f.comparer) ==> DistinctKeys(Sort(Keys(f.profiles)), f.comparer)
  {
    if Valid(f.profiles, f.comparer) {
      ValidKeys(f.profiles, f.comparer);
      PermutedDistinct(Keys(f.profiles), Sort(Keys(f.profiles)), f.comparer);
    }
  }

  // ---------------------------------------------------------------------------
  // UpdateWeight
  // ---------------------------------------------------------------------------

  /** The profile with map `c` replaced. */
  function WithMap(p: WeightProfile, c: Category, m: Weights): (q: WeightProfile)
    ensures MapOf(q, c) == Some(m)
    ensures forall c' :: c' != c ==> MapOf(q, c') == MapOf(p, c')
    ensures q.multDefault == p.multDefault && q.multDesecrated == p.multDesecrated && q.multHidden == p.multHidden
  {
    match c
    case DefaultPanel => p.(visibleDefault := Some(m))
    case DesecratedPanel => p.(visibleDesecrated := Some(m))
    case HiddenPanel => p.(hidden := Some(m))
  }

  /**
   * `UpdateWeight`. The profile written is the one `GetActiveProfile`
   * returns: when the active name is stored that is the stored profile,
   * otherwise a throwaway one, and the write is lost. An unknown category or
   * a null map returns before anything is written or saved.
   */
  function UpdateWeight(f: ProfilesFile, category: Option<string>, key: string, value: int, save: bool): (g: ProfilesFile)
    ensures ParseCategory(category).None? ==> g == f
    ensures !save && !ContainsKey(f.profiles, ActiveName(f), f.comparer) ==> g == f
    ensures HasDefault(f) ==> Keys(g.profiles) == Keys(f.profiles) && g.active == f.active
    ensures g.comparer == f.comparer
    ensures Valid(f.profiles, f.comparer) ==> Valid(g.profiles, g.comparer)
  {
    match ParseCategory(category)
    case None => f
    case Some(c) =>
      var p := GetActiveProfile(f);
      match MapOf(p, c)
      case None => f
      case Some(m) =>
        var written :=
          match Find(f.profiles, ActiveName(f), f.comparer)
          case None => f
          case Some(i) => f.(profiles := f.profiles[i := (f.profiles[i].0, WithMap(p, c, Put(m, key, value as real)))]);
        assert Keys(written.profiles) == Keys(f.profiles);
        SameKeysValid(f.profiles, written.profiles, f.comparer);
        SameKeysFind(f.profiles, written.profiles, DefaultName, f.comparer);
        if save then Save(written) else written
  }

  /**
   * An unsaved write to a stored active profile sets exactly one entry of
   * the named map: other keys of that map, its other maps, its multipliers,
   * the other profiles and the names are as they were.
   */
  lemma UpdateWeightSpec(f: ProfilesFile, category: string, c: Category, key: string, value: int, i: nat, k: string)
    requires ParseCategory(Some(category)) == Some(c)
    requires Find(f.profiles, ActiveName(f), f.comparer) == Some(i)
    requires MapOf(f.profiles[i].1, c).Some?
    ensures var g := UpdateWeight(f, Some(category), key, value, false);
      var p := f.profiles[i].1;
      var q := g.profiles[i].1;
      && Keys(g.profiles) == Keys(f.profiles) && g.active == f.active
      && (forall j :: 0 <= j < |f.profiles| && j != i ==> g.profiles[j] == f.profiles[j])
      && MapOf(q, c).Some?
      && Get(MapOf(q, c).value, k) == (if EqualsIgnoreCase(key, k) then Some(value as real) else Get(MapOf(p, c).value, k))
      && (forall c' :: c' != c ==> MapOf(q, c') == MapOf(p, c'))
      && q.multDefault == p.multDefault && q.multDesecrated == p.multDesecrated && q.multHidden == p.multHidden
  {
    GetPut(MapOf(f.profiles[i].1, c).value, key, value as real, k);
  }

  /** When the active name is not stored, the write is lost; only the save, if asked for, happens. */
  lemma UpdateWeightLost(f: ProfilesFile, category: string, key: string, value: int)
    requires ParseCategory(Some(category)).Some? && !ContainsKey(f.profiles, ActiveName(f), f.comparer)
    ensures UpdateWeight(f, Some(category), key, value, false) == f
    ensures UpdateWeight(f, Some(category), key, value, true) == Save(f)
  {
    assert Find(f.profiles, ActiveName(f), f.comparer) == None;
  }

  /** A weight written under a normalised key reads back through the scoring lookup. */
  lemma UpdateThenRead(f: ProfilesFile, category: string, c: Category, key: string, value: int, i: nat)
    requires ParseCategory(Some(category)) == Some(c)
    requires Find(f.profiles, ActiveName(f), f.comparer) == Some(i)
    requires MapOf(f.profiles[i].1, c).Some?
    requires Normalize(key) == key
    ensures GetProfileWeight(Some(GetActiveProfile(UpdateWeight(f, Some(category), key, value, false))), Some(category), Some(key)) == value as real
  {
    var g := UpdateWeight(f, Some(category), key, value, false);
    UpdateWeightSpec(f, category, c, key, value, i, key);
    SameKeysFind(f.profiles, g.profiles, ActiveName(f), f.comparer);
    assert ActiveName(g) == ActiveName(f);
    assert GetActiveProfile(g) == g.profiles[i].1;
  }

  // ---------------------------------------------------------------------------
  // Create, delete, rename
  // ---------------------------------------------------------------------------

  /** `(name ?? "").Trim()`. */
  function TrimName(name: Option<string>): (t: string)
    ensures |t| == 0 <==> IsNullOrWhiteSpace(name)
  {
    Trim(if name.None? then "" else name.value)
  }

  /** `CreateProfile`: a new, trimmed, unused name gets an empty profile, and the file is saved. */
  function CreateProfile(f: ProfilesFile, name: Option<string>): (r: (bool, ProfilesFile))
    ensures r.0 <==> !IsNullOrWhiteSpace(name) && !ContainsKey(f.profiles, TrimName(name), f.comparer)
    ensures !r.0 ==> r.1 == f
    ensures r.0 && HasDefault(f) ==> Keys(r.1.profiles) == Keys(f.profiles) + [TrimName(name)] && r.1.active == f.active
    ensures r.1.comparer == f.comparer
    ensures Valid(f.profiles, f.comparer) ==> Valid(r.1.profiles, f.comparer)
  {
    var n := TrimName(name);
    if |n| == 0 || ContainsKey(f.profiles, n, f.comparer) then (false, f)
    else
      var f' := f.(profiles := Put(f.profiles, n, FreshProfile(), f.comparer));
      ContainsPut(f.profiles, n, FreshProfile(), DefaultName, f.comparer);
      PutKeepsValid(f.profiles, n, FreshProfile(), f.comparer);
      (true, Save(f'))
  }

  /** After a successful create the new name holds an empty profile and every other name reads as saved. */
  lemma CreateProfileSpec(f: ProfilesFile, name: string, k: string)
    requires HasDefault(f) && CreateProfile(f, Some(name)).0
    ensures var g := CreateProfile(f, Some(name)).1;
      && Get(g.profiles, TrimName(Some(name)), f.comparer) == Some(FreshProfile())
      && (!SameKey(f.comparer, TrimName(Some(name)), k) ==> Get(g.profiles, k, f.comparer) == Saved(Get(f.profiles, k, f.comparer)))
  {
    var n := TrimName(Some(name));
    var f' := f.(profiles := Put(f.profiles, n, FreshProfile(), f.comparer));
    ContainsPut(f.profiles, n, FreshProfile(), DefaultName, f.comparer);
    GetSaved(f', n);
    GetSaved(f', k);
    GetPut(f.profiles, n, FreshProfile(), n, f.comparer);
    GetPut(f.profiles, n, FreshProfile(), k, f.comparer);
    FreshSaved();
  }

  /**
   * `DeleteProfile`: a non-blank stored name other than "Default" (in any
   * case) is removed; the active name falls back to "Default" if it was
   * that profile up to case, and the file is saved.
   */
  function DeleteProfile(f: ProfilesFile, name: Option<string>): (r: (bool, ProfilesFile))
    ensures r.0 <==> !IsNullOrWhiteSpace(name) && !EqualsIgnoreCase(name.value, DefaultName) && ContainsKey(f.profiles, name.value, f.comparer)
    ensures !r.0 ==> r.1 == f
    ensures r.1.comparer == f.comparer
    ensures Valid(f.profiles, f.comparer) ==> Valid(r.1.profiles, f.comparer)
  {
    if IsNullOrWhiteSpace(name) || EqualsIgnoreCase(name.value, DefaultName) || !ContainsKey(f.profiles, name.value, f.comparer) then (false, f)
    else
      var ps := Remove(f.profiles, name.value, f.comparer);
      var f' := f.(profiles := ps);
      var f'' := if EqualsIgnoreCase(ActiveName(f'), name.value) then f'.(active := Some(DefaultName)) else f';
      RemoveKeepsValid(f.profiles, name.value, f.comparer);
      (true, Save(f''))
  }

  /**
   * After a successful delete in a file with distinct names that has
   * "Default": the name is gone, every other name is kept (as saved),
   * "Default" is still there, and the active name moved to "Default"
   * exactly when it was the deleted one.
   */
  lemma DeleteProfileSpec(f: ProfilesFile, name: string, k: string)
    requires Inv(f) && DeleteProfile(f, Some(name)).0
    ensures var g := DeleteProfile(f, Some(name)).1;
      && Inv(g)
      && Get(g.profiles, k, f.comparer) == (if SameKey(f.comparer, name, k) then None else Saved(Get(f.profiles, k, f.comparer)))
      && g.active == (if EqualsIgnoreCase(ActiveName(f), name) then Some(DefaultName) else f.active)
  {
    var ps := Remove(f.profiles, name, f.comparer);
    var f' := f.(profiles := ps);
    var f'' := if EqualsIgnoreCase(ActiveName(f'), name) then f'.(active := Some(DefaultName)) else f';
    ContainsRemove(f.profiles, name, DefaultName, f.comparer);
    GetRemove(f.profiles, name, k, f.comparer);
    GetSaved(f'', k);
  }

  /**
   * `RenameProfile`: both names trimmed; a stored old name and an unused new
   * name move the payload, the active name follows, and the file is saved.
   */
  function RenameProfile(f: ProfilesFile, oldName: Option<string>, newName: Option<string>): (r: (bool, ProfilesFile))
    ensures r.0 <==> (!IsNullOrWhiteSpace(oldName) && !IsNullOrWhiteSpace(newName)
      && ContainsKey(f.profiles, TrimName(oldName), f.comparer) && !ContainsKey(f.profiles, TrimName(newName), f.comparer))
    ensures !r.0 ==> r.1 == f
    ensures r.1.comparer == f.comparer
    ensures Valid(f.profiles, f.comparer) ==> Valid(r.1.profiles, f.comparer)
  {
    var o := TrimName(oldName);
    var n := TrimName(newName);
    if |o| == 0 || |n| == 0 || !ContainsKey(f.profiles, o, f.comparer) || ContainsKey(f.profiles, n, f.comparer) then (false, f)
    else
      assert Valid(f.profiles, f.comparer) ==> Valid(Moved(f, o, n), f.comparer) by {
        if Valid(f.profiles, f.comparer) { GetReplaceKey(f.profiles, o, n, o, f.comparer); }
      }
      (true, Save(Renamed(f, o, n)))
  }

  /**
   * A rename that changes only the case of the name fails when names are
   * compared ignoring case. With ordinal names, as in a file whose JSON held
   * `Profiles`, it succeeds exactly when the old spelling is stored and the
   * new one is not.
   */
  lemma RenameCaseOnly(f: ProfilesFile, oldName: string, newName: string)
    requires EqualsIgnoreCase(TrimName(Some(oldName)), TrimName(Some(newName)))
    ensures f.comparer == IgnoreCase ==> !RenameProfile(f, Some(oldName), Some(newName)).0
    ensures f.comparer == Ordinal ==> (RenameProfile(f, Some(oldName), Some(newName)).0 <==>
      ContainsKey(f.profiles, TrimName(Some(oldName)), Ordinal) && !ContainsKey(f.profiles, TrimName(Some(newName)), Ordinal))
  {
    var o, n := TrimName(Some(oldName)), TrimName(Some(newName));
    if f.comparer == IgnoreCase {
      GetIgnoresCase(f.profiles, o, n);
    } else if |o| == 0 {
      assert |Fold(n)| == 0;
      assert o == n;
    }
  }

  /**
   * "Default" and "default" in a file whose only name is "Default": they
   * are one name when names are compared ignoring case (a new file) and two
   * when compared ordinally (a file whose JSON held `Profiles`), so creating
   * "default" and renaming "Default" to it succeed exactly in the second, and
   * choosing "default" as the active profile is ignored there.
   */
  lemma DefaultLowerCase(f: ProfilesFile)
    requires Keys(f.profiles) == [DefaultName]
    ensures ContainsKey(f.profiles, "default", f.comparer) <==> f.comparer == IgnoreCase
    ensures CreateProfile(f, Some("default")).0 <==> f.comparer == Ordinal
    ensures RenameProfile(f, Some(DefaultName), Some("default")).0 <==> f.comparer == Ordinal
    ensures f.comparer == Ordinal ==> SetActive(f, "default") == f
  {
    DefaultSpellings();
    DefaultFound(f);
  }

  /**
   * A file whose JSON lacks `Profiles` keeps the initializer's case-insensitive
   * map, so after "Default" is added "default" is taken; a file whose JSON
   * holds an empty `Profiles` object has an ordinal map, where it is free.
   */
  lemma MissingProfilesProperty(schema: int, active: Option<string>, doc: Json)
    ensures var f := Load(Parsed(Some(RawFile(schema, Absent, active)), doc));
      f.comparer == IgnoreCase && !CreateProfile(f, Some("default")).0
    ensures var f := Load(Parsed(Some(RawFile(schema, Read([]), active)), doc));
      f.comparer == Ordinal && CreateProfile(f, Some("default")).0
  {
    LoadedDefaultOnly(RawFile(schema, Absent, active), doc);
    LoadedDefaultOnly(RawFile(schema, Read([]), active), doc);
  }

  /** A file read with no names holds only "Default" once it is loaded. */
  lemma LoadedDefaultOnly(raw: RawFile, doc: Json)
    requires raw.profiles == Absent || raw.profiles == Read([])
    ensures Keys(Load(Parsed(Some(raw), doc)).profiles) == [DefaultName]
    ensures Load(Parsed(Some(raw), doc)).comparer == if raw.profiles.Read? then Ordinal else IgnoreCase
    ensures CreateProfile(Load(Parsed(Some(raw), doc)), Some("default")).0 <==> raw.profiles.Read?
  {
    var read := Parsed(Some(raw), doc);
    LoadOrder(raw, doc);
    var g := LoadProfiles(read);
    assert Keys(g.profiles) == [];
    assert !HasDefault(g);
    DefaultLowerCase(Load(read));
  }

  /** "Default" and "default" are left alone by trimming, and are equal only up to case. */
  lemma DefaultSpellings()
    ensures TrimName(Some(DefaultName)) == DefaultName && !IsBlank(DefaultName)
    ensures TrimName(Some("default")) == "default" && !IsBlank("default")
    ensures EqualsIgnoreCase(DefaultName, "default") && DefaultName != "default"
  {
    TrimmedName(DefaultName);
    TrimmedName("default");
    DefaultCase();
  }

  /** A name without white space at either end is its own trimmed form. */
  lemma TrimmedName(s: string)
    requires |s| > 0 && !IsWhite(s[0]) && !IsWhite(s[|s| - 1])
    ensures TrimName(Some(s)) == s && !IsBlank(s)
  {
    TrimOfTrimmed(s);
  }

  lemma DefaultCase()
    ensures EqualsIgnoreCase(DefaultName, "default") && DefaultName != "default"
  {
    assert Fold(DefaultName) == "default";
    assert DefaultName[0] != "default"[0];
  }

  /** In a file whose only name is "Default", the comparer finds "Default", and "default" only when ignoring case. */
  lemma DefaultFound(f: ProfilesFile)
    requires Keys(f.profiles) == [DefaultName]
    ensures ContainsKey(f.profiles, DefaultName, f.comparer)
    ensures ContainsKey(f.profiles, "default", f.comparer) <==> f.comparer == IgnoreCase
  {
    var d := f.profiles;
    assert |d| == 1 && d[0].0 == DefaultName by { assert d[0].0 == Keys(d)[0]; }
    DefaultCase();
    FindFirst(d, DefaultName, 0, f.comparer);
    if f.comparer == IgnoreCase {
      FindFirst(d, "default", 0, f.comparer);
    } else {
      assert !SameKey(f.comparer, d[0].0, "default");
    }
  }

  /** The profiles after a rename, before the save: `Remove(o)`, then `[n] = payload` into the freed slot. */
  function Moved(f: ProfilesFile, o: string, n: string): (ps: Dict<WeightProfile>)
    requires ContainsKey(f.profiles, o, f.comparer) && !ContainsKey(f.profiles, n, f.comparer)
  {
    ReplaceKey(f.profiles, o, n, f.comparer)
  }

  /** The file after a rename, before the save: the active name follows the profile if it was that one up to case. */
  function Renamed(f: ProfilesFile, o: string, n: string): ProfilesFile
    requires ContainsKey(f.profiles, o, f.comparer) && !ContainsKey(f.profiles, n, f.comparer)
  {
    var f' := f.(profiles := Moved(f, o, n));
    if EqualsIgnoreCase(ActiveName(f'), o) then f'.(active := Some(n)) else f'
  }

  /** Reading the moved profiles: the new name has the payload, the old one is gone, the rest stay. */
  lemma GetMoved(f: ProfilesFile, o: string, n: string, k: string)
    requires Valid(f.profiles, f.comparer) && ContainsKey(f.profiles, o, f.comparer) && !ContainsKey(f.profiles, n, f.comparer)
    ensures Valid(Moved(f, o, n), f.comparer)
    ensures Keys(Moved(f, o, n)) == Keys(f.profiles)[Find(f.profiles, o, f.comparer).value := n]
    ensures Get(Moved(f, o, n), k, f.comparer) ==
      if SameKey(f.comparer, n, k) then Get(f.profiles, o, f.comparer)
      else if SameKey(f.comparer, o, k) then None
      else Get(f.profiles, k, f.comparer)
  {
    GetReplaceKey(f.profiles, o, n, k, f.comparer);
  }

  /**
   * After a successful rename of a profile other than "Default" (under the
   * file's comparer): the new name holds the old payload (as saved), the old
   * name is gone, other names are kept, and the active name follows the
   * rename when it was the old name up to case.
   */
  lemma RenameProfileSpec(f: ProfilesFile, oldName: string, newName: string, k: string)
    requires Inv(f) && RenameProfile(f, Some(oldName), Some(newName)).0
    requires !SameKey(f.comparer, TrimName(Some(oldName)), DefaultName)
    ensures var o := TrimName(Some(oldName));
      var n := TrimName(Some(newName));
      var g := RenameProfile(f, Some(oldName), Some(newName)).1;
      && Inv(g)
      && Get(g.profiles, n, f.comparer) == Saved(Get(f.profiles, o, f.comparer))
      && !ContainsKey(g.profiles, o, f.comparer)
      && (!SameKey(f.comparer, o, k) && !SameKey(f.comparer, n, k) ==> Get(g.profiles, k, f.comparer) == Saved(Get(f.profiles, k, f.comparer)))
      && g.active == (if EqualsIgnoreCase(ActiveName(f), o) then Some(n) else f.active)
  {
    var o := TrimName(Some(oldName));
    var n := TrimName(Some(newName));
    var f'' := Renamed(f, o, n);
    GetMoved(f, o, n, DefaultName);
    GetMoved(f, o, n, n);
    GetMoved(f, o, n, o);
    GetMoved(f, o, n, k);
    GetSaved(f'', n);
    GetSaved(f'', o);
    GetSaved(f'', k);
  }

  /**
   * A renamed profile other than "Default" keeps its place: `Dictionary`
   * gives the new name the slot the removal of the old one freed.
   */
  lemma RenameKeepsPlace(f: ProfilesFile, oldName: string, newName: string)
    requires Inv(f) && RenameProfile(f, Some(oldName), Some(newName)).0
    requires !SameKey(f.comparer, TrimName(Some(oldName)), DefaultName)
    ensures var o := TrimName(Some(oldName));
      Keys(RenameProfile(f, Some(oldName), Some(newName)).1.profiles) == Keys(f.profiles)[Find(f.profiles, o, f.comparer).value := TrimName(Some(newName))]
  {
    var o := TrimName(Some(oldName));
    var n := TrimName(Some(newName));
    GetMoved(f, o, n, DefaultName);
  }

  /** Moving "Default" away leaves the file without it, before the save. */
  lemma RenameDefaultUnsaved(f: ProfilesFile, o: string, n: string)
    requires Inv(f) && ContainsKey(f.profiles, o, f.comparer) && !ContainsKey(f.profiles, n, f.comparer)
    requires SameKey(f.comparer, o, DefaultName)
    ensures !HasDefault(Renamed(f, o, n))
    ensures Get(Renamed(f, o, n).profiles, n, f.comparer) == Get(f.profiles, o, f.comparer)
  {
    PresentAbsent(f.profiles, DefaultName, n, f.comparer);
    GetMoved(f, o, n, DefaultName);
    GetMoved(f, o, n, n);
  }

  /** The save after that re-creates an empty "Default", makes it active, and keeps the moved payload. */
  lemma SaveWithoutDefault(f: ProfilesFile, n: string, p: WeightProfile)
    requires !HasDefault(f) && Get(f.profiles, n, f.comparer) == Some(p)
    ensures var g := Save(f);
      && Get(g.profiles, DefaultName, f.comparer) == Some(FreshProfile())
      && g.active == Some(DefaultName)
      && Get(g.profiles, n, f.comparer) == Some(NormalizeProfile(p))
  {
    GetPut(f.profiles, DefaultName, FreshProfile(), n, f.comparer);
    SaveReads(f, DefaultName);
    SaveReads(f, n);
    FreshSaved();
  }

  /**
   * Renaming "Default" (as the file's comparer finds it) is allowed: the
   * payload moves, and the save that follows re-creates an empty "Default"
   * and makes it active.
   */
  lemma RenameDefault(f: ProfilesFile, oldName: string, newName: string)
    requires Inv(f) && RenameProfile(f, Some(oldName), Some(newName)).0
    requires SameKey(f.comparer, TrimName(Some(oldName)), DefaultName)
    ensures var g := RenameProfile(f, Some(oldName), Some(newName)).1;
      && Get(g.profiles, DefaultName, f.comparer) == Some(FreshProfile())
      && g.active == Some(DefaultName)
      && Get(g.profiles, TrimName(Some(newName)), f.comparer) == Saved(Get(f.profiles, TrimName(Some(oldName)), f.comparer))
  {
    var o := TrimName(Some(oldName));
    var n := TrimName(Some(newName));
    RenameDefaultUnsaved(f, o, n);
    SaveWithoutDefault(Renamed(f, o, n), n, Get(f.profiles, o, f.comparer).value);
  }

  /** Every operation keeps the names distinct and "Default" present. */
  lemma InvPreserved(f: ProfilesFile, name: string, other: string, category: Option<string>, key: string, value: int, save: bool)
    requires Inv(f)
    ensures Inv(Save(f))
    ensures Inv(SetActive(f, name))
    ensures Inv(UpdateWeight(f, category, key, value, save))
    ensures Inv(CreateProfile(f, Some(name)).1)
    ensures Inv(DeleteProfile(f, Some(name)).1)
    ensures Inv(RenameProfile(f, Some(name), Some(other)).1)
  {
    InvSave(f);
    InvSetActive(f, name);
    InvUpdateWeight(f, category, key, value, save);
    InvCreate(f, name);
    InvDelete(f, name);
    InvRename(f, name, other);
  }

  lemma InvSave(f: ProfilesFile)
    requires Inv(f)
    ensures Inv(Save(f))
  {
  }

  lemma InvSetActive(f: ProfilesFile, name: string)
    requires Inv(f)
    ensures Inv(SetActive(f, name))
  {
  }

  lemma InvUpdateWeight(f: ProfilesFile, category: Option<string>, key: string, value: int, save: bool)
    requires Inv(f)
    ensures Inv(UpdateWeight(f, category, key, value, save))
  {
    SameKeysFind(f.profiles, UpdateWeight(f, category, key, value, save).profiles, DefaultName, f.comparer);
  }

  lemma InvCreate(f: ProfilesFile, name: string)
    requires Inv(f)
    ensures Inv(CreateProfile(f, Some(name)).1)
  {
    if CreateProfile(f, Some(name)).0 {
      ContainsPut(f.profiles, TrimName(Some(name)), FreshProfile(), DefaultName, f.comparer);
    }
  }

  lemma InvDelete(f: ProfilesFile, name: string)
    requires Inv(f)
    ensures Inv(DeleteProfile(f, Some(name)).1)
  {
  }

  lemma InvRename(f: ProfilesFile, name: string, other: string)
    requires Inv(f)
    ensures Inv(RenameProfile(f, Some(name), Some(other)).1)
  {
  }
}
