/**
 * `ProfilesStore.LoadProfiles` and `SaveProfiles`, with the schema-1
 * migration they run.
 *
 * The parsed JSON document is a `Json` value. Property lookup follows
 * `JsonElement.TryGetProperty`: the name is compared ordinally (case
 * matters), a repeated name finds its last occurrence, and asking a value that
 * is not an object throws. A throw inside the migration abandons it and keeps
 * whatever it had already changed; a throw anywhere else in a load gives the
 * default profile set.
 */
module ProfileMigration {
  import opened Opt
  import opened Text
  import opened Canon
  import opened CanonFacts
  import opened CiDict
  import opened ProfileModel
  import opened ProfileStore

  /** A parsed JSON value, as far as the migration looks into it. */
  datatype Json =
    | JObject(props: seq<(string, Json)>)
      /** A number: `TryGetInt32` and `TryGetDouble` results. */
    | JNumber(asInt: Option<int>, asDouble: Option<real>)
    | JOther

  /**
   * The `Profiles` property as the deserialiser leaves it. The deserialiser
   * sets only the properties the JSON holds, and it builds the map it sets
   * with the default, ordinal, comparer.
   */
  datatype RawProfiles =
      /** The JSON has no such property: the initializer's empty case-insensitive map stays. */
    | Absent
      /** The JSON `null`. */
    | Null
      /** A JSON object, read into a new ordinal map. */
    | Read(entries: Dict<WeightProfile>)

  /** The deserialised file: the schema and active name as set, and the `Profiles` property. */
  datatype RawFile = RawFile(schema: int, profiles: RawProfiles, active: Option<string>)

  /** The outcome of reading the profiles file. */
  datatype ProfilesRead =
    | Missing
      /** Reading or deserialising threw. */
    | Unreadable
      /** The deserialised record (null for the JSON `null`) and the parsed document. */
    | Parsed(file: Option<RawFile>, doc: Json)

  /** The value of the last property called exactly `name`. */
  function LastProperty(props: seq<(string, Json)>, name: string): (r: Option<Json>)
    ensures r.None? <==> forall i :: 0 <= i < |props| ==> props[i].0 != name
    ensures r.Some? ==> exists i :: 0 <= i < |props| && props[i] == (name, r.value) && (forall j :: i < j < |props| ==> props[j].0 != name)
  {
    if |props| == 0 then None
    else if props[|props| - 1].0 == name then Some(props[|props| - 1].1)
    else LastProperty(props[..|props| - 1], name)
  }

  /** `TryGetProperty`: `None` when the value is not an object (the call throws). */
  function TryGetProperty(v: Json, name: string): Option<Option<Json>> {
    match v
    case JObject(props) => Some(LastProperty(props, name))
    case _ => None
  }

  /** The weight a legacy property value gives: an int32, else a double, else 0. */
  function LegacyWeight(v: Json): real {
    match v
    case JNumber(i, d) => if i.Some? then i.value as real else if d.Some? then d.value else 0.0
    case _ => 0.0
  }

  /** A legacy weight object's properties as weights, in document order. */
  function LegacyEntries(props: seq<(string, Json)>): (ws: Weights)
    ensures |ws| == |props|
    ensures forall i :: 0 <= i < |props| ==> ws[i] == (props[i].0, LegacyWeight(props[i].1))
  {
    seq(|props|, i requires 0 <= i < |props| => (props[i].0, LegacyWeight(props[i].1)))
  }

  /**
   * `MigrateWeightDictionary` into a fresh map: `None` when `element` is not
   * an object; an empty map when the property is missing or not an object.
   */
  function MigrateWeightDictionary(element: Json, name: string): (r: Option<Weights>)
    ensures r.None? <==> !element.JObject?
  {
    match TryGetProperty(element, name)
    case None => None
    case Some(Some(JObject(props))) => Some(NormalizeDictionary(Some(LegacyEntries(props))))
    case Some(_) => Some([])
  }

  /**
   * The profile that replaces `name`: `None` when the migration throws (the
   * profiles element, or this profile's element, is not an object).
   */
  function MigrateProfile(profilesElement: Json, name: string): Option<WeightProfile> {
    match TryGetProperty(profilesElement, name)
    case None => None
    case Some(None) => Some(FreshProfile())
    case Some(Some(element)) =>
      match (MigrateWeightDictionary(element, "Visible"), MigrateWeightDictionary(element, "Hidden"))
      case (Some(visible), Some(hidden)) => Some(FreshProfile().(visibleDefault := Some(visible), hidden := Some(hidden)))
      case _ => None
  }

  /**
   * The loop over the profile names (a snapshot of the keys), from position
   * `m`; the flag is false when it stopped at a throw.
   */
  function MigrateFrom(profiles: Dict<WeightProfile>, profilesElement: Json, m: nat, c: Comparer): (r: (Dict<WeightProfile>, bool))
    requires m <= |profiles|
    ensures Keys(r.0) == Keys(profiles)
    decreases |profiles| - m
  {
    if m == |profiles| then (profiles, true)
    else
      match MigrateProfile(profilesElement, profiles[m].0)
      case None => (profiles, false)
      case Some(p) =>
        assert ContainsKey(profiles, profiles[m].0, c) by { FindSelf(profiles, m, c); }
        var next := Put(profiles, profiles[m].0, p, c);
        MigrateFrom(next, profilesElement, m + 1, c)
  }

  lemma FindSelf<V>(d: Dict<V>, m: nat, c: Comparer)
    requires m < |d|
    ensures ContainsKey(d, d[m].0, c)
  {
    assert SameKey(c, d[m].0, d[m].0);
  }

  /** `MigrateProfilesSchema`. */
  function MigrateProfilesSchema(f: ProfilesFile, root: Json): (g: ProfilesFile)
    ensures Keys(g.profiles) == Keys(f.profiles) && g.active == f.active && g.comparer == f.comparer
    ensures g.schema == CurrentSchema || g.schema == f.schema
  {
    match TryGetProperty(root, "Profiles")
    case None => f
    case Some(None) => f.(schema := CurrentSchema)
    case Some(Some(profilesElement)) =>
      var (ps, done) := MigrateFrom(f.profiles, profilesElement, 0, f.comparer);
      if done then f.(schema := CurrentSchema, profiles := ps) else f.(profiles := ps)
  }

  /**
   * `LoadProfiles`: every failure gives the default set. When the JSON holds
   * `Profiles`, the deserialiser replaces the map with one of its own, which
   * compares names ordinally; otherwise the empty case-insensitive map stays.
   */
  function LoadProfiles(read: ProfilesRead): ProfilesFile {
    match read
    case Parsed(Some(raw), doc) =>
      if raw.profiles.Null? then CreateDefaultProfiles()
      else NormalizeProfileKeys(Upgrade(Record(raw), doc))
    case _ => CreateDefaultProfiles()
  }

  /** The deserialised record, when its `Profiles` is not null. */
  function Record(raw: RawFile): (f: ProfilesFile)
    requires !raw.profiles.Null?
  {
    match raw.profiles
    case Read(entries) => ProfilesFile(raw.schema, entries, raw.active, Ordinal)
    case Absent => ProfilesFile(raw.schema, [], raw.active, IgnoreCase)
  }

  /** An older file is migrated; a current one is taken as it is. */
  function Upgrade(f: ProfilesFile, doc: Json): (g: ProfilesFile)
    ensures Keys(g.profiles) == Keys(f.profiles) && g.active == f.active && g.comparer == f.comparer
  {
    if f.schema < CurrentSchema then MigrateProfilesSchema(f, doc) else f
  }

  /** A readable file is upgraded, then re-keyed. */
  lemma LoadParsed(raw: RawFile, doc: Json)
    requires !raw.profiles.Null?
    ensures LoadProfiles(Parsed(Some(raw), doc)) == NormalizeProfileKeys(Upgrade(Record(raw), doc))
  {
  }

  /** `SaveProfiles`: the record as it is written, schema forced to 2 and keys re-normalised. */
  function SaveProfiles(f: ProfilesFile): (g: ProfilesFile)
    ensures g.schema == CurrentSchema && g.active == f.active && g.comparer == f.comparer && Keys(g.profiles) == Keys(f.profiles)
  {
    NormalizeProfileKeys(f.(schema := CurrentSchema))
  }

  // ---------------------------------------------------------------------------
  // Migration
  // ---------------------------------------------------------------------------

  /** The index of the first profile from `m` on whose migration throws, or the count when none does. */
  function FirstFailure(profiles: Dict<WeightProfile>, profilesElement: Json, m: nat): (r: nat)
    requires m <= |profiles|
    ensures m <= r <= |profiles|
    ensures forall j :: m <= j < r ==> MigrateProfile(profilesElement, profiles[j].0).Some?
    ensures r < |profiles| ==> MigrateProfile(profilesElement, profiles[r].0).None?
    decreases |profiles| - m
  {
    if m == |profiles| then m
    else if MigrateProfile(profilesElement, profiles[m].0).None? then m
    else FirstFailure(profiles, profilesElement, m + 1)
  }

  /** Entry `j` after migrating the entries in `[m, stop)`. */
  function MigratedEntry(profiles: Dict<WeightProfile>, profilesElement: Json, m: nat, stop: nat, j: nat): (string, WeightProfile)
    requires j < |profiles|
    requires m <= j < stop ==> MigrateProfile(profilesElement, profiles[j].0).Some?
  {
    if m <= j < stop then (profiles[j].0, MigrateProfile(profilesElement, profiles[j].0).value) else profiles[j]
  }

  /** In a map with distinct keys, writing under a stored key replaces that entry only. */
  lemma PutStored<V>(d: Dict<V>, m: nat, v: V, c: Comparer)
    requires Valid(d, c) && m < |d|
    ensures Put(d, d[m].0, v, c) == d[m := (d[m].0, v)]
  {
    FindFirst(d, d[m].0, m, c);
  }

  /** One step of the loop in a map with distinct keys replaces entry `m` only. */
  lemma MigrateStep(profiles: Dict<WeightProfile>, profilesElement: Json, m: nat, c: Comparer)
    requires Valid(profiles, c) && m < |profiles| && MigrateProfile(profilesElement, profiles[m].0).Some?
    ensures var next := profiles[m := (profiles[m].0, MigrateProfile(profilesElement, profiles[m].0).value)];
      && Valid(next, c)
      && MigrateFrom(profiles, profilesElement, m, c) == MigrateFrom(next, profilesElement, m + 1, c)
  {
    var p := MigrateProfile(profilesElement, profiles[m].0).value;
    PutStored(profiles, m, p, c);
    PutValid(profiles, profiles[m].0, p, c);
  }

  /**
   * The name loop, from position `m` of a map with distinct keys: the entries
   * before the first throwing one are replaced by their migrated profiles, the
   * rest are left alone, and the loop completes exactly when nothing throws.
   */
  lemma {:induction false} MigrateFromSpec(profiles: Dict<WeightProfile>, profilesElement: Json, m: nat, c: Comparer)
    requires Valid(profiles, c) && m <= |profiles|
    ensures var stop := FirstFailure(profiles, profilesElement, m);
      var r := MigrateFrom(profiles, profilesElement, m, c);
      && (r.1 <==> stop == |profiles|)
      && |r.0| == |profiles|
      && forall j :: 0 <= j < |profiles| ==> r.0[j] == MigratedEntry(profiles, profilesElement, m, stop, j)
    decreases |profiles| - m
  {
    if m < |profiles| && MigrateProfile(profilesElement, profiles[m].0).Some? {
      var next := profiles[m := (profiles[m].0, MigrateProfile(profilesElement, profiles[m].0).value)];
      MigrateStep(profiles, profilesElement, m, c);
      MigrateFromSpec(next, profilesElement, m + 1, c);
      MigrateSpecStep(profiles, profilesElement, m, c);
    } else {
      MigrateSpecDone(profiles, profilesElement, m, c);
    }
  }

  /** The loop stops at `m` when it has run out of names or the profile at `m` throws. */
  lemma MigrateSpecDone(profiles: Dict<WeightProfile>, profilesElement: Json, m: nat, c: Comparer)
    requires m <= |profiles|
    requires m == |profiles| || MigrateProfile(profilesElement, profiles[m].0).None?
    ensures FirstFailure(profiles, profilesElement, m) == m
    ensures MigrateFrom(profiles, profilesElement, m, c) == (profiles, m == |profiles|)
    ensures forall j :: 0 <= j < |profiles| ==> MigratedEntry(profiles, profilesElement, m, m, j) == profiles[j]
  {
  }

  /** The loop's outcome from `m`, given its outcome from `m + 1` after entry `m` is migrated. */
  lemma MigrateSpecStep(profiles: Dict<WeightProfile>, profilesElement: Json, m: nat, c: Comparer)
    requires Valid(profiles, c) && m < |profiles| && MigrateProfile(profilesElement, profiles[m].0).Some?
    requires var next := profiles[m := (profiles[m].0, MigrateProfile(profilesElement, profiles[m].0).value)];
      var stop := FirstFailure(next, profilesElement, m + 1);
      var r := MigrateFrom(next, profilesElement, m + 1, c);
      && (r.1 <==> stop == |next|)
      && |r.0| == |next|
      && forall j :: 0 <= j < |next| ==> r.0[j] == MigratedEntry(next, profilesElement, m + 1, stop, j)
    ensures var stop := FirstFailure(profiles, profilesElement, m);
      var r := MigrateFrom(profiles, profilesElement, m, c);
      && (r.1 <==> stop == |profiles|)
      && |r.0| == |profiles|
      && forall j :: 0 <= j < |profiles| ==> r.0[j] == MigratedEntry(profiles, profilesElement, m, stop, j)
  {
    MigrateStep(profiles, profilesElement, m, c);
    NextFailure(profiles, profilesElement, m);
    EntriesNext(profiles, profilesElement, m);
  }

  /** Migrating entry `m` moves the first failure from `m` to `m + 1` without changing it. */
  lemma NextFailure(profiles: Dict<WeightProfile>, profilesElement: Json, m: nat)
    requires m < |profiles| && MigrateProfile(profilesElement, profiles[m].0).Some?
    ensures var next := profiles[m := (profiles[m].0, MigrateProfile(profilesElement, profiles[m].0).value)];
      FirstFailure(profiles, profilesElement, m) == FirstFailure(next, profilesElement, m + 1)
  {
    var next := profiles[m := (profiles[m].0, MigrateProfile(profilesElement, profiles[m].0).value)];
    assert forall j :: 0 <= j < |next| ==> next[j].0 == profiles[j].0;
    FirstFailureSameKeys(profiles, next, profilesElement, m + 1);
  }

  /** Every entry is described alike before and after entry `m` is migrated. */
  lemma EntriesNext(profiles: Dict<WeightProfile>, profilesElement: Json, m: nat)
    requires m < |profiles| && MigrateProfile(profilesElement, profiles[m].0).Some?
    ensures var next := profiles[m := (profiles[m].0, MigrateProfile(profilesElement, profiles[m].0).value)];
      var stop := FirstFailure(profiles, profilesElement, m);
      forall j :: 0 <= j < |profiles| ==>
        MigratedEntry(next, profilesElement, m + 1, stop, j) == MigratedEntry(profiles, profilesElement, m, stop, j)
  {
    var next := profiles[m := (profiles[m].0, MigrateProfile(profilesElement, profiles[m].0).value)];
    var stop := FirstFailure(profiles, profilesElement, m);
    forall j | 0 <= j < |profiles|
      ensures MigratedEntry(next, profilesElement, m + 1, stop, j) == MigratedEntry(profiles, profilesElement, m, stop, j)
    {
      MigratedEntryNext(profiles, next, profilesElement, m, stop, j);
    }
  }

  /** Entry `j` is the same whether entry `m` is migrated before the loop reaches it or by the loop. */
  lemma MigratedEntryNext(profiles: Dict<WeightProfile>, next: Dict<WeightProfile>, profilesElement: Json, m: nat, stop: nat, j: nat)
    requires m < |profiles| && MigrateProfile(profilesElement, profiles[m].0).Some?
    requires next == profiles[m := (profiles[m].0, MigrateProfile(profilesElement, profiles[m].0).value)]
    requires stop == FirstFailure(profiles, profilesElement, m) && j < |profiles|
    ensures m + 1 <= j < stop ==> MigrateProfile(profilesElement, next[j].0).Some?
    ensures MigratedEntry(next, profilesElement, m + 1, stop, j) == MigratedEntry(profiles, profilesElement, m, stop, j)
  {
    assert next[j].0 == profiles[j].0;
    if j == m {
      assert m < stop;
    }
  }

  lemma {:induction false} FirstFailureSameKeys(d: Dict<WeightProfile>, e: Dict<WeightProfile>, profilesElement: Json, m: nat)
    requires |d| == |e| && m <= |d|
    requires forall j :: 0 <= j < |d| ==> d[j].0 == e[j].0
    ensures FirstFailure(d, profilesElement, m) == FirstFailure(e, profilesElement, m)
    decreases |d| - m
  {
    if m < |d| {
      FirstFailureSameKeys(d, e, profilesElement, m + 1);
    }
  }

  /** Without a "Profiles" property only the schema changes. */
  lemma MigrateWithoutProfiles(f: ProfilesFile, props: seq<(string, Json)>)
    requires forall i :: 0 <= i < |props| ==> props[i].0 != "Profiles"
    ensures MigrateProfilesSchema(f, JObject(props)) == f.(schema := CurrentSchema)
  {
  }

  /**
   * A "Profiles" element that is not an object throws on the first name:
   * with at least one profile, the file comes back unchanged, schema included.
   */
  lemma MigrateNonObject(f: ProfilesFile, props: seq<(string, Json)>, element: Json)
    requires LastProperty(props, "Profiles") == Some(element) && !element.JObject?
    requires |f.profiles| > 0
    ensures MigrateProfilesSchema(f, JObject(props)) == f
  {
  }

  /**
   * The migration proper: every name keeps its place and gets a fresh profile
   * (zero multipliers, empty desecrated map) whose default-panel and hidden maps
   * are the legacy "Visible" and "Hidden" maps re-keyed; a name without a legacy
   * element gets an empty profile. Up to the first throw this holds, the rest
   * is untouched, and the schema becomes 2 only when nothing threw.
   */
  lemma MigrateSpec(f: ProfilesFile, props: seq<(string, Json)>, profilesElement: Json)
    requires Valid(f.profiles, f.comparer)
    requires LastProperty(props, "Profiles") == Some(profilesElement)
    ensures var g := MigrateProfilesSchema(f, JObject(props));
      var stop := FirstFailure(f.profiles, profilesElement, 0);
      && (g.schema == CurrentSchema <==> stop == |f.profiles| || f.schema == CurrentSchema)
      && |g.profiles| == |f.profiles|
      && forall j :: 0 <= j < |f.profiles| ==> g.profiles[j] == MigratedEntry(f.profiles, profilesElement, 0, stop, j)
  {
    MigrateFromSpec(f.profiles, profilesElement, 0, f.comparer);
  }

  /** A migrated profile: zero multipliers, no desecrated weights, re-keyed legacy maps. */
  lemma MigrateProfileSpec(profilesElement: Json, name: string)
    requires MigrateProfile(profilesElement, name).Some?
    ensures var p := MigrateProfile(profilesElement, name).value;
      && p.multDefault == 0.0 && p.multDesecrated == 0.0 && p.multHidden == 0.0
      && p.visibleDesecrated == Some([])
      && NormalProfile(p)
  {
    var p := MigrateProfile(profilesElement, name).value;
    match TryGetProperty(profilesElement, name)
    case Some(Some(element)) =>
      NormalizeDictionaryKeys(Some(LegacyEntries(element.props)));
      LegacyNormal(element, "Visible");
      LegacyNormal(element, "Hidden");
    case _ =>
  }

  lemma LegacyNormal(element: Json, name: string)
    requires element.JObject?
    ensures NormalMap(MigrateWeightDictionary(element, name))
  {
    match LastProperty(element.props, name)
    case Some(JObject(props)) =>
      NormalizeDictionaryKeys(Some(LegacyEntries(props)));
    case _ =>
  }

  // ---------------------------------------------------------------------------
  // Loading and saving
  // ---------------------------------------------------------------------------

  /** A missing file, an unreadable one, a null record or a null `Profiles` all give the default set. */
  lemma LoadFallsBack(read: ProfilesRead)
    requires read.Missing? || read.Unreadable? || read.file.None? || read.file.value.profiles.Null?
    ensures LoadProfiles(read) == CreateDefaultProfiles()
  {
  }

  /**
   * The decision order for a readable file: a current-schema file is only
   * re-keyed; an older one is migrated first; names and the active profile are
   * kept either way. The names are compared ordinally when the JSON holds
   * `Profiles`; without it there are no names, compared ignoring case.
   */
  lemma LoadOrder(raw: RawFile, doc: Json)
    requires !raw.profiles.Null?
    ensures var f := ProfilesFile(raw.schema, if raw.profiles.Read? then raw.profiles.entries else [], raw.active, if raw.profiles.Read? then Ordinal else IgnoreCase);
      && (raw.schema >= CurrentSchema ==> LoadProfiles(Parsed(Some(raw), doc)) == NormalizeProfileKeys(f))
      && (raw.schema < CurrentSchema ==> LoadProfiles(Parsed(Some(raw), doc)) == NormalizeProfileKeys(MigrateProfilesSchema(f, doc)))
      && Keys(LoadProfiles(Parsed(Some(raw), doc)).profiles) == Keys(f.profiles)
      && LoadProfiles(Parsed(Some(raw), doc)).active == raw.active
      && (LoadProfiles(Parsed(Some(raw), doc)).comparer == Ordinal <==> raw.profiles.Read?)
  {
    var f := Record(raw);
    LoadParsed(raw, doc);
    LoadKeeps(f, doc);
  }

  /** Upgrading and re-keying keep the profile names and the active profile. */
  lemma LoadKeeps(f: ProfilesFile, doc: Json)
    ensures Keys(NormalizeProfileKeys(Upgrade(f, doc)).profiles) == Keys(f.profiles)
    ensures NormalizeProfileKeys(Upgrade(f, doc)).active == f.active
  {
  }

  /** Whatever is read, every loaded profile has present, distinct, canonical weight keys. */
  lemma LoadNormal(read: ProfilesRead)
    ensures NormalFile(LoadProfiles(read))
  {
    if read.Parsed? && read.file.Some? && !read.file.value.profiles.Null? {
      LoadParsedNormal(read.file.value, read.doc);
    } else {
      LoadDefaultNormal(read);
    }
  }

  lemma LoadParsedNormal(raw: RawFile, doc: Json)
    requires !raw.profiles.Null?
    ensures NormalFile(LoadProfiles(Parsed(Some(raw), doc)))
  {
    LoadParsed(raw, doc);
    NormalizeProfileKeysNormal(Upgrade(Record(raw), doc));
  }

  lemma LoadDefaultNormal(read: ProfilesRead)
    requires read.Missing? || read.Unreadable? || read.file.None? || read.file.value.profiles.Null?
    ensures NormalFile(LoadProfiles(read))
  {
    var d := CreateDefaultProfiles();
    LoadFallsBack(read);
    DefaultProfilesNormal();
    assert NormalFile(d);
  }

  /** No weight key of the file holds "packs". */
  predicate PacksFree(f: ProfilesFile) {
    forall i :: 0 <= i < |f.profiles| ==> PacksFreeProfile(f.profiles[i].1)
  }

  predicate PacksFreeProfile(p: WeightProfile) {
    PacksFreeMap(p.visibleDefault) && PacksFreeMap(p.visibleDesecrated) && PacksFreeMap(p.hidden)
  }

  predicate PacksFreeMap(m: Option<Weights>) {
    m.Some? ==> forall j :: 0 <= j < |m.value| ==> !IsSubstring("packs", m.value[j].0)
  }

  /** Re-keying a re-keyed profile changes nothing when no key holds "packs". */
  lemma NormalizeProfileTwice(p: WeightProfile)
    requires PacksFreeProfile(NormalizeProfile(p))
    ensures NormalizeProfile(NormalizeProfile(p)) == NormalizeProfile(p)
  {
    NormalizeDictionaryTwice(p.visibleDefault);
    NormalizeDictionaryTwice(p.visibleDesecrated);
    NormalizeDictionaryTwice(p.hidden);
  }

  /**
   * Saving is idempotent, as the comment at the save site says, provided no
   * weight key holds "packs"; "packss" is a key for which it is not.
   */
  lemma SaveTwice(f: ProfilesFile)
    requires PacksFree(SaveProfiles(f))
    ensures SaveProfiles(SaveProfiles(f)) == SaveProfiles(f)
  {
    var g := SaveProfiles(f);
    forall i | 0 <= i < |f.profiles| ensures NormalizeProfile(g.profiles[i].1) == g.profiles[i].1 {
      assert PacksFreeProfile(g.profiles[i].1);
      NormalizeProfileTwice(f.profiles[i].1);
    }
  }

  /**
   * Loading what was saved (schema 2, so no migration) gives it back, under
   * the same condition, except that the names are then compared ordinally.
   */
  lemma SaveLoadRoundTrip(f: ProfilesFile, doc: Json)
    requires PacksFree(SaveProfiles(f))
    ensures var g := SaveProfiles(f);
      LoadProfiles(Parsed(Some(RawFile(g.schema, Read(g.profiles), g.active)), doc)) == g.(comparer := Ordinal)
  {
    SaveTwice(f);
  }
}
