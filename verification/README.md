# WellCrafted in Dafny

WellCrafted is an overlay plugin for a game's "three choices" crafting panel.
It reads the panel's three choice elements from the game's UI tree and
canonicalises each visible modifier text. It looks up the hidden modifiers
that the text implies in a layered mapping table (built-in, seeds, user),
scores each choice with the weights of the active profile, and draws a
FAVORITE / BANNED / score badge next to it.

This project models the deterministic core of that plugin as pure functions
over immutable datatypes and proves what the code promises. The modules are:

- `Opt`, `Text`: shared pieces.
  - `Option`.
  - .NET string helpers: `Trim`, `IsNullOrWhiteSpace`, `OrdinalIgnoreCase` as ASCII folding, `Split` with `RemoveEmptyEntries`, `Join`.
  - Case-insensitive `Distinct`, and an ordinal sort.
- `Canon`, `CanonFacts`, `Sentences`, `CanonExamples`: the text canonicaliser `ScoringRules.Normalize`.
  - Each regex pass is an explicit scanner.
  - The modules hold its output shape, its conditional idempotence and the counterexample, and the worked examples the code's comments name.
- `Scoring`: the banned sentinel, both `GetWeight` overloads, and `CombinePanelScores`.
- `Colors`: the band selection of `GetScoreColor`, `GetSliderColor` and `GetRowBackgroundColor`.
- `HiddenMapping`, `BuiltInTable`, `BuiltInFacts`: the built-in table, `MergeMappings`, `GetHiddenModsFor` and the two known-mods listings.
- `MappingLoader`, `MappingImport`, `MappingExport`: the layering in `LoadMappings`, the entry cleaning in `LoadMappingFile`, the line parser of `ImportFromBuffer`, and `ExportCurrentMappings`.
  - File reads are given as a `FileRead` value.
- `CiDict`, `ProfileModel`, `ProfileStore`, `ProfileMigration`: the profile records.
  - Dictionaries are association sequences in enumeration order, with the comparer they were built with.
  - Every dictionary the program builds compares keys ignoring case. A profiles file whose JSON holds a `profiles` property is different: the deserialiser replaces the name map with one of its own, which compares names ordinally, so there "default" and "Default" are two names. A file without that property keeps the initializer's empty case-insensitive map. `ProfilesFile.comparer` records which map a file has, and `RawProfiles` says whether the property was absent, null or read. The weight maps are rebuilt case-insensitive by `NormalizeProfileKeys` on every load.
  - `Remove` followed by an add reuses the freed slot, as `Dictionary` does. A renamed profile keeps its place.
  - Also covered: `NormalizeDictionary`, `NormalizeProfileKeys`, `CreateDefaultProfiles`, the legacy migration, and the decision order of `LoadProfiles`/`SaveProfiles`.
- `ProfilesService`: the profile service as a state machine over a `ProfilesFile`.
  - Every operation that saves returns the record as the store leaves it.
- `UiTree`, `Plugin`: the UI tree helpers over a finite `Node` tree.
  - `GetElementText`, the breadth-first search, is a method with a queue invariant.
  - Also `GetSafeRect`, `IsValidElement`, the CSV index paths (`Parse`), `FollowChain`, and the per-lane assembly of `CaptureSnapshot`.
- `GenKey`, `PanelTracker`, `Overlay`: the two panel trackers, which differ from each other.
  - `GenKey` holds the generation key (`PackRect`, `Mix` on `bv64`) and the grace length.
  - `PanelTracker` is `ChoicesPanelTracker`.
  - `Overlay` is the inline tracker of `OverlayRenderer`, its draw gating and the per-lane verdict.

## Model

| member | source | states |
|---|---|---|
| Canon.NormalizeCanonical | Scoring/ScoringRules.cs:31-81 | Blank or null input normalises to "". Every output uses only a-z, space, '#' and '-'. It holds no digit and no "##", has no leading or trailing space and no two adjacent spaces. |
| Canon.FindClose | Scoring/ScoringRules.cs:59-60 | A match, when there is one, ends at a closing bracket inside the text. |
| Canon.FindCloseSpec | Scoring/ScoringRules.cs:59-60 | The lazy group body ends at the first closing bracket, provided no line feed comes before it. Otherwise there is no match. |
| CanonFacts.GroupsAppend | Scoring/ScoringRules.cs:59-60 | When every group in a text closes inside it, the group pass over that text followed by more text is the pass over each part, joined. A match never reaches past a closed text. |
| Canon.ResolveBody | Scoring/ScoringRules.cs:48-57 | The replacement of a group starts and ends with a space and holds no '\|', since only the last option is kept. |
| Canon.ReplaceNumbers | Scoring/ScoringRules.cs:66 | No digit is left. Every character is '#' or comes from the input, and a leading digit becomes '#'. |
| Canon.CollapseHashes | Scoring/ScoringRules.cs:69 | No "##" is left. Every character comes from the input, and the first one is kept. |
| Canon.AliasPacks | Scoring/ScoringRules.cs:75 | Every character comes from the input, the first one is kept, and no "##" is created. |
| Canon.CollapseSpaces | Scoring/ScoringRules.cs:78 | No two adjacent whitespace characters are left. Every character comes from the input or is a space, and a leading non-white character is kept. |
| CanonFacts.NormalizeIdempotent | Profiles/ProfilesStore.cs:80 | Normalising a normal form again changes nothing, provided the normal form holds no "packs". |
| CanonFacts.NotIdempotentOnPackss | Scoring/ScoringRules.cs:75-78 | The unconditional alias breaks the idempotence claimed at the save site: "packss" normalises to "packs", which normalises to "pack". |
| CanonFacts.NormalizeSentence | Scoring/ScoringRules.cs:31-81 | Words joined by single spaces normalise to the rewritten words joined by single spaces. Each word is rewritten on its own. |
| CanonFacts.FoldOfNormalized | Scoring/ScoringRules.cs:63 | Normalised text has no upper-case letter, so it is its own ASCII lower-case form. |
| CanonExamples.NumberPrefix | Scoring/ScoringRules.cs:66-69 | A number in front of a text normalises as a '#' in front of it would. |
| CanonExamples.NumbersAlike | Scoring/ScoringRules.cs:66-69 | Two texts that differ only in the leading number normalise alike. |
| CanonExamples.PackSizeSeeds | Scoring/ScoringRules.cs:66-78 | "12% increased Pack Size", "7% increased Pack Size" and "# increased Pack Size" all normalise to "# increased pack size". |
| CanonExamples.GroupResolves | Scoring/ScoringRules.cs:48-60 | A closed group on one line is replaced by its picked option with a space on each side. The text after it is processed on. |
| CanonExamples.RaritySeeds | Scoring/ScoringRules.cs:45-63 | "[a\|b\|c] increased Rarity" and "c increased Rarity" both normalise to "c increased rarity". |
| Scoring.GetWeight | Scoring/ScoringRules.cs:84-89 | The result is 0 for a null map or a blank key. For a key whose normal form is absent (ignoring case) it is also 0. |
| Scoring.GetWeightPut | Scoring/ScoringRules.cs:84-89 | A weight written under the normal form of a key reads back by the raw key. Keys with another normal form read what they read before. |
| Scoring.GetWeightNormalForm | Scoring/ScoringRules.cs:86-88 | Two non-blank keys with the same normal form read the same weight. |
| Scoring.GetProfileWeight | Scoring/ScoringRules.cs:91-104 | The result is 0 for a null profile or a category other than default, desecrated or hidden. |
| Scoring.ParseCategoryIgnoresCase | Scoring/ScoringRules.cs:95-101 | The category is matched ignoring case. |
| Scoring.UnknownCategory | Scoring/ScoringRules.cs:95-102 | Any other category reads 0, for every profile and key. |
| Scoring.ProfileWeightAgrees | Scoring/ScoringRules.cs:91-104 | For a non-blank key, the category overload reads the named map exactly as the map overload does. |
| Scoring.Clamp | Scoring/ScoringRules.cs:132 | The result lies in [-20, 20]. It equals the input inside that range and the nearer bound outside it. |
| Scoring.CombinePanelScores | Scoring/ScoringRules.cs:107-133 | The total is BANNED exactly when a visible weight or some hidden weight is at most -11. It is never the favourite score, and a finite total lies in [-20, 20]. |
| Scoring.CombineExact | Scoring/ScoringRules.cs:119-132 | Without a banned weight, and with the weighted sum inside the limits, the total is vd*(1+mD) + vs*(1+mS) + avg(hidden)*(1+mH). |
| Scoring.CombineNullProfile | Scoring/ScoringRules.cs:119-121 | A null profile scores as any profile whose three multipliers are 0. |
| Scoring.CombineEmptyHidden | Scoring/ScoringRules.cs:123-125 | An empty hidden list scores as a null one: its average is 0. |
| Scoring.CombineNeutral | Scoring/ScoringRules.cs:119-132 | With no profile and one hidden weight, the total is the clamped plain sum. |
| Scoring.CombineMonotone | Scoring/ScoringRules.cs:127-132 | Raising the default-panel weight never lowers the total while that multiplier is at least -1. |
| Scoring.CombinePermutation | Scoring/ScoringRules.cs:114-132 | Reordering the hidden weights leaves the total unchanged. |
| Colors.ThresholdBand | Scoring/ColorRules.cs:21-23 | The result is low exactly when x is at most the low threshold. It is high exactly when x is above the low threshold and at least the high one. Otherwise it is mid, never favourite. |
| Colors.ScoreBand | Scoring/ColorRules.cs:16-24 | The favourite band goes exactly to the favourite sentinel and to the finite scores that pass the favourite test. The banned score gets the low band. |
| Colors.GetRowBackgroundColor | Scoring/ColorRules.cs:27-32 | The colour is the score colour with alpha 36. |
| Colors.SliderBand | Scoring/ColorRules.cs:35-43 | A favourite weight, and only it, gets the favourite band. A banned weight that is not a favourite gets the low band. |
| Colors.BandMonotone | Scoring/ColorRules.cs:18-23 | For finite scores that fail the favourite test, the band never drops as the score rises, whatever the thresholds. |
| Colors.LowWins | Scoring/ColorRules.cs:18-22 | When the thresholds overlap, the low colour wins for a score that is not a favourite. |
| Colors.SliderAgreesWithScore | Scoring/ColorRules.cs:16-43 | A weight that neither favourite test accepts and that is not banned is coloured as the same score would be. |
| Colors.BannedIsLow | Scoring/ColorRules.cs:19-38 | A banned weight and the banned score share the low colour. |
| Colors.DefaultBands | Scoring/ColorRules.cs:18-23 | With the default thresholds -4 and 4, a score that is not a favourite is low at -4 and below, high at 4 and above, and mid between. |
| Colors.BadgeColorMatchesLabel | UI/Overlay/OverlayRenderer.cs:145-165 | A lane badge gets the favourite colour exactly when it is labelled FAVORITE, including a finite total that passes the favourite score test. |
| HiddenMapping.GetBuiltInMappings | Mapping/HiddenMapping.cs:38-68 | The built-in table has four entries. |
| BuiltInTable.BuiltInEntries | Mapping/HiddenMapping.cs:38-68 | Each built-in entry holds its key and hidden list, and each key is already in normal form. |
| BuiltInTable.BuiltInKeysDistinct | Mapping/HiddenMapping.cs:38-68 | No two built-in keys are equal ignoring case. |
| BuiltInFacts.BuiltInKey1 | Mapping/HiddenMapping.cs:38-68 | The first built-in text normalises to its key. |
| BuiltInFacts.BuiltInKey2 | Mapping/HiddenMapping.cs:38-68 | The second built-in text normalises to its key. |
| BuiltInFacts.BuiltInKey3 | Mapping/HiddenMapping.cs:38-68 | The third built-in text normalises to its key. |
| BuiltInFacts.BuiltInKey4 | Mapping/HiddenMapping.cs:38-68 | The fourth built-in text normalises to its key. |
| BuiltInFacts.BuiltInStable1 | Mapping/HiddenMapping.cs:38-68 | The first built-in key is its own normal form. |
| BuiltInFacts.BuiltInStable2 | Mapping/HiddenMapping.cs:38-68 | The second built-in key is its own normal form. |
| BuiltInFacts.BuiltInStable3 | Mapping/HiddenMapping.cs:38-68 | The third built-in key is its own normal form. |
| BuiltInFacts.BuiltInStable4 | Mapping/HiddenMapping.cs:38-68 | The fourth built-in key is its own normal form. |
| BuiltInTable.LookupBuiltInText | Mapping/HiddenMapping.cs:110-135 | The mana-siphoning text, looked up in the built-in table, finds the Pack Size entry alone. |
| BuiltInTable.LookupTwoBuiltInTexts | Mapping/HiddenMapping.cs:118-134 | A text holding the mana-siphoning line and then the marked-for-death line gets [Pack Size, Item Rarity]. Hits add up, each hidden string once. |
| HiddenMapping.Entries | Mapping/HiddenMapping.cs:84-102 | Every merged entry carries its key as `Match` and a non-null hidden list, in table order. |
| HiddenMapping.AddRangeAppend | Mapping/HiddenMapping.cs:74-100 | Adding two lists one after the other is adding their concatenation. |
| HiddenMapping.AddRangeGrows | Mapping/HiddenMapping.cs:82-95 | A key's list is only ever extended. Nothing is removed or reordered. |
| HiddenMapping.AddRangeSourced | Mapping/HiddenMapping.cs:82-95 | A hidden string under a key was there before or comes from an input entry with that key. |
| HiddenMapping.MergeKeys | Mapping/HiddenMapping.cs:70-103 | Merged keys are distinct ignoring case, and each is the normalised `Match` of some usable input. Every usable input's normalised `Match` is a key. Null entries and blank `Match` texts are skipped. |
| HiddenMapping.MergeUnion | Mapping/HiddenMapping.cs:82-95 | Merging is a union, not an override: every hidden string of every usable input is under its key, ignoring case. |
| HiddenMapping.MergeSourced | Mapping/HiddenMapping.cs:82-95 | Nothing is invented: every merged hidden string comes from an input with that key. |
| HiddenMapping.MergeFirstSeen | Mapping/HiddenMapping.cs:84-94 | The first input seen with a key gives the start of that key's list, verbatim and in order. |
| HiddenMapping.MergeKeepsDistinct | Mapping/HiddenMapping.cs:87-94 | When no input list repeats a string (ignoring case), no merged list does. |
| HiddenMapping.HitListSpec | Mapping/HiddenMapping.cs:118-130 | The collected hits are exactly the hidden strings of the entries whose non-blank `Match` is contained in the normalised text. |
| HiddenMapping.EqualIsContained | Mapping/HiddenMapping.cs:124-125 | An exact match is also a contained one, so the equality test adds no hits. |
| HiddenMapping.GetHiddenModsForSpec | Mapping/HiddenMapping.cs:110-135 | The lookup is null exactly when the text is blank, the table is null or empty, the normal form is blank, or no hit has a hidden string. Otherwise it holds every hit's hidden strings, once each ignoring case, and nothing else. |
| HiddenMapping.KnownVisibleSpec | Mapping/HiddenMapping.cs:137-138 | The listing fails exactly when some entry is null. It starts with a null exactly when some `Match` is null. The rest is sorted, distinct ignoring case, made of `Match` texts, and covers all of them. |
| HiddenMapping.KnownHiddenSpec | Mapping/HiddenMapping.cs:140-141 | The listing fails exactly when some entry is null. Otherwise it is sorted, distinct ignoring case, made of hidden strings, and covers all of them. |
| MappingLoader.CleanEntries | Mapping/HiddenMappingLoader.cs:67-80 | Cleaning never adds entries. |
| MappingLoader.CleanHiddenSpec | Mapping/HiddenMappingLoader.cs:75-78 | A cleaned hidden list holds every non-blank string of the input once, ignoring case, and nothing else. |
| MappingLoader.CleanHiddenTwice | Mapping/HiddenMappingLoader.cs:75-78 | Cleaning a cleaned hidden list changes nothing. |
| MappingLoader.CleanEntriesCount | Mapping/HiddenMappingLoader.cs:68-80 | One entry is kept per usable source entry. |
| MappingLoader.CleanEntriesSourced | Mapping/HiddenMappingLoader.cs:70-79 | Every kept entry is the cleaned form of a usable source entry. |
| MappingLoader.CleanEntriesCovers | Mapping/HiddenMappingLoader.cs:70-79 | Every usable source entry is kept, in cleaned form. |
| MappingLoader.LoadMappingFileEmpty | Mapping/HiddenMappingLoader.cs:52-89 | A missing file, a failed read, or a null or empty list all give no entries. Anything else is cleaned. |
| MappingLoader.LoadKeepsBuiltIns | Mapping/HiddenMappingLoader.cs:35-40 | A load that completes installs a table holding every built-in key, whatever the files hold. |
| MappingLoader.LoadMappingsInvariant | Mapping/HiddenMappingLoader.cs:31-50 | Whatever happens, the table afterwards is non-empty and holds every built-in key, provided it was empty or held them before. |
| MappingImport.ImportHiddenSpec | Mapping/HiddenMappingLoader.cs:115-119 | An imported hidden list is distinct ignoring case. Its strings are trimmed, non-blank and free of ';'. It holds every non-blank piece, trimmed. |
| MappingImport.ImportLineSpec | Mapping/HiddenMappingLoader.cs:111-128 | A line is imported exactly when its "=>" split has two non-empty pieces, the first non-blank and the second holding a non-blank ';'-piece. |
| MappingImport.ImportLinesShape | Mapping/HiddenMappingLoader.cs:115-128 | Every imported entry has a `Match` and a non-empty hidden list, with no blank string and no repeat ignoring case. |
| MappingImport.ImportRoundTrip | Mapping/HiddenMappingLoader.cs:102-129 | Good rows written one per line as `text=>h1;h2` import as exactly those entries, in order. The text is normalised and the hidden strings are as written. |
| MappingImport.ImportIgnoresThirdPiece | Mapping/HiddenMappingLoader.cs:111-116 | Only the first two "=>" pieces of a line are read. |
| MappingImport.ImportReload | Mapping/HiddenMappingLoader.cs:131-136 | After an import whose entries are stable, the reload reads the imported entries back as the user file. The table is the built-ins, then the seeds, then them. |
| MappingImport.LoadStable | Mapping/HiddenMappingLoader.cs:67-80 | A document of stable entries loads as exactly those entries. |
| MappingExport.ExportSpec | Mapping/HiddenMappingLoader.cs:144-156 | The export is written exactly when no entry is null. It then has one entry per entry, in order, with the same `Match`. Each hidden list is distinct ignoring case, drawn from the entry's own list, and covers it. |
| MappingExport.ExportOfDistinct | Mapping/HiddenMappingLoader.cs:148-156 | A table whose lists are already distinct is exported as it is. |
| MappingExport.ExportOfLoaded | Mapping/HiddenMappingLoader.cs:144-156 | Exporting after a load that completes (the load of lines 31-50) writes back the loaded table exactly. |
| CiDict.GetPut | profile_model.cs:14-27 | After writing a key, every key the comparer matches with it reads the new value. Every other key is unaffected. |
| CiDict.PutValid | profile_model.cs:14-27 | Writing keeps the keys distinct under the comparer, and the written key is then present. |
| CiDict.GetRemove | profile_model.cs:14-27 | Removing a key drops exactly the keys the comparer matches with it. |
| CiDict.ContainsPut | profile_model.cs:14-27 | After writing k, exactly the old keys and k are present. |
| CiDict.ContainsRemove | profile_model.cs:14-27 | After removing k, exactly the old keys other than k are present. |
| CiDict.GetIgnoresCase | profile_model.cs:14-27 | In a case-insensitive dictionary, keys equal ignoring case are found at the same entry. |
| CiDict.GetReplaceKey | profiles_service.cs:117-119 | Removing a stored key and adding an absent one with its value keeps the keys distinct, and puts the new key in the old one's place. The new key reads the value, the old one reads nothing, and others read as before. |
| CiDict.PermutedDistinct | profiles_service.cs:62-63 | Reordering a list of keys keeps it free of two keys the comparer matches. |
| ProfileModel.FreshProfile | profile_model.cs:11-22 | A new profile has three empty maps and zero multipliers. |
| ProfileModel.FreshFile | profile_model.cs:24-29 | A new file has schema 2, no profiles, "Default" as its active name, and compares names ignoring case. |
| ProfileStore.NormalizeDictionary | Profiles/ProfilesStore.cs:184-195 | A null map gives an empty one. The result's keys are distinct ignoring case. |
| ProfileStore.NormalizeDictionaryAbsent | Profiles/ProfilesStore.cs:184-195 | A key is absent from the result exactly when no source key normalises to it. |
| ProfileStore.NormalizeDictionaryLast | Profiles/ProfilesStore.cs:189-193 | When several source keys normalise to one key, the later entry's value wins. |
| ProfileStore.NormalizeDictionaryKeys | Profiles/ProfilesStore.cs:189-193 | Every result key is, verbatim, the normal form of a source key, and so is canonical. |
| ProfileStore.NormalizeDictionaryTwice | Profiles/ProfilesStore.cs:184-195 | Re-keying twice is re-keying once, provided no normal key holds "packs" (line 80 runs it before each save). |
| ProfileStore.NormalizeProfile | Profiles/ProfilesStore.cs:176-181 | A re-keyed profile keeps its multipliers and has all three maps present. |
| ProfileStore.NormalizeProfiles | Profiles/ProfilesStore.cs:176-181 | Every profile is re-keyed in place. Names and their order are kept. |
| ProfileStore.NormalizeProfileKeys | Profiles/ProfilesStore.cs:174-182 | Names and their order, the active name, the schema and the name comparer are kept. |
| ProfileStore.NormalizeProfileKeysNormal | Profiles/ProfilesStore.cs:174-182 | Afterwards every profile's maps are present, distinct and canonical. |
| ProfileStore.DefaultProfilesSpec | Profiles/ProfilesStore.cs:94-115 | The default set has schema 2 and the single profile "Default", which is active. It has zero multipliers and an empty desecrated map. Its four seeded weights are map item drop chance 3 (hidden), pack size 2, quantity 2 and rarity 0. |
| ProfileStore.DefaultProfilesNormal | Profiles/ProfilesStore.cs:105-109 | The default set's weight maps are keyed by canonical, distinct texts. |
| ProfileMigration.LegacyEntries | Profiles/ProfilesStore.cs:158-169 | One weight per legacy property, in document order. The value is the 32-bit integer if there is one, else the double, else 0. |
| ProfileMigration.MigrateWeightDictionary | Profiles/ProfilesStore.cs:153-156 | The migration of one map throws exactly when the profile element is not an object. |
| ProfileMigration.MigrateFromSpec | Profiles/ProfilesStore.cs:124-140 | Over the snapshot of the names, entries before the first throwing one get their migrated profiles, and the rest are left alone. The loop completes exactly when nothing throws. |
| ProfileMigration.MigrateProfilesSchema | Profiles/ProfilesStore.cs:117-151 | Names and the active name are kept. The schema becomes 2, or stays as it was when the loop threw. |
| ProfileMigration.MigrateWithoutProfiles | Profiles/ProfilesStore.cs:122-143 | Without a "Profiles" property only the schema changes, to 2. |
| ProfileMigration.MigrateNonObject | Profiles/ProfilesStore.cs:133-149 | A "Profiles" element that is not an object throws on the first name, so the file comes back unchanged, schema included. |
| ProfileMigration.MigrateSpec | Profiles/ProfilesStore.cs:117-151 | Each name keeps its place and gets a fresh profile. Its default-panel and hidden maps are the legacy "Visible" and "Hidden" maps, re-keyed. A name without a legacy element gets an empty profile. |
| ProfileMigration.MigrateProfileSpec | Profiles/ProfilesStore.cs:126-137 | A migrated profile has zero multipliers, no desecrated weights and re-keyed legacy maps. |
| ProfileMigration.LoadFallsBack | Profiles/ProfilesStore.cs:36-68 | A missing file, an unreadable one, a null record or a null `Profiles` all give the default set. |
| ProfileMigration.LoadOrder | Profiles/ProfilesStore.cs:43-62 | A current-schema file is only re-keyed. An older one is migrated first. Names and the active profile are kept either way. The names are compared ordinally exactly when the JSON held `profiles`, as in the deserialiser's map. Without it there are no names and the initializer's case-insensitive map stays. |
| ProfileMigration.LoadNormal | Profiles/ProfilesStore.cs:32-69 | Whatever is read, every loaded profile has present, distinct, canonical weight keys. |
| ProfileMigration.SaveProfiles | Profiles/ProfilesStore.cs:71-92 | The saved record has schema 2. Names and the active name are kept. |
| ProfileMigration.SaveTwice | Profiles/ProfilesStore.cs:80-81 | Saving is idempotent, as the comment at the save site says, provided no weight key holds "packs". |
| ProfileMigration.SaveLoadRoundTrip | Profiles/ProfilesStore.cs:32-92 | Loading what was saved gives it back under the same condition, except that the names are then compared ordinally. It is schema 2, so no migration runs. |
| ProfilesService.EnsureDefault | profiles_service.cs:140-147 | "Default" is present afterwards, as the file's comparer finds it (exactly "Default" in a file whose JSON held `profiles`). When it had to be added it is empty and active. Otherwise nothing changes. |
| ProfilesService.New | profiles_service.cs:20-25 | A new service has exactly "Default", empty and active, and compares names ignoring case. |
| ProfilesService.Load | profiles_service.cs:27-32 | "Default" is present after a load. |
| ProfilesService.LoadValid | profiles_service.cs:27-32 | A load keeps distinct names distinct and has "Default". It compares names ordinally exactly when the JSON held a `profiles` object. A file without the property, and every fallback to the default set, compares them ignoring case. |
| ProfilesService.MissingProfilesProperty | profiles_service.cs:27-32 | After loading a file without `profiles`, creating "default" fails, because the added "Default" matches it ignoring case. After loading one with an empty `profiles` object, it succeeds. |
| ProfilesService.Save | profiles_service.cs:34-39 | "Default" is present after a save. Names and the active name survive unless "Default" had to be re-created. |
| ProfilesService.ActiveName | profiles_service.cs:43 | A null or blank active name reads as "Default". |
| ProfilesService.SetActive | profiles_service.cs:44-51 | A name the file's comparer does not find changes nothing. A stored one becomes active and the file is saved. |
| ProfilesService.SetActiveSpec | profiles_service.cs:41-60 | After choosing a stored, non-blank name, the active profile is that profile, as saved. |
| ProfilesService.GetActiveProfile | profiles_service.cs:54-60 | The result is the stored profile of the active name under the file's comparer. When that name is absent it is a fresh empty profile, the `GetDefaultProfile` of lines 130-138. |
| ProfilesService.GetProfileNames | profiles_service.cs:62-63 | The names in ordinal order, each once under the file's comparer. |
| ProfilesService.UpdateWeight | profiles_service.cs:65-79 | An unknown category changes nothing, not even by a save. An unsaved write when the active name is not stored changes nothing. Names and the active name are kept. |
| ProfilesService.UpdateWeightSpec | profiles_service.cs:65-77 | An unsaved write to a stored active profile sets exactly one entry of the named map. Everything else is as it was. |
| ProfilesService.UpdateWeightLost | profiles_service.cs:54-67 | When the active name is not stored, the write goes to a throwaway profile and is lost. |
| ProfilesService.UpdateThenRead | profiles_service.cs:65-77 | A weight written under a normalised key reads back through the scoring lookup. |
| ProfilesService.CreateProfile | profiles_service.cs:83-92 | An empty trimmed name, or one the file's comparer already finds, fails and changes nothing. Success adds exactly the trimmed name. |
| ProfilesService.CreateProfileSpec | profiles_service.cs:83-92 | After a successful create, the new name holds an empty profile and every other name reads as saved. |
| ProfilesService.DeleteProfile | profiles_service.cs:94-106 | A blank name, "Default" in any case, or a name the file's comparer does not find fails and changes nothing. |
| ProfilesService.DeleteProfileSpec | profiles_service.cs:94-106 | After a successful delete the name is gone, every other name is kept and "Default" is still there. The active name moves to "Default" exactly when it was the deleted one, ignoring case. |
| ProfilesService.RenameProfile | profiles_service.cs:108-126 | A blank old or new name, an old name the file's comparer does not find, or a new name it does find, fails and changes nothing. |
| ProfilesService.RenameCaseOnly | profiles_service.cs:110-115 | A rename that changes only the case of the name fails when names are compared ignoring case. When they are compared ordinally (a file whose JSON held `profiles`), it succeeds exactly when the old spelling is stored and the new one is not. |
| ProfilesService.DefaultLowerCase | profiles_service.cs:44-115 | In a file whose only name is "Default", "default" is the same name under the case-insensitive comparer and another name under the ordinal one. So creating "default", or renaming "Default" to it, succeeds exactly under the ordinal comparer, and making it active is ignored there. |
| ProfilesService.RenameProfileSpec | profiles_service.cs:108-126 | After a successful rename of a profile other than "Default" (under the file's comparer), the new name holds the old payload and the old name is gone. Other names are kept. The active name follows the rename when it was the old name, ignoring case. |
| ProfilesService.RenameKeepsPlace | profiles_service.cs:117-119 | A renamed profile other than "Default" keeps its place among the names, because the new name takes the slot the removal freed. |
| ProfilesService.RenameDefault | profiles_service.cs:117-146 | Renaming "Default", as the file's comparer finds it, is allowed. The save that follows re-creates an empty "Default" and makes it active. |
| ProfilesService.InvPreserved | profiles_service.cs:20-147 | Every operation keeps the names distinct under the file's comparer and "Default" present. |
| UiTree.GetSafeRect | guard.cs:52-64 | The rectangle is returned unchanged exactly when the element exists and its width and height are positive. Otherwise null. |
| UiTree.GetElementText | guard.cs:15-50 | Null for a missing or invisible element. The element's own trimmed text if it is non-empty. Otherwise the level-by-level reference search: the first visible node with non-empty text in breadth-first order, never below an invisible node, else null. |
| UiTree.SearchFrom | guard.cs:25-43 | The queue loop, which takes nodes from the front and adds children at the back, returns what the level-by-level search finds from the root. |
| UiTree.QueueSearch | guard.cs:25-43 | A queue holding the unsearched rest of a level with no hit so far, then the start of the next level, drains to the same answer as the level-by-level search. |
| UiTree.ElementTextIsSearch | guard.cs:22-35 | Checking the element's own text first gives what the search would find first anyway. |
| UiTree.InvisibleIgnored | guard.cs:32 | An invisible node's subtree never affects the result. |
| UiTree.ElementTextTrimmed | guard.cs:23-35 | Any text returned is trimmed. |
| Plugin.ParseInt32 | wellcrafted_plugin.cs:319 | A piece that reads gives a value that fits 32 bits. |
| Plugin.ParseShow | wellcrafted_plugin.cs:319 | An integer written with an optional '-' and its digits reads back as itself. |
| Plugin.Parse | wellcrafted_plugin.cs:314-325 | A null string gives the empty path. When every non-empty comma piece reads, the path has one entry per piece, in order. Otherwise it is empty. |
| Plugin.ParseRoundTrip | wellcrafted_plugin.cs:314-325 | A path written out with commas reads back as the same path. |
| Plugin.BlankPieceSpoils | wellcrafted_plugin.cs:316-324 | A blank piece such as in "3, ,1" spoils the whole path. |
| Plugin.Spoiled | wellcrafted_plugin.cs:316-324 | Any one piece that does not read spoils the whole path. |
| Plugin.FollowChain | wellcrafted_plugin.cs:327-338 | The empty chain gives the start. A non-empty chain from a null start gives null. |
| Plugin.FollowAppend | wellcrafted_plugin.cs:330-336 | Following a ++ b is following b from where a leads. |
| Plugin.LaneText | wellcrafted_plugin.cs:268-291 | A lane is visible exactly when its element exists and is visible. Its text is kept exactly when it is not blank, otherwise it is "" and not ok. |
| Plugin.CaptureSnapshot | wellcrafted_plugin.cs:221-304 | A missing UI, a missing or invisible root gives the empty snapshot. Otherwise every lane records its element's visibility and text. |
| Plugin.UnsetPathSelectsRoot | wellcrafted_plugin.cs:260-270 | An unset or unreadable choice path is the empty chain, so that choice is the root itself, a visible lane. |
| Plugin.LaneTextTrimmed | wellcrafted_plugin.cs:279-290 | A lane with text holds it trimmed and non-blank. |
| GenKey.Low16 | UI/ChoicesPanelTracker.cs:96-99 | A field is below 2^16. |
| GenKey.Low16Wraps | UI/ChoicesPanelTracker.cs:96-99 | Only the value modulo 2^16 reaches the key. |
| GenKey.PackSafe | UI/ChoicesPanelTracker.cs:88-90 | A null rectangle packs to 0. |
| GenKey.PackFields | UI/ChoicesPanelTracker.cs:101 | Each 16-bit field is read back from the packed key. |
| GenKey.PackRectFields | UI/ChoicesPanelTracker.cs:88-103 | Field k of a rectangle's key is its k-th coordinate modulo 2^16. |
| GenKey.PackRectSame | UI/Overlay/OverlayRenderer.cs:182-192 | Two rectangles share a key exactly when their four fields agree modulo 2^16. |
| GenKey.NullKeyCollision | UI/ChoicesPanelTracker.cs:88-103 | A 65536-pixel square at the origin packs to 0, as a missing rectangle does. |
| GenKey.GraceMs | UI/ChoicesPanelTracker.cs:67 | The grace length is the setting clamped below at 0, or 3000 when it is absent. |
| PanelTracker.NewTracker | UI/ChoicesPanelTracker.cs:21-26 | A new tracker is hidden, was hidden, and is at generation 0. |
| PanelTracker.SetVisible | UI/ChoicesPanelTracker.cs:77-86 | The old visibility is remembered. Hiding clears the grace deadline and the key; showing keeps them. |
| PanelTracker.Update | UI/ChoicesPanelTracker.cs:40-73 | A frame without the panel hides it and clears the grace and the key. A visible frame that rebuilds moves the generation by one (mod 2^32), opens the grace window and stores the key. Without a rebuild, generation, grace and key are unchanged. |
| PanelTracker.UpdateKeepsValid | UI/ChoicesPanelTracker.cs:22-66 | The generation stays within its `uint`. |
| PanelTracker.GenerationMoves | UI/ChoicesPanelTracker.cs:64-70 | The generation changes exactly on visible frames where the panel was not seen before or the key moved. |
| PanelTracker.HiddenNotInGrace | UI/ChoicesPanelTracker.cs:75-83 | After a frame without the panel, no non-negative time is in grace. |
| PanelTracker.GraceWindow | UI/ChoicesPanelTracker.cs:66-75 | After a rebuild at nowMs, a time is in grace exactly when it is before nowMs plus the grace length. |
| PanelTracker.DefaultGraceWindow | UI/ChoicesPanelTracker.cs:66-75 | With the setting absent, nowMs + 2999 is in grace and nowMs + 3000 is not. |
| PanelTracker.Steady | UI/ChoicesPanelTracker.cs:64-72 | Once the panel has been seen twice with the same key, frames with that key change nothing. |
| PanelTracker.HideTwice | UI/ChoicesPanelTracker.cs:42-86 | Two frames without the panel reset everything but the generation. |
| PanelTracker.AppearanceRebuildsTwice | UI/ChoicesPanelTracker.cs:64-80 | A fresh appearance with unchanged rectangles rebuilds on the first and the second frame, and settles from the third. |
| Overlay.DrawableIff | UI/Overlay/OverlayRenderer.cs:175-180 | A lane is drawable, as the lane loop of lines 51-56 tests it, exactly when its element exists and its rectangle is wider and taller than 8. |
| Overlay.LaneKey | UI/Overlay/OverlayRenderer.cs:63-67 | A lane whose rectangle is not valid adds 0 to the key. |
| Overlay.Track | UI/Overlay/OverlayRenderer.cs:57-79 | The remembered visibility is this frame's. A rebuild re-arms the grace, stores the key and clears the reported texts. Any other frame keeps all three. |
| Overlay.NoLag | UI/Overlay/OverlayRenderer.cs:79 | The remembered visibility is this frame's, with no lag, unlike the tracker. |
| Overlay.HideKeepsState | UI/Overlay/OverlayRenderer.cs:69-78 | Hiding the panel keeps the grace deadline, the key and the reported texts. |
| Overlay.RearmIff | UI/Overlay/OverlayRenderer.cs:69-78 | A visible frame re-arms the grace window and clears the reported texts exactly when the panel was not visible before or the key changed. |
| Overlay.AppearsOnce | UI/Overlay/OverlayRenderer.cs:69-79 | The same panel seen again re-arms nothing, so the renderer re-arms once per appearance. |
| Overlay.Verdict | UI/Overlay/OverlayRenderer.cs:145-165 | FAVORITE when any weight is a favourite. Otherwise BANNED when any weight is at most -11. Otherwise the combined score, labelled by the score tests. |
| Overlay.FavoriteBeatsBan | UI/Overlay/OverlayRenderer.cs:146-152 | A favourite weight wins over a banned one. |
| Overlay.ScoreBadge | UI/Overlay/OverlayRenderer.cs:158-165 | Without favourite or banned weights, the badge carries the combined panel score. |
| Overlay.DrawLane | UI/Overlay/OverlayRenderer.cs:107-171 | The placeholder appears exactly when the lookup finds nothing, the frame is outside grace and the text is not blank. A non-empty echo appears exactly when echoes are on and the text is not blank. Reported texts are only added. |
| Overlay.DrawLanes | UI/Overlay/OverlayRenderer.cs:92-96 | The drawable lanes, in order. |
| Overlay.DrawableFromSpec | UI/Overlay/OverlayRenderer.cs:92-94 | Exactly the drawable lanes are listed, each once, in increasing order. |
| Overlay.RenderOverlay | UI/Overlay/OverlayRenderer.cs:44-173 | A frame without a root changes nothing and draws nothing. Lanes are drawn only when the panel is visible and the grace window is open or some lane has text. |
| Overlay.DrawGate | UI/Overlay/OverlayRenderer.cs:81-94 | Lanes are drawn exactly when the root was found, the panel is visible, and the grace window is open or some lane has text. Then every drawable lane is drawn, in order. |
| Overlay.ReportedKey | UI/Overlay/OverlayRenderer.cs:113-121 | A text reported as unknown is kept as its normalised, non-blank key. |
| Overlay.NoPlaceholderInGrace | UI/Overlay/OverlayRenderer.cs:122-127 | The placeholder is never drawn inside the grace window. |

## Left out

- File and JSON I/O are not modelled. This covers `File`/`Directory`, the backup rotation and path fallback of the profile store, and System.Text.Json. Reads are given as values (`FileRead`, `ProfilesRead`: missing, unreadable, or parsed) and writes are the returned records.
- Exceptions are modelled as `Option` results or a "thrown" flag where the code catches them. Logging, the `ProfilesChanged` event and the settings classes are left out; only their constants are kept (grace 3000, thresholds -4 and 4).
- The plugin lifecycle, hotkeys, the snapshot `TimeCache` and lazy service creation are left out. So are the diagnostic `Notes` of a snapshot and `Bool3`.
- Drawing is left out: ImGui, `DrawBadge` (including its `ShowScoreBadge` switch), `DrawBubbleText`, `ToU32`, the offsets, bubbles and pixel snapping, and the debug rectangles. The model records what each lane would draw, not how.
- Overlay.DrawLane: the hidden-line label keeps the hidden text as it is. It does not apply `Replace('%', '#')` or the "0.0" number formatting.
- Floating point is modelled as `real`. The banned score (negative infinity) and the favourite score are constructors of `Score`. The favourite score test is taken to accept the favourite constant and reject negative infinity; on finite totals it is a parameter. `Math.Round` is out of scope: rectangle coordinates are given as already-rounded integers.
- UiTree.GetSafeRect: compares the rounded integer width and height with 0, where the code compares the float values.
- Overlay.IsRectValid: tests the rounded integer width and height against 8, where the code tests the float values with `> 8`. A width of 8.4 makes a lane drawable in the code and not in the model.
- HiddenMapping.GetBuiltInMappings: the contract states the count of four. The entries themselves, and that their keys are normal, are stated by `BuiltInTable.BuiltInEntries`.
- `IsWeightFavorite` and `IsScoreFavorite` are defined in no file of this model. Each function that calls one takes it as a parameter (`Colors.SliderBand`, `Colors.ScoreBand`, `Overlay.Verdict`), and no favourite threshold is invented.
- `ToLowerInvariant` and `OrdinalIgnoreCase` are modelled as ASCII case folding. The Unicode space and dash replacements act on the listed code points only. The regex engine is replaced by explicit scanners.
- Canon.IsDigit: `\d` is the ASCII digits only. The code's regex has no ECMAScript option, so .NET also matches every other Unicode decimal digit (category Nd). Such a digit becomes '#' in the code, while the model turns it into a space in the character filter.
- ProfileMigration.LoadProfiles: a profile value in the file is never null. In the code, a `null` value (`"Profiles": {"A": null}`) makes `NormalizeProfileKeys` throw, and the load then gives the default set. So `LoadFallsBack` does not list that case, and `LoadNormal` is stated for files whose profile values are all objects.
- ProfilesService.CreateProfile: the new name is appended to the names. `Dictionary` puts a key added after a `Remove` into the freed slot, so a profile created after `DeleteProfile` takes the deleted one's place in the code. This changes only the order of the saved file's properties, because `GetProfileNames` sorts. The model does not track freed slots between calls. Within `RenameProfile`, where the freed slot is reused at once, the order is exact.
- Dictionary enumeration order is otherwise insertion order. The culture-sensitive `OrderBy` of the known-mods listings and `GetProfileNames` is an ordinal sort.
- GenKey.Mix: it is modelled bit for bit (wrapping `ulong` arithmetic on `bv64`), but nothing is proved about how well it separates keys.
- PanelTracker.Update: `nowMs + grace` is computed on unbounded integers, where the code's `long` addition could overflow near `long.MaxValue`.
- `Refresh` (which reads `Environment.TickCount64`) is left out. The time is a parameter of `Update` and `RenderOverlay`.
- Canon.AliasPacks: the contract states only character provenance. The replacement is exhibited by `CanonFacts.NotIdempotentOnPackss` and by the worked examples.
- MappingLoader.CleanEntries: the contract bounds the count only. What is kept is stated by `CleanEntriesCount`, `CleanEntriesSourced` and `CleanEntriesCovers`.
- ProfileMigration.MigrateWeightDictionary: the contract states only when it throws. The copied values are stated by `LegacyEntries`, and the re-keying by `ProfileStore.NormalizeDictionaryAbsent` and `NormalizeDictionaryLast`.
- Plugin.ParseInt32: the contract states the range only. What it accepts is pinned by `ParseShow` and `BlankPieceSpoils`.
- Plugin.FollowChain: the contract covers the empty chain and a null start. The step rule is stated by `FollowAppend` and by the function itself.
- CanonFacts.NormalizeIdempotent: idempotence holds only when the normal form holds no "packs". The code comment claims it without condition, and `CanonFacts.NotIdempotentOnPackss` gives the counterexample. The model keeps the code's behaviour.
- The older copies `hidden_mapping.cs`, `scoring_rules.cs`, `profiles_store.cs`, `hidden_mapping_loader.cs` and `overlay_renderer.cs` are superseded by the foldered versions and are not part of this model.
- The settings panels (`UI/ProfilesPanel.cs`, `UI/PanelRoot.cs`, `UI/Tables/WeightsTableRenderer.cs`) are not part of this model.
