/**
 * The records kept in the profiles file: per-panel weight maps and bias
 * multipliers for each named profile, and the name of the active profile.
 *
 * Weights and multipliers are `float` in the program and reals here. A weight
 * map is a case-insensitive dictionary that may be `null` after
 * deserialisation, hence `Option`.
 */
module ProfileModel {
  import opened Opt
  import opened CiDict

  /** A weight map: normalised mod text to weight. */
  type Weights = Dict<real>

  datatype WeightProfile = WeightProfile(
    visibleDefault: Option<Weights>,
    visibleDesecrated: Option<Weights>,
    hidden: Option<Weights>,
    multDefault: real,
    multDesecrated: real,
    multHidden: real)

  /**
   * The profiles file. `profiles` is the name to profile map and `comparer` the
   * comparer it was built with: case-insensitive when the program creates
   * the file or the JSON has no `Profiles`, ordinal when the deserialiser
   * replaces the map with the one it reads. `active` may be `null` after
   * deserialisation.
   */
  datatype ProfilesFile = ProfilesFile(schema: int, profiles: Dict<WeightProfile>, active: Option<string>, comparer: Comparer)

  /** The current file format. */
  const CurrentSchema: int := 2

  /** The profile that always exists. */
  const DefaultName: string := "Default"

  /** `new WeightProfile { MultDefault = 0, MultDesecrated = 0, MultHidden = 0 }`. */
  function FreshProfile(): (p: WeightProfile)
    ensures p.visibleDefault == Some([]) && p.visibleDesecrated == Some([]) && p.hidden == Some([])
    ensures p.multDefault == 0.0 && p.multDesecrated == 0.0 && p.multHidden == 0.0
  {
    WeightProfile(Some([]), Some([]), Some([]), 0.0, 0.0, 0.0)
  }

  /** `new ProfilesFile()`: schema 2, no profiles, active "Default", names compared ignoring case. */
  function FreshFile(): (f: ProfilesFile)
    ensures f.schema == CurrentSchema && |f.profiles| == 0 && f.active == Some(DefaultName) && f.comparer == IgnoreCase
  {
    ProfilesFile(CurrentSchema, [], Some(DefaultName), IgnoreCase)
  }
}
