/**
 * `ProfilesStore`: re-keying weight maps through `Normalize`, the default
 * profile set, the legacy-schema migration and the order of decisions when a
 * profiles file is loaded or saved.
 *
 * Reading and writing the file and System.Text.Json are not modelled: a read
 * arrives as a `ProfilesRead`, which carries the deserialised record and the
 * parsed document the migration inspects.
 */
module ProfileStore {
  import opened Opt
  import opened Text
  import opened Canon
  import opened CanonFacts
  import opened Sentences
  import opened CiDict
  import opened ProfileModel

  // ---------------------------------------------------------------------------
  // NormalizeDictionary
  // ---------------------------------------------------------------------------

  /**
   * The entries of `source` written in enumeration order into a fresh map,
   * each under `norm` of its key. `NormalizeDictionary` passes `Normalize`;
   * the facts below hold for any re-keying function.
   */
  function Rekey(source: Weights, norm: string -> string): Weights
    decreases |source|
  {
    if |source| == 0 then []
    else
      var n := |source| - 1;
      Put(Rekey(source[..n], norm), norm(source[n].0), source[n].1)
  }

  /** Re-keying yields a map without two keys equal up to case. */
  lemma {:induction false} RekeyValid(source: Weights, norm: string -> string)
    ensures Valid(Rekey(source, norm))
    decreases |source|
  {
    if |source| > 0 {
      var n := |source| - 1;
      RekeyValid(source[..n], norm);
      PutValid(Rekey(source[..n], norm), norm(source[n].0), source[n].1);
    }
  }

  /** `NormalizeDictionary`: a null map gives an empty one. */
  function NormalizeDictionary(source: Option<Weights>): (r: Weights)
    ensures source.None? ==> r == []
    ensures Valid(r)
  {
    if source.None? then []
    else
      RekeyValid(source.value, Normalize);
      Rekey(source.value, Normalize)
  }

  /** Entry `i` of `source` is stored under a key equal to `k` up to case. */
  predicate Lands(source: Weights, norm: string -> string, i: int, k: string)
    requires 0 <= i < |source|
  {
    EqualsIgnoreCase(norm(source[i].0), k)
  }

  /** `k` is the re-keyed form of some key of `source`. */
  predicate KeyOfSome(source: Weights, norm: string -> string, k: string) {
    exists i :: 0 <= i < |source| && k == norm(source[i].0)
  }

  lemma RekeyStep(source: Weights, norm: string -> string)
    requires |source| > 0
    ensures Rekey(source, norm) == Put(Rekey(source[..|source| - 1], norm), norm(source[|source| - 1].0), source[|source| - 1].1)
  {
  }

  /** A key is absent from the re-keyed map exactly when no source key is re-keyed to it. */
  lemma {:induction false} RekeyAbsent(source: Weights, norm: string -> string, k: string)
    ensures Get(Rekey(source, norm), k).None? <==> forall i :: 0 <= i < |source| ==> !Lands(source, norm, i, k)
    decreases |source|
  {
    if |source| > 0 {
      var n := |source| - 1;
      RekeyAbsent(source[..n], norm, k);
      RekeyStep(source, norm);
      GetPut(Rekey(source[..n], norm), norm(source[n].0), source[n].1, k);
      NoneLandsSplit(source, source[..n], norm, k);
    }
  }

  /** No entry lands on `k` exactly when the last one does not and none of the others does. */
  lemma NoneLandsSplit(source: Weights, init: Weights, norm: string -> string, k: string)
    requires |source| > 0 && init == source[..|source| - 1]
    ensures (forall i :: 0 <= i < |source| ==> !Lands(source, norm, i, k)) <==>
      !Lands(source, norm, |source| - 1, k) && forall i :: 0 <= i < |init| ==> !Lands(init, norm, i, k)
  {
    LandsInit(source, init, norm, k);
  }

  /** The entries before the last land where they landed in the whole source. */
  lemma LandsInit(source: Weights, init: Weights, norm: string -> string, k: string)
    requires |source| > 0 && init == source[..|source| - 1]
    ensures forall j :: 0 <= j < |init| ==> Lands(init, norm, j, k) == Lands(source, norm, j, k)
  {
    forall j | 0 <= j < |init| ensures Lands(init, norm, j, k) == Lands(source, norm, j, k) {
      assert init[j] == source[j];
    }
  }

  /** A present key carries the value of the LAST source entry re-keyed to it. */
  lemma {:induction false} RekeyLast(source: Weights, norm: string -> string, k: string, i: nat)
    requires i < |source| && Lands(source, norm, i, k)
    requires forall j :: i < j < |source| ==> !Lands(source, norm, j, k)
    ensures Get(Rekey(source, norm), k) == Some(source[i].1)
    decreases |source|
  {
    var n := |source| - 1;
    var init := source[..n];
    if i < n {
      assert !Lands(source, norm, n, k);
      LandsInit(source, init, norm, k);
      RekeyLast(init, norm, k, i);
      RekeyMisses(source, init, norm, k);
    } else {
      RekeyHits(source, init, norm, k);
    }
  }

  /** A last entry that does not land on `k` leaves the value at `k` as it was. */
  lemma RekeyMisses(source: Weights, init: Weights, norm: string -> string, k: string)
    requires |source| > 0 && init == source[..|source| - 1] && !Lands(source, norm, |source| - 1, k)
    ensures Get(Rekey(source, norm), k) == Get(Rekey(init, norm), k)
  {
    var n := |source| - 1;
    RekeyStep(source, norm);
    PutOther(Rekey(init, norm), norm(source[n].0), source[n].1, k);
  }

  /** A last entry that lands on `k` puts its value there. */
  lemma RekeyHits(source: Weights, init: Weights, norm: string -> string, k: string)
    requires |source| > 0 && init == source[..|source| - 1] && Lands(source, norm, |source| - 1, k)
    ensures Get(Rekey(source, norm), k) == Some(source[|source| - 1].1)
  {
    var n := |source| - 1;
    RekeyStep(source, norm);
    PutSame(Rekey(init, norm), norm(source[n].0), source[n].1, k);
  }

  /** Every stored key is, verbatim, the re-keyed form of a source key. */
  lemma {:induction false} RekeyKeys(source: Weights, norm: string -> string)
    ensures forall j :: 0 <= j < |Rekey(source, norm)| ==> KeyOfSome(source, norm, Rekey(source, norm)[j].0)
    decreases |source|
  {
    if |source| > 0 {
      var n := |source| - 1;
      var init := source[..n];
      var acc := Rekey(init, norm);
      RekeyStep(source, norm);
      RekeyKeys(init, norm);
      PutKeysFrom(acc, norm(source[n].0), source[n].1);
      var r := Rekey(source, norm);
      forall j | 0 <= j < |r| ensures KeyOfSome(source, norm, r[j].0) {
        if r[j].0 != norm(source[n].0) {
          KeyOfInit(source, init, norm, acc[j].0);
        }
      }
    }
  }

  /** A key re-keyed from an entry before the last is re-keyed from the whole source. */
  lemma KeyOfInit(source: Weights, init: Weights, norm: string -> string, k: string)
    requires |source| > 0 && init == source[..|source| - 1]
    requires KeyOfSome(init, norm, k)
    ensures KeyOfSome(source, norm, k)
  {
    var i :| 0 <= i < |init| && k == norm(init[i].0);
    assert init[i] == source[i];
  }

  /** A map whose keys are distinct and fixed by `norm` is re-keyed to itself. */
  lemma {:induction false} RekeyOfFixed(d: Weights, norm: string -> string)
    requires Valid(d)
    requires forall j :: 0 <= j < |d| ==> norm(d[j].0) == d[j].0
    ensures Rekey(d, norm) == d
    decreases |d|
  {
    if |d| > 0 {
      var init := d[..|d| - 1];
      FixedInit(d, init, norm);
      RekeyOfFixed(init, norm);
      FixedLast(d, init, norm);
    }
  }

  /** Dropping the last entry of a distinct, fixed map keeps it so, and no kept key matches the dropped one. */
  lemma FixedInit(d: Weights, init: Weights, norm: string -> string)
    requires Valid(d) && |d| > 0 && init == d[..|d| - 1]
    requires forall j :: 0 <= j < |d| ==> norm(d[j].0) == d[j].0
    ensures Valid(init)
    ensures forall j :: 0 <= j < |init| ==> norm(init[j].0) == init[j].0
    ensures forall j :: 0 <= j < |init| ==> !EqualsIgnoreCase(init[j].0, d[|d| - 1].0)
  {
    var n := |d| - 1;
    assert forall j :: 0 <= j < n ==> init[j] == d[j];
    forall j | 0 <= j < n ensures !EqualsIgnoreCase(init[j].0, d[n].0) {
      assert Fold(d[j].0) != Fold(d[n].0);
    }
  }

  /** Re-keying the last, unmatched, fixed entry onto an unchanged prefix appends it. */
  lemma FixedLast(d: Weights, init: Weights, norm: string -> string)
    requires |d| > 0 && init == d[..|d| - 1] && Rekey(init, norm) == init
    requires norm(d[|d| - 1].0) == d[|d| - 1].0
    requires forall j :: 0 <= j < |init| ==> !EqualsIgnoreCase(init[j].0, d[|d| - 1].0)
    ensures Rekey(d, norm) == d
  {
    var n := |d| - 1;
    RekeyStep(d, norm);
    assert Find(init, d[n].0).None?;
    SeqBack(d);
  }

  /** A key is absent from `NormalizeDictionary(source)` exactly when no source key normalises to it (up to case). */
  lemma NormalizeDictionaryAbsent(source: Weights, k: string)
    ensures Get(NormalizeDictionary(Some(source)), k).None? <==>
      forall i :: 0 <= i < |source| ==> !EqualsIgnoreCase(Normalize(source[i].0), k)
  {
    RekeyAbsent(source, Normalize, k);
    assert forall i :: 0 <= i < |source| ==> (Lands(source, Normalize, i, k) <==> EqualsIgnoreCase(Normalize(source[i].0), k));
  }

  /** When several source keys normalise to `k`, the later entry's value wins. */
  lemma NormalizeDictionaryLast(source: Weights, k: string, i: nat)
    requires i < |source| && EqualsIgnoreCase(Normalize(source[i].0), k)
    requires forall j :: i < j < |source| ==> !EqualsIgnoreCase(Normalize(source[j].0), k)
    ensures Get(NormalizeDictionary(Some(source)), k) == Some(source[i].1)
  {
    assert forall j :: i < j < |source| ==> !Lands(source, Normalize, j, k);
    RekeyLast(source, Normalize, k, i);
  }

  /** Every key of a re-keyed map is verbatim the normal form of a source key, hence canonical. */
  lemma NormalizeDictionaryKeys(source: Option<Weights>)
    ensures source.None? ==> NormalizeDictionary(source) == []
    ensures forall j :: 0 <= j < |NormalizeDictionary(source)| ==>
      exists i :: 0 <= i < |source.value| && NormalizeDictionary(source)[j].0 == Normalize(source.value[i].0)
    ensures forall j :: 0 <= j < |NormalizeDictionary(source)| ==> Canonical(NormalizeDictionary(source)[j].0)
  {
    if source.Some? {
      var d := NormalizeDictionary(source);
      RekeyKeys(source.value, Normalize);
      forall j | 0 <= j < |d| ensures exists i :: 0 <= i < |source.value| && d[j].0 == Normalize(source.value[i].0) {
        assert KeyOfSome(source.value, Normalize, d[j].0);
      }
      forall j | 0 <= j < |d| ensures Canonical(d[j].0) {
        var i :| 0 <= i < |source.value| && d[j].0 == Normalize(source.value[i].0);
        NormalizeCanonical(source.value[i].0);
      }
    }
  }

  /**
   * Re-keying twice is re-keying once, provided no normal key holds "packs"
   * (for such a key the alias pass would shorten it again).
   */
  lemma NormalizeDictionaryTwice(source: Option<Weights>)
    requires forall j :: 0 <= j < |NormalizeDictionary(source)| ==> !IsSubstring("packs", NormalizeDictionary(source)[j].0)
    ensures NormalizeDictionary(Some(NormalizeDictionary(source))) == NormalizeDictionary(source)
  {
    var d := NormalizeDictionary(source);
    NormalizeDictionaryKeys(source);
    forall j | 0 <= j < |d| ensures Normalize(d[j].0) == d[j].0 {
      var i :| 0 <= i < |source.value| && d[j].0 == Normalize(source.value[i].0);
      NormalizeIdempotent(source.value[i].0);
    }
    RekeyOfFixed(d, Normalize);
  }

  // ---------------------------------------------------------------------------
  // NormalizeProfileKeys
  // ---------------------------------------------------------------------------

  /** One profile with its three weight maps re-keyed. */
  function NormalizeProfile(p: WeightProfile): (q: WeightProfile)
    ensures q.multDefault == p.multDefault && q.multDesecrated == p.multDesecrated && q.multHidden == p.multHidden
    ensures q.visibleDefault.Some? && q.visibleDesecrated.Some? && q.hidden.Some?
  {
    p.(visibleDefault := Some(NormalizeDictionary(p.visibleDefault)),
       visibleDesecrated := Some(NormalizeDictionary(p.visibleDesecrated)),
       hidden := Some(NormalizeDictionary(p.hidden)))
  }

  function NormalizeProfiles(ps: Dict<WeightProfile>): (qs: Dict<WeightProfile>)
    ensures Keys(qs) == Keys(ps)
    ensures forall i :: 0 <= i < |ps| ==> qs[i].1 == NormalizeProfile(ps[i].1)
  {
    seq(|ps|, i requires 0 <= i < |ps| => (ps[i].0, NormalizeProfile(ps[i].1)))
  }

  /** `NormalizeProfileKeys`: only the weight maps change. */
  function NormalizeProfileKeys(f: ProfilesFile): (g: ProfilesFile)
    ensures g.schema == f.schema && g.active == f.active && g.comparer == f.comparer && Keys(g.profiles) == Keys(f.profiles)
  {
    f.(profiles := NormalizeProfiles(f.profiles))
  }

  /** Every weight map of the profile is present and keyed by canonical, distinct texts. */
  predicate NormalMap(m: Option<Weights>) {
    m.Some? && Valid(m.value) && forall j :: 0 <= j < |m.value| ==> Canonical(m.value[j].0)
  }

  predicate NormalProfile(p: WeightProfile) {
    NormalMap(p.visibleDefault) && NormalMap(p.visibleDesecrated) && NormalMap(p.hidden)
  }

  /** Every profile of the file has normal weight maps. */
  predicate NormalFile(f: ProfilesFile) {
    forall i :: 0 <= i < |f.profiles| ==> NormalProfile(f.profiles[i].1)
  }

  lemma NormalizeProfileNormal(p: WeightProfile)
    ensures NormalProfile(NormalizeProfile(p))
  {
    NormalizeDictionaryKeys(p.visibleDefault);
    NormalizeDictionaryKeys(p.visibleDesecrated);
    NormalizeDictionaryKeys(p.hidden);
  }

  /** After re-keying, every profile's maps are present, distinct and canonical. */
  lemma NormalizeProfileKeysNormal(f: ProfilesFile)
    ensures NormalFile(NormalizeProfileKeys(f))
  {
    forall i | 0 <= i < |f.profiles| ensures NormalProfile(NormalizeProfileKeys(f).profiles[i].1) {
      NormalizeProfileNormal(f.profiles[i].1);
    }
  }

  // ---------------------------------------------------------------------------
  // CreateDefaultProfiles
  // ---------------------------------------------------------------------------

  /** "Map Item Drop Chance" and its normal form, word by word. */
  const MapDropWords: seq<string> := ["Map", "Item", "Drop", "Chance"]
  const MapDropKeyWords: seq<string> := ["map", "item", "drop", "chance"]

  /** "pack size", already normal. */
  const PackSizeWords: seq<string> := ["pack", "size"]

  /** A profile seeded as `CreateDefaultProfiles` does, under the four given keys. */
  function SeedProfile(mapDrop: string, packSize: string, quantity: string, rarity: string): WeightProfile {
    FreshProfile().(
      hidden := Some(Put([], mapDrop, 3.0)),
      visibleDefault := Some(Put(Put(Put([], packSize, 2.0), quantity, 2.0), rarity, 0.0)))
  }

  /** The profile `CreateDefaultProfiles` seeds: four weights under normalised keys, zero multipliers. */
  function DefaultProfile(): WeightProfile {
    SeedProfile(Normalize(Join(MapDropWords, " ")), Normalize(Join(PackSizeWords, " ")), Normalize("quantity"), Normalize("rarity"))
  }

  /** `CreateDefaultProfiles`. */
  function CreateDefaultProfiles(): ProfilesFile {
    ProfilesFile(CurrentSchema, Put(FreshFile().profiles, DefaultName, DefaultProfile()), Some(DefaultName), IgnoreCase)
  }

  lemma MapDropNormal()
    ensures Normalize(Join(MapDropWords, " ")) == Join(MapDropKeyWords, " ")
  {
    assert Fold("Map") == "map";
    assert Fold("Item") == "item";
    assert Fold("Drop") == "drop";
    assert Fold("Chance") == "chance";
    PlainSegment(MapDropWords, MapDropKeyWords);
    NormalizeSentence(MapDropWords, MapDropKeyWords);
  }

  lemma PackSizeNormal()
    ensures Normalize(Join(PackSizeWords, " ")) == Join(PackSizeWords, " ")
  {
    PackWord();
    assert Fold("size") == "size";
    PlainSegment(["size"], ["size"]);
    WordsRewriteAppend(["pack"], ["pack"], ["size"], ["size"]);
    assert ["pack"] + ["size"] == PackSizeWords;
    NormalizeSentence(PackSizeWords, PackSizeWords);
  }

  /** A lower-case word without "packs" is its own normal form. */
  lemma LowerWordNormal(w: string)
    requires |w| > 0 && forall i :: 0 <= i < |w| ==> 'a' <= w[i] <= 'z'
    requires 'k' !in w || 'p' !in w
    ensures Normalize(w) == w
  {
    NoPacks(w);
    NormalizeWord(w, w);
  }

  /** The one-word seed keys, "quantity" and "rarity", are their own normal forms. */
  lemma SeedWordNormal(w: string)
    requires w == "quantity" || w == "rarity"
    ensures Normalize(w) == w
  {
    LowerWordNormal(w);
  }

  lemma PackSizeLength()
    ensures |Join(PackSizeWords, " ")| == 9
  {
  }

  /** Writing under a key whose length no stored key has appends. */
  lemma PutFresh<V>(d: Dict<V>, k: string, v: V)
    requires forall j :: 0 <= j < |d| ==> |d[j].0| != |k|
    ensures Put(d, k, v) == d + [(k, v)]
  {
    assert forall j :: 0 <= j < |d| ==> !EqualsIgnoreCase(d[j].0, k);
  }

  /** Three writes under keys of three different lengths. */
  lemma ThreePuts(p: string, q: string, r: string)
    requires |p| != |q| && |p| != |r| && |q| != |r|
    ensures Put(Put(Put([], p, 2.0), q, 2.0), r, 0.0) == [(p, 2.0), (q, 2.0), (r, 0.0)]
  {
    PutFresh([], p, 2.0);
    PutFresh([(p, 2.0)], q, 2.0);
    PutFresh([(p, 2.0), (q, 2.0)], r, 0.0);
  }

  /** The seeded maps. */
  lemma SeedContents(m: string, p: string, q: string, r: string)
    requires |p| != |q| && |p| != |r| && |q| != |r|
    ensures SeedProfile(m, p, q, r).visibleDefault == Some([(p, 2.0), (q, 2.0), (r, 0.0)])
    ensures SeedProfile(m, p, q, r).hidden == Some([(m, 3.0)])
    ensures SeedProfile(m, p, q, r).visibleDesecrated == Some([])
  {
    ThreePuts(p, q, r);
    PutFresh([], m, 3.0);
    assert [] + [(m, 3.0)] == [(m, 3.0)];
  }

  lemma DefaultContents()
    ensures DefaultProfile().visibleDefault == Some([(Join(PackSizeWords, " "), 2.0), ("quantity", 2.0), ("rarity", 0.0)])
    ensures DefaultProfile().hidden == Some([(Join(MapDropKeyWords, " "), 3.0)])
  {
    MapDropNormal();
    PackSizeNormal();
    SeedWordNormal("quantity");
    SeedWordNormal("rarity");
    PackSizeLength();
    SeedContents(Join(MapDropKeyWords, " "), Join(PackSizeWords, " "), "quantity", "rarity");
  }

  /**
   * The default set: schema 2, the single profile "Default", which is active;
   * zero multipliers, an empty desecrated map and the four seeded weights.
   */
  lemma DefaultProfilesSpec()
    ensures CreateDefaultProfiles().schema == CurrentSchema
    ensures CreateDefaultProfiles().profiles == [(DefaultName, DefaultProfile())]
    ensures CreateDefaultProfiles().active == Some(DefaultName)
    ensures DefaultProfile().multDefault == 0.0 && DefaultProfile().multDesecrated == 0.0 && DefaultProfile().multHidden == 0.0
    ensures DefaultProfile().visibleDesecrated == Some([])
    ensures DefaultProfile().visibleDefault == Some([(Join(PackSizeWords, " "), 2.0), ("quantity", 2.0), ("rarity", 0.0)])
    ensures DefaultProfile().hidden == Some([(Join(MapDropKeyWords, " "), 3.0)])
  {
    DefaultContents();
  }

  /** Three entries under canonical keys of three different lengths form a normal map. */
  lemma ThreeNormal(p: string, q: string, r: string)
    requires Canonical(p) && Canonical(q) && Canonical(r)
    requires |p| != |q| && |p| != |r| && |q| != |r|
    ensures NormalMap(Some([(p, 2.0), (q, 2.0), (r, 0.0)]))
  {
    var vd := [(p, 2.0), (q, 2.0), (r, 0.0)];
    assert Fold(p) != Fold(q) && Fold(p) != Fold(r) && Fold(q) != Fold(r);
    assert Valid(vd);
  }

  /** A profile seeded under canonical keys of three different lengths has normal maps. */
  lemma SeedNormal(m: string, p: string, q: string, r: string)
    requires Canonical(m) && Canonical(p) && Canonical(q) && Canonical(r)
    requires |p| != |q| && |p| != |r| && |q| != |r|
    ensures NormalProfile(SeedProfile(m, p, q, r))
  {
    SeedContents(m, p, q, r);
    ThreeNormal(p, q, r);
    OneNormal(m);
    NormalOfMaps(SeedProfile(m, p, q, r), Some([(p, 2.0), (q, 2.0), (r, 0.0)]), Some([(m, 3.0)]));
  }

  /** A single entry under a canonical key forms a normal map. */
  lemma OneNormal(m: string)
    requires Canonical(m)
    ensures NormalMap(Some([(m, 3.0)]))
  {
  }

  /** A profile whose maps are the given normal maps and an empty desecrated map is normal. */
  lemma NormalOfMaps(s: WeightProfile, vd: Option<Weights>, h: Option<Weights>)
    requires s.visibleDefault == vd && s.hidden == h && s.visibleDesecrated == Some([])
    requires NormalMap(vd) && NormalMap(h)
    ensures NormalProfile(s)
  {
  }

  /** The default set's weight maps are keyed by canonical, distinct texts. */
  lemma DefaultProfilesNormal()
    ensures NormalFile(CreateDefaultProfiles())
  {
    DefaultList();
    DefaultProfileNormal();
    OneProfileNormal(CreateDefaultProfiles());
  }

  lemma DefaultList()
    ensures CreateDefaultProfiles().profiles == [(DefaultName, DefaultProfile())]
  {
  }

  lemma DefaultProfileNormal()
    ensures NormalProfile(DefaultProfile())
  {
    var m, p, q, r := Normalize(Join(MapDropWords, " ")), Normalize(Join(PackSizeWords, " ")), Normalize("quantity"), Normalize("rarity");
    PackSizeNormal();
    SeedWordNormal("quantity");
    SeedWordNormal("rarity");
    PackSizeLength();
    NormalizeCanonical(Join(MapDropWords, " "));
    NormalizeCanonical(Join(PackSizeWords, " "));
    NormalizeCanonical("quantity");
    NormalizeCanonical("rarity");
    SeedNormal(m, p, q, r);
  }

  /** A file with one normal profile is normal. */
  lemma OneProfileNormal(f: ProfilesFile)
    requires |f.profiles| == 1 && NormalProfile(f.profiles[0].1)
    ensures NormalFile(f)
  {
  }
}
