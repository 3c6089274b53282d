/**
 * `ScoringRules`: the banned sentinel, weight lookup under normalised keys and
 * the combination of the three panel weights into one clamped total.
 *
 * The program's `float` sentinels become constructors: `BANNED_SCORE`
 * (negative infinity) is `Banned` and `FAVORITE_SCORE` is `Favorite`.
 */
module Scoring {
  import opened Opt
  import opened Text
  import opened Canon
  import opened CiDict
  import opened ProfileModel

  /** `BANNED_WEIGHT`: a weight at or below it bans the whole choice. */
  const BannedWeight: real := -11.0

  /** Totals are clamped to `[-ScoreLimit, ScoreLimit]`. */
  const ScoreLimit: real := 20.0

  /** `IsWeightBanned`. */
  predicate IsWeightBanned(w: real) {
    w <= BannedWeight
  }

  /** A panel total. */
  datatype Score = Banned | Favorite | Value(v: real)

  /** The three weight maps of a profile. */
  datatype Category = DefaultPanel | DesecratedPanel | HiddenPanel

  // ---------------------------------------------------------------------------
  // Weight lookup
  // ---------------------------------------------------------------------------

  /** `GetWeight(dict, key)`: the weight stored under `Normalize(key)`, or 0. */
  function GetWeight(dict: Option<Weights>, key: Option<string>): (w: real)
    ensures dict.None? || IsNullOrWhiteSpace(key) ==> w == 0.0
    ensures dict.Some? && !IsNullOrWhiteSpace(key) && !ContainsKey(dict.value, Normalize(key.value)) ==> w == 0.0
  {
    if dict.None? || IsNullOrWhiteSpace(key) then 0.0
    else GetOr(dict.value, Normalize(key.value), 0.0)
  }

  /** `category?.ToLowerInvariant() switch { "default", "desecrated", "hidden", _ }`. */
  function ParseCategory(category: Option<string>): (c: Option<Category>)
    ensures category.None? ==> c.None?
  {
    if category.None? then None
    else
      var low := Fold(category.value);
      if low == "default" then Some(DefaultPanel)
      else if low == "desecrated" then Some(DesecratedPanel)
      else if low == "hidden" then Some(HiddenPanel)
      else None
  }

  /** The map of `profile` that `c` names. */
  function MapOf(profile: WeightProfile, c: Category): Option<Weights> {
    match c
    case DefaultPanel => profile.visibleDefault
    case DesecratedPanel => profile.visibleDesecrated
    case HiddenPanel => profile.hidden
  }

  /**
   * `GetWeight(profile, category, key)`. Unlike the map overload this one
   * does not test the key for blankness: a null key normalises to "".
   */
  function GetProfileWeight(profile: Option<WeightProfile>, category: Option<string>, key: Option<string>): (w: real)
    ensures profile.None? || ParseCategory(category).None? ==> w == 0.0
  {
    if profile.None? then 0.0
    else
      match ParseCategory(category)
      case None => 0.0
      case Some(c) =>
        var m := MapOf(profile.value, c);
        if m.None? then 0.0 else GetOr(m.value, NormalizeOpt(key), 0.0)
  }

  /** Writing a weight under a normalised key and reading it back by the raw key gives the weight. */
  lemma GetWeightPut(d: Weights, key: string, v: real, other: string)
    requires !IsBlank(key) && !IsBlank(other)
    ensures GetWeight(Some(Put(d, Normalize(key), v)), Some(key)) == v
    ensures !EqualsIgnoreCase(Normalize(key), Normalize(other)) ==>
      GetWeight(Some(Put(d, Normalize(key), v)), Some(other)) == GetWeight(Some(d), Some(other))
  {
    PutReadBack(d, key, v);
    if !EqualsIgnoreCase(Normalize(key), Normalize(other)) {
      PutReadOther(d, key, v, other);
    }
  }

  /** The written key reads back the written weight. */
  lemma PutReadBack(d: Weights, key: string, v: real)
    requires !IsBlank(key)
    ensures GetWeight(Some(Put(d, Normalize(key), v)), Some(key)) == v
  {
    GetPut(d, Normalize(key), v, Normalize(key));
  }

  /** A key with another normal form reads what it read before the write. */
  lemma PutReadOther(d: Weights, key: string, v: real, other: string)
    requires !IsBlank(key) && !IsBlank(other) && !EqualsIgnoreCase(Normalize(key), Normalize(other))
    ensures GetWeight(Some(Put(d, Normalize(key), v)), Some(other)) == GetWeight(Some(d), Some(other))
  {
    GetPut(d, Normalize(key), v, Normalize(other));
  }

  /** Two keys with the same normal form read the same weight. */
  lemma GetWeightNormalForm(d: Option<Weights>, key: string, other: string)
    requires !IsBlank(key) && !IsBlank(other) && Normalize(key) == Normalize(other)
    ensures GetWeight(d, Some(key)) == GetWeight(d, Some(other))
  {
  }

  /** The category is matched ignoring case. */
  lemma ParseCategoryIgnoresCase(a: string, b: string)
    requires EqualsIgnoreCase(a, b)
    ensures ParseCategory(Some(a)) == ParseCategory(Some(b))
  {
  }

  /** An unknown category names no map. */
  lemma UnknownCategory(category: string)
    requires Fold(category) != "default" && Fold(category) != "desecrated" && Fold(category) != "hidden"
    ensures forall p, k :: GetProfileWeight(p, Some(category), k) == 0.0
  {
  }

  /** For a non-blank key the category overload reads the named map exactly as the map overload does. */
  lemma ProfileWeightAgrees(p: WeightProfile, category: string, c: Category, key: string)
    requires ParseCategory(Some(category)) == Some(c) && !IsBlank(key)
    ensures GetProfileWeight(Some(p), Some(category), Some(key)) == GetWeight(MapOf(p, c), Some(key))
  {
  }

  // ---------------------------------------------------------------------------
  // Combining the panels
  // ---------------------------------------------------------------------------

  function Sum(xs: seq<real>): real {
    if |xs| == 0 then 0.0 else xs[0] + Sum(xs[1..])
  }

  /** `hiddenWeights.Average()`, with 0 for a null or empty list. */
  function HiddenAverage(hidden: Option<seq<real>>): real {
    if hidden.None? || |hidden.value| == 0 then 0.0
    else Sum(hidden.value) / (|hidden.value| as real)
  }

  /** `hiddenWeights?.Any(IsWeightBanned) ?? false`. */
  predicate AnyBanned(hidden: Option<seq<real>>) {
    hidden.Some? && exists i :: 0 <= i < |hidden.value| && IsWeightBanned(hidden.value[i])
  }

  /** `MathF.Max(-20, MathF.Min(20, x))`. */
  function Clamp(x: real): (r: real)
    ensures -ScoreLimit <= r <= ScoreLimit
    ensures -ScoreLimit <= x <= ScoreLimit ==> r == x
    ensures x > ScoreLimit ==> r == ScoreLimit
    ensures x < -ScoreLimit ==> r == -ScoreLimit
  {
    if x > ScoreLimit then ScoreLimit else if x < -ScoreLimit then -ScoreLimit else x
  }

  /** The multiplier triple, each `profile?.X ?? 0`. */
  function Mult(profile: Option<WeightProfile>, c: Category): real {
    if profile.None? then 0.0
    else
      match c
      case DefaultPanel => profile.value.multDefault
      case DesecratedPanel => profile.value.multDesecrated
      case HiddenPanel => profile.value.multHidden
  }

  /** One panel's contribution: its weight scaled by `1 + multiplier`. */
  function Term(v: real, mult: real): real {
    v * (1.0 + mult)
  }

  /** The bias-weighted sum before clamping. */
  function Weighted(vd: real, vs: real, hidden: Option<seq<real>>, profile: Option<WeightProfile>): real {
    Term(vd, Mult(profile, DefaultPanel))
    + Term(vs, Mult(profile, DesecratedPanel))
    + Term(HiddenAverage(hidden), Mult(profile, HiddenPanel))
  }

  /** `CombinePanelScores`. */
  function CombinePanelScores(vd: real, vs: real, hidden: Option<seq<real>>, profile: Option<WeightProfile>): (r: Score)
    ensures r.Banned? <==> IsWeightBanned(vd) || IsWeightBanned(vs) || AnyBanned(hidden)
    ensures !r.Favorite?
    ensures r.Value? ==> -ScoreLimit <= r.v <= ScoreLimit
  {
    if IsWeightBanned(vd) || IsWeightBanned(vs) || AnyBanned(hidden) then Banned
    else Value(Clamp(Weighted(vd, vs, hidden, profile)))
  }

  /** Without a banned weight and with the weighted sum inside the limits, the total is that sum. */
  lemma CombineExact(vd: real, vs: real, hidden: Option<seq<real>>, profile: Option<WeightProfile>)
    requires !IsWeightBanned(vd) && !IsWeightBanned(vs) && !AnyBanned(hidden)
    requires -ScoreLimit <= Weighted(vd, vs, hidden, profile) <= ScoreLimit
    ensures CombinePanelScores(vd, vs, hidden, profile) == Value(Weighted(vd, vs, hidden, profile))
  {
  }

  /** A null profile behaves as any profile whose multipliers are all 0. */
  lemma CombineNullProfile(vd: real, vs: real, hidden: Option<seq<real>>, p: WeightProfile)
    requires p.multDefault == 0.0 && p.multDesecrated == 0.0 && p.multHidden == 0.0
    ensures CombinePanelScores(vd, vs, hidden, None) == CombinePanelScores(vd, vs, hidden, Some(p))
  {
  }

  /** An empty hidden list behaves as a null one. */
  lemma CombineEmptyHidden(vd: real, vs: real, profile: Option<WeightProfile>)
    ensures CombinePanelScores(vd, vs, Some([]), profile) == CombinePanelScores(vd, vs, None, profile)
  {
  }

  /** With neutral multipliers and one hidden weight the total is the clamped plain sum. */
  lemma CombineNeutral(vd: real, vs: real, h: real)
    requires !IsWeightBanned(vd) && !IsWeightBanned(vs) && !IsWeightBanned(h)
    ensures CombinePanelScores(vd, vs, Some([h]), None) == Value(Clamp(vd + vs + h))
  {
    assert Sum([h]) == h + Sum([]);
  }

  /**
   * Raising the default-panel weight never lowers the total while the
   * multiplier keeps its sign-aware range (at least -1).
   */
  lemma CombineMonotone(vd: real, vd': real, vs: real, hidden: Option<seq<real>>, profile: Option<WeightProfile>)
    requires vd <= vd' && Mult(profile, DefaultPanel) >= -1.0
    requires !IsWeightBanned(vd) && !IsWeightBanned(vs) && !AnyBanned(hidden)
    ensures CombinePanelScores(vd, vs, hidden, profile).Value? && CombinePanelScores(vd', vs, hidden, profile).Value?
    ensures CombinePanelScores(vd, vs, hidden, profile).v <= CombinePanelScores(vd', vs, hidden, profile).v
  {
    var w, w' := Weighted(vd, vs, hidden, profile), Weighted(vd', vs, hidden, profile);
    TermMonotone(vd, vd', Mult(profile, DefaultPanel));
    assert w <= w';
    ClampMonotone(w, w');
    assert CombinePanelScores(vd, vs, hidden, profile) == Value(Clamp(w));
    assert CombinePanelScores(vd', vs, hidden, profile) == Value(Clamp(w'));
  }

  /** Clamping keeps the order. */
  lemma ClampMonotone(x: real, y: real)
    requires x <= y
    ensures Clamp(x) <= Clamp(y)
  {
  }

  /** A multiplier of at least -1 keeps the order of the weights. */
  lemma TermMonotone(x: real, y: real, mult: real)
    requires x <= y && mult >= -1.0
    ensures Term(x, mult) <= Term(y, mult)
  {
    ScaleMonotone(x, y, 1.0 + mult);
  }

  /** Scaling by a non-negative factor keeps the order. */
  lemma ScaleMonotone(x: real, y: real, m: real)
    requires x <= y && m >= 0.0
    ensures x * m <= y * m
  {
    var d := y - x;
    assert d * m >= 0.0;
    assert y * m == x * m + d * m;
  }

  /** The sum of a concatenation. */
  lemma {:induction false} SumAppend(a: seq<real>, b: seq<real>)
    ensures Sum(a + b) == Sum(a) + Sum(b)
  {
    if |a| == 0 {
      assert a + b == b;
    } else {
      assert (a + b)[1..] == a[1..] + b;
      SumAppend(a[1..], b);
    }
  }

  /** The sum does not depend on the order of the weights. */
  lemma {:induction false} SumPermutation(a: seq<real>, b: seq<real>)
    requires multiset(a) == multiset(b)
    ensures Sum(a) == Sum(b)
    decreases |a|
  {
    if |a| > 0 {
      assert a[0] in multiset(b);
      var k :| 0 <= k < |b| && b[k] == a[0];
      var rest := b[..k] + b[k + 1..];
      RemoveAtMultiset(b, k, rest);
      TailMultiset(a);
      SumPermutation(a[1..], rest);
      SumRemoveAt(b, k, rest);
    }
  }

  /** Taking out the element at `k` takes one copy of it out of the multiset. */
  lemma RemoveAtMultiset<T>(b: seq<T>, k: nat, rest: seq<T>)
    requires k < |b| && rest == b[..k] + b[k + 1..]
    ensures multiset(rest) == multiset(b) - multiset{b[k]}
  {
    assert b == b[..k] + [b[k]] + b[k + 1..];
    assert multiset(b) == multiset(b[..k]) + multiset{b[k]} + multiset(b[k + 1..]);
  }

  /** Taking out the head takes one copy of it out of the multiset. */
  lemma TailMultiset<T>(a: seq<T>)
    requires |a| > 0
    ensures multiset(a[1..]) == multiset(a) - multiset{a[0]}
  {
    assert a == [a[0]] + a[1..];
  }

  /** The sum is the element at `k` plus the sum of the others. */
  lemma SumRemoveAt(b: seq<real>, k: nat, rest: seq<real>)
    requires k < |b| && rest == b[..k] + b[k + 1..]
    ensures Sum(b) == b[k] + Sum(rest)
  {
    assert b == b[..k] + [b[k]] + b[k + 1..];
    SumAppend(b[..k] + [b[k]], b[k + 1..]);
    SumAppend(b[..k], [b[k]]);
    SumAppend(b[..k], b[k + 1..]);
    assert Sum([b[k]]) == b[k] + Sum([]);
  }

  /** Reordering the hidden weights leaves the total unchanged. */
  lemma CombinePermutation(vd: real, vs: real, a: seq<real>, b: seq<real>, profile: Option<WeightProfile>)
    requires multiset(a) == multiset(b)
    ensures CombinePanelScores(vd, vs, Some(a), profile) == CombinePanelScores(vd, vs, Some(b), profile)
  {
    SumPermutation(a, b);
    assert |a| == |multiset(a)| == |b|;
    assert HiddenAverage(Some(a)) == HiddenAverage(Some(b));
    assert Weighted(vd, vs, Some(a), profile) == Weighted(vd, vs, Some(b), profile);
    if AnyBanned(Some(a)) { BannedPermutation(a, b); }
    if AnyBanned(Some(b)) { BannedPermutation(b, a); }
  }

  lemma BannedPermutation(a: seq<real>, b: seq<real>)
    requires multiset(a) == multiset(b) && AnyBanned(Some(a))
    ensures AnyBanned(Some(b))
  {
    var i :| 0 <= i < |a| && IsWeightBanned(a[i]);
    assert a[i] in multiset(b);
    var j :| 0 <= j < |b| && b[j] == a[i];
  }
}
