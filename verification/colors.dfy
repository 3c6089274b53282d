/**
 * `ColorRules`: the colour band a score badge, a table row or a weight slider
 * is drawn in, chosen by the favourite and banned sentinels first and then by
 * the low and high thresholds of the appearance settings.
 *
 * `IsScoreFavorite` and `IsWeightFavorite` are called but defined in no file
 * of the program, so each colour function takes the test it calls. The
 * favourite sentinel is taken to pass the score test and the banned one
 * (negative infinity) to fail it.
 */
module Colors {
  import opened Scoring
  import Overlay

  /** `System.Drawing.Color` as its four channels. */
  datatype Color = Color(a: int, r: int, g: int, b: int)

  /** The appearance settings the colour rules read. */
  datatype UiSettings = UiSettings(
    lowColor: Color, midColor: Color, highColor: Color, favoriteColor: Color,
    lowThreshold: real, highThreshold: real)

  /** `Color.FromArgb(r, g, b)`: fully opaque. */
  function Opaque(r: int, g: int, b: int): Color {
    Color(255, r, g, b)
  }

  /** The default appearance: red, near-white, green and warm yellow; thresholds -4 and 4. */
  function DefaultUi(): UiSettings {
    UiSettings(Opaque(230, 60, 60), Opaque(240, 240, 240), Opaque(60, 200, 90), Opaque(245, 210, 60), -4.0, 4.0)
  }

  /** The band a colour is drawn from. */
  datatype Band = Low | Mid | High | Fav

  /** The order of the threshold bands. */
  function Rank(b: Band): int {
    match b
    case Low => 0
    case Mid => 1
    case High => 2
    case Fav => 3
  }

  /** The threshold tests shared by scores and weights: the low test first. */
  function ThresholdBand(x: real, ui: UiSettings): (b: Band)
    ensures b != Fav
    ensures b == Low <==> x <= ui.lowThreshold
    ensures b == High <==> x > ui.lowThreshold && x >= ui.highThreshold
  {
    if x <= ui.lowThreshold then Low
    else if x >= ui.highThreshold then High
    else Mid
  }

  function BandColor(b: Band, ui: UiSettings): Color {
    match b
    case Low => ui.lowColor
    case Mid => ui.midColor
    case High => ui.highColor
    case Fav => ui.favoriteColor
  }

  /**
   * The band of `GetScoreColor`: favourite first, banned is low, then the
   * thresholds; `isFavorite` stands for `IsScoreFavorite` on finite scores.
   */
  function ScoreBand(score: Score, isFavorite: real -> bool, ui: UiSettings): (b: Band)
    ensures b == Fav <==> score.Favorite? || (score.Value? && isFavorite(score.v))
    ensures score.Banned? ==> b == Low
  {
    match score
    case Favorite => Fav
    case Banned => Low
    case Value(v) => if isFavorite(v) then Fav else ThresholdBand(v, ui)
  }

  /** `GetScoreColor`. */
  function GetScoreColor(score: Score, isFavorite: real -> bool, ui: UiSettings): Color {
    BandColor(ScoreBand(score, isFavorite, ui), ui)
  }

  /** `GetRowBackgroundColor`: the score colour with alpha 36. */
  function GetRowBackgroundColor(score: Score, isFavorite: real -> bool, ui: UiSettings): (c: Color)
    ensures c.a == 36
    ensures var s := GetScoreColor(score, isFavorite, ui); c.r == s.r && c.g == s.g && c.b == s.b
  {
    var c := GetScoreColor(score, isFavorite, ui);
    Color(36, c.r, c.g, c.b)
  }

  /** The band of `GetSliderColor`; `isFavorite` stands for `IsWeightFavorite`. */
  function SliderBand(weight: real, isFavorite: real -> bool, ui: UiSettings): (b: Band)
    ensures b == Fav <==> isFavorite(weight)
    ensures !isFavorite(weight) && IsWeightBanned(weight) ==> b == Low
  {
    if isFavorite(weight) then Fav
    else if IsWeightBanned(weight) then Low
    else ThresholdBand(weight, ui)
  }

  /** `GetSliderColor`. */
  function GetSliderColor(weight: real, isFavorite: real -> bool, ui: UiSettings): Color {
    BandColor(SliderBand(weight, isFavorite, ui), ui)
  }

  /**
   * For finite scores that are not favourites the band never drops as the
   * score rises, whatever the thresholds.
   */
  lemma BandMonotone(x: real, y: real, isFavorite: real -> bool, ui: UiSettings)
    requires x <= y && !isFavorite(x) && !isFavorite(y)
    ensures Rank(ScoreBand(Value(x), isFavorite, ui)) <= Rank(ScoreBand(Value(y), isFavorite, ui))
  {
  }

  /** When the thresholds overlap the low test wins. */
  lemma LowWins(x: real, isFavorite: real -> bool, ui: UiSettings)
    requires !isFavorite(x) && x <= ui.lowThreshold && x >= ui.highThreshold
    ensures GetScoreColor(Value(x), isFavorite, ui) == ui.lowColor
  {
  }

  /**
   * A slider weight that neither favourite test accepts and that is not
   * banned is coloured as the same score would be.
   */
  lemma SliderAgreesWithScore(weight: real, isWeightFavorite: real -> bool, isScoreFavorite: real -> bool, ui: UiSettings)
    requires !isWeightFavorite(weight) && !isScoreFavorite(weight) && !IsWeightBanned(weight)
    ensures GetSliderColor(weight, isWeightFavorite, ui) == GetScoreColor(Value(weight), isScoreFavorite, ui)
  {
  }

  /** A banned total and a banned slider weight share the low colour. */
  lemma BannedIsLow(weight: real, isWeightFavorite: real -> bool, isScoreFavorite: real -> bool, ui: UiSettings)
    requires !isWeightFavorite(weight) && IsWeightBanned(weight)
    ensures GetSliderColor(weight, isWeightFavorite, ui) == GetScoreColor(Banned, isScoreFavorite, ui) == ui.lowColor
  {
  }

  /**
   * With the default thresholds a score the favourite test rejects is low at
   * -4 and below, high at 4 and above, and mid strictly between.
   */
  lemma DefaultBands(x: real, isFavorite: real -> bool)
    requires !isFavorite(x)
    ensures ScoreBand(Value(x), isFavorite, DefaultUi()) == (if x <= -4.0 then Low else if x >= 4.0 then High else Mid)
  {
  }

  /**
   * A lane badge is drawn in the favourite colour exactly when it is labelled
   * FAVORITE: the colour and the label use the same favourite tests, and a
   * finite total labelled FAVORITE is coloured so as well.
   */
  lemma BadgeColorMatchesLabel(wDef: real, wDes: real, hidden: seq<real>, profile: ProfileModel.WeightProfile, cfg: Overlay.OverlayConfig, ui: UiSettings)
    ensures var b := Overlay.Verdict(wDef, wDes, hidden, profile, cfg);
      ScoreBand(b.score, cfg.isScoreFavorite, ui) == Fav <==> b.text == Overlay.FavoriteLabel
  {
  }
}
