/**
 * `OverlayRenderer.RenderOverlay`: the renderer's own panel tracker (a
 * visibility flag, a generation key and a grace deadline, re-armed on a
 * rebuild), the gate that decides whether anything is drawn this frame, and
 * for each drawable lane the hidden lines, the "No mod" placeholder, the
 * verdict badge and the echo of the visible text.
 *
 * Drawing itself is left out: a frame returns the new state and what each
 * drawn lane shows.
 */
module Overlay {
  import opened Opt
  import opened Text
  import opened Canon
  import opened UiTree
  import opened Plugin
  import opened GenKey
  import opened Scoring
  import opened ProfileModel
  import opened HiddenMapping
  import opened CanonFacts

  // ---------------------------------------------------------------------------
  // State and settings
  // ---------------------------------------------------------------------------

  /**
   * The renderer's fields. `loggedUnknown` is the case-insensitive set of
   * normalised texts already reported, held here by their case-folded form.
   */
  datatype OverlayState = OverlayState(
    wasVisible: bool,
    lastGenKey: bv64,
    graceUntilMs: int,
    loggedUnknown: set<string>)

  function NewOverlay(): (st: OverlayState)
    ensures !st.wasVisible && st.loggedUnknown == {}
  {
    OverlayState(false, 0, 0, {})
  }

  /**
   * The settings a frame reads, and the two favourite tests that the
   * program calls but that are not part of this model.
   */
  datatype OverlayConfig = OverlayConfig(
    graceSetting: Option<int>,
    logUnknownHidden: bool,
    showVisibleEcho: bool,
    isWeightFavorite: real -> bool,
    isScoreFavorite: real -> bool)

  // ---------------------------------------------------------------------------
  // Rectangles, visibility and the generation key
  // ---------------------------------------------------------------------------

  /** `IsRectValid`: present and larger than 8 by 8. */
  predicate IsRectValid(r: Option<Rect>) {
    r.Some? && r.value.width > 8 && r.value.height > 8
  }

  /** A lane is drawable when its safe rectangle is valid. */
  predicate Drawable(s: GameSnapshot, i: nat)
    requires Shaped(s) && i < 3
  {
    IsRectValid(GetSafeRect(s.choices[i]))
  }

  /** The packed rectangle of a drawable lane, 0 for the others. */
  function LaneKey(s: GameSnapshot, i: nat): (key: bv64)
    requires Shaped(s) && i < 3
    ensures !Drawable(s, i) ==> key == 0
  {
    if Drawable(s, i) then PackRect(GetSafeRect(s.choices[i]).value) else 0
  }

  function OverlayKey(s: GameSnapshot): bv64
    requires Shaped(s)
  {
    Mix(LaneKey(s, 0), LaneKey(s, 1), LaneKey(s, 2))
  }

  /** `panelVisible`: some lane is visible and some lane is drawable. */
  predicate PanelVisible(s: GameSnapshot)
    requires Shaped(s)
  {
    (s.choiceVisible[0] || s.choiceVisible[1] || s.choiceVisible[2]) &&
    (Drawable(s, 0) || Drawable(s, 1) || Drawable(s, 2))
  }

  /** A visible frame re-arms when the panel was not visible last frame or its key moved. */
  predicate Rearms(st: OverlayState, s: GameSnapshot)
    requires Shaped(s)
  {
    PanelVisible(s) && (!st.wasVisible || OverlayKey(s) != st.lastGenKey)
  }

  /**
   * The tracking part of a frame whose root was found: re-arm the grace
   * window, store the key and forget the reported texts on a rebuild, then
   * record this frame's visibility.
   */
  function Track(st: OverlayState, s: GameSnapshot, nowMs: int, setting: Option<int>): (r: OverlayState)
    requires Shaped(s)
    ensures r.wasVisible == PanelVisible(s)
    ensures Rearms(st, s) ==>
      r.graceUntilMs == nowMs + GraceMs(setting) && r.lastGenKey == OverlayKey(s) && r.loggedUnknown == {}
    ensures !Rearms(st, s) ==>
      r.graceUntilMs == st.graceUntilMs && r.lastGenKey == st.lastGenKey && r.loggedUnknown == st.loggedUnknown
  {
    var armed :=
      if Rearms(st, s) then st.(graceUntilMs := nowMs + GraceMs(setting), lastGenKey := OverlayKey(s), loggedUnknown := {})
      else st;
    armed.(wasVisible := PanelVisible(s))
  }

  // ---------------------------------------------------------------------------
  // The verdict of one lane
  // ---------------------------------------------------------------------------

  /** The badge text: "FAVORITE", "BANNED" or the score with one decimal. */
  datatype Label = FavoriteLabel | BannedLabel | Number(v: real)

  /** The score a badge is coloured by, and its text. */
  datatype Badge = Badge(score: Score, text: Label)

  predicate AnyFavorite(wDef: real, wDes: real, hidden: seq<real>, isFavorite: real -> bool) {
    isFavorite(wDef) || isFavorite(wDes) || exists k :: 0 <= k < |hidden| && isFavorite(hidden[k])
  }

  predicate AnyWeightBanned(wDef: real, wDes: real, hidden: seq<real>) {
    IsWeightBanned(wDef) || IsWeightBanned(wDes) || exists k :: 0 <= k < |hidden| && IsWeightBanned(hidden[k])
  }

  /**
   * The badge of a lane: FAVORITE when any weight is a favourite, else
   * BANNED when any weight is banned, else the combined score, labelled
   * by the score tests.
   */
  function Verdict(wDef: real, wDes: real, hidden: seq<real>, profile: WeightProfile, cfg: OverlayConfig): (b: Badge)
    ensures AnyFavorite(wDef, wDes, hidden, cfg.isWeightFavorite) <==> b == Badge(Favorite, FavoriteLabel)
    ensures b.text == BannedLabel <==> !AnyFavorite(wDef, wDes, hidden, cfg.isWeightFavorite) && AnyWeightBanned(wDef, wDes, hidden)
    ensures b.score.Value? <==> !AnyFavorite(wDef, wDes, hidden, cfg.isWeightFavorite) && !AnyWeightBanned(wDef, wDes, hidden)
    ensures b.score.Value? ==> -ScoreLimit <= b.score.v <= ScoreLimit
  {
    if AnyFavorite(wDef, wDes, hidden, cfg.isWeightFavorite) then Badge(Favorite, FavoriteLabel)
    else if AnyWeightBanned(wDef, wDes, hidden) then Badge(Banned, BannedLabel)
    else
      var total := CombinePanelScores(wDef, wDes, Some(hidden), Some(profile));
      if !total.Value? then Badge(total, BannedLabel)
      else if cfg.isScoreFavorite(total.v) then Badge(total, FavoriteLabel)
      else Badge(total, Number(total.v))
  }

  // ---------------------------------------------------------------------------
  // One lane
  // ---------------------------------------------------------------------------

  /** What a drawn lane shows. */
  datatype LaneDraw = LaneDraw(
    lane: nat,
    hiddenLines: seq<(string, real)>,
    placeholder: bool,
    badge: Badge,
    echo: Option<string>)

  /** `ChoiceTexts.ElementAtOrDefault(i) ?? ""`. */
  function VisibleText(s: GameSnapshot, i: nat): string {
    if i < |s.choiceTexts| then s.choiceTexts[i] else ""
  }

  /** The hidden lines a lookup found, none for `null`. */
  function FoundLines(lookup: Option<seq<string>>): seq<string> {
    if lookup.None? then [] else lookup.value
  }

  /** Each hidden line with its weight in the profile's hidden map. */
  function WeighHidden(profile: WeightProfile, hs: seq<string>): (r: seq<(string, real)>)
    ensures |r| == |hs|
    ensures forall k :: 0 <= k < |hs| ==> r[k] == (hs[k], GetWeight(profile.hidden, Some(hs[k])))
  {
    if |hs| == 0 then [] else [(hs[0], GetWeight(profile.hidden, Some(hs[0])))] + WeighHidden(profile, hs[1..])
  }

  function Weights(lines: seq<(string, real)>): (ws: seq<real>)
    ensures |ws| == |lines| && forall k :: 0 <= k < |lines| ==> ws[k] == lines[k].1
  {
    if |lines| == 0 then [] else [lines[0].1] + Weights(lines[1..])
  }

  /** The reported set after a lane: a non-blank key of a text without hidden lines is added when logging is on. */
  function Report(logged: set<string>, visible: string, found: bool, cfg: OverlayConfig): set<string> {
    var key := Normalize(visible);
    if !found && cfg.logUnknownHidden && !IsBlank(key) then logged + {Fold(key)} else logged
  }

  /** One drawable lane: its hidden lines and weights, the placeholder, the badge and the echo. */
  function DrawLane(logged: set<string>, s: GameSnapshot, i: nat, inGrace: bool, profile: WeightProfile,
                    mappings: Option<Mappings>, cfg: OverlayConfig): (r: (set<string>, LaneDraw))
    ensures r.1.lane == i
    ensures r.1.placeholder <==>
      (&& |FoundLines(GetHiddenModsFor(Some(VisibleText(s, i)), mappings))| == 0
       && !inGrace && !IsBlank(VisibleText(s, i)))
    ensures r.1.echo.Some? && r.1.echo.value != "" <==> cfg.showVisibleEcho && !IsBlank(VisibleText(s, i))
    ensures logged <= r.0
  {
    var visible := VisibleText(s, i);
    var hs := FoundLines(GetHiddenModsFor(Some(visible), mappings));
    var lines := WeighHidden(profile, hs);
    var wDef := GetWeight(profile.visibleDefault, Some(visible));
    var wDes := GetWeight(profile.visibleDesecrated, Some(visible));
    var blank := IsBlank(visible);
    var echo :=
      if cfg.showVisibleEcho && (inGrace || !blank) then Some(if blank then "" else visible) else None;
    (Report(logged, visible, |hs| > 0, cfg),
     LaneDraw(i, lines, |hs| == 0 && !inGrace && !blank, Verdict(wDef, wDes, Weights(lines), profile, cfg), echo))
  }

  /** The drawable lane numbers from `i` on, in order. */
  function DrawableFrom(s: GameSnapshot, i: nat): (js: seq<nat>)
    requires Shaped(s) && i <= 3
    decreases 3 - i
  {
    if i == 3 then []
    else if Drawable(s, i) then [i] + DrawableFrom(s, i + 1)
    else DrawableFrom(s, i + 1)
  }

  /** The lane numbers of a list of drawn lanes. */
  function LanesOf(ds: seq<LaneDraw>): (js: seq<nat>)
    ensures |js| == |ds| && forall k :: 0 <= k < |ds| ==> js[k] == ds[k].lane
  {
    if |ds| == 0 then [] else [ds[0].lane] + LanesOf(ds[1..])
  }

  /** The drawable lanes from `i` on, in order, threading the reported set. */
  function DrawLanes(logged: set<string>, s: GameSnapshot, i: nat, inGrace: bool, profile: WeightProfile,
                     mappings: Option<Mappings>, cfg: OverlayConfig): (r: (set<string>, seq<LaneDraw>))
    requires Shaped(s) && i <= 3
    ensures LanesOf(r.1) == DrawableFrom(s, i)
    ensures logged <= r.0
    decreases 3 - i
  {
    if i == 3 then (logged, [])
    else if !Drawable(s, i) then DrawLanes(logged, s, i + 1, inGrace, profile, mappings, cfg)
    else
      var (l1, d) := DrawLane(logged, s, i, inGrace, profile, mappings, cfg);
      var (l2, ds) := DrawLanes(l1, s, i + 1, inGrace, profile, mappings, cfg);
      assert ([d] + ds)[1..] == ds;
      (l2, [d] + ds)
  }

  /** Exactly the drawable lanes from `i` on are listed, each once, in increasing order. */
  lemma {:induction false} DrawableFromSpec(s: GameSnapshot, i: nat)
    requires Shaped(s) && i <= 3
    ensures var js := DrawableFrom(s, i);
      && (forall k :: 0 <= k < |js| ==> i <= js[k] < 3 && Drawable(s, js[k]))
      && (forall k, k' :: 0 <= k < k' < |js| ==> js[k] < js[k'])
      && (forall j :: i <= j < 3 && Drawable(s, j) ==> j in js)
  {
    DrawableFromLanes(s, i);
    DrawableFromOrdered(s, i);
    DrawableFromComplete(s, i);
  }

  lemma {:induction false} DrawableFromLanes(s: GameSnapshot, i: nat)
    requires Shaped(s) && i <= 3
    ensures forall k :: 0 <= k < |DrawableFrom(s, i)| ==> i <= DrawableFrom(s, i)[k] < 3 && Drawable(s, DrawableFrom(s, i)[k])
    decreases 3 - i
  {
    if i < 3 {
      DrawableFromLanes(s, i + 1);
    }
  }

  lemma {:induction false} DrawableFromOrdered(s: GameSnapshot, i: nat)
    requires Shaped(s) && i <= 3
    ensures var js := DrawableFrom(s, i); forall k, k' :: 0 <= k < k' < |js| ==> js[k] < js[k']
    decreases 3 - i
  {
    if i < 3 {
      DrawableFromOrdered(s, i + 1);
      DrawableFromLanes(s, i + 1);
    }
  }

  lemma {:induction false} DrawableFromComplete(s: GameSnapshot, i: nat)
    requires Shaped(s) && i <= 3
    ensures forall j :: i <= j < 3 && Drawable(s, j) ==> j in DrawableFrom(s, i)
    decreases 3 - i
  {
    if i < 3 {
      DrawableFromComplete(s, i + 1);
    }
  }

  // ---------------------------------------------------------------------------
  // A frame
  // ---------------------------------------------------------------------------

  predicate AnyTextOk(s: GameSnapshot)
    requires Shaped(s)
  {
    s.choiceTextOk[0] || s.choiceTextOk[1] || s.choiceTextOk[2]
  }

  /**
   * `RenderOverlay(snapshot)` at tick `nowMs` with the active profile: a
   * frame without a root changes nothing; otherwise the tracker steps, and
   * the lanes are drawn when the panel is visible and either the grace
   * window is open or some lane has text.
   */
  function RenderOverlay(st: OverlayState, snapshot: Option<GameSnapshot>, nowMs: int, profile: WeightProfile,
                         mappings: Option<Mappings>, cfg: OverlayConfig): (r: (OverlayState, seq<LaneDraw>))
    requires snapshot.Some? ==> Shaped(snapshot.value)
    ensures snapshot.None? || !snapshot.value.rootOk ==> r == (st, [])
    ensures |r.1| > 0 ==>
      && snapshot.Some? && snapshot.value.rootOk && PanelVisible(snapshot.value)
      && (nowMs < r.0.graceUntilMs || AnyTextOk(snapshot.value))
  {
    if snapshot.None? || !snapshot.value.rootOk then (st, [])
    else
      var s := snapshot.value;
      var tracked := Track(st, s, nowMs, cfg.graceSetting);
      if !PanelVisible(s) then (tracked, [])
      else
        var inGrace := nowMs < tracked.graceUntilMs;
        if !inGrace && !AnyTextOk(s) then (tracked, [])
        else
          var (logged, lanes) := DrawLanes(tracked.loggedUnknown, s, 0, inGrace, profile, mappings, cfg);
          (tracked.(loggedUnknown := logged), lanes)
  }

  // ---------------------------------------------------------------------------
  // Properties
  // ---------------------------------------------------------------------------

  /** A lane is drawable exactly when its element exists and its rectangle exceeds 8 by 8. */
  lemma DrawableIff(s: GameSnapshot, i: nat)
    requires Shaped(s) && i < 3
    ensures Drawable(s, i) <==>
      s.choices[i].Some? && s.choices[i].value.rect.width > 8 && s.choices[i].value.rect.height > 8
  {
  }

  /** `_wasVisible` is this frame's visibility: no lag, unlike the tracker. */
  lemma NoLag(st: OverlayState, s: GameSnapshot, nowMs: int, profile: WeightProfile, mappings: Option<Mappings>, cfg: OverlayConfig)
    requires Shaped(s) && s.rootOk
    ensures RenderOverlay(st, Some(s), nowMs, profile, mappings, cfg).0.wasVisible == PanelVisible(s)
  {
  }

  /** Hiding the panel keeps the grace deadline, the key and the reported set. */
  lemma HideKeepsState(st: OverlayState, s: GameSnapshot, nowMs: int, profile: WeightProfile, mappings: Option<Mappings>, cfg: OverlayConfig)
    requires Shaped(s) && s.rootOk && !PanelVisible(s)
    ensures RenderOverlay(st, Some(s), nowMs, profile, mappings, cfg) == (st.(wasVisible := false), [])
  {
  }

  /** A visible frame re-arms the grace window and clears the reported set exactly on a rebuild. */
  lemma RearmIff(st: OverlayState, s: GameSnapshot, nowMs: int, profile: WeightProfile, mappings: Option<Mappings>, cfg: OverlayConfig)
    requires Shaped(s) && s.rootOk && PanelVisible(s)
    ensures var r := RenderOverlay(st, Some(s), nowMs, profile, mappings, cfg).0;
      && (Rearms(st, s) ==> r.graceUntilMs == nowMs + GraceMs(cfg.graceSetting) && r.lastGenKey == OverlayKey(s))
      && (!Rearms(st, s) ==> r.graceUntilMs == st.graceUntilMs && r.lastGenKey == st.lastGenKey && st.loggedUnknown <= r.loggedUnknown)
  {
    RenderKeepsTrack(st, s, nowMs, profile, mappings, cfg, Track(st, s, nowMs, cfg.graceSetting));
  }

  /** A frame with a root keeps the tracker's deadline and key, and adds to its reported set. */
  lemma RenderKeepsTrack(st: OverlayState, s: GameSnapshot, nowMs: int, profile: WeightProfile, mappings: Option<Mappings>, cfg: OverlayConfig, tracked: OverlayState)
    requires Shaped(s) && s.rootOk && tracked == Track(st, s, nowMs, cfg.graceSetting)
    ensures var r := RenderOverlay(st, Some(s), nowMs, profile, mappings, cfg).0;
      r.graceUntilMs == tracked.graceUntilMs && r.lastGenKey == tracked.lastGenKey && tracked.loggedUnknown <= r.loggedUnknown
  {
    var inGrace := nowMs < tracked.graceUntilMs;
    RenderState(st, s, nowMs, profile, mappings, cfg, tracked);
    if PanelVisible(s) && (inGrace || AnyTextOk(s)) {
      var _ := DrawLanes(tracked.loggedUnknown, s, 0, inGrace, profile, mappings, cfg);
    }
  }

  /** The state a frame with a root leaves: the tracked state, with the reported set of the lanes drawn. */
  lemma RenderState(st: OverlayState, s: GameSnapshot, nowMs: int, profile: WeightProfile, mappings: Option<Mappings>, cfg: OverlayConfig, tracked: OverlayState)
    requires Shaped(s) && s.rootOk && tracked == Track(st, s, nowMs, cfg.graceSetting)
    ensures var inGrace := nowMs < tracked.graceUntilMs;
      RenderOverlay(st, Some(s), nowMs, profile, mappings, cfg).0 ==
        if PanelVisible(s) && (inGrace || AnyTextOk(s))
        then tracked.(loggedUnknown := DrawLanes(tracked.loggedUnknown, s, 0, inGrace, profile, mappings, cfg).0)
        else tracked
  {
  }

  /**
   * The same panel seen again re-arms nothing: the renderer re-arms once
   * per appearance where the tracker rebuilds twice.
   */
  lemma AppearsOnce(st: OverlayState, s: GameSnapshot, n1: int, n2: int, profile: WeightProfile, mappings: Option<Mappings>, cfg: OverlayConfig)
    requires Shaped(s) && s.rootOk && PanelVisible(s)
    ensures var r1 := RenderOverlay(st, Some(s), n1, profile, mappings, cfg).0;
      var r2 := RenderOverlay(r1, Some(s), n2, profile, mappings, cfg).0;
      r2.graceUntilMs == r1.graceUntilMs && r2.lastGenKey == r1.lastGenKey && r1.loggedUnknown <= r2.loggedUnknown
  {
    var r1 := RenderOverlay(st, Some(s), n1, profile, mappings, cfg).0;
    RearmIff(st, s, n1, profile, mappings, cfg);
    assert r1.wasVisible && r1.lastGenKey == OverlayKey(s) by {
      NoLag(st, s, n1, profile, mappings, cfg);
    }
    RearmIff(r1, s, n2, profile, mappings, cfg);
  }

  /**
   * Lanes are drawn exactly when the root was found, the panel is visible,
   * and the grace window is open or some lane has text; then every
   * drawable lane is drawn, in order.
   */
  lemma DrawGate(st: OverlayState, s: GameSnapshot, nowMs: int, profile: WeightProfile, mappings: Option<Mappings>, cfg: OverlayConfig)
    requires Shaped(s)
    ensures var r := RenderOverlay(st, Some(s), nowMs, profile, mappings, cfg);
      && (|r.1| > 0 <==> s.rootOk && PanelVisible(s) && (nowMs < r.0.graceUntilMs || AnyTextOk(s)))
      && (|r.1| > 0 ==> LanesOf(r.1) == DrawableFrom(s, 0))
  {
    if s.rootOk && PanelVisible(s) {
      var tracked := Track(st, s, nowMs, cfg.graceSetting);
      var inGrace := nowMs < tracked.graceUntilMs;
      if inGrace || AnyTextOk(s) {
        DrawableFromSpec(s, 0);
        var j :| 0 <= j < 3 && Drawable(s, j);
        assert j in DrawableFrom(s, 0);
        var _ := DrawLanes(tracked.loggedUnknown, s, 0, inGrace, profile, mappings, cfg);
      }
    }
  }

  /** A favourite weight wins over a banned one. */
  lemma FavoriteBeatsBan(wDef: real, wDes: real, hidden: seq<real>, profile: WeightProfile, cfg: OverlayConfig)
    requires cfg.isWeightFavorite(wDef) && IsWeightBanned(wDes)
    ensures Verdict(wDef, wDes, hidden, profile, cfg) == Badge(Favorite, FavoriteLabel)
  {
  }

  /** Without favourite or banned weights the badge carries the combined panel score. */
  lemma ScoreBadge(wDef: real, wDes: real, hidden: seq<real>, profile: WeightProfile, cfg: OverlayConfig)
    requires !AnyFavorite(wDef, wDes, hidden, cfg.isWeightFavorite) && !AnyWeightBanned(wDef, wDes, hidden)
    ensures Verdict(wDef, wDes, hidden, profile, cfg).score == CombinePanelScores(wDef, wDes, Some(hidden), Some(profile))
  {
  }

  /** A text reported as unknown is its own normalised, non-blank key. */
  lemma ReportedKey(logged: set<string>, visible: string, found: bool, cfg: OverlayConfig, x: string)
    requires x in Report(logged, visible, found, cfg) && x !in logged
    ensures x == Normalize(visible) && !IsBlank(x) && !found && cfg.logUnknownHidden
  {
    FoldOfNormalized(visible);
  }

  /** The placeholder is never drawn inside the grace window. */
  lemma NoPlaceholderInGrace(logged: set<string>, s: GameSnapshot, i: nat, profile: WeightProfile, mappings: Option<Mappings>, cfg: OverlayConfig)
    ensures !DrawLane(logged, s, i, true, profile, mappings, cfg).1.placeholder
  {
  }
}
