/**
 * `ChoicesPanelTracker`: a per-frame step over the plugin's snapshot that
 * tracks whether the three-choices panel is shown, counts panel rebuilds
 * ("generation flips", detected from the choice rectangles) and opens a
 * grace window after each rebuild.
 */
module PanelTracker {
  import opened Opt
  import opened UiTree
  import opened Plugin
  import opened GenKey

  /** `Generation` is a `uint` and wraps. */
  const GenerationModulus: int := 0x1_0000_0000

  datatype Tracker = Tracker(
    panelVisible: bool,
    generation: int,
    graceUntilMs: int,
    wasVisible: bool,
    lastGenKey: bv64)

  /** `Generation` fits its `uint`. */
  predicate ValidTracker(t: Tracker) {
    0 <= t.generation < GenerationModulus
  }

  /** A freshly constructed tracker: every field at its default. */
  function NewTracker(): (t: Tracker)
    ensures ValidTracker(t) && !t.panelVisible && !t.wasVisible
  {
    Tracker(false, 0, 0, false, 0)
  }

  /** The panel counts as shown when the root was found and some lane is visible. */
  predicate Shows(snapshot: Option<GameSnapshot>)
    requires snapshot.Some? ==> Shaped(snapshot.value)
  {
    snapshot.Some? && snapshot.value.rootOk &&
    (snapshot.value.choiceVisible[0] || snapshot.value.choiceVisible[1] || snapshot.value.choiceVisible[2])
  }

  /** The generation key: the three safe rectangles packed and mixed. */
  function PanelKey(s: GameSnapshot): bv64
    requires Shaped(s)
  {
    Mix(PackSafe(GetSafeRect(s.choices[0])), PackSafe(GetSafeRect(s.choices[1])), PackSafe(GetSafeRect(s.choices[2])))
  }

  /** A visible frame rebuilds when the panel was not seen before or its key moved. */
  predicate Rebuilds(t: Tracker, key: bv64) {
    !t.wasVisible || key != t.lastGenKey
  }

  /** `SetVisible`: remember the old visibility; hiding clears the grace and the key. */
  function SetVisible(t: Tracker, v: bool): (r: Tracker)
    ensures r.wasVisible == t.panelVisible && r.panelVisible == v && r.generation == t.generation
    ensures !v ==> r.graceUntilMs == 0 && r.lastGenKey == 0
    ensures v ==> r.graceUntilMs == t.graceUntilMs && r.lastGenKey == t.lastGenKey
  {
    var r := t.(wasVisible := t.panelVisible, panelVisible := v);
    if v then r else r.(graceUntilMs := 0, lastGenKey := 0)
  }

  /** The bookkeeping of a rebuild: next generation, new grace window, new key. */
  function Rebuild(t: Tracker, key: bv64, nowMs: int, setting: Option<int>): Tracker {
    t.(generation := (t.generation + 1) % GenerationModulus, graceUntilMs := nowMs + GraceMs(setting), lastGenKey := key)
  }

  /**
   * `Update(snapshot, nowMs)`, with the grace setting passed in: a frame
   * without the panel hides it; a frame with it rebuilds when `Rebuilds`
   * holds and then marks the panel shown.
   */
  function Update(t: Tracker, snapshot: Option<GameSnapshot>, nowMs: int, setting: Option<int>): (r: Tracker)
    requires snapshot.Some? ==> Shaped(snapshot.value)
    ensures r.wasVisible == t.panelVisible
    ensures r.panelVisible <==> Shows(snapshot)
    ensures !Shows(snapshot) ==> r.graceUntilMs == 0 && r.lastGenKey == 0 && r.generation == t.generation
    ensures Shows(snapshot) && Rebuilds(t, PanelKey(snapshot.value)) ==>
      && r.generation == (t.generation + 1) % GenerationModulus
      && r.graceUntilMs == nowMs + GraceMs(setting)
      && r.lastGenKey == PanelKey(snapshot.value)
    ensures Shows(snapshot) && !Rebuilds(t, PanelKey(snapshot.value)) ==>
      r.generation == t.generation && r.graceUntilMs == t.graceUntilMs && r.lastGenKey == t.lastGenKey
  {
    if !Shows(snapshot) then SetVisible(t, false)
    else
      var key := PanelKey(snapshot.value);
      var t' := if Rebuilds(t, key) then Rebuild(t, key, nowMs, setting) else t;
      SetVisible(t', true)
  }

  /** `InGrace(nowMs)`. */
  predicate InGrace(t: Tracker, nowMs: int) {
    nowMs < t.graceUntilMs
  }

  // ---------------------------------------------------------------------------
  // Properties
  // ---------------------------------------------------------------------------

  /** Every update keeps `Generation` within its `uint`. */
  lemma UpdateKeepsValid(t: Tracker, snapshot: Option<GameSnapshot>, nowMs: int, setting: Option<int>)
    requires snapshot.Some? ==> Shaped(snapshot.value)
    requires ValidTracker(t)
    ensures ValidTracker(Update(t, snapshot, nowMs, setting))
  {
  }

  /** The generation moves exactly on visible frames that rebuild. */
  lemma GenerationMoves(t: Tracker, snapshot: Option<GameSnapshot>, nowMs: int, setting: Option<int>)
    requires snapshot.Some? ==> Shaped(snapshot.value)
    requires ValidTracker(t)
    ensures Update(t, snapshot, nowMs, setting).generation != t.generation <==>
      Shows(snapshot) && Rebuilds(t, PanelKey(snapshot.value))
  {
  }

  /** After a frame without the panel no time of the tick counter is in grace. */
  lemma HiddenNotInGrace(t: Tracker, snapshot: Option<GameSnapshot>, nowMs: int, setting: Option<int>, later: int)
    requires snapshot.Some? ==> Shaped(snapshot.value)
    requires !Shows(snapshot) && later >= 0
    ensures !InGrace(Update(t, snapshot, nowMs, setting), later)
  {
  }

  /** A rebuild at `nowMs` opens a grace window of exactly `GraceMs(setting)` milliseconds. */
  lemma GraceWindow(t: Tracker, s: GameSnapshot, nowMs: int, setting: Option<int>, later: int)
    requires Shaped(s) && Shows(Some(s)) && Rebuilds(t, PanelKey(s))
    ensures InGrace(Update(t, Some(s), nowMs, setting), later) <==> later < nowMs + GraceMs(setting)
  {
  }

  /** With the setting absent the window lasts 3000 ms: the last tick in grace is `nowMs + 2999`. */
  lemma DefaultGraceWindow(t: Tracker, s: GameSnapshot, nowMs: int)
    requires Shaped(s) && Shows(Some(s)) && Rebuilds(t, PanelKey(s))
    ensures InGrace(Update(t, Some(s), nowMs, None), nowMs + 2999)
    ensures !InGrace(Update(t, Some(s), nowMs, None), nowMs + 3000)
  {
  }

  /** Once the panel has been seen twice with the same key, further frames with that key change nothing. */
  lemma Steady(t: Tracker, s: GameSnapshot, nowMs: int, setting: Option<int>)
    requires Shaped(s) && Shows(Some(s))
    requires t.panelVisible && t.wasVisible && t.lastGenKey == PanelKey(s)
    ensures Update(t, Some(s), nowMs, setting) == t
  {
  }

  /** Two frames without the panel reset everything but the generation. */
  lemma HideTwice(t: Tracker, s1: Option<GameSnapshot>, s2: Option<GameSnapshot>, n1: int, n2: int, setting: Option<int>)
    requires s1.Some? ==> Shaped(s1.value)
    requires s2.Some? ==> Shaped(s2.value)
    requires !Shows(s1) && !Shows(s2)
    ensures Update(Update(t, s1, n1, setting), s2, n2, setting) == Tracker(false, t.generation, 0, false, 0)
  {
  }

  /**
   * `_wasVisible` lags one frame behind `PanelVisible`, so when the panel
   * appears, the second frame rebuilds again even with unchanged rectangles;
   * the state settles only from the third frame.
   */
  lemma AppearanceRebuildsTwice(t: Tracker, s: GameSnapshot, n1: int, n2: int, n3: int, setting: Option<int>)
    requires Shaped(s) && Shows(Some(s))
    requires !t.panelVisible
    ensures var t1 := Update(t, Some(s), n1, setting);
      var t2 := Update(t1, Some(s), n2, setting);
      && Rebuilds(t1, PanelKey(s))
      && t2.generation == (t1.generation + 1) % GenerationModulus
      && t2.graceUntilMs == n2 + GraceMs(setting)
      && Update(t2, Some(s), n3, setting) == t2
  {
    var t1 := Update(t, Some(s), n1, setting);
    var t2 := Update(t1, Some(s), n2, setting);
    assert !t1.wasVisible;
    Steady(t2, s, n3, setting);
  }
}
