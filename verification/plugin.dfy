/**
 * The plugin's snapshot of the choices panel: index paths read from the
 * settings as comma-separated integers, followed from a root element down the
 * UI tree, and each of the three choice lanes reduced to its visibility and
 * its text.
 */
module Plugin {
  import opened Opt
  import opened Text
  import opened UiTree

  // ---------------------------------------------------------------------------
  // int.Parse
  // ---------------------------------------------------------------------------

  const Int32Min: int := -0x8000_0000
  const Int32Max: int := 0x7FFF_FFFF

  predicate IsInt32(n: int) {
    Int32Min <= n <= Int32Max
  }

  predicate IsDigit(c: char) {
    '0' <= c <= '9'
  }

  predicate AllDigits(s: string) {
    forall i :: 0 <= i < |s| ==> IsDigit(s[i])
  }

  /** The value of a run of decimal digits, most significant first. */
  function DigitsValue(ds: string): nat
    requires AllDigits(ds)
  {
    if |ds| == 0 then 0
    else DigitsValue(ds[..|ds| - 1]) * 10 + (ds[|ds| - 1] as int - '0' as int)
  }

  /**
   * `int.Parse` of an already trimmed piece: an optional sign, then at
   * least one ASCII digit, and a value that fits in 32 bits; anything else
   * throws, which is `None` here.
   */
  function ParseInt32(t: string): (r: Option<int>)
    ensures r.Some? ==> IsInt32(r.value)
  {
    var signed := |t| > 0 && (t[0] == '-' || t[0] == '+');
    var ds := if signed then t[1..] else t;
    if |ds| == 0 || !AllDigits(ds) then None
    else
      var v: int := if signed && t[0] == '-' then -(DigitsValue(ds) as int) else DigitsValue(ds);
      if IsInt32(v) then Some(v) else None
  }

  /** One piece as `int.Parse(x.Trim())` reads it. */
  function ReadPiece(piece: string): Option<int> {
    ParseInt32(Trim(piece))
  }

  /**
   * Every piece read with `read`, or `None` at the first that throws
   * (`Parse` passes `ReadPiece`).
   */
  function ParseAll(read: string -> Option<int>, pieces: seq<string>): (r: Option<seq<int>>)
    ensures r.Some? ==> |r.value| == |pieces| && forall i :: 0 <= i < |pieces| ==> read(pieces[i]) == Some(r.value[i])
    ensures r.None? <==> exists i :: 0 <= i < |pieces| && read(pieces[i]).None?
  {
    if |pieces| == 0 then Some([])
    else
      match read(pieces[0])
      case None => None
      case Some(v) =>
        match ParseAll(read, pieces[1..])
        case None =>
          var i :| 0 <= i < |pieces[1..]| && read(pieces[1..][i]).None?;
          assert read(pieces[i + 1]).None?;
          None
        case Some(vs) =>
          assert forall i :: 1 <= i < |pieces| ==> pieces[i] == pieces[1..][i - 1];
          Some([v] + vs)
  }

  /** The pieces `Parse` reads: split on ',', empty pieces dropped. */
  function Pieces(csv: string): seq<string> {
    NonEmpty(SplitChars(csv, {','}))
  }

  /**
   * `Parse`: the non-empty comma-separated pieces, each trimmed and read as
   * a 32-bit integer, in order. A null string, or any piece that does not
   * read (a blank one, one out of range), gives the empty path.
   */
  function Parse(csv: Option<string>): (r: seq<int>)
    ensures csv.None? ==> r == []
    ensures csv.Some? && ParseAll(ReadPiece, Pieces(csv.value)).Some? ==>
      |r| == |Pieces(csv.value)| && forall i :: 0 <= i < |r| ==> ReadPiece(Pieces(csv.value)[i]) == Some(r[i])
    ensures csv.Some? && (exists i :: 0 <= i < |Pieces(csv.value)| && ReadPiece(Pieces(csv.value)[i]).None?) ==> r == []
  {
    if csv.None? then []
    else
      match ParseAll(ReadPiece, Pieces(csv.value))
      case None => []
      case Some(vs) => vs
  }

  // ---------------------------------------------------------------------------
  // Writing paths, for the round trip
  // ---------------------------------------------------------------------------

  function DigitChar(d: nat): (c: char)
    requires d < 10
    ensures IsDigit(c) && c as int - '0' as int == d
  {
    ('0' as int + d) as char
  }

  /** The decimal digits of `n`, most significant first. */
  function Digits(n: nat): (ds: string)
    ensures |ds| > 0 && AllDigits(ds)
    ensures DigitsValue(ds) == n
  {
    if n < 10 then
      assert [DigitChar(n)][..0] == [];
      [DigitChar(n)]
    else
      var ds := Digits(n / 10) + [DigitChar(n % 10)];
      assert ds[..|ds| - 1] == Digits(n / 10);
      ds
  }

  /** An integer as the settings would hold it: optional '-', then its digits. */
  function Show(n: int): (s: string)
    ensures |s| > 0 && !IsWhite(s[0]) && !IsWhite(s[|s| - 1])
    ensures forall k :: 0 <= k < |s| ==> s[k] != ','
  {
    if n < 0 then "-" + Digits(-n) else Digits(n)
  }

  function ShowAll(xs: seq<int>): (ss: seq<string>)
    ensures |ss| == |xs| && forall i :: 0 <= i < |xs| ==> ss[i] == Show(xs[i])
  {
    if |xs| == 0 then [] else [Show(xs[0])] + ShowAll(xs[1..])
  }

  /** Reading back a written integer gives the integer. */
  lemma ParseShow(n: int)
    requires IsInt32(n)
    ensures ReadPiece(Show(n)) == Some(n)
  {
    TrimOfTrimmed(Show(n));
    if n < 0 {
      assert Show(n)[1..] == Digits(-n);
    }
  }

  lemma {:induction false} NonEmptyOfNonEmpty(xs: seq<string>)
    requires forall i :: 0 <= i < |xs| ==> |xs[i]| > 0
    ensures NonEmpty(xs) == xs
  {
    if |xs| > 0 {
      NonEmptyOfNonEmpty(xs[1..]);
      assert xs == [xs[0]] + xs[1..];
    }
  }

  /** Pieces that each read as the matching integer parse to those integers. */
  lemma {:induction false} ParseAllOf(read: string -> Option<int>, ss: seq<string>, xs: seq<int>)
    requires |ss| == |xs|
    requires forall i :: 0 <= i < |ss| ==> read(ss[i]) == Some(xs[i])
    ensures ParseAll(read, ss) == Some(xs)
  {
    if |ss| > 0 {
      ParseAllOf(read, ss[1..], xs[1..]);
      assert xs == [xs[0]] + xs[1..];
    }
  }

  /** Written integers joined with commas split back into the same pieces. */
  lemma PiecesOfJoin(xs: seq<int>)
    requires |xs| > 0
    ensures Pieces(Join(ShowAll(xs), ",")) == ShowAll(xs)
  {
    var ss := ShowAll(xs);
    assert forall i :: 0 <= i < |ss| ==> NoSep(ss[i], {','});
    assert [','] == ",";
    SplitJoinChar(ss, ',', {','});
    NonEmptyOfNonEmpty(ss);
  }

  lemma ParseOf(csv: string, xs: seq<int>)
    requires ParseAll(ReadPiece, Pieces(csv)) == Some(xs)
    ensures Parse(Some(csv)) == xs
  {
  }

  /** A path written out with commas reads back as the same path. */
  lemma ParseRoundTrip(xs: seq<int>)
    requires forall i :: 0 <= i < |xs| ==> IsInt32(xs[i])
    ensures Parse(Some(Join(ShowAll(xs), ","))) == xs
  {
    var ss := ShowAll(xs);
    if |xs| == 0 {
      assert Pieces("") == [];
    } else {
      PiecesOfJoin(xs);
      forall i | 0 <= i < |ss| ensures ReadPiece(ss[i]) == Some(xs[i]) {
        ParseShow(xs[i]);
      }
      ParseAllOf(ReadPiece, ss, xs);
      ParseOf(Join(ss, ","), xs);
    }
  }

  /** A blank piece between commas spoils the whole path, as in "3, ,1". */
  lemma BlankPieceSpoils()
    ensures Parse(Some("3, ,1")) == []
  {
    var csv := "3, ,1";
    var ps := ["3", " ", "1"];
    SplitThree('3', ' ', '1', ',');
    assert "3, ,1" == ['3', ',', ' ', ',', '1'];
    NonEmptyOfNonEmpty(ps);
    assert Pieces(csv) == ps;
    TrimBlank(ps[1]);
    Spoiled(csv, 1);
  }

  /** One piece that does not read spoils the path. */
  lemma Spoiled(csv: string, i: nat)
    requires i < |Pieces(csv)| && ReadPiece(Pieces(csv)[i]).None?
    ensures Parse(Some(csv)) == []
  {
  }

  lemma TrimBlank(s: string)
    requires s == " "
    ensures ReadPiece(s).None?
  {
    assert IsBlank(s);
  }

  // ---------------------------------------------------------------------------
  // FollowChain
  // ---------------------------------------------------------------------------

  /**
   * `FollowChain`: from `start`, take child `index` for each index in turn;
   * a null node, a null child list or an index out of range gives null.
   */
  function FollowChain(start: Option<Node>, chain: seq<int>): (r: Option<Node>)
    ensures |chain| == 0 ==> r == start
    ensures |chain| > 0 && start.None? ==> r.None?
    decreases |chain|
  {
    if |chain| == 0 then start
    else
      match start
      case None => None
      case Some(n) =>
        match n.children
        case NullChildren => None
        case Elements(items) =>
          if chain[0] < 0 || chain[0] >= |items| then None
          else FollowChain(Some(items[chain[0]]), chain[1..])
  }

  /** A chain can be followed in two parts. */
  lemma {:induction false} FollowAppend(start: Option<Node>, a: seq<int>, b: seq<int>)
    ensures FollowChain(start, a + b) == FollowChain(FollowChain(start, a), b)
    decreases |a|
  {
    if |a| == 0 {
      assert a + b == b;
    } else if start.Some? && start.value.children.Elements? {
      var items := start.value.children.items;
      assert (a + b)[0] == a[0];
      if 0 <= a[0] < |items| {
        assert (a + b)[1..] == a[1..] + b;
        FollowAppend(Some(items[a[0]]), a[1..], b);
      } else {
        assert FollowChain(start, a).None?;
      }
    }
  }

  // ---------------------------------------------------------------------------
  // CaptureSnapshot
  // ---------------------------------------------------------------------------

  /** The index paths from the settings (`Settings.DevTree`). */
  datatype DevTree = DevTree(
    rootIndex: int,
    revealPath: Option<string>, confirmPath: Option<string>, rerollPath: Option<string>,
    choice1Path: Option<string>, choice2Path: Option<string>, choice3Path: Option<string>)

  /**
   * `GameSnapshot`. The three per-choice arrays always have three entries;
   * the text list is filled only when the root was found.
   */
  datatype GameSnapshot = GameSnapshot(
    root: Option<Node>,
    rootOk: bool,
    revealBtn: Option<Node>, confirmBtn: Option<Node>, rerollBtn: Option<Node>,
    choices: seq<Option<Node>>,
    choiceVisible: seq<bool>,
    choiceTextOk: seq<bool>,
    choiceTexts: seq<string>)

  /** The arrays of three, as `GameSnapshot` allocates them. */
  predicate Shaped(s: GameSnapshot) {
    |s.choices| == 3 && |s.choiceVisible| == 3 && |s.choiceTextOk| == 3
  }

  /** A snapshot with nothing found. */
  function EmptySnapshot(): (s: GameSnapshot)
    ensures Shaped(s) && !s.rootOk
  {
    GameSnapshot(None, false, None, None, None, [None, None, None], [false, false, false], [false, false, false], [])
  }

  /** `ElementAtOrDefault` on a child list that may be null. */
  function ChildAt(ui: Node, index: int): Option<Node> {
    match ui.children
    case NullChildren => None
    case Elements(items) => if 0 <= index < |items| then Some(items[index]) else None
  }

  /** Lane `i` of a snapshot records the element's visibility and its non-blank text. */
  predicate LaneAgrees(s: GameSnapshot, i: nat)
    requires Shaped(s) && |s.choiceTexts| == 3 && i < 3
  {
    && (s.choiceVisible[i] <==> IsValidElement(s.choices[i]))
    && (s.choiceTextOk[i], s.choiceTexts[i]) == LaneText(s.choices[i])
  }

  /** One lane: visible when the element exists and is visible; text kept only when it is not blank. */
  function LaneText(element: Option<Node>): (r: (bool, string))
    ensures r.0 <==> !IsNullOrWhiteSpace(ElementText(element))
    ensures !r.0 ==> r.1 == ""
    ensures r.0 ==> ElementText(element) == Some(r.1)
  {
    var text := ElementText(element);
    if IsNullOrWhiteSpace(text) then (false, "") else (true, text.value)
  }

  /**
   * `CaptureSnapshot`: the root is the configured child of the UI root and
   * must be visible; the buttons and the three choices are found by their
   * paths; each choice lane records visibility and non-blank text.
   */
  function CaptureSnapshot(ui: Option<Node>, tree: DevTree): (s: GameSnapshot)
    ensures Shaped(s)
    ensures s.rootOk <==> ui.Some? && ChildAt(ui.value, tree.rootIndex).Some? && ChildAt(ui.value, tree.rootIndex).value.visible
    ensures !s.rootOk ==> s == EmptySnapshot()
    ensures s.rootOk ==> |s.choiceTexts| == 3 && LaneAgrees(s, 0) && LaneAgrees(s, 1) && LaneAgrees(s, 2)
  {
    if ui.None? then EmptySnapshot()
    else
      var root := ChildAt(ui.value, tree.rootIndex);
      if root.None? || !root.value.visible then EmptySnapshot()
      else
        var choices := [FollowChain(root, Parse(tree.choice1Path)), FollowChain(root, Parse(tree.choice2Path)), FollowChain(root, Parse(tree.choice3Path))];
        var l0 := LaneText(choices[0]);
        var l1 := LaneText(choices[1]);
        var l2 := LaneText(choices[2]);
        GameSnapshot(
          root, true,
          FollowChain(root, Parse(tree.revealPath)), FollowChain(root, Parse(tree.confirmPath)), FollowChain(root, Parse(tree.rerollPath)),
          choices,
          [IsValidElement(choices[0]), IsValidElement(choices[1]), IsValidElement(choices[2])],
          [l0.0, l1.0, l2.0],
          [l0.1, l1.1, l2.1])
  }

  /**
   * A choice path that is unset (or does not parse) is the empty chain, so
   * the choice is the root itself, which counts as a visible lane.
   */
  lemma UnsetPathSelectsRoot(ui: Option<Node>, tree: DevTree)
    requires CaptureSnapshot(ui, tree).rootOk
    requires tree.choice1Path.None?
    ensures var s := CaptureSnapshot(ui, tree);
      s.root.Some? && s.choices[0] == s.root && s.choiceVisible[0]
  {
  }

  /** A captured lane is the element the configured path reaches from the root. */
  lemma CaptureFollowsPaths(ui: Option<Node>, tree: DevTree)
    requires CaptureSnapshot(ui, tree).rootOk
    ensures var s := CaptureSnapshot(ui, tree);
      && s.root == ChildAt(ui.value, tree.rootIndex)
      && s.choices == [FollowChain(s.root, Parse(tree.choice1Path)), FollowChain(s.root, Parse(tree.choice2Path)), FollowChain(s.root, Parse(tree.choice3Path))]
      && s.confirmBtn == FollowChain(s.root, Parse(tree.confirmPath))
  {
  }

  /** A lane with text holds it trimmed and not blank. */
  lemma LaneTextTrimmed(element: Option<Node>)
    requires LaneText(element).0
    ensures var t := LaneText(element).1;
      !IsBlank(t) && !IsWhite(t[0]) && !IsWhite(t[|t| - 1])
  {
    ElementTextTrimmed(element);
  }
}
