/**
 * The game's UI element tree and the defensive helpers over it: an element's
 * text found by breadth-first search, its client rectangle when it has an
 * area, and the visible-element test.
 *
 * An element is visible or not, may carry text, and may have a (possibly
 * null) list of children. Its client rectangle is taken with coordinates
 * already rounded to integers.
 */
module UiTree {
  import opened Opt
  import opened Text

  datatype Rect = Rect(x: int, y: int, width: int, height: int)

  datatype Node = Node(visible: bool, text: Option<string>, children: Children, rect: Rect)

  /** An element's `Children`, which may be null. */
  datatype Children = NullChildren | Elements(items: seq<Node>)

  // ---------------------------------------------------------------------------
  // GetSafeRect, IsValidElement
  // ---------------------------------------------------------------------------

  /** `GetSafeRect`: the element's rectangle when the element exists and the rectangle has an area. */
  function GetSafeRect(element: Option<Node>): (r: Option<Rect>)
    ensures r.Some? <==> element.Some? && element.value.rect.width > 0 && element.value.rect.height > 0
    ensures r.Some? ==> r.value == element.value.rect
  {
    if element.None? then None
    else if element.value.rect.width > 0 && element.value.rect.height > 0 then Some(element.value.rect)
    else None
  }

  /** `IsValidElement`. */
  predicate IsValidElement(element: Option<Node>) {
    element.Some? && element.value.visible
  }

  // ---------------------------------------------------------------------------
  // Breadth-first order, level by level
  // ---------------------------------------------------------------------------

  /** A node the search stops at: visible, with non-empty text. */
  predicate Hit(n: Node) {
    n.visible && !IsNullOrEmpty(n.text)
  }

  /** The children the search goes on to from a node that is not a hit: none for an invisible node. */
  function Expand(n: Node): seq<Node> {
    if n.visible && n.children.Elements? then n.children.items else []
  }

  /** The next level: the children of the level's nodes, in order. */
  function Kids(level: seq<Node>): seq<Node> {
    if |level| == 0 then [] else Kids(level[..|level| - 1]) + Expand(level[|level| - 1])
  }

  /** The first hit of a level. */
  function FirstHit(level: seq<Node>): (r: Option<nat>)
    ensures r.Some? ==> r.value < |level| && Hit(level[r.value])
    ensures r.Some? ==> forall j :: 0 <= j < r.value ==> !Hit(level[j])
    ensures r.None? <==> forall j :: 0 <= j < |level| ==> !Hit(level[j])
  {
    if |level| == 0 then None
    else if Hit(level[0]) then Some(0)
    else
      match FirstHit(level[1..])
      case None => None
      case Some(i) => Some(i + 1)
  }

  /**
   * The first hit in level order, starting from `level`: the trimmed text of
   * the first hit of the first level that has one.
   */
  function Search(level: seq<Node>): Option<string>
    decreases Weight(level)
  {
    if |level| == 0 then None
    else
      match FirstHit(level)
      case Some(i) => Some(Trim(level[i].text.value))
      case None =>
        KidsLighter(level);
        Search(Kids(level))
  }

  /** `GetElementText`, stated level by level. */
  function ElementText(element: Option<Node>): Option<string> {
    if element.None? || !element.value.visible then None
    else if !IsNullOrEmpty(element.value.text) then Some(Trim(element.value.text.value))
    else Search([element.value])
  }

  // ---------------------------------------------------------------------------
  // Sizes, for termination
  // ---------------------------------------------------------------------------

  function Size(n: Node): nat
    decreases n, 1
  {
    1 + ChildrenSize(n, 0)
  }

  /** Total size of the children of `n` from index `k` on. */
  function ChildrenSize(n: Node, k: nat): nat
    decreases n, 0, if n.children.NullChildren? then 0 else |n.children.items| - k
  {
    match n.children
    case NullChildren => 0
    case Elements(cs) =>
      if k >= |cs| then 0
      else
        assert cs[k] in cs;
        Size(cs[k]) + ChildrenSize(n, k + 1)
  }

  function Weight(level: seq<Node>): nat {
    if |level| == 0 then 0 else Weight(level[..|level| - 1]) + Size(level[|level| - 1])
  }

  lemma {:induction false} WeightAppend(a: seq<Node>, b: seq<Node>)
    ensures Weight(a + b) == Weight(a) + Weight(b)
    decreases |b|
  {
    if |b| == 0 {
      assert a + b == a;
    } else {
      assert (a + b)[..|a + b| - 1] == a + b[..|b| - 1];
      WeightAppend(a, b[..|b| - 1]);
    }
  }

  lemma {:induction false} WeightFront(level: seq<Node>)
    requires |level| > 0
    ensures Weight(level) == Size(level[0]) + Weight(level[1..])
  {
    assert level == [level[0]] + level[1..];
    WeightAppend([level[0]], level[1..]);
    assert [level[0]][..0] == [];
  }

  lemma {:induction false} ChildrenWeight(n: Node, k: nat)
    requires n.children.Elements? && k <= |n.children.items|
    ensures ChildrenSize(n, k) == Weight(n.children.items[k..])
    decreases |n.children.items| - k
  {
    var cs := n.children.items;
    if k < |cs| {
      ChildrenWeight(n, k + 1);
      WeightFront(cs[k..]);
      assert cs[k..][1..] == cs[k + 1..];
    }
  }

  /** The children a node leads to weigh less than the node. */
  lemma ExpandLighter(n: Node)
    ensures Weight(Expand(n)) < Size(n)
  {
    if n.visible && n.children.Elements? {
      ChildrenWeight(n, 0);
      assert n.children.items[0..] == n.children.items;
    }
  }

  lemma {:induction false} KidsLighter(level: seq<Node>)
    ensures Weight(Kids(level)) + |level| <= Weight(level)
  {
    if |level| > 0 {
      var init := level[..|level| - 1];
      KidsLighter(init);
      WeightAppend(Kids(init), Expand(level[|level| - 1]));
      ExpandLighter(level[|level| - 1]);
    }
  }

  lemma KidsStep(level: seq<Node>, i: nat)
    requires i < |level|
    ensures Kids(level[..i + 1]) == Kids(level[..i]) + Expand(level[i])
  {
    assert level[..i + 1][..i] == level[..i];
  }

  // ---------------------------------------------------------------------------
  // GetElementText
  // ---------------------------------------------------------------------------

  /**
   * `GetElementText`: null for a missing or invisible element; the element's
   * own trimmed text if it has any; otherwise the trimmed text of the first
   * visible node with non-empty text in breadth-first order, never looking
   * below an invisible node; null if there is none. Text that is only
   * whitespace counts as text and gives "".
   */
  method GetElementText(element: Option<Node>) returns (r: Option<string>)
    ensures r == ElementText(element)
    ensures element.None? || !element.value.visible ==> r.None?
    ensures IsValidElement(element) && !IsNullOrEmpty(element.value.text) ==> r == Some(Trim(element.value.text.value))
  {
    if element.None? || !element.value.visible {
      return None;
    }
    if !IsNullOrEmpty(element.value.text) {
      return Some(Trim(element.value.text.value));
    }
    r := SearchFrom(element.value);
  }

  /** The breadth-first loop of `GetElementText`, from one root node. */
  method SearchFrom(root: Node) returns (r: Option<string>)
    ensures r == Search([root])
  {
    var queue := [root];
    while |queue| > 0
      invariant Bfs(queue) == Bfs([root])
      decreases Weight(queue)
    {
      var current := queue[0];
      if current.visible && !IsNullOrEmpty(current.text) {
        r := Some(Trim(current.text.value));
        break;
      }
      var rest := queue[1..];
      if current.visible && current.children.Elements? {
        rest := rest + current.children.items;
      }
      assert rest == queue[1..] + Expand(current);
      DequeueLighter(queue);
      queue := rest;
    }
    if |queue| == 0 {
      r := None;
    }
    assert [root][0..] + Kids([root][..0]) == [root];
    QueueSearch([root], 0);
  }

  /** The queue discipline itself: the first hit taken from the front, what a node leads to added at the back. */
  function Bfs(queue: seq<Node>): Option<string>
    decreases Weight(queue)
  {
    if |queue| == 0 then None
    else if Hit(queue[0]) then Some(Trim(queue[0].text.value))
    else
      DequeueLighter(queue);
      Bfs(queue[1..] + Expand(queue[0]))
  }

  /** Dropping the front node and adding what it leads to makes the queue lighter. */
  lemma DequeueLighter(queue: seq<Node>)
    requires |queue| > 0
    ensures Weight(queue[1..] + Expand(queue[0])) < Weight(queue)
  {
    WeightFront(queue);
    WeightAppend(queue[1..], Expand(queue[0]));
    ExpandLighter(queue[0]);
  }

  /**
   * Draining the queue finds what the level-by-level search finds: the queue
   * holds the rest of a level with no hit so far, then the next level's start.
   */
  lemma {:induction false} QueueSearch(level: seq<Node>, i: nat)
    requires i <= |level|
    requires forall j :: 0 <= j < i ==> !Hit(level[j])
    ensures Bfs(level[i..] + Kids(level[..i])) == Search(level)
    decreases Weight(level[i..] + Kids(level[..i])), if i == |level| then 1 else 0
  {
    var queue := level[i..] + Kids(level[..i]);
    if |queue| == 0 {
      Exhausted(level, i);
    } else if i == |level| {
      NextLevel(level, queue);
      QueueSearch(Kids(level), 0);
    } else {
      QueueFront(level, i, queue);
      if Hit(level[i]) {
        FirstHitAt(level, i);
      } else {
        var rest := queue[1..] + Expand(level[i]);
        Dequeue(level, i, queue, rest);
        QueueSearch(level, i + 1);
      }
    }
  }

  /** While the level is not used up, the queue starts with its next node. */
  lemma QueueFront(level: seq<Node>, i: nat, queue: seq<Node>)
    requires i < |level| && queue == level[i..] + Kids(level[..i])
    ensures |queue| > 0 && queue[0] == level[i]
  {
  }

  /** An empty queue: the level had no hit and leads nowhere, so the search finds nothing. */
  lemma Exhausted(level: seq<Node>, i: nat)
    requires i <= |level| && |level[i..] + Kids(level[..i])| == 0
    requires forall j :: 0 <= j < i ==> !Hit(level[j])
    ensures Search(level) == None
  {
    assert i == |level|;
    assert level[..i] == level;
    if |level| > 0 {
      assert FirstHit(level).None?;
      KidsLighter(level);
      assert Kids(level) == [];
    }
  }

  /** A level searched to its end without a hit: the queue holds the next level. */
  lemma NextLevel(level: seq<Node>, queue: seq<Node>)
    requires queue == level[|level|..] + Kids(level[..|level|])
    requires forall j :: 0 <= j < |level| ==> !Hit(level[j])
    requires |queue| > 0
    ensures queue == Kids(level) && |Kids(level)| > 0
    ensures queue == Kids(level)[0..] + Kids(Kids(level)[..0])
    ensures Search(Kids(level)) == Search(level)
  {
    assert level[..|level|] == level;
    assert Kids(level)[..0] == [];
    assert FirstHit(level).None?;
  }

  /** Taking a node that is not a hit off the queue and adding what it leads to. */
  lemma Dequeue(level: seq<Node>, i: nat, queue: seq<Node>, rest: seq<Node>)
    requires i < |level| && queue == level[i..] + Kids(level[..i])
    requires forall j :: 0 <= j < i ==> !Hit(level[j])
    requires !Hit(level[i]) && rest == queue[1..] + Expand(level[i])
    ensures rest == level[i + 1..] + Kids(level[..i + 1])
    ensures forall j :: 0 <= j < i + 1 ==> !Hit(level[j])
    ensures Weight(rest) < Weight(queue)
  {
    KidsStep(level, i);
    assert queue[1..] == level[i + 1..] + Kids(level[..i]);
    AppendAssoc(level[i + 1..], Kids(level[..i]), Expand(level[i]));
    assert queue[0] == level[i];
    DequeueLighter(queue);
  }

  lemma FirstHitAt(level: seq<Node>, i: nat)
    requires i < |level| && Hit(level[i])
    requires forall j :: 0 <= j < i ==> !Hit(level[j])
    ensures Search(level) == Some(Trim(level[i].text.value))
  {
    var r := FirstHit(level);
    assert r.Some?;
    assert r.value == i;
  }

  /** The pre-check of the element's own text is what the search finds first anyway. */
  lemma ElementTextIsSearch(n: Node)
    ensures ElementText(Some(n)) == (if n.visible then Search([n]) else None)
  {
    if Hit(n) {
      FirstHitAt([n], 0);
    }
  }

  /** The search never looks below an invisible node: an invisible child's subtree does not matter. */
  lemma InvisibleIgnored(level: seq<Node>, i: nat, other: Node)
    requires i < |level| && !level[i].visible && !other.visible
    ensures Search(level[i := other]) == Search(level)
    decreases Weight(level)
  {
    var level' := level[i := other];
    KidsSame(level, level', i);
    assert FirstHit(level') == FirstHit(level) by {
      assert forall j :: 0 <= j < |level| ==> (Hit(level'[j]) <==> Hit(level[j]));
      FirstHitSame(level, level');
    }
  }

  lemma {:induction false} KidsSame(level: seq<Node>, level': seq<Node>, i: nat)
    requires i < |level| == |level'|
    requires forall j :: 0 <= j < |level| && j != i ==> level'[j] == level[j]
    requires Expand(level[i]) == Expand(level'[i])
    ensures Kids(level') == Kids(level)
  {
    if |level| - 1 != i {
      var n := |level| - 1;
      KidsSame(level[..n], level'[..n], i);
    } else {
      assert level[..i] == level'[..i];
    }
  }

  lemma {:induction false} FirstHitSame(level: seq<Node>, level': seq<Node>)
    requires |level| == |level'|
    requires forall j :: 0 <= j < |level| ==> (Hit(level'[j]) <==> Hit(level[j]))
    ensures FirstHit(level') == FirstHit(level)
  {
    if |level| > 0 {
      FirstHitSame(level[1..], level'[1..]);
    }
  }

  /** The search only ever returns trimmed text. */
  lemma {:induction false} SearchTrimmed(level: seq<Node>)
    ensures Search(level).Some? ==> Trimmed(Search(level).value)
    decreases Weight(level)
  {
    if |level| > 0 && FirstHit(level).None? {
      KidsLighter(level);
      SearchTrimmed(Kids(level));
    }
  }

  /** `GetElementText` only ever returns trimmed text. */
  lemma ElementTextTrimmed(element: Option<Node>)
    ensures ElementText(element).Some? ==> Trimmed(ElementText(element).value)
  {
    if element.Some? && element.value.visible && IsNullOrEmpty(element.value.text) {
      SearchTrimmed([element.value]);
    }
  }
}
