/** The Win32 layout pass: nested rows and columns, measured once and placed at a scroll offset. */
module ScrollLayout {
  import opened Common
  import opened IntegerSemantics

  datatype Orientation = Column | Row
  datatype Alignment = AlignStart | AlignCenter | AlignEnd
  datatype ControlKind = LabelKind | ButtonKind | InputKind | SelectKind | ListKind | TableKind
  datatype Content = ControlContent(kind: ControlKind, index: int) | NodeContent(node: int)

  datatype Child = Child(content: Content, width: int, height: int, stretch: bool)

  datatype LayoutNode = LayoutNode(
    parent: int, orientation: Orientation, baseWidth: int, baseHeight: int,
    padding: int, gap: int, align: Alignment, stretch: bool,
    panelLabel: int, children: seq<Child>)

  datatype Rect = Rect(x: int, y: int, width: int, height: int)

  /** What a pass moves: the box of a layout node, or a native control. */
  datatype Target = NodeBox(node: int) | Control(kind: ControlKind, index: int)

  datatype Placement = Placement(target: Target, rect: Rect)

  /** The moves of a pass in order, and every bottom edge it measured. */
  datatype Pass = Pass(moves: seq<Placement>, bottoms: seq<int>)

  datatype Tree = Tree(nodes: seq<LayoutNode>, controls: set<Target>)

  /** The builder appends nodes, so a nested scope has a larger index than its parent. */
  ghost predicate Ordered(t: Tree) {
    forall i, k :: 0 <= i < |t.nodes| && 0 <= k < |t.nodes[i].children| ==>
      t.nodes[i].children[k].content.NodeContent? ==> t.nodes[i].children[k].content.node > i
  }

  function Clamp(value: int, low: int, high: int): int {
    if value < low then low else if value > high then high else value
  }

  /** Clamping gives the value in range that is nearest. */
  lemma ClampIsNearest(value: int, low: int, high: int, other: int)
    requires low <= high && low <= other <= high
    ensures low <= Clamp(value, low, high) <= high
    ensures if other <= value then other <= Clamp(value, low, high) <= Max(value, low)
            else value <= Clamp(value, low, high) <= other
  {
  }

  function Max(a: int, b: int): int { if a < b then b else a }

  function AlignedPosition(origin: int, available: int, requested: int, align: Alignment): int {
    var size := if requested < available then requested else available;
    match align
    case AlignStart => origin
    case AlignCenter => origin + (available - size) / 2
    case AlignEnd => origin + available - size
  }

  /** Extent of the first `k` children along the main axis, with gaps. */
  function PrimaryTotal(n: LayoutNode, k: nat): int
    requires k <= |n.children|
  {
    if k == 0 then 0
    else
      var child := n.children[k - 1];
      PrimaryTotal(n, k - 1) + (if n.orientation.Column? then child.height else child.width)
      + (if k < |n.children| then n.gap else 0)
  }

  function ContentBox(n: LayoutNode, box: Rect): Rect {
    Rect(box.x + n.padding, box.y + n.padding,
         Clamp(box.width - n.padding * 2, 1, 4000), Clamp(box.height - n.padding * 2, 1, 4000))
  }

  function StartCursor(n: LayoutNode, content: Rect): int {
    if n.orientation.Column? then content.y
    else AlignedPosition(content.x, content.width, PrimaryTotal(n, |n.children|), n.align)
  }

  function ChildRect(n: LayoutNode, content: Rect, child: Child, cursor: int): Rect {
    if n.orientation.Column? then
      var width := if child.stretch then content.width else Clamp(child.width, 1, content.width);
      Rect(AlignedPosition(content.x, content.width, width, n.align), cursor,
           width, Clamp(child.height, 1, content.height))
    else
      var height := if child.stretch then content.height else Clamp(child.height, 1, content.height);
      Rect(cursor, content.y + (content.height - height) / 2, Clamp(child.width, 1, content.width), height)
  }

  function NextCursor(n: LayoutNode, k: nat, cursor: int, rect: Rect): int
    requires k < |n.children|
  {
    cursor + (if n.orientation.Column? then rect.height else rect.width)
    + (if k + 1 < |n.children| then n.gap else 0)
  }

  /** A move of a control that does not exist is skipped. */
  function Place(t: Tree, target: Target, rect: Rect): seq<Placement> {
    if target.NodeBox? || target in t.controls then [Placement(target, rect)] else []
  }

  /** One pass followed by another. */
  function Then(a: Pass, b: Pass): Pass { Pass(a.moves + b.moves, a.bottoms + b.bottoms) }

  function OwnPass(t: Tree, i: int, n: LayoutNode, box: Rect): Pass {
    Pass(Place(t, NodeBox(i), box)
         + (if n.panelLabel >= 0 then Place(t, Control(LabelKind, n.panelLabel), box) else []),
         [box.y + box.height])
  }

  function NodePass(t: Tree, i: int, box: Rect): Pass
    requires Ordered(t)
    decreases |t.nodes| - i, 1
  {
    if i < 0 || i >= |t.nodes| || box.width <= 0 || box.height <= 0 then Pass([], [])
    else
      var content := ContentBox(t.nodes[i], box);
      Then(OwnPass(t, i, t.nodes[i], box), ChildrenPass(t, i, content, 0, StartCursor(t.nodes[i], content)))
  }

  /** The children from `k` on, the first of them at `cursor`. */
  function ChildrenPass(t: Tree, i: nat, content: Rect, k: nat, cursor: int): Pass
    requires Ordered(t) && i < |t.nodes| && k <= |t.nodes[i].children|
    decreases |t.nodes| - i, 0, |t.nodes[i].children| - k, 1
  {
    var n := t.nodes[i];
    if k == |n.children| then Pass([], [])
    else
      var rect := ChildRect(n, content, n.children[k], cursor);
      Then(ChildPass(t, i, k, rect), ChildrenPass(t, i, content, k + 1, NextCursor(n, k, cursor, rect)))
  }

  function ChildPass(t: Tree, i: nat, k: nat, rect: Rect): Pass
    requires Ordered(t) && i < |t.nodes| && k < |t.nodes[i].children|
    decreases |t.nodes| - i, 0, |t.nodes[i].children| - k, 0
  {
    var inner := match t.nodes[i].children[k].content
                 case ControlContent(kind, index) => Pass(Place(t, Control(kind, index), rect), [])
                 case NodeContent(node) => NodePass(t, node, rect);
    Then(inner, Pass([], [rect.y + rect.height]))
  }

  // ----- placement of children -----

  /** Where the pass puts child `k`. */
  function CursorAt(n: LayoutNode, content: Rect, k: nat): int
    requires k <= |n.children|
  {
    if k == 0 then StartCursor(n, content)
    else
      var before := CursorAt(n, content, k - 1);
      NextCursor(n, k - 1, before, ChildRect(n, content, n.children[k - 1], before))
  }

  function RectAt(n: LayoutNode, content: Rect, k: nat): Rect
    requires k < |n.children|
  {
    ChildRect(n, content, n.children[k], CursorAt(n, content, k))
  }

  lemma {:induction false} ChildPassIncluded(t: Tree, i: nat, content: Rect, j: nat, k: nat)
    requires Ordered(t) && i < |t.nodes| && j <= k < |t.nodes[i].children|
    ensures var n := t.nodes[i];
            forall m :: m in ChildPass(t, i, k, RectAt(n, content, k)).moves ==>
              m in ChildrenPass(t, i, content, j, CursorAt(n, content, j)).moves
    decreases k - j
  {
    if j < k { ChildPassIncluded(t, i, content, j + 1, k); }
  }

  /** Laying out a node moves each control child, and each nested node with all it holds, to the
      rectangle of its own place among the children. */
  lemma ChildIsPlaced(t: Tree, i: nat, box: Rect, k: nat)
    requires Ordered(t) && i < |t.nodes| && k < |t.nodes[i].children| && box.width > 0 && box.height > 0
    ensures var rect := RectAt(t.nodes[i], ContentBox(t.nodes[i], box), k);
            match t.nodes[i].children[k].content
            case ControlContent(kind, index) =>
              Control(kind, index) in t.controls ==> Placement(Control(kind, index), rect) in NodePass(t, i, box).moves
            case NodeContent(node) =>
              forall m :: m in NodePass(t, node, rect).moves ==> m in NodePass(t, i, box).moves
  {
    var content := ContentBox(t.nodes[i], box);
    ChildPassIncluded(t, i, content, 0, k);
    var child := ChildPass(t, i, k, RectAt(t.nodes[i], content, k)).moves;
    assert forall m :: m in child ==> m in NodePass(t, i, box).moves;
  }

  /** Children follow each other along the main axis, exactly one gap apart. */
  lemma ChildrenAreStacked(n: LayoutNode, content: Rect, k: nat)
    requires k + 1 < |n.children|
    ensures n.orientation.Column? ==>
              RectAt(n, content, k + 1).y == RectAt(n, content, k).y + RectAt(n, content, k).height + n.gap
    ensures n.orientation.Row? ==>
              RectAt(n, content, k + 1).x == RectAt(n, content, k).x + RectAt(n, content, k).width + n.gap
  {
  }

  /** Across the main axis a child stays inside the content box, and a stretched child fills it. */
  lemma CrossAxisContained(n: LayoutNode, content: Rect, child: Child, cursor: int)
    requires content.width >= 1 && content.height >= 1
    ensures var r := ChildRect(n, content, child, cursor);
            && (n.orientation.Column? ==>
                  && content.x <= r.x && r.x + r.width <= content.x + content.width
                  && (child.stretch ==> r.x == content.x && r.width == content.width))
            && (n.orientation.Row? ==>
                  && content.y <= r.y && r.y + r.height <= content.y + content.height
                  && (child.stretch ==> r.y == content.y && r.height == content.height))
  {
  }

  // ----- translation -----

  function ShiftRect(r: Rect, d: int): Rect { r.(y := r.y - d) }

  function ShiftMoves(moves: seq<Placement>, d: int): seq<Placement> {
    seq(|moves|, i requires 0 <= i < |moves| => Placement(moves[i].target, ShiftRect(moves[i].rect, d)))
  }

  function ShiftBottoms(bottoms: seq<int>, d: int): seq<int> {
    seq(|bottoms|, i requires 0 <= i < |bottoms| => bottoms[i] - d)
  }

  function Shift(p: Pass, d: int): Pass { Pass(ShiftMoves(p.moves, d), ShiftBottoms(p.bottoms, d)) }

  lemma ShiftThen(a: Pass, b: Pass, d: int)
    ensures Shift(Then(a, b), d) == Then(Shift(a, d), Shift(b, d))
  {
    assert ShiftMoves(a.moves + b.moves, d) == ShiftMoves(a.moves, d) + ShiftMoves(b.moves, d);
    assert ShiftBottoms(a.bottoms + b.bottoms, d) == ShiftBottoms(a.bottoms, d) + ShiftBottoms(b.bottoms, d);
  }

  lemma OwnPassShifts(t: Tree, i: int, n: LayoutNode, box: Rect, d: int)
    ensures OwnPass(t, i, n, ShiftRect(box, d)) == Shift(OwnPass(t, i, n, box), d)
  {
  }

  /** Laying out a box `d` higher yields exactly the same moves, `d` higher. */
  lemma {:induction false} NodePassShifts(t: Tree, i: int, box: Rect, d: int)
    requires Ordered(t)
    ensures NodePass(t, i, ShiftRect(box, d)) == Shift(NodePass(t, i, box), d)
    decreases |t.nodes| - i, 1
  {
    if !(i < 0 || i >= |t.nodes| || box.width <= 0 || box.height <= 0) {
      var n := t.nodes[i];
      var content := ContentBox(n, box);
      var cursor := StartCursor(n, content);
      OwnPassShifts(t, i, n, box, d);
      ChildrenPassShifts(t, i, content, 0, cursor, d);
      ShiftThen(OwnPass(t, i, n, box), ChildrenPass(t, i, content, 0, cursor), d);
    }
  }

  function ShiftCursor(n: LayoutNode, cursor: int, d: int): int {
    if n.orientation.Column? then cursor - d else cursor
  }

  lemma {:induction false} ChildrenPassShifts(t: Tree, i: nat, content: Rect, k: nat, cursor: int, d: int)
    requires Ordered(t) && i < |t.nodes| && k <= |t.nodes[i].children|
    ensures ChildrenPass(t, i, ShiftRect(content, d), k, ShiftCursor(t.nodes[i], cursor, d))
         == Shift(ChildrenPass(t, i, content, k, cursor), d)
    decreases |t.nodes| - i, 0, |t.nodes[i].children| - k, 1
  {
    var n := t.nodes[i];
    if k < |n.children| {
      var rect := ChildRect(n, content, n.children[k], cursor);
      assert ChildRect(n, ShiftRect(content, d), n.children[k], ShiftCursor(n, cursor, d)) == ShiftRect(rect, d);
      var next := NextCursor(n, k, cursor, rect);
      ChildPassShifts(t, i, k, rect, d);
      ChildrenPassShifts(t, i, content, k + 1, next, d);
      ShiftThen(ChildPass(t, i, k, rect), ChildrenPass(t, i, content, k + 1, next), d);
    }
  }

  lemma {:induction false} ChildPassShifts(t: Tree, i: nat, k: nat, rect: Rect, d: int)
    requires Ordered(t) && i < |t.nodes| && k < |t.nodes[i].children|
    ensures ChildPass(t, i, k, ShiftRect(rect, d)) == Shift(ChildPass(t, i, k, rect), d)
    decreases |t.nodes| - i, 0, |t.nodes[i].children| - k, 0
  {
    var bottom := Pass([], [rect.y + rect.height]);
    assert Shift(bottom, d) == Pass([], [rect.y - d + rect.height]);
    match t.nodes[i].children[k].content
    case ControlContent(kind, index) => ShiftThen(Pass(Place(t, Control(kind, index), rect), []), bottom, d);
    case NodeContent(node) =>
      NodePassShifts(t, node, rect, d);
      ShiftThen(NodePass(t, node, rect), bottom, d);
  }

  // ----- every rectangle is measured -----

  ghost predicate BottomsMeasured(p: Pass) {
    forall m :: m in p.moves ==> m.rect.y + m.rect.height in p.bottoms
  }

  lemma {:induction false} NodeMeasured(t: Tree, i: int, box: Rect)
    requires Ordered(t)
    ensures BottomsMeasured(NodePass(t, i, box))
    decreases |t.nodes| - i, 1
  {
    if !(i < 0 || i >= |t.nodes| || box.width <= 0 || box.height <= 0) {
      var content := ContentBox(t.nodes[i], box);
      ChildrenMeasured(t, i, content, 0, StartCursor(t.nodes[i], content));
    }
  }

  lemma {:induction false} ChildrenMeasured(t: Tree, i: nat, content: Rect, k: nat, cursor: int)
    requires Ordered(t) && i < |t.nodes| && k <= |t.nodes[i].children|
    ensures BottomsMeasured(ChildrenPass(t, i, content, k, cursor))
    decreases |t.nodes| - i, 0, |t.nodes[i].children| - k
  {
    var n := t.nodes[i];
    if k < |n.children| {
      var rect := ChildRect(n, content, n.children[k], cursor);
      ChildrenMeasured(t, i, content, k + 1, NextCursor(n, k, cursor, rect));
      if n.children[k].content.NodeContent? { NodeMeasured(t, n.children[k].content.node, rect); }
      assert BottomsMeasured(ChildPass(t, i, k, rect));
    }
  }

  // ----- which things a pass moves -----

  ghost predicate SameTargets(a: seq<Placement>, b: seq<Placement>) {
    |a| == |b| && forall i :: 0 <= i < |a| ==> a[i].target == b[i].target
  }

  lemma SameTargetsConcat(a: seq<Placement>, b: seq<Placement>, c: seq<Placement>, d: seq<Placement>)
    requires SameTargets(a, b) && SameTargets(c, d)
    ensures SameTargets(a + c, b + d)
  {
  }

  /** What a pass moves does not depend on the box, as long as the box is not empty. */
  lemma {:induction false} NodeTargets(t: Tree, i: int, box: Rect, other: Rect)
    requires Ordered(t)
    requires box.width > 0 && box.height > 0 && other.width > 0 && other.height > 0
    ensures SameTargets(NodePass(t, i, box).moves, NodePass(t, i, other).moves)
    decreases |t.nodes| - i, 1
  {
    if 0 <= i < |t.nodes| {
      var n := t.nodes[i];
      var a, b := ContentBox(n, box), ContentBox(n, other);
      ChildrenTargets(t, i, a, b, 0, StartCursor(n, a), StartCursor(n, b));
      SameTargetsConcat(OwnPass(t, i, n, box).moves, OwnPass(t, i, n, other).moves,
                        ChildrenPass(t, i, a, 0, StartCursor(n, a)).moves,
                        ChildrenPass(t, i, b, 0, StartCursor(n, b)).moves);
    }
  }

  lemma {:induction false} ChildrenTargets(t: Tree, i: nat, a: Rect, b: Rect, k: nat, x: int, y: int)
    requires Ordered(t) && i < |t.nodes| && k <= |t.nodes[i].children|
    requires a.width > 0 && a.height > 0 && b.width > 0 && b.height > 0
    ensures SameTargets(ChildrenPass(t, i, a, k, x).moves, ChildrenPass(t, i, b, k, y).moves)
    decreases |t.nodes| - i, 0, |t.nodes[i].children| - k
  {
    var n := t.nodes[i];
    if k < |n.children| {
      var r, s := ChildRect(n, a, n.children[k], x), ChildRect(n, b, n.children[k], y);
      ChildrenTargets(t, i, a, b, k + 1, NextCursor(n, k, x, r), NextCursor(n, k, y, s));
      if n.children[k].content.NodeContent? { NodeTargets(t, n.children[k].content.node, r, s); }
      SameTargetsConcat(ChildPass(t, i, k, r).moves, ChildPass(t, i, k, s).moves,
                        ChildrenPass(t, i, a, k + 1, NextCursor(n, k, x, r)).moves,
                        ChildrenPass(t, i, b, k + 1, NextCursor(n, k, y, s)).moves);
    }
  }

  // ----- extents and scrolling -----

  /** The lowest bottom edge met, starting from `extent`. */
  function Lowest(extent: int, bottoms: seq<int>): int
    decreases bottoms
  {
    if bottoms == [] then extent else Lowest(Max(extent, bottoms[0]), bottoms[1..])
  }

  lemma {:induction false} LowestBounds(extent: int, bottoms: seq<int>)
    ensures Lowest(extent, bottoms) >= extent
    ensures forall i :: 0 <= i < |bottoms| ==> bottoms[i] <= Lowest(extent, bottoms)
    ensures Lowest(extent, bottoms) == extent || Lowest(extent, bottoms) in bottoms
    decreases bottoms
  {
    if bottoms != [] {
      LowestBounds(Max(extent, bottoms[0]), bottoms[1..]);
    }
  }

  lemma {:induction false} LowestConcat(extent: int, a: seq<int>, b: seq<int>)
    ensures Lowest(extent, a + b) == Lowest(Lowest(extent, a), b)
    decreases a
  {
    if a == [] {
      assert a + b == b;
    } else {
      assert (a + b)[1..] == a[1..] + b;
      LowestConcat(Max(extent, a[0]), a[1..], b);
    }
  }

  /** Where everything is after a list of moves: later moves win. */
  function Moved(at: map<Target, Rect>, moves: seq<Placement>): map<Target, Rect>
    decreases moves
  {
    if moves == [] then at else Moved(at[moves[0].target := moves[0].rect], moves[1..])
  }

  lemma {:induction false} MovedConcat(at: map<Target, Rect>, a: seq<Placement>, b: seq<Placement>)
    ensures Moved(at, a + b) == Moved(Moved(at, a), b)
    decreases a
  {
    if a == [] {
      assert a + b == b;
    } else {
      assert (a + b)[1..] == a[1..] + b;
      MovedConcat(at[a[0].target := a[0].rect], a[1..], b);
    }
  }

  /** Positions and extent after a pass. */
  function Applied(at: map<Target, Rect>, extent: int, pass: Pass): (map<Target, Rect>, int) {
    (Moved(at, pass.moves), Lowest(extent, pass.bottoms))
  }

  lemma AppliedThen(at: map<Target, Rect>, extent: int, a: Pass, b: Pass)
    ensures Applied(at, extent, Then(a, b)) == Applied(Applied(at, extent, a).0, Applied(at, extent, a).1, b)
  {
    MovedConcat(at, a.moves, b.moves);
    LowestConcat(extent, a.bottoms, b.bottoms);
  }

  function LastMove(moves: seq<Placement>, target: Target): Option<Rect> {
    if moves == [] then None
    else
      var later := LastMove(moves[1..], target);
      if later.Some? then later else if moves[0].target == target then Some(moves[0].rect) else None
  }

  lemma {:induction false} MovedAt(at: map<Target, Rect>, moves: seq<Placement>, target: Target)
    ensures var last := LastMove(moves, target);
            && (target in Moved(at, moves) <==> last.Some? || target in at)
            && (target in Moved(at, moves) ==> Moved(at, moves)[target] == if last.Some? then last.value else at[target])
    decreases moves
  {
    if moves != [] { MovedAt(at[moves[0].target := moves[0].rect], moves[1..], target); }
  }

  lemma {:induction false} LastMoveIsMove(moves: seq<Placement>, target: Target)
    ensures LastMove(moves, target).Some? ==> Placement(target, LastMove(moves, target).value) in moves
  {
    if moves != [] { LastMoveIsMove(moves[1..], target); }
  }

  lemma {:induction false} SameTargetsMove(a: seq<Placement>, b: seq<Placement>, target: Target)
    requires SameTargets(a, b)
    ensures LastMove(a, target).Some? == LastMove(b, target).Some?
  {
    if a != [] {
      assert SameTargets(a[1..], b[1..]);
      SameTargetsMove(a[1..], b[1..], target);
    }
  }

  /** A pass leaves nothing of an earlier pass over the same targets. */
  lemma PassOverwrites(at: map<Target, Rect>, a: seq<Placement>, b: seq<Placement>)
    requires SameTargets(a, b)
    ensures Moved(Moved(at, a), b) == Moved(at, b)
  {
    forall target
      ensures (target in Moved(Moved(at, a), b) <==> target in Moved(at, b))
      ensures target in Moved(at, b) ==> Moved(Moved(at, a), b)[target] == Moved(at, b)[target]
    {
      MovedAt(at, a, target);
      MovedAt(Moved(at, a), b, target);
      MovedAt(at, b, target);
      SameTargetsMove(a, b, target);
    }
  }

  // ----- the root pass -----

  datatype View = View(
    at: map<Target, Rect>, extent: int, offset: int, max: int, page: int,
    origin: Option<(int, int)>, baseWidth: int, baseHeight: int)

  /** Every node has a box, at first the one the builder gave it. */
  ghost predicate HasBoxes(t: Tree, v: View) {
    forall i :: 0 <= i < |t.nodes| ==> NodeBox(i) in v.at
  }

  function RootOrigin(t: Tree, i: nat, v: View): (int, int)
    requires i < |t.nodes| && HasBoxes(t, v)
  {
    if v.origin.Some? then v.origin.value else (v.at[NodeBox(i)].x, v.at[NodeBox(i)].y)
  }

  function RootBox(t: Tree, i: nat, v: View, delta: int): Rect
    requires i < |t.nodes| && HasBoxes(t, v)
  {
    var n := t.nodes[i];
    Rect(RootOrigin(t, i, v).0, RootOrigin(t, i, v).1,
         if n.stretch then Clamp(n.baseWidth + delta, 1, 4000) else n.baseWidth, n.baseHeight)
  }

  /** How far the measured content reaches below the client area. */
  function ScrollMax(measured: Pass, client: int): int { Max(0, Lowest(0, measured.bottoms) - client) }

  function RootPass(t: Tree, i: nat, v: View, delta: int, client: int): View
    requires Ordered(t) && i < |t.nodes| && HasBoxes(t, v)
  {
    var box := RootBox(t, i, v, delta);
    var measured := NodePass(t, i, box);
    var max := ScrollMax(measured, client);
    var offset := if v.offset > max then max else v.offset;
    var visible := NodePass(t, i, ShiftRect(box, offset));
    v.(at := Moved(Moved(v.at, measured.moves), visible.moves),
       extent := Lowest(0, visible.bottoms), offset := offset, max := max,
       page := if client < 1 then v.page else client,
       origin := Some(RootOrigin(t, i, v)))
  }

  lemma MovedKeepsBoxes(t: Tree, v: View, moves: seq<Placement>)
    requires HasBoxes(t, v)
    ensures HasBoxes(t, v.(at := Moved(v.at, moves)))
  {
    forall i | 0 <= i < |t.nodes| ensures NodeBox(i) in Moved(v.at, moves) { MovedAt(v.at, moves, NodeBox(i)); }
  }

  lemma RootPassKeepsBoxes(t: Tree, i: nat, v: View, delta: int, client: int)
    requires Ordered(t) && i < |t.nodes| && HasBoxes(t, v)
    ensures HasBoxes(t, RootPass(t, i, v, delta, client))
  {
    var box := RootBox(t, i, v, delta);
    var measured := NodePass(t, i, box).moves;
    MovedKeepsBoxes(t, v, measured);
    MovedKeepsBoxes(t, v.(at := Moved(v.at, measured)),
                    NodePass(t, i, ShiftRect(box, RootPass(t, i, v, delta, client).offset)).moves);
  }

  lemma ShiftKeepsTargets(moves: seq<Placement>, d: int)
    ensures SameTargets(moves, ShiftMoves(moves, d))
  {
  }

  /** What is on screen after the root pass is the measured layout, moved up by the offset. */
  lemma VisibleIsMeasuredShifted(t: Tree, i: nat, v: View, delta: int, client: int)
    requires Ordered(t) && i < |t.nodes| && HasBoxes(t, v)
    ensures var after := RootPass(t, i, v, delta, client);
            var measured := NodePass(t, i, RootBox(t, i, v, delta));
            && after.at == Moved(v.at, ShiftMoves(measured.moves, after.offset))
            && after.extent == Lowest(0, ShiftBottoms(measured.bottoms, after.offset))
  {
    var box := RootBox(t, i, v, delta);
    var offset := RootPass(t, i, v, delta, client).offset;
    NodePassShifts(t, i, box, offset);
    ShiftKeepsTargets(NodePass(t, i, box).moves, offset);
    PassOverwrites(v.at, NodePass(t, i, box).moves, NodePass(t, i, ShiftRect(box, offset)).moves);
  }

  /** The offset ends between zero and the maximum, and changes only to get there. */
  lemma OffsetStaysInRange(t: Tree, i: nat, v: View, delta: int, client: int)
    requires Ordered(t) && i < |t.nodes| && HasBoxes(t, v) && v.offset >= 0
    ensures var after := RootPass(t, i, v, delta, client);
            && 0 <= after.offset <= after.max
            && (v.offset <= after.max ==> after.offset == v.offset)
  {
  }

  /** At the maximum offset every rectangle the pass placed ends inside the client area, and if
      anything had to be scrolled the lowest edge is exactly the client's. */
  lemma MaximumShowsEverything(t: Tree, i: nat, v: View, delta: int, client: int, target: Target)
    requires Ordered(t) && i < |t.nodes| && HasBoxes(t, v) && client >= 0
    ensures var after := RootPass(t, i, v, delta, client);
            var measured := NodePass(t, i, RootBox(t, i, v, delta));
            after.offset == after.max ==>
              && (LastMove(measured.moves, target).Some? ==>
                    target in after.at && after.at[target].y + after.at[target].height <= client)
              && (after.max > 0 ==> after.extent == client)
  {
    var after := RootPass(t, i, v, delta, client);
    var measured := NodePass(t, i, RootBox(t, i, v, delta));
    LowestBounds(0, measured.bottoms);
    VisibleIsMeasuredShifted(t, i, v, delta, client);
    if LastMove(measured.moves, target).Some? {
      NodeMeasured(t, i, RootBox(t, i, v, delta));
      LastMoveIsMove(measured.moves, target);
      ShiftedLastMove(measured.moves, after.offset, target);
      MovedAt(v.at, ShiftMoves(measured.moves, after.offset), target);
    }
    if after.max > 0 { ShiftedLowest(measured.bottoms, after.offset); }
  }

  lemma {:induction false} ShiftedLastMove(moves: seq<Placement>, d: int, target: Target)
    ensures LastMove(ShiftMoves(moves, d), target)
         == if LastMove(moves, target).Some? then Some(ShiftRect(LastMove(moves, target).value, d)) else None
  {
    if moves != [] {
      assert ShiftMoves(moves, d)[1..] == ShiftMoves(moves[1..], d);
      ShiftedLastMove(moves[1..], d, target);
    }
  }

  /** Shifting by less than the lowest edge shifts that edge. */
  lemma ShiftedLowest(bottoms: seq<int>, d: int)
    requires Lowest(0, bottoms) > 0 && d <= Lowest(0, bottoms)
    ensures Lowest(0, ShiftBottoms(bottoms, d)) == Lowest(0, bottoms) - d
  {
    LowestBounds(0, bottoms);
    LowestBounds(0, ShiftBottoms(bottoms, d));
    var k :| 0 <= k < |bottoms| && bottoms[k] == Lowest(0, bottoms);
    assert ShiftBottoms(bottoms, d)[k] == Lowest(0, bottoms) - d;
  }

  /** Repeating the root pass changes nothing. */
  lemma RootPassIsIdempotent(t: Tree, i: nat, v: View, delta: int, client: int)
    requires Ordered(t) && i < |t.nodes| && HasBoxes(t, v)
    ensures HasBoxes(t, RootPass(t, i, v, delta, client))
    ensures RootPass(t, i, RootPass(t, i, v, delta, client), delta, client) == RootPass(t, i, v, delta, client)
  {
    var once := RootPass(t, i, v, delta, client);
    RootPassKeepsBoxes(t, i, v, delta, client);
    var measured := NodePass(t, i, RootBox(t, i, v, delta)).moves;
    VisibleIsMeasuredShifted(t, i, v, delta, client);
    VisibleIsMeasuredShifted(t, i, once, delta, client);
    var shown := ShiftMoves(measured, once.offset);
    PassOverwrites(v.at, shown, shown);
  }

  // ----- the retained state -----

  class Desktop {
    const tree: Tree
    var at: map<Target, Rect>
    var extentBottom: int
    var scrollOffset: int
    var scrollMax: int
    var scrollPage: int
    var origin: Option<(int, int)>
    var baseWidth: int
    var baseHeight: int

    constructor (tree: Tree, boxes: map<Target, Rect>)
      ensures this.tree == tree && State() == View(boxes, 0, 0, 0, 0, None, 0, 0)
    {
      this.tree, at := tree, boxes;
      extentBottom, scrollOffset, scrollMax, scrollPage, origin, baseWidth, baseHeight := 0, 0, 0, 0, None, 0, 0;
    }

    ghost function State(): View
      reads this
    {
      View(at, extentBottom, scrollOffset, scrollMax, scrollPage, origin, baseWidth, baseHeight)
    }

    method Snapshot() returns (v: View)
      ensures v == State()
    {
      v := View(at, extentBottom, scrollOffset, scrollMax, scrollPage, origin, baseWidth, baseHeight);
    }

    method Move(target: Target, rect: Rect)
      modifies this`at
      ensures at == Moved(old(at), Place(tree, target, rect))
    {
      if target.NodeBox? || target in tree.controls { at := at[target := rect]; }
    }

    method Extend(bottom: int)
      modifies this`extentBottom
      ensures extentBottom == Lowest(old(extentBottom), [bottom])
    {
      if bottom > extentBottom { extentBottom := bottom; }
    }

    /** Apply a node's placement and then its children's, depth first. */
    method LayoutNode(i: int, box: Rect)
      requires Ordered(tree)
      modifies this`at, this`extentBottom
      ensures (at, extentBottom) == Applied(old(at), old(extentBottom), NodePass(tree, i, box))
      decreases |tree.nodes| - i, 1
    {
      if i < 0 || i >= |tree.nodes| || box.width <= 0 || box.height <= 0 { return; }
      var n := tree.nodes[i];
      PlaceNode(i, n, box);
      var content := ContentBox(n, box);
      LayoutChildren(i, content);
      AppliedThen(old(at), old(extentBottom), OwnPass(tree, i, n, box),
                  ChildrenPass(tree, i, content, 0, StartCursor(n, content)));
    }

    /** A node's own box and its background label. */
    method PlaceNode(i: int, n: LayoutNode, box: Rect)
      modifies this`at, this`extentBottom
      ensures (at, extentBottom) == Applied(old(at), old(extentBottom), OwnPass(tree, i, n, box))
    {
      Move(NodeBox(i), box);
      Extend(box.y + box.height);
      if n.panelLabel >= 0 { Move(Control(LabelKind, n.panelLabel), box); }
      MovedConcat(old(at), Place(tree, NodeBox(i), box),
                  if n.panelLabel >= 0 then Place(tree, Control(LabelKind, n.panelLabel), box) else []);
    }

    /** The children's extent along the layout's own axis, gaps included. */
    method PrimaryExtent(n: LayoutNode) returns (total: int)
      ensures total == PrimaryTotal(n, |n.children|)
    {
      total := 0;
      for k := 0 to |n.children|
        invariant total == PrimaryTotal(n, k)
      {
        total := total + if n.orientation.Column? then n.children[k].height else n.children[k].width;
        if k + 1 < |n.children| { total := total + n.gap; }
      }
    }

    method LayoutChildren(i: nat, content: Rect)
      requires Ordered(tree) && i < |tree.nodes|
      modifies this`at, this`extentBottom
      ensures (at, extentBottom)
           == Applied(old(at), old(extentBottom),
                      ChildrenPass(tree, i, content, 0, StartCursor(tree.nodes[i], content)))
      decreases |tree.nodes| - i, 0
    {
      var n := tree.nodes[i];
      var total := PrimaryExtent(n);
      var cursor := if n.orientation.Column? then content.y
                    else AlignedPosition(content.x, content.width, total, n.align);
      ghost var pass := ChildrenPass(tree, i, content, 0, cursor);
      for k := 0 to |n.children|
        invariant Applied(old(at), old(extentBottom), pass)
               == Applied(at, extentBottom, ChildrenPass(tree, i, content, k, cursor))
      {
        var rect := ChildRect(n, content, n.children[k], cursor);
        var next := NextCursor(n, k, cursor, rect);
        AppliedThen(at, extentBottom, ChildPass(tree, i, k, rect), ChildrenPass(tree, i, content, k + 1, next));
        LayoutChild(i, k, rect);
        cursor := next;
      }
    }

    method LayoutChild(i: nat, k: nat, rect: Rect)
      requires Ordered(tree) && i < |tree.nodes| && k < |tree.nodes[i].children|
      modifies this`at, this`extentBottom
      ensures (at, extentBottom) == Applied(old(at), old(extentBottom), ChildPass(tree, i, k, rect))
      decreases |tree.nodes| - i, 0, 0
    {
      ghost var inner: Pass;
      match tree.nodes[i].children[k].content
      {
        case ControlContent(kind, index) =>
          inner := Pass(Place(tree, Control(kind, index), rect), []);
          Move(Control(kind, index), rect);
        case NodeContent(node) =>
          inner := NodePass(tree, node, rect);
          LayoutNode(node, rect);
      }
      Extend(rect.y + rect.height);
      AppliedThen(old(at), old(extentBottom), inner, Pass([], [rect.y + rect.height]));
    }

    /** Measure at the origin, clamp the offset, place at the offset. */
    method LayoutRoot(i: nat, delta: int, client: int)
      requires Ordered(tree) && i < |tree.nodes| && HasBoxes(tree, State())
      modifies this
      ensures State() == RootPass(tree, i, old(State()), delta, client)
    {
      var n := tree.nodes[i];
      var width := if n.stretch then Clamp(n.baseWidth + delta, 1, 4000) else n.baseWidth;
      if origin.None? { origin := Some((at[NodeBox(i)].x, at[NodeBox(i)].y)); }
      MeasureAndPlace(i, Rect(origin.value.0, origin.value.1, width, n.baseHeight), client);
    }

    method MeasureAndPlace(i: nat, box: Rect, client: int)
      requires Ordered(tree)
      modifies this`at, this`extentBottom, this`scrollMax, this`scrollOffset, this`scrollPage
      ensures scrollMax == ScrollMax(NodePass(tree, i, box), client)
      ensures scrollPage == if client < 1 then old(scrollPage) else client
      ensures scrollOffset == if old(scrollOffset) > scrollMax then scrollMax else old(scrollOffset)
      ensures at == Moved(Moved(old(at), NodePass(tree, i, box).moves),
                          NodePass(tree, i, ShiftRect(box, scrollOffset)).moves)
      ensures extentBottom == Lowest(0, NodePass(tree, i, ShiftRect(box, scrollOffset)).bottoms)
    {
      extentBottom := 0;
      LayoutNode(i, box);
      scrollMax := extentBottom - client;
      if scrollMax < 0 { scrollMax := 0; }
      if scrollOffset > scrollMax { scrollOffset := scrollMax; }
      if client >= 1 { scrollPage := client; }
      extentBottom := 0;
      var visible := ShiftRect(box, scrollOffset);
      LayoutNode(i, visible);
    }

    /** Lay out every root for the current client size. */
    method LayoutControls(clientWidth: int, clientHeight: int)
      requires Ordered(tree) && HasBoxes(tree, State())
      modifies this
      ensures State() == Controls(tree, old(State()), clientWidth, clientHeight)
    {
      if clientWidth <= 0 || clientHeight <= 0 { return; }
      if baseWidth == 0 || baseHeight == 0 { baseWidth, baseHeight := clientWidth, clientHeight; }
      var delta := clientWidth - baseWidth;
      ghost var start := State();
      for i := 0 to |tree.nodes|
        invariant HasBoxes(tree, State())
        invariant Roots(tree, start, delta, clientHeight, 0) == Roots(tree, State(), delta, clientHeight, i)
      {
        RootPassKeepsBoxes(tree, i, State(), delta, clientHeight);
        if tree.nodes[i].parent == -1 { LayoutRoot(i, delta, clientHeight); }
      }
    }

    /** `WM_VSCROLL`, `WM_MOUSEWHEEL` and `WM_SIZE`, with the client size read while handling them. */
    method HandleMessage(message: Message)
      requires Ordered(tree) && HasBoxes(tree, State())
      modifies this
      ensures State() == Handle(tree, old(State()), message)
    {
      match message
      {
        case Resize(client) => LayoutControls(client.width, client.height);
        case Wheel(delta, client) =>
          if scrollMax > 0 { ScrollBy(scrollOffset - TruncatedQuotient(delta * 40, WHEEL_DELTA), client); }
        case VerticalScroll(command, client) =>
          var next := scrollOffset;
          var page := if scrollPage > 1 then scrollPage else 120;
          if scrollMax <= 0 { return; }
          match command {
            case LineUp => next := next - 40;
            case LineDown => next := next + 40;
            case PageUp => next := next - page;
            case PageDown => next := next + page;
            case Top => next := 0;
            case Bottom => next := scrollMax;
            case Thumb(position) => next := position;
            case OtherCommand =>
          }
          ScrollBy(next, client);
      }
    }

    method ScrollBy(wanted: int, client: Client)
      requires Ordered(tree) && HasBoxes(tree, State())
      modifies this
      ensures State() == ScrolledTo(tree, old(State()), wanted, client)
    {
      var next := wanted;
      if next < 0 { next := 0; }
      if next > scrollMax { next := scrollMax; }
      if next != scrollOffset {
        scrollOffset := next;
        LayoutControls(client.width, client.height);
      }
    }
  }

  // ----- the whole window -----

  function WithBase(v: View, width: int, height: int): View {
    if v.baseWidth == 0 || v.baseHeight == 0 then v.(baseWidth := width, baseHeight := height) else v
  }

  /** The root passes of the nodes from `i` on. */
  function Roots(t: Tree, v: View, delta: int, client: int, i: nat): (r: View)
    requires Ordered(t) && HasBoxes(t, v) && i <= |t.nodes|
    ensures HasBoxes(t, r) && r.baseWidth == v.baseWidth && r.baseHeight == v.baseHeight
    decreases |t.nodes| - i
  {
    if i == |t.nodes| then v
    else
      RootPassKeepsBoxes(t, i, v, delta, client);
      Roots(t, if t.nodes[i].parent == -1 then RootPass(t, i, v, delta, client) else v, delta, client, i + 1)
  }

  function Laid(t: Tree, v: View, width: int, height: int): (r: View)
    requires Ordered(t) && HasBoxes(t, v)
    ensures HasBoxes(t, r)
  {
    Roots(t, v, width - v.baseWidth, height, 0)
  }

  function Controls(t: Tree, v: View, width: int, height: int): (r: View)
    requires Ordered(t) && HasBoxes(t, v)
    ensures HasBoxes(t, r)
  {
    if width <= 0 || height <= 0 then v else Laid(t, WithBase(v, width, height), width, height)
  }

  // ----- messages -----

  const WHEEL_DELTA: int := 120

  datatype Client = Client(width: int, height: int)

  datatype ScrollCommand =
    | LineUp | LineDown | PageUp | PageDown | Top | Bottom | Thumb(position: nat) | OtherCommand

  datatype Message =
    | VerticalScroll(command: ScrollCommand, client: Client)
    | Wheel(delta: int, client: Client)
    | Resize(client: Client)

  function ScrolledTo(t: Tree, v: View, wanted: int, client: Client): (r: View)
    requires Ordered(t) && HasBoxes(t, v)
    ensures HasBoxes(t, r)
  {
    var low := Max(wanted, 0);
    var next := if low > v.max then v.max else low;
    if next == v.offset then v else Controls(t, v.(offset := next), client.width, client.height)
  }

  /** Where a scroll command asks to go. */
  function Wanted(v: View, command: ScrollCommand): int {
    var page := if v.page > 1 then v.page else 120;
    match command
    case LineUp => v.offset - 40
    case LineDown => v.offset + 40
    case PageUp => v.offset - page
    case PageDown => v.offset + page
    case Top => 0
    case Bottom => v.max
    case Thumb(position) => position
    case OtherCommand => v.offset
  }

  function Handle(t: Tree, v: View, message: Message): (r: View)
    requires Ordered(t) && HasBoxes(t, v)
    ensures HasBoxes(t, r)
  {
    match message
    case Resize(client) => Controls(t, v, client.width, client.height)
    case Wheel(delta, client) =>
      if v.max <= 0 then v else ScrolledTo(t, v, v.offset - TruncatedQuotient(delta * 40, WHEEL_DELTA), client)
    case VerticalScroll(command, client) =>
      if v.max <= 0 then v else ScrolledTo(t, v, Wanted(v, command), client)
  }
}
