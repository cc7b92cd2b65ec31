/** The builder of the Win32 layout tree: nested scopes appended to a node table. */
module LayoutBuilder {
  import opened Common
  import opened ScrollLayout
  import opened ScrollRuns
  import opened ScrollPlacement

  const MAX_DEPTH: nat := 16
  const MAX_LAYOUTS: nat := 32
  const MAX_CHILDREN: nat := 24

  /** The node table with the builder's boxes, the open scopes and the controls made so far. */
  datatype Build = Build(nodes: seq<LayoutNode>, boxes: seq<Rect>, open: seq<nat>, controls: set<Target>)

  const BLANK: Build := Build([], [], [], {})

  datatype Style = Style(width: int, height: int, padding: int, gap: int, align: int, stretch: bool)

  datatype Scope = RowScope | PanelScope | TopBarScope

  /** `made` and `background` are the index of the control the backend made, if it made one. */
  datatype BuildStep =
    | StartWindow
    | OpenColumn(x: int, y: int, style: Style)
    | OpenNested(scope: Scope, style: Style, background: Option<nat>)
    | AddControl(kind: ControlKind, made: Option<nat>, width: int, height: int, stretch: bool)
    | CloseScope

  function AlignmentOf(align: int): Alignment {
    if align == 1 then AlignCenter else if align == 2 then AlignEnd else AlignStart
  }

  function NewNode(parent: int, orientation: Orientation, style: Style): LayoutNode {
    LayoutNode(parent, orientation, Clamp(style.width, 1, 4000), Clamp(style.height, 1, 4000),
               Clamp(style.padding, 0, 128), Clamp(style.gap, 0, 128), AlignmentOf(style.align), style.stretch, -1, [])
  }

  function NewChild(content: Content, width: int, height: int, stretch: bool): Child {
    Child(content, Clamp(width, 1, 4000), Clamp(height, 1, 4000), stretch)
  }

  function NewBox(x: int, y: int, style: Style): Rect {
    Rect(x, y, Clamp(style.width, 1, 4000), Clamp(style.height, 1, 4000))
  }

  predicate HasRoom(b: Build) { |b.nodes| < MAX_LAYOUTS && |b.open| < MAX_DEPTH }

  /** A full parent keeps its children; the new scope then stays out of the layout. */
  function WithChild(nodes: seq<LayoutNode>, parent: nat, child: Child): seq<LayoutNode>
    requires parent < |nodes|
  {
    if |nodes[parent].children| >= MAX_CHILDREN then nodes
    else nodes[parent := nodes[parent].(children := nodes[parent].children + [child])]
  }

  function OrientationOf(scope: Scope): Orientation { if scope.PanelScope? then Column else Row }

  /** The control behind a panel or a top bar; a row has none. */
  function Background(scope: Scope, background: Option<nat>): set<Target> {
    if scope.RowScope? || background.None? then {} else {Control(LabelKind, background.value)}
  }

  function PanelLabel(scope: Scope, background: Option<nat>): int {
    if scope.RowScope? || background.None? then -1 else background.value
  }

  function Top(b: Build): nat
    requires b.open != []
  {
    b.open[|b.open| - 1]
  }

  predicate TopIsFull(b: Build)
    requires WellBuilt(b)
  {
    b.open != [] && |b.nodes[Top(b)].children| >= MAX_CHILDREN
  }

  /** Push a scope whose node is the next one. */
  function Pushed(b: Build, node: LayoutNode, box: Rect): Build {
    b.(nodes := b.nodes + [node], boxes := b.boxes + [box], open := b.open + [|b.nodes|])
  }

  function Nest(b: Build, scope: Scope, style: Style, background: Option<nat>): Build
    requires b.open != [] && Top(b) < |b.nodes|
  {
    var node := NewNode(Top(b), OrientationOf(scope), style).(panelLabel := PanelLabel(scope, background));
    var pushed := Pushed(b, node, NewBox(0, 0, style));
    var child := NewChild(NodeContent(|b.nodes|), style.width, style.height, style.stretch);
    pushed.(nodes := WithChild(pushed.nodes, Top(b), child))
  }

  function Apply(b: Build, op: BuildStep): Build
    requires WellBuilt(b)
  {
    match op
    case StartWindow => BLANK
    case OpenColumn(x, y, style) =>
      if b.open != [] || !HasRoom(b) then b else Pushed(b, NewNode(-1, Column, style), NewBox(x, y, style))
    case OpenNested(scope, style, background) =>
      if b.open == [] then b
      else
        var made := b.(controls := b.controls + Background(scope, background));
        if !HasRoom(b) then made else Nest(made, scope, style, background)
    case AddControl(kind, made, width, height, stretch) =>
      if b.open == [] || made.None? then b
      else
        b.(controls := b.controls + {Control(kind, made.value)},
           nodes := WithChild(b.nodes, Top(b), NewChild(ControlContent(kind, made.value), width, height, stretch)))
    case CloseScope => if b.open == [] then b else b.(open := b.open[..|b.open| - 1])
  }

  // ----- what every run of the builder keeps -----

  function TreeOf(b: Build): Tree { Tree(b.nodes, b.controls) }

  function BoxesOf(b: Build): map<Target, Rect>
    requires |b.boxes| == |b.nodes|
  {
    map target: Target | target in (set i | 0 <= i < |b.nodes| :: NodeBox(i)) :: b.boxes[target.node]
  }

  /** Sizes as the clamps leave them. */
  predicate Sized(n: LayoutNode) {
    && 1 <= n.baseWidth <= 4000 && 1 <= n.baseHeight <= 4000 && 0 <= n.padding <= 128 && 0 <= n.gap <= 128
    && |n.children| <= MAX_CHILDREN
    && forall k :: 0 <= k < |n.children| ==> 1 <= n.children[k].width <= 4000 && 1 <= n.children[k].height <= 4000
  }

  predicate IsNested(n: LayoutNode, k: nat, c: int) {
    k < |n.children| && n.children[k].content == NodeContent(c)
  }

  /** A nested scope comes after its parent, names it, and is held once. */
  ghost predicate Linked(nodes: seq<LayoutNode>) {
    && (forall i, k, c :: 0 <= i < |nodes| && IsNested(nodes[i], k, c) ==> i < c < |nodes| && nodes[c].parent == i)
    && (forall i, k, l, c :: 0 <= i < |nodes| && IsNested(nodes[i], k, c) && IsNested(nodes[i], l, c) ==> k == l)
  }

  ghost predicate Parented(nodes: seq<LayoutNode>) {
    forall i :: 0 <= i < |nodes| ==> -1 <= nodes[i].parent < i
  }

  ghost predicate WellBuilt(b: Build) {
    && |b.boxes| == |b.nodes| <= MAX_LAYOUTS && |b.open| <= MAX_DEPTH
    && (forall i, j :: 0 <= i < j < |b.open| ==> b.open[i] < b.open[j])
    && (forall i :: 0 <= i < |b.open| ==> b.open[i] < |b.nodes|)
    && (forall i :: 0 <= i < |b.nodes| ==> Sized(b.nodes[i]))
    && (forall i :: 0 <= i < |b.boxes| ==>
          b.boxes[i].width == b.nodes[i].baseWidth && b.boxes[i].height == b.nodes[i].baseHeight)
    && Linked(b.nodes) && Parented(b.nodes)
  }

  lemma PushKeeps(b: Build, node: LayoutNode, box: Rect)
    requires WellBuilt(b) && HasRoom(b) && Sized(node) && node.children == [] && -1 <= node.parent < |b.nodes|
    requires box.width == node.baseWidth && box.height == node.baseHeight
    ensures WellBuilt(Pushed(b, node, box))
  {
  }

  lemma ChildKeeps(b: Build, parent: nat, child: Child)
    requires WellBuilt(b) && parent < |b.nodes| && 1 <= child.width <= 4000 && 1 <= child.height <= 4000
    requires child.content.NodeContent? ==>
               && parent < child.content.node < |b.nodes| && b.nodes[child.content.node].parent == parent
               && forall k :: !IsNested(b.nodes[parent], k, child.content.node)
    ensures WellBuilt(b.(nodes := WithChild(b.nodes, parent, child)))
  {
    var nodes, last := WithChild(b.nodes, parent, child), |b.nodes[parent].children|;
    forall i, k, c | 0 <= i < |nodes| && IsNested(nodes[i], k, c)
      ensures IsNested(b.nodes[i], k, c) || (i == parent && k == last && child.content == NodeContent(c))
    {
    }
  }

  lemma NestKeeps(b: Build, scope: Scope, style: Style, background: Option<nat>)
    requires WellBuilt(b) && b.open != [] && HasRoom(b)
    ensures WellBuilt(Nest(b, scope, style, background))
  {
    var node := NewNode(Top(b), OrientationOf(scope), style).(panelLabel := PanelLabel(scope, background));
    PushKeeps(b, node, NewBox(0, 0, style));
    var child := NewChild(NodeContent(|b.nodes|), style.width, style.height, style.stretch);
    forall k ensures !IsNested(Pushed(b, node, NewBox(0, 0, style)).nodes[Top(b)], k, |b.nodes|) {
      assert IsNested(b.nodes[Top(b)], k, |b.nodes|) ==> |b.nodes| < |b.nodes|;
    }
    ChildKeeps(Pushed(b, node, NewBox(0, 0, style)), Top(b), child);
  }

  /** Opening a nested scope adds one node and one open scope, or neither. */
  lemma NestedShape(b: Build, scope: Scope, style: Style, background: Option<nat>)
    requires WellBuilt(b)
    ensures var after := Apply(b, OpenNested(scope, style, background));
            if b.open != [] && HasRoom(b) then after.open == b.open + [|b.nodes|] && |after.nodes| == |b.nodes| + 1
            else after.open == b.open && after.nodes == b.nodes
  {
  }

  /** Every builder call keeps the table well built. */
  lemma ApplyKeeps(b: Build, op: BuildStep)
    requires WellBuilt(b)
    ensures WellBuilt(Apply(b, op))
  {
    match op
    case OpenColumn(x, y, style) =>
      if b.open == [] && HasRoom(b) { PushKeeps(b, NewNode(-1, Column, style), NewBox(x, y, style)); }
    case OpenNested(scope, style, background) =>
      if b.open != [] && HasRoom(b) {
        NestKeeps(b.(controls := b.controls + Background(scope, background)), scope, style, background);
      }
    case AddControl(kind, made, width, height, stretch) =>
      if b.open != [] && made.Some? {
        ChildKeeps(b.(controls := b.controls + {Control(kind, made.value)}), Top(b),
                   NewChild(ControlContent(kind, made.value), width, height, stretch));
      }
    case _ =>
  }

  function Play(b: Build, ops: seq<BuildStep>): (r: Build)
    requires WellBuilt(b)
    ensures WellBuilt(r)
    decreases ops
  {
    if ops == [] then b
    else
      ApplyKeeps(b, ops[0]);
      Play(Apply(b, ops[0]), ops[1..])
  }

  /** Over every run of the builder the tree can be laid out: children come after their parents and
      every node has a box. */
  lemma RunsAreOrdered(ops: seq<BuildStep>)
    ensures WellBuilt(BLANK)
    ensures var b := Play(BLANK, ops);
            Ordered(TreeOf(b)) && HasBoxes(TreeOf(b), Fresh(BoxesOf(b)))
  {
    BuiltIsOrdered(Play(BLANK, ops));
  }

  lemma BuiltIsOrdered(b: Build)
    requires WellBuilt(b)
    ensures Ordered(TreeOf(b)) && HasBoxes(TreeOf(b), Fresh(BoxesOf(b)))
    ensures SingleRoot(TreeOf(b)) && b.nodes != [] ==> RootHasSize(TreeOf(b))
  {
    forall i, k | 0 <= i < |b.nodes| && 0 <= k < |b.nodes[i].children| && b.nodes[i].children[k].content.NodeContent?
      ensures b.nodes[i].children[k].content.node > i
    {
      assert IsNested(b.nodes[i], k, b.nodes[i].children[k].content.node);
    }
  }

  /** A step keeps a single root exactly unless it opens a column beside an existing tree. */
  lemma SingleRootKeptExactly(b: Build, op: BuildStep)
    requires WellBuilt(b) && SingleRoot(TreeOf(b))
    ensures SingleRoot(TreeOf(Apply(b, op))) <==> !(op.OpenColumn? && b.open == [] && b.nodes != [] && HasRoom(b))
  {
    if op.OpenColumn? && b.open == [] && b.nodes != [] && HasRoom(b) {
      assert Apply(b, op).nodes[|b.nodes|].parent == -1;
    }
  }

  // ----- what a call builds -----

  predicate InLimits(style: Style) {
    1 <= style.width <= 4000 && 1 <= style.height <= 4000 && 0 <= style.padding <= 128 && 0 <= style.gap <= 128
  }

  /** The node has the style it was asked for, and places children by the alignment code: 1 centers,
      2 puts them at the end, anything else at the start. */
  ghost predicate Styled(n: LayoutNode, style: Style) {
    && n.baseWidth == style.width && n.baseHeight == style.height
    && n.padding == style.padding && n.gap == style.gap && n.stretch == style.stretch
    && forall left, right :: Margins(n.align, left, right) <==>
         if style.align == 1 then left <= right <= left + 1 else if style.align == 2 then right == 0 else left == 0
  }

  /** A nested scope within the limits becomes the last child of the current scope: a panel stacks its
      children, a row and a top bar put them side by side, and a background fills the scope. */
  lemma NestedIsExact(b: Build, scope: Scope, style: Style, background: Option<nat>)
    requires WellBuilt(b) && b.open != [] && HasRoom(b) && !TopIsFull(b) && InLimits(style)
    ensures var after := Apply(b, OpenNested(scope, style, background));
            var top, added: nat := b.open[|b.open| - 1], |b.nodes|;
            && |after.nodes| == added + 1 == |after.boxes| && top < added
            && Styled(after.nodes[added], style) && after.nodes[added].parent == top && after.nodes[added].children == []
            && (after.nodes[added].orientation == Column <==> scope == PanelScope)
            && after.boxes[added] == Rect(0, 0, style.width, style.height)
            && after.nodes[top].children
            == b.nodes[top].children + [Child(NodeContent(added), style.width, style.height, style.stretch)]
            && (forall i :: 0 <= i < added && i != top ==> after.nodes[i] == b.nodes[i])
            && (forall x :: scope != RowScope && background == Some(x) ==>
                  after.nodes[added].panelLabel == x && Control(LabelKind, x) in after.controls)
            && (scope == RowScope || background == None ==> after.nodes[added].panelLabel < 0)
  {
  }

  /** A root column within the limits is a node of its own, at the place asked for. */
  lemma ColumnIsExact(b: Build, x: int, y: int, style: Style)
    requires WellBuilt(b) && b.open == [] && HasRoom(b) && InLimits(style)
    ensures var after := Apply(b, OpenColumn(x, y, style));
            var added := |b.nodes|;
            && |after.nodes| == added + 1 == |after.boxes| && after.open == [added]
            && Styled(after.nodes[added], style) && after.nodes[added].parent == -1 && after.nodes[added].children == []
            && after.nodes[added].orientation == Column && after.nodes[added].panelLabel < 0
            && after.boxes[added] == Rect(x, y, style.width, style.height)
            && after.nodes[..added] == b.nodes
  {
  }

  /** A control that was made becomes the last child of the current scope, with its size. */
  lemma ControlIsExact(b: Build, kind: ControlKind, made: nat, width: int, height: int, stretch: bool)
    requires WellBuilt(b) && b.open != [] && !TopIsFull(b) && 1 <= width <= 4000 && 1 <= height <= 4000
    ensures var after := Apply(b, AddControl(kind, Some(made), width, height, stretch));
            var top := b.open[|b.open| - 1];
            && top < |b.nodes| == |after.nodes| && Control(kind, made) in after.controls && after.open == b.open
            && after.nodes[top].children
            == b.nodes[top].children + [Child(ControlContent(kind, made), width, height, stretch)]
            && forall i :: 0 <= i < |b.nodes| && i != top ==> after.nodes[i] == b.nodes[i]
  {
  }

  // ----- the builder's own state -----

  class Builder {
    var nodes: seq<LayoutNode>
    var boxes: seq<Rect>
    var controls: set<Target>
    const stack: array<nat>
    var depth: nat

    ghost predicate Valid()
      reads this, stack
    {
      stack.Length == MAX_DEPTH && depth <= MAX_DEPTH && WellBuilt(State())
    }

    ghost function State(): Build
      reads this, stack
      requires depth <= stack.Length
    {
      Build(nodes, boxes, stack[..depth], controls)
    }

    constructor ()
      ensures Valid() && State() == BLANK && fresh(stack)
    {
      nodes, boxes, controls, depth := [], [], {}, 0;
      stack := new nat[MAX_DEPTH](_ => 0);
    }

    method Reset()
      requires Valid()
      modifies this
      ensures Valid() && State() == Apply(old(State()), StartWindow)
    {
      nodes, boxes, controls, depth := [], [], {}, 0;
    }

    method ActiveLayout() returns (node: int)
      requires Valid()
      ensures node == if depth == 0 then -1 else stack[depth - 1]
    {
      node := if depth <= 0 then -1 else stack[depth - 1];
    }

    /** Append a node when table and stack have room, else return -1. */
    method AddNode(parent: int, orientation: Orientation, x: int, y: int, style: Style) returns (node: int)
      modifies this`nodes, this`boxes
      ensures node == if |old(nodes)| >= MAX_LAYOUTS || depth >= MAX_DEPTH then -1 else |old(nodes)|
      ensures nodes == if node < 0 then old(nodes) else old(nodes) + [NewNode(parent, orientation, style)]
      ensures boxes == if node < 0 then old(boxes) else old(boxes) + [NewBox(x, y, style)]
    {
      if |nodes| >= MAX_LAYOUTS || depth >= MAX_DEPTH { return -1; }
      node := |nodes|;
      nodes := nodes + [NewNode(parent, orientation, style)];
      boxes := boxes + [NewBox(x, y, style)];
    }

    method AddChild(parent: int, child: Child)
      modifies this`nodes
      ensures nodes == if 0 <= parent < |old(nodes)| then WithChild(old(nodes), parent, child) else old(nodes)
    {
      if parent < 0 || parent >= |nodes| { return; }
      var node := nodes[parent];
      if |node.children| >= MAX_CHILDREN { return; }
      nodes := nodes[parent := node.(children := node.children + [child])];
    }

    method Column(x: int, y: int, style: Style)
      requires Valid()
      modifies this, stack
      ensures Valid() && State() == Apply(old(State()), OpenColumn(x, y, style))
    {
      ApplyKeeps(State(), OpenColumn(x, y, style));
      if depth != 0 { return; }
      var node := AddNode(-1, Orientation.Column, x, y, style);
      if node >= 0 {
        stack[depth] := node;
        depth := depth + 1;
      }
      assert State() == Apply(old(State()), OpenColumn(x, y, style));
    }

    /** `ui_row`, `ui_panel` and `ui_layout_top_bar`. */
    method Nested(scope: Scope, style: Style, background: Option<nat>)
      requires Valid()
      modifies this, stack
      ensures Valid() && State() == Apply(old(State()), OpenNested(scope, style, background))
    {
      ApplyKeeps(State(), OpenNested(scope, style, background));
      var parent := ActiveLayout();
      if parent < 0 { return; }
      controls := controls + Background(scope, background);
      ghost var made := State();
      assert WellBuilt(made);
      NestUnder(parent, scope, style, background);
      assert State() == Apply(old(State()), OpenNested(scope, style, background));
    }

    method NestUnder(parent: nat, scope: Scope, style: Style, background: Option<nat>)
      requires stack.Length == MAX_DEPTH && 0 < depth <= MAX_DEPTH && parent == stack[depth - 1] && parent < |nodes|
      modifies this`nodes, this`boxes, this`depth, stack
      ensures depth <= stack.Length
      ensures State() == if HasRoom(old(State())) then Nest(old(State()), scope, style, background) else old(State())
    {
      var node := AddNode(parent, OrientationOf(scope), 0, 0, style);
      if node < 0 { return; }
      nodes := nodes[node := nodes[node].(panelLabel := PanelLabel(scope, background))];
      ghost var appended := NewNode(parent, OrientationOf(scope), style).(panelLabel := PanelLabel(scope, background));
      assert nodes == old(nodes) + [appended];
      AddChild(parent, NewChild(NodeContent(node), style.width, style.height, style.stretch));
      stack[depth] := node;
      depth := depth + 1;
      assert stack[..depth] == old(stack[..depth]) + [node as nat];
    }

    method Control(kind: ControlKind, made: Option<nat>, width: int, height: int, stretch: bool)
      requires Valid()
      modifies this
      ensures Valid() && State() == Apply(old(State()), AddControl(kind, made, width, height, stretch))
    {
      ApplyKeeps(State(), AddControl(kind, made, width, height, stretch));
      var parent := ActiveLayout();
      if parent < 0 || made.None? { return; }
      controls := controls + {Target.Control(kind, made.value)};
      AddChild(parent, NewChild(ControlContent(kind, made.value), width, height, stretch));
      assert State() == Apply(old(State()), AddControl(kind, made, width, height, stretch));
    }

    /** `ui_layout_menu`: a trigger button, refused by a full scope. */
    method Menu(made: Option<nat>, width: int, height: int, stretch: bool) returns (built: bool)
      requires Valid()
      modifies this
      ensures Valid()
      ensures built == (old(State()).open != [] && !TopIsFull(old(State())) && made.Some?)
      ensures State() == if built then Apply(old(State()), AddControl(ButtonKind, made, width, height, stretch))
                         else old(State())
    {
      var parent := ActiveLayout();
      if parent < 0 || |nodes[parent].children| >= MAX_CHILDREN || made.None? { return false; }
      Control(ButtonKind, made, width, height, stretch);
      built := true;
    }

    method End()
      requires Valid()
      modifies this`depth
      ensures Valid() && State() == Apply(old(State()), CloseScope)
    {
      ApplyKeeps(State(), CloseScope);
      if depth > 0 { depth := depth - 1; }
      assert State() == Apply(old(State()), CloseScope);
    }
  }
}
