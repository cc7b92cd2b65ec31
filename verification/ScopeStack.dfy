/** Retained UI scopes on Win32: a portable scope stack kept in step with the layout stack. */
module ScopeStack {
  import opened Common
  import opened ScrollLayout
  import opened ScrollRuns
  import opened LayoutBuilder

  const LAST_NODE: nat := 127

  // ----- brackets -----

  datatype Bracket = Opened(id: nat) | Closed(id: nat)

  /** Properly nested: an opening, a nested word, its own closing, and another nested word. */
  ghost predicate Nested(w: seq<Bracket>)
    decreases |w|
  {
    w == [] || exists k :: 1 <= k < |w| && NestedAt(w, k)
  }

  ghost predicate NestedAt(w: seq<Bracket>, k: nat)
    requires 1 <= k < |w|
    decreases |w|, 0
  {
    w[0].Opened? && w[k] == Closed(w[0].id) && Nested(w[1..k]) && Nested(w[k + 1..])
  }

  /** Scopes still open after the events, provided each closing names the innermost scope. */
  function Unclosed(open: seq<nat>, w: seq<Bracket>): Option<seq<nat>>
    decreases w
  {
    if w == [] then Some(open)
    else if w[0].Opened? then Unclosed(open + [w[0].id], w[1..])
    else if open != [] && open[|open| - 1] == w[0].id then Unclosed(open[..|open| - 1], w[1..])
    else None
  }

  lemma {:induction false} UnclosedConcat(open: seq<nat>, a: seq<Bracket>, b: seq<Bracket>)
    ensures Unclosed(open, a + b) == if Unclosed(open, a).None? then None else Unclosed(Unclosed(open, a).value, b)
    decreases a
  {
    if a == [] {
      assert a + b == b;
    } else {
      assert (a + b)[1..] == a[1..] + b;
      if a[0].Opened? {
        UnclosedConcat(open + [a[0].id], a[1..], b);
      } else if open != [] && open[|open| - 1] == a[0].id {
        UnclosedConcat(open[..|open| - 1], a[1..], b);
      }
    }
  }

  lemma {:induction false} NestedLeavesNothing(open: seq<nat>, w: seq<Bracket>)
    requires Nested(w)
    ensures Unclosed(open, w) == Some(open)
    decreases |w|
  {
    if w != [] {
      var k :| 1 <= k < |w| && NestedAt(w, k);
      var inside := open + [w[0].id];
      NestedLeavesNothing(inside, w[1..k]);
      NestedLeavesNothing(open, w[k + 1..]);
      assert w[1..] == w[1..k] + w[k..];
      UnclosedConcat(inside, w[1..k], w[k..]);
      assert w[k..][1..] == w[k + 1..] && inside[..|inside| - 1] == open;
    }
  }

  lemma NestedBuilds(x: nat, inner: seq<Bracket>, after: seq<Bracket>)
    requires Nested(inner) && Nested(after)
    ensures Nested([Opened(x)] + inner + [Closed(x)] + after)
  {
    var w := [Opened(x)] + inner + [Closed(x)] + after;
    var k := |inner| + 1;
    assert w[1..k] == inner && w[k + 1..] == after;
    assert NestedAt(w, k);
  }

  lemma Regroup(w: seq<Bracket>, i: nat, j: nat)
    requires i + 2 + j < |w|
    ensures var tail := w[1..];
            var rest := tail[i + 1..];
            && w[..i + 2 + j] == [w[0]] + tail[..i] + [tail[i]] + rest[..j]
            && w[i + 2 + j] == rest[j] && w[i + 3 + j..] == rest[j + 1..]
  {
  }

  /** If the innermost scope gets closed, the events up to its closing are nested. */
  lemma {:induction false} FindClosing(open: seq<nat>, x: nat, w: seq<Bracket>) returns (k: nat)
    requires Unclosed(open + [x], w).Some? && |Unclosed(open + [x], w).value| <= |open|
    ensures k < |w| && w[k] == Closed(x) && Nested(w[..k])
    ensures Unclosed(open, w[k + 1..]) == Unclosed(open + [x], w)
    decreases |w|
  {
    var all := open + [x];
    if w[0].Closed? {
      k := 0;
      assert all[..|all| - 1] == open;
    } else {
      var y := w[0].id;
      var tail := w[1..];
      var i := FindClosing(all, y, tail);
      var rest := tail[i + 1..];
      var j := FindClosing(open, x, rest);
      k := i + 2 + j;
      Regroup(w, i, j);
      NestedBuilds(y, tail[..i], rest[..j]);
    }
  }

  /** Nothing is left open exactly when the events are properly nested. */
  lemma {:induction false} NestedExactly(w: seq<Bracket>)
    ensures Nested(w) <==> Unclosed([], w) == Some([])
    decreases |w|
  {
    if Nested(w) { NestedLeavesNothing([], w); }
    if Unclosed([], w) == Some([]) && w != [] {
      var x := w[0].id;
      assert [] + [x] == [x];
      var k := FindClosing([], x, w[1..]);
      var inner, after := w[1..][..k], w[1..][k + 1..];
      NestedExactly(after);
      NestedBuilds(x, inner, after);
      assert w == [Opened(x)] + inner + [Closed(x)] + after;
    }
  }

  // ----- the scope machine -----

  /** The portable scopes beside the layout builder they drive. */
  datatype App = App(active: bool, open: seq<nat>, next: nat, build: Build)

  const IDLE: App := App(false, [], 0, BLANK)

  predicate IsCurrent(app: App, parent: int) {
    app.active && app.open != [] && app.open[|app.open| - 1] == parent
  }

  predicate CanAllocate(app: App) { app.next <= LAST_NODE && |app.open| < MAX_DEPTH }

  datatype Operation =
    | Begin(width: int, height: int)
    | OpenScope(parent: int, scope: Scope, style: Style, background: Option<nat>)
    | PutControl(parent: int, kind: ControlKind, made: Option<nat>, width: int, height: int, stretch: bool)
    | PutMenu(parent: int, made: Option<nat>, width: int, height: int, stretch: bool)
    | End(node: int)

  function RootStyle(width: int, height: int): Style { Style(width - 32, height - 32, 16, 12, 0, true) }

  /** The new window's builder with the root column open. */
  function RootBuild(width: int, height: int): Build {
    Apply(BLANK, OpenColumn(16, 16, RootStyle(width, height)))
  }

  /** The state after a call and the bracket it produces, if it succeeds as an open or an end. */
  function Step(app: App, op: Operation): (App, seq<Bracket>)
    requires WellBuilt(app.build)
  {
    match op
    case Begin(width, height) =>
      if app.active then (app, []) else (App(true, [1], 2, RootBuild(width, height)), [Opened(1)])
    case OpenScope(parent, scope, style, background) =>
      if !IsCurrent(app, parent) then (app, [])
      else OpenedUnder(app, Apply(app.build, OpenNested(scope, style, background)))
    case PutControl(parent, kind, made, width, height, stretch) =>
      if !IsCurrent(app, parent) || made.None? then (app, [])
      else
        var build := Apply(app.build, AddControl(kind, made, width, height, stretch));
        (app.(build := build, next := if CanAllocate(app) then app.next + 1 else app.next), [])
    case PutMenu(parent, made, width, height, stretch) =>
      if !IsCurrent(app, parent) || app.next > LAST_NODE || made.None? || TopIsFull(app.build) then (app, [])
      else
        var build := Apply(app.build, AddControl(ButtonKind, made, width, height, stretch));
        (app.(build := build, next := app.next + 1), [])
    case End(node) =>
      if !IsCurrent(app, node) then (app, [])
      else Ended(app, Apply(app.build, CloseScope))
  }

  /** A scope opens when the layout builder opened one and a node id is left. */
  function OpenedUnder(app: App, build: Build): (App, seq<Bracket>)
    requires WellBuilt(app.build)
  {
    if |build.open| != |app.build.open| + 1 || |build.nodes| != |app.build.nodes| + 1 then (app.(build := build), [])
    else if !CanAllocate(app) then (app.(build := build.(open := build.open[..|build.open| - 1])), [])
    else (App(true, app.open + [app.next], app.next + 1, build), [Opened(app.next)])
  }

  /** The last layout scope ends the window; a scope stack that empties before it is a failure. */
  function Ended(app: App, build: Build): (App, seq<Bracket>)
    requires app.open != []
  {
    var closed := app.open[|app.open| - 1];
    var rest := app.open[..|app.open| - 1];
    if build.open == [] then (App(false, [], app.next, build), [Closed(closed)])
    else if rest == [] then (App(false, [], app.next, build), [])
    else (App(true, rest, app.next, build), [Closed(closed)])
  }

  ghost predicate Increasing(s: seq<nat>) { forall i, j :: 0 <= i < j < |s| ==> s[i] < s[j] }

  /** Scope depth is layout depth, ids and counts are in range, and the layout is one tree. */
  ghost predicate Consistent(app: App) {
    && (app.active <==> app.open != [])
    && WellBuilt(app.build) && |app.open| == |app.build.open| && SingleRoot(TreeOf(app.build))
    && |app.open| <= MAX_DEPTH && app.next <= LAST_NODE + 1
    && Increasing(app.open) && forall i :: 0 <= i < |app.open| ==> 1 <= app.open[i] < app.next
  }

  // ----- the runtime state -----

  class Desktop {
    const builder: Builder
    const portableStack: array<nat>
    var portableDepth: nat
    var nextNode: nat
    var active: bool

    ghost predicate Shaped()
      reads this
    {
      && portableStack.Length == MAX_DEPTH && portableDepth <= MAX_DEPTH
      && (portableStack as object) != builder.stack && (portableStack as object) != builder
      && (this as object) != builder && (this as object) != builder.stack
    }

    ghost predicate Valid()
      reads this, portableStack, builder, builder.stack
    {
      Shaped() && builder.Valid() && Consistent(State())
    }

    ghost function State(): App
      reads this, portableStack, builder, builder.stack
      requires Shaped() && builder.Valid()
    {
      App(active, portableStack[..portableDepth], nextNode, builder.State())
    }

    constructor ()
      ensures Valid() && State() == IDLE && fresh(portableStack) && fresh(builder) && fresh(builder.stack)
    {
      builder := new Builder();
      portableStack := new nat[MAX_DEPTH](_ => 0);
      portableDepth, nextNode, active := 0, 0, false;
    }

    method AllocateNode() returns (node: nat)
      requires Shaped() && builder.Valid()
      modifies this`nextNode
      ensures State() == old(State()).(next := nextNode)
      ensures if old(nextNode) > LAST_NODE || portableDepth >= MAX_DEPTH
              then node == 0 && nextNode == old(nextNode)
              else node == old(nextNode) && nextNode == old(nextNode) + 1
    {
      if nextNode > LAST_NODE || portableDepth >= MAX_DEPTH { return 0; }
      node := nextNode;
      nextNode := nextNode + 1;
    }

    /** A blank builder with the root column open; opening it cannot fail. */
    method OpenWindow(width: int, height: int)
      requires builder.Valid()
      modifies builder, builder.stack
      ensures builder.Valid() && builder.State() == RootBuild(width, height)
    {
      builder.Reset();
      var before := builder.depth;
      builder.Column(16, 16, RootStyle(width, height));
      assert |builder.State().open| == builder.depth;
      if builder.depth != before + 1 { assert false; }
    }

    /** `ui_app_begin`: a new window with its root column. */
    method AppBegin(width: int, height: int) returns (root: nat)
      requires Valid()
      modifies this, portableStack, builder, builder.stack
      ensures Valid() && State() == Step(old(State()), Begin(width, height)).0
      ensures root == if old(active) then 0 else 1
    {
      if active { return 0; }
      BeginConsistent(width, height);
      nextNode, portableDepth, active := 1, 0, false;
      OpenWindow(width, height);
      root := AllocateNode();
      portableStack[portableDepth] := root;
      portableDepth := portableDepth + 1;
      active := true;
      assert State() == App(true, [1], 2, RootBuild(width, height));
    }

    predicate ParentIsCurrent(parent: int)
      requires Shaped()
      reads this, portableStack
    {
      active && portableDepth > 0 && portableStack[portableDepth - 1] == parent
    }

    /** `ui_app_panel`, `ui_app_row` and `ui_app_top_bar`. */
    method AppOpen(parent: int, scope: Scope, style: Style, background: Option<nat>) returns (node: nat)
      requires Valid()
      modifies this, portableStack, builder, builder.stack
      ensures Valid() && State() == Step(old(State()), OpenScope(parent, scope, style, background)).0
      ensures node == if Step(old(State()), OpenScope(parent, scope, style, background)).1 == [] then 0 else old(nextNode)
    {
      if !ParentIsCurrent(parent) { return 0; }
      OpenConsistent(State(), scope, style, background);
      var beforeDepth, beforeCount := builder.depth, |builder.nodes|;
      builder.Nested(scope, style, background);
      node := EnterScope(old(State()), beforeDepth, beforeCount);
    }

    /** Give the layout scope a node id, or close it again when none is left. */
    method EnterScope(ghost before: App, beforeDepth: nat, beforeCount: nat) returns (node: nat)
      requires Shaped() && builder.Valid() && Consistent(before) && before.active
      requires State() == before.(build := builder.State())
      requires beforeDepth == |before.build.open| && beforeCount == |before.build.nodes|
      modifies this, portableStack, builder`depth
      ensures Shaped() && builder.Valid() && State() == OpenedUnder(before, old(builder.State())).0
      ensures node == if OpenedUnder(before, old(builder.State())).1 == [] then 0 else old(nextNode)
    {
      assert |builder.State().open| == builder.depth && State().open == before.open;
      if builder.depth != beforeDepth + 1 || |builder.nodes| != beforeCount + 1 { return 0; }
      assert 1 <= before.open[0] < nextNode;
      node := AllocateNode();
      if node == 0 {
        builder.End();
        assert State().open == before.open;
        return 0;
      }
      portableStack[portableDepth] := node;
      portableDepth := portableDepth + 1;
      assert State().open == before.open + [node];
    }

    /** `ui_app_label`, `ui_app_status` and the other controls. */
    method AppControl(parent: int, kind: ControlKind, made: Option<nat>, width: int, height: int, stretch: bool)
      returns (node: nat)
      requires Valid()
      modifies this`nextNode, builder
      ensures Valid() && State() == Step(old(State()), PutControl(parent, kind, made, width, height, stretch)).0
      ensures node == if nextNode == old(nextNode) then 0 else old(nextNode)
    {
      if !ParentIsCurrent(parent) || made.None? { return 0; }
      PutConsistent(State(), kind, made, width, height, stretch);
      ghost var put := State().(build := Apply(State().build, AddControl(kind, made, width, height, stretch)));
      builder.Control(kind, made, width, height, stretch);
      assert State() == put;
      node := AllocateNode();
    }

    method AppMenu(parent: int, made: Option<nat>, width: int, height: int, stretch: bool) returns (node: nat)
      requires Valid()
      modifies this`nextNode, builder
      ensures Valid() && State() == Step(old(State()), PutMenu(parent, made, width, height, stretch)).0
      ensures node == if nextNode == old(nextNode) then 0 else old(nextNode)
    {
      if !ParentIsCurrent(parent) || nextNode > LAST_NODE { return 0; }
      PutConsistent(State(), ButtonKind, made, width, height, stretch);
      ghost var put := State().(build := Apply(State().build, AddControl(ButtonKind, made, width, height, stretch)));
      var built := builder.Menu(made, width, height, stretch);
      if !built { return 0; }
      assert State() == put;
      node := nextNode;
      nextNode := nextNode + 1;
      assert State() == put.(next := nextNode);
    }

    /** Close the current scope. The scope stack never runs out over a remaining layout scope. */
    method AppEnd(node: int) returns (ok: bool)
      requires Valid()
      modifies this, builder
      ensures Valid() && State() == Step(old(State()), End(node)).0
      ensures ok == (Step(old(State()), End(node)).1 != [])
    {
      StepConsistent(State(), End(node));
      if !active || portableDepth <= 0 || portableStack[portableDepth - 1] != node { return false; }
      builder.End();
      portableDepth := portableDepth - 1;
      assert |builder.State().open| == builder.depth;
      assert State().open == old(State()).open[..portableDepth];
      if builder.depth <= 0 {
        active := false;
        portableDepth := 0;
        return true;
      }
      if portableDepth == 0 { assert false; }
      ok := true;
    }

    /** `ui_app_run`: 2 refuses an unclosed scope; otherwise the window lays out the built tree and
        handles messages, and its scroll offset is in range after them. */
    method AppRun(messages: seq<Message>) returns (code: nat, view: View)
      requires Valid()
      ensures code == if State().open == [] then 0 else 2
      ensures var b := builder.State();
              && Ordered(TreeOf(b)) && HasBoxes(TreeOf(b), Fresh(BoxesOf(b))) && SingleRoot(TreeOf(b))
              && (code == 0 ==> view == ScrollRuns.Play(TreeOf(b), Fresh(BoxesOf(b)), messages) && InRange(view))
    {
      ghost var b := builder.State();
      BuiltIsOrdered(b);
      view := Fresh(map[]);
      if active || portableDepth != 0 { return 2, view; }
      code := 0;
      var tree := Tree(builder.nodes, builder.controls);
      var boxes := BoxesOf(Build(builder.nodes, builder.boxes, [], builder.controls));
      assert boxes == BoxesOf(b);
      var window := new ScrollLayout.Desktop(tree, boxes);
      Drive(window, messages);
      RunsStayInRange(tree, boxes, messages);
      view := window.Snapshot();
    }
  }

  // ----- every run -----

  /** A builder call inside the window keeps its single tree. */
  lemma BuildKept(b: Build, op: BuildStep)
    requires WellBuilt(b) && SingleRoot(TreeOf(b)) && !op.OpenColumn?
    ensures WellBuilt(Apply(b, op)) && SingleRoot(TreeOf(Apply(b, op)))
  {
    ApplyKeeps(b, op);
    SingleRootKeptExactly(b, op);
  }

  lemma BeginConsistent(width: int, height: int)
    ensures RootBuild(width, height).open == [0]
    ensures Consistent(App(true, [1], 2, RootBuild(width, height)))
  {
    var op := OpenColumn(16, 16, RootStyle(width, height));
    ApplyKeeps(BLANK, op);
    SingleRootKeptExactly(BLANK, op);
    assert Apply(BLANK, op).open == [] + [0];
  }

  lemma OpenConsistent(app: App, scope: Scope, style: Style, background: Option<nat>)
    requires Consistent(app) && app.active
    ensures Consistent(OpenedUnder(app, Apply(app.build, OpenNested(scope, style, background))).0)
  {
    assert 1 <= app.open[0] < app.next;
    var build := Apply(app.build, OpenNested(scope, style, background));
    BuildKept(app.build, OpenNested(scope, style, background));
    NestedShape(app.build, scope, style, background);
    if |build.open| > |app.build.open| { BuildKept(build, CloseScope); }
  }

  lemma PutConsistent(app: App, kind: ControlKind, made: Option<nat>, width: int, height: int, stretch: bool)
    requires Consistent(app)
    ensures var put := app.(build := Apply(app.build, AddControl(kind, made, width, height, stretch)));
            Consistent(put) && (app.next <= LAST_NODE ==> Consistent(put.(next := app.next + 1)))
  {
    BuildKept(app.build, AddControl(kind, made, width, height, stretch));
  }

  lemma EndConsistent(app: App)
    requires Consistent(app) && app.active
    ensures Consistent(Ended(app, Apply(app.build, CloseScope)).0)
  {
    BuildKept(app.build, CloseScope);
  }

  /** The root column of a new window leaves 16 units free on every side. */
  lemma RootIsInset(width: int, height: int)
    requires 33 <= width <= 4032 && 33 <= height <= 4032
    ensures var b := RootBuild(width, height);
            && |b.nodes| == |b.boxes| == 1 && b.open == [0]
            && var box := b.boxes[0];
               && box.x == 16 && box.y == 16 && width - (box.x + box.width) == 16 && height - (box.y + box.height) == 16
               && Styled(b.nodes[0], Style(box.width, box.height, 16, 12, 0, true))
  {
    ColumnIsExact(BLANK, 16, 16, RootStyle(width, height));
  }

  /** Each call keeps the machine consistent, so scope depth and layout depth never part. */
  lemma StepConsistent(app: App, op: Operation)
    requires Consistent(app)
    ensures Consistent(Step(app, op).0)
  {
    match op
    case Begin(width, height) => BeginConsistent(width, height);
    case OpenScope(parent, scope, style, background) =>
      if app.active { OpenConsistent(app, scope, style, background); }
    case PutControl(parent, kind, made, width, height, stretch) =>
      PutConsistent(app, kind, made, width, height, stretch);
    case PutMenu(parent, made, width, height, stretch) =>
      PutConsistent(app, ButtonKind, made, width, height, stretch);
    case End(node) => if app.active { EndConsistent(app); }
  }

  /** An end of the current scope always succeeds and closes just that scope: the branch for an
      exhausted scope stack over a remaining layout scope is unreachable. */
  lemma EndSucceeds(app: App, node: int)
    requires Consistent(app) && IsCurrent(app, node)
    ensures var (after, events) := Step(app, End(node));
            events == [Closed(app.open[|app.open| - 1])] && after.open == app.open[..|app.open| - 1]
  {
  }

  lemma StepLogged(app: App, log: seq<Bracket>, op: Operation)
    requires Consistent(app) && Unclosed([], log) == Some(app.open)
    ensures Unclosed([], log + Step(app, op).1) == Some(Step(app, op).0.open)
  {
    var (next, events) := Step(app, op);
    UnclosedConcat([], log, events);
    if events != [] { assert events[1..] == []; }
    if op.Begin? && !app.active { assert [] + [1] == [1]; }
  }

  function Play(app: App, log: seq<Bracket>, ops: seq<Operation>): (App, seq<Bracket>)
    requires Consistent(app)
    decreases ops
  {
    if ops == [] then (app, log)
    else
      StepConsistent(app, ops[0]);
      Play(Step(app, ops[0]).0, log + Step(app, ops[0]).1, ops[1..])
  }

  /** Over every run scope depth equals layout depth, the layout is a single well-built tree, and the
      open scopes are the unclosed brackets. */
  lemma {:induction false} PlayConsistent(app: App, log: seq<Bracket>, ops: seq<Operation>)
    requires Consistent(app) && Unclosed([], log) == Some(app.open)
    ensures var (end, full) := Play(app, log, ops);
            Consistent(end) && Unclosed([], full) == Some(end.open)
    decreases ops
  {
    if ops != [] {
      StepConsistent(app, ops[0]);
      StepLogged(app, log, ops[0]);
      PlayConsistent(Step(app, ops[0]).0, log + Step(app, ops[0]).1, ops[1..]);
    }
  }

  /** Over every run of calls, the guard of `ui_app_run` passes exactly when the successful opens and
      ends are properly nested, each end closing the most recently opened scope. */
  lemma GuardPassesExactlyWhenNested(ops: seq<Operation>)
    ensures var (end, log) := Play(IDLE, [], ops);
            (!end.active && end.open == []) <==> Nested(log)
  {
    PlayConsistent(IDLE, [], ops);
    var (end, log) := Play(IDLE, [], ops);
    NestedExactly(log);
  }
}
