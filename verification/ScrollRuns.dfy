/** What the scrolling layout keeps over every run of resizes and scroll messages. */
module ScrollRuns {
  import opened Common
  import opened ScrollLayout

  function Fresh(boxes: map<Target, Rect>): View { View(boxes, 0, 0, 0, 0, None, 0, 0) }

  function Play(t: Tree, v: View, messages: seq<Message>): (r: View)
    requires Ordered(t) && HasBoxes(t, v)
    ensures HasBoxes(t, r)
    decreases messages
  {
    if messages == [] then v else Play(t, Handle(t, v, messages[0]), messages[1..])
  }

  /** A window driven through any messages is where the run says. */
  method Drive(window: Desktop, messages: seq<Message>)
    requires Ordered(window.tree) && HasBoxes(window.tree, window.State())
    modifies window
    ensures window.State() == Play(window.tree, old(window.State()), messages)
  {
    for i := 0 to |messages|
      invariant HasBoxes(window.tree, window.State())
      invariant Play(window.tree, old(window.State()), messages) == Play(window.tree, window.State(), messages[i..])
    {
      assert messages[i..][1..] == messages[i + 1..];
      window.HandleMessage(messages[i]);
    }
  }

  // ----- the offset -----

  predicate InRange(v: View) { 0 <= v.offset <= v.max }

  lemma {:induction false} RootsInRange(t: Tree, v: View, delta: int, client: int, i: nat)
    requires Ordered(t) && HasBoxes(t, v) && i <= |t.nodes| && InRange(v)
    ensures InRange(Roots(t, v, delta, client, i))
    decreases |t.nodes| - i
  {
    if i < |t.nodes| {
      RootPassKeepsBoxes(t, i, v, delta, client);
      OffsetStaysInRange(t, i, v, delta, client);
      RootsInRange(t, if t.nodes[i].parent == -1 then RootPass(t, i, v, delta, client) else v, delta, client, i + 1);
    }
  }

  lemma ControlsInRange(t: Tree, v: View, width: int, height: int)
    requires Ordered(t) && HasBoxes(t, v) && InRange(v)
    ensures InRange(Controls(t, v, width, height))
  {
    var based := WithBase(v, width, height);
    RootsInRange(t, based, width - based.baseWidth, height, 0);
  }

  lemma {:induction false} PlayInRange(t: Tree, v: View, messages: seq<Message>)
    requires Ordered(t) && HasBoxes(t, v) && InRange(v)
    ensures InRange(Play(t, v, messages))
    decreases messages
  {
    if messages != [] {
      var client := messages[0].client;
      forall offset | 0 <= offset <= v.max
        ensures InRange(Controls(t, v.(offset := offset), client.width, client.height))
      {
        ControlsInRange(t, v.(offset := offset), client.width, client.height);
      }
      assert v.(offset := v.offset) == v;
      PlayInRange(t, Handle(t, v, messages[0]), messages[1..]);
    }
  }

  /** Over every run of scrolls and resizes, of any tree, the offset is between zero and the maximum. */
  lemma RunsStayInRange(t: Tree, boxes: map<Target, Rect>, messages: seq<Message>)
    requires Ordered(t) && HasBoxes(t, Fresh(boxes))
    ensures InRange(Play(t, Fresh(boxes), messages))
  {
    PlayInRange(t, Fresh(boxes), messages);
  }

  // ----- windows with one root -----

  ghost predicate SingleRoot(t: Tree) {
    forall i :: 0 <= i < |t.nodes| ==> (t.nodes[i].parent == -1 <==> i == 0)
  }

  lemma {:induction false} NoMoreRoots(t: Tree, v: View, delta: int, client: int, i: nat)
    requires Ordered(t) && HasBoxes(t, v) && SingleRoot(t) && 1 <= i <= |t.nodes|
    ensures Roots(t, v, delta, client, i) == v
    decreases |t.nodes| - i
  {
    if i < |t.nodes| { NoMoreRoots(t, v, delta, client, i + 1); }
  }

  lemma OneRoot(t: Tree, v: View, delta: int, client: int)
    requires Ordered(t) && HasBoxes(t, v) && SingleRoot(t) && |t.nodes| > 0
    ensures Roots(t, v, delta, client, 0) == RootPass(t, 0, v, delta, client)
  {
    RootPassKeepsBoxes(t, 0, v, delta, client);
    NoMoreRoots(t, RootPass(t, 0, v, delta, client), delta, client, 1);
  }

  /** Laying out again for the same client size changes nothing: no control, extent or offset. */
  lemma ControlsIdempotent(t: Tree, v: View, width: int, height: int)
    requires Ordered(t) && HasBoxes(t, v) && SingleRoot(t)
    ensures Controls(t, Controls(t, v, width, height), width, height) == Controls(t, v, width, height)
  {
    if width > 0 && height > 0 && |t.nodes| > 0 {
      var based := WithBase(v, width, height);
      var delta := width - based.baseWidth;
      OneRoot(t, based, delta, height);
      RootPassIsIdempotent(t, 0, based, delta, height);
      OneRoot(t, RootPass(t, 0, based, delta, height), delta, height);
    }
  }

  /** Whatever the history, at the maximum offset everything laid out ends inside the client area. */
  lemma ScrolledDownShowsEverything(t: Tree, v: View, width: int, height: int, target: Target)
    requires Ordered(t) && HasBoxes(t, v) && SingleRoot(t) && |t.nodes| > 0 && width > 0 && height > 0
    ensures var based := WithBase(v, width, height);
            var after := Controls(t, v, width, height);
            var moves := NodePass(t, 0, RootBox(t, 0, based, width - based.baseWidth)).moves;
            after.offset == after.max && LastMove(moves, target).Some? ==>
              target in after.at && after.at[target].y + after.at[target].height <= height
  {
    var based := WithBase(v, width, height);
    OneRoot(t, based, width - based.baseWidth, height);
    MaximumShowsEverything(t, 0, based, width - based.baseWidth, height, target);
  }

  // ----- the screen forgets how it got there -----

  /** The root has a size, as the builder's clamp gives it. */
  predicate RootHasSize(t: Tree) { |t.nodes| > 0 && t.nodes[0].baseWidth >= 1 && t.nodes[0].baseHeight >= 1 }

  function RootRect(t: Tree, boxes: map<Target, Rect>, delta: int): Rect
    requires RootHasSize(t) && NodeBox(0) in boxes
  {
    Rect(boxes[NodeBox(0)].x, boxes[NodeBox(0)].y,
         if t.nodes[0].stretch then Clamp(t.nodes[0].baseWidth + delta, 1, 4000) else t.nodes[0].baseWidth,
         t.nodes[0].baseHeight)
  }

  /** Everything a layout of the root moves, at some place or other. */
  function Reference(t: Tree): seq<Placement>
    requires Ordered(t)
  {
    NodePass(t, 0, Rect(0, 0, 1, 1)).moves
  }

  /** The view differs from the builder's boxes only where the next layout will write anyway. */
  ghost predicate Remembers(t: Tree, boxes: map<Target, Rect>, v: View)
    requires Ordered(t) && NodeBox(0) in boxes
  {
    && v.origin == (if v.origin.None? then None else Some((boxes[NodeBox(0)].x, boxes[NodeBox(0)].y)))
    && (v.origin.None? ==> v.at == boxes)
    && forall moves :: SameTargets(moves, Reference(t)) ==> Moved(v.at, moves) == Moved(boxes, moves)
  }

  /** Where a layout puts everything: the measured rectangles from the builder's origin, scrolled. */
  function Screen(t: Tree, boxes: map<Target, Rect>, delta: int, offset: int): map<Target, Rect>
    requires Ordered(t) && RootHasSize(t) && NodeBox(0) in boxes
  {
    Moved(boxes, ShiftMoves(NodePass(t, 0, RootRect(t, boxes, delta)).moves, offset))
  }

  lemma ControlsRemember(t: Tree, boxes: map<Target, Rect>, v: View, width: int, height: int)
    requires Ordered(t) && SingleRoot(t) && RootHasSize(t) && NodeBox(0) in boxes
    requires HasBoxes(t, v) && Remembers(t, boxes, v)
    ensures var r := Controls(t, v, width, height);
            && Remembers(t, boxes, r)
            && (width > 0 && height > 0 ==> r.at == Screen(t, boxes, width - r.baseWidth, r.offset))
  {
    if width > 0 && height > 0 {
      var based := WithBase(v, width, height);
      var delta := width - based.baseWidth;
      OneRoot(t, based, delta, height);
      VisibleIsMeasuredShifted(t, 0, based, delta, height);
      var r := RootPass(t, 0, based, delta, height);
      assert RootBox(t, 0, based, delta) == RootRect(t, boxes, delta);
      var measured := NodePass(t, 0, RootRect(t, boxes, delta)).moves;
      var shown := ShiftMoves(measured, r.offset);
      NodeTargets(t, 0, RootRect(t, boxes, delta), Rect(0, 0, 1, 1));
      ShiftKeepsTargets(measured, r.offset);
      assert SameTargets(shown, Reference(t));
      forall moves | SameTargets(moves, Reference(t)) ensures Moved(r.at, moves) == Moved(boxes, moves) {
        PassOverwrites(v.at, shown, moves);
      }
    }
  }

  lemma {:induction false} PlayRemembers(t: Tree, boxes: map<Target, Rect>, v: View, messages: seq<Message>)
    requires Ordered(t) && SingleRoot(t) && RootHasSize(t) && NodeBox(0) in boxes
    requires HasBoxes(t, v) && Remembers(t, boxes, v)
    ensures Remembers(t, boxes, Play(t, v, messages))
    decreases messages
  {
    if messages != [] {
      var client := messages[0].client;
      forall offset: int ensures Remembers(t, boxes, Controls(t, v.(offset := offset), client.width, client.height)) {
        ControlsRemember(t, boxes, v.(offset := offset), client.width, client.height);
      }
      assert v.(offset := v.offset) == v;
      PlayRemembers(t, boxes, Handle(t, v, messages[0]), messages[1..]);
    }
  }

  /** After any run and one more resize, every control is where the builder's tree, the window's first
      and current width and the offset put it: nothing else of the history is left on the screen. */
  lemma ScreenForgetsHistory(t: Tree, boxes: map<Target, Rect>, messages: seq<Message>, width: int, height: int)
    requires Ordered(t) && SingleRoot(t) && RootHasSize(t) && HasBoxes(t, Fresh(boxes)) && width > 0 && height > 0
    ensures var r := Controls(t, Play(t, Fresh(boxes), messages), width, height);
            NodeBox(0) in boxes && r.at == Screen(t, boxes, width - r.baseWidth, r.offset)
  {
    assert NodeBox(0) in boxes;
    PlayRemembers(t, boxes, Fresh(boxes), messages);
    ControlsRemember(t, boxes, Play(t, Fresh(boxes), messages), width, height);
  }

  // ----- windows with any number of roots -----

  /** The maximum offset that the pass over root `i` finds. */
  function MaxAt(t: Tree, i: nat, v: View, delta: int, client: int): int
    requires Ordered(t) && i < |t.nodes| && HasBoxes(t, v)
  {
    ScrollMax(NodePass(t, i, RootBox(t, i, v, delta)), client)
  }

  /** No root from `i` on has to lower the offset. */
  ghost predicate Steady(t: Tree, v: View, delta: int, client: int, i: nat)
    requires Ordered(t) && HasBoxes(t, v)
  {
    forall j :: i <= j < |t.nodes| && t.nodes[j].parent == -1 ==>
      v.origin.Some? && v.offset <= MaxAt(t, j, v, delta, client)
  }

  /** One pass over all roots makes the view steady. */
  lemma {:induction false} RootsSteady(t: Tree, v: View, delta: int, client: int, i: nat)
    requires Ordered(t) && HasBoxes(t, v) && i <= |t.nodes|
    ensures var r := Roots(t, v, delta, client, i);
            && Steady(t, r, delta, client, i) && r.offset <= v.offset && (v.origin.Some? ==> r.origin == v.origin)
    decreases |t.nodes| - i
  {
    if i < |t.nodes| {
      RootPassKeepsBoxes(t, i, v, delta, client);
      RootsSteady(t, if t.nodes[i].parent == -1 then RootPass(t, i, v, delta, client) else v, delta, client, i + 1);
    }
  }

  /** What the roots from `i` on put where, all at one offset. */
  function AllMoves(t: Tree, v: View, delta: int, i: nat): seq<Placement>
    requires Ordered(t) && HasBoxes(t, v) && i <= |t.nodes|
    decreases |t.nodes| - i
  {
    if i == |t.nodes| then []
    else if t.nodes[i].parent != -1 then AllMoves(t, v, delta, i + 1)
    else ShiftMoves(NodePass(t, i, RootBox(t, i, v, delta)).moves, v.offset) + AllMoves(t, v, delta, i + 1)
  }

  /** The views agree on what a pass reads. */
  ghost predicate SameInputs(v: View, w: View) { v.offset == w.offset && v.origin == w.origin && v.origin.Some? }

  lemma {:induction false} AllMovesAgree(t: Tree, v: View, w: View, delta: int, i: nat)
    requires Ordered(t) && HasBoxes(t, v) && HasBoxes(t, w) && i <= |t.nodes| && SameInputs(v, w)
    ensures AllMoves(t, v, delta, i) == AllMoves(t, w, delta, i)
    decreases |t.nodes| - i
  {
    if i < |t.nodes| { AllMovesAgree(t, v, w, delta, i + 1); }
  }

  /** From a steady view the passes only overwrite positions. */
  lemma {:induction false} SteadyRoots(t: Tree, v: View, delta: int, client: int, i: nat)
    requires Ordered(t) && HasBoxes(t, v) && i <= |t.nodes| && Steady(t, v, delta, client, i) && v.origin.Some?
    ensures var r := Roots(t, v, delta, client, i);
            SameInputs(v, r) && r.at == Moved(v.at, AllMoves(t, v, delta, i))
    decreases |t.nodes| - i
  {
    if i < |t.nodes| {
      RootPassKeepsBoxes(t, i, v, delta, client);
      if t.nodes[i].parent == -1 {
        VisibleIsMeasuredShifted(t, i, v, delta, client);
        var next := RootPass(t, i, v, delta, client);
        assert Steady(t, next, delta, client, i + 1);
        SteadyRoots(t, next, delta, client, i + 1);
        AllMovesAgree(t, v, next, delta, i + 1);
        MovedConcat(v.at, ShiftMoves(NodePass(t, i, RootBox(t, i, v, delta)).moves, v.offset),
                    AllMoves(t, v, delta, i + 1));
      } else {
        SteadyRoots(t, v, delta, client, i + 1);
      }
    }
  }

  ghost predicate SameSummary(v: View, w: View) { v.extent == w.extent && v.max == w.max && v.page == w.page }

  /** Steady views that read alike end in the same extent, maximum and page. */
  lemma {:induction false} SummariesAgree(t: Tree, v: View, w: View, delta: int, client: int, i: nat)
    requires Ordered(t) && HasBoxes(t, v) && HasBoxes(t, w) && i <= |t.nodes| && SameInputs(v, w)
    requires Steady(t, v, delta, client, i) && client >= 1
    requires SameSummary(v, w) || exists j :: i <= j < |t.nodes| && t.nodes[j].parent == -1
    ensures SameSummary(Roots(t, v, delta, client, i), Roots(t, w, delta, client, i))
    decreases |t.nodes| - i
  {
    if i < |t.nodes| {
      RootPassKeepsBoxes(t, i, v, delta, client);
      RootPassKeepsBoxes(t, i, w, delta, client);
      if t.nodes[i].parent == -1 {
        var next, other := RootPass(t, i, v, delta, client), RootPass(t, i, w, delta, client);
        assert Steady(t, next, delta, client, i + 1);
        SummariesAgree(t, next, other, delta, client, i + 1);
      } else {
        SummariesAgree(t, v, w, delta, client, i + 1);
      }
    }
  }

  /** With no root at all nothing moves. */
  lemma {:induction false} NoRoots(t: Tree, v: View, delta: int, client: int, i: nat)
    requires Ordered(t) && HasBoxes(t, v) && i <= |t.nodes|
    requires forall j :: i <= j < |t.nodes| ==> t.nodes[j].parent != -1
    ensures Roots(t, v, delta, client, i) == v
    decreases |t.nodes| - i
  {
    if i < |t.nodes| { NoRoots(t, v, delta, client, i + 1); }
  }

  lemma {:induction false} RootsGiveOrigin(t: Tree, v: View, delta: int, client: int, i: nat)
    requires Ordered(t) && HasBoxes(t, v) && i <= |t.nodes|
    requires v.origin.Some? || exists j :: i <= j < |t.nodes| && t.nodes[j].parent == -1
    ensures Roots(t, v, delta, client, i).origin.Some?
    decreases |t.nodes| - i
  {
    if i < |t.nodes| {
      RootPassKeepsBoxes(t, i, v, delta, client);
      RootsGiveOrigin(t, if t.nodes[i].parent == -1 then RootPass(t, i, v, delta, client) else v, delta, client, i + 1);
    }
  }

  /** Passing again over all roots from a steady view changes nothing. */
  lemma SteadyRootsRepeat(t: Tree, v: View, delta: int, client: int)
    requires Ordered(t) && HasBoxes(t, v) && Steady(t, v, delta, client, 0) && v.origin.Some? && client >= 1
    ensures var r := Roots(t, v, delta, client, 0); Roots(t, r, delta, client, 0) == r
  {
    var r := Roots(t, v, delta, client, 0);
    SteadyRoots(t, v, delta, client, 0);
    assert Steady(t, r, delta, client, 0);
    SteadyRoots(t, r, delta, client, 0);
    AllMovesAgree(t, v, r, delta, 0);
    PassOverwrites(v.at, AllMoves(t, v, delta, 0), AllMoves(t, v, delta, 0));
    if forall j :: 0 <= j < |t.nodes| ==> t.nodes[j].parent != -1 {
      NoRoots(t, v, delta, client, 0);
    }
    SummariesAgree(t, v, r, delta, client, 0);
  }

  /** Whatever the number of roots, a second layout at the same client size is the last that changes
      anything: the first may still place an early root above the offset a later root allows. */
  lemma ControlsSettle(t: Tree, v: View, width: int, height: int)
    requires Ordered(t) && HasBoxes(t, v)
    ensures var second := Controls(t, Controls(t, v, width, height), width, height);
            Controls(t, second, width, height) == second
  {
    if width > 0 && height > 0 {
      var based := WithBase(v, width, height);
      var delta := width - based.baseWidth;
      if forall j :: 0 <= j < |t.nodes| ==> t.nodes[j].parent != -1 {
        NoRoots(t, based, delta, height, 0);
      } else {
        RootsSteady(t, based, delta, height, 0);
        RootsGiveOrigin(t, based, delta, height, 0);
        SteadyRootsRepeat(t, Roots(t, based, delta, height, 0), delta, height);
      }
    }
  }

  // ----- when one layout is enough -----

  lemma {:induction false} NodeMovesAbove(t: Tree, i: int, box: Rect)
    requires Ordered(t)
    ensures forall m :: m in NodePass(t, i, box).moves && m.target.NodeBox? ==> m.target.node >= i
    decreases |t.nodes| - i, 1
  {
    if !(i < 0 || i >= |t.nodes| || box.width <= 0 || box.height <= 0) {
      var content := ContentBox(t.nodes[i], box);
      ChildrenMoveAbove(t, i, content, 0, StartCursor(t.nodes[i], content));
    }
  }

  lemma {:induction false} ChildrenMoveAbove(t: Tree, i: nat, content: Rect, k: nat, cursor: int)
    requires Ordered(t) && i < |t.nodes| && k <= |t.nodes[i].children|
    ensures forall m :: m in ChildrenPass(t, i, content, k, cursor).moves && m.target.NodeBox? ==> m.target.node > i
    decreases |t.nodes| - i, 0, |t.nodes[i].children| - k
  {
    var n := t.nodes[i];
    if k < |n.children| {
      var rect := ChildRect(n, content, n.children[k], cursor);
      ChildrenMoveAbove(t, i, content, k + 1, NextCursor(n, k, cursor, rect));
      if n.children[k].content.NodeContent? { NodeMovesAbove(t, n.children[k].content.node, rect); }
      assert forall m :: m in ChildPass(t, i, k, rect).moves && m.target.NodeBox? ==> m.target.node > i;
    }
  }

  lemma {:induction false} NotMoved(moves: seq<Placement>, target: Target)
    requires forall m :: m in moves ==> m.target != target
    ensures LastMove(moves, target).None?
  {
    if moves != [] {
      assert moves[0] in moves;
      NotMoved(moves[1..], target);
    }
  }

  /** A node's own box is moved once, to the box given. */
  lemma OwnBox(t: Tree, i: nat, box: Rect)
    requires Ordered(t) && i < |t.nodes| && box.width > 0 && box.height > 0
    ensures LastMove(NodePass(t, i, box).moves, NodeBox(i)) == Some(box)
  {
    var n, content := t.nodes[i], ContentBox(t.nodes[i], box);
    ChildrenMoveAbove(t, i, content, 0, StartCursor(n, content));
    var moves := NodePass(t, i, box).moves;
    assert moves[0] == Placement(NodeBox(i), box);
    assert forall m :: m in moves[1..] ==> m.target != NodeBox(i);
    NotMoved(moves[1..], NodeBox(i));
  }

  lemma RootPassPlaces(t: Tree, i: nat, v: View, delta: int, client: int)
    requires Ordered(t) && i < |t.nodes| && HasBoxes(t, v) && t.nodes[i].baseWidth >= 1 && t.nodes[i].baseHeight >= 1
    ensures var r := RootPass(t, i, v, delta, client);
            NodeBox(i) in r.at && r.at[NodeBox(i)].y == RootOrigin(t, i, v).1 - r.offset
  {
    var r := RootPass(t, i, v, delta, client);
    var box := RootBox(t, i, v, delta);
    OwnBox(t, i, ShiftRect(box, r.offset));
    MovedAt(Moved(v.at, NodePass(t, i, box).moves), NodePass(t, i, ShiftRect(box, r.offset)).moves, NodeBox(i));
  }

  /** Later roots leave the box of an earlier node alone. */
  lemma {:induction false} LaterRootsSkip(t: Tree, v: View, delta: int, client: int, i: nat, f: nat)
    requires Ordered(t) && HasBoxes(t, v) && f < i <= |t.nodes|
    ensures Roots(t, v, delta, client, i).at[NodeBox(f)] == v.at[NodeBox(f)]
    decreases |t.nodes| - i
  {
    if i < |t.nodes| {
      RootPassKeepsBoxes(t, i, v, delta, client);
      var next := RootPass(t, i, v, delta, client);
      VisibleIsMeasuredShifted(t, i, v, delta, client);
      var measured := NodePass(t, i, RootBox(t, i, v, delta)).moves;
      NodeMovesAbove(t, i, RootBox(t, i, v, delta));
      NotMoved(measured, NodeBox(f));
      ShiftedLastMove(measured, next.offset, NodeBox(f));
      MovedAt(v.at, ShiftMoves(measured, next.offset), NodeBox(f));
      LaterRootsSkip(t, if t.nodes[i].parent == -1 then next else v, delta, client, i + 1, f);
    }
  }

  ghost predicate FirstRoot(t: Tree, f: nat) {
    && f < |t.nodes| && t.nodes[f].parent == -1 && t.nodes[f].baseWidth >= 1 && t.nodes[f].baseHeight >= 1
    && forall j :: 0 <= j < f ==> t.nodes[j].parent != -1
  }

  lemma {:induction false} SkipToFirst(t: Tree, v: View, delta: int, client: int, i: nat, f: nat)
    requires Ordered(t) && HasBoxes(t, v) && FirstRoot(t, f) && i <= f
    ensures HasBoxes(t, RootPass(t, f, v, delta, client))
    ensures Roots(t, v, delta, client, i) == Roots(t, RootPass(t, f, v, delta, client), delta, client, f + 1)
    decreases f - i
  {
    RootPassKeepsBoxes(t, f, v, delta, client);
    if i < f { SkipToFirst(t, v, delta, client, i + 1, f); }
  }

  lemma RootsRepeatExactly(t: Tree, v: View, delta: int, client: int, f: nat)
    requires Ordered(t) && HasBoxes(t, v) && FirstRoot(t, f) && client >= 1
    ensures HasBoxes(t, RootPass(t, f, v, delta, client))
    ensures var r := Roots(t, v, delta, client, 0);
            Roots(t, r, delta, client, 0) == r <==> Steady(t, RootPass(t, f, v, delta, client), delta, client, 0)
  {
    SkipToFirst(t, v, delta, client, 0, f);
    var first := RootPass(t, f, v, delta, client);
    var r := Roots(t, v, delta, client, 0);
    RootsSteady(t, first, delta, client, f + 1);
    if Steady(t, first, delta, client, 0) {
      SkipToFirst(t, first, delta, client, 0, f);
      RootPassIsIdempotent(t, f, v, delta, client);
      SteadyRootsRepeat(t, first, delta, client);
    }
    if Roots(t, r, delta, client, 0) == r {
      RootPassPlaces(t, f, v, delta, client);
      LaterRootsSkip(t, first, delta, client, f + 1, f);
      RootsSteady(t, v, delta, client, 0);
      SkipToFirst(t, r, delta, client, 0, f);
      RootPassPlaces(t, f, r, delta, client);
      LaterRootsSkip(t, RootPass(t, f, r, delta, client), delta, client, f + 1, f);
      assert first.offset == r.offset;
    }
  }

  /** One layout is enough exactly when no root has to lower the offset that the first root leaves. */
  lemma ControlsRepeatExactly(t: Tree, v: View, width: int, height: int, f: nat)
    requires Ordered(t) && HasBoxes(t, v) && FirstRoot(t, f) && width > 0 && height > 0
    ensures var based := WithBase(v, width, height);
            var delta := width - based.baseWidth;
            var once := Controls(t, v, width, height);
            && HasBoxes(t, RootPass(t, f, based, delta, height))
            && (Controls(t, once, width, height) == once
                <==> Steady(t, RootPass(t, f, based, delta, height), delta, height, 0))
  {
    var based := WithBase(v, width, height);
    RootsRepeatExactly(t, based, width - based.baseWidth, height, f);
  }

  function EmptyRoot(height: int): LayoutNode {
    LayoutNode(-1, Column, 100, height, 0, 0, AlignStart, false, -1, [])
  }

  function TwoRoots(): Tree { Tree([EmptyRoot(1000), EmptyRoot(500)], {}) }

  /** The window of the two roots at 100 by 200, scrolled to its bottom. */
  function ScrolledDown(): View {
    View(map[NodeBox(0) := Rect(0, -300, 100, 1000), NodeBox(1) := Rect(0, -300, 100, 500)],
         200, 300, 300, 200, Some((0, 0)), 100, 200)
  }

  lemma ChildlessMax(t: Tree, i: nat, v: View, client: int)
    requires Ordered(t) && i < |t.nodes| && HasBoxes(t, v) && v.origin == Some((0, 0)) && client >= 0
    requires t.nodes[i].children == [] && t.nodes[i].baseWidth >= 1 && t.nodes[i].baseHeight >= 1
    ensures MaxAt(t, i, v, 0, client) == Max(0, t.nodes[i].baseHeight - client)
  {
    var box := RootBox(t, i, v, 0);
    assert ChildrenPass(t, i, ContentBox(t.nodes[i], box), 0, StartCursor(t.nodes[i], ContentBox(t.nodes[i], box)))
        == Pass([], []);
    var bottoms := NodePass(t, i, box).bottoms;
    LowestBounds(0, bottoms);
    assert bottoms == [t.nodes[i].baseHeight];
  }

  /** A later root may allow less than the offset at which an earlier one was placed. */
  lemma ShortLaterRoot(t: Tree, v: View, width: int, height: int)
    requires Ordered(t) && HasBoxes(t, v) && FirstRoot(t, 0) && |t.nodes| == 2 && t.nodes[1].parent == -1
    requires t.nodes[0].children == [] && t.nodes[1].children == [] && t.nodes[1].baseWidth >= 1
    requires width > 0 && height > 0 && v.baseWidth == width && v.baseHeight > 0 && v.origin == Some((0, 0))
    requires v.offset <= t.nodes[0].baseHeight - height && 0 <= t.nodes[1].baseHeight - height < v.offset
    ensures var once := Controls(t, v, width, height); Controls(t, once, width, height) != once
  {
    RootsRepeatExactly(t, v, 0, height, 0);
    var first := RootPass(t, 0, v, 0, height);
    ChildlessMax(t, 0, v, height);
    ChildlessMax(t, 1, first, height);
    assert !Steady(t, first, 0, height, 0);
  }

  /** Made 400 high, the window needs two layouts: the first leaves its tall root at offset 300 and
      only then lowers the offset to 100 for the short one. */
  lemma TwoRootsNeedTwoLayouts(t: Tree, v: View)
    requires t == TwoRoots() && v == ScrolledDown()
    ensures Ordered(t) && HasBoxes(t, v)
    ensures var once := Controls(t, v, 100, 400); Controls(t, once, 100, 400) != once
  {
    ShortLaterRoot(t, v, 100, 400);
  }
}
