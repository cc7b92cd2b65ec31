/** Where a layout puts the children of a row or column, in terms of the box and the padding alone. */
module ScrollPlacement {
  import opened Common
  import opened ScrollLayout

  /** How an alignment shares free space between a left and a right margin. */
  predicate Margins(align: Alignment, left: int, right: int) {
    match align
    case AlignStart => left == 0
    case AlignEnd => right == 0
    case AlignCenter => left <= right <= left + 1
  }

  /** What is left of a length between two paddings: at least 1 and at most 4000. */
  function Inside(length: int, padding: int): int {
    var free := length - padding - padding;
    if free <= 0 then 1 else if free <= 4000 then free else 4000
  }

  /** Free space on each side of a rectangle, inside a box's paddings. */
  function LeftMargin(n: LayoutNode, box: Rect, r: Rect): int { r.x - box.x - n.padding }

  function RightMargin(n: LayoutNode, box: Rect, r: Rect): int {
    Inside(box.width, n.padding) - LeftMargin(n, box, r) - r.width
  }

  function TopMargin(n: LayoutNode, box: Rect, r: Rect): int { r.y - box.y - n.padding }

  function BottomMargin(n: LayoutNode, box: Rect, r: Rect): int {
    Inside(box.height, n.padding) - TopMargin(n, box, r) - r.height
  }

  /** Where the limits do not bite, the margins reach to the far paddings. */
  lemma MarginsReachPadding(n: LayoutNode, box: Rect, r: Rect)
    ensures 1 <= box.width - n.padding * 2 <= 4000 ==>
              RightMargin(n, box, r) == (box.x + box.width - n.padding) - (r.x + r.width)
    ensures 1 <= box.height - n.padding * 2 <= 4000 ==>
              BottomMargin(n, box, r) == (box.y + box.height - n.padding) - (r.y + r.height)
  {
  }

  /** A requested size is kept as far as it fits. */
  predicate Kept(requested: int, inside: int, given: int) {
    if requested < 1 then given == 1 else if requested > inside then given == inside else given == requested
  }

  /** A column child keeps its size as far as it fits, at the margins its alignment asks for. */
  predicate InColumn(n: LayoutNode, box: Rect, child: Child, r: Rect) {
    && Kept(child.height, Inside(box.height, n.padding), r.height)
    && if child.stretch then LeftMargin(n, box, r) == 0 && RightMargin(n, box, r) == 0
       else
         && Margins(n.align, LeftMargin(n, box, r), RightMargin(n, box, r))
         && Kept(child.width, Inside(box.width, n.padding), r.width)
  }

  /** A row child is centered across the row, or fills it. */
  predicate InRow(n: LayoutNode, box: Rect, child: Child, r: Rect) {
    && Kept(child.width, Inside(box.width, n.padding), r.width)
    && if child.stretch then TopMargin(n, box, r) == 0 && BottomMargin(n, box, r) == 0
       else
         && Margins(AlignCenter, TopMargin(n, box, r), BottomMargin(n, box, r))
         && Kept(child.height, Inside(box.height, n.padding), r.height)
  }

  /** The rectangle given to child `k` when the node is laid out in `box`. */
  function ChildAt(n: LayoutNode, box: Rect, k: nat): Rect
    requires k < |n.children|
  {
    RectAt(n, ContentBox(n, box), k)
  }

  /** In a column every child has its margins, and the first touches the top padding. */
  lemma ColumnPlacement(n: LayoutNode, box: Rect, k: nat)
    requires n.orientation.Column? && k < |n.children|
    ensures InColumn(n, box, n.children[k], ChildAt(n, box, k))
    ensures k == 0 ==> TopMargin(n, box, ChildAt(n, box, k)) == 0
  {
  }

  // ----- rows -----

  /** Sizes as the builder leaves them. */
  predicate NaturalSizes(n: LayoutNode) {
    n.gap >= 0 && forall k :: 0 <= k < |n.children| ==> n.children[k].width >= 1 && n.children[k].height >= 1
  }

  /** Widths of the first `k` children and the gaps between them. */
  function RowWidth(n: LayoutNode, k: nat): int
    requires k <= |n.children|
  {
    if k == 0 then 0 else RowWidth(n, k - 1) + n.children[k - 1].width + (if k == 1 then 0 else n.gap)
  }

  lemma {:induction false} RowWidthGrows(n: LayoutNode, j: nat, k: nat)
    requires NaturalSizes(n) && j < k <= |n.children|
    ensures RowWidth(n, j) + n.children[j].width <= RowWidth(n, k)
    decreases k
  {
    if j < k - 1 { RowWidthGrows(n, j, k - 1); }
  }

  lemma {:induction false} RowWidthNonnegative(n: LayoutNode, k: nat)
    requires NaturalSizes(n) && k <= |n.children|
    ensures RowWidth(n, k) >= 0
  {
    if k > 0 { RowWidthNonnegative(n, k - 1); }
  }

  lemma {:induction false} TotalIsRowWidth(n: LayoutNode, k: nat)
    requires n.orientation.Row? && k <= |n.children|
    ensures PrimaryTotal(n, k) == RowWidth(n, k) + (if 0 < k < |n.children| then n.gap else 0)
  {
    if k > 0 { TotalIsRowWidth(n, k - 1); }
  }

  /** A row that fits keeps every width and puts the children after each other. */
  lemma {:induction false} RowCursor(n: LayoutNode, content: Rect, k: nat)
    requires n.orientation.Row? && NaturalSizes(n) && RowWidth(n, |n.children|) <= content.width && k < |n.children|
    ensures RectAt(n, content, k).width == n.children[k].width
    ensures RectAt(n, content, k).x
         == StartCursor(n, content) + RowWidth(n, k) + (if k == 0 then 0 else n.gap)
    decreases k
  {
    RowWidthGrows(n, k, |n.children|);
    RowWidthNonnegative(n, k);
    if k > 0 { RowCursor(n, content, k - 1); }
  }

  /** In a row every child is centered or stretched across it; when the row fits, the whole group of
      children has the margins its alignment asks for. */
  lemma RowPlacement(n: LayoutNode, box: Rect, k: nat)
    requires n.orientation.Row? && k < |n.children|
    ensures InRow(n, box, n.children[k], ChildAt(n, box, k))
    ensures NaturalSizes(n) && RowWidth(n, |n.children|) <= Inside(box.width, n.padding) ==>
              && ChildAt(n, box, k).width == n.children[k].width
              && Margins(n.align, LeftMargin(n, box, ChildAt(n, box, 0)),
                         RightMargin(n, box, ChildAt(n, box, |n.children| - 1)))
  {
    if NaturalSizes(n) && RowWidth(n, |n.children|) <= Inside(box.width, n.padding) {
      var content, last: nat := ContentBox(n, box), |n.children| - 1;
      RowCursor(n, content, k);
      RowCursor(n, content, 0);
      RowCursor(n, content, last);
      TotalIsRowWidth(n, |n.children|);
      RowWidthNonnegative(n, |n.children|);
      assert RowWidth(n, |n.children|) == RowWidth(n, last) + n.children[last].width + (if last == 0 then 0 else n.gap);
    }
  }

  /** A control child of a node is moved to a rectangle with those margins. */
  lemma ControlIsPlaced(t: Tree, i: nat, box: Rect, k: nat)
    requires Ordered(t) && i < |t.nodes| && k < |t.nodes[i].children|
    requires box.width > 0 && box.height > 0 && t.nodes[i].children[k].content.ControlContent?
    requires var c := t.nodes[i].children[k].content; Control(c.kind, c.index) in t.controls
    ensures var n, c := t.nodes[i], t.nodes[i].children[k].content;
            exists r :: && Placement(Control(c.kind, c.index), r) in NodePass(t, i, box).moves
                        && if n.orientation.Column? then InColumn(n, box, n.children[k], r)
                           else InRow(n, box, n.children[k], r)
  {
    var n, c := t.nodes[i], t.nodes[i].children[k].content;
    ChildIsPlaced(t, i, box, k);
    if n.orientation.Column? { ColumnPlacement(n, box, k); } else { RowPlacement(n, box, k); }
    assert Placement(Control(c.kind, c.index), ChildAt(n, box, k)) in NodePass(t, i, box).moves;
  }
}
