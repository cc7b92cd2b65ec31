/** The verifier's dominator computation: an iterated intersection over predecessors. */
module Dominators {
  import opened Jir

  type Table = seq<set<BlockId>>
  type Graph = seq<seq<BlockId>>

  ghost predicate ValidGraph(predecessors: Graph) {
    forall b, i :: 0 <= b < |predecessors| && 0 <= i < |predecessors[b]| ==> predecessors[b][i] < |predecessors|
  }

  /** What is common to the table rows of a nonempty list of blocks. */
  function Common(table: Table, blocks: seq<BlockId>): set<BlockId>
    requires forall i :: 0 <= i < |blocks| ==> blocks[i] < |table|
  {
    if |blocks| == 0 then {}
    else if |blocks| == 1 then table[blocks[0]]
    else Common(table, blocks[..|blocks| - 1]) * table[blocks[|blocks| - 1]]
  }

  function Meet(table: Table, predecessors: Graph, b: BlockId): set<BlockId>
    requires |table| == |predecessors| && b < |table| && ValidGraph(predecessors)
  {
    Common(table, predecessors[b]) + {b}
  }

  ghost predicate RowsInRange(table: Table) {
    forall b, d :: 0 <= b < |table| && d in table[b] ==> d < |table|
  }

  /** The dataflow equations whose solution the verifier looks for. */
  ghost predicate IsDominatorTable(table: Table, predecessors: Graph) {
    && ValidGraph(predecessors)
    && |table| == |predecessors|
    && RowsInRange(table)
    && (|table| > 0 ==> table[0] == {0})
    && forall b :: 1 <= b < |table| ==> table[b] == Meet(table, predecessors, b)
  }

  ghost predicate Below(s: Table, t: Table) {
    |s| == |t| && forall b :: 0 <= b < |s| ==> s[b] <= t[b]
  }

  lemma {:induction false} CommonMember(table: Table, blocks: seq<BlockId>, d: BlockId)
    requires forall i :: 0 <= i < |blocks| ==> blocks[i] < |table|
    ensures d in Common(table, blocks) <==>
            |blocks| > 0 && forall i :: 0 <= i < |blocks| ==> d in table[blocks[i]]
  {
    if |blocks| > 1 {
      var front := blocks[..|blocks| - 1];
      CommonMember(table, front, d);
      forall i | 0 <= i < |blocks| && d in Common(table, blocks) ensures d in table[blocks[i]] {
        if i < |front| { assert front[i] == blocks[i]; }
      }
    }
  }

  lemma MeetMonotone(s: Table, t: Table, predecessors: Graph, b: BlockId)
    requires ValidGraph(predecessors) && |t| == |predecessors| && b < |t| && Below(s, t)
    ensures Meet(s, predecessors, b) <= Meet(t, predecessors, b)
  {
    forall d | d in Common(s, predecessors[b]) ensures d in Common(t, predecessors[b]) {
      CommonMember(s, predecessors[b], d);
      CommonMember(t, predecessors[b], d);
    }
  }

  // ----- what a table means -----

  /** Where control may come from nowhere: the entry, and a dead block that nothing jumps to. */
  ghost predicate IsSource(predecessors: Graph, b: BlockId) {
    b < |predecessors| && (b == 0 || predecessors[b] == [])
  }

  ghost predicate IsPath(predecessors: Graph, p: seq<BlockId>) {
    && |p| > 0 && IsSource(predecessors, p[0])
    && forall i :: 0 <= i < |p| - 1 ==> IsEdge(predecessors, p, i)
  }

  ghost predicate IsEdge(predecessors: Graph, p: seq<BlockId>, i: nat)
    requires i + 1 < |p|
  {
    p[i + 1] < |predecessors| && p[i] in predecessors[p[i + 1]]
  }

  ghost predicate PathTo(predecessors: Graph, p: seq<BlockId>, b: BlockId) {
    IsPath(predecessors, p) && p[|p| - 1] == b
  }

  ghost predicate OnEveryPath(predecessors: Graph, d: BlockId, b: BlockId) {
    forall p :: PathTo(predecessors, p, b) ==> d in p
  }

  lemma FrontIsPath(predecessors: Graph, p: seq<BlockId>)
    requires IsPath(predecessors, p) && |p| > 1
    ensures IsPath(predecessors, p[..|p| - 1])
  {
    var front := p[..|p| - 1];
    forall i | 0 <= i < |front| - 1 ensures IsEdge(predecessors, front, i) { assert IsEdge(predecessors, p, i); }
  }

  /** Following one edge can add only the block it reaches. */
  lemma EdgeShrinks(table: Table, predecessors: Graph, a: BlockId, b: BlockId)
    requires IsDominatorTable(table, predecessors) && b < |table| && a in predecessors[b]
    ensures a < |table| && table[b] <= table[a] + {b}
  {
    if b > 0 {
      forall d | d in table[b] && d != b ensures d in table[a] { CommonMember(table, predecessors[b], d); }
    }
  }

  /** Soundness: every path to a block passes through all its recorded dominators. */
  lemma {:induction false} TableIsSound(table: Table, predecessors: Graph, p: seq<BlockId>, d: BlockId)
    requires IsDominatorTable(table, predecessors) && IsPath(predecessors, p)
    requires p[|p| - 1] < |table| && d in table[p[|p| - 1]]
    ensures d in p
  {
    var last := |p| - 1;
    if last > 0 && d != p[last] {
      var front := p[..last];
      assert IsEdge(predecessors, p, last - 1);
      EdgeShrinks(table, predecessors, p[last - 1], p[last]);
      FrontIsPath(predecessors, p);
      assert front[|front| - 1] == p[last - 1];
      TableIsSound(table, predecessors, front, d);
    }
  }

  ghost function PathTable(predecessors: Graph): Table {
    seq(|predecessors|, (b: nat) => set d | 0 <= d < |predecessors| && OnEveryPath(predecessors, d, b))
  }

  /** Dominance by paths solves the dataflow equations, on every graph. */
  lemma PathTableIsTable(predecessors: Graph)
    requires ValidGraph(predecessors)
    ensures IsDominatorTable(PathTable(predecessors), predecessors)
  {
    var table := PathTable(predecessors);
    if |table| > 0 {
      assert PathTo(predecessors, [0], 0);
      assert table[0] == {0} by {
        forall d | d in table[0] ensures d == 0 { assert d in [0]; }
      }
    }
    forall b | 1 <= b < |table| ensures table[b] == Meet(table, predecessors, b) {
      forall d ensures d in table[b] <==> d in Meet(table, predecessors, b) {
        CommonMember(table, predecessors[b], d);
        if d in table[b] && d != b { PathDominatorAtPredecessors(predecessors, d, b); }
        if d in Meet(table, predecessors, b) { PathDominatorFromPredecessors(predecessors, d, b); }
      }
    }
  }

  lemma PathDominatorAtPredecessors(predecessors: Graph, d: BlockId, b: BlockId)
    requires ValidGraph(predecessors)
    requires 1 <= b < |predecessors| && d < |predecessors| && d != b && OnEveryPath(predecessors, d, b)
    ensures |predecessors[b]| > 0
    ensures forall i :: 0 <= i < |predecessors[b]| ==> OnEveryPath(predecessors, d, predecessors[b][i])
  {
    if predecessors[b] == [] { assert PathTo(predecessors, [b], b); }
    forall i, p | 0 <= i < |predecessors[b]| && PathTo(predecessors, p, predecessors[b][i]) ensures d in p {
      var longer := p + [b];
      assert IsPath(predecessors, longer) by {
        forall j | 0 <= j < |longer| - 1 ensures IsEdge(predecessors, longer, j) {
          if j < |p| - 1 { assert IsEdge(predecessors, p, j); }
        }
      }
      assert PathTo(predecessors, longer, b);
    }
  }

  lemma PathDominatorFromPredecessors(predecessors: Graph, d: BlockId, b: BlockId)
    requires ValidGraph(predecessors) && 1 <= b < |predecessors|
    requires d == b || (predecessors[b] != [] &&
                        forall i :: 0 <= i < |predecessors[b]| ==> OnEveryPath(predecessors, d, predecessors[b][i]))
    ensures OnEveryPath(predecessors, d, b)
  {
    forall p | PathTo(predecessors, p, b) ensures d in p {
      if d != b {
        var front := p[..|p| - 1];
        var a := p[|p| - 2];
        assert IsEdge(predecessors, p, |p| - 2);
        var i :| 0 <= i < |predecessors[b]| && predecessors[b][i] == a;
        assert PathTo(predecessors, front, a) by { FrontIsPath(predecessors, p); }
        assert d in front;
      }
    }
  }

  /** The greatest table records exactly the blocks on every path, on every graph. */
  lemma GreatestTableIsExact(table: Table, predecessors: Graph, d: BlockId, b: BlockId)
    requires IsDominatorTable(table, predecessors)
    requires forall other :: IsDominatorTable(other, predecessors) ==> Below(other, table)
    requires b < |table| && d < |table|
    ensures d in table[b] <==> OnEveryPath(predecessors, d, b)
  {
    PathTableIsTable(predecessors);
    assert Below(PathTable(predecessors), table);
    assert d in PathTable(predecessors)[b] <==> OnEveryPath(predecessors, d, b);
    if d in table[b] {
      forall p | PathTo(predecessors, p, b) ensures d in p { TableIsSound(table, predecessors, p, d); }
    }
  }

  // ----- the textbook relation, over paths from the entry alone -----

  ghost predicate Dominates(predecessors: Graph, d: BlockId, b: BlockId) {
    forall p :: PathTo(predecessors, p, b) && p[0] == 0 ==> d in p
  }

  /** The row of a block is its textbook dominators exactly when it names the entry block, that is,
      when no dead block leads to it around the entry. */
  lemma RowIsTextbookExactly(table: Table, predecessors: Graph, b: BlockId)
    requires IsDominatorTable(table, predecessors)
    requires forall other :: IsDominatorTable(other, predecessors) ==> Below(other, table)
    requires b < |table|
    ensures (forall d :: 0 <= d < |table| ==> (d in table[b] <==> Dominates(predecessors, d, b))) <==> 0 in table[b]
  {
    assert Dominates(predecessors, 0, b);
    forall d | 0 <= d < |table| && 0 in table[b] ensures d in table[b] <==> Dominates(predecessors, d, b) {
      GreatestTableIsExact(table, predecessors, d, b);
      GreatestTableIsExact(table, predecessors, 0, b);
      if Dominates(predecessors, d, b) {
        forall p | PathTo(predecessors, p, b) ensures d in p { SuffixFromEntry(predecessors, p, d, b); }
      }
    }
  }

  /** A path that passes the entry ends in a path that starts there. */
  lemma SuffixFromEntry(predecessors: Graph, p: seq<BlockId>, d: BlockId, b: BlockId)
    requires PathTo(predecessors, p, b) && 0 in p && Dominates(predecessors, d, b)
    ensures d in p
  {
    var k :| 0 <= k < |p| && p[k] == 0;
    var rest := p[k..];
    assert IsSource(predecessors, 0) by { if k > 0 { assert IsEdge(predecessors, p, k - 1); } }
    assert PathTo(predecessors, rest, b) by {
      forall i | 0 <= i < |rest| - 1 ensures IsEdge(predecessors, rest, i) { assert IsEdge(predecessors, p, k + i); }
    }
    assert d in rest;
  }

  /** Block 1 joins the entry and the dead block 2: the entry dominates it, yet no table says so. */
  lemma DeadBlockHidesEntry(table: Table)
    requires IsDominatorTable(table, DEAD_JOIN)
    ensures 0 !in table[1] && Dominates(DEAD_JOIN, 0, 1)
  {
    assert table[2] == {2};
    assert table[1] == Meet(table, DEAD_JOIN, 1);
    CommonMember(table, DEAD_JOIN[1], 0);
    assert DEAD_JOIN[1][1] == 2;
  }

  const DEAD_JOIN: Graph := [[], [0, 2], []]

  // ----- the computation -----

  ghost function Weight(table: Table): nat {
    if |table| == 0 then 0 else |table[0]| + Weight(table[1..])
  }

  lemma {:induction false} WeightDrops(table: Table, b: nat, row: set<BlockId>)
    requires b < |table| && row < table[b]
    ensures Weight(table[b := row]) < Weight(table)
  {
    if b == 0 {
      assert table[0 := row][1..] == table[1..];
      SubsetSmaller(row, table[0]);
    } else {
      assert table[b := row][1..] == table[1..][b - 1 := row];
      WeightDrops(table[1..], b - 1, row);
    }
  }

  lemma {:induction false} SubsetSmaller(s: set<BlockId>, t: set<BlockId>)
    requires s < t
    ensures |s| < |t|
  {
    var extra := t - s;
    assert t == s + extra && s !! extra;
    if extra == {} { assert false; }
  }

  /** Meet of a row, folded over the predecessor list as the verifier does. */
  method MeetRow(table: Table, predecessors: Graph, b: BlockId) returns (row: set<BlockId>)
    requires ValidGraph(predecessors) && |table| == |predecessors| && b < |table|
    ensures row == Meet(table, predecessors, b)
  {
    var list := predecessors[b];
    row := {};
    if |list| > 0 {
      row := table[list[0]];
      for i := 1 to |list|
        invariant row == Common(table, list[..i])
      {
        assert list[..i + 1][..i] == list[..i];
        row := row * table[list[i]];
      }
      assert list[..|list|] == list;
    }
    row := row + {b};
  }

  /** Every row lies above its meet, and above the row of every solution. */
  ghost predicate Descending(table: Table, predecessors: Graph) {
    && ValidGraph(predecessors) && |table| == |predecessors| && RowsInRange(table)
    && (|table| > 0 ==> table[0] == {0})
    && (forall b :: 1 <= b < |table| ==> Meet(table, predecessors, b) <= table[b])
    && (forall other :: IsDominatorTable(other, predecessors) ==> Below(other, table))
  }

  function AllBelow(n: nat): (s: set<BlockId>)
    ensures forall d: BlockId :: d in s <==> d < n
  {
    if n == 0 then {} else AllBelow(n - 1) + {n - 1}
  }

  lemma InitialDescends(predecessors: Graph, table: Table)
    requires ValidGraph(predecessors) && |predecessors| > 0
    requires table == seq(|predecessors|, _ => AllBelow(|predecessors|))[0 := {0}]
    ensures Descending(table, predecessors)
  {
    forall b, d | 1 <= b < |table| && d in Meet(table, predecessors, b) ensures d in table[b] {
      CommonMember(table, predecessors[b], d);
    }
    forall other | IsDominatorTable(other, predecessors) ensures Below(other, table) {
    }
  }

  /** Shrinking a row to its meet keeps the table descending. */
  lemma ShrinkDescends(table: Table, predecessors: Graph, block: BlockId)
    requires Descending(table, predecessors) && 1 <= block < |table|
    ensures Descending(table[block := Meet(table, predecessors, block)], predecessors)
  {
    var after := table[block := Meet(table, predecessors, block)];
    assert Below(after, table);
    forall b | 1 <= b < |after| ensures Meet(after, predecessors, b) <= after[b] {
      MeetMonotone(after, table, predecessors, b);
    }
    forall other | IsDominatorTable(other, predecessors) ensures Below(other, after) {
      MeetMonotone(other, table, predecessors, block);
    }
  }

  /** One pass over the blocks; `changed` tells whether some row shrank. */
  method Sweep(start: Table, predecessors: Graph) returns (table: Table, changed: bool)
    requires Descending(start, predecessors) && |start| > 0
    ensures Descending(table, predecessors)
    ensures changed ==> Weight(table) < Weight(start)
    ensures !changed ==> table == start && IsDominatorTable(table, predecessors)
  {
    table, changed := start, false;
    for block := 1 to |start|
      invariant Descending(table, predecessors)
      invariant changed ==> Weight(table) < Weight(start)
      invariant !changed ==> table == start && forall b :: 1 <= b < block ==> table[b] == Meet(table, predecessors, b)
    {
      var row := MeetRow(table, predecessors, block);
      if row != table[block] {
        WeightDrops(table, block, row);
        ShrinkDescends(table, predecessors, block);
        table := table[block := row];
        changed := true;
      }
    }
  }

  /** Start from everything and shrink rows until nothing changes. The loop terminates, and the
      result is the greatest solution of the dataflow equations: the blocks on every path. */
  method ComputeDominators(predecessors: Graph) returns (table: Table)
    requires ValidGraph(predecessors)
    ensures IsDominatorTable(table, predecessors)
    ensures forall other :: IsDominatorTable(other, predecessors) ==> Below(other, table)
    ensures forall b, d :: 0 <= b < |table| && 0 <= d < |table| ==>
              (d in table[b] <==> OnEveryPath(predecessors, d, b))
  {
    if |predecessors| == 0 { return []; }
    table := seq(|predecessors|, _ => AllBelow(|predecessors|))[0 := {0}];
    InitialDescends(predecessors, table);
    var changed := true;
    while changed
      invariant Descending(table, predecessors)
      invariant !changed ==> IsDominatorTable(table, predecessors)
      decreases Weight(table), changed
    {
      table, changed := Sweep(table, predecessors);
    }
    forall b, d | 0 <= b < |table| && 0 <= d < |table| ensures d in table[b] <==> OnEveryPath(predecessors, d, b) {
      GreatestTableIsExact(table, predecessors, d, b);
    }
  }
}
