/** Rows of a retained list or table: bounded storage edited in place, with a selected row. */
module RetainedRows {
  import opened Common

  // ----- the edits as sequence operations -----

  datatype Rows<T> = Rows(items: seq<T>, selected: int)

  const CAPACITY: nat := 64

  ghost predicate Consistent<T>(r: Rows<T>) {
    -1 <= r.selected < |r.items| <= CAPACITY
  }

  function Inserted<T>(r: Rows<T>, i: nat, x: T): Rows<T>
    requires i <= |r.items|
  {
    Rows(r.items[..i] + [x] + r.items[i..], if r.selected >= i then r.selected + 1 else r.selected)
  }

  function Removed<T>(r: Rows<T>, i: nat): Rows<T>
    requires i < |r.items|
  {
    Rows(r.items[..i] + r.items[i + 1..],
         if r.selected == i then -1 else if r.selected > i then r.selected - 1 else r.selected)
  }

  function MovedItems<T>(s: seq<T>, from: nat, to: nat): seq<T>
    requires from < |s| && to < |s|
  {
    if from <= to then s[..from] + s[from + 1..to + 1] + [s[from]] + s[to + 1..]
    else s[..to] + [s[from]] + s[to..from] + s[from + 1..]
  }

  function Moved<T>(r: Rows<T>, from: nat, to: nat): Rows<T>
    requires from < |r.items| && to < |r.items|
  {
    Rows(MovedItems(r.items, from, to),
         if r.selected == from then to
         else if from < to && from < r.selected <= to then r.selected - 1
         else if from > to && to <= r.selected < from then r.selected + 1
         else r.selected)
  }

  // ----- where each row goes -----

  function AfterInsert(i: nat, k: nat): nat { if k >= i then k + 1 else k }

  function AfterRemove(i: nat, k: nat): nat
    requires k != i
  {
    if k > i then k - 1 else k
  }

  function AfterMove(from: nat, to: nat, k: nat): nat {
    if k == from then to
    else if from < k <= to then k - 1
    else if to <= k < from then k + 1
    else k
  }

  /** Every row keeps its contents at its new position, and the selection follows its row. */
  lemma InsertKeepsRows<T>(r: Rows<T>, i: nat, x: T)
    requires Consistent(r) && i <= |r.items| < CAPACITY
    ensures Consistent(Inserted(r, i, x)) && Inserted(r, i, x).items[i] == x
    ensures forall k :: 0 <= k < |r.items| ==> Inserted(r, i, x).items[AfterInsert(i, k)] == r.items[k]
    ensures Inserted(r, i, x).selected == if r.selected == -1 then -1 else AfterInsert(i, r.selected)
  {
  }

  /** A removal unselects exactly when it removes the selected row. */
  lemma RemoveKeepsRows<T>(r: Rows<T>, i: nat)
    requires Consistent(r) && i < |r.items|
    ensures Consistent(Removed(r, i))
    ensures forall k :: 0 <= k < |r.items| && k != i ==> Removed(r, i).items[AfterRemove(i, k)] == r.items[k]
    ensures Removed(r, i).selected
         == if r.selected == -1 || r.selected == i then -1 else AfterRemove(i, r.selected)
  {
  }

  /** A move permutes the rows: positions map one to one, contents follow, and so does selection. */
  lemma MoveKeepsRows<T>(r: Rows<T>, from: nat, to: nat)
    requires Consistent(r) && from < |r.items| && to < |r.items|
    ensures Consistent(Moved(r, from, to)) && |Moved(r, from, to).items| == |r.items|
    ensures forall k :: 0 <= k < |r.items| ==> Moved(r, from, to).items[AfterMove(from, to, k)] == r.items[k]
    ensures forall k, l :: 0 <= k < l < |r.items| ==> AfterMove(from, to, k) != AfterMove(from, to, l)
    ensures Moved(r, from, to).selected == if r.selected == -1 then -1 else AfterMove(from, to, r.selected)
  {
    var s := r.items;
    var t := MovedItems(s, from, to);
    forall k | 0 <= k < |s| ensures t[AfterMove(from, to, k)] == s[k] { MovedAt(s, from, to, k); }
  }

  lemma MovedAt<T>(s: seq<T>, from: nat, to: nat, k: nat)
    requires from < |s| && to < |s| && k < |s|
    ensures |MovedItems(s, from, to)| == |s| && MovedItems(s, from, to)[AfterMove(from, to, k)] == s[k]
  {
  }

  /** Which row ends up at position `k` of a move. */
  function MoveSource(from: nat, to: nat, k: nat): nat {
    if k == to then from
    else if from <= k < to then k + 1
    else if to < k <= from then k - 1
    else k
  }

  lemma MovedBySource<T>(s: seq<T>, from: nat, to: nat, t: seq<T>)
    requires from < |s| && to < |s| && |t| == |s|
    requires forall k :: 0 <= k < |s| ==> t[k] == s[MoveSource(from, to, k)]
    ensures t == MovedItems(s, from, to)
  {
    var moved := MovedItems(s, from, to);
    assert |moved| == |s|;
    forall k | 0 <= k < |s| ensures t[k] == moved[k] {
      SourceInverts(from, to, k);
      MovedAt(s, from, to, MoveSource(from, to, k));
    }
  }

  lemma SourceInverts(from: nat, to: nat, k: nat)
    ensures AfterMove(from, to, MoveSource(from, to, k)) == k
  {
  }

  /** Moving a row and moving it back restores the rows and the selection. */
  lemma MoveBack<T>(r: Rows<T>, from: nat, to: nat)
    requires Consistent(r) && from < |r.items| && to < |r.items|
    ensures |Moved(r, from, to).items| == |r.items|
    ensures Moved(Moved(r, from, to), to, from) == r
  {
    var once := MovedItems(r.items, from, to);
    MovedAt(r.items, from, to, 0);
    MovedAt(once, to, from, 0);
    var twice := MovedItems(once, to, from);
    forall k | 0 <= k < |r.items| ensures twice[k] == r.items[k] {
      MovedAt(r.items, from, to, k);
      MovedAt(once, to, from, AfterMove(from, to, k));
    }
    assert twice == r.items;
  }

  /** Removing what was just inserted restores everything. */
  lemma RemoveUndoesInsert<T>(r: Rows<T>, i: nat, x: T)
    requires Consistent(r) && i <= |r.items| < CAPACITY
    ensures Removed(Inserted(r, i, x), i) == r
  {
    assert Removed(Inserted(r, i, x), i).items == r.items;
  }

  /** Reinserting a removed row restores the rows; only a selection of that row is lost. */
  lemma InsertUndoesRemove<T>(r: Rows<T>, i: nat)
    requires Consistent(r) && i < |r.items|
    ensures Inserted(Removed(r, i), i, r.items[i]) == if r.selected == i then r.(selected := -1) else r
  {
    assert Inserted(Removed(r, i), i, r.items[i]).items == r.items;
  }

  /** A move is a removal followed by an insertion at the destination. */
  lemma MoveIsRemoveInsert<T>(r: Rows<T>, from: nat, to: nat)
    requires Consistent(r) && from < |r.items| && to < |r.items|
    ensures Inserted(Removed(r, from), to, r.items[from]).items == Moved(r, from, to).items
  {
    var t := Inserted(Removed(r, from), to, r.items[from]).items;
    forall k | 0 <= k < |r.items| ensures t[k] == r.items[MoveSource(from, to, k)] {
    }
    MovedBySource(r.items, from, to, t);
  }

  // ----- the storage -----

  class Store<T(==)> {
    const slots: array<T>
    const blank: T
    var count: nat
    var selected: int

    ghost predicate Valid()
      reads this
    {
      slots.Length == CAPACITY && count <= CAPACITY && -1 <= selected < count
    }

    ghost function State(): (r: Rows<T>)
      requires Valid()
      reads this, slots
      ensures Consistent(r)
    {
      Rows(slots[..count], selected)
    }

    constructor (blank: T)
      ensures Valid() && fresh(slots) && State() == Rows([], -1) && this.blank == blank
    {
      slots := new T[CAPACITY](_ => blank);
      this.blank, count, selected := blank, 0, -1;
    }

    /** Copy the rows from `index` on one slot up, last first. */
    method OpenGap(index: nat)
      requires Valid() && index <= count < CAPACITY
      modifies slots
      ensures slots[..index] == old(slots[..index])
      ensures slots[index + 1..count + 1] == old(slots[index..count])
    {
      ghost var was := slots[..];
      var k := count;
      while k > index
        invariant index <= k <= count
        invariant forall j :: 0 <= j < k ==> slots[j] == was[j]
        invariant forall j :: k < j <= count ==> slots[j] == was[j - 1]
      {
        slots[k] := slots[k - 1];
        k := k - 1;
      }
      ghost var moved, rows := slots[index + 1..count + 1], was[index..count];
      assert forall j :: 0 <= j < |moved| ==> moved[j] == rows[j];
    }

    /** Insert before `index`; the inclusive end position appends. */
    method Insert(index: int, item: T) returns (ok: bool)
      requires Valid()
      modifies this, slots
      ensures Valid()
      ensures ok == (0 <= index <= |old(State()).items| < CAPACITY)
      ensures State() == if ok then Inserted(old(State()), index, item) else old(State())
      ensures !ok ==> slots[..] == old(slots[..])
    {
      if index < 0 || index > count || count >= CAPACITY { return false; }
      ghost var was := slots[..count];
      OpenGap(index);
      ghost var above := slots[index + 1..count + 1];
      slots[index] := item;
      count := count + 1;
      if selected >= index { selected := selected + 1; }
      assert slots[index + 1..count] == above;
      assert slots[..count] == slots[..index] + [item] + slots[index + 1..count];
      assert was[..index] == slots[..index] && was[index..] == above;
      ok := true;
    }

    /** Copy the rows after `index` one slot down. */
    method CloseGap(index: nat)
      requires Valid() && index < count
      modifies slots
      ensures slots[..index] == old(slots[..index])
      ensures slots[index..count - 1] == old(slots[index + 1..count])
    {
      ghost var was := slots[..];
      var k := index;
      while k + 1 < count
        invariant index <= k < count
        invariant forall j :: 0 <= j < index ==> slots[j] == was[j]
        invariant forall j :: index <= j < k ==> slots[j] == was[j + 1]
        invariant forall j :: k <= j < CAPACITY ==> slots[j] == was[j]
      {
        slots[k] := slots[k + 1];
        k := k + 1;
      }
      ghost var moved, rows := slots[index..count - 1], was[index + 1..count];
      assert forall j :: 0 <= j < |moved| ==> moved[j] == rows[j];
    }

    method Remove(index: int) returns (ok: bool)
      requires Valid()
      modifies this, slots
      ensures Valid()
      ensures ok == (0 <= index < |old(State()).items|)
      ensures State() == if ok then Removed(old(State()), index) else old(State())
      ensures ok ==> slots[count] == blank
      ensures !ok ==> slots[..] == old(slots[..])
    {
      if index < 0 || index >= count { return false; }
      ghost var was := slots[..count];
      CloseGap(index);
      count := count - 1;
      ghost var rows := slots[..count];
      assert rows == slots[..index] + slots[index..count];
      assert rows == was[..index] + was[index + 1..];
      slots[count] := blank;
      assert slots[..count] == rows;
      if selected == index { selected := -1; } else if selected > index { selected := selected - 1; }
      ok := true;
    }

    /** Shift the rows between the two positions down by one and put the moved row at its destination. */
    method MoveUp(from: nat, to: nat)
      requires Valid() && from < to < count
      modifies slots
      ensures slots[..count] == MovedItems(old(slots[..count]), from, to)
    {
      ghost var was := slots[..];
      var moved := slots[from];
      var k := from;
      while k < to
        invariant from <= k <= to
        invariant forall j :: from <= j < k ==> slots[j] == was[j + 1]
        invariant forall j :: 0 <= j < CAPACITY && !(from <= j < k) ==> slots[j] == was[j]
      {
        slots[k] := slots[k + 1];
        k := k + 1;
      }
      slots[to] := moved;
      MovedBySource(was[..count], from, to, slots[..count]);
    }

    method MoveDown(from: nat, to: nat)
      requires Valid() && to < from < count
      modifies slots
      ensures slots[..count] == MovedItems(old(slots[..count]), from, to)
    {
      ghost var was := slots[..];
      var moved := slots[from];
      var k := from;
      while k > to
        invariant to <= k <= from
        invariant forall j :: k < j <= from ==> slots[j] == was[j - 1]
        invariant forall j :: 0 <= j < CAPACITY && !(k < j <= from) ==> slots[j] == was[j]
      {
        slots[k] := slots[k - 1];
        k := k - 1;
      }
      slots[to] := moved;
      MovedBySource(was[..count], from, to, slots[..count]);
    }

    method Move(from: int, to: int) returns (ok: bool)
      requires Valid()
      modifies this, slots
      ensures Valid()
      ensures ok == (0 <= from < |old(State()).items| && 0 <= to < |old(State()).items|)
      ensures State() == if ok then Moved(old(State()), from, to) else old(State())
      ensures !ok ==> slots[..] == old(slots[..])
    {
      if from < 0 || to < 0 || from >= count || to >= count { return false; }
      if from == to {
        assert MovedItems(slots[..count], from, to) == slots[..count];
        return true;
      }
      if from < to { MoveUp(from, to); } else { MoveDown(from, to); }
      if selected == from {
        selected := to;
      } else if from < to && selected > from && selected <= to {
        selected := selected - 1;
      } else if from > to && selected >= to && selected < from {
        selected := selected + 1;
      }
      ok := true;
    }

    // The guarded forms read the model's revision before and after the edit. While the model stands
    // still, a refusal means that nothing changed.

    method InsertIfRevision(index: int, item: T, revision: nat, expected: nat, revisionAfter: nat) returns (ok: bool)
      requires Valid()
      modifies this, slots
      ensures Valid()
      ensures var applied := revision == expected && 0 <= index <= |old(State()).items| < CAPACITY;
              && ok == (applied && revisionAfter == expected)
              && State() == (if applied then Inserted(old(State()), index, item) else old(State()))
              && (!applied || (!ok && revisionAfter == revision) ==> slots[..] == old(slots[..]))
    {
      if revision != expected { return false; }
      ok := Insert(index, item);
      if ok { ok := revisionAfter == expected; }
    }

    method RemoveIfRevision(index: int, revision: nat, expected: nat, revisionAfter: nat) returns (ok: bool)
      requires Valid()
      modifies this, slots
      ensures Valid()
      ensures var applied := revision == expected && 0 <= index < |old(State()).items|;
              && ok == (applied && revisionAfter == expected)
              && State() == (if applied then Removed(old(State()), index) else old(State()))
              && (!applied || (!ok && revisionAfter == revision) ==> slots[..] == old(slots[..]))
    {
      if revision != expected { return false; }
      ok := Remove(index);
      if ok { ok := revisionAfter == expected; }
    }

    method MoveIfRevision(from: int, to: int, revision: nat, expected: nat, revisionAfter: nat) returns (ok: bool)
      requires Valid()
      modifies this, slots
      ensures Valid()
      ensures var applied := revision == expected && 0 <= from < |old(State()).items| && 0 <= to < |old(State()).items|;
              && ok == (applied && revisionAfter == expected)
              && State() == (if applied then Moved(old(State()), from, to) else old(State()))
              && (!applied || (!ok && revisionAfter == revision) ==> slots[..] == old(slots[..]))
    {
      if revision != expected { return false; }
      ok := Move(from, to);
      if ok { ok := revisionAfter == expected; }
    }
  }

  /** A list item is text of at most 255 bytes; an absent or longer text is refused. */
  method InsertListItem(list: Store<seq<Byte>>, index: int, text: Option<seq<Byte>>) returns (ok: bool)
    requires list.Valid()
    modifies list, list.slots
    ensures list.Valid()
    ensures ok == (text.Some? && |text.value| < TEXT_CAPACITY && 0 <= index <= |old(list.State()).items| < CAPACITY)
    ensures list.State() == if ok then Inserted(old(list.State()), index, text.value) else old(list.State())
  {
    if text.None? || |text.value| >= TEXT_CAPACITY { return false; }
    ok := list.Insert(index, text.value);
  }

  /** A table row is inserted blank: all its cells at once. */
  method InsertTableRow(table: Store<seq<seq<Byte>>>, index: int) returns (ok: bool)
    requires table.Valid()
    modifies table, table.slots
    ensures table.Valid()
    ensures ok == (0 <= index <= |old(table.State()).items| < CAPACITY)
    ensures table.State() == if ok then Inserted(old(table.State()), index, table.blank) else old(table.State())
  {
    ok := table.Insert(index, table.blank);
  }

  // ----- every run -----

  datatype Edit<T> = InsertRow(index: int, item: T) | RemoveRow(index: int) | MoveRow(from: int, to: int)

  /** One edit; out-of-range positions change nothing. */
  function Apply<T>(r: Rows<T>, e: Edit<T>): Rows<T> {
    match e
    case InsertRow(i, x) => if 0 <= i <= |r.items| < CAPACITY then Inserted(r, i, x) else r
    case RemoveRow(i) => if 0 <= i < |r.items| then Removed(r, i) else r
    case MoveRow(i, j) => if 0 <= i < |r.items| && 0 <= j < |r.items| then Moved(r, i, j) else r
  }

  function ApplyAll<T>(r: Rows<T>, edits: seq<Edit<T>>): Rows<T>
    decreases edits
  {
    if edits == [] then r else ApplyAll(Apply(r, edits[0]), edits[1..])
  }

  /** The in-place edits are those edits, and so are runs of them. */
  method Drive<T(==)>(store: Store<T>, edits: seq<Edit<T>>)
    requires store.Valid()
    modifies store, store.slots
    ensures store.Valid() && store.State() == ApplyAll(old(store.State()), edits)
  {
    for i := 0 to |edits|
      invariant store.Valid() && ApplyAll(old(store.State()), edits) == ApplyAll(store.State(), edits[i..])
    {
      assert edits[i..][1..] == edits[i + 1..];
      var _ := Perform(store, edits[i]);
    }
  }

  method Perform<T(==)>(store: Store<T>, e: Edit<T>) returns (ok: bool)
    requires store.Valid()
    modifies store, store.slots
    ensures store.Valid() && store.State() == Apply(old(store.State()), e)
  {
    match e
    case InsertRow(i, x) => ok := store.Insert(i, x);
    case RemoveRow(i) => ok := store.Remove(i);
    case MoveRow(i, j) => ok := store.Move(i, j);
  }

  ghost predicate SelectsRow<T>(r: Rows<T>, x: T) { 0 <= r.selected < |r.items| && r.items[r.selected] == x }

  /** Over every run of edits the state stays consistent, and the selection is empty or the very
      contents first selected: no edit ever shifts it to another row. */
  lemma {:induction false} SelectionFollowsRow<T>(r: Rows<T>, edits: seq<Edit<T>>, x: T)
    requires Consistent(r) && (r.selected == -1 || SelectsRow(r, x))
    ensures var end := ApplyAll(r, edits);
            Consistent(end) && (end.selected == -1 || (r.selected != -1 && SelectsRow(end, x)))
    decreases edits
  {
    if edits != [] {
      EditFollowsRow(r, edits[0], x);
      SelectionFollowsRow(Apply(r, edits[0]), edits[1..], x);
    }
  }

  lemma EditFollowsRow<T>(r: Rows<T>, e: Edit<T>, x: T)
    requires Consistent(r) && (r.selected == -1 || SelectsRow(r, x))
    ensures var end := Apply(r, e);
            && Consistent(end) && (end.selected == -1 || (r.selected != -1 && SelectsRow(end, x)))
            && (end.selected == -1 ==> r.selected == -1 || (e.RemoveRow? && e.index == r.selected))
  {
    match e
    case InsertRow(i, y) => if 0 <= i <= |r.items| < CAPACITY { InsertKeepsRows(r, i, y); }
    case RemoveRow(i) => if 0 <= i < |r.items| { RemoveKeepsRows(r, i); }
    case MoveRow(i, j) => if 0 <= i < |r.items| && 0 <= j < |r.items| { MoveKeepsRows(r, i, j); }
  }
}
