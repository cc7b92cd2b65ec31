/** Refresh of every bound control from the application model: a read-only preflight, then a
    mutating pass, both guarded by a model revision. */
module GuardedRefresh {
  import opened Common

  type Text = seq<Byte>

  const STATE_SLOTS: nat := 32

  // ----- the model -----

  datatype ModelValue = TextSlot(text: Text) | BoolSlot(flag: bool) | IntSlot(number: int)

  type Model = map<string, ModelValue>

  function ReadText(model: Model, key: string): Option<Text> {
    if key in model && model[key].TextSlot? && |model[key].text| <= TEXT_CAPACITY then Some(model[key].text) else None
  }

  function ReadBool(model: Model, key: string): Option<bool> {
    if key in model && model[key].BoolSlot? then Some(model[key].flag) else None
  }

  function ReadInt(model: Model, key: string): Option<int> {
    if key in model && model[key].IntSlot? then Some(model[key].number) else None
  }

  // ----- the retained controls -----

  datatype Kind = Input | Checkbox | Select | List | Table | Other

  /** `rows` counts options, list items or table rows; a table may have lost its storage. */
  datatype Node = Node(
    used: bool, kind: Kind, event: int,
    text: Text, checked: bool, selected: int,
    options: seq<Text>, rows: nat, hasStorage: bool)

  datatype Binding = Binding(event: int, key: string, kind: Kind)

  datatype StateMode = CheckedMode | IndexMode | LengthMode | CountMode | TextMode

  datatype StateBinding = StateBinding(event: int, slot: int, mode: StateMode)

  /** Node 0 is never used. */
  datatype Ui = Ui(
    nodes: seq<Node>, bindings: seq<Binding>, stateBindings: seq<StateBinding>,
    slots: seq<int>, texts: seq<Text>)

  ghost predicate Valid(ui: Ui) {
    && |ui.slots| == STATE_SLOTS && |ui.texts| == STATE_SLOTS
    && forall i :: 0 <= i < |ui.nodes| ==> ui.nodes[i].kind.Select? ==> ui.nodes[i].rows == |ui.nodes[i].options|
  }

  /** The first binding of the event. */
  function FindBinding(bindings: seq<Binding>, event: int): (r: Option<Binding>)
    ensures r.None? <==> forall i :: 0 <= i < |bindings| ==> bindings[i].event != event
    ensures r.Some? ==>
              exists i :: && 0 <= i < |bindings| && bindings[i] == r.value && bindings[i].event == event
                          && forall j :: 0 <= j < i ==> bindings[j].event != event
  {
    if bindings == [] then None
    else if bindings[0].event == event then Some(bindings[0])
    else FindBinding(bindings[1..], event)
  }

  predicate Matches(n: Node, event: int, kind: Kind) { n.used && n.event == event && n.kind == kind }

  /** First node from `i` on with the event and kind, or the node count. */
  function FindNode(nodes: seq<Node>, event: int, kind: Kind, i: nat): (r: nat)
    requires i <= |nodes|
    ensures i <= r <= |nodes|
    ensures r < |nodes| ==> Matches(nodes[r], event, kind)
    ensures forall j :: i <= j < r ==> !Matches(nodes[j], event, kind)
    decreases |nodes| - i
  {
    if i == |nodes| || Matches(nodes[i], event, kind) then i else FindNode(nodes, event, kind, i + 1)
  }

  /** Controls are searched from node 1; absent means the node count. */
  function NodeFor(ui: Ui, event: int, kind: Kind): (r: nat)
    ensures r <= |ui.nodes| && (r < |ui.nodes| ==> Matches(ui.nodes[r], event, kind))
    ensures forall j :: 1 <= j < r ==> !Matches(ui.nodes[j], event, kind)
  {
    if |ui.nodes| == 0 then 0 else FindNode(ui.nodes, event, kind, 1)
  }

  // ----- what a control can show -----

  /** The slot holds a row number of a control with `rows` rows, or -1 for none. */
  ghost predicate HoldsRow(model: Model, key: string, rows: nat) {
    key in model && exists row :: model[key] == IntSlot(row) && (row == -1 || (row >= 0 && row < rows))
  }

  /** A control is readable exactly when its slot has its own type and a value it can show. */
  lemma ReadableExactly(n: Node, key: string, model: Model)
    ensures n.kind.Input? ==>
              (Readable(n, key, model) <==> key in model && exists t :: model[key] == TextSlot(t) && |t| <= 256)
    ensures n.kind.Checkbox? ==> (Readable(n, key, model) <==> key in model && exists b :: model[key] == BoolSlot(b))
    ensures n.kind.Select? || n.kind.List? ==> (Readable(n, key, model) <==> HoldsRow(model, key, n.rows))
    ensures n.kind.Table? ==> (Readable(n, key, model) <==> n.hasStorage && HoldsRow(model, key, n.rows))
  {
  }

  // ----- state slots that mirror controls -----

  function StateValue(ui: Ui, b: StateBinding): int {
    match b.mode
    case CheckedMode =>
      var n := NodeFor(ui, b.event, Checkbox);
      if n < |ui.nodes| && ui.nodes[n].checked then 1 else 0
    case IndexMode =>
      var s, l, t := NodeFor(ui, b.event, Select), NodeFor(ui, b.event, List), NodeFor(ui, b.event, Table);
      if s < |ui.nodes| then ui.nodes[s].selected
      else if l < |ui.nodes| then ui.nodes[l].selected
      else if t < |ui.nodes| && ui.nodes[t].hasStorage then ui.nodes[t].selected
      else -1
    case LengthMode =>
      var n := NodeFor(ui, b.event, Input);
      if n < |ui.nodes| then |ui.nodes[n].text| else 0
    case CountMode =>
      var l, t := NodeFor(ui, b.event, List), NodeFor(ui, b.event, Table);
      if l < |ui.nodes| then ui.nodes[l].rows
      else if t < |ui.nodes| && ui.nodes[t].hasStorage then ui.nodes[t].rows
      else 0
    case TextMode => 0
  }

  /** The first control of the kind with the event. */
  ghost predicate First(ui: Ui, event: int, kind: Kind, n: int) {
    && 1 <= n < |ui.nodes| && Matches(ui.nodes[n], event, kind)
    && forall j :: 1 <= j < n ==> !Matches(ui.nodes[j], event, kind)
  }

  ghost predicate Absent(ui: Ui, event: int, kind: Kind) {
    forall j :: 1 <= j < |ui.nodes| ==> !Matches(ui.nodes[j], event, kind)
  }

  /** A mirrored check is 1 exactly while the first checkbox of the event is checked. */
  lemma CheckIsMirrored(ui: Ui, b: StateBinding)
    requires b.mode.CheckedMode?
    ensures StateValue(ui, b) == 0 || StateValue(ui, b) == 1
    ensures forall n :: First(ui, b.event, Checkbox, n) ==> (StateValue(ui, b) == 1 <==> ui.nodes[n].checked)
    ensures Absent(ui, b.event, Checkbox) ==> StateValue(ui, b) == 0
  {
    NodeForIsFirst(ui, b.event, Checkbox);
  }

  /** A mirrored length is that of the first input of the event, or 0. */
  lemma LengthIsMirrored(ui: Ui, b: StateBinding)
    requires b.mode.LengthMode?
    ensures forall n :: First(ui, b.event, Input, n) ==> StateValue(ui, b) == |ui.nodes[n].text|
    ensures Absent(ui, b.event, Input) ==> StateValue(ui, b) == 0
  {
    NodeForIsFirst(ui, b.event, Input);
  }

  /** A mirrored index is the selection of the event's select, else of its list, else of its table,
      else -1. */
  lemma IndexIsMirrored(ui: Ui, b: StateBinding)
    requires b.mode.IndexMode?
    ensures forall n :: First(ui, b.event, Select, n) ==> StateValue(ui, b) == ui.nodes[n].selected
    ensures Absent(ui, b.event, Select) ==>
              && (forall n :: First(ui, b.event, List, n) ==> StateValue(ui, b) == ui.nodes[n].selected)
              && (Absent(ui, b.event, List) ==>
                    && (forall n :: First(ui, b.event, Table, n) ==>
                          StateValue(ui, b) == if ui.nodes[n].hasStorage then ui.nodes[n].selected else -1)
                    && (Absent(ui, b.event, Table) ==> StateValue(ui, b) == -1))
  {
    NodeForIsFirst(ui, b.event, Select);
    NodeForIsFirst(ui, b.event, List);
    NodeForIsFirst(ui, b.event, Table);
  }

  /** A mirrored count is the number of rows of the event's list, else of its table, else 0. */
  lemma CountIsMirrored(ui: Ui, b: StateBinding)
    requires b.mode.CountMode?
    ensures forall n :: First(ui, b.event, List, n) ==> StateValue(ui, b) == ui.nodes[n].rows
    ensures Absent(ui, b.event, List) ==>
              && (forall n :: First(ui, b.event, Table, n) ==>
                    StateValue(ui, b) == if ui.nodes[n].hasStorage then ui.nodes[n].rows else 0)
              && (Absent(ui, b.event, Table) ==> StateValue(ui, b) == 0)
  {
    NodeForIsFirst(ui, b.event, List);
    NodeForIsFirst(ui, b.event, Table);
  }

  lemma NodeForIsFirst(ui: Ui, event: int, kind: Kind)
    ensures forall n :: First(ui, event, kind, n) <==> n == NodeFor(ui, event, kind) && 1 <= n < |ui.nodes|
    ensures Absent(ui, event, kind) <==> NodeFor(ui, event, kind) == |ui.nodes|
  {
  }

  function SyncOne(ui: Ui, b: StateBinding): Ui
    requires Valid(ui)
  {
    if b.slot < 0 || b.slot >= STATE_SLOTS then ui
    else if b.mode.TextMode? then
      var n := NodeFor(ui, b.event, Input);
      if n < |ui.nodes| then ui.(texts := ui.texts[b.slot := ui.nodes[n].text]) else ui
    else ui.(slots := ui.slots[b.slot := StateValue(ui, b)])
  }

  function Sync(ui: Ui, event: int, pending: seq<StateBinding>): (r: Ui)
    requires Valid(ui)
    ensures Valid(r) && r.nodes == ui.nodes && r.bindings == ui.bindings && r.stateBindings == ui.stateBindings
    decreases pending
  {
    if pending == [] then ui
    else Sync(if pending[0].event == event then SyncOne(ui, pending[0]) else ui, event, pending[1..])
  }

  // ----- refreshing one control -----

  /** `copy_text` keeps what fits before the terminator. */
  function Capped(text: Text): Text { if |text| >= TEXT_CAPACITY then text[..TEXT_CAPACITY - 1] else text }

  predicate IndexFits(value: Option<int>, rows: nat) { value.Some? && -1 <= value.value < rows }

  /** The model slot holds something this control can show. */
  predicate Readable(n: Node, key: string, model: Model) {
    match n.kind
    case Input => ReadText(model, key).Some?
    case Checkbox => ReadBool(model, key).Some?
    case Select => IndexFits(ReadInt(model, key), n.rows)
    case List => IndexFits(ReadInt(model, key), n.rows)
    case Table => n.hasStorage && IndexFits(ReadInt(model, key), n.rows)
    case Other => true
  }

  function Shown(n: Node, key: string, model: Model): Node
    requires Readable(n, key, model) && (n.kind.Select? ==> n.rows == |n.options|)
  {
    match n.kind
    case Input => n.(text := Capped(ReadText(model, key).value))
    case Checkbox => n.(checked := ReadBool(model, key).value)
    case Select =>
      var value := ReadInt(model, key).value;
      n.(selected := value, text := if value < 0 then [] else n.options[value])
    case List => n.(selected := ReadInt(model, key).value)
    case Table => n.(selected := ReadInt(model, key).value)
    case Other => n
  }

  /** The `..._refresh_app_state_if_revision` helpers: None when the helper returns 0. */
  function RefreshEvent(ui: Ui, event: int, kind: Kind, model: Model): Option<Ui>
    requires Valid(ui)
  {
    var i := NodeFor(ui, event, kind);
    var binding := FindBinding(ui.bindings, event);
    if i >= |ui.nodes| || binding.None? || binding.value.kind != kind then None
    else if !Readable(ui.nodes[i], binding.value.key, model) then None
    else
      var updated := ui.(nodes := ui.nodes[i := Shown(ui.nodes[i], binding.value.key, model)]);
      Some(Sync(updated, event, ui.stateBindings))
  }

  /** A used control whose event is bound to a slot of its own kind. */
  predicate Bound(ui: Ui, i: nat)
    requires i < |ui.nodes|
  {
    var n := ui.nodes[i];
    var binding := FindBinding(ui.bindings, n.event);
    n.used && !n.kind.Other? && binding.Some? && binding.value.kind == n.kind
  }

  function KeyOf(ui: Ui, i: nat): string
    requires i < |ui.nodes| && Bound(ui, i)
  {
    FindBinding(ui.bindings, ui.nodes[i].event).value.key
  }

  // ----- the two passes -----

  predicate Preflight(ui: Ui, model: Model, i: nat)
    requires 1 <= i
    decreases |ui.nodes| - i
  {
    i >= |ui.nodes| || ((Bound(ui, i) ==> Readable(ui.nodes[i], KeyOf(ui, i), model)) && Preflight(ui, model, i + 1))
  }

  /** The mutating pass from node `i` on, with early return. */
  function RefreshFrom(ui: Ui, model: Model, i: nat): (r: (Ui, bool))
    requires Valid(ui) && 1 <= i
    ensures Valid(r.0)
    decreases |ui.nodes| - i
  {
    if i >= |ui.nodes| then (ui, true)
    else if !Bound(ui, i) then RefreshFrom(ui, model, i + 1)
    else
      match RefreshEvent(ui, ui.nodes[i].event, ui.nodes[i].kind, model)
      case None => (ui, false)
      case Some(next) => RefreshFrom(next, model, i + 1)
  }

  function RefreshBindings(ui: Ui, model: Model, revision: nat, expected: nat): (Ui, bool)
    requires Valid(ui)
  {
    if revision != expected || !Preflight(ui, model, 1) then (ui, false) else RefreshFrom(ui, model, 1)
  }

  /** The retained state that the passes run over. */
  class Runtime {
    var ui: Ui

    constructor (ui: Ui)
      ensures this.ui == ui
    {
      this.ui := ui;
    }

    method RunPreflight(model: Model, revision: nat, expected: nat) returns (ok: bool)
      ensures ok == (revision == expected && Preflight(ui, model, 1))
    {
      if revision != expected { return false; }
      var i := 1;
      while i < |ui.nodes|
        invariant 1 <= i && Preflight(ui, model, 1) == Preflight(ui, model, i)
      {
        if Bound(ui, i) && !Readable(ui.nodes[i], KeyOf(ui, i), model) { return false; }
        i := i + 1;
      }
      ok := true;
    }

    method SyncEvent(event: int)
      requires Valid(ui)
      modifies this
      ensures ui == Sync(old(ui), event, old(ui).stateBindings)
    {
      var list := ui.stateBindings;
      for k := 0 to |list|
        invariant Valid(ui) && Sync(old(ui), event, list) == Sync(ui, event, list[k..])
      {
        assert list[k..][1..] == list[k + 1..];
        if list[k].event == event { ui := SyncOne(ui, list[k]); }
      }
    }

    method Refresh(event: int, kind: Kind, model: Model) returns (ok: bool)
      requires Valid(ui)
      modifies this
      ensures ok == RefreshEvent(old(ui), event, kind, model).Some?
      ensures ui == if ok then RefreshEvent(old(ui), event, kind, model).value else old(ui)
    {
      var i := NodeFor(ui, event, kind);
      var binding := FindBinding(ui.bindings, event);
      if i >= |ui.nodes| || binding.None? || binding.value.kind != kind { return false; }
      if !Readable(ui.nodes[i], binding.value.key, model) { return false; }
      ui := ui.(nodes := ui.nodes[i := Shown(ui.nodes[i], binding.value.key, model)]);
      SyncEvent(event);
      ok := true;
    }

    /** Refresh every bound control, or nothing. */
    method RefreshAll(model: Model, revision: nat, expected: nat) returns (ok: bool)
      requires Valid(ui)
      modifies this
      ensures (ui, ok) == RefreshBindings(old(ui), model, revision, expected)
    {
      var ready := RunPreflight(model, revision, expected);
      if !ready { return false; }
      var i := 1;
      while i < |ui.nodes|
        invariant 1 <= i && Valid(ui) && |ui.nodes| == |old(ui).nodes|
        invariant RefreshFrom(old(ui), model, 1) == RefreshFrom(ui, model, i)
      {
        if Bound(ui, i) {
          var done := Refresh(ui.nodes[i].event, ui.nodes[i].kind, model);
          if !done { return false; }
        }
        i := i + 1;
      }
      ok := true;
    }
  }

  // ----- the mutating pass cannot fail -----

  /** Everything a refresh consults is the same: it changes only texts, checks and selections. */
  ghost predicate SameShape(a: Ui, b: Ui) {
    && a.bindings == b.bindings && a.stateBindings == b.stateBindings && |a.nodes| == |b.nodes|
    && forall i :: 0 <= i < |a.nodes| ==> SameNode(a.nodes[i], b.nodes[i])
  }

  predicate SameNode(a: Node, b: Node) {
    && a.used == b.used && a.kind == b.kind && a.event == b.event
    && a.options == b.options && a.rows == b.rows && a.hasStorage == b.hasStorage
  }

  lemma {:induction false} PreflightChecksEach(ui: Ui, model: Model, i: nat, j: nat)
    requires 1 <= i <= j < |ui.nodes| && Preflight(ui, model, i) && Bound(ui, j)
    ensures Readable(ui.nodes[j], KeyOf(ui, j), model)
    decreases j - i
  {
    if i < j { PreflightChecksEach(ui, model, i + 1, j); }
  }

  /** Refreshing one bound control succeeds after a preflight, even if another control of the same
      kind shares its event, and keeps the shape. */
  lemma RefreshSucceeds(start: Ui, ui: Ui, model: Model, i: nat)
    requires Valid(ui) && Valid(start) && SameShape(start, ui) && Preflight(start, model, 1)
    requires 1 <= i < |ui.nodes| && Bound(ui, i)
    ensures var next := RefreshEvent(ui, ui.nodes[i].event, ui.nodes[i].kind, model);
            && next.Some? && SameShape(start, next.value)
            && var first := NodeFor(ui, ui.nodes[i].event, ui.nodes[i].kind);
               && first < |ui.nodes| && Bound(ui, first) && Readable(ui.nodes[first], KeyOf(ui, i), model)
               && next.value.nodes == ui.nodes[first := Shown(ui.nodes[first], KeyOf(ui, i), model)]
  {
    var event, kind := ui.nodes[i].event, ui.nodes[i].kind;
    var first := NodeFor(ui, event, kind);
    assert first <= i;
    assert Bound(start, first) && KeyOf(start, first) == KeyOf(ui, i);
    PreflightChecksEach(start, model, 1, first);
  }

  lemma {:induction false} PassSucceeds(start: Ui, ui: Ui, model: Model, i: nat)
    requires Valid(ui) && Valid(start) && SameShape(start, ui) && Preflight(start, model, 1) && 1 <= i
    ensures RefreshFrom(ui, model, i).1 && SameShape(start, RefreshFrom(ui, model, i).0)
    decreases |ui.nodes| - i
  {
    if i < |ui.nodes| {
      if Bound(ui, i) {
        RefreshSucceeds(start, ui, model, i);
        var next := RefreshEvent(ui, ui.nodes[i].event, ui.nodes[i].kind, model).value;
        PassSucceeds(start, next, model, i + 1);
      } else {
        PassSucceeds(start, ui, model, i + 1);
      }
    }
  }

  /** All or nothing: the call succeeds exactly when the revision is current and every bound control
      can show its slot, and otherwise it leaves every node and state slot as it was. */
  lemma RefreshIsAllOrNothing(ui: Ui, model: Model, revision: nat, expected: nat)
    requires Valid(ui)
    ensures var (after, ok) := RefreshBindings(ui, model, revision, expected);
            && (ok <==> revision == expected && Preflight(ui, model, 1))
            && (!ok ==> after == ui)
            && SameShape(ui, after)
  {
    if revision == expected && Preflight(ui, model, 1) { PassSucceeds(ui, ui, model, 1); }
  }

  // ----- afterwards the controls show the model -----

  /** The control found by its own event and kind is the control itself. */
  predicate IsFirst(ui: Ui, i: nat)
    requires i < |ui.nodes|
  {
    NodeFor(ui, ui.nodes[i].event, ui.nodes[i].kind) == i
  }

  /** As much of the text as 255 bytes hold. */
  predicate CopiedFrom(shown: Text, text: Text) { shown <= text && |shown| == Min(|text|, 255) }

  /** The control shows its model slot, texts up to the 255-byte cap. */
  ghost predicate Shows(n: Node, key: string, model: Model) {
    match n.kind
    case Input => ReadText(model, key).Some? && CopiedFrom(n.text, ReadText(model, key).value)
    case Checkbox => ReadBool(model, key) == Some(n.checked)
    case Select =>
      && ReadInt(model, key) == Some(n.selected) && -1 <= n.selected < |n.options|
      && n.text == if n.selected < 0 then [] else n.options[n.selected]
    case List => ReadInt(model, key) == Some(n.selected)
    case Table => ReadInt(model, key) == Some(n.selected)
    case Other => true
  }

  /** Bound controls before `i` show the model; controls that no lookup reaches are untouched. */
  ghost predicate Progress(start: Ui, ui: Ui, model: Model, i: nat)
    requires |start.nodes| == |ui.nodes|
  {
    && (forall j :: 1 <= j < i && j < |ui.nodes| && Bound(ui, j) && IsFirst(ui, j) ==>
          Shows(ui.nodes[j], KeyOf(ui, j), model))
    && (forall j :: 0 <= j < |ui.nodes| && !(j >= 1 && Bound(ui, j) && IsFirst(ui, j)) ==>
          ui.nodes[j] == start.nodes[j])
  }

  lemma {:induction false} ShapeKeepsSearch(a: Ui, b: Ui, event: int, kind: Kind, i: nat)
    requires SameShape(a, b) && i <= |a.nodes|
    ensures FindNode(a.nodes, event, kind, i) == FindNode(b.nodes, event, kind, i)
    decreases |a.nodes| - i
  {
    if i < |a.nodes| { ShapeKeepsSearch(a, b, event, kind, i + 1); }
  }

  lemma ShapeKeepsBound(a: Ui, b: Ui, i: nat)
    requires SameShape(a, b) && i < |a.nodes|
    ensures Bound(a, i) == Bound(b, i) && (Bound(a, i) ==> KeyOf(a, i) == KeyOf(b, i))
    ensures IsFirst(a, i) == IsFirst(b, i)
  {
    ShapeKeepsSearch(a, b, a.nodes[i].event, a.nodes[i].kind, 1);
  }

  lemma RefreshProgresses(start: Ui, ui: Ui, model: Model, i: nat)
    requires Valid(ui) && Valid(start) && SameShape(start, ui) && Preflight(start, model, 1)
    requires 1 <= i < |ui.nodes| && Bound(ui, i) && Progress(start, ui, model, i)
    ensures var next := RefreshEvent(ui, ui.nodes[i].event, ui.nodes[i].kind, model);
            next.Some? && SameShape(start, next.value) && Progress(start, next.value, model, i + 1)
  {
    RefreshSucceeds(start, ui, model, i);
    var next := RefreshEvent(ui, ui.nodes[i].event, ui.nodes[i].kind, model).value;
    var first := NodeFor(ui, ui.nodes[i].event, ui.nodes[i].kind);
    assert IsFirst(ui, first) && SameShape(ui, next);
    forall j | 0 <= j < |next.nodes|
      ensures 1 <= j < i + 1 && Bound(next, j) && IsFirst(next, j) ==> Shows(next.nodes[j], KeyOf(next, j), model)
      ensures !(j >= 1 && Bound(next, j) && IsFirst(next, j)) ==> next.nodes[j] == start.nodes[j]
    {
      ShapeKeepsBound(ui, next, j);
    }
  }

  lemma {:induction false} PassProgresses(start: Ui, ui: Ui, model: Model, i: nat)
    requires Valid(ui) && Valid(start) && SameShape(start, ui) && Preflight(start, model, 1)
    requires 1 <= i && Progress(start, ui, model, i)
    ensures var end := RefreshFrom(ui, model, i).0;
            |end.nodes| == |start.nodes| && Progress(start, end, model, |start.nodes|)
    decreases |ui.nodes| - i
  {
    if i >= |ui.nodes| {
      ProgressWidens(start, ui, model, i, |start.nodes|);
    } else if Bound(ui, i) {
      RefreshProgresses(start, ui, model, i);
      var next := RefreshEvent(ui, ui.nodes[i].event, ui.nodes[i].kind, model).value;
      PassProgresses(start, next, model, i + 1);
    } else {
      ProgressWidens(start, ui, model, i, i + 1);
      PassProgresses(start, ui, model, i + 1);
    }
  }

  lemma ProgressWidens(start: Ui, ui: Ui, model: Model, i: nat, k: nat)
    requires |start.nodes| == |ui.nodes| && Progress(start, ui, model, i)
    requires forall j :: i <= j < k && j < |ui.nodes| ==> !Bound(ui, j)
    ensures Progress(start, ui, model, k)
  {
  }

  /** After a successful refresh every bound control that is first with its event and kind shows its
      model slot, and every other node is exactly what it was. */
  lemma RefreshShowsModel(ui: Ui, model: Model, revision: nat, expected: nat)
    requires Valid(ui) && RefreshBindings(ui, model, revision, expected).1
    ensures var after := RefreshBindings(ui, model, revision, expected).0;
            |after.nodes| == |ui.nodes| && Progress(ui, after, model, |ui.nodes|)
  {
    PassProgresses(ui, ui, model, 1);
  }

  /** No two used controls share an event and a kind. */
  ghost predicate UniqueEvents(ui: Ui) {
    forall i, j :: 1 <= i < j < |ui.nodes| ==> !(ui.nodes[i].used && Matches(ui.nodes[j], ui.nodes[i].event, ui.nodes[i].kind))
  }

  /** With unique events every bound control shows its model slot. */
  lemma UniqueEventsShowModel(ui: Ui, model: Model, revision: nat, expected: nat, i: nat)
    requires Valid(ui) && UniqueEvents(ui) && RefreshBindings(ui, model, revision, expected).1
    requires 1 <= i < |ui.nodes| && Bound(ui, i)
    ensures var after := RefreshBindings(ui, model, revision, expected).0;
            |after.nodes| == |ui.nodes| && Shows(after.nodes[i], KeyOf(ui, i), model)
  {
    RefreshShowsModel(ui, model, revision, expected);
    RefreshIsAllOrNothing(ui, model, revision, expected);
    var after := RefreshBindings(ui, model, revision, expected).0;
    var first := NodeFor(ui, ui.nodes[i].event, ui.nodes[i].kind);
    assert first == i;
    ShapeKeepsBound(ui, after, i);
  }

  // ----- afterwards the state slots mirror the controls -----

  /** The two bindings write the same number slot or the same text slot. */
  predicate WriteSame(a: StateBinding, b: StateBinding) { a.slot == b.slot && a.mode.TextMode? == b.mode.TextMode? }

  predicate InRange(b: StateBinding) { 0 <= b.slot < STATE_SLOTS }

  ghost predicate Sole(list: seq<StateBinding>, k: nat) {
    && k < |list| && InRange(list[k])
    && forall j :: 0 <= j < |list| && j != k ==> !WriteSame(list[j], list[k])
  }

  /** The slot holds what the binding says of the controls. */
  ghost predicate Mirrored(ui: Ui, b: StateBinding)
    requires Valid(ui) && InRange(b)
  {
    if b.mode.TextMode? then
      var n := NodeFor(ui, b.event, Input);
      n < |ui.nodes| ==> ui.texts[b.slot] == ui.nodes[n].text
    else ui.slots[b.slot] == StateValue(ui, b)
  }

  ghost predicate SlotKept(a: Ui, c: Ui, b: StateBinding)
    requires Valid(a) && Valid(c) && InRange(b)
  {
    if b.mode.TextMode? then a.texts[b.slot] == c.texts[b.slot] else a.slots[b.slot] == c.slots[b.slot]
  }

  lemma {:induction false} SyncKeeps(ui: Ui, event: int, pending: seq<StateBinding>, b: StateBinding)
    requires Valid(ui) && InRange(b)
    requires forall j :: 0 <= j < |pending| && pending[j].event == event ==> !WriteSame(pending[j], b)
    ensures SlotKept(ui, Sync(ui, event, pending), b)
    decreases pending
  {
    if pending != [] {
      SyncKeeps(if pending[0].event == event then SyncOne(ui, pending[0]) else ui, event, pending[1..], b);
    }
  }

  lemma {:induction false} SyncMirrors(ui: Ui, event: int, pending: seq<StateBinding>, k: nat)
    requires Valid(ui) && Sole(pending, k) && pending[k].event == event
    ensures Mirrored(Sync(ui, event, pending), pending[k])
    decreases pending
  {
    var next := if pending[0].event == event then SyncOne(ui, pending[0]) else ui;
    if k == 0 {
      SyncKeeps(next, event, pending[1..], pending[0]);
    } else {
      SyncMirrors(next, event, pending[1..], k - 1);
    }
  }

  /** A refresh of `event` brings its bindings up to date and leaves those of other events so. */
  lemma RefreshMirrors(ui: Ui, event: int, kind: Kind, model: Model, k: nat)
    requires Valid(ui) && Sole(ui.stateBindings, k) && RefreshEvent(ui, event, kind, model).Some?
    requires ui.stateBindings[k].event == event || Mirrored(ui, ui.stateBindings[k])
    ensures var next := RefreshEvent(ui, event, kind, model).value;
            Valid(next) && next.stateBindings == ui.stateBindings && Mirrored(next, ui.stateBindings[k])
  {
    var b := ui.stateBindings[k];
    var i := NodeFor(ui, event, kind);
    var key := FindBinding(ui.bindings, event).value.key;
    var updated := ui.(nodes := ui.nodes[i := Shown(ui.nodes[i], key, model)]);
    var next := Sync(updated, event, ui.stateBindings);
    if b.event == event {
      SyncMirrors(updated, event, ui.stateBindings, k);
    } else {
      assert forall j :: 0 <= j < |ui.stateBindings| && ui.stateBindings[j].event == event ==> j != k;
      SyncKeeps(updated, event, ui.stateBindings, b);
      MirrorIgnoresOthers(ui, next, b, i);
    }
  }

  /** A binding stays up to date when only a node of another event changes. */
  lemma MirrorIgnoresOthers(ui: Ui, next: Ui, b: StateBinding, changed: nat)
    requires Valid(ui) && Valid(next) && InRange(b) && SlotKept(ui, next, b) && Mirrored(ui, b)
    requires SameShape(ui, next) && changed < |ui.nodes| && ui.nodes[changed].event != b.event
    requires forall j :: 0 <= j < |ui.nodes| && j != changed ==> ui.nodes[j] == next.nodes[j]
    ensures Mirrored(next, b)
  {
    OtherNodesKept(ui, next, b.event, changed);
  }

  /** Searches for another event find the same nodes with the same contents. */
  lemma OtherNodesKept(ui: Ui, next: Ui, event: int, changed: nat)
    requires SameShape(ui, next) && changed < |ui.nodes| && ui.nodes[changed].event != event
    requires forall j :: 0 <= j < |ui.nodes| && j != changed ==> ui.nodes[j] == next.nodes[j]
    ensures forall kind :: NodeFor(ui, event, kind) == NodeFor(next, event, kind)
    ensures forall kind :: NodeFor(ui, event, kind) < |ui.nodes| ==> NodeFor(ui, event, kind) != changed
  {
    forall kind ensures NodeFor(ui, event, kind) == NodeFor(next, event, kind) {
      ShapeKeepsSearch(ui, next, event, kind, 1);
    }
  }

  /** Some bound control from `i` on has the event. */
  ghost predicate Refreshed(ui: Ui, event: int, i: nat) {
    exists j :: i <= j < |ui.nodes| && Bound(ui, j) && ui.nodes[j].event == event
  }

  lemma ShapeKeepsRefreshed(a: Ui, b: Ui, event: int, i: nat)
    requires SameShape(a, b)
    ensures Refreshed(a, event, i) ==> Refreshed(b, event, i)
  {
    if Refreshed(a, event, i) {
      var j :| i <= j < |a.nodes| && Bound(a, j) && a.nodes[j].event == event;
      ShapeKeepsBound(a, b, j);
    }
  }

  lemma {:induction false} PassMirrors(start: Ui, ui: Ui, model: Model, i: nat, k: nat)
    requires Valid(ui) && Valid(start) && SameShape(start, ui) && Preflight(start, model, 1) && 1 <= i
    requires Sole(ui.stateBindings, k)
    requires Mirrored(ui, ui.stateBindings[k]) || Refreshed(ui, ui.stateBindings[k].event, i)
    ensures var end := RefreshFrom(ui, model, i).0;
            end.stateBindings == ui.stateBindings && Mirrored(end, ui.stateBindings[k])
    decreases |ui.nodes| - i
  {
    if i < |ui.nodes| {
      var next := ui;
      if Bound(ui, i) {
        RefreshSucceeds(start, ui, model, i);
        MirrorsNext(start, ui, model, i, k);
        next := RefreshEvent(ui, ui.nodes[i].event, ui.nodes[i].kind, model).value;
      }
      PassMirrors(start, next, model, i + 1, k);
    }
  }

  /** After refreshing control `i` the binding is up to date, or its control is still to come. */
  lemma MirrorsNext(start: Ui, ui: Ui, model: Model, i: nat, k: nat)
    requires Valid(ui) && Valid(start) && SameShape(start, ui) && Preflight(start, model, 1)
    requires 1 <= i < |ui.nodes| && Bound(ui, i) && Sole(ui.stateBindings, k)
    requires Mirrored(ui, ui.stateBindings[k]) || Refreshed(ui, ui.stateBindings[k].event, i)
    ensures var next := RefreshEvent(ui, ui.nodes[i].event, ui.nodes[i].kind, model);
            && next.Some? && Valid(next.value) && next.value.stateBindings == ui.stateBindings
            && (Mirrored(next.value, ui.stateBindings[k])
                || Refreshed(next.value, ui.stateBindings[k].event, i + 1))
  {
    RefreshSucceeds(start, ui, model, i);
    var here, event := ui.nodes[i].event, ui.stateBindings[k].event;
    if here == event || Mirrored(ui, ui.stateBindings[k]) {
      RefreshMirrors(ui, here, ui.nodes[i].kind, model, k);
    } else {
      ShapeKeepsRefreshed(ui, RefreshEvent(ui, here, ui.nodes[i].kind, model).value, event, i + 1);
    }
  }

  lemma {:induction false} PassKeepsSlots(start: Ui, ui: Ui, model: Model, i: nat, b: StateBinding)
    requires Valid(ui) && Valid(start) && SameShape(start, ui) && Preflight(start, model, 1) && 1 <= i
    requires InRange(b)
    requires forall j :: 0 <= j < |ui.stateBindings| && WriteSame(ui.stateBindings[j], b) ==>
               !Refreshed(ui, ui.stateBindings[j].event, i)
    ensures SlotKept(ui, RefreshFrom(ui, model, i).0, b)
    decreases |ui.nodes| - i
  {
    if i < |ui.nodes| {
      var next := ui;
      if Bound(ui, i) {
        RefreshSucceeds(start, ui, model, i);
        var event := ui.nodes[i].event;
        next := RefreshEvent(ui, event, ui.nodes[i].kind, model).value;
        var first := NodeFor(ui, event, ui.nodes[i].kind);
        SyncKeeps(ui.(nodes := ui.nodes[first := Shown(ui.nodes[first], KeyOf(ui, i), model)]),
                  event, ui.stateBindings, b);
      }
      forall j | 0 <= j < |ui.stateBindings| && WriteSame(ui.stateBindings[j], b)
        ensures !Refreshed(next, ui.stateBindings[j].event, i + 1)
      {
        ShapeKeepsRefreshed(next, ui, ui.stateBindings[j].event, i + 1);
      }
      PassKeepsSlots(start, next, model, i + 1, b);
    }
  }

  /** After a success a slot with one binding mirrors the refreshed control, and a slot whose bindings
      concern no refreshed control is what it was. */
  lemma RefreshMirrorsState(ui: Ui, model: Model, revision: nat, expected: nat, k: nat)
    requires Valid(ui) && RefreshBindings(ui, model, revision, expected).1 && Sole(ui.stateBindings, k)
    ensures var after, b := RefreshBindings(ui, model, revision, expected).0, ui.stateBindings[k];
            && Valid(after)
            && (if Refreshed(ui, b.event, 1) then Mirrored(after, b) else SlotKept(ui, after, b))
  {
    var b := ui.stateBindings[k];
    if Refreshed(ui, b.event, 1) { PassMirrors(ui, ui, model, 1, k); } else { PassKeepsSlots(ui, ui, model, 1, b); }
  }
}
