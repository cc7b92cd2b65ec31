/** PE subsystem selection: does the entry point reach an unresolved windowing import? */
module GuiReachability {
  import opened Common
  import opened Jir
  import opened Dominators
  import opened JirVerifier

  /** A function of one of the modules. */
  datatype Node = Node(unit: nat, index: nat)

  /** The windowing functions: windows and their message loops, in both interfaces, and the dialogs. */
  const GUI_IMPORTS: set<string> := {
    "jadren_win32_desktop_run", "jadren_win32_window_begin", "jadren_win32_window_run",
    "ui_window", "ui_run", "ui_app_begin", "ui_app_run",
    "ui_file_open_exact", "ui_directory_open_exact", "ui_file_open_extension_exact",
    "ui_file_save_exact", "ui_file_save_suggested_exact", "ui_file_save_extension_exact"
  }

  /** The comparison the worklist makes. */
  predicate IsGuiName(name: string) {
    || name == "jadren_win32_desktop_run"
    || name == "jadren_win32_window_begin"
    || name == "jadren_win32_window_run"
    || name == "ui_window"
    || name == "ui_run"
    || name == "ui_app_begin"
    || name == "ui_app_run"
    || name == "ui_file_open_exact"
    || name == "ui_directory_open_exact"
    || name == "ui_file_open_extension_exact"
    || name == "ui_file_save_exact"
    || name == "ui_file_save_suggested_exact"
    || name == "ui_file_save_extension_exact"
  }

  predicate InRange(modules: seq<Module>, n: Node) {
    n.unit < |modules| && n.index < |modules[n.unit].functions|
  }

  function FunctionOf(modules: seq<Module>, n: Node): Function
    requires InRange(modules, n)
  {
    modules[n.unit].functions[n.index]
  }

  // ----- import resolution -----

  predicate Exports(modules: seq<Module>, n: Node, name: string) {
    InRange(modules, n) && FunctionOf(modules, n).linkage.Export? && FunctionOf(modules, n).name == name
  }

  predicate NotAfter(a: Node, b: Node) { a.unit < b.unit || (a.unit == b.unit && a.index <= b.index) }

  /** The definition an import resolves to: of several exports of a name, the last one. */
  ghost predicate Definition(modules: seq<Module>, name: string, n: Node) {
    && Exports(modules, n, name)
    && forall other :: Exports(modules, other, name) ==> NotAfter(other, n)
  }

  function ExportsOf(functions: seq<Function>, unit: nat, k: nat): map<string, Node>
    requires k <= |functions|
  {
    if k == 0 then map[]
    else
      var before := ExportsOf(functions, unit, k - 1);
      if functions[k - 1].linkage.Export? then before[functions[k - 1].name := Node(unit, k - 1)] else before
  }

  /** The export table over the first `k` modules, built in order. */
  function ExportTable(modules: seq<Module>, k: nat): map<string, Node>
    requires k <= |modules|
  {
    if k == 0 then map[]
    else ExportTable(modules, k - 1) + ExportsOf(modules[k - 1].functions, k - 1, |modules[k - 1].functions|)
  }

  lemma {:induction false} ExportsOfIsLast(modules: seq<Module>, unit: nat, k: nat, name: string)
    requires unit < |modules| && k <= |modules[unit].functions|
    ensures var table := ExportsOf(modules[unit].functions, unit, k);
            if name in table then
              && Exports(modules, table[name], name) && table[name].unit == unit && table[name].index < k
              && forall i :: 0 <= i < k && Exports(modules, Node(unit, i), name) ==> i <= table[name].index
            else forall i :: 0 <= i < k ==> !Exports(modules, Node(unit, i), name)
  {
    if k > 0 { ExportsOfIsLast(modules, unit, k - 1, name); }
  }

  /** The table holds exactly the exported names, each at its last exporting definition. */
  lemma {:induction false} ExportTableIsLast(modules: seq<Module>, k: nat, name: string)
    requires k <= |modules|
    ensures var table := ExportTable(modules, k);
            if name in table then
              && Exports(modules, table[name], name) && table[name].unit < k
              && forall n: Node :: n.unit < k && Exports(modules, n, name) ==> NotAfter(n, table[name])
            else forall n: Node :: n.unit < k ==> !Exports(modules, n, name)
  {
    if k > 0 {
      ExportTableIsLast(modules, k - 1, name);
      ExportsOfIsLast(modules, k - 1, |modules[k - 1].functions|, name);
      forall n: Node | n.unit == k - 1 && Exports(modules, n, name)
        ensures name in ExportsOf(modules[k - 1].functions, k - 1, |modules[k - 1].functions|)
        ensures NotAfter(n, ExportTable(modules, k)[name])
      {
        assert n == Node(k - 1, n.index);
      }
    }
  }

  lemma ResolvesToDefinition(modules: seq<Module>, name: string)
    ensures var table := ExportTable(modules, |modules|);
            && (name in table ==> Definition(modules, name, table[name]))
            && (name !in table ==> forall n :: !Exports(modules, n, name))
            && (forall n :: Definition(modules, name, n) ==> name in table && table[name] == n)
  {
    ExportTableIsLast(modules, |modules|, name);
  }

  // ----- the call graph -----

  /** The function an instruction calls or takes the address of. */
  function Target(kind: InstructionKind): Option<FunctionId> {
    match kind
    case Call(callee, _) => Some(callee)
    case FunctionAddress(taken) => Some(taken)
    case _ => None
  }

  /** The instruction calls `target` or takes its address. */
  predicate Names(kind: InstructionKind, target: FunctionId) {
    kind == FunctionAddress(target) || (kind.Call? && kind.callee == target)
  }

  lemma TargetIsNamed(kind: InstructionKind, target: FunctionId)
    ensures Target(kind) == Some(target) <==> Names(kind, target)
  {
  }

  predicate MentionsAt(f: Function, b: nat, i: nat, target: FunctionId) {
    b < |f.blocks| && i < |f.blocks[b].instructions| && Names(f.blocks[b].instructions[i].kind, target)
  }

  /** A function is called, or its address is taken. */
  ghost predicate Mentions(f: Function, target: FunctionId) {
    exists b, i :: MentionsAt(f, b, i, target)
  }

  /** Calls and taken addresses name functions of the module. */
  ghost predicate CallsResolve(m: Module) {
    forall j, target: FunctionId :: 0 <= j < |m.functions| && Mentions(m.functions[j], target) ==> target < |m.functions|
  }

  /** The verifier has checked that. */
  lemma VerifiedCallsResolve(m: Module, tables: seq<Table>)
    requires Verified(m, tables)
    ensures CallsResolve(m)
  {
    forall j, target: FunctionId | 0 <= j < |m.functions| && Mentions(m.functions[j], target)
      ensures target < |m.functions|
    {
      var f := m.functions[j];
      var b: nat, i: nat :| MentionsAt(f, b, i, target);
      assert FunctionVerified(m, f, tables[j]) && BlockVerified(m, f, tables[j], b);
      assert InstructionVerified(m, f, tables[j], f.blocks[b].instructions[i], UseSite(b, i));
    }
  }

  ghost predicate Edge(modules: seq<Module>, a: Node, b: Node) {
    && InRange(modules, a)
    && if FunctionOf(modules, a).linkage.Import? then Definition(modules, FunctionOf(modules, a).name, b)
       else b.unit == a.unit && Mentions(FunctionOf(modules, a), b.index)
  }

  /** An import of a windowing function that no module defines. */
  ghost predicate IsGuiImport(modules: seq<Module>, n: Node) {
    && InRange(modules, n) && FunctionOf(modules, n).linkage.Import?
    && FunctionOf(modules, n).name in GUI_IMPORTS
    && forall other :: !Exports(modules, other, FunctionOf(modules, n).name)
  }

  ghost predicate PathEdge(modules: seq<Module>, p: seq<Node>, i: nat)
    requires i + 1 < |p|
  {
    Edge(modules, p[i], p[i + 1])
  }

  ghost predicate Path(modules: seq<Module>, from: Node, to: Node, p: seq<Node>) {
    && |p| > 0 && p[0] == from && p[|p| - 1] == to
    && forall i :: 0 <= i < |p| - 1 ==> PathEdge(modules, p, i)
  }

  ghost predicate Reaches(modules: seq<Module>, from: Node, to: Node) {
    exists p :: Path(modules, from, to, p)
  }

  /** The entry module's entry point reaches a windowing import. */
  ghost predicate EntryReachesGui(modules: seq<Module>, entryModule: nat)
    requires entryModule < |modules|
  {
    var entry := EntryIndex(modules[entryModule].functions);
    && entry < |modules[entryModule].functions|
    && exists n :: Reaches(modules, Node(entryModule, entry), n) && IsGuiImport(modules, n)
  }

  lemma ReachesExtends(modules: seq<Module>, from: Node, a: Node, b: Node)
    requires Reaches(modules, from, a) && Edge(modules, a, b)
    ensures Reaches(modules, from, b)
  {
    var p :| Path(modules, from, a, p);
    var q := p + [b];
    assert forall i :: 0 <= i < |q| - 1 ==> PathEdge(modules, q, i) by {
      forall i | 0 <= i < |q| - 1 ensures PathEdge(modules, q, i) {
        if i < |p| - 1 { assert PathEdge(modules, p, i); }
      }
    }
    assert Path(modules, from, b, q);
  }

  lemma {:induction false} ClosedContainsPath(modules: seq<Module>, closed: set<Node>, from: Node, p: seq<Node>, k: nat)
    requires from in closed && k < |p| && Path(modules, from, p[|p| - 1], p)
    requires forall a, b :: a in closed && Edge(modules, a, b) ==> b in closed
    ensures p[k] in closed
  {
    if k > 0 {
      ClosedContainsPath(modules, closed, from, p, k - 1);
      assert PathEdge(modules, p, k - 1);
    }
  }

  // ----- the worklist -----

  function AllNodes(modules: seq<Module>): (s: set<Node>)
    ensures forall n :: n in s <==> InRange(modules, n)
  {
    set i, j | 0 <= i < |modules| && 0 <= j < |modules[i].functions| :: Node(i, j)
  }

  ghost predicate MentionedBefore(f: Function, b: nat, k: nat, target: FunctionId) {
    exists i :: 0 <= i < k && MentionsAt(f, b, i, target)
  }

  method PushBlock(pending: seq<Node>, unit: nat, f: Function, b: nat) returns (r: seq<Node>)
    requires b < |f.blocks|
    ensures forall n :: n in r <==>
              n in pending || (n.unit == unit && MentionedBefore(f, b, |f.blocks[b].instructions|, n.index))
  {
    r := pending;
    var instructions := f.blocks[b].instructions;
    for k := 0 to |instructions|
      invariant forall n :: n in r <==> n in pending || (n.unit == unit && MentionedBefore(f, b, k, n.index))
    {
      ghost var before := r;
      var target := Target(instructions[k].kind);
      if target.Some? { r := r + [Node(unit, target.value)]; }
      forall n ensures n in r <==> n in pending || (n.unit == unit && MentionedBefore(f, b, k + 1, n.index)) {
        assert n in r <==> n in before || (n.unit == unit && MentionsAt(f, b, k, n.index));
        assert MentionedBefore(f, b, k + 1, n.index) <==>
               MentionedBefore(f, b, k, n.index) || MentionsAt(f, b, k, n.index);
      }
    }
  }

  /** Push every function that `f` calls or takes the address of. */
  method PushMentioned(pending: seq<Node>, unit: nat, f: Function) returns (r: seq<Node>)
    ensures forall n :: n in r <==> n in pending || (n.unit == unit && Mentions(f, n.index))
  {
    r := pending;
    for b := 0 to |f.blocks|
      invariant forall n :: n in r <==>
                  n in pending || (n.unit == unit && exists b', i :: 0 <= b' < b && MentionsAt(f, b', i, n.index))
    {
      r := PushBlock(r, unit, f, b);
    }
  }

  /** Push the successors of a node, or report that it is a windowing import. */
  method Expand(modules: seq<Module>, exports: map<string, Node>, pending: seq<Node>, n: Node)
    returns (r: seq<Node>, found: bool)
    requires InRange(modules, n) && exports == ExportTable(modules, |modules|)
    requires forall i :: 0 <= i < |modules| ==> CallsResolve(modules[i])
    ensures found <==> IsGuiImport(modules, n)
    ensures !found ==> forall x :: x in r <==> x in pending || Edge(modules, n, x)
    ensures forall x :: Edge(modules, n, x) ==> InRange(modules, x)
  {
    r, found := pending, false;
    var f := FunctionOf(modules, n);
    if f.linkage.Import? {
      ResolvesToDefinition(modules, f.name);
      if f.name in exports {
        r := pending + [exports[f.name]];
      } else {
        found := IsGuiName(f.name);
      }
    } else {
      r := PushMentioned(pending, n.unit, f);
    }
  }

  /** True exactly when a windowing import that no module defines is reachable from the exported
      entry point through calls, taken addresses and import resolution. */
  method RequiresGui(modules: seq<Module>, entryModule: nat) returns (gui: bool)
    requires entryModule < |modules| && forall i :: 0 <= i < |modules| ==> CallsResolve(modules[i])
    ensures gui <==> EntryReachesGui(modules, entryModule)
  {
    var exports := ExportTable(modules, |modules|);
    var entry := EntryIndex(modules[entryModule].functions);
    if entry == |modules[entryModule].functions| { return false; }
    var root := Node(entryModule, entry);
    var pending: seq<Node>, visited: set<Node> := [root], {};
    assert Path(modules, root, root, [root]);
    while pending != []
      invariant forall n :: n in pending || n in visited ==> InRange(modules, n) && Reaches(modules, root, n)
      invariant root in pending || root in visited
      invariant forall a, b :: a in visited && Edge(modules, a, b) ==> b in visited || b in pending
      invariant forall n :: n in visited ==> !IsGuiImport(modules, n)
      decreases AllNodes(modules) - visited, |pending|
    {
      var n := pending[|pending| - 1];
      ghost var before := pending;
      pending := pending[..|pending| - 1];
      assert forall x :: x in before ==> x in pending || x == n;
      if n in visited { continue; }
      assert n in AllNodes(modules);
      visited := visited + {n};
      ghost var rest := pending;
      var found;
      pending, found := Expand(modules, exports, pending, n);
      if found { return true; }
      forall x | x in pending && x !in rest ensures InRange(modules, x) && Reaches(modules, root, x) {
        ReachesExtends(modules, root, n, x);
      }
    }
    forall n | Reaches(modules, root, n) ensures !IsGuiImport(modules, n) {
      var p :| Path(modules, root, n, p);
      ClosedContainsPath(modules, visited, root, p, |p| - 1);
    }
    gui := false;
  }
}
