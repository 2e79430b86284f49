/** `TerminalDataProvider` of src/models/terminal-data-provider.ts: the command tree
    of one catalog, the run state of its commands, and the operations the view calls.

    Run state and terminals are kept beside the tree, by node key, in `states` and
    `handles`. The host's side effects are recorded: `disposed` collects the
    terminals disposed of, and `launched` lists the terminals created, each with the
    name it was given and the text sent to it. */
module TreeProvider {
  import opened Common
  import opened Strings
  import opened CommandTree

  // ---------------------------------------------------------------- view helpers

  /** `getIconForState`: the icon of a command's state; no state shows as an error
      (src/models/terminal-data-provider.ts:229-238). */
  function GetIconForState(s: Option<State>): (icon: string)
    ensures icon == "terminal" <==> s == Some(RUNNING)
    ensures icon == "debug-disconnect" <==> s == Some(STOPPED)
    ensures icon == "error" <==> s.None? || s == Some(ERROR)
  {
    match s
    case Some(RUNNING) => "terminal"
    case Some(STOPPED) => "debug-disconnect"
    case _ => "error"
  }

  const NodePrefix: string := "terminalNode-"

  /** `getContextValue`: groups are marked as such; a command carries its state's name,
      or its label when it has no state (src/models/terminal-data-provider.ts:240-248). */
  function GetContextValue(n: Node, s: Option<State>): (cv: string)
    ensures cv == "terminalNodeGroup" <==> IsGroup(n)
    ensures !IsGroup(n) ==> |cv| >= |NodePrefix| && cv[..|NodePrefix|] == NodePrefix
  {
    if IsGroup(n) then "terminalNodeGroup"
    else
      var cv := NodePrefix + if s.Some? then StateName(s.value) else n.name;
      assert cv[|NodePrefix| - 1] != "terminalNodeGroup"[|NodePrefix| - 1];
      cv
  }

  /** Two commands with a state show the same context value only when they are in the
      same state, so the menus the value selects tell the states apart. */
  lemma ContextValueShowsState(n: Node, m: Node, s: State, t: State)
    requires !IsGroup(n) && !IsGroup(m)
    requires GetContextValue(n, Some(s)) == GetContextValue(m, Some(t))
    ensures s == t
  {
    var cv := GetContextValue(n, Some(s));
    assert cv[|NodePrefix|..] == StateName(s);
    assert GetContextValue(m, Some(t))[|NodePrefix|..] == StateName(t);
    StateNameInjective(s, t);
  }

  /** `getDescription`: the command beside the label, unless the label already is the
      command (src/models/terminal-data-provider.ts:250-254). */
  function GetDescription(n: Node): (d: string)
    ensures d != "" ==> n.command == Some(d) && d != n.name
    ensures d == "" <==> n.command.None? || n.command == Some(n.name) || n.command == Some("")
  {
    if n.command == Some(n.name) then ""
    else match n.command
      case None => ""
      case Some(c) => c
  }

  /** The entries of `m` whose keys are in `keys`. */
  function KeepOnly<V>(m: map<Key, V>, keys: seq<Key>): map<Key, V>
  {
    map k | k in m && k in keys :: m[k]
  }

  datatype CollapsibleState = NotCollapsible | Collapsed

  /** `getCollapsibleState`: an expander exactly when there are children
      (src/models/terminal-data-provider.ts:264-268). */
  function GetCollapsibleState(n: Node): (c: CollapsibleState)
    ensures c == Collapsed <==> n.children.Children? && |n.children.nodes| > 0
  {
    if |Kids(n)| > 0 then Collapsed else NotCollapsible
  }

  /** What `getTreeItem` sets on an element, less the command binding. */
  datatype TreeItem = TreeItem(icon: string, contextValue: string, description: string, collapsible: CollapsibleState)

  // ---------------------------------------------------------------- variables

  /** A quick-pick entry: its label, its `code`, and whether it is a separator. */
  datatype PickItem = PickItem(text: string, code: Option<string>, separator: bool)

  const SaveCode: string := "save"
  const SaveItem: PickItem := PickItem("Save as a separate command and run it.", Some(SaveCode), false)
  const ActionsSeparator: PickItem := PickItem("Actions", None, true)

  /** One plain entry per variable, in order. */
  function VariableItems(vs: seq<string>): (items: seq<PickItem>)
    ensures |items| == |vs|
    ensures forall i :: 0 <= i < |vs| ==> items[i] == PickItem(vs[i], None, false)
  {
    seq(|vs|, i requires 0 <= i < |vs| => PickItem(vs[i], None, false))
  }

  /** `getQuickPickItems`: the variables, then a separator and the save action; nothing
      when the node has no variable list (src/models/terminal-data-provider.ts:435-444). */
  function GetQuickPickItems(n: Node): (items: seq<PickItem>)
    ensures n.variables.None? ==> items == []
    ensures n.variables.Some? ==>
      && |items| == |n.variables.value| + 2
      && items[..|n.variables.value|] == VariableItems(n.variables.value)
      && items[|items| - 1].code == Some(SaveCode)
      && forall i :: 0 <= i < |items| - 1 ==> items[i].code != Some(SaveCode)
  {
    match n.variables
    case None => []
    case Some(vs) =>
      var items := VariableItems(vs) + [ActionsSeparator, SaveItem];
      assert items[..|vs|] == VariableItems(vs);
      items
  }

  /** The labels of the entries that are not the save action, in order. */
  function NonSaveTexts(sel: seq<PickItem>): (texts: seq<string>)
    ensures |texts| <= |sel|
  {
    if sel == [] then []
    else (if sel[0].code == Some(SaveCode) then [] else [sel[0].text]) + NonSaveTexts(sel[1..])
  }

  lemma {:induction false} NonSaveTextsAppend(a: seq<PickItem>, b: seq<PickItem>)
    ensures NonSaveTexts(a + b) == NonSaveTexts(a) + NonSaveTexts(b)
    decreases |a|
  {
    if a == [] {
      assert a + b == b;
    } else {
      var head := if a[0].code == Some(SaveCode) then [] else [a[0].text];
      assert (a + b)[0] == a[0] && (a + b)[1..] == a[1..] + b;
      assert NonSaveTexts(a + b) == head + NonSaveTexts(a[1..] + b);
      NonSaveTextsAppend(a[1..], b);
      assert NonSaveTexts(a) == head + NonSaveTexts(a[1..]);
      assert head + (NonSaveTexts(a[1..]) + NonSaveTexts(b)) == (head + NonSaveTexts(a[1..])) + NonSaveTexts(b);
    }
  }

  /** `getSelectedVariables`: the selected labels other than the save action, joined
      with single spaces (src/models/terminal-data-provider.ts:446-451). */
  function GetSelectedVariables(sel: seq<PickItem>): string
  {
    Join(NonSaveTexts(sel), " ")
  }

  /** A selection of nothing but the save action adds no variables. */
  lemma {:induction false} NoTextsFromSaves(sel: seq<PickItem>)
    requires forall i :: 0 <= i < |sel| ==> sel[i].code == Some(SaveCode)
    ensures NonSaveTexts(sel) == []
    ensures GetSelectedVariables(sel) == ""
  {
    if sel != [] {
      NoTextsFromSaves(sel[1..]);
    }
  }

  /** Picking variables from the list `getQuickPickItems` offers gives them back joined,
      in the order offered. */
  lemma SelectedVariablesOfItems(vs: seq<string>)
    ensures NonSaveTexts(VariableItems(vs)) == vs
    ensures GetSelectedVariables(VariableItems(vs)) == Join(vs, " ")
  {
    NonSaveTextsOfItems(vs);
  }

  lemma {:induction false} NonSaveTextsOfItems(vs: seq<string>)
    ensures NonSaveTexts(VariableItems(vs)) == vs
  {
    if vs != [] {
      var items := VariableItems(vs);
      assert items[0].code == None && items[0].text == vs[0];
      assert items[1..] == VariableItems(vs[1..]);
      assert NonSaveTexts(items) == [vs[0]] + NonSaveTexts(items[1..]);
      NonSaveTextsOfItems(vs[1..]);
      assert [vs[0]] + vs[1..] == vs;
    }
  }

  /** Picking the save action as well changes nothing in the variables. */
  lemma SaveItemAddsNothing(a: seq<PickItem>, b: seq<PickItem>)
    ensures GetSelectedVariables(a + [SaveItem] + b) == GetSelectedVariables(a + b)
  {
    NonSaveTextsAppend(a + [SaveItem], b);
    NonSaveTextsAppend(a, [SaveItem]);
    NonSaveTextsAppend(a, b);
    assert NonSaveTexts([SaveItem]) == [];
    assert NonSaveTexts(a) + [] == NonSaveTexts(a);
  }

  /** The command a selection runs: the template, followed by a space and the selected
      variables when there are any (src/models/terminal-data-provider.ts:419-424). */
  function ResolvedCommand(template: string, sel: seq<PickItem>): (c: string)
    ensures |c| >= |template| && c[..|template|] == template
  {
    var v := GetSelectedVariables(sel);
    if v != "" then template + " " + v else template
  }

  /** Is the save action among the selected entries? */
  predicate HasSaveItem(sel: seq<PickItem>)
  {
    exists i :: 0 <= i < |sel| && sel[i].code == Some(SaveCode)
  }

  /** What running a command does, given what the user picks. */
  datatype RunPlan = NoRun | RunOn(command: string) | SaveAndRun(command: string)

  /** `runTerminal` and `handleVariableSelection`: nothing without a command; without
      variables, the template on the node; with variables, nothing when the pick is
      cancelled, else the resolved command, run on a saved copy when the save action is
      among the picks and on the node otherwise
      (src/models/terminal-data-provider.ts:393-433). */
  function PlanRun(n: Node, pick: Option<seq<PickItem>>): (p: RunPlan)
    ensures n.command.None? || n.command == Some("") ==> p == NoRun
    ensures p != NoRun ==>
      n.command.Some? && n.command.value != "" &&
      |p.command| >= |n.command.value| && p.command[..|n.command.value|] == n.command.value
    ensures (n.variables.None? || n.variables == Some([])) ==> p.SaveAndRun? == false
    ensures n.variables.Some? && n.variables != Some([]) && pick.None? ==> p == NoRun
    ensures n.command.Some? && n.command.value != "" && (n.variables.None? || n.variables == Some([])) ==>
      p == RunOn(n.command.value)
  {
    if n.command.None? || n.command.value == "" then NoRun
    else if n.variables.Some? && |n.variables.value| > 0 then
      match pick
      case None => NoRun
      case Some(sel) =>
        var c := ResolvedCommand(n.command.value, sel);
        if HasSaveItem(sel) then SaveAndRun(c) else RunOn(c)
    else RunOn(n.command.value)
  }

  /** Picking some of a command's variables and the save action runs the template with
      those variables on a new command. */
  lemma PickAndSave(n: Node, vs: seq<string>)
    requires n.command.Some? && n.command.value != ""
    requires n.variables.Some? && n.variables.value != []
    requires Join(vs, " ") != ""
    ensures PlanRun(n, Some(VariableItems(vs) + [SaveItem])) ==
      SaveAndRun(n.command.value + " " + Join(vs, " "))
  {
    var sel := VariableItems(vs) + [SaveItem];
    SaveItemAddsNothing(VariableItems(vs), []);
    assert sel == VariableItems(vs) + [SaveItem] + [];
    assert VariableItems(vs) + [] == VariableItems(vs);
    SelectedVariablesOfItems(vs);
    assert sel[|sel| - 1].code == Some(SaveCode);
  }

  /** Picking some of a command's variables without the save action runs the template
      with those variables on the node itself. */
  lemma PickNoSave(n: Node, vs: seq<string>)
    requires n.command.Some? && n.command.value != ""
    requires n.variables.Some? && n.variables.value != []
    requires Join(vs, " ") != ""
    ensures PlanRun(n, Some(VariableItems(vs))) == RunOn(n.command.value + " " + Join(vs, " "))
  {
    SelectedVariablesOfItems(vs);
    assert !HasSaveItem(VariableItems(vs));
  }

  /** The copy `handleVariableSaveCommand` makes: the node's label, catalog and group flag,
      the resolved command, no variables and no children
      (src/models/terminal-data-provider.ts:458-470). */
  function SavedCopy(n: Node, command: string, key: Key): (c: Node)
    ensures c.key == key && c.name == n.name && c.cType == n.cType && c.isGroup == n.isGroup
    ensures c.command == Some(command) && c.variables.None? && Kids(c) == []
  {
    Node(key, n.name, n.cType, n.isGroup, Some(command), None, NoChildren)
  }

  /** A saved copy always arrives: next to the node's siblings as the last child of its
      parent (whose child list exists, since it holds the node), or as the last root. */
  lemma SavedCopyLands(f: seq<Node>, n: Node, x: Node)
    requires UniqueKeys(f) && x.key !in Keys(f) && Kids(x) == []
    ensures multiset(Keys(AddToTree(f, x, GetParent(f, n.key)))) == multiset(Keys(f)) + multiset{x.key}
    ensures GetParent(f, n.key).None? ==> AddToTree(f, x, GetParent(f, n.key)) == f + [x]
    ensures GetParent(f, n.key).Some? ==>
      var p := GetParent(f, n.key).value;
      FindNodeByKey(AddToTree(f, x, GetParent(f, n.key)), p.key) == Some(WithChild(p, x))
  {
    var parent := GetParent(f, n.key);
    assert SubtreeKeys(x) == [x.key];
    if parent.Some? {
      var p := parent.value;
      GetParentSpec(f, n.key);
      assert Kids(p) != [];
      FindFlattened(f, p);
      AddToTreeSpec(f, x, parent);
    } else {
      KeysAppend(f, [x]);
      KeysSingle(x);
    }
  }

  // ---------------------------------------------------------------- creation and edit

  /** The i-th answer of an input flow, if it was given. */
  function At(values: seq<string>, i: nat): (v: Option<string>)
    ensures v.Some? <==> i < |values|
    ensures v.Some? ==> v.value == values[i]
  {
    if i < |values| then Some(values[i]) else None
  }

  /** The group `createGroup` makes from its flow's answer: only a non-empty name makes
      one, with an empty child list (src/models/terminal-data-provider.ts:299-317). */
  function NewGroup(values: seq<string>, cType: CommandType, key: Key): (g: Option<Node>)
    ensures g.Some? <==> |values| > 0 && values[0] != ""
    ensures g.Some? ==>
      && g.value.key == key && g.value.name == values[0] && g.value.cType == cType
      && IsGroup(g.value) && g.value.children == Children([]) && g.value.command.None?
  {
    match At(values, 0)
    case Some(name) =>
      if name != "" then Some(Node(key, name, cType, Some(true), None, None, Children([]))) else None
    case None => None
  }

  /** The command `createTerminal` makes from its flow's answers: only a non-empty command
      makes one; the label is `label ?? command`, so a label answered empty stays empty;
      the variables are the third answer split on commas and trimmed
      (src/models/terminal-data-provider.ts:319-355). */
  function NewTerminal(values: seq<string>, cType: CommandType, key: Key): (t: Option<Node>)
    ensures t.Some? <==> |values| > 0 && values[0] != ""
    ensures t.Some? ==>
      && t.value.key == key && t.value.cType == cType && t.value.isGroup == Some(false)
      && t.value.command == Some(values[0]) && t.value.children.NoChildren?
      && t.value.name == (if |values| > 1 then values[1] else values[0])
      && t.value.variables == Some(ParseVariables(At(values, 2)))
  {
    match At(values, 0)
    case Some(command) =>
      if command != "" then
        var name := match At(values, 1) case Some(l) => l case None => command;
        Some(Node(key, name, cType, Some(false), Some(command), Some(ParseVariables(At(values, 2))), NoChildren))
      else None
    case None => None
  }

  /** The fields `editTerminal` writes from its flow's answers: only a non-empty command
      changes anything; the label is `label || command`, so an empty label falls back to
      the command; everything else, children included, is kept
      (src/models/terminal-data-provider.ts:519-558). */
  function EditedTerminal(n: Node, values: seq<string>): (e: Option<Node>)
    ensures e.Some? <==> |values| > 0 && values[0] != ""
    ensures e.Some? ==>
      && e.value.key == n.key && e.value.cType == n.cType && e.value.isGroup == n.isGroup
      && e.value.children == n.children
      && e.value.command == Some(values[0])
      && e.value.name == (if |values| > 1 && values[1] != "" then values[1] else values[0])
      && e.value.variables == Some(ParseVariables(At(values, 2)))
  {
    match At(values, 0)
    case Some(command) =>
      if command != "" then
        var name := match At(values, 1) case Some(l) => (if l != "" then l else command) case None => command;
        Some(n.(command := Some(command), name := name, variables := Some(ParseVariables(At(values, 2)))))
      else None
    case None => None
  }

  /** `editGroup`: only a non-empty name renames the group
      (src/models/terminal-data-provider.ts:560-567). */
  function EditedGroup(n: Node, values: seq<string>): (e: Option<Node>)
    ensures e.Some? <==> |values| > 0 && values[0] != ""
    ensures e.Some? ==> e.value == n.(name := values[0])
  {
    match At(values, 0)
    case Some(name) => if name != "" then Some(n.(name := name)) else None
    case None => None
  }

  /** Creating and editing default the label differently: a label answered empty stays
      empty on creation but becomes the command on edit. */
  lemma EmptyLabelCreateVsEdit(n: Node, command: string, vars: string, cType: CommandType, key: Key)
    requires command != ""
    ensures NewTerminal([command, "", vars], cType, key).value.name == ""
    ensures EditedTerminal(n, [command, "", vars]).value.name == command
  {
  }

  /** Edit keeps the place in the tree: the key listing is unchanged and the edited node
      is found under its key. */
  lemma EditKeepsShape(f: seq<Node>, n: Node, e: Node)
    requires FindNodeByKey(f, n.key) == Some(n)
    requires e.key == n.key && e.children == n.children
    ensures Keys(ReplaceFirst(f, n.key, e)) == Keys(f)
    ensures FindNodeByKey(ReplaceFirst(f, n.key, e), n.key) == Some(e)
  {
    ReplaceSameShape(f, n.key, e);
  }

  // ---------------------------------------------------------------- terminal close

  /** Does this node's terminal equal `h`? */
  predicate HasHandle(n: Node, handles: map<Key, Handle>, h: Handle)
  {
    n.key in handles && handles[n.key] == h
  }

  /** `this.terminals.findIndex((node) => node.terminal === closedTerminal)`: only the
      top-level nodes are searched (src/models/terminal-data-provider.ts:358-360). */
  function RootIndexOfHandle(roots: seq<Node>, handles: map<Key, Handle>, h: Handle): (i: int)
    ensures -1 <= i < |roots|
    ensures i >= 0 ==>
      HasHandle(roots[i], handles, h) && forall j :: 0 <= j < i ==> !HasHandle(roots[j], handles, h)
    ensures i == -1 <==> forall j :: 0 <= j < |roots| ==> !HasHandle(roots[j], handles, h)
  {
    if roots == [] then -1
    else if HasHandle(roots[0], handles, h) then 0
    else
      var i := RootIndexOfHandle(roots[1..], handles, h);
      if i == -1 then -1 else i + 1
  }

  /** A terminal of a nested command is never recognised as closed: a group holding one
      command whose terminal closes gives -1. */
  lemma NestedTerminalCloseMissed(g: Node, c: Node, h: Handle)
    requires g.children == Children([c]) && g.key != c.key
    ensures RootIndexOfHandle([g], map[c.key := h], h) == -1
  {
  }

  // ---------------------------------------------------------------- the provider

  class TerminalDataProvider {
    var terminals: seq<Node>
    var cType: CommandType
    var states: map<Key, State>
    var handles: map<Key, Handle>
    var disposed: set<Handle>
    var launched: seq<Launch>

    /** Every key comparison of the provider relies on keys being unique in the tree. */
    ghost predicate Valid()
      reads this
    {
      UniqueKeys(terminals)
    }

    /** A node argument stands for an object: when the tree holds its key, it holds
        this very node. */
    ghost predicate Holds(n: Node)
      reads this
    {
      n.key in Keys(terminals) ==> FindNodeByKey(terminals, n.key) == Some(n)
    }

    constructor(cType: CommandType)
      ensures Valid() && terminals == [] && this.cType == cType
      ensures states == map[] && handles == map[] && disposed == {} && launched == []
    {
      terminals := [];
      this.cType := cType;
      states := map[];
      handles := map[];
      disposed := {};
      launched := [];
    }

    /** `getChildren`: the roots, or the element's children, an absent list read as
        empty (src/models/terminal-data-provider.ts:283-288). */
    function GetChildren(element: Option<Node>): (r: seq<Node>)
      reads this
      ensures element.None? ==> r == terminals
      ensures element.Some? ==> r == Kids(element.value)
    {
      match element
      case None => terminals
      case Some(n) => Kids(n)
    }

    /** `getTreeItem`: a folder for a group, the state's icon for a command, and the
        context value, description and expander of the helpers above
        (src/models/terminal-data-provider.ts:270-281). */
    function GetTreeItem(n: Node): (item: TreeItem)
      reads this
      ensures item.icon == "folder" <==> IsGroup(n)
      ensures item.contextValue == GetContextValue(n, if n.key in states then Some(states[n.key]) else None)
      ensures item.collapsible == Collapsed <==> |GetChildren(Some(n))| > 0
      ensures !IsGroup(n) ==> item.icon == GetIconForState(if n.key in states then Some(states[n.key]) else None)
      ensures item.description == GetDescription(n)
    {
      var s := if n.key in states then Some(states[n.key]) else None;
      TreeItem(if IsGroup(n) then "folder" else GetIconForState(s),
        GetContextValue(n, s), GetDescription(n), GetCollapsibleState(n))
    }

    /** The loop of `removeNode` over one list, recursing into children that exist and
        are non-empty (src/models/terminal-data-provider.ts:192-208). */
    static method RemoveIn(list: seq<Node>, k: Key) returns (r: seq<Node>, found: bool)
      ensures (r, found) == RemoveFromTree(list, k)
      decreases ForestSize(list)
    {
      var i := 0;
      assert list[..0] == [] && list[0..] == list;
      assert [] + RemoveFromTree(list, k).0 == RemoveFromTree(list, k).0;
      while i < |list|
        invariant 0 <= i <= |list|
        invariant RemoveFromTree(list, k) ==
          (list[..i] + RemoveFromTree(list[i..], k).0, RemoveFromTree(list[i..], k).1)
      {
        var rest := list[i..];
        assert rest[0] == list[i] && rest[1..] == list[i + 1..];
        if list[i].key == k {
          assert RemoveFromTree(rest, k) == (list[i + 1..], true);
          r, found := list[..i] + list[i + 1..], true;
          return;
        }
        RemoveStep(rest, k);
        var children := Kids(list[i]);
        if |children| > 0 {
          ElementShrinks(list, i);
          var c, f := RemoveIn(children, k);
          if f {
            r, found := list[..i] + ([list[i].(children := Children(c))] + list[i + 1..]), true;
            return;
          }
        } else {
          assert RemoveFromTree(children, k) == ([], false);
        }
        var tail := RemoveFromTree(list[i + 1..], k);
        PrefixStep(list, i, tail.0);
        i := i + 1;
      }
      assert list[..|list|] + [] == list;
      r, found := list, false;
    }

    static lemma PrefixStep(list: seq<Node>, i: nat, tail: seq<Node>)
      requires i < |list|
      ensures list[..i] + ([list[i]] + tail) == list[..i + 1] + tail
    {
      assert list[..i + 1] == list[..i] + [list[i]];
    }

    /** `removeNode(element)`: detach the first node with the element's key, and its
        subtree; the result says whether one was found. */
    method RemoveNode(n: Node) returns (removed: bool)
      requires Valid()
      modifies this`terminals
      ensures Valid()
      ensures removed <==> n.key in Keys(old(terminals))
      ensures terminals == RemoveFromTree(old(terminals), n.key).0
      ensures n.key !in Keys(terminals)
    {
      RemoveFromTreeSpec(terminals, n.key);
      RemoveKeepsUnique(terminals, n.key);
      var r;
      r, removed := RemoveIn(terminals, n.key);
      terminals := r;
    }

    /** `reparentNode(node, target)`: detach, then push onto a group target's children,
        insert after a leaf target, or push onto the roots
        (src/models/terminal-data-provider.ts:158-190). */
    method ReparentNode(n: Node, target: Option<Node>)
      requires Valid() && FindNodeByKey(terminals, n.key) == Some(n)
      modifies this`terminals
      ensures Valid()
      ensures terminals == ReparentInTree(old(terminals), n, target)
    {
      ReparentInTreeUnique(terminals, n, target);
      var _ := RemoveNode(n);
      match target
      case None =>
        terminals := terminals + [n];
      case Some(t) =>
        if IsGroup(t) {
          var g := FindNodeByKey(terminals, t.key);
          if g.Some? {
            terminals := ReplaceFirst(terminals, t.key, WithChild(g.value, n));
          }
        } else {
          terminals := InsertAfterSibling(terminals, t.key, n);
        }
    }

    /** `getLocalRoots(nodes)`: the dragged nodes whose parent is not dragged too, in
        order (src/models/terminal-data-provider.ts:142-156). */
    method GetLocalRoots(nodes: seq<Node>) returns (roots: seq<Node>)
      ensures roots == LocalRoots(terminals, nodes)
    {
      var f := terminals;
      roots := [];
      var i := 0;
      while i < |nodes|
        invariant 0 <= i <= |nodes|
        invariant roots == LocalRootsOf(f, nodes, nodes[..i])
      {
        var node := nodes[i];
        var parent := GetParent(f, node.key);
        LocalRootsOfStep(f, nodes, i);
        if parent.Some? {
          IndexOfKeyMissing(nodes, parent.value.key);
          if IndexOfKey(nodes, parent.value.key) == -1 {
            roots := roots + [node];
          }
        } else {
          roots := roots + [node];
        }
        i := i + 1;
      }
      assert nodes[..|nodes|] == nodes;
    }

    /** `handleDrop` once the dragged keys are decoded: resolve them, keep the local
        roots, leave out those the target lies under, and move the rest one by one
        (src/models/terminal-data-provider.ts:86-119). */
    method HandleDrop(draggedKeys: seq<Key>, target: Option<Node>)
      requires Valid()
      modifies this`terminals
      ensures Valid()
      ensures terminals == Drop(old(terminals), draggedKeys, target)
    {
      var draggedNodes := ResolveKeys(terminals, draggedKeys);
      var roots := GetLocalRoots(draggedNodes);
      roots := DropFilter(roots, target);
      if |roots| > 0 {
        ghost var f0 := terminals;
        var i := 0;
        while i < |roots|
          invariant 0 <= i <= |roots|
          invariant Valid()
          invariant ReparentAll(f0, roots, target) == ReparentAll(terminals, roots[i..], target)
        {
          assert roots[i..][0] == roots[i] && roots[i..][1..] == roots[i + 1..];
          var cur := FindNodeByKey(terminals, roots[i].key);
          if cur.Some? {
            ReparentNode(cur.value, target);
          }
          i := i + 1;
        }
      }
    }

    /** `addTerminalNode(node, parent)`: push onto the parent's children when that list
        exists (the node is dropped when it does not), or onto the roots without a parent
        (src/models/terminal-data-provider.ts:375-384). */
    method AddTerminalNode(node: Node, parent: Option<Node>)
      requires Valid() && node.key !in Keys(terminals) && Kids(node) == []
      modifies this`terminals
      ensures Valid()
      ensures terminals == AddToTree(old(terminals), node, parent)
    {
      AddKeepsUnique(terminals, node, parent);
      match parent
      case None =>
        terminals := terminals + [node];
      case Some(p) =>
        var cur := FindNodeByKey(terminals, p.key);
        if cur.Some? && cur.value.children.Children? {
          terminals := ReplaceFirst(terminals, p.key, WithChild(cur.value, node));
        }
    }

    /** `createGroup` once its flow completes (src/models/terminal-data-provider.ts:299-317). */
    method CreateGroup(cType: CommandType, parent: Option<Node>, values: seq<string>, key: Key)
      requires Valid() && key !in Keys(terminals)
      modifies this`terminals
      ensures Valid()
      ensures NewGroup(values, cType, key).None? ==> terminals == old(terminals)
      ensures NewGroup(values, cType, key).Some? ==>
        terminals == AddToTree(old(terminals), NewGroup(values, cType, key).value, parent)
    {
      var g := NewGroup(values, cType, key);
      if g.Some? {
        AddTerminalNode(g.value, parent);
      }
    }

    /** `createTerminal` once its flow completes (src/models/terminal-data-provider.ts:319-355). */
    method CreateTerminal(cType: CommandType, parent: Option<Node>, values: seq<string>, key: Key)
      requires Valid() && key !in Keys(terminals)
      modifies this`terminals
      ensures Valid()
      ensures NewTerminal(values, cType, key).None? ==> terminals == old(terminals)
      ensures NewTerminal(values, cType, key).Some? ==>
        terminals == AddToTree(old(terminals), NewTerminal(values, cType, key).value, parent)
    {
      var t := NewTerminal(values, cType, key);
      if t.Some? {
        AddTerminalNode(t.value, parent);
      }
    }

    /** `deleteTerminal(node)`: dispose of the node's own terminal (not those of its
        descendants) and detach it (src/models/terminal-data-provider.ts:386-391). */
    method DeleteTerminal(n: Node)
      requires Valid()
      modifies this`terminals, this`disposed, this`states, this`handles
      ensures Valid()
      ensures disposed == old(disposed) + (if n.key in old(handles) then {old(handles)[n.key]} else {})
      ensures terminals == RemoveFromTree(old(terminals), n.key).0
      ensures n.key !in Keys(terminals)
      ensures states == KeepOnly(old(states), Keys(terminals))
      ensures handles == KeepOnly(old(handles), Keys(terminals))
    {
      DisposeOwn(n);
      var _ := RemoveNode(n);
      ForgetRemoved();
    }

    /** `node.terminal?.dispose()`: the node's own terminal, if it has one, is disposed. */
    method DisposeOwn(n: Node)
      modifies this`disposed
      ensures disposed == old(disposed) + (if n.key in handles then {handles[n.key]} else {})
    {
      if n.key in handles {
        disposed := disposed + {handles[n.key]};
      }
    }

    /** The run state and terminal of a removed node go with the node object: only the
        keys still in the forest keep them. */
    method ForgetRemoved()
      modifies this`states, this`handles
      ensures states == KeepOnly(old(states), Keys(terminals))
      ensures handles == KeepOnly(old(handles), Keys(terminals))
    {
      var keys := Keys(terminals);
      states := KeepOnly(states, keys);
      handles := KeepOnly(handles, keys);
    }

    /** `editTerminal` (and `editGroup`, for a group) once the flow completes: the node's
        own fields change in place, and its place in the tree stays
        (src/models/terminal-data-provider.ts:519-567). */
    method EditTerminal(n: Node, values: seq<string>)
      requires Valid() && Holds(n)
      modifies this`terminals
      ensures Valid()
      ensures var e := if IsGroup(n) then EditedGroup(n, values) else EditedTerminal(n, values);
        terminals == if e.Some? && n.key in Keys(old(terminals)) then ReplaceFirst(old(terminals), n.key, e.value) else old(terminals)
      ensures Keys(terminals) == Keys(old(terminals))
    {
      var e := if IsGroup(n) then EditedGroup(n, values) else EditedTerminal(n, values);
      if e.Some? && n.key in Keys(terminals) {
        EditKeepsShape(terminals, n, e.value);
        terminals := ReplaceFirst(terminals, n.key, e.value);
      }
    }

    /** `runCommandInTerminal(node, command)`: nothing for an absent or empty command;
        otherwise a new terminal named after the node gets the command, and the node is
        RUNNING (src/models/terminal-data-provider.ts:481-500). */
    method RunCommandInTerminal(n: Node, command: Option<string>, h: Handle)
      modifies this`states, this`handles, this`launched
      ensures command.None? || command == Some("") ==>
        states == old(states) && handles == old(handles) && launched == old(launched)
      ensures command.Some? && command != Some("") ==>
        && states == old(states)[n.key := RUNNING]
        && handles == old(handles)[n.key := h]
        && launched == old(launched) + [Launch(h, n.name, command.value)]
    {
      if command.None? || command.value == "" {
        return;
      }
      handles := handles[n.key := h];
      launched := launched + [Launch(h, n.name, command.value)];
      states := states[n.key := RUNNING];
    }

    /** `handleVariableSaveCommand(node, command)`: add the saved copy under the node's
        parent and run it (src/models/terminal-data-provider.ts:458-473). */
    method HandleVariableSaveCommand(n: Node, command: string, h: Handle, key: Key)
      requires Valid() && key !in Keys(terminals) && command != ""
      modifies this`terminals, this`states, this`handles, this`launched
      ensures Valid()
      ensures terminals == AddToTree(old(terminals), SavedCopy(n, command, key), GetParent(old(terminals), n.key))
      ensures multiset(Keys(terminals)) == multiset(Keys(old(terminals))) + multiset{key}
      ensures states == old(states)[key := RUNNING] && handles == old(handles)[key := h]
      ensures launched == old(launched) + [Launch(h, n.name, command)]
    {
      var copy := SavedCopy(n, command, key);
      SavedCopyLands(terminals, n, copy);
      AddTerminalNode(copy, GetParent(terminals, n.key));
      RunCommandInTerminal(copy, Some(command), h);
    }

    /** `handleVariableSelection(node, command)` once the quick pick settles: `pick` is
        the selection, `None` when it was cancelled
        (src/models/terminal-data-provider.ts:406-433). */
    method HandleVariableSelection(n: Node, command: string, pick: Option<seq<PickItem>>, h: Handle, key: Key)
      requires Valid() && key !in Keys(terminals) && command != ""
      modifies this`terminals, this`states, this`handles, this`launched
      ensures Valid()
      ensures pick.None? ==>
        terminals == old(terminals) && states == old(states) && handles == old(handles) && launched == old(launched)
      ensures pick.Some? && HasSaveItem(pick.value) ==>
        var c := ResolvedCommand(command, pick.value);
        && terminals == AddToTree(old(terminals), SavedCopy(n, c, key), GetParent(old(terminals), n.key))
        && states == old(states)[key := RUNNING] && handles == old(handles)[key := h]
        && launched == old(launched) + [Launch(h, n.name, c)]
      ensures pick.Some? && !HasSaveItem(pick.value) ==>
        var c := ResolvedCommand(command, pick.value);
        && terminals == old(terminals)
        && states == old(states)[n.key := RUNNING] && handles == old(handles)[n.key := h]
        && launched == old(launched) + [Launch(h, n.name, c)]
    {
      if pick.None? {
        return;
      }
      var sel := pick.value;
      var c := ResolvedCommand(command, sel);
      if HasSaveItem(sel) {
        HandleVariableSaveCommand(n, c, h, key);
      } else {
        RunCommandInTerminal(n, Some(c), h);
      }
    }

    /** `runTerminal(node)`; `pick` is what the user selects if a quick pick is shown and
        `key` the key of a saved copy (src/models/terminal-data-provider.ts:393-404). */
    method RunTerminal(n: Node, pick: Option<seq<PickItem>>, h: Handle, key: Key)
      requires Valid() && key !in Keys(terminals)
      modifies this`terminals, this`states, this`handles, this`launched
      ensures Valid()
      ensures match PlanRun(n, pick)
        case NoRun =>
          terminals == old(terminals) && states == old(states) &&
          handles == old(handles) && launched == old(launched)
        case RunOn(c) =>
          && terminals == old(terminals)
          && states == old(states)[n.key := RUNNING] && handles == old(handles)[n.key := h]
          && launched == old(launched) + [Launch(h, n.name, c)]
        case SaveAndRun(c) =>
          && terminals == AddToTree(old(terminals), SavedCopy(n, c, key), GetParent(old(terminals), n.key))
          && states == old(states)[key := RUNNING] && handles == old(handles)[key := h]
          && launched == old(launched) + [Launch(h, n.name, c)]
    {
      if n.command.None? || n.command.value == "" {
        return;
      }
      var command := n.command.value;
      if n.variables.Some? && |n.variables.value| > 0 {
        HandleVariableSelection(n, command, pick, h, key);
      } else {
        RunCommandInTerminal(n, Some(command), h);
      }
    }

    /** `rerunTerminal(node)`: nothing without a command; otherwise the old terminal is
        disposed of and a new one gets the bare template, never a resolved command
        (src/models/terminal-data-provider.ts:506-517). */
    method RerunTerminal(n: Node, h: Handle)
      modifies this`states, this`handles, this`launched, this`disposed
      ensures n.command.None? || n.command == Some("") ==>
        states == old(states) && handles == old(handles) &&
        launched == old(launched) && disposed == old(disposed)
      ensures n.command.Some? && n.command != Some("") ==>
        && disposed == old(disposed) + (if n.key in old(handles) then {old(handles)[n.key]} else {})
        && states == old(states)[n.key := RUNNING] && handles == old(handles)[n.key := h]
        && launched == old(launched) + [Launch(h, n.name, n.command.value)]
    {
      if n.command.None? || n.command.value == "" {
        return;
      }
      if n.key in handles {
        disposed := disposed + {handles[n.key]};
      }
      handles := handles[n.key := h];
      launched := launched + [Launch(h, n.name, n.command.value)];
      states := states[n.key := RUNNING];
    }

    /** `stopTerminal(node)`: dispose of the terminal and set STOPPED, whatever the state
        was; the handle stays recorded (src/models/terminal-data-provider.ts:582-585). */
    method StopTerminal(n: Node)
      modifies this`states, this`disposed
      ensures states == old(states)[n.key := STOPPED]
      ensures disposed == old(disposed) + (if n.key in handles then {handles[n.key]} else {})
    {
      if n.key in handles {
        disposed := disposed + {handles[n.key]};
      }
      states := states[n.key := STOPPED];
    }

    /** `handleTerminalClose(closedTerminal)`: the first root whose terminal it is becomes
        STOPPED and loses its terminal; the result is that root's index, or -1 with
        nothing changed (src/models/terminal-data-provider.ts:357-368). */
    method HandleTerminalClose(h: Handle) returns (index: int)
      modifies this`states, this`handles
      ensures index == RootIndexOfHandle(terminals, old(handles), h)
      ensures index == -1 ==> states == old(states) && handles == old(handles)
      ensures index != -1 ==>
        var k := terminals[index].key;
        states == old(states)[k := STOPPED] && handles == old(handles) - {k}
    {
      index := RootIndexOfHandle(terminals, handles, h);
      if index != -1 {
        var k := terminals[index].key;
        states := states[k := STOPPED];
        handles := handles - {k};
      }
    }

    /** `addTerminals(terminals)`: the tree is replaced by the loaded nodes, which carry
        no state and no terminal (src/models/terminal-data-provider.ts:370-373). */
    method AddTerminals(nodes: seq<Node>)
      requires UniqueKeys(nodes)
      modifies this`terminals, this`states, this`handles
      ensures Valid()
      ensures terminals == nodes && states == map[] && handles == map[]
    {
      terminals := nodes;
      states := map[];
      handles := map[];
    }
  }
}
