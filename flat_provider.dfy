/** The earlier, flat `TerminalDataProvider` of src/extension.ts: a plain list of
    commands per catalog, the close dispatch over the three catalogs, and the loading
    and saving of the catalog files' records. */
module FlatProvider {
  import opened Common

  /** A command of the flat list. Node objects are told apart by identity, which `id`
      stands for; `terminal` is the host terminal the node runs in, if any. */
  datatype FlatNode = FlatNode(
    id: nat,
    name: string,
    command: string,
    state: State,
    cType: CommandType,
    terminal: Option<Handle>)

  /** One record of a catalog file: `{command, label}`, the label possibly missing. */
  datatype SavedCommand = SavedCommand(command: string, name: Option<string>)

  /** `label ?? command`: a missing label falls back to the command, an empty one stays. */
  function LabelOr(given: Option<string>, command: string): (name: string)
    ensures given.Some? ==> name == given.value
    ensures given.None? ==> name == command
  {
    match given
    case Some(l) => l
    case None => command
  }

  // ---------------------------------------------------------------- list queries

  /** `filter((t) => t !== node)`: the list without the node of that identity. */
  function WithoutId(s: seq<FlatNode>, id: nat): seq<FlatNode>
  {
    if s == [] then [] else (if s[0].id == id then [] else [s[0]]) + WithoutId(s[1..], id)
  }

  predicate DistinctIds(s: seq<FlatNode>)
  {
    forall a, b :: 0 <= a < b < |s| ==> s[a].id != s[b].id
  }

  /** With distinct identities, the filter removes exactly the node at its index and
      keeps every other one in order. */
  lemma {:induction false} WithoutIdRemovesIndex(s: seq<FlatNode>, i: nat)
    requires DistinctIds(s) && i < |s|
    ensures WithoutId(s, s[i].id) == s[..i] + s[i + 1..]
    decreases i
  {
    if i == 0 {
      NoneWithId(s[1..], s[0].id);
      assert WithoutId(s, s[0].id) == [] + WithoutId(s[1..], s[0].id);
    } else {
      var t := s[1..];
      var id := s[i].id;
      assert t[i - 1] == s[i];
      assert s[0].id != id;
      assert WithoutId(s, id) == [s[0]] + WithoutId(t, id);
      assert DistinctIds(t) by {
        forall a, b | 0 <= a < b < |t| ensures t[a].id != t[b].id {
          assert t[a] == s[a + 1] && t[b] == s[b + 1];
        }
      }
      WithoutIdRemovesIndex(t, i - 1);
      var pre, post := t[..i - 1], t[i..];
      assert s[..i] == [s[0]] + pre;
      assert s[i + 1..] == post;
      assert [s[0]] + (pre + post) == ([s[0]] + pre) + post;
    }
  }

  lemma {:induction false} NoneWithId(s: seq<FlatNode>, id: nat)
    requires forall j :: 0 <= j < |s| ==> s[j].id != id
    ensures WithoutId(s, id) == s
  {
    if s != [] {
      NoneWithId(s[1..], id);
    }
  }

  /** Deleting a node just added gives the list back. */
  lemma DeleteUndoesAdd(s: seq<FlatNode>, x: FlatNode)
    requires DistinctIds(s) && forall j :: 0 <= j < |s| ==> s[j].id != x.id
    ensures WithoutId(s + [x], x.id) == s
  {
    var t := s + [x];
    assert DistinctIds(t);
    WithoutIdRemovesIndex(t, |s|);
    assert t[..|s|] == s && t[|s| + 1..] == [];
  }

  /** `findIndex((node) => node.terminal === closedTerminal)`. */
  function IndexOfTerminal(s: seq<FlatNode>, h: Handle): (i: int)
    ensures -1 <= i < |s|
    ensures i >= 0 ==> s[i].terminal == Some(h) && forall j :: 0 <= j < i ==> s[j].terminal != Some(h)
    ensures i == -1 <==> forall j :: 0 <= j < |s| ==> s[j].terminal != Some(h)
  {
    if s == [] then -1
    else if s[0].terminal == Some(h) then 0
    else
      var i := IndexOfTerminal(s[1..], h);
      if i == -1 then -1 else i + 1
  }

  /** The list after `handleTerminalClose(h)`: the first node running in `h` is STOPPED
      and loses its terminal; without one, nothing changes. */
  function Closed(s: seq<FlatNode>, h: Handle): (r: seq<FlatNode>)
    ensures |r| == |s|
    ensures IndexOfTerminal(s, h) == -1 ==> r == s
    ensures IndexOfTerminal(s, h) != -1 ==>
      var i := IndexOfTerminal(s, h);
      && r[i] == s[i].(state := STOPPED, terminal := None)
      && forall j :: 0 <= j < |s| && j != i ==> r[j] == s[j]
  {
    var i := IndexOfTerminal(s, h);
    if i == -1 then s else s[i := s[i].(state := STOPPED, terminal := None)]
  }

  /** Closing the same terminal a second time finds nothing more to close. */
  lemma CloseTwice(s: seq<FlatNode>, h: Handle)
    requires forall a, b :: 0 <= a < b < |s| && s[a].terminal == Some(h) ==> s[b].terminal != Some(h)
    ensures IndexOfTerminal(Closed(s, h), h) == -1
    ensures Closed(Closed(s, h), h) == Closed(s, h)
  {
    var i := IndexOfTerminal(s, h);
    var r := Closed(s, h);
    if i != -1 {
      forall j | 0 <= j < |r| ensures r[j].terminal != Some(h) {
        if j < i {
        } else if j > i {
          assert s[j].terminal != Some(h);
        }
      }
    }
  }

  // ---------------------------------------------------------------- catalog files

  /** `saveCommandsToFile(terminals, cType)`: nothing for the temporary catalog;
      otherwise the `{command, label}` records of the nodes of that catalog, in order
      (src/extension.ts:267-286). */
  function SaveCommandsToFile(s: seq<FlatNode>, cType: CommandType): (r: Option<seq<SavedCommand>>)
    ensures r.None? <==> cType == TEMPORARY
  {
    if cType == TEMPORARY then None else Some(Records(s, cType))
  }

  /** The records of the nodes of one catalog, in order. */
  function Records(s: seq<FlatNode>, cType: CommandType): seq<SavedCommand>
  {
    if s == [] then []
    else (if s[0].cType == cType then [Record(s[0])] else []) + Records(s[1..], cType)
  }

  function Record(n: FlatNode): SavedCommand
  {
    SavedCommand(n.command, Some(n.name))
  }

  /** The test of the load loop: is `command` already on the list (for the global
      catalog, on a global node)? (src/extension.ts:22-28) */
  predicate Known(s: seq<FlatNode>, command: string, cType: CommandType)
  {
    exists j :: 0 <= j < |s| && s[j].command == command && (cType != GLOBAL || s[j].cType == GLOBAL)
  }

  /** The loop of `loadCommandsFromFile` over a file's records: each record whose
      command is not yet known is added as a STOPPED node, and the list it checks
      against grows as it goes (src/extension.ts:19-38). */
  function Loaded(s: seq<FlatNode>, items: seq<SavedCommand>, cType: CommandType, nextId: nat): seq<FlatNode>
    decreases |items|
  {
    if items == [] then s
    else if Known(s, items[0].command, cType) then Loaded(s, items[1..], cType, nextId)
    else Loaded(s + [NewNode(nextId, items[0], cType)], items[1..], cType, nextId + 1)
  }

  function NewNode(id: nat, item: SavedCommand, cType: CommandType): (n: FlatNode)
    ensures n.command == item.command && n.cType == cType && n.state == STOPPED && n.terminal.None?
  {
    FlatNode(id, LabelOr(item.name, item.command), item.command, STOPPED, cType, None)
  }

  /** Loading keeps the list it starts from and makes every record's command known. */
  lemma {:induction false} LoadedCovers(s: seq<FlatNode>, items: seq<SavedCommand>, cType: CommandType, nextId: nat)
    ensures |Loaded(s, items, cType, nextId)| >= |s|
    ensures Loaded(s, items, cType, nextId)[..|s|] == s
    ensures forall k :: 0 <= k < |items| ==> Known(Loaded(s, items, cType, nextId), items[k].command, cType)
    decreases |items|
  {
    if items != [] {
      var s1 := if Known(s, items[0].command, cType) then s else s + [NewNode(nextId, items[0], cType)];
      var n1 := if Known(s, items[0].command, cType) then nextId else nextId + 1;
      LoadedCovers(s1, items[1..], cType, n1);
      var r := Loaded(s, items, cType, nextId);
      assert r == Loaded(s1, items[1..], cType, n1);
      assert r[..|s|] == r[..|s1|][..|s|];
      assert Known(s1, items[0].command, cType) by {
        if !Known(s, items[0].command, cType) {
          assert s1[|s|].command == items[0].command;
        }
      }
      assert Known(r, items[0].command, cType) by {
        var j :| 0 <= j < |s1| && s1[j].command == items[0].command && (cType != GLOBAL || s1[j].cType == GLOBAL);
        assert r[j] == s1[j];
      }
      forall k | 1 <= k < |items| ensures Known(r, items[k].command, cType) {
        assert items[k] == items[1..][k - 1];
      }
    }
  }

  /** Loading de-duplicates: every node it adds is of the catalog being loaded, and its
      command was not known to the list as it stood just before (the starting list and
      the nodes added earlier in the same loop). */
  lemma {:induction false} LoadedSkipsKnown(s: seq<FlatNode>, items: seq<SavedCommand>, cType: CommandType, nextId: nat)
    ensures var r := Loaded(s, items, cType, nextId);
      forall j :: |s| <= j < |r| ==> r[j].cType == cType && !Known(r[..j], r[j].command, cType)
    decreases |items|
  {
    if items != [] {
      var known := Known(s, items[0].command, cType);
      var s1 := if known then s else s + [NewNode(nextId, items[0], cType)];
      var n1 := if known then nextId else nextId + 1;
      var r := Loaded(s, items, cType, nextId);
      assert r == Loaded(s1, items[1..], cType, n1);
      LoadedSkipsKnown(s1, items[1..], cType, n1);
      if !known {
        LoadedCovers(s1, items[1..], cType, n1);
        assert r[..|s1|] == s1;
        assert r[|s|] == s1[|s|] && r[..|s|] == s1[..|s|] == s;
      }
    }
  }

  /** The nodes a load adds have pairwise distinct commands, and none of them was already
      known to the starting list. */
  lemma LoadedAddsDistinct(s: seq<FlatNode>, items: seq<SavedCommand>, cType: CommandType, nextId: nat)
    ensures var r := Loaded(s, items, cType, nextId);
      forall a, b :: |s| <= a < b < |r| ==> r[a].command != r[b].command
    ensures var r := Loaded(s, items, cType, nextId);
      forall j :: |s| <= j < |r| ==> !Known(s, r[j].command, cType)
  {
    var r := Loaded(s, items, cType, nextId);
    LoadedSkipsKnown(s, items, cType, nextId);
    LoadedCovers(s, items, cType, nextId);
    forall a, b | |s| <= a < b < |r| ensures r[a].command != r[b].command {
      KnownAt(r[..b], a, r[b].command, cType);
    }
    forall j | |s| <= j < |r| ensures !Known(s, r[j].command, cType) {
      assert r[..j][..|s|] == r[..|s|] == s;
      KnownInPrefix(s, r[..j], r[j].command, cType);
    }
  }

  /** A node of the list with the command, of the right catalog, makes it known. */
  lemma KnownAt(t: seq<FlatNode>, i: nat, command: string, cType: CommandType)
    ensures i < |t| && t[i].command == command && (cType != GLOBAL || t[i].cType == GLOBAL) ==>
      Known(t, command, cType)
  {
  }

  /** What a prefix of the list knows, the whole list knows. */
  lemma KnownInPrefix(s: seq<FlatNode>, t: seq<FlatNode>, command: string, cType: CommandType)
    requires |s| <= |t| && t[..|s|] == s
    ensures Known(s, command, cType) ==> Known(t, command, cType)
  {
    if Known(s, command, cType) {
      var i :| 0 <= i < |s| && s[i].command == command && (cType != GLOBAL || s[i].cType == GLOBAL);
      assert t[i] == s[i];
    }
  }

  /** Records with distinct commands, none known yet, are all loaded, in order and with
      their labels. */
  lemma {:induction false} LoadFresh(s: seq<FlatNode>, ns: seq<FlatNode>, cType: CommandType, nextId: nat)
    requires cType != TEMPORARY
    requires forall j :: 0 <= j < |ns| ==> ns[j].cType == cType
    requires forall a, b :: 0 <= a < b < |ns| ==> ns[a].command != ns[b].command
    requires forall j :: 0 <= j < |ns| ==> !Known(s, ns[j].command, cType)
    ensures Records(Loaded(s, Records(ns, cType), cType, nextId), cType) == Records(s, cType) + Records(ns, cType)
    decreases |ns|
  {
    if ns == [] {
      assert Records(s, cType) + [] == Records(s, cType);
    } else {
      var item := Record(ns[0]);
      var rest := ns[1..];
      var x := NewNode(nextId, item, cType);
      var s1 := s + [x];
      assert Record(x) == item;
      LoadStep(s, ns, cType, nextId);
      forall j | 0 <= j < |rest| ensures !Known(s1, rest[j].command, cType) {
        assert rest[j] == ns[j + 1];
        StillUnknown(s, x, rest[j].command, cType);
      }
      assert forall j :: 0 <= j < |rest| ==> rest[j] == ns[j + 1];
      LoadFresh(s1, rest, cType, nextId + 1);
      calc {
        Records(Loaded(s, Records(ns, cType), cType, nextId), cType);
        Records(Loaded(s1, Records(rest, cType), cType, nextId + 1), cType);
        Records(s1, cType) + Records(rest, cType);
        { RecordsAppend(s, [x], cType); RecordsSingle(x, cType); }
        (Records(s, cType) + [item]) + Records(rest, cType);
        Records(s, cType) + ([item] + Records(rest, cType));
        { assert Records(ns, cType) == [item] + Records(rest, cType); }
        Records(s, cType) + Records(ns, cType);
      }
    }
  }

  lemma RecordsSingle(x: FlatNode, cType: CommandType)
    requires x.cType == cType
    ensures Records([x], cType) == [Record(x)]
  {
    assert Records([x], cType) == [Record(x)] + Records([], cType);
  }

  /** The first record of fresh commands is loaded as a new node. */
  lemma LoadStep(s: seq<FlatNode>, ns: seq<FlatNode>, cType: CommandType, nextId: nat)
    requires ns != [] && ns[0].cType == cType && !Known(s, ns[0].command, cType)
    ensures Loaded(s, Records(ns, cType), cType, nextId) ==
      Loaded(s + [NewNode(nextId, Record(ns[0]), cType)], Records(ns[1..], cType), cType, nextId + 1)
  {
    var r := Records(ns, cType);
    assert r == [Record(ns[0])] + Records(ns[1..], cType);
    assert r[0] == Record(ns[0]) && r[1..] == Records(ns[1..], cType);
  }

  lemma StillUnknown(s: seq<FlatNode>, x: FlatNode, command: string, cType: CommandType)
    requires !Known(s, command, cType) && x.command != command
    ensures !Known(s + [x], command, cType)
  {
    var t := s + [x];
    forall j | 0 <= j < |t| && t[j].command == command ensures cType == GLOBAL && t[j].cType != GLOBAL {
      if j < |s| {
        assert t[j] == s[j];
      }
    }
  }

  lemma {:induction false} RecordsAppend(a: seq<FlatNode>, b: seq<FlatNode>, cType: CommandType)
    ensures Records(a + b, cType) == Records(a, cType) + Records(b, cType)
    decreases |a|
  {
    if a == [] {
      assert a + b == b;
    } else {
      var ab := a + b;
      assert ab[0] == a[0] && ab[1..] == a[1..] + b;
      var head := if a[0].cType == cType then [Record(a[0])] else [];
      assert Records(ab, cType) == head + Records(a[1..] + b, cType);
      assert Records(a, cType) == head + Records(a[1..], cType);
      RecordsAppend(a[1..], b, cType);
      var ra, rb := Records(a[1..], cType), Records(b, cType);
      assert head + (ra + rb) == (head + ra) + rb;
    }
  }

  /** Saving a catalog whose commands are distinct and loading the file into an empty
      list gives back the same records in the same order. */
  lemma SaveLoadRoundTrip(ns: seq<FlatNode>, cType: CommandType, nextId: nat)
    requires cType != TEMPORARY
    requires forall j :: 0 <= j < |ns| ==> ns[j].cType == cType
    requires forall a, b :: 0 <= a < b < |ns| ==> ns[a].command != ns[b].command
    ensures Records(Loaded([], SaveCommandsToFile(ns, cType).value, cType, nextId), cType) == Records(ns, cType)
  {
    LoadFresh([], ns, cType, nextId);
    assert Records([], cType) + Records(ns, cType) == Records(ns, cType);
  }

  predicate IdsBelow(s: seq<FlatNode>, bound: nat)
  {
    forall j :: 0 <= j < |s| ==> s[j].id < bound
  }

  /** Dropping the node at one index keeps identities distinct and below the bound. */
  lemma RemoveKeepsIds(s: seq<FlatNode>, i: nat, bound: nat)
    requires DistinctIds(s) && i < |s|
    requires IdsBelow(s, bound)
    ensures DistinctIds(s[..i] + s[i + 1..]) && IdsBelow(s[..i] + s[i + 1..], bound)
  {
    var t := s[..i] + s[i + 1..];
    assert forall j :: 0 <= j < i ==> t[j] == s[j];
    assert forall j :: i <= j < |t| ==> t[j] == s[j + 1];
  }

  // ---------------------------------------------------------------- the provider

  class FlatTerminalProvider {
    var terminals: seq<FlatNode>
    var nextId: nat
    var disposed: set<Handle>
    var launched: seq<Launch>

    /** Every node is a distinct object. */
    ghost predicate Valid()
      reads this
    {
      DistinctIds(terminals) && IdsBelow(terminals, nextId)
    }

    constructor()
      ensures Valid() && terminals == [] && disposed == {} && launched == []
    {
      terminals := [];
      nextId := 0;
      disposed := {};
      launched := [];
    }

    /** `addTerminalNode(command, state, label, cType)`: one new node at the end, labelled
        `label ?? command` (src/extension.ts:249-265). */
    method AddTerminalNode(command: string, state: State, name: Option<string>, cType: CommandType)
      requires Valid()
      modifies this`terminals, this`nextId
      ensures Valid()
      ensures terminals == old(terminals) + [FlatNode(old(nextId), LabelOr(name, command), command, state, cType, None)]
      ensures nextId == old(nextId) + 1
    {
      terminals := terminals + [FlatNode(nextId, LabelOr(name, command), command, state, cType, None)];
      nextId := nextId + 1;
    }

    /** `deleteTerminal(node)` for the node at index `i`: dispose of its terminal, drop it
        from the list and return the records written to its catalog's file
        (src/extension.ts:308-314). */
    method DeleteTerminal(i: nat) returns (written: Option<seq<SavedCommand>>)
      requires Valid() && i < |terminals|
      modifies this`terminals, this`disposed
      ensures Valid()
      ensures terminals == old(terminals[..i] + terminals[i + 1..])
      ensures disposed == old(disposed) + (match old(terminals[i].terminal) case Some(h) => {h} case None => {})
      ensures written == SaveCommandsToFile(terminals, old(terminals[i].cType))
    {
      var node := terminals[i];
      if node.terminal.Some? {
        disposed := disposed + {node.terminal.value};
      }
      WithoutIdRemovesIndex(terminals, i);
      RemoveKeepsIds(terminals, i, nextId);
      terminals := WithoutId(terminals, node.id);
      written := SaveCommandsToFile(terminals, node.cType);
    }

    /** `handleTerminalClose(closedTerminal)` (src/extension.ts:236-247). */
    method HandleTerminalClose(h: Handle) returns (index: int)
      requires Valid()
      modifies this`terminals
      ensures Valid()
      ensures index == IndexOfTerminal(old(terminals), h)
      ensures terminals == Closed(old(terminals), h)
    {
      index := IndexOfTerminal(terminals, h);
      if index != -1 {
        ghost var s := terminals;
        terminals := terminals[index := terminals[index].(state := STOPPED, terminal := None)];
        assert forall j :: 0 <= j < |terminals| ==> terminals[j].id == s[j].id;
      }
    }

    /** `runTerminal(node)`: a new terminal named after the node gets its command, and the
        node is RUNNING; there is no check for an empty command (src/extension.ts:316-322). */
    method RunTerminal(i: nat, h: Handle)
      requires Valid() && i < |terminals|
      modifies this`terminals, this`launched
      ensures Valid()
      ensures terminals == old(terminals)[i := old(terminals[i]).(terminal := Some(h), state := RUNNING)]
      ensures launched == old(launched) + [Launch(h, old(terminals[i].name), old(terminals[i].command))]
    {
      var node := terminals[i];
      launched := launched + [Launch(h, node.name, node.command)];
      terminals := terminals[i := node.(terminal := Some(h), state := RUNNING)];
    }

    /** `rerunTerminal(node)`: as `runTerminal`, after disposing of the old terminal
        (src/extension.ts:324-330). */
    method RerunTerminal(i: nat, h: Handle)
      requires Valid() && i < |terminals|
      modifies this`terminals, this`launched, this`disposed
      ensures Valid()
      ensures terminals == old(terminals)[i := old(terminals[i]).(terminal := Some(h), state := RUNNING)]
      ensures launched == old(launched) + [Launch(h, old(terminals[i].name), old(terminals[i].command))]
      ensures disposed == old(disposed) + (match old(terminals[i].terminal) case Some(t) => {t} case None => {})
    {
      var node := terminals[i];
      if node.terminal.Some? {
        disposed := disposed + {node.terminal.value};
      }
      launched := launched + [Launch(h, node.name, node.command)];
      terminals := terminals[i := node.(terminal := Some(h), state := RUNNING)];
    }

    /** `stopTerminal(node)`: dispose of the terminal and set STOPPED; the terminal stays
        recorded (src/extension.ts:364-368). */
    method StopTerminal(i: nat)
      requires Valid() && i < |terminals|
      modifies this`terminals, this`disposed
      ensures Valid()
      ensures terminals == old(terminals)[i := old(terminals[i]).(state := STOPPED)]
      ensures disposed == old(disposed) + (match old(terminals[i].terminal) case Some(t) => {t} case None => {})
    {
      var node := terminals[i];
      if node.terminal.Some? {
        disposed := disposed + {node.terminal.value};
      }
      terminals := terminals[i := node.(state := STOPPED)];
    }

    /** The forEach of `loadCommandsFromFile` over the file's records `items`
        (src/extension.ts:5-40). */
    method LoadCommandsFromFile(items: seq<SavedCommand>, cType: CommandType)
      requires Valid()
      modifies this`terminals, this`nextId
      ensures Valid()
      ensures terminals == Loaded(old(terminals), items, cType, old(nextId))
    {
      var i := 0;
      while i < |items|
        invariant 0 <= i <= |items|
        invariant Valid()
        invariant Loaded(old(terminals), items, cType, old(nextId)) == Loaded(terminals, items[i..], cType, nextId)
      {
        assert items[i..][0] == items[i] && items[i..][1..] == items[i + 1..];
        var item := items[i];
        var known := exists j :: (0 <= j < |terminals| && terminals[j].command == item.command &&
          (cType != GLOBAL || terminals[j].cType == GLOBAL));
        if !known {
          assert NewNode(nextId, item, cType) == FlatNode(nextId, LabelOr(item.name, item.command), item.command, STOPPED, cType, None);
          AddTerminalNode(item.command, STOPPED, item.name, cType);
        }
        i := i + 1;
      }
    }
  }

  /** `onDidCloseTerminal`: the global catalog first, the workspace catalog only when the
      global one did not know the terminal, the temporary one only when neither did
      (src/extension.ts:76-82). */
  method DispatchClose(global: FlatTerminalProvider, workspace: FlatTerminalProvider, temporary: FlatTerminalProvider, h: Handle)
    requires global != workspace && global != temporary && workspace != temporary
    requires global.Valid() && workspace.Valid() && temporary.Valid()
    modifies global`terminals, workspace`terminals, temporary`terminals
    ensures global.Valid() && workspace.Valid() && temporary.Valid()
    ensures global.terminals == Closed(old(global.terminals), h)
    ensures workspace.terminals ==
      if IndexOfTerminal(old(global.terminals), h) == -1 then Closed(old(workspace.terminals), h)
      else old(workspace.terminals)
    ensures temporary.terminals ==
      if IndexOfTerminal(old(global.terminals), h) == -1 && IndexOfTerminal(old(workspace.terminals), h) == -1
      then Closed(old(temporary.terminals), h)
      else old(temporary.terminals)
  {
    var g := global.HandleTerminalClose(h);
    if g == -1 {
      var w := workspace.HandleTerminalClose(h);
      if w == -1 {
        var _ := temporary.HandleTerminalClose(h);
      }
    }
  }
}
