# Execumate command tree, in Dafny

A Dafny model of the core of the Execumate VS Code extension: the command tree
kept by `TerminalDataProvider` (src/models/terminal-data-provider.ts), the
DTO/node mapping that loads and saves it, the multi-step input-box wizard, the
earlier flat-list provider of src/extension.ts, and the JSON replacer that keeps
runtime objects out of the saved file.

- `common.dfy` (`Common`): `Option`, the `State` and `CommandType` enums, node keys,
  opaque terminal handles and the `Launch` record of a terminal being created and
  sent a command.
- `strings.dfy` (`Strings`): JavaScript's `trim`, `split` and `join` on `seq<char>`,
  and the comma-separated variable list parsing of create/edit.
- `tree.dfy` (`CommandTree`): the forest of `Node`s and every pure query and update
  on it — `findNodeByKey`, `isChild`, `getParent`, `removeNode`, `reparentNode`,
  `addTerminalNode`, `getLocalRoots` and the `handleDrop` pipeline — with the
  structural facts about them (pre-order lookup, subtrees moved rather than
  copied, key multiset kept, key uniqueness kept, placement rules).
- `provider.dfy` (`TreeProvider`): the view helpers, the run/variable-selection
  logic, and class `TerminalDataProvider`, whose methods replace `terminals`
  with the updated forest and keep run state and terminal handles in maps keyed
  by node key.
- `mapper.dfy` (`NodeMapper`): the recursive DTO⇄node mapping and its round trips.
- `input_box_flow.dfy` (`InputFlow`): class `InputBoxFlow`, the step-counter
  wizard, and the create-terminal and create-group flows built from it.
- `flat_provider.dfy` (`FlatProvider`): the flat provider of src/extension.ts,
  its save filter and its de-duplicating load loop, and the close dispatch over
  the three providers.
- `safe_replacer.dfy` (`SafeReplacer`): the `safeReplacer` closure and its
  seen-set cycle cut.

Behaviours the code has are modelled as written and stated as lemmas, not
corrected:
- a group dropped onto itself leaves the forest (`GroupDroppedOntoItselfIsLost`);
- a leaf dropped onto itself is moved to the front of the roots (`LeafDroppedOntoItselfGoesFirst`);
- `handleTerminalClose` looks at root nodes only (`NestedTerminalCloseMissed`);
- `stopTerminal` disposes the terminal but keeps the handle;
- `deleteTerminal` disposes only the node's own terminal;
- `addTerminalNode` drops the node when the parent has no children list (`AddToTreeSpec`);
- create uses `label ?? command` and edit uses `label || command` (`EmptyLabelCreateVsEdit`);
- `rerunTerminal` re-sends the bare template, without variables.

## Model

| member | source | states |
|---|---|---|
| Common.StateName | src/extension.ts:139-143 | a state is written as one of the three enum strings |
| Common.StateNameInjective | src/extension.ts:139-143 | distinct states are written as distinct strings, so among leaves that have a state the context value identifies it |
| Strings.TrimStart | src/models/input-box-flow.ts:27 | the result is a suffix of the input, everything cut is whitespace and the result does not start with whitespace |
| Strings.TrimEnd | src/models/input-box-flow.ts:27 | the result is a prefix of the input, everything cut is whitespace and the result does not end with whitespace |
| Strings.Trim | src/models/input-box-flow.ts:27 | the trimmed answer neither starts nor ends with whitespace and uses only characters of the input |
| Strings.TrimIsSlice | src/models/input-box-flow.ts:27 | the trimmed answer is a contiguous slice of the input with only whitespace around it |
| Strings.TrimIdempotent | src/models/input-box-flow.ts:27 | trimming twice is trimming once |
| Strings.Split | src/models/terminal-data-provider.ts:327 | `split` gives at least one part and no part contains the separator |
| Strings.JoinSplit | src/models/terminal-data-provider.ts:327 | joining the parts of a split with the separator gives the string back |
| Strings.SplitJoin | src/models/terminal-data-provider.ts:556 | splitting a join of separator-free parts gives the parts back |
| Strings.ParseVariables | src/models/terminal-data-provider.ts:326-328 | an absent or empty answer gives no variables; otherwise variable `i` is the trim of the `i`-th comma-separated part, one per part, with no comma in it |
| CommandTree.FindNodeByKey | src/models/terminal-data-provider.ts:52-68 | a node is found exactly when the key occurs in the forest, and the found node has that key |
| CommandTree.FindNodeByKeyIsFirstInPreOrder | src/models/terminal-data-provider.ts:52-68 | the node found is the first one with the key in depth-first pre-order |
| CommandTree.AnyDescendantHasKeyIsMembership | src/models/terminal-data-provider.ts:127-139 | the recursive search of the children succeeds exactly when the key belongs to the children's subtrees |
| CommandTree.IsChildIffDescendant | src/models/terminal-data-provider.ts:121-140 | `isChild(n, x)` holds exactly when x is given and its key is the key of a proper descendant of n |
| CommandTree.NotOwnChild | src/models/terminal-data-provider.ts:121-140 | in a forest with unique keys no node is its own child, so a drop onto itself is not filtered |
| CommandTree.ParentInSpec | src/models/terminal-data-provider.ts:210-227 | the recursive parent search succeeds exactly for a key among the roots under a given parent or a key below the roots, and returns the node whose children hold the key |
| CommandTree.GetParentSpec | src/models/terminal-data-provider.ts:210-227 | `getParent` is defined exactly for non-root keys, and returns a node of the forest whose children hold the key |
| CommandTree.IndexOfKey | src/models/terminal-data-provider.ts:182 | `findIndex` gives the first index with the key, or -1 when none has it |
| CommandTree.IndexOfKeyMissing | src/models/terminal-data-provider.ts:182 | `findIndex` gives -1 exactly when no sibling has the key |
| CommandTree.RemoveAbsent | src/models/terminal-data-provider.ts:192-208 | removing a key that is not in the forest changes nothing and reports false |
| CommandTree.RemoveFromTreeSpec | src/models/terminal-data-provider.ts:192-208 | removal reports true exactly when the key is present, and then cuts exactly the found node's subtree out of the pre-order key sequence, the rest keeping its order |
| CommandTree.RemoveKeepsUnique | src/models/terminal-data-provider.ts:192-208 | removal keeps keys unique and the removed key is gone |
| CommandTree.ReplaceFirstSpec | src/models/terminal-data-provider.ts:173-180 | replacing the found node in place changes only its segment of the pre-order key sequence, and lookup then finds the replacement |
| CommandTree.ReplaceSameShape | src/models/terminal-data-provider.ts:539-557 | replacing a node by one with the same key and children leaves the forest's keys unchanged and lookup finds the new node |
| CommandTree.WithChild | src/models/terminal-data-provider.ts:171 | pushing a child keeps the group's key and appends the child's subtree to its keys |
| CommandTree.AddToTreeSpec | src/models/terminal-data-provider.ts:375-384 | without a parent the node is appended as the last root; under a parent with a children list it becomes that parent's last child and the keys grow by the node's subtree; under a parent without one the forest is unchanged |
| CommandTree.AddKeepsUnique | src/models/terminal-data-provider.ts:375-384 | adding a node with a fresh key keeps keys unique |
| CommandTree.InsertUnderParentSome | src/models/terminal-data-provider.ts:174-184 | a leaf target's sibling list under its parent gets the node right after the target |
| CommandTree.NoParentMeansRoot | src/models/terminal-data-provider.ts:174-184 | a key with no parent is found among the roots |
| CommandTree.InsertAfterSiblingSpec | src/models/terminal-data-provider.ts:174-184 | inserting next to a leaf adds exactly the node's subtree keys and puts the node right after the target |
| CommandTree.ReparentInTreeKeys | src/models/terminal-data-provider.ts:158-190 | reparenting keeps the key multiset when the node lands in the forest, and loses exactly its subtree otherwise |
| CommandTree.ReparentInTreeUnique | src/models/terminal-data-provider.ts:158-190 | reparenting keeps keys unique |
| CommandTree.ReparentOntoGroup | src/models/terminal-data-provider.ts:163-171 | onto another group, the node becomes the group's last child after the detach |
| CommandTree.ReparentNextToLeaf | src/models/terminal-data-provider.ts:172-185 | onto another leaf, the node is placed right after the target among its siblings |
| CommandTree.ReparentKeepsKeys | src/models/terminal-data-provider.ts:158-190 | onto any target other than itself, or onto none, the forest's key multiset is unchanged |
| CommandTree.GroupDroppedOntoItselfIsLost | src/models/terminal-data-provider.ts:163-171 | a group dropped onto itself leaves the forest together with its subtree |
| CommandTree.LeafDroppedOntoItselfGoesFirst | src/models/terminal-data-provider.ts:172-185 | a leaf dropped onto itself is detached and spliced in as the first root |
| CommandTree.Filter | src/models/terminal-data-provider.ts:112 | `filter` keeps exactly the elements that pass the test |
| CommandTree.KeysOf | src/models/terminal-data-provider.ts:145-147 | the dragged keys, one per dragged node, in order |
| CommandTree.ResolveKeys | src/models/terminal-data-provider.ts:105-107 | every resolved node is the forest's node for its key |
| CommandTree.ResolveKeysSpec | src/models/terminal-data-provider.ts:105-107 | resolving the dragged keys drops exactly the unknown keys and keeps the order |
| CommandTree.LocalRootsSpec | src/models/terminal-data-provider.ts:142-156 | a dragged node is a local root exactly when its immediate parent is absent or not dragged |
| CommandTree.LocalRootsOfStep | src/models/terminal-data-provider.ts:142-156 | the local roots are collected in input order, one test per dragged node |
| CommandTree.DropFilterSpec | src/models/terminal-data-provider.ts:112 | a root is kept exactly when the target is not one of its proper descendants |
| CommandTree.ReparentAllUnique | src/models/terminal-data-provider.ts:113-116 | reparenting the roots one after the other keeps keys unique |
| CommandTree.ReparentAllKeepsKeys | src/models/terminal-data-provider.ts:113-116 | when each root in turn is moved onto a target that is in the forest, is not that root and is not inside it, the forest keeps its key multiset: subtrees move, none is lost or copied |
| CommandTree.DropOneRoots | src/models/terminal-data-provider.ts:105-110 | a single dragged node of the forest resolves to itself and is its own local root |
| CommandTree.DropOneIsReparent | src/models/terminal-data-provider.ts:86-119 | dropping one node onto one of its descendants changes nothing; otherwise it is `reparentNode` |
| CommandTree.DropOneSpec | src/models/terminal-data-provider.ts:86-119 | a single-node drop onto a descendant is a no-op, and onto any other node or none keeps the key multiset |
| NodeMapper.MapTerminalNode | src/mappers/terminal-node.ts:5-20 | the node copies the DTO's key, label, cType, command, variables and isGroup, carries no run state, and an absent children list stays absent |
| NodeMapper.MapTerminalNodes | src/mappers/terminal-node.ts:22-27 | one node per DTO, in order |
| NodeMapper.MapTerminalNodeToDTO | src/mappers/terminal-node.ts:29-42 | the DTO copies the node's fields and has no provider, terminal or state field, and an absent children list stays absent |
| NodeMapper.MapTerminalNodeToDTOs | src/mappers/terminal-node.ts:44-46 | one DTO per node, in order |
| NodeMapper.NodeRoundTrip | src/mappers/terminal-node.ts:5-42 | mapping a node to its DTO and back gives the node |
| NodeMapper.ForestRoundTrip | src/mappers/terminal-node.ts:22-27 | saving a forest and loading it back gives the forest |
| NodeMapper.DtoRoundTrip | src/mappers/terminal-node.ts:5-42 | mapping a DTO to a node and back gives the DTO, children included |
| NodeMapper.DocumentRoundTrip | src/mappers/terminal-node.ts:22-27 | loading a document and saving it back gives the document |
| TreeProvider.GetIconForState | src/models/terminal-data-provider.ts:229-238 | running shows "terminal", stopped "debug-disconnect", and error or no state "error" |
| TreeProvider.GetContextValue | src/models/terminal-data-provider.ts:240-248 | the context value is "terminalNodeGroup" exactly for groups; a leaf's starts with "terminalNode-" |
| TreeProvider.ContextValueShowsState | src/models/terminal-data-provider.ts:240-248 | two leaves that both have a state and show equal context values have equal states (a leaf without a state shows its label instead) |
| TreeProvider.GetDescription | src/models/terminal-data-provider.ts:250-254 | the command is shown exactly when it is non-empty and differs from the label |
| TreeProvider.GetCollapsibleState | src/models/terminal-data-provider.ts:264-268 | a node is collapsible exactly when it has a non-empty children list |
| TreeProvider.VariableItems | src/models/terminal-data-provider.ts:440 | one plain item per variable, in order |
| TreeProvider.GetQuickPickItems | src/models/terminal-data-provider.ts:435-444 | no variables give no items; otherwise the variables, then the separator, then the save item |
| TreeProvider.NonSaveTextsAppend | src/models/terminal-data-provider.ts:446-451 | the save filter works item by item |
| TreeProvider.NoTextsFromSaves | src/models/terminal-data-provider.ts:446-451 | a selection of save items only gives the empty variable string |
| TreeProvider.SelectedVariablesOfItems | src/models/terminal-data-provider.ts:435-451 | picking variable items gives those variables joined by single spaces |
| TreeProvider.SaveItemAddsNothing | src/models/terminal-data-provider.ts:446-451 | the save item contributes nothing to the variable string |
| TreeProvider.ResolvedCommand | src/models/terminal-data-provider.ts:423-425 | the resolved command starts with the template |
| TreeProvider.PlanRun | src/models/terminal-data-provider.ts:393-433 | no command means no run; a command without variables runs the bare template on the node; a cancelled pick runs nothing; any run or save starts with the template |
| TreeProvider.PickAndSave | src/models/terminal-data-provider.ts:406-433 | picking variables with the save item saves and runs the template, a space and the variables joined by spaces |
| TreeProvider.PickNoSave | src/models/terminal-data-provider.ts:406-433 | picking variables without the save item runs the template, a space and the variables joined by spaces on the node itself |
| TreeProvider.SavedCopy | src/models/terminal-data-provider.ts:458-468 | the saved command keeps label, cType and isGroup, takes the resolved command, and has no variables and no children |
| TreeProvider.SavedCopyLands | src/models/terminal-data-provider.ts:458-473 | the saved copy adds exactly its key, as a last root for a root node or among the node's parent's children |
| TreeProvider.At | src/models/terminal-data-provider.ts:323-329 | reading an answer gives it when there is one and undefined otherwise |
| TreeProvider.NewGroup | src/models/terminal-data-provider.ts:299-317 | a group is created exactly when the name is non-empty, with that name, an empty children list and no command |
| TreeProvider.NewTerminal | src/models/terminal-data-provider.ts:319-355 | a terminal is created exactly when the command is non-empty, labelled `label ?? command`, with the parsed variables |
| TreeProvider.EditedTerminal | src/models/terminal-data-provider.ts:519-558 | an edit applies exactly when the command is non-empty; the label becomes `label \|\| command` and the variables are reparsed |
| TreeProvider.EditedGroup | src/models/terminal-data-provider.ts:560-567 | a group edit applies exactly when the name is non-empty, and changes the name only |
| TreeProvider.EmptyLabelCreateVsEdit | src/models/terminal-data-provider.ts:331 | an empty label stays empty on create and becomes the command on edit |
| TreeProvider.EditKeepsShape | src/models/terminal-data-provider.ts:519-567 | an edit leaves the forest's keys unchanged and lookup finds the edited node |
| TreeProvider.RootIndexOfHandle | src/models/terminal-data-provider.ts:357-368 | the index of the first root holding the closed terminal, or -1 when no root holds it |
| TreeProvider.NestedTerminalCloseMissed | src/models/terminal-data-provider.ts:358-360 | a terminal held by a nested node is not found on close |
| TreeProvider.TerminalDataProvider.constructor | src/models/terminal-data-provider.ts:37-44 | a new provider has an empty forest and no run state |
| TreeProvider.TerminalDataProvider.GetChildren | src/models/terminal-data-provider.ts:283-288 | the roots for no element, and the element's children otherwise |
| TreeProvider.TerminalDataProvider.GetTreeItem | src/models/terminal-data-provider.ts:270-281 | groups get the folder icon and commands the icon of their state; the context value reflects the node's state, the description is `GetDescription`'s, and the item is collapsible exactly when it has children |
| TreeProvider.TerminalDataProvider.RemoveIn | src/models/terminal-data-provider.ts:192-208 | the loop over a sibling list, with recursion into children, removes the first pre-order occurrence and reports it |
| TreeProvider.TerminalDataProvider.RemoveNode | src/models/terminal-data-provider.ts:192-208 | returns true exactly when the key was present; afterwards the key is gone and keys stay unique |
| TreeProvider.TerminalDataProvider.ReparentNode | src/models/terminal-data-provider.ts:158-190 | the forest becomes the reparented forest and keys stay unique |
| TreeProvider.TerminalDataProvider.GetLocalRoots | src/models/terminal-data-provider.ts:142-156 | the loop collects exactly the local roots, in input order |
| TreeProvider.TerminalDataProvider.HandleDrop | src/models/terminal-data-provider.ts:86-119 | resolve, keep local roots, drop roots above the target, reparent each in turn; keys stay unique |
| TreeProvider.TerminalDataProvider.AddTerminalNode | src/models/terminal-data-provider.ts:375-384 | the node is added as `AddToTree` places it and keys stay unique |
| TreeProvider.TerminalDataProvider.CreateGroup | src/models/terminal-data-provider.ts:299-317 | an empty name adds nothing; otherwise the new group is added under the parent |
| TreeProvider.TerminalDataProvider.CreateTerminal | src/models/terminal-data-provider.ts:319-355 | an empty command adds nothing; otherwise the new terminal is added under the parent |
| TreeProvider.TerminalDataProvider.DeleteTerminal | src/models/terminal-data-provider.ts:386-391 | the node's own terminal, if any, is disposed and its subtree is removed; the removed nodes' run states and terminal handles are forgotten, as they went with the node objects |
| TreeProvider.TerminalDataProvider.EditTerminal | src/models/terminal-data-provider.ts:519-567 | a valid edit replaces the node in place and keeps the keys; an empty answer changes nothing |
| TreeProvider.TerminalDataProvider.RunCommandInTerminal | src/models/terminal-data-provider.ts:481-490 | an empty command changes nothing; otherwise a terminal is launched with the command and the node is RUNNING with that handle |
| TreeProvider.TerminalDataProvider.HandleVariableSaveCommand | src/models/terminal-data-provider.ts:458-473 | the saved copy is added as the last child of the node's parent, or as the last root when the node is a root, adding exactly one key, and is run |
| TreeProvider.TerminalDataProvider.HandleVariableSelection | src/models/terminal-data-provider.ts:406-433 | a cancelled pick changes nothing; with the save item the copy is saved and run; otherwise the resolved command runs on the node |
| TreeProvider.TerminalDataProvider.RunTerminal | src/models/terminal-data-provider.ts:393-404 | carries out exactly the plan `PlanRun` gives |
| TreeProvider.TerminalDataProvider.RerunTerminal | src/models/terminal-data-provider.ts:506-517 | without a command nothing changes; otherwise the old terminal is disposed and the bare template runs in a new one |
| TreeProvider.TerminalDataProvider.StopTerminal | src/models/terminal-data-provider.ts:582-585 | the state becomes STOPPED whatever it was and the terminal is disposed, the handle kept |
| TreeProvider.TerminalDataProvider.HandleTerminalClose | src/models/terminal-data-provider.ts:357-368 | the first root holding the terminal becomes STOPPED and loses its handle and its index is returned; otherwise -1 and nothing changes |
| TreeProvider.TerminalDataProvider.AddTerminals | src/models/terminal-data-provider.ts:370-373 | the loaded forest becomes the provider's forest |
| InputFlow.Configure | src/models/input-box-flow.ts:41-49 | a handler shows its step and placeholder, and its prompt only when non-empty |
| InputFlow.AcceptsToComplete | src/models/input-box-flow.ts:25-38 | a fresh flow completes first after one accept per step, or earlier at the first step without a handler |
| InputFlow.InputBoxFlow.constructor | src/models/input-box-flow.ts:11-24 | a fresh flow is at step 1 with no answers and no handlers |
| InputFlow.InputBoxFlow.AddStep | src/models/input-box-flow.ts:41-49 | one handler is appended |
| InputFlow.AcceptSpec | src/models/input-box-flow.ts:25-38 | past the last step an accept changes nothing; otherwise the trimmed answer follows the old ones, the step goes up by one and the box is emptied, and a completion with all answers is recorded exactly when the new step has no handler or is past the last; otherwise the box shows the new step |
| InputFlow.InputBoxFlow.Accept | src/models/input-box-flow.ts:25-38 | the flow's step, answers, box and completions become what `AcceptState` gives for the old ones; `\|values\| == step - 1` is kept |
| InputFlow.ThreeAnswersComplete | src/models/terminal-data-provider.ts:319-355 | on a three-step flow with two handlers, the first two answers complete nothing and the third completes it with the three trimmed answers and hides the box |
| InputFlow.NewTerminalFlow | src/models/terminal-data-provider.ts:319-355 | the create-terminal flow starts at step 1 of 3 with two handlers, no answers and a visible box |
| InputFlow.CreateTerminalFlow | src/models/terminal-data-provider.ts:319-355 | three answers complete the create-terminal flow once, with the three trimmed answers |
| InputFlow.CreateGroupFlow | src/models/terminal-data-provider.ts:299-317 | one answer completes the create-group flow with the trimmed name |
| FlatProvider.LabelOr | src/extension.ts:249-265 | the label is the given one when present and the command otherwise |
| FlatProvider.WithoutIdRemovesIndex | src/extension.ts:308-314 | filtering out a node removes exactly that node and keeps the others in order |
| FlatProvider.DeleteUndoesAdd | src/extension.ts:249-265 | deleting the node just added gives the list back |
| FlatProvider.IndexOfTerminal | src/extension.ts:236-247 | the first index whose node holds the terminal, or -1 when none does |
| FlatProvider.Closed | src/extension.ts:236-247 | the matching node becomes STOPPED without a terminal, or nothing changes |
| FlatProvider.CloseTwice | src/extension.ts:236-247 | a second close of the same terminal finds nothing and changes nothing |
| FlatProvider.SaveCommandsToFile | src/extension.ts:267-286 | nothing is written for TEMPORARY commands, a record list otherwise |
| FlatProvider.NewNode | src/extension.ts:29-35 | a loaded command is STOPPED, keeps its command and scope, and has no terminal |
| FlatProvider.LoadedCovers | src/extension.ts:21-36 | loading keeps the existing nodes first and leaves every item's command known |
| FlatProvider.LoadFresh | src/extension.ts:21-36 | loading distinct unknown commands adds exactly their records, in order |
| FlatProvider.LoadedSkipsKnown | src/extension.ts:21-36 | every node a load adds is of the loaded catalog and its command was not known to the list as it stood just before, earlier additions of the same load included |
| FlatProvider.LoadedAddsDistinct | src/extension.ts:21-36 | the nodes a load adds have pairwise distinct commands and none was known to the starting list |
| FlatProvider.RecordsAppend | src/extension.ts:276-281 | the save filter works node by node |
| FlatProvider.SaveLoadRoundTrip | src/extension.ts:5-40 | loading a saved file into an empty provider gives back the saved records |
| FlatProvider.FlatTerminalProvider.constructor | src/extension.ts:164-170 | a new provider holds no nodes |
| FlatProvider.FlatTerminalProvider.AddTerminalNode | src/extension.ts:249-265 | exactly one node is appended, labelled `label ?? command`, with the given state and scope |
| FlatProvider.FlatTerminalProvider.DeleteTerminal | src/extension.ts:308-314 | the node is removed, the others keep their order, its terminal is disposed and the remaining list is saved |
| FlatProvider.FlatTerminalProvider.HandleTerminalClose | src/extension.ts:236-247 | returns the first matching index, and that node becomes STOPPED without a terminal; identities stay distinct |
| FlatProvider.FlatTerminalProvider.RunTerminal | src/extension.ts:316-322 | the node gets a new terminal running its command and becomes RUNNING |
| FlatProvider.FlatTerminalProvider.RerunTerminal | src/extension.ts:324-330 | the old terminal is disposed and the node runs in a new one |
| FlatProvider.FlatTerminalProvider.StopTerminal | src/extension.ts:364-368 | the node becomes STOPPED and its terminal is disposed |
| FlatProvider.FlatTerminalProvider.LoadCommandsFromFile | src/extension.ts:19-38 | the loop adds each item whose command is not yet known, including ones added earlier in the loop |
| FlatProvider.DispatchClose | src/extension.ts:76-82 | global is tried first, workspace only if global missed, temporary only if both missed; all three providers stay valid |
| SafeReplacer.Step | src/safe-replacer.ts:3-20 | blocked keys and runtime holders give undefined; an object seen before gives undefined; a new object is returned and remembered; anything else passes unchanged |
| SafeReplacer.Run | src/safe-replacer.ts:3-20 | one output per call, and the seen set only grows |
| SafeReplacer.RunWritesEachObjectOnce | src/safe-replacer.ts:13-18 | every object written out was unseen before and is remembered after, and no object is written out twice |
| SafeReplacer.Replacer.constructor | src/safe-replacer.ts:2 | each replacer starts with an empty seen set |
| SafeReplacer.Replacer.Replace | src/safe-replacer.ts:3-20 | one call of the closure does what `Step` says to the value and the seen set |
| SafeReplacer.ReplaceTwice | src/safe-replacer.ts:13-18 | a fresh replacer writes an object out the first time and leaves it out the second |

## Left out

- File I/O: reading and writing the JSON files, folder creation and path resolution, the missing-folder and missing-file cases and JSON parse errors. A load takes the parsed items as a parameter and a save returns what it would write.
- The VS Code API: terminals are opaque handles, `createTerminal`/`sendText` is a `Launch` entry, `dispose` adds to a set; quick picks and input boxes are parameters; tree items are reduced to icon id, context value, description and collapsible state; `iconPath` is not modelled.
- Asynchrony: the quick-pick continuation is the method receiving the selection; no interleaving is modelled.
- Change notifications, `saveTerminals` and `updateNodeState` firing: they only notify the view and call file I/O.
- Key generation: new keys are parameters that must be fresh.
- The `DataTransfer`/MIME handling of drag and drop: `HandleDrop` takes the dragged key list.
- `getCommand` and `getQuickPickCommandTypes`: they are command registration and UI choices.
- The flat provider's `createTerminal`, `editTerminal`, `saveCommandToJson`, `getTreeItem` and `getChildren`: input-box and file plumbing around `addTerminalNode`, `saveCommandsToFile` and `terminals`.
- The edit flows' pre-filled answers: the wizard's constructor accepts no initial values, so an edit takes the answers as a parameter.
- Terminal handles: a new handle is a parameter and is not required to differ from the handles already held, whereas the host's `createTerminal` always returns a new object.
- The node field `label` is called `name`, because `label` is a Dafny keyword.
- InputFlow.InputBoxFlow.Accept: each completion records a snapshot of the answers; the source passes its `values` array itself, which later accepts can still change.
- CommandTree.ReparentAllUnique: dropping several roots on a leaf puts them in reverse order; the definition `ReparentAll` captures this, but no lemma states the order.
- CommandTree.ReparentAllKeepsKeys: its premise `EachStepLands` is stated on each intermediate forest; no lemma derives it from the drop's inputs (a target outside every filtered root), since that needs a frame lemma on how one move leaves the subtrees of other nodes.
- TreeProvider.TerminalDataProvider.EditTerminal: requires that the node passed in is the tree's node for its key, since the source edits that object in place.
- Object identity in the tree provider is the node key, with keys unique; the flat provider, which filters by object identity, gives its nodes an `id`.
