/** The command tree of src/models/terminal-data-provider.ts as values: a forest
    of nodes, the recursive queries the provider runs over it, and the updates it
    makes in place, written as functions that rebuild the path to the changed list. */
module CommandTree {
  import opened Common

  /** A command node as the provider keeps it. Run state and the terminal handle are
      not here: the provider keeps them beside the tree, by key. */
  datatype Node = Node(
    key: Key,
    name: string,
    cType: CommandType,
    isGroup: Option<bool>,
    command: Option<string>,
    variables: Option<seq<string>>,
    children: ChildList)

  /** The `children` field: `undefined`, or an array of nodes. */
  datatype ChildList = NoChildren | Children(nodes: seq<Node>)

  /** The children a traversal visits: an absent list is visited as empty. */
  function Kids(n: Node): seq<Node>
  {
    match n.children
    case NoChildren => []
    case Children(c) => c
  }

  /** `node.isGroup` tested for truth: only an explicit `true` makes a group. */
  predicate IsGroup(n: Node)
  {
    n.isGroup == Some(true)
  }

  function NodeSize(n: Node): nat
    decreases n
  {
    1 + match n.children
        case NoChildren => 0
        case Children(c) => ForestSize(c)
  }

  function ForestSize(f: seq<Node>): nat
    decreases f
  {
    if f == [] then 0 else NodeSize(f[0]) + ForestSize(f[1..])
  }

  /** Both recursive descents of a forest walk shrink it: into the first node's
      children, and on to its later siblings. */
  lemma Shrinks(f: seq<Node>)
    requires f != []
    ensures ForestSize(Kids(f[0])) < ForestSize(f)
    ensures ForestSize(f[1..]) < ForestSize(f)
    ensures NodeSize(f[0]) <= ForestSize(f)
  {
  }

  /** The nodes of a forest in depth-first pre-order. */
  function Flatten(f: seq<Node>): seq<Node>
    decreases ForestSize(f)
  {
    if f == [] then [] else Shrinks(f); [f[0]] + Flatten(Kids(f[0])) + Flatten(f[1..])
  }

  /** The keys of a forest in depth-first pre-order. */
  function Keys(f: seq<Node>): seq<Key>
    decreases ForestSize(f)
  {
    if f == [] then [] else Shrinks(f); [f[0].key] + Keys(Kids(f[0])) + Keys(f[1..])
  }

  /** The keys of the top-level nodes of a list. */
  function RootKeys(f: seq<Node>): seq<Key>
  {
    if f == [] then [] else [f[0].key] + RootKeys(f[1..])
  }

  /** The keys of every node that is somebody's child. */
  function NonRootKeys(f: seq<Node>): seq<Key>
    decreases ForestSize(f)
  {
    if f == [] then [] else Shrinks(f); Keys(Kids(f[0])) + NonRootKeys(f[1..])
  }

  /** The invariant every key comparison of the provider relies on. */
  ghost predicate UniqueKeys(f: seq<Node>)
  {
    forall k :: multiset(Keys(f))[k] <= 1
  }

  lemma {:induction false} KeysAppend(a: seq<Node>, b: seq<Node>)
    ensures Keys(a + b) == Keys(a) + Keys(b)
    decreases |a|
  {
    if a != [] {
      assert (a + b)[0] == a[0];
      assert (a + b)[1..] == a[1..] + b;
      KeysAppend(a[1..], b);
    } else {
      assert a + b == b;
    }
  }

  lemma {:induction false} FlattenAppend(a: seq<Node>, b: seq<Node>)
    ensures Flatten(a + b) == Flatten(a) + Flatten(b)
    decreases |a|
  {
    if a != [] {
      assert (a + b)[0] == a[0];
      assert (a + b)[1..] == a[1..] + b;
      FlattenAppend(a[1..], b);
    } else {
      assert a + b == b;
    }
  }

  /** The keys of a node's subtree, the node first. */
  function SubtreeKeys(n: Node): seq<Key>
  {
    [n.key] + Keys(Kids(n))
  }

  lemma KeysPrepend(n: Node, rest: seq<Node>)
    ensures Keys([n] + rest) == SubtreeKeys(n) + Keys(rest)
  {
    assert ([n] + rest)[0] == n && ([n] + rest)[1..] == rest;
  }

  /** One step of the pre-order key listing: the first subtree, then the rest. */
  lemma KeysStep(f: seq<Node>)
    requires f != []
    ensures Keys(f) == SubtreeKeys(f[0]) + Keys(f[1..])
  {
  }

  lemma Regroup<T>(a: seq<T>, b: seq<T>, c: seq<T>, d: seq<T>, e: seq<T>)
    ensures a + (b + c + d) + e == (a + b) + c + (d + e)
  {
  }

  lemma RegroupTail<T>(a: seq<T>, b: seq<T>, c: seq<T>, d: seq<T>)
    ensures a + (b + c + d) == (a + b) + c + d
  {
  }

  lemma Assoc<T>(a: seq<T>, b: seq<T>, c: seq<T>)
    ensures a + (b + c) == a + b + c
  {
  }

  lemma RegroupCut<T>(a: seq<T>, b: seq<T>, c: seq<T>, e: seq<T>)
    ensures a + (b + c) + e == (a + b) + (c + e)
  {
  }

  lemma KeysSingle(n: Node)
    ensures Keys([n]) == SubtreeKeys(n)
  {
    assert [n][1..] == [];
  }

  lemma {:induction false} RootKeysIn(f: seq<Node>, k: Key)
    ensures k in RootKeys(f) <==> exists i :: 0 <= i < |f| && f[i].key == k
    decreases |f|
  {
    if f != [] {
      RootKeysIn(f[1..], k);
      if k in RootKeys(f[1..]) {
        var i :| 0 <= i < |f[1..]| && f[1..][i].key == k;
        assert f[i + 1].key == k;
      }
      if exists i :: 0 <= i < |f| && f[i].key == k {
        var i :| 0 <= i < |f| && f[i].key == k;
        if i > 0 { assert f[1..][i - 1].key == k; }
      }
    }
  }

  // ---------------------------------------------------------------- lookup

  /** `findNodeByKey`: the first node of the forest, in depth-first pre-order,
      whose key is `k` (src/models/terminal-data-provider.ts:52-68). */
  function FindNodeByKey(f: seq<Node>, k: Key): (r: Option<Node>)
    ensures r.Some? <==> k in Keys(f)
    ensures r.Some? ==> r.value.key == k
    decreases ForestSize(f)
  {
    if f == [] then None
    else if f[0].key == k then Some(f[0])
    else
      Shrinks(f);
      match FindNodeByKey(Kids(f[0]), k)
      case Some(n) => Some(n)
      case None => FindNodeByKey(f[1..], k)
  }

  /** The first node with key `k` in a flat list. */
  function FirstWithKey(s: seq<Node>, k: Key): Option<Node>
  {
    if s == [] then None
    else if s[0].key == k then Some(s[0])
    else FirstWithKey(s[1..], k)
  }

  lemma {:induction false} FirstWithKeyAppend(a: seq<Node>, b: seq<Node>, k: Key)
    ensures FirstWithKey(a + b, k) ==
      if FirstWithKey(a, k).Some? then FirstWithKey(a, k) else FirstWithKey(b, k)
    decreases |a|
  {
    if a != [] {
      assert (a + b)[0] == a[0];
      assert (a + b)[1..] == a[1..] + b;
      FirstWithKeyAppend(a[1..], b, k);
    } else {
      assert a + b == b;
    }
  }

  /** The lookup agrees with a linear scan of the pre-order listing. */
  lemma {:induction false} FindNodeByKeyIsFirstInPreOrder(f: seq<Node>, k: Key)
    ensures FindNodeByKey(f, k) == FirstWithKey(Flatten(f), k)
    decreases ForestSize(f)
  {
    if f != [] {
      Shrinks(f);
      FindNodeByKeyIsFirstInPreOrder(Kids(f[0]), k);
      FindNodeByKeyIsFirstInPreOrder(f[1..], k);
      FlattenStep(f);
      var a, b := Flatten(Kids(f[0])), Flatten(f[1..]);
      var s := [f[0]] + (a + b);
      assert s[0] == f[0] && s[1..] == a + b;
      if f[0].key != k {
        assert FirstWithKey(s, k) == FirstWithKey(a + b, k);
        FirstWithKeyAppend(a, b, k);
        FindStep(f, k);
      }
    }
  }

  lemma FlattenStep(f: seq<Node>)
    requires f != []
    ensures Flatten(f) == [f[0]] + (Flatten(Kids(f[0])) + Flatten(f[1..]))
  {
    var a, b := Flatten(Kids(f[0])), Flatten(f[1..]);
    assert Flatten(f) == [f[0]] + a + b;
    Assoc([f[0]], a, b);
  }

  lemma FindStep(f: seq<Node>, k: Key)
    requires f != [] && f[0].key != k
    ensures FindNodeByKey(f, k) ==
      if FindNodeByKey(Kids(f[0]), k).Some? then FindNodeByKey(Kids(f[0]), k) else FindNodeByKey(f[1..], k)
  {
  }

  /** `isChild(node, x)`: does a proper descendant of `node` carry the key of `x`
      (src/models/terminal-data-provider.ts:121-140)? */
  function IsChild(node: Node, x: Option<Node>): bool
  {
    x.Some? && AnyDescendantHasKey(Kids(node), x.value.key)
  }

  /** The loop of `isChild` over one list of children. */
  function AnyDescendantHasKey(kids: seq<Node>, k: Key): bool
    decreases ForestSize(kids)
  {
    if kids == [] then false
    else
      Shrinks(kids);
      kids[0].key == k || AnyDescendantHasKey(Kids(kids[0]), k) || AnyDescendantHasKey(kids[1..], k)
  }

  lemma {:induction false} AnyDescendantHasKeyIsMembership(kids: seq<Node>, k: Key)
    ensures AnyDescendantHasKey(kids, k) <==> k in Keys(kids)
    decreases ForestSize(kids)
  {
    if kids != [] {
      Shrinks(kids);
      AnyDescendantHasKeyIsMembership(Kids(kids[0]), k);
      AnyDescendantHasKeyIsMembership(kids[1..], k);
    }
  }

  /** `isChild(n, x)` holds exactly when `x` is given and its key is the key of a
      proper descendant of `n`; in particular `isChild(n, n)` is false when keys are unique. */
  lemma IsChildIffDescendant(n: Node, x: Option<Node>)
    ensures IsChild(n, x) <==> x.Some? && x.value.key in Keys(Kids(n))
  {
    AnyDescendantHasKeyIsMembership(Kids(n), if x.Some? then x.value.key else n.key);
  }

  lemma NotOwnChild(f: seq<Node>, n: Node)
    requires UniqueKeys(f) && FindNodeByKey(f, n.key) == Some(n)
    ensures !IsChild(n, Some(n))
  {
    IsChildIffDescendant(n, Some(n));
    var pre, post := FoundSegment(f, n.key);
    KeysSingle(n);
    assert multiset(Keys(f))[n.key] ==
      multiset(pre)[n.key] + 1 + multiset(Keys(Kids(n)))[n.key] + multiset(post)[n.key];
  }

  /** The node `findNodeByKey` returns heads a contiguous run of the key listing: its subtree. */
  lemma FoundSegment(f: seq<Node>, k: Key) returns (pre: seq<Key>, post: seq<Key>)
    requires k in Keys(f)
    ensures Keys(f) == pre + SubtreeKeys(FindNodeByKey(f, k).value) + post
    ensures k !in pre
  {
    pre, post := RemoveSegment(f, k);
  }

  /** `getParent(element, parent, tree)`: searching `tree` depth-first, the parent of
      the first node with key `k` met below a known parent; a match among the roots
      themselves (where `parent` is undefined) is passed over
      (src/models/terminal-data-provider.ts:210-227). */
  function ParentIn(tree: seq<Node>, k: Key, parent: Option<Node>): (r: Option<Node>)
    decreases ForestSize(tree)
  {
    if tree == [] then None
    else if tree[0].key == k && parent.Some? then parent
    else
      Shrinks(tree);
      match ParentIn(Kids(tree[0]), k, Some(tree[0]))
      case Some(p) => Some(p)
      case None => ParentIn(tree[1..], k, parent)
  }

  /** `getParent(element)` on the whole forest. */
  function GetParent(f: seq<Node>, k: Key): Option<Node>
  {
    ParentIn(f, k, None)
  }

  /** The parent search finds something exactly when `k` is a key one level or more below
      a known parent, and what it finds has a child with key `k`. */
  lemma {:induction false} ParentInSpec(tree: seq<Node>, k: Key, parent: Option<Node>)
    ensures ParentIn(tree, k, parent).Some? <==>
      (parent.Some? && k in RootKeys(tree)) || k in NonRootKeys(tree)
    ensures ParentIn(tree, k, parent).Some? ==>
      var p := ParentIn(tree, k, parent).value;
      (parent.Some? && p == parent.value && k in RootKeys(tree)) || (p in Flatten(tree) && k in RootKeys(Kids(p)))
    decreases ForestSize(tree)
  {
    if tree != [] {
      Shrinks(tree);
      var n := tree[0];
      ParentInSpec(Kids(n), k, Some(n));
      ParentInSpec(tree[1..], k, parent);
      NonRootKeysHead(Kids(n));
      if n.key == k && parent.Some? {
      } else if ParentIn(Kids(n), k, Some(n)).Some? {
        assert Flatten(tree) == [n] + Flatten(Kids(n)) + Flatten(tree[1..]);
      } else {
        assert Flatten(tree) == [n] + Flatten(Kids(n)) + Flatten(tree[1..]);
      }
    }
  }

  lemma {:induction false} NonRootKeysHead(f: seq<Node>)
    ensures Keys(f) == [] <==> f == []
    ensures forall k :: k in Keys(f) <==> k in RootKeys(f) || k in NonRootKeys(f)
    decreases ForestSize(f)
  {
    if f != [] {
      Shrinks(f);
      NonRootKeysHead(f[1..]);
    }
  }

  /** `getParent` on the forest: a parent is found exactly when `k` is not a root-only key. */
  lemma GetParentSpec(f: seq<Node>, k: Key)
    ensures GetParent(f, k).Some? <==> k in NonRootKeys(f)
    ensures GetParent(f, k).Some? ==>
      GetParent(f, k).value in Flatten(f) && k in RootKeys(Kids(GetParent(f, k).value))
  {
    ParentInSpec(f, k, None);
  }

  /** `findIndex` on the key. */
  function IndexOfKey(s: seq<Node>, k: Key): (i: int)
    ensures -1 <= i < |s|
    ensures i >= 0 ==> s[i].key == k && forall j :: 0 <= j < i ==> s[j].key != k
    ensures i == -1 ==> forall j :: 0 <= j < |s| ==> s[j].key != k
  {
    if s == [] then -1
    else if s[0].key == k then 0
    else
      var i := IndexOfKey(s[1..], k);
      if i == -1 then -1 else i + 1
  }


  // ---------------------------------------------------------------- updates

  /** `removeNode(element, tree)`: splice the first node with key `k` out of the list
      that holds it, looking at each node before its children and at the children of
      a node (when it has some) before its next sibling; the flag says whether anything
      was removed (src/models/terminal-data-provider.ts:192-208). */
  function RemoveFromTree(tree: seq<Node>, k: Key): (seq<Node>, bool)
    decreases ForestSize(tree)
  {
    if tree == [] then ([], false)
    else if tree[0].key == k then (tree[1..], true)
    else
      Shrinks(tree);
      var (c, found) := if |Kids(tree[0])| > 0 then RemoveFromTree(Kids(tree[0]), k) else ([], false);
      if found then ([tree[0].(children := Children(c))] + tree[1..], true)
      else
        var (rest, b) := RemoveFromTree(tree[1..], k);
        ([tree[0]] + rest, b)
  }

  lemma {:induction false} RemoveAbsent(tree: seq<Node>, k: Key)
    requires k !in Keys(tree)
    ensures RemoveFromTree(tree, k) == (tree, false)
    decreases ForestSize(tree)
  {
    if tree != [] {
      Shrinks(tree);
      RemoveAbsent(Kids(tree[0]), k);
      RemoveAbsent(tree[1..], k);
      assert [tree[0]] + tree[1..] == tree;
    }
  }

  /** One step of the removal past a first node without the key. */
  lemma RemoveStep(tree: seq<Node>, k: Key)
    requires tree != [] && tree[0].key != k
    ensures RemoveFromTree(Kids(tree[0]), k).1 ==>
      RemoveFromTree(tree, k) == ([tree[0].(children := Children(RemoveFromTree(Kids(tree[0]), k).0))] + tree[1..], true)
    ensures !RemoveFromTree(Kids(tree[0]), k).1 ==>
      RemoveFromTree(tree, k) == ([tree[0]] + RemoveFromTree(tree[1..], k).0, RemoveFromTree(tree[1..], k).1)
  {
  }

  /** The keys around the removed subtree, in order. */
  lemma {:induction false} RemoveSegment(tree: seq<Node>, k: Key) returns (pre: seq<Key>, post: seq<Key>)
    requires k in Keys(tree)
    ensures RemoveFromTree(tree, k).1
    ensures Keys(tree) == pre + SubtreeKeys(FindNodeByKey(tree, k).value) + post
    ensures Keys(RemoveFromTree(tree, k).0) == pre + post
    ensures k !in pre
    decreases ForestSize(tree)
  {
    Shrinks(tree);
    var n := tree[0];
    if n.key == k {
      pre, post := RemoveAtHead(tree, k);
    } else if k in Keys(Kids(n)) {
      var p1, q1 := RemoveSegment(Kids(n), k);
      pre, post := RemoveInFirst(tree, k, p1, q1);
    } else {
      KeysStep(tree);
      RemoveAbsent(Kids(n), k);
      var p2, q2 := RemoveSegment(tree[1..], k);
      pre, post := RemoveInRest(tree, k, p2, q2);
    }
  }

  /** The removal when the first node has the key. */
  lemma RemoveAtHead(tree: seq<Node>, k: Key) returns (pre: seq<Key>, post: seq<Key>)
    requires tree != [] && tree[0].key == k
    ensures RemoveFromTree(tree, k).1
    ensures Keys(tree) == pre + SubtreeKeys(FindNodeByKey(tree, k).value) + post
    ensures Keys(RemoveFromTree(tree, k).0) == pre + post
    ensures k !in pre
  {
    KeysStep(tree);
    assert FindNodeByKey(tree, k) == Some(tree[0]);
    assert RemoveFromTree(tree, k) == (tree[1..], true);
    pre, post := [], Keys(tree[1..]);
  }

  /** The removal step when the key lies below the first node. */
  lemma RemoveInFirst(tree: seq<Node>, k: Key, p1: seq<Key>, q1: seq<Key>) returns (pre: seq<Key>, post: seq<Key>)
    requires tree != [] && tree[0].key != k && k in Keys(Kids(tree[0]))
    requires RemoveFromTree(Kids(tree[0]), k).1
    requires Keys(Kids(tree[0])) == p1 + SubtreeKeys(FindNodeByKey(Kids(tree[0]), k).value) + q1
    requires Keys(RemoveFromTree(Kids(tree[0]), k).0) == p1 + q1
    requires k !in p1
    ensures RemoveFromTree(tree, k).1
    ensures Keys(tree) == pre + SubtreeKeys(FindNodeByKey(tree, k).value) + post
    ensures Keys(RemoveFromTree(tree, k).0) == pre + post
    ensures k !in pre
  {
    var n := tree[0];
    KeysStep(tree);
    FindStep(tree, k);
    RemoveStep(tree, k);
    var m := FindNodeByKey(Kids(n), k).value;
    var n' := n.(children := Children(RemoveFromTree(Kids(n), k).0));
    KeysPrepend(n', tree[1..]);
    assert [n'] + tree[1..] == RemoveFromTree(tree, k).0;
    Regroup([n.key], p1, SubtreeKeys(m), q1, Keys(tree[1..]));
    RegroupCut([n.key], p1, q1, Keys(tree[1..]));
    pre, post := [n.key] + p1, q1 + Keys(tree[1..]);
  }

  /** The removal step when the key lies after the first subtree. */
  lemma RemoveInRest(tree: seq<Node>, k: Key, p2: seq<Key>, q2: seq<Key>) returns (pre: seq<Key>, post: seq<Key>)
    requires tree != [] && tree[0].key != k && k !in Keys(Kids(tree[0])) && k in Keys(tree[1..])
    requires RemoveFromTree(Kids(tree[0]), k) == (Kids(tree[0]), false)
    requires RemoveFromTree(tree[1..], k).1
    requires Keys(tree[1..]) == p2 + SubtreeKeys(FindNodeByKey(tree[1..], k).value) + q2
    requires Keys(RemoveFromTree(tree[1..], k).0) == p2 + q2
    requires k !in p2
    ensures RemoveFromTree(tree, k).1
    ensures Keys(tree) == pre + SubtreeKeys(FindNodeByKey(tree, k).value) + post
    ensures Keys(RemoveFromTree(tree, k).0) == pre + post
    ensures k !in pre
  {
    var n := tree[0];
    KeysStep(tree);
    FindStep(tree, k);
    RemoveStep(tree, k);
    assert !RemoveFromTree(Kids(n), k).1;
    var m := FindNodeByKey(tree[1..], k).value;
    assert FindNodeByKey(Kids(n), k).None?;
    assert FindNodeByKey(tree, k) == Some(m);
    var rest := RemoveFromTree(tree[1..], k).0;
    assert RemoveFromTree(tree, k) == ([n] + rest, true);
    KeysPrepend(n, rest);
    RegroupTail(SubtreeKeys(n), p2, SubtreeKeys(m), q2);
    Assoc(SubtreeKeys(n), p2, q2);
    assert k !in SubtreeKeys(n);
    pre, post := SubtreeKeys(n) + p2, q2;
  }

  /** Removing deletes exactly the first pre-order node with key `k` together with its
      subtree, keeps every other key in its order, and reports whether `k` was present;
      a key that is not there leaves the forest as it was. */
  lemma RemoveFromTreeSpec(tree: seq<Node>, k: Key)
    ensures RemoveFromTree(tree, k).1 <==> k in Keys(tree)
    ensures k !in Keys(tree) ==> RemoveFromTree(tree, k).0 == tree
    ensures k in Keys(tree) ==>
      exists pre: seq<Key>, post: seq<Key> ::
        && Keys(tree) == pre + SubtreeKeys(FindNodeByKey(tree, k).value) + post
        && Keys(RemoveFromTree(tree, k).0) == pre + post
  {
    if k in Keys(tree) {
      var pre, post := RemoveSegment(tree, k);
    } else {
      RemoveAbsent(tree, k);
    }
  }

  /** Put `r` in place of the first pre-order node with key `k`: an in-place update of
      that node's fields, seen from the forest. */
  function ReplaceFirst(tree: seq<Node>, k: Key, r: Node): seq<Node>
    decreases ForestSize(tree)
  {
    if tree == [] then []
    else if tree[0].key == k then [r] + tree[1..]
    else
      Shrinks(tree);
      if k in Keys(Kids(tree[0])) then
        [tree[0].(children := Children(ReplaceFirst(Kids(tree[0]), k, r)))] + tree[1..]
      else [tree[0]] + ReplaceFirst(tree[1..], k, r)
  }

  lemma {:induction false} ReplaceAbsent(tree: seq<Node>, k: Key, r: Node)
    requires k !in Keys(tree)
    ensures ReplaceFirst(tree, k, r) == tree
    decreases ForestSize(tree)
  {
    if tree != [] {
      Shrinks(tree);
      ReplaceAbsent(tree[1..], k, r);
      assert [tree[0]] + tree[1..] == tree;
    }
  }

  /** One step of the replacement past a first node without the key. */
  lemma ReplaceStep(tree: seq<Node>, k: Key, r: Node)
    requires tree != [] && tree[0].key != k
    ensures k in Keys(Kids(tree[0])) ==>
      ReplaceFirst(tree, k, r) == [tree[0].(children := Children(ReplaceFirst(Kids(tree[0]), k, r)))] + tree[1..]
    ensures k !in Keys(Kids(tree[0])) ==> ReplaceFirst(tree, k, r) == [tree[0]] + ReplaceFirst(tree[1..], k, r)
  {
  }

  /** The keys around the replaced subtree, in order, and the replacement found by key. */
  lemma {:induction false} ReplaceSegment(tree: seq<Node>, k: Key, r: Node) returns (pre: seq<Key>, post: seq<Key>)
    requires k in Keys(tree)
    ensures Keys(tree) == pre + SubtreeKeys(FindNodeByKey(tree, k).value) + post
    ensures Keys(ReplaceFirst(tree, k, r)) == pre + SubtreeKeys(r) + post
    ensures r.key == k ==> FindNodeByKey(ReplaceFirst(tree, k, r), k) == Some(r)
    decreases ForestSize(tree)
  {
    Shrinks(tree);
    var n := tree[0];
    if n.key == k {
      pre, post := ReplaceAtHead(tree, k, r);
    } else if k in Keys(Kids(n)) {
      var p1, q1 := ReplaceSegment(Kids(n), k, r);
      pre, post := ReplaceInFirst(tree, k, r, p1, q1);
    } else {
      KeysStep(tree);
      var p2, q2 := ReplaceSegment(tree[1..], k, r);
      pre, post := ReplaceInRest(tree, k, r, p2, q2);
    }
  }

  /** The replacement when the first node has the key. */
  lemma ReplaceAtHead(tree: seq<Node>, k: Key, r: Node) returns (pre: seq<Key>, post: seq<Key>)
    requires tree != [] && tree[0].key == k
    ensures Keys(tree) == pre + SubtreeKeys(FindNodeByKey(tree, k).value) + post
    ensures Keys(ReplaceFirst(tree, k, r)) == pre + SubtreeKeys(r) + post
    ensures r.key == k ==> FindNodeByKey(ReplaceFirst(tree, k, r), k) == Some(r)
  {
    KeysStep(tree);
    KeysPrepend(r, tree[1..]);
    assert FindNodeByKey(tree, k) == Some(tree[0]);
    var g := [r] + tree[1..];
    assert ReplaceFirst(tree, k, r) == g;
    assert g[0] == r;
    pre, post := [], Keys(tree[1..]);
  }

  /** The replacement step when the key lies below the first node. */
  lemma ReplaceInFirst(tree: seq<Node>, k: Key, r: Node, p1: seq<Key>, q1: seq<Key>) returns (pre: seq<Key>, post: seq<Key>)
    requires tree != [] && tree[0].key != k && k in Keys(Kids(tree[0]))
    requires Keys(Kids(tree[0])) == p1 + SubtreeKeys(FindNodeByKey(Kids(tree[0]), k).value) + q1
    requires Keys(ReplaceFirst(Kids(tree[0]), k, r)) == p1 + SubtreeKeys(r) + q1
    requires r.key == k ==> FindNodeByKey(ReplaceFirst(Kids(tree[0]), k, r), k) == Some(r)
    ensures Keys(tree) == pre + SubtreeKeys(FindNodeByKey(tree, k).value) + post
    ensures Keys(ReplaceFirst(tree, k, r)) == pre + SubtreeKeys(r) + post
    ensures r.key == k ==> FindNodeByKey(ReplaceFirst(tree, k, r), k) == Some(r)
  {
    var n := tree[0];
    KeysStep(tree);
    FindStep(tree, k);
    ReplaceStep(tree, k, r);
    var m := FindNodeByKey(Kids(n), k).value;
    assert FindNodeByKey(tree, k) == Some(m);
    var c := ReplaceFirst(Kids(n), k, r);
    var n' := n.(children := Children(c));
    var g := [n'] + tree[1..];
    assert ReplaceFirst(tree, k, r) == g;
    KeysPrepend(n', tree[1..]);
    Regroup([n.key], p1, SubtreeKeys(m), q1, Keys(tree[1..]));
    Regroup([n.key], p1, SubtreeKeys(r), q1, Keys(tree[1..]));
    if r.key == k {
      assert g[0] == n' && g[1..] == tree[1..];
      FindStep(g, k);
    }
    pre, post := [n.key] + p1, q1 + Keys(tree[1..]);
  }

  /** The replacement step when the key lies after the first subtree. */
  lemma ReplaceInRest(tree: seq<Node>, k: Key, r: Node, p2: seq<Key>, q2: seq<Key>) returns (pre: seq<Key>, post: seq<Key>)
    requires tree != [] && tree[0].key != k && k !in Keys(Kids(tree[0])) && k in Keys(tree[1..])
    requires Keys(tree[1..]) == p2 + SubtreeKeys(FindNodeByKey(tree[1..], k).value) + q2
    requires Keys(ReplaceFirst(tree[1..], k, r)) == p2 + SubtreeKeys(r) + q2
    requires r.key == k ==> FindNodeByKey(ReplaceFirst(tree[1..], k, r), k) == Some(r)
    ensures Keys(tree) == pre + SubtreeKeys(FindNodeByKey(tree, k).value) + post
    ensures Keys(ReplaceFirst(tree, k, r)) == pre + SubtreeKeys(r) + post
    ensures r.key == k ==> FindNodeByKey(ReplaceFirst(tree, k, r), k) == Some(r)
  {
    var n := tree[0];
    KeysStep(tree);
    FindStep(tree, k);
    ReplaceStep(tree, k, r);
    var m := FindNodeByKey(tree[1..], k).value;
    assert FindNodeByKey(Kids(n), k).None?;
    assert FindNodeByKey(tree, k) == Some(m);
    var rest := ReplaceFirst(tree[1..], k, r);
    var g := [n] + rest;
    assert ReplaceFirst(tree, k, r) == g;
    KeysPrepend(n, rest);
    RegroupTail(SubtreeKeys(n), p2, SubtreeKeys(m), q2);
    RegroupTail(SubtreeKeys(n), p2, SubtreeKeys(r), q2);
    if r.key == k {
      assert g[0] == n && g[1..] == rest;
      FindStep(g, k);
    }
    pre, post := SubtreeKeys(n) + p2, q2;
  }

  /** Updating a node in place swaps its subtree's keys for the new node's, where it
      stood, after which a lookup by its key finds the new node; an absent key changes nothing. */
  lemma ReplaceFirstSpec(tree: seq<Node>, k: Key, r: Node)
    ensures k !in Keys(tree) ==> ReplaceFirst(tree, k, r) == tree
    ensures k in Keys(tree) ==>
      exists pre: seq<Key>, post: seq<Key> ::
        && Keys(tree) == pre + SubtreeKeys(FindNodeByKey(tree, k).value) + post
        && Keys(ReplaceFirst(tree, k, r)) == pre + SubtreeKeys(r) + post
    ensures k in Keys(tree) && r.key == k ==> FindNodeByKey(ReplaceFirst(tree, k, r), k) == Some(r)
  {
    if k in Keys(tree) {
      var pre, post := ReplaceSegment(tree, k, r);
    } else {
      ReplaceAbsent(tree, k, r);
    }
  }

  /** `n` with `x` pushed onto its children, creating the list when it is absent. */
  function WithChild(n: Node, x: Node): (r: Node)
    ensures r.key == n.key && Kids(r) == Kids(n) + [x]
    ensures SubtreeKeys(r) == SubtreeKeys(n) + SubtreeKeys(x)
  {
    var r := n.(children := Children(Kids(n) + [x]));
    KeysAppend(Kids(n), [x]);
    KeysSingle(x);
    Assoc([n.key], Keys(Kids(n)), SubtreeKeys(x));
    r
  }

  /** `addTerminalNode(node, parent)` on the forest: with no parent `x` becomes the last
      root; otherwise `parent?.children?.push(x)` appends it to the parent's children
      when that list exists and silently drops it when it does not
      (src/models/terminal-data-provider.ts:375-384). */
  function AddToTree(f: seq<Node>, x: Node, parent: Option<Node>): seq<Node>
  {
    match parent
    case None => f + [x]
    case Some(p) =>
      match FindNodeByKey(f, p.key)
      case None => f
      case Some(cur) =>
        if cur.children.Children? then ReplaceFirst(f, p.key, WithChild(cur, x)) else f
  }

  /** Where `AddToTree` puts `x`: last root, last child of the parent, or nowhere. */
  lemma AddToTreeSpec(f: seq<Node>, x: Node, parent: Option<Node>)
    ensures parent.None? ==> AddToTree(f, x, parent) == f + [x]
    ensures parent.Some? && parent.value.key in Keys(f) &&
            FindNodeByKey(f, parent.value.key).value.children.Children? ==>
      var cur := FindNodeByKey(f, parent.value.key).value;
      && FindNodeByKey(AddToTree(f, x, parent), cur.key) == Some(WithChild(cur, x))
      && multiset(Keys(AddToTree(f, x, parent))) == multiset(Keys(f)) + multiset(SubtreeKeys(x))
    ensures parent.Some? && (parent.value.key !in Keys(f) ||
            FindNodeByKey(f, parent.value.key).value.children.NoChildren?) ==>
      AddToTree(f, x, parent) == f
  {
    if parent.Some? && parent.value.key in Keys(f) {
      var cur := FindNodeByKey(f, parent.value.key).value;
      if cur.children.Children? {
        var pre, post := ReplaceSegment(f, cur.key, WithChild(cur, x));
      }
    }
  }

  /** The list `getParent(target)` lands in gets `x` inserted right after the target, at
      the place `findIndex` finds it; the flag says whether a parent was found. The
      search order is that of `ParentIn`, and the insertion is `splice(targetIndex + 1, 0, x)`
      (src/models/terminal-data-provider.ts:174-184). */
  function InsertUnderParent(tree: seq<Node>, k: Key, x: Node, hasParent: bool): (seq<Node>, bool)
    decreases ForestSize(tree)
  {
    if tree == [] then ([], false)
    else if tree[0].key == k && hasParent then ([tree[0], x] + tree[1..], true)
    else
      Shrinks(tree);
      var (c, b) := InsertUnderParent(Kids(tree[0]), k, x, true);
      if b then ([tree[0].(children := Children(c))] + tree[1..], true)
      else
        var (rest, b2) := InsertUnderParent(tree[1..], k, x, hasParent);
        ([tree[0]] + rest, b2)
  }

  /** Some sibling list of the forest holds a node keyed `a` directly followed by one keyed `b`. */
  predicate Adjacent(f: seq<Node>, a: Key, b: Key)
    decreases ForestSize(f)
  {
    if f == [] then false
    else
      Shrinks(f);
      (|f| >= 2 && f[0].key == a && f[1].key == b) || Adjacent(Kids(f[0]), a, b) || Adjacent(f[1..], a, b)
  }

  lemma {:induction false} InsertUnderParentNone(tree: seq<Node>, k: Key, x: Node, parent: Option<Node>)
    requires ParentIn(tree, k, parent).None?
    ensures InsertUnderParent(tree, k, x, parent.Some?) == (tree, false)
    decreases ForestSize(tree)
  {
    if tree != [] {
      Shrinks(tree);
      InsertUnderParentNone(Kids(tree[0]), k, x, Some(tree[0]));
      InsertUnderParentNone(tree[1..], k, x, parent);
      assert [tree[0]] + tree[1..] == tree;
    }
  }

  /** Where the parent search succeeds, `x` lands right after the target and every
      other key keeps its place. */
  lemma {:induction false} InsertUnderParentSome(tree: seq<Node>, k: Key, x: Node, parent: Option<Node>)
    returns (pre: seq<Key>, post: seq<Key>)
    requires ParentIn(tree, k, parent).Some?
    ensures InsertUnderParent(tree, k, x, parent.Some?).1
    ensures Adjacent(InsertUnderParent(tree, k, x, parent.Some?).0, k, x.key)
    ensures Keys(tree) == pre + post
    ensures Keys(InsertUnderParent(tree, k, x, parent.Some?).0) == pre + SubtreeKeys(x) + post
    decreases ForestSize(tree)
  {
    Shrinks(tree);
    var n := tree[0];
    var rest := tree[1..];
    if n.key == k && parent.Some? {
      var g := [n, x] + rest;
      assert g == [n] + ([x] + rest);
      KeysPrepend(n, [x] + rest);
      KeysPrepend(x, rest);
      Assoc(SubtreeKeys(n), SubtreeKeys(x), Keys(rest));
      pre, post := SubtreeKeys(n), Keys(rest);
    } else if ParentIn(Kids(n), k, Some(n)).Some? {
      var p1, q1 := InsertUnderParentSome(Kids(n), k, x, Some(n));
      var c := InsertUnderParent(Kids(n), k, x, true).0;
      var n' := n.(children := Children(c));
      var g := [n'] + rest;
      assert InsertUnderParent(tree, k, x, parent.Some?) == (g, true);
      assert g[0] == n' && g[1..] == rest && Kids(n') == c;
      KeysPrepend(n', rest);
      Regroup([n.key], p1, SubtreeKeys(x), q1, Keys(rest));
      RegroupCut([n.key], p1, q1, Keys(rest));
      pre, post := [n.key] + p1, q1 + Keys(rest);
    } else {
      InsertUnderParentNone(Kids(n), k, x, Some(n));
      var p2, q2 := InsertUnderParentSome(rest, k, x, parent);
      var r2 := InsertUnderParent(rest, k, x, parent.Some?).0;
      var g := [n] + r2;
      assert InsertUnderParent(tree, k, x, parent.Some?) == (g, true);
      assert g[0] == n && g[1..] == r2;
      KeysPrepend(n, r2);
      RegroupTail(SubtreeKeys(n), p2, SubtreeKeys(x), q2);
      Assoc(SubtreeKeys(n), p2, q2);
      pre, post := SubtreeKeys(n) + p2, q2;
    }
  }

  /** When no parent is found, the target (if present at all) is a root. */
  lemma NoParentMeansRoot(f: seq<Node>, k: Key)
    requires k in Keys(f) && GetParent(f, k).None?
    ensures IndexOfKey(f, k) >= 0
  {
    GetParentSpec(f, k);
    NonRootKeysHead(f);
    RootKeysIn(f, k);
  }

  /** The leaf-target branch of `reparentNode`: insert `x` right after the node keyed `k`
      in its sibling list, which is its parent's children or, failing a parent, the roots;
      a target not among the roots has `findIndex` -1, so `x` goes in at index 0
      (src/models/terminal-data-provider.ts:174-187). */
  function InsertAfterSibling(f: seq<Node>, k: Key, x: Node): seq<Node>
  {
    var (g, found) := InsertUnderParent(f, k, x, false);
    if found then g
    else
      var i := IndexOfKey(f, k);
      f[..i + 1] + [x] + f[i + 1..]
  }

  lemma InsertAtKeys(f: seq<Node>, j: nat, x: Node)
    requires j <= |f|
    ensures Keys(f) == Keys(f[..j]) + Keys(f[j..])
    ensures Keys(f[..j] + [x] + f[j..]) == Keys(f[..j]) + SubtreeKeys(x) + Keys(f[j..])
  {
    KeysSplitAt(f, j);
    KeysInsert(f[..j], x, f[j..]);
  }

  lemma KeysSplitAt(f: seq<Node>, j: nat)
    requires j <= |f|
    ensures Keys(f) == Keys(f[..j]) + Keys(f[j..])
  {
    KeysAppend(f[..j], f[j..]);
    assert f[..j] + f[j..] == f;
  }

  lemma KeysInsert(a: seq<Node>, x: Node, b: seq<Node>)
    ensures Keys(a + [x] + b) == Keys(a) + SubtreeKeys(x) + Keys(b)
  {
    var xb := [x] + b;
    assert a + [x] + b == a + xb;
    KeysAppend(a, xb);
    KeysPrepend(x, b);
    Assoc(Keys(a), SubtreeKeys(x), Keys(b));
  }

  lemma {:induction false} AdjacentAt(f: seq<Node>, i: nat)
    requires i + 1 < |f|
    ensures Adjacent(f, f[i].key, f[i + 1].key)
    decreases i
  {
    Shrinks(f);
    if i > 0 {
      AdjacentAt(f[1..], i - 1);
    }
  }

  /** Inserting after a sibling adds `x`'s keys and nothing else, and puts `x` right
      after the target whenever the target is in the forest. */
  lemma InsertAfterSiblingSpec(f: seq<Node>, k: Key, x: Node)
    ensures multiset(Keys(InsertAfterSibling(f, k, x))) == multiset(Keys(f)) + multiset(SubtreeKeys(x))
    ensures k in Keys(f) ==> Adjacent(InsertAfterSibling(f, k, x), k, x.key)
  {
    if ParentIn(f, k, None).Some? {
      InsertUnderSibling(f, k, x);
    } else {
      InsertAmongRoots(f, k, x);
    }
  }

  lemma InsertUnderSibling(f: seq<Node>, k: Key, x: Node)
    requires ParentIn(f, k, None).Some?
    ensures multiset(Keys(InsertAfterSibling(f, k, x))) == multiset(Keys(f)) + multiset(SubtreeKeys(x))
    ensures Adjacent(InsertAfterSibling(f, k, x), k, x.key)
  {
    var pre, post := InsertUnderParentSome(f, k, x, None);
    var g := InsertUnderParent(f, k, x, false).0;
    assert InsertAfterSibling(f, k, x) == g;
    assert multiset(pre + SubtreeKeys(x) + post) == multiset(pre) + multiset(SubtreeKeys(x)) + multiset(post);
  }

  lemma InsertAmongRoots(f: seq<Node>, k: Key, x: Node)
    requires ParentIn(f, k, None).None?
    ensures multiset(Keys(InsertAfterSibling(f, k, x))) == multiset(Keys(f)) + multiset(SubtreeKeys(x))
    ensures k in Keys(f) ==> Adjacent(InsertAfterSibling(f, k, x), k, x.key)
  {
    var i := InsertAfterRoot(f, k, x);
    var r := f[..i + 1] + [x] + f[i + 1..];
    InsertAtKeys(f, i + 1, x);
    var a, b := Keys(f[..i + 1]), Keys(f[i + 1..]);
    assert multiset(a + SubtreeKeys(x) + b) == multiset(a) + multiset(SubtreeKeys(x)) + multiset(b);
    if k in Keys(f) {
      NoParentMeansRoot(f, k);
      assert r[i] == f[i] && r[i + 1] == x;
      AdjacentAt(r, i);
    }
  }

  /** Without a parent, the insertion is the `splice` after the `findIndex` of the roots. */
  lemma InsertAfterRoot(f: seq<Node>, k: Key, x: Node) returns (i: int)
    requires ParentIn(f, k, None).None?
    ensures -1 <= i < |f| && i == IndexOfKey(f, k)
    ensures InsertAfterSibling(f, k, x) == f[..i + 1] + [x] + f[i + 1..]
  {
    InsertUnderParentNone(f, k, x, None);
    i := IndexOfKey(f, k);
  }

  /** `reparentNode(node, target)`: detach `n`, then append it to a group target's
      children (creating the list if needed), put it right after a leaf target among
      its siblings, or append it to the roots when there is no target
      (src/models/terminal-data-provider.ts:158-190). The group target is looked up by
      key after the detach: if it went with `n` (it is `n` or lies inside it), the push
      lands in a detached object and `n` leaves the forest. */
  function ReparentInTree(f: seq<Node>, n: Node, target: Option<Node>): seq<Node>
  {
    var f1 := RemoveFromTree(f, n.key).0;
    match target
    case None => f1 + [n]
    case Some(t) =>
      if IsGroup(t) then
        match FindNodeByKey(f1, t.key)
        case None => f1
        case Some(g) => ReplaceFirst(f1, t.key, WithChild(g, n))
      else InsertAfterSibling(f1, t.key, n)
  }

  /** Does `n` arrive somewhere in the forest? Only a group target that is `n` itself,
      lies inside `n`, or is missing loses it. */
  predicate Lands(f: seq<Node>, n: Node, target: Option<Node>)
  {
    target.None? || !IsGroup(target.value) ||
    (target.value.key in Keys(f) && target.value.key !in SubtreeKeys(n))
  }

  /** The detach step of a move, for a node found by its key. */
  lemma Detach(f: seq<Node>, n: Node) returns (pre: seq<Key>, post: seq<Key>)
    requires FindNodeByKey(f, n.key) == Some(n)
    ensures Keys(f) == pre + SubtreeKeys(n) + post
    ensures Keys(RemoveFromTree(f, n.key).0) == pre + post
  {
    pre, post := RemoveSegment(f, n.key);
  }

  lemma DetachKeys(f: seq<Node>, n: Node)
    requires FindNodeByKey(f, n.key) == Some(n)
    ensures multiset(Keys(f)) == multiset(Keys(RemoveFromTree(f, n.key).0)) + multiset(SubtreeKeys(n))
  {
    var pre, post := Detach(f, n);
  }

  lemma GroupPushKeys(f1: seq<Node>, t: Key, n: Node)
    requires t in Keys(f1)
    ensures multiset(Keys(ReplaceFirst(f1, t, WithChild(FindNodeByKey(f1, t).value, n)))) ==
      multiset(Keys(f1)) + multiset(SubtreeKeys(n))
  {
    var g := FindNodeByKey(f1, t).value;
    var p, q := ReplaceSegment(f1, t, WithChild(g, n));
  }

  /** Moving keeps the key multiset of the forest when `n` lands, and loses exactly
      `n`'s subtree when it does not. */
  lemma ReparentInTreeKeys(f: seq<Node>, n: Node, target: Option<Node>)
    requires UniqueKeys(f) && FindNodeByKey(f, n.key) == Some(n)
    ensures Lands(f, n, target) ==>
      multiset(Keys(ReparentInTree(f, n, target))) == multiset(Keys(f))
    ensures !Lands(f, n, target) ==>
      multiset(Keys(ReparentInTree(f, n, target))) + multiset(SubtreeKeys(n)) == multiset(Keys(f))
  {
    var f1 := RemoveFromTree(f, n.key).0;
    DetachKeys(f, n);
    match target
    case None =>
      KeysAppend(f1, [n]);
      KeysSingle(n);
    case Some(t) =>
      if !IsGroup(t) {
        InsertAfterSiblingSpec(f1, t.key, n);
      } else {
        assert multiset(Keys(f))[t.key] == multiset(Keys(f1))[t.key] + multiset(SubtreeKeys(n))[t.key];
        if t.key in Keys(f1) {
          GroupPushKeys(f1, t.key, n);
          assert Lands(f, n, target);
        } else {
          assert !Lands(f, n, target);
        }
      }
  }

  /** Moving never duplicates a key. */
  lemma ReparentInTreeUnique(f: seq<Node>, n: Node, target: Option<Node>)
    requires UniqueKeys(f) && FindNodeByKey(f, n.key) == Some(n)
    ensures UniqueKeys(ReparentInTree(f, n, target))
  {
    ReparentInTreeKeys(f, n, target);
    var r := ReparentInTree(f, n, target);
    forall k ensures multiset(Keys(r))[k] <= 1 {
      assert multiset(Keys(r))[k] <= multiset(Keys(f))[k];
    }
  }

  /** A group target other than `n` and outside it gets `n` as its last child. */
  lemma ReparentOntoGroup(f: seq<Node>, n: Node, t: Node)
    requires FindNodeByKey(f, n.key) == Some(n)
    requires IsGroup(t) && t.key in Keys(f) && t.key !in SubtreeKeys(n)
    ensures t.key in Keys(ReparentInTree(f, n, Some(t)))
    ensures Kids(FindNodeByKey(ReparentInTree(f, n, Some(t)), t.key).value) ==
      Kids(FindNodeByKey(RemoveFromTree(f, n.key).0, t.key).value) + [n]
  {
    var f1 := RemoveFromTree(f, n.key).0;
    var pre, post := Detach(f, n);
    assert t.key in Keys(f1);
    var g := FindNodeByKey(f1, t.key).value;
    var p, q := ReplaceSegment(f1, t.key, WithChild(g, n));
  }

  /** A leaf target present after the detach gets `n` as its next sibling. */
  lemma ReparentNextToLeaf(f: seq<Node>, n: Node, t: Node)
    requires FindNodeByKey(f, n.key) == Some(n)
    requires !IsGroup(t) && t.key in Keys(f) && t.key !in SubtreeKeys(n)
    ensures Adjacent(ReparentInTree(f, n, Some(t)), t.key, n.key)
  {
    var f1 := RemoveFromTree(f, n.key).0;
    var pre, post := Detach(f, n);
    assert t.key in Keys(f1);
    InsertAfterSiblingSpec(f1, t.key, n);
  }

  /** Dropping a node onto something other than itself and outside its own subtree
      keeps every key of the forest: the node is moved, never lost or copied. */
  lemma ReparentKeepsKeys(f: seq<Node>, n: Node, target: Option<Node>)
    requires UniqueKeys(f) && FindNodeByKey(f, n.key) == Some(n)
    requires target.Some? ==>
      target.value.key in Keys(f) && target.value.key != n.key && !IsChild(n, target)
    ensures multiset(Keys(ReparentInTree(f, n, target))) == multiset(Keys(f))
  {
    IsChildIffDescendant(n, target);
    ReparentInTreeKeys(f, n, target);
  }

  /** Dropping a group onto itself takes the group and its whole subtree out of the
      forest: the push goes into the detached node's own children. */
  lemma GroupDroppedOntoItselfIsLost(f: seq<Node>, n: Node)
    requires UniqueKeys(f) && FindNodeByKey(f, n.key) == Some(n) && IsGroup(n)
    ensures ReparentInTree(f, n, Some(n)) == RemoveFromTree(f, n.key).0
    ensures n.key !in Keys(ReparentInTree(f, n, Some(n)))
    ensures multiset(Keys(ReparentInTree(f, n, Some(n)))) + multiset(SubtreeKeys(n)) == multiset(Keys(f))
  {
    DetachGone(f, n);
  }

  /** After the detach, the key of the moved node is gone from the forest. */
  lemma DetachGone(f: seq<Node>, n: Node)
    requires UniqueKeys(f) && FindNodeByKey(f, n.key) == Some(n)
    ensures n.key !in Keys(RemoveFromTree(f, n.key).0)
    ensures multiset(Keys(f)) == multiset(Keys(RemoveFromTree(f, n.key).0)) + multiset(SubtreeKeys(n))
  {
    var f1 := RemoveFromTree(f, n.key).0;
    DetachKeys(f, n);
    assert multiset(Keys(f))[n.key] <= 1;
    assert multiset(SubtreeKeys(n))[n.key] >= 1;
  }

  /** Dropping a leaf onto itself moves it to the front of the roots: after the detach
      it has no parent and `findIndex` gives -1. */
  lemma LeafDroppedOntoItselfGoesFirst(f: seq<Node>, n: Node)
    requires UniqueKeys(f) && FindNodeByKey(f, n.key) == Some(n) && !IsGroup(n)
    ensures ReparentInTree(f, n, Some(n)) == [n] + RemoveFromTree(f, n.key).0
  {
    var f1 := RemoveFromTree(f, n.key).0;
    DetachGone(f, n);
    GetParentSpec(f1, n.key);
    NonRootKeysHead(f1);
    RootKeysIn(f1, n.key);
    InsertUnderParentNone(f1, n.key, n, None);
    assert IndexOfKey(f1, n.key) == -1;
    assert f1[..0] + [n] + f1[0..] == [n] + f1;
  }

  // ---------------------------------------------------------------- drag and drop

  /** The elements of `s` that satisfy `p`, in order. */
  function Filter<T(!new)>(s: seq<T>, p: T -> bool): (r: seq<T>)
    ensures |r| <= |s|
    ensures forall x :: x in r <==> x in s && p(x)
  {
    if s == [] then [] else (if p(s[0]) then [s[0]] else []) + Filter(s[1..], p)
  }

  lemma {:induction false} FilterAppend<T(!new)>(a: seq<T>, b: seq<T>, p: T -> bool)
    ensures Filter(a + b, p) == Filter(a, p) + Filter(b, p)
    decreases |a|
  {
    if a == [] {
      assert a + b == b;
    } else {
      assert (a + b)[0] == a[0];
      assert (a + b)[1..] == a[1..] + b;
      FilterAppend(a[1..], b, p);
    }
  }

  /** The keys of a list of nodes, one per node. */
  function KeysOf(s: seq<Node>): (r: seq<Key>)
    ensures |r| == |s| && forall i :: 0 <= i < |s| ==> r[i] == s[i].key
  {
    if s == [] then [] else [s[0].key] + KeysOf(s[1..])
  }

  /** `draggedKeys.map(findNodeByKey).filter(defined)`: the dragged nodes as the forest
      holds them now; keys it does not hold are dropped
      (src/models/terminal-data-provider.ts:105-107). */
  function ResolveKeys(f: seq<Node>, keys: seq<Key>): (r: seq<Node>)
    ensures |r| <= |keys|
    ensures forall i :: 0 <= i < |r| ==> FindNodeByKey(f, r[i].key) == Some(r[i])
  {
    if keys == [] then []
    else
      (match FindNodeByKey(f, keys[0]) case None => [] case Some(n) => [n]) + ResolveKeys(f, keys[1..])
  }

  /** Exactly the dragged keys the forest holds are resolved, in the order dragged. */
  lemma {:induction false} ResolveKeysSpec(f: seq<Node>, keys: seq<Key>)
    ensures KeysOf(ResolveKeys(f, keys)) == Filter(keys, k => k in Keys(f))
  {
    if keys != [] {
      ResolveKeysSpec(f, keys[1..]);
      var head := match FindNodeByKey(f, keys[0]) case None => [] case Some(n) => [n];
      KeysOfAppend(head, ResolveKeys(f, keys[1..]));
    }
  }

  lemma {:induction false} KeysOfAppend(a: seq<Node>, b: seq<Node>)
    ensures KeysOf(a + b) == KeysOf(a) + KeysOf(b)
  {
  }

  /** `getLocalRoots`' test: a dragged node stays a root of the move unless its immediate
      parent is dragged too (src/models/terminal-data-provider.ts:142-156). */
  predicate IsLocalRoot(f: seq<Node>, dragged: seq<Node>, n: Node)
  {
    match GetParent(f, n.key)
    case None => true
    case Some(p) => p.key !in KeysOf(dragged)
  }

  function LocalRoots(f: seq<Node>, dragged: seq<Node>): seq<Node>
  {
    Filter(dragged, n => IsLocalRoot(f, dragged, n))
  }

  /** `getLocalRoots` keeps, in input order, exactly the dragged nodes that are roots of
      the forest or whose parent's key is not among the dragged keys. */
  lemma LocalRootsSpec(f: seq<Node>, dragged: seq<Node>, n: Node)
    ensures n in LocalRoots(f, dragged) <==>
      n in dragged && (GetParent(f, n.key).None? || GetParent(f, n.key).value.key !in KeysOf(dragged))
    ensures GetParent(f, n.key).None? <==> n.key !in NonRootKeys(f)
  {
    GetParentSpec(f, n.key);
  }

  /** `roots.filter((r) => !this.isChild(r, target))` (src/models/terminal-data-provider.ts:112). */
  function DropFilter(roots: seq<Node>, target: Option<Node>): seq<Node>
  {
    Filter(roots, r => !IsChild(r, target))
  }

  /** The filter keeps exactly the roots that do not have the target as a proper descendant. */
  lemma DropFilterSpec(roots: seq<Node>, target: Option<Node>, r: Node)
    ensures r in DropFilter(roots, target) <==>
      r in roots && !(target.Some? && target.value.key in Keys(Kids(r)))
  {
    IsChildIffDescendant(r, target);
  }

  /** `roots.forEach((r) => this.reparentNode(r, target))`: each root is moved as the
      forest holds it at its turn (the source's objects are shared, so earlier moves
      show through); a root no longer in the forest was carried off with a group dropped
      onto itself, and moving it changes nothing the forest holds
      (src/models/terminal-data-provider.ts:113-116). */
  function ReparentAll(f: seq<Node>, roots: seq<Node>, target: Option<Node>): seq<Node>
    decreases |roots|
  {
    if roots == [] then f
    else
      var f1 := match FindNodeByKey(f, roots[0].key)
        case None => f
        case Some(cur) => ReparentInTree(f, cur, target);
      ReparentAll(f1, roots[1..], target)
  }

  /** However many roots are dropped, keys stay unique. */
  lemma {:induction false} ReparentAllUnique(f: seq<Node>, roots: seq<Node>, target: Option<Node>)
    requires UniqueKeys(f)
    ensures UniqueKeys(ReparentAll(f, roots, target))
    decreases |roots|
  {
    if roots != [] {
      var f1 := match FindNodeByKey(f, roots[0].key)
        case None => f
        case Some(cur) => ReparentInTree(f, cur, target);
      if FindNodeByKey(f, roots[0].key).Some? {
        ReparentInTreeUnique(f, FindNodeByKey(f, roots[0].key).value, target);
      }
      ReparentAllUnique(f1, roots[1..], target);
    }
  }

  /** At each step of `ReparentAll`, the target (when given) is still in the forest, is
      not the node being moved and does not lie inside it. */
  predicate EachStepLands(f: seq<Node>, roots: seq<Node>, target: Option<Node>)
    decreases |roots|
  {
    roots == [] ||
    match FindNodeByKey(f, roots[0].key)
    case None => EachStepLands(f, roots[1..], target)
    case Some(cur) =>
      && (target.Some? ==>
            target.value.key in Keys(f) && target.value.key != cur.key && !IsChild(cur, target))
      && EachStepLands(ReparentInTree(f, cur, target), roots[1..], target)
  }

  /** Moving several roots, each onto a target outside it, moves subtrees without losing
      or copying a key. */
  lemma {:induction false} ReparentAllKeepsKeys(f: seq<Node>, roots: seq<Node>, target: Option<Node>)
    requires UniqueKeys(f) && EachStepLands(f, roots, target)
    ensures multiset(Keys(ReparentAll(f, roots, target))) == multiset(Keys(f))
    decreases |roots|
  {
    if roots != [] {
      match FindNodeByKey(f, roots[0].key)
      case None =>
        ReparentAllKeepsKeys(f, roots[1..], target);
      case Some(cur) =>
        ReparentKeepsKeys(f, cur, target);
        ReparentInTreeUnique(f, cur, target);
        ReparentAllKeepsKeys(ReparentInTree(f, cur, target), roots[1..], target);
    }
  }

  /** The whole drop on the forest: resolve, keep local roots, drop those the target
      lies under, and move what is left (src/models/terminal-data-provider.ts:86-119). */
  function Drop(f: seq<Node>, draggedKeys: seq<Key>, target: Option<Node>): seq<Node>
  {
    var dragged := ResolveKeys(f, draggedKeys);
    ReparentAll(f, DropFilter(LocalRoots(f, dragged), target), target)
  }

  /** A single dragged node is its own local root. */
  lemma DropOneRoots(f: seq<Node>, n: Node)
    requires UniqueKeys(f) && FindNodeByKey(f, n.key) == Some(n)
    ensures ResolveKeys(f, [n.key]) == [n]
    ensures LocalRoots(f, [n]) == [n]
  {
    assert ResolveKeys(f, [n.key]) == [n] + ResolveKeys(f, []);
    if GetParent(f, n.key).Some? {
      GetParentSpec(f, n.key);
      ParentKeyDiffers(f, n, GetParent(f, n.key).value);
    }
    assert IsLocalRoot(f, [n], n);
    assert LocalRoots(f, [n]) == [n] + Filter([n][1..], m => IsLocalRoot(f, [n], m));
  }

  /** The drop of a single node is one `reparentNode`, or nothing when the target lies under it. */
  lemma DropOneIsReparent(f: seq<Node>, n: Node, target: Option<Node>)
    requires UniqueKeys(f) && FindNodeByKey(f, n.key) == Some(n)
    ensures IsChild(n, target) ==> Drop(f, [n.key], target) == f
    ensures !IsChild(n, target) ==> Drop(f, [n.key], target) == ReparentInTree(f, n, target)
  {
    DropOneRoots(f, n);
    var moved := DropFilter([n], target);
    assert moved == (if !IsChild(n, target) then [n] else []) + Filter([n][1..], r => !IsChild(r, target));
    if !IsChild(n, target) {
      assert moved == [n];
      assert ReparentAll(f, [n], target) == ReparentAll(ReparentInTree(f, n, target), [], target);
    }
  }

  /** A single dragged node dropped on a target that is neither itself nor inside it is
      moved without losing or copying a key; dropped on its own descendant, nothing moves. */
  lemma DropOneSpec(f: seq<Node>, n: Node, target: Option<Node>)
    requires UniqueKeys(f) && FindNodeByKey(f, n.key) == Some(n)
    requires target.Some? ==> target.value.key in Keys(f)
    ensures target.Some? && target.value.key in Keys(Kids(n)) ==> Drop(f, [n.key], target) == f
    ensures target.None? || (target.value.key != n.key && target.value.key !in Keys(Kids(n))) ==>
      multiset(Keys(Drop(f, [n.key], target))) == multiset(Keys(f))
  {
    DropOneIsReparent(f, n, target);
    IsChildIffDescendant(n, target);
    if target.None? || (target.value.key != n.key && target.value.key !in Keys(Kids(n))) {
      ReparentKeepsKeys(f, n, target);
    }
  }

  lemma {:induction false} FlattenedKeyIn(g: seq<Node>, p: Node)
    requires p in Flatten(g)
    ensures p.key in Keys(g)
    decreases ForestSize(g)
  {
    Shrinks(g);
    if p != g[0] {
      if p in Flatten(Kids(g[0])) {
        FlattenedKeyIn(Kids(g[0]), p);
      } else {
        FlattenedKeyIn(g[1..], p);
      }
    }
  }

  lemma UniqueParts(f: seq<Node>)
    requires f != [] && UniqueKeys(f)
    ensures UniqueKeys(Kids(f[0])) && UniqueKeys(f[1..])
    ensures f[0].key !in Keys(Kids(f[0])) && f[0].key !in Keys(f[1..])
    ensures forall k :: k in Keys(Kids(f[0])) ==> k !in Keys(f[1..])
  {
    var m := multiset(Keys(f));
    assert m == multiset([f[0].key]) + multiset(Keys(Kids(f[0]))) + multiset(Keys(f[1..]));
    forall k ensures multiset(Keys(Kids(f[0])))[k] <= 1 && multiset(Keys(f[1..]))[k] <= 1 {
      assert m[k] <= 1;
    }
    assert m[f[0].key] <= 1;
    forall k | k in Keys(Kids(f[0])) ensures k !in Keys(f[1..]) {
      assert m[k] <= 1;
    }
  }

  /** Under unique keys, the lookup by a node's key finds that very node. */
  lemma {:induction false} FindFlattened(f: seq<Node>, p: Node)
    requires UniqueKeys(f) && p in Flatten(f)
    ensures FindNodeByKey(f, p.key) == Some(p)
    decreases ForestSize(f)
  {
    Shrinks(f);
    UniqueParts(f);
    var n := f[0];
    if p != n {
      if p in Flatten(Kids(n)) {
        FlattenedKeyIn(Kids(n), p);
        FindFlattened(Kids(n), p);
      } else {
        assert p in Flatten(f[1..]);
        FlattenedKeyIn(f[1..], p);
        FindFlattened(f[1..], p);
      }
    }
  }

  /** Under unique keys a node is not its own parent. */
  lemma ParentKeyDiffers(f: seq<Node>, n: Node, p: Node)
    requires UniqueKeys(f) && FindNodeByKey(f, n.key) == Some(n)
    requires p in Flatten(f) && n.key in RootKeys(Kids(p))
    ensures p.key != n.key
  {
    if p.key == n.key {
      FindFlattened(f, p);
      assert p == n;
      NonRootKeysHead(Kids(p));
      assert n.key in Keys(Kids(p));
      NotOwnChild(f, n);
      IsChildIffDescendant(n, Some(n));
      assert false;
    }
  }

  // ---------------------------------------------------------------- what the provider's methods keep

  /** Every list a traversal enters is smaller than the list it came from. */
  lemma {:induction false} ElementShrinks(list: seq<Node>, i: nat)
    requires i < |list|
    ensures ForestSize(Kids(list[i])) < ForestSize(list)
    decreases i
  {
    Shrinks(list);
    if i > 0 {
      ElementShrinks(list[1..], i - 1);
    }
  }

  /** Detaching keeps keys unique and takes the key out of the forest. */
  lemma RemoveKeepsUnique(f: seq<Node>, k: Key)
    requires UniqueKeys(f)
    ensures UniqueKeys(RemoveFromTree(f, k).0)
    ensures k !in Keys(RemoveFromTree(f, k).0)
  {
    if k in Keys(f) {
      var n := FindNodeByKey(f, k).value;
      DetachGone(f, n);
      var r := RemoveFromTree(f, k).0;
      forall j ensures multiset(Keys(r))[j] <= 1 {
        assert multiset(Keys(r))[j] <= multiset(Keys(f))[j];
      }
    } else {
      RemoveAbsent(f, k);
    }
  }

  /** Adding a fresh childless node keeps keys unique. */
  lemma AddKeepsUnique(f: seq<Node>, x: Node, parent: Option<Node>)
    requires UniqueKeys(f) && x.key !in Keys(f) && Kids(x) == []
    ensures UniqueKeys(AddToTree(f, x, parent))
  {
    AddToTreeSpec(f, x, parent);
    assert SubtreeKeys(x) == [x.key];
    var r := AddToTree(f, x, parent);
    if parent.None? {
      KeysAppend(f, [x]);
      KeysSingle(x);
    }
    forall j ensures multiset(Keys(r))[j] <= 1 {
      if j == x.key {
        assert multiset(Keys(f))[j] == 0;
      }
    }
  }

  /** Updating a node's own fields in place, keeping its key and children, leaves the
      key listing as it was. */
  lemma ReplaceSameShape(f: seq<Node>, k: Key, r: Node)
    requires k in Keys(f) && r.key == k && Kids(r) == Kids(FindNodeByKey(f, k).value)
    ensures Keys(ReplaceFirst(f, k, r)) == Keys(f)
    ensures FindNodeByKey(ReplaceFirst(f, k, r), k) == Some(r)
  {
    var pre, post := ReplaceSegment(f, k, r);
  }

  /** `findIndex` fails exactly when no element has the key. */
  lemma IndexOfKeyMissing(s: seq<Node>, k: Key)
    ensures IndexOfKey(s, k) == -1 <==> k !in KeysOf(s)
  {
    if k in KeysOf(s) {
      var i :| 0 <= i < |s| && KeysOf(s)[i] == k;
    }
  }

  /** The local-roots filter applied to a prefix of the dragged list. */
  function LocalRootsOf(f: seq<Node>, dragged: seq<Node>, s: seq<Node>): seq<Node>
  {
    Filter(s, n => IsLocalRoot(f, dragged, n))
  }

  lemma LocalRootsOfStep(f: seq<Node>, dragged: seq<Node>, i: nat)
    requires i < |dragged|
    ensures LocalRootsOf(f, dragged, dragged[..i + 1]) ==
      LocalRootsOf(f, dragged, dragged[..i]) + (if IsLocalRoot(f, dragged, dragged[i]) then [dragged[i]] else [])
  {
    assert dragged[..i + 1] == dragged[..i] + [dragged[i]];
    FilterAppend(dragged[..i], [dragged[i]], n => IsLocalRoot(f, dragged, n));
  }
}
