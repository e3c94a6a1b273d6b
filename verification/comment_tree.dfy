/** `build_comment_tree` of feed/services.py: one pass splitting the comments
    into roots and a parent-id to children map, then a recursive `attach`
    giving every reachable comment its children. The model builds a new
    `Tree` instead of setting `children_cached` on the comment objects. */
module CommentTree {
  import opened Optional
  import opened SeqFacts
  import opened Comments

  /** A comment together with the children `attach` gave it. */
  datatype Tree = Node(comment: Comment, children: seq<Tree>)

  /** The comments of a tree, in pre-order. */
  function Flatten(t: Tree): seq<Comment>
    decreases t
  {
    [t.comment] + FlattenAll(t.children)
  }

  /** The comments of a forest, in pre-order. */
  function FlattenAll(ts: seq<Tree>): seq<Comment>
    decreases ts
  {
    if ts == [] then [] else Flatten(ts[0]) + FlattenAll(ts[1..])
  }

  /** Every node's children are exactly the input comments naming it as
      parent, in input order, and the same holds all the way down. */
  predicate WellAttached(cs: seq<Comment>, t: Tree)
    decreases t
  {
    var kids := ChildrenOf(cs, t.comment.id);
    && |t.children| == |kids|
    && forall i :: 0 <= i < |t.children| ==>
         t.children[i].comment == kids[i] && WellAttached(cs, t.children[i])
  }

  /** The two results of the single pass: `roots` and `children_map`. */
  datatype Partitioned = Partitioned(roots: seq<Comment>, childrenMap: map<int, seq<Comment>>)

  /** `children_map.get(id, [])`. */
  function Lookup(m: map<int, seq<Comment>>, id: int): seq<Comment> {
    if id in m then m[id] else []
  }

  /** One iteration of the `for c in comments` loop: a comment with a truthy
      parent id is appended to that id's list, any other one to the roots. */
  function Step(acc: Partitioned, c: Comment): Partitioned {
    if HasParent(c) then
      var pid := c.parentId.value;
      Partitioned(acc.roots, acc.childrenMap[pid := Lookup(acc.childrenMap, pid) + [c]])
    else
      Partitioned(acc.roots + [c], acc.childrenMap)
  }

  /** One iteration appends `c` to the list of its parent id and to no other. */
  lemma StepLookup(acc: Partitioned, c: Comment, id: int)
    ensures Lookup(Step(acc, c).childrenMap, id) ==
              Lookup(acc.childrenMap, id) + (if IsChildOf(c, id) then [c] else [])
  {}

  /** The loop over `cs`, continued from the state `acc`. */
  function PartitionFrom(cs: seq<Comment>, acc: Partitioned): Partitioned {
    if cs == [] then acc else PartitionFrom(cs[1..], Step(acc, cs[0]))
  }

  /** The loop appends the comments without a truthy parent id to `roots`,
      in their order. */
  lemma {:induction false} PartitionRoots(cs: seq<Comment>, acc: Partitioned)
    ensures PartitionFrom(cs, acc).roots == acc.roots + Roots(cs)
  {
    if cs != [] {
      PartitionRoots(cs[1..], Step(acc, cs[0]));
      RootsCons(cs);
    }
  }

  /** The loop appends to each id's list the comments naming it as parent,
      in their order. */
  lemma {:induction false} PartitionLookup(cs: seq<Comment>, acc: Partitioned, id: int)
    ensures Lookup(PartitionFrom(cs, acc).childrenMap, id) == Lookup(acc.childrenMap, id) + ChildrenOf(cs, id)
  {
    if cs != [] {
      var next := Step(acc, cs[0]);
      PartitionLookup(cs[1..], next, id);
      StepLookup(acc, cs[0], id);
      ChildrenOfCons(cs, id);
      var here := if IsChildOf(cs[0], id) then [cs[0]] else [];
      assert (Lookup(acc.childrenMap, id) + here) + ChildrenOf(cs[1..], id)
          == Lookup(acc.childrenMap, id) + (here + ChildrenOf(cs[1..], id));
    }
  }

  /** The whole pass, from an empty `roots` list and an empty map: `roots`
      holds the comments without a truthy parent id and `children_map` maps
      each id to the comments naming it as parent, both in input order. */
  function Partition(cs: seq<Comment>): (p: Partitioned)
    ensures p.roots == Roots(cs)
    ensures forall id :: Lookup(p.childrenMap, id) == ChildrenOf(cs, id)
  {
    var p := PartitionFrom(cs, Partitioned([], map[]));
    PartitionRoots(cs, Partitioned([], map[]));
    forall id ensures Lookup(p.childrenMap, id) == ChildrenOf(cs, id) {
      PartitionLookup(cs, Partitioned([], map[]), id);
    }
    p
  }

  /** `children_map` is the one the pass computed for `cs`. */
  ghost predicate MapsChildren(cm: map<int, seq<Comment>>, cs: seq<Comment>) {
    forall id :: Lookup(cm, id) == ChildrenOf(cs, id)
  }

  /** `attach(node)`. The ghost `path` is the chain of ancestors from a root
      down to `c`; it only serves to show that the recursion ends: with
      unique ids it never revisits a comment, so it is at most |cs| long. */
  function Attach(cm: map<int, seq<Comment>>, c: Comment, ghost cs: seq<Comment>, ghost path: seq<Comment>): (t: Tree)
    requires MapsChildren(cm, cs) && UniqueIds(cs)
    requires IsChain(cs, path) && |path| > 0 && path[|path| - 1] == c
    ensures t.comment == c
    ensures WellAttached(cs, t)
    ensures forall d :: d in Flatten(t) ==> d in cs && AncestorAt(cs, d, |path| - 1) == Some(c)
    ensures Distinct(Flatten(t))
    decreases |cs| - |path|, 1, 0
  {
    ChainBound(cs, path);
    var kids := Lookup(cm, c.id);
    ChildrenUnique(cs, c.id);
    forall k | k in kids ensures IsChain(cs, path + [k]) {
      ChildrenMembers(cs, c.id, k);
      assert (path + [k])[|path|] == k;
    }
    var ts := AttachAll(cm, kids, cs, path);
    NodeBelow(cs, path, ts);
    Node(c, ts)
  }

  /** The last comment `c` of `path` over the trees attached below its
      children: every node has `c` as ancestor and nothing repeats. */
  lemma NodeBelow(cs: seq<Comment>, path: seq<Comment>, ts: seq<Tree>)
    requires UniqueIds(cs) && IsChain(cs, path) && |path| > 0
    requires forall d :: d in FlattenAll(ts) ==>
               d in cs && AncestorAt(cs, d, |path|).Some? &&
               AncestorAt(cs, d, |path|).value in ChildrenOf(cs, path[|path| - 1].id)
    requires Distinct(FlattenAll(ts))
    ensures forall d :: d in Flatten(Node(path[|path| - 1], ts)) ==>
              d in cs && AncestorAt(cs, d, |path| - 1) == Some(path[|path| - 1])
    ensures Distinct(Flatten(Node(path[|path| - 1], ts)))
  {
    var c := path[|path| - 1];
    forall d | d in FlattenAll(ts)
      ensures AncestorAt(cs, d, |path| - 1) == Some(c) && d != c
    {
      DescendantOfChild(cs, path, d);
    }
    ChainBound(cs, path);
    ChainDistance(cs, path, |cs|);
    DistinctConcat([c], FlattenAll(ts));
  }

  /** A comment whose ancestor at depth |path| is a child of the last comment
      `c` of `path` has `c` as its ancestor at depth |path| - 1, and is not `c`. */
  lemma DescendantOfChild(cs: seq<Comment>, path: seq<Comment>, d: Comment)
    requires UniqueIds(cs) && IsChain(cs, path) && |path| > 0
    requires AncestorAt(cs, d, |path|).Some?
    requires AncestorAt(cs, d, |path|).value in ChildrenOf(cs, path[|path| - 1].id)
    ensures AncestorAt(cs, d, |path| - 1) == Some(path[|path| - 1])
    ensures d != path[|path| - 1]
  {
    var c := path[|path| - 1];
    var k := AncestorAt(cs, d, |path|).value;
    ChainBound(cs, path);
    ChainDistance(cs, path, |cs|);
    ChildrenMembers(cs, c.id, k);
    ParentOfChild(cs, k, c);
    AncestorStep(cs, d, k, c, |path|);
  }

  /** `for child in node.children_cached: attach(child)`, over the children
      `kids` of the last comment of `path` (or over the roots when `path` is
      empty). */
  function AttachAll(cm: map<int, seq<Comment>>, kids: seq<Comment>, ghost cs: seq<Comment>, ghost path: seq<Comment>): (ts: seq<Tree>)
    requires MapsChildren(cm, cs) && UniqueIds(cs) && UniqueIds(kids)
    requires forall k :: k in kids ==> IsChain(cs, path + [k])
    ensures |ts| == |kids|
    ensures forall i :: 0 <= i < |ts| ==> ts[i].comment == kids[i] && WellAttached(cs, ts[i])
    ensures forall d :: d in FlattenAll(ts) ==>
              d in cs && AncestorAt(cs, d, |path|).Some? && AncestorAt(cs, d, |path|).value in kids
    ensures Distinct(FlattenAll(ts))
    decreases |cs| - |path|, 0, |kids|
  {
    if kids == [] then []
    else
      KidsChains(cs, path, kids);
      var t := Attach(cm, kids[0], cs, path + [kids[0]]);
      var rest := AttachAll(cm, kids[1..], cs, path);
      SiblingsJoin(cs, |path|, kids, t, rest);
      [t] + rest
  }

  /** Going down to the first sibling extends the chain, which stays within
      the input; the other siblings keep their chains and unique ids. */
  lemma KidsChains(cs: seq<Comment>, path: seq<Comment>, kids: seq<Comment>)
    requires UniqueIds(cs) && UniqueIds(kids) && kids != []
    requires forall k :: k in kids ==> IsChain(cs, path + [k])
    ensures IsChain(cs, path + [kids[0]]) && |path| < |cs|
    ensures forall k :: k in kids[1..] ==> IsChain(cs, path + [k])
    ensures UniqueIds(kids[1..])
  {
    assert kids[0] in kids;
    ChainBound(cs, path + [kids[0]]);
    UniqueIdsTail(kids);
    forall k | k in kids[1..] ensures IsChain(cs, path + [k]) {
      assert k in kids;
    }
  }

  /** The tree of the first sibling followed by the trees of the others keeps
      one well-attached tree per sibling, holds only their descendants and
      repeats nothing, because the first sibling is not among the others. */
  lemma SiblingsJoin(cs: seq<Comment>, depth: nat, kids: seq<Comment>, t: Tree, rest: seq<Tree>)
    requires kids != [] && UniqueIds(kids)
    requires t.comment == kids[0] && WellAttached(cs, t) && Distinct(Flatten(t))
    requires forall d :: d in Flatten(t) ==> d in cs && AncestorAt(cs, d, depth) == Some(kids[0])
    requires |rest| == |kids| - 1
    requires forall i :: 0 <= i < |rest| ==> rest[i].comment == kids[1..][i] && WellAttached(cs, rest[i])
    requires forall d :: d in FlattenAll(rest) ==>
               d in cs && AncestorAt(cs, d, depth).Some? && AncestorAt(cs, d, depth).value in kids[1..]
    requires Distinct(FlattenAll(rest))
    ensures |[t] + rest| == |kids|
    ensures forall i :: 0 <= i < |[t] + rest| ==> ([t] + rest)[i].comment == kids[i] && WellAttached(cs, ([t] + rest)[i])
    ensures forall d :: d in FlattenAll([t] + rest) ==>
              d in cs && AncestorAt(cs, d, depth).Some? && AncestorAt(cs, d, depth).value in kids
    ensures Distinct(FlattenAll([t] + rest))
  {
    var ts := [t] + rest;
    assert ts[1..] == rest;
    assert FlattenAll(ts) == Flatten(t) + FlattenAll(rest);
    assert kids[0] !in kids[1..] by {
      UniqueIdsDistinct(kids);
    }
    DistinctConcat(Flatten(t), FlattenAll(rest));
    forall d | d in FlattenAll(ts)
      ensures d in cs && AncestorAt(cs, d, depth).Some? && AncestorAt(cs, d, depth).value in kids
    {
      if d in Flatten(t) {
        assert AncestorAt(cs, d, depth) == Some(kids[0]);
      } else {
        assert AncestorAt(cs, d, depth).value in kids[1..];
      }
    }
    forall i | 0 <= i < |ts| ensures ts[i].comment == kids[i] && WellAttached(cs, ts[i]) {
      if i > 0 {
        assert ts[i] == rest[i - 1];
      }
    }
  }

  /** `build_comment_tree(comments)`: the roots in input order, each with its
      descendants attached. Every comment of the forest is an input comment
      whose parent chain reaches a root, and none occurs twice. */
  function BuildCommentTree(cs: seq<Comment>): (forest: seq<Tree>)
    requires UniqueIds(cs)
    ensures cs == [] ==> forest == []
    ensures |forest| == |Roots(cs)|
    ensures forall i :: 0 <= i < |forest| ==> forest[i].comment == Roots(cs)[i]
    ensures forall i :: 0 <= i < |forest| ==> WellAttached(cs, forest[i])
    ensures forall d :: d in FlattenAll(forest) ==> d in cs && ReachesRoot(cs, d)
    ensures Distinct(FlattenAll(forest))
  {
    var p := Partition(cs);
    RootsUnique(cs);
    forall k | k in p.roots ensures IsChain(cs, [] + [k]) {
      RootsMembers(cs, k);
    }
    AttachAll(p.childrenMap, p.roots, cs, [])
  }

  lemma {:induction false} InFlattenAll(ts: seq<Tree>, i: nat)
    requires i < |ts|
    ensures forall x :: x in Flatten(ts[i]) ==> x in FlattenAll(ts)
  {
    if i > 0 {
      InFlattenAll(ts[1..], i - 1);
    }
  }

  /** A well-attached tree holds the children of every comment it holds. */
  lemma {:induction false} TreeClosed(cs: seq<Comment>, t: Tree, x: Comment, k: Comment)
    requires WellAttached(cs, t) && x in Flatten(t) && k in ChildrenOf(cs, x.id)
    ensures k in Flatten(t)
    decreases t, 1
  {
    if x == t.comment {
      var kids := ChildrenOf(cs, x.id);
      var i :| 0 <= i < |kids| && kids[i] == k;
      assert t.children[i].comment == k;
      assert k in Flatten(t.children[i]);
      InFlattenAll(t.children, i);
    } else {
      ForestClosed(cs, t.children, x, k);
    }
  }

  lemma {:induction false} ForestClosed(cs: seq<Comment>, ts: seq<Tree>, x: Comment, k: Comment)
    requires forall i :: 0 <= i < |ts| ==> WellAttached(cs, ts[i])
    requires x in FlattenAll(ts) && k in ChildrenOf(cs, x.id)
    ensures k in FlattenAll(ts)
    decreases ts, 0
  {
    if x in Flatten(ts[0]) {
      TreeClosed(cs, ts[0], x, k);
    } else {
      ForestClosed(cs, ts[1..], x, k);
    }
  }

  /** A forest made of one well-attached tree per root, in order. */
  predicate RootedForest(cs: seq<Comment>, forest: seq<Tree>) {
    && |forest| == |Roots(cs)|
    && (forall i :: 0 <= i < |forest| ==> forest[i].comment == Roots(cs)[i])
    && (forall i :: 0 <= i < |forest| ==> WellAttached(cs, forest[i]))
  }

  /** Such a forest holds every root. */
  lemma RootInForest(cs: seq<Comment>, forest: seq<Tree>, d: Comment)
    requires RootedForest(cs, forest) && d in cs && !HasParent(d)
    ensures d in FlattenAll(forest)
  {
    var roots := Roots(cs);
    RootsMembers(cs, d);
    var i :| 0 <= i < |roots| && roots[i] == d;
    assert forest[i].comment == d;
    assert d in Flatten(forest[i]);
    InFlattenAll(forest, i);
  }

  /** Such a forest holds every input comment whose parent chain reaches a
      root, in any number of steps. */
  lemma {:induction false} ReachableInForest(cs: seq<Comment>, forest: seq<Tree>, d: Comment, fuel: nat)
    requires RootedForest(cs, forest) && d in cs && RootDistance(cs, d, fuel).Some?
    ensures d in FlattenAll(forest)
    decreases fuel
  {
    if !HasParent(d) {
      RootInForest(cs, forest, d);
    } else {
      var found := FindById(cs, d.parentId.value);
      assert ParentOf(cs, d) == found;
      var p := found.value;
      assert p in cs && RootDistance(cs, p, fuel - 1).Some?;
      ReachableInForest(cs, forest, p, fuel - 1);
      assert IsChildOf(d, p.id);
      ChildrenMembers(cs, p.id, d);
      ForestClosed(cs, forest, p, d);
    }
  }

  /** A comment is in the forest exactly when it is an input comment whose
      parent chain reaches a root; orphans and cycles are left out. */
  lemma InForestIffReachable(cs: seq<Comment>, d: Comment)
    requires UniqueIds(cs)
    ensures d in FlattenAll(BuildCommentTree(cs)) <==> d in cs && ReachesRoot(cs, d)
  {
    var forest := BuildCommentTree(cs);
    if d in cs && ReachesRoot(cs, d) {
      ReachableInForest(cs, forest, d, |cs|);
    }
  }

  /** `children_map.get(node.id, [])`: a comment nobody replies to gets an
      empty list of children rather than an error. */
  lemma NoRepliesIsLeaf(cs: seq<Comment>, t: Tree)
    requires WellAttached(cs, t)
    requires forall k :: k in cs ==> !IsChildOf(k, t.comment.id)
    ensures t.children == []
  {
    var kids := ChildrenOf(cs, t.comment.id);
    if kids != [] {
      ChildrenMembers(cs, t.comment.id, kids[0]);
      assert false;
    }
  }

  /** A root comment has only one well-attached tree: the children rule fixes
      the whole shape, so the forest is determined by the input. */
  lemma {:induction false} WellAttachedUnique(cs: seq<Comment>, t1: Tree, t2: Tree)
    requires WellAttached(cs, t1) && WellAttached(cs, t2) && t1.comment == t2.comment
    ensures t1 == t2
    decreases t1
  {
    forall i | 0 <= i < |t1.children| ensures t1.children[i] == t2.children[i] {
      WellAttachedUnique(cs, t1.children[i], t2.children[i]);
    }
    assert t1.children == t2.children;
  }

  /** Comment 1 is a root with replies 2 and 3, and 4 replies to 2: the single
      pass puts 1 among the roots and each reply under its parent. */
  lemma ExampleFilters()
    ensures var c1 := Comment(1, None, "", "");
            var c2 := Comment(2, Some(1), "", "");
            var c3 := Comment(3, Some(1), "", "");
            var c4 := Comment(4, Some(2), "", "");
            var cs := [c1, c2, c3, c4];
            Roots(cs) == [c1] && ChildrenOf(cs, 1) == [c2, c3] && ChildrenOf(cs, 2) == [c4] &&
            ChildrenOf(cs, 3) == [] && ChildrenOf(cs, 4) == []
  {
    var c1 := Comment(1, None, "", "");
    var c2 := Comment(2, Some(1), "", "");
    var c3 := Comment(3, Some(1), "", "");
    var c4 := Comment(4, Some(2), "", "");
    var cs := [c1, c2, c3, c4];
    assert cs[1..] == [c2, c3, c4] && cs[2..] == [c3, c4] && cs[3..] == [c4];
    assert cs[1..][1..] == cs[2..] && cs[2..][1..] == cs[3..] && cs[3..][1..] == [];
    RootsCons(cs[3..]); RootsCons(cs[2..]); RootsCons(cs[1..]); RootsCons(cs);
    ChildrenOfCons(cs[3..], 1); ChildrenOfCons(cs[2..], 1); ChildrenOfCons(cs[1..], 1); ChildrenOfCons(cs, 1);
    ChildrenOfCons(cs[3..], 2); ChildrenOfCons(cs[2..], 2); ChildrenOfCons(cs[1..], 2); ChildrenOfCons(cs, 2);
    ChildrenOfCons(cs[3..], 3); ChildrenOfCons(cs[2..], 3); ChildrenOfCons(cs[1..], 3); ChildrenOfCons(cs, 3);
    ChildrenOfCons(cs[3..], 4); ChildrenOfCons(cs[2..], 4); ChildrenOfCons(cs[1..], 4); ChildrenOfCons(cs, 4);
  }

  /** The tree 1 → (2 → 4, 3) gives every node exactly its replies. */
  lemma ExampleTreeWellAttached()
    ensures var c1 := Comment(1, None, "", "");
            var c2 := Comment(2, Some(1), "", "");
            var c3 := Comment(3, Some(1), "", "");
            var c4 := Comment(4, Some(2), "", "");
            WellAttached([c1, c2, c3, c4], Node(c1, [Node(c2, [Node(c4, [])]), Node(c3, [])]))
  {
    var c1 := Comment(1, None, "", "");
    var c2 := Comment(2, Some(1), "", "");
    var c3 := Comment(3, Some(1), "", "");
    var c4 := Comment(4, Some(2), "", "");
    var cs := [c1, c2, c3, c4];
    ExampleFilters();
    assert ChildrenOf(cs, 1) == [c2, c3] && ChildrenOf(cs, 2) == [c4];
    assert ChildrenOf(cs, 3) == [] && ChildrenOf(cs, 4) == [];
    assert WellAttached(cs, Node(c4, []));
    assert WellAttached(cs, Node(c3, []));
    assert WellAttached(cs, Node(c2, [Node(c4, [])]));
  }

  /** Comment 1 is a root with replies 2 and 3, and 4 replies to 2. */
  lemma NestedRepliesExample()
    ensures var c1 := Comment(1, None, "", "");
            var c2 := Comment(2, Some(1), "", "");
            var c3 := Comment(3, Some(1), "", "");
            var c4 := Comment(4, Some(2), "", "");
            BuildCommentTree([c1, c2, c3, c4]) ==
              [Node(c1, [Node(c2, [Node(c4, [])]), Node(c3, [])])]
  {
    var c1 := Comment(1, None, "", "");
    var c2 := Comment(2, Some(1), "", "");
    var c3 := Comment(3, Some(1), "", "");
    var c4 := Comment(4, Some(2), "", "");
    var cs := [c1, c2, c3, c4];
    var expected := Node(c1, [Node(c2, [Node(c4, [])]), Node(c3, [])]);
    ExampleFilters();
    assert Roots(cs) == [c1];
    ExampleTreeWellAttached();
    var forest := BuildCommentTree(cs);
    WellAttachedUnique(cs, forest[0], expected);
    assert forest == [forest[0]];
  }

}
