/** `serialize_comment` inside `PostDetailView.get` (feed/views.py): the
    dictionary each comment of the built tree becomes in the response. */
module CommentSerializer {
  import opened Optional
  import opened Comments
  import opened CommentTree

  /** `{"id", "author", "content", "children"}`; the author is already the
      username. */
  datatype SerializedComment =
    SerializedComment(id: int, author: string, content: string, children: seq<SerializedComment>)

  /** `serialize_comment(c)`: the comment's fields and, in order, the
      serialization of each of its attached children. */
  function Serialize(t: Tree): SerializedComment
    decreases t
  {
    SerializedComment(t.comment.id, t.comment.author, t.comment.content,
      seq(|t.children|, i requires 0 <= i < |t.children| => Serialize(t.children[i])))
  }

  /** `[serialize_comment(c) for c in tree]`. */
  function SerializeForest(forest: seq<Tree>): (out: seq<SerializedComment>)
    ensures |out| == |forest|
    ensures forall i :: 0 <= i < |out| ==> out[i].id == forest[i].comment.id
  {
    seq(|forest|, i requires 0 <= i < |forest| => Serialize(forest[i]))
  }

  /** The inverse direction: rebuild a tree from its serialization, giving each
      child the id of the node it is nested in as its parent id. Only the
      root's own parent id is not recorded in the output, so it is supplied. */
  function Restore(s: SerializedComment, parentId: Option<int>): Tree
    decreases s
  {
    Node(Comment(s.id, parentId, s.author, s.content),
      seq(|s.children|, i requires 0 <= i < |s.children| => Restore(s.children[i], Some(s.id))))
  }

  /** Every child records its node's id as parent id, all the way down. */
  predicate ParentLinked(t: Tree)
    decreases t
  {
    forall i :: 0 <= i < |t.children| ==>
      t.children[i].comment.parentId == Some(t.comment.id) && ParentLinked(t.children[i])
  }

  /** The trees the builder produces are parent-linked. */
  lemma {:induction false} WellAttachedIsLinked(cs: seq<Comment>, t: Tree)
    requires WellAttached(cs, t)
    ensures ParentLinked(t)
    decreases t
  {
    forall i | 0 <= i < |t.children|
      ensures t.children[i].comment.parentId == Some(t.comment.id) && ParentLinked(t.children[i])
    {
      assert t.children[i].comment in ChildrenOf(cs, t.comment.id);
      ChildrenMembers(cs, t.comment.id, t.children[i].comment);
      WellAttachedIsLinked(cs, t.children[i]);
    }
  }

  /** Serialization keeps the whole tree: the same nodes, the same children in
      the same order, so the tree is recovered from its output. */
  lemma {:induction false} SerializeRoundTrip(t: Tree)
    requires ParentLinked(t)
    ensures Restore(Serialize(t), t.comment.parentId) == t
    decreases t
  {
    var s := Serialize(t);
    var back := Restore(s, t.comment.parentId);
    assert |back.children| == |t.children|;
    forall i | 0 <= i < |t.children| ensures back.children[i] == t.children[i] {
      SerializeRoundTrip(t.children[i]);
    }
    assert back.children == t.children;
  }

  /** The response of the post-detail view carries the whole forest: every
      built tree is recovered from its serialization. */
  lemma ServedForestRoundTrip(cs: seq<Comment>)
    requires UniqueIds(cs)
    ensures var forest := BuildCommentTree(cs);
            var out := SerializeForest(forest);
            forall i :: 0 <= i < |forest| ==> Restore(out[i], forest[i].comment.parentId) == forest[i]
  {
    var forest := BuildCommentTree(cs);
    forall i | 0 <= i < |forest|
      ensures Restore(SerializeForest(forest)[i], forest[i].comment.parentId) == forest[i]
    {
      WellAttachedIsLinked(cs, forest[i]);
      SerializeRoundTrip(forest[i]);
    }
  }
}
