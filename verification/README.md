# Feed backend core in Dafny

A model of the two pure computations of a small Django feed backend, with
proofs of what they compute.

- **Comment trees** (`build_comment_tree` in feed/services.py). One pass over
  the comments of a post puts each comment either in `roots` (a falsy
  `parent_id`: `None` or `0`) or in the `children_map` list of its parent id.
  A recursive `attach` then gives every comment reachable from a root its
  list of children. `serialize_comment` (feed/views.py) turns each built
  tree into the nested dictionary of the post-detail response.
- **Leaderboard** (`LeaderboardView.get` in feed/views.py). Likes of the last
  24 hours are counted: 5 points to the author of a liked post and 1 point to
  the author of a liked comment. Two grouped queries are meant to give one row
  per author.
  Their totals are merged into an insertion-ordered `scores` dict, post rows
  first. The dict is sorted by score, descending and stable, and the first
  five entries are kept.

Modules, one per concept:

- `Optional` — the option type.
- `SeqFacts` — distinctness and pigeonhole facts about sequences.
- `Comments` — the comment record, Python's truthiness test on `parent_id`,
  and reference definitions: the roots, the children of an id, and the walk
  up the parent chain (`RootDistance`, `ReachesRoot`, `AncestorAt`).
- `CommentTree` — the single pass (`Step`, `PartitionFrom`, `Partition`),
  `attach` (`Attach`, `AttachAll`) and `BuildCommentTree`.
- `CommentSerializer` — `serialize_comment` and its inverse.
- `ScoreTable` — the insertion-ordered dict as a sequence of entries, with
  `get`, assignment and `+=`.
- `StableSort` — `sorted(..., key=score, reverse=True)` as a stable insertion
  sort, plus the proof that the stable descending order is unique.
- `Leaderboard` — the time window, the two grouped queries, the merge, the
  top-five cut, and reference scores counted directly from the likes.

`attach` has no guard against revisiting a comment. The model therefore
requires unique comment ids, which is the database primary key. A ghost
downward path from a root shows that the recursion depth never exceeds the
number of comments.

Every operation is paired with a reference definition or an inverse:

- The forest holds exactly the input comments whose parent chain reaches a
  root (`InForestIffReachable`).
- Serialization is undone by `Restore` (`SerializeRoundTrip`).
- Every score equals 5 × in-window post likes + 1 × in-window comment likes
  (`ScoreTableScore`).
- The model's sort is the only stable descending order of its input
  (`StableSortUnique`).

## Model

| member | source | states |
|---|---|---|
| `Comments.RootsMembers` | feed/services.py:7-11 | a comment is a root exactly when it is an input comment whose `parent_id` is `None` or `0` |
| `Comments.ChildrenMembers` | feed/services.py:8-9 | a comment is listed under an id exactly when it is an input comment whose truthy `parent_id` is that id |
| `Comments.ChainBound` | feed/services.py:13-16 | with unique ids, a chain of `attach` calls from a root never revisits a comment, so it is at most as long as the input |
| `CommentTree.PartitionRoots` | feed/services.py:7-11 | the loop appends to `roots`, in input order, the comments with a falsy parent id, and only those |
| `CommentTree.PartitionLookup` | feed/services.py:7-11 | for every id, the loop appends to `children_map[id]`, in input order, exactly the comments naming it as parent |
| `CommentTree.Partition` | feed/services.py:4-11 | from empty `roots` and an empty map, `roots` holds the root comments; `children_map.get(id, [])` holds the children of every id, in input order |
| `CommentTree.Attach` | feed/services.py:13-16 | `attach` terminates, and the node's children are exactly its children in input order, recursively; every node below it is an input comment having it as ancestor; no comment occurs twice |
| `CommentTree.AttachAll` | feed/services.py:15-19 | attaching a list of siblings gives one tree per sibling, in order, each well attached; the trees hold only descendants of those siblings, each once |
| `CommentTree.BuildCommentTree` | feed/services.py:3-21 | empty input gives an empty forest; there is one tree per root, in input order; every tree is well attached; every node is an input comment whose chain reaches a root; nothing occurs twice |
| `CommentTree.InForestIffReachable` | feed/services.py:13-19 | a comment is in the forest if and only if it is an input comment whose parent chain reaches a root; orphans and cycles are dropped |
| `CommentTree.NoRepliesIsLeaf` | feed/services.py:14 | a comment nobody replies to gets an empty children list (`children_map.get(node.id, [])`), not an error |
| `CommentTree.WellAttachedUnique` | feed/services.py:13-19 | the children rule fixes the whole tree below a root, so the forest is determined by the input |
| `CommentTree.ExampleFilters` | feed/services.py:7-11 | for comments 1 (root), 2 and 3 (replies to 1) and 4 (reply to 2), the roots are [1], the children of 1 are [2, 3], and those of 2 are [4] |
| `CommentTree.NestedRepliesExample` | feed/services.py:3-21 | the same four comments build the single tree 1 → (2 → 4, 3) |
| `CommentSerializer.SerializeForest` | feed/views.py:46 | the response lists one serialized comment per root, in order, carrying that root's id |
| `CommentSerializer.WellAttachedIsLinked` | feed/services.py:9-14 | in a built tree every child carries its node's id as `parent_id` |
| `CommentSerializer.SerializeRoundTrip` | feed/views.py:31-40 | serialization keeps id, author, content and every child in order, so the tree is recovered from its output |
| `CommentSerializer.ServedForestRoundTrip` | feed/views.py:29-46 | every tree of the built forest is recovered from the dictionary the post-detail view serves for it |
| `ScoreTable.PutUsers` | feed/views.py:94 | assigning to a dict key keeps the key order and appends a new key last |
| `ScoreTable.PutGet` | feed/views.py:94 | after `scores[u] = v`, `u` maps to `v` and every other key keeps its value |
| `ScoreTable.AddUsers` | feed/views.py:94 | `scores[u] = scores.get(u, 0) + total` keeps the key order, appends a new key last and never duplicates a key |
| `ScoreTable.AddGet` | feed/views.py:94 | the same statement raises `u`'s score by `total` (from 0 for a new key) and leaves every other score unchanged |
| `StableSort.SortSorted` | feed/views.py:99 | `sorted(..., reverse=True)` orders the items by non-increasing score |
| `StableSort.SortMembers` | feed/views.py:99 | the sorted list holds exactly the dict's items |
| `StableSort.SortIsStablePermutation` | feed/views.py:99 | the sort is a permutation of the items and keeps, for every score, the dict order of the items with that score |
| `StableSort.StableSortUnique` | feed/views.py:99 | two descending orders that keep, for every score, the same order of items are equal, so the model agrees with Python's stable `sorted` |
| `Leaderboard.GroupRowsScore` | feed/views.py:73-89 | a grouped row's `total` is 5 (post query) or 1 (comment query) per in-window like on that author's posts or comments |
| `Leaderboard.GroupRowsUsers` | feed/views.py:73-89 | a query has a row for an author exactly when that author received an in-window like of its kind |
| `Leaderboard.GroupRowsDistinct` | feed/views.py:76-85 | `values(user_id=...)` grouping gives at most one row per author |
| `Leaderboard.MergeRowsScore` | feed/views.py:93-97 | merging the rows adds each row's total to the author's score |
| `Leaderboard.MergeRowsUsers` | feed/views.py:93-97 | merging keeps the existing keys in place, adds exactly the rows' authors, and never duplicates a key |
| `Leaderboard.ScoreTableScore` | feed/views.py:71-97 | an author's entry in `scores` is 5 × in-window post likes + 1 × in-window comment likes, and authors without an in-window like have no entry |
| `Leaderboard.ScoreTableDistinct` | feed/views.py:91-97 | `scores` holds each author once, and the post-like authors come first, in their row order |
| `Leaderboard.ScoreTableEntry` | feed/views.py:91-97 | every entry of `scores` belongs to an author with an in-window like and carries that author's combined score, which is at least 1 |
| `Leaderboard.ScoreTableSize` | feed/views.py:91-97 | `scores` has one entry per author with an in-window like |
| `Leaderboard.ComputeLeaderboard` | feed/views.py:70-101 | `top5` has min(5, scored authors) entries, non-increasing, distinct authors, each with their combined score ≥ 1; no author left out scores above an entry; for every score, its entries are the first ones of that score in dict order |
| `Leaderboard.TiesKeepDictOrder` | feed/views.py:99 | of two board entries of equal score, the one ranked first was inserted into `scores` first (its dict position is smaller) |
| `Leaderboard.PostAuthorsFirstOnTies` | feed/views.py:93-99 | on a tie, an author ranked above an author with an in-window post like also has one: post-like authors are never ranked below comment-only authors of equal score |
| `Leaderboard.OutOfWindowLikesIgnored` | feed/views.py:71-89 | likes older than 24 hours change nothing: the board equals the board of the in-window likes alone |
| `Leaderboard.OneMoreLike` | feed/views.py:73-97 | one more like adds exactly 5 (post) or 1 (comment) to its target author's score when it is in the window, and nothing to anyone otherwise |
| `Leaderboard.SmallBoardIsComplete` | feed/views.py:99 | with at most five scored authors, every one of them is on the board |
| `Leaderboard.WindowBoundaryIncluded` | feed/views.py:71-75 | a post like exactly 24 hours old still counts: the board is that author with 5 |
| `Leaderboard.WindowBoundaryExcluded` | feed/views.py:71-75 | one second older, it no longer counts: the board is empty |
| `Leaderboard.TwoAuthorsExample` | feed/views.py:70-101 | a recent post like on `a` and a recent comment like on `b` give the board [(a, 5), (b, 1)] |

## Left out

- Database access is not modelled: querysets, `select_related`, `F`, `Case`, `When` and `Sum`. The model works on in-memory sequences in which each like's target author is already resolved.
- Each comment's `author.username` is a string field of the comment record.
- `timezone.now()` is a parameter `now`, in whole seconds, and `timedelta(hours=24)` is the constant 86400.
- A grouped query's rows are assumed to arrive in order of each author's first in-window like. The queries have no `order_by`, so the database may return them in another order. Because the sort is stable, that order decides ties on the board.
- The grouped queries are modelled by what they are meant to return: one `(user_id, total)` row per author. The model assumes the querysets evaluate. In feed/views.py:76 and :85 the alias `user_id` given to `values(...)` has the same name as the column of `Like.user` (the field set at feed/views.py:62). Django rejects an annotation whose name clashes with a model field, so as written the queryset may raise a `ValueError` when it is built. That error is outside this model.
- A like is on a post or on a comment, never both. A row with both set would count in both queries in the source.
- Tree building requires unique comment ids, the database primary key. With a duplicated id, `attach` can recurse forever, and that behaviour is not modelled.
- The model has no recursion limit. Very deep reply chains that would raise Python's `RecursionError` are not represented.
- `attach` sets `children_cached` on the comment objects in place. The model builds a new `Tree` instead. So the `getattr(c, "children_cached", [])` default of `serialize_comment` cannot arise, since every built node carries its children.
- The post-detail response is not modelled beyond its `comments` list (`post.id`, `post.author`, `post.content`).
- Nothing else in feed/views.py is modelled: the `Response` objects, `request.user`, transactions, `PostViewSet`, `CreateCommentView` and `LikePostView` (duplicate likes are rejected through a database constraint).
- feed/urls.py holds only routing and is not modelled.
- `attach` has no visited-set guard. The 24-hour window and the top-5 cut are fixed constants. Ties keep the dict's insertion order and are not broken by author id. The model does the same.
- Same likes and same `now` give the same board because every operation is a function. `StableSortUnique` shows that any stable descending sort would give the same order.
