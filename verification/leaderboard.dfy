/** The scoring rule of `LeaderboardView.get` (feed/views.py): likes of the
    last 24 hours earn 5 points to the author of a liked post and 1 point to
    the author of a liked comment; the per-author totals are ranked by score
    and the first five are returned. The two grouped ORM queries are modelled
    over a sequence of likes whose target author is already resolved. */
module Leaderboard {
  import opened SeqFacts
  import opened ScoreTable
  import opened StableSort

  /** What a like is attached to: a post or a comment. */
  datatype Target = OnPost | OnComment

  /** A like: when it was made, what it is on, and the author of that post or
      comment (`post__author` or `comment__author`). Times are in seconds. */
  datatype Like = Like(createdAt: int, target: Target, targetAuthor: int)

  /** `timedelta(hours=24)`, in seconds. */
  const WindowSeconds: int := 24 * 60 * 60
  /** `then=5` in the post-like query. */
  const PostLikePoints: int := 5
  /** `then=1` in the comment-like query. */
  const CommentLikePoints: int := 1
  /** `[:5]`. */
  const TopN: nat := 5

  function Points(target: Target): int {
    match target
    case OnPost => PostLikePoints
    case OnComment => CommentLikePoints
  }

  function Min(a: int, b: int): int {
    if a <= b then a else b
  }

  /** `created_at__gte=since` with `since = now - 24h`: a like exactly 24 hours
      old still counts. */
  predicate InWindow(l: Like, now: int) {
    l.createdAt >= now - WindowSeconds
  }

  /** Reference: how many in-window likes on a `target` of `user`'s there are. */
  function CountLikes(likes: seq<Like>, now: int, target: Target, user: int): nat {
    if likes == [] then 0
    else
      var l := likes[0];
      (if l.target == target && l.targetAuthor == user && InWindow(l, now) then 1 else 0)
      + CountLikes(likes[1..], now, target, user)
  }

  /** Reference: 5 points per in-window post like and 1 per in-window comment
      like received by `user`. */
  function ExpectedScore(likes: seq<Like>, now: int, user: int): int {
    PostLikePoints * CountLikes(likes, now, OnPost, user)
    + CommentLikePoints * CountLikes(likes, now, OnComment, user)
  }

  /** Reference: the authors who received at least one in-window like. */
  function ScoredAuthors(likes: seq<Like>, now: int): set<int> {
    set l | l in likes && InWindow(l, now) :: l.targetAuthor
  }

  /** The likes inside the window, in their order. */
  function Recent(likes: seq<Like>, now: int): (r: seq<Like>)
    ensures forall l :: l in r <==> l in likes && InWindow(l, now)
  {
    if likes == [] then []
    else (if InWindow(likes[0], now) then [likes[0]] else []) + Recent(likes[1..], now)
  }

  /** One grouped ORM query (`filter(created_at__gte=since, ...)`,
      `values(user_id=...)`, `annotate(total=Sum(...))`), continued from the
      rows `acc`: one row per author of a liked `target`, in order of first
      appearance, its total being the target's points per like. */
  function GroupRows(likes: seq<Like>, now: int, target: Target, acc: seq<Entry>): seq<Entry>
    decreases likes
  {
    if likes == [] then acc
    else
      var l := likes[0];
      var next := if l.target == target && InWindow(l, now) then Add(acc, l.targetAuthor, Points(target)) else acc;
      GroupRows(likes[1..], now, target, next)
  }

  /** A grouped row holds the target's points times the author's in-window
      likes on that kind of target. */
  lemma {:induction false} GroupRowsScore(likes: seq<Like>, now: int, target: Target, acc: seq<Entry>, u: int)
    ensures Get(GroupRows(likes, now, target, acc), u) == Get(acc, u) + Points(target) * CountLikes(likes, now, target, u)
    decreases likes
  {
    if likes != [] {
      var l := likes[0];
      var rest := CountLikes(likes[1..], now, target, u);
      var p := Points(target);
      if l.target == target && InWindow(l, now) {
        var next := Add(acc, l.targetAuthor, p);
        assert GroupRows(likes, now, target, acc) == GroupRows(likes[1..], now, target, next);
        GroupRowsScore(likes[1..], now, target, next, u);
        AddGet(acc, l.targetAuthor, p, u);
        if l.targetAuthor == u {
          assert CountLikes(likes, now, target, u) == rest + 1;
          assert Get(next, u) == Get(acc, u) + p;
          assert p * (rest + 1) == p * rest + p;
        } else {
          assert CountLikes(likes, now, target, u) == rest;
          assert Get(next, u) == Get(acc, u);
        }
      } else {
        assert GroupRows(likes, now, target, acc) == GroupRows(likes[1..], now, target, acc);
        GroupRowsScore(likes[1..], now, target, acc, u);
        assert CountLikes(likes, now, target, u) == rest;
      }
    }
  }

  /** There is a grouped row exactly for the authors with at least one
      in-window like on that kind of target. */
  lemma {:induction false} GroupRowsUsers(likes: seq<Like>, now: int, target: Target, acc: seq<Entry>, u: int)
    ensures u in Users(GroupRows(likes, now, target, acc)) <==> u in Users(acc) || CountLikes(likes, now, target, u) > 0
    decreases likes
  {
    if likes != [] {
      var l := likes[0];
      if l.target == target && InWindow(l, now) {
        var next := Add(acc, l.targetAuthor, Points(target));
        assert GroupRows(likes, now, target, acc) == GroupRows(likes[1..], now, target, next);
        GroupRowsUsers(likes[1..], now, target, next, u);
        AddUsers(acc, l.targetAuthor, Points(target));
      } else {
        assert GroupRows(likes, now, target, acc) == GroupRows(likes[1..], now, target, acc);
        GroupRowsUsers(likes[1..], now, target, acc, u);
      }
    }
  }

  lemma {:induction false} GroupRowsDistinct(likes: seq<Like>, now: int, target: Target, acc: seq<Entry>)
    requires DistinctUsers(acc)
    ensures DistinctUsers(GroupRows(likes, now, target, acc))
    decreases likes
  {
    if likes != [] {
      var l := likes[0];
      var next := if l.target == target && InWindow(l, now) then Add(acc, l.targetAuthor, Points(target)) else acc;
      AddUsers(acc, l.targetAuthor, Points(target));
      GroupRowsDistinct(likes[1..], now, target, next);
    }
  }

  /** `post_likes`. */
  function PostRows(likes: seq<Like>, now: int): seq<Entry> {
    GroupRows(likes, now, OnPost, [])
  }

  /** `comment_likes`. */
  function CommentRows(likes: seq<Like>, now: int): seq<Entry> {
    GroupRows(likes, now, OnComment, [])
  }

  /** `for row in rows: scores[row["user_id"]] = scores.get(row["user_id"], 0) + row["total"]`. */
  function MergeRows(scores: seq<Entry>, rows: seq<Entry>): seq<Entry>
    decreases rows
  {
    if rows == [] then scores
    else MergeRows(Add(scores, rows[0].user, rows[0].score), rows[1..])
  }

  /** Merging adds each row's total to the author's score. */
  lemma {:induction false} MergeRowsScore(scores: seq<Entry>, rows: seq<Entry>, u: int)
    requires DistinctUsers(rows)
    ensures Get(MergeRows(scores, rows), u) == Get(scores, u) + Get(rows, u)
    decreases rows
  {
    if rows != [] {
      TailDistinct(rows);
      MergeRowsScore(Add(scores, rows[0].user, rows[0].score), rows[1..], u);
      AddGet(scores, rows[0].user, rows[0].score, u);
      GetAbsent(rows[1..], rows[0].user);
    }
  }

  /** Merging keeps the existing keys in place and appends the new ones in
      the order of the rows. */
  lemma {:induction false} MergeRowsUsers(scores: seq<Entry>, rows: seq<Entry>, u: int)
    ensures u in Users(MergeRows(scores, rows)) <==> u in Users(scores) || u in Users(rows)
    ensures Users(scores) <= Users(MergeRows(scores, rows))
    ensures DistinctUsers(scores) ==> DistinctUsers(MergeRows(scores, rows))
    decreases rows
  {
    if rows != [] {
      var next := Add(scores, rows[0].user, rows[0].score);
      AddUsers(scores, rows[0].user, rows[0].score);
      MergeRowsUsers(next, rows[1..], u);
      assert rows == [rows[0]] + rows[1..];
      UsersCons(rows[0], rows[1..]);
    }
  }

  /** The keys of the rows after the first are still fresh once the first
      row has been added. */
  lemma FreshAfterAdd(scores: seq<Entry>, rows: seq<Entry>)
    requires rows != [] && DistinctUsers(rows)
    requires forall u :: u in Users(rows) ==> u !in Users(scores)
    ensures Users(Add(scores, rows[0].user, rows[0].score)) == Users(scores) + [rows[0].user]
    ensures forall u :: u in Users(rows[1..]) ==> u !in Users(Add(scores, rows[0].user, rows[0].score))
  {
    var x := rows[0].user;
    TailDistinct(rows);
    assert Users(rows) == [x] + Users(rows[1..]);
    AddUsers(scores, x, rows[0].score);
    forall u | u in Users(rows[1..]) ensures u !in Users(scores) + [x] {
      assert u in Users(rows);
    }
  }

  lemma {:induction false} MergeRowsFresh(scores: seq<Entry>, rows: seq<Entry>)
    requires DistinctUsers(rows)
    requires forall u :: u in Users(rows) ==> u !in Users(scores)
    ensures Users(MergeRows(scores, rows)) == Users(scores) + Users(rows)
    decreases rows
  {
    if rows != [] {
      var next := Add(scores, rows[0].user, rows[0].score);
      TailDistinct(rows);
      FreshAfterAdd(scores, rows);
      MergeRowsFresh(next, rows[1..]);
      assert MergeRows(scores, rows) == MergeRows(next, rows[1..]);
      var a, b := Users(scores), Users(rows[1..]);
      assert Users(rows) == [rows[0].user] + b;
      assert a + ([rows[0].user] + b) == (a + [rows[0].user]) + b;
    }
  }

  lemma {:induction false} ScoredAuthorsIff(likes: seq<Like>, now: int, u: int)
    ensures u in ScoredAuthors(likes, now) <==>
              CountLikes(likes, now, OnPost, u) > 0 || CountLikes(likes, now, OnComment, u) > 0
  {
    if likes != [] {
      ScoredAuthorsIff(likes[1..], now, u);
      var l := likes[0];
      assert ScoredAuthors(likes, now) ==
        (if InWindow(l, now) then {l.targetAuthor} else {}) + ScoredAuthors(likes[1..], now) by {
        assert likes == [l] + likes[1..];
      }
    }
  }

  /** The `scores` dictionary once both queries are merged in. */
  function ScoreTableOf(likes: seq<Like>, now: int): seq<Entry> {
    MergeRows(MergeRows([], PostRows(likes, now)), CommentRows(likes, now))
  }

  /** The score of every user in `scores` is 5 per in-window post like and 1
      per in-window comment like they received, summed into one entry, and
      the keys are exactly the authors who received an in-window like. */
  lemma ScoreTableScore(likes: seq<Like>, now: int, u: int)
    ensures Get(ScoreTableOf(likes, now), u) == ExpectedScore(likes, now, u)
    ensures u in Users(ScoreTableOf(likes, now)) <==> u in ScoredAuthors(likes, now)
  {
    var postRows := PostRows(likes, now);
    var commentRows := CommentRows(likes, now);
    GroupRowsDistinct(likes, now, OnPost, []);
    GroupRowsDistinct(likes, now, OnComment, []);
    GroupRowsScore(likes, now, OnPost, [], u);
    GroupRowsScore(likes, now, OnComment, [], u);
    GroupRowsUsers(likes, now, OnPost, [], u);
    GroupRowsUsers(likes, now, OnComment, [], u);
    MergeRowsScore([], postRows, u);
    MergeRowsScore(MergeRows([], postRows), commentRows, u);
    MergeRowsUsers([], postRows, u);
    MergeRowsUsers(MergeRows([], postRows), commentRows, u);
    ScoredAuthorsIff(likes, now, u);
  }

  /** `scores` has each author once, and the authors of the post-like rows
      come first, in their row order. */
  lemma ScoreTableDistinct(likes: seq<Like>, now: int)
    ensures DistinctUsers(ScoreTableOf(likes, now))
    ensures Users(PostRows(likes, now)) <= Users(ScoreTableOf(likes, now))
  {
    var postRows := PostRows(likes, now);
    var commentRows := CommentRows(likes, now);
    GroupRowsDistinct(likes, now, OnPost, []);
    MergeRowsUsers([], postRows, 0);
    MergeRowsUsers(MergeRows([], postRows), commentRows, 0);
    MergeRowsFresh([], postRows);
    assert Users(MergeRows([], postRows)) == Users(postRows);
  }

  /** Every entry of `scores` belongs to an author with an in-window like and
      carries that author's score, which is at least 1. */
  lemma ScoreTableEntry(likes: seq<Like>, now: int, e: Entry)
    requires e in ScoreTableOf(likes, now)
    ensures e.user in ScoredAuthors(likes, now)
    ensures e.score == ExpectedScore(likes, now, e.user) && e.score >= 1
  {
    var t := ScoreTableOf(likes, now);
    ScoreTableDistinct(likes, now);
    var i :| 0 <= i < |t| && t[i] == e;
    GetEntry(t, i);
    assert Users(t)[i] == e.user;
    ScoreTableScore(likes, now, e.user);
    ScoredAuthorsIff(likes, now, e.user);
  }

  /** `scores` has one entry per author with an in-window like. */
  lemma ScoreTableSize(likes: seq<Like>, now: int)
    ensures |ScoreTableOf(likes, now)| == |ScoredAuthors(likes, now)|
  {
    var t := ScoreTableOf(likes, now);
    ScoreTableDistinct(likes, now);
    forall u ensures u in Users(t) <==> u in ScoredAuthors(likes, now) {
      ScoreTableScore(likes, now, u);
    }
    assert (set x | x in Users(t)) == ScoredAuthors(likes, now);
    DistinctCard(Users(t));
  }

  /** In a descending sequence, an entry whose key is not among the first `k`
      scores no more than any of them. */
  lemma PrefixBeatsRest(ranked: seq<Entry>, k: nat, e: Entry, x: Entry)
    requires Descending(ranked) && k <= |ranked|
    requires e in ranked[..k] && x in ranked && x.user !in Users(ranked[..k])
    ensures x.score <= e.score
  {
    var top := ranked[..k];
    var i :| 0 <= i < k && top[i] == e;
    var j :| 0 <= j < |ranked| && ranked[j] == x;
    forall m | 0 <= m < k ensures ranked[m].user != x.user {
      assert Users(top)[m] == ranked[m].user;
    }
    assert k <= j;
  }

  /** The stable ranking of `scores`. */
  function Ranked(likes: seq<Like>, now: int): seq<Entry> {
    SortByScoreDesc(ScoreTableOf(likes, now))
  }

  /** An entry of the ranking is an entry of `scores`. */
  lemma RankedEntry(likes: seq<Like>, now: int, e: Entry)
    requires e in Ranked(likes, now)
    ensures e.user in ScoredAuthors(likes, now)
    ensures e.score == ExpectedScore(likes, now, e.user) && e.score >= 1
  {
    SortMembers(ScoreTableOf(likes, now), e);
    ScoreTableEntry(likes, now, e);
  }

  /** A scored author left out of the first `k` of the ranking scores no more
      than any entry among them. */
  lemma RankedBeats(likes: seq<Like>, now: int, k: nat, u: int, e: Entry)
    requires k <= |Ranked(likes, now)|
    requires u in ScoredAuthors(likes, now) && u !in Users(Ranked(likes, now)[..k])
    requires e in Ranked(likes, now)[..k]
    ensures ExpectedScore(likes, now, u) <= e.score
  {
    var table := ScoreTableOf(likes, now);
    var ranked := Ranked(likes, now);
    ScoreTableDistinct(likes, now);
    ScoreTableScore(likes, now, u);
    var j :| 0 <= j < |table| && Users(table)[j] == u;
    GetEntry(table, j);
    SortMembers(table, table[j]);
    SortSorted(table);
    PrefixBeatsRest(ranked, k, e, table[j]);
  }

  /** `top5`: the first five entries of the stable ranking of `scores`. */
  function ComputeLeaderboard(likes: seq<Like>, now: int): (top: seq<Entry>)
    ensures |top| == Min(TopN, |ScoredAuthors(likes, now)|)
    ensures Descending(top)
    ensures DistinctUsers(top)
    ensures forall e :: e in top ==>
              e.user in ScoredAuthors(likes, now) && e.score == ExpectedScore(likes, now, e.user) && e.score >= 1
    ensures forall u, e :: u in ScoredAuthors(likes, now) && u !in Users(top) && e in top ==>
              ExpectedScore(likes, now, u) <= e.score
    ensures forall v :: WithScore(top, v) <= WithScore(ScoreTableOf(likes, now), v)
  {
    var table := ScoreTableOf(likes, now);
    var ranked := Ranked(likes, now);
    ScoreTableSize(likes, now);
    ScoreTableDistinct(likes, now);
    SortIsStablePermutation(table);
    SortSorted(table);
    SortKeepsUsersDistinct(table);
    var k := Min(TopN, |table|);
    var top := ranked[..k];
    forall e | e in top
      ensures e.user in ScoredAuthors(likes, now) && e.score == ExpectedScore(likes, now, e.user) && e.score >= 1
    {
      RankedEntry(likes, now, e);
    }
    forall u, e | u in ScoredAuthors(likes, now) && u !in Users(top) && e in top
      ensures ExpectedScore(likes, now, u) <= e.score
    {
      RankedBeats(likes, now, k, u, e);
    }
    forall v ensures WithScore(top, v) <= WithScore(table, v) {
      WithScorePrefix(ranked, k, v);
    }
    top
  }

  /** Two board entries of equal score, found in `scores`. */
  lemma {:induction false} TieAt(likes: seq<Like>, now: int, i: nat, j: nat)
    requires i < j < |ComputeLeaderboard(likes, now)|
    requires ComputeLeaderboard(likes, now)[i].score == ComputeLeaderboard(likes, now)[j].score
    ensures KeyIndex(ScoreTableOf(likes, now), ComputeLeaderboard(likes, now)[i].user)
              < KeyIndex(ScoreTableOf(likes, now), ComputeLeaderboard(likes, now)[j].user)
              < |ScoreTableOf(likes, now)|
    ensures ScoreTableOf(likes, now)[KeyIndex(ScoreTableOf(likes, now), ComputeLeaderboard(likes, now)[i].user)]
              == ComputeLeaderboard(likes, now)[i]
    ensures ScoreTableOf(likes, now)[KeyIndex(ScoreTableOf(likes, now), ComputeLeaderboard(likes, now)[j].user)]
              == ComputeLeaderboard(likes, now)[j]
  {
    var top, table := ComputeLeaderboard(likes, now), ScoreTableOf(likes, now);
    ScoreTableDistinct(likes, now);
    TiesKeepOrder(top, table, top[i].score, i, j);
    var p, q :| 0 <= p < q < |table| && table[p] == top[i] && table[q] == top[j];
    KeyIndexAt(table, p);
    KeyIndexAt(table, q);
  }

  /** Ties keep the dictionary's order: of two board entries of equal score,
      the one ranked first was inserted into `scores` first. */
  lemma {:induction false} TiesKeepDictOrder(likes: seq<Like>, now: int)
    ensures forall i, j ::
              (0 <= i < j < |ComputeLeaderboard(likes, now)| &&
               ComputeLeaderboard(likes, now)[i].score == ComputeLeaderboard(likes, now)[j].score) ==>
              KeyIndex(ScoreTableOf(likes, now), ComputeLeaderboard(likes, now)[i].user)
                < KeyIndex(ScoreTableOf(likes, now), ComputeLeaderboard(likes, now)[j].user)
  {
    var top, table := ComputeLeaderboard(likes, now), ScoreTableOf(likes, now);
    forall i, j | 0 <= i < j < |top| && top[i].score == top[j].score
      ensures KeyIndex(table, top[i].user) < KeyIndex(table, top[j].user)
    {
      TieAt(likes, now, i, j);
    }
  }

  /** On a tie, an author with an in-window post like is never ranked below
      an author without one: the post-like rows enter `scores` first. */
  lemma {:induction false} PostAuthorsFirstOnTies(likes: seq<Like>, now: int)
    ensures var top, posts := ComputeLeaderboard(likes, now), Users(PostRows(likes, now));
            forall i, j :: 0 <= i < j < |top| && top[i].score == top[j].score && top[j].user in posts ==>
              top[i].user in posts
  {
    var top, table := ComputeLeaderboard(likes, now), ScoreTableOf(likes, now);
    var posts := Users(PostRows(likes, now));
    ScoreTableDistinct(likes, now);
    forall i, j | 0 <= i < j < |top| && top[i].score == top[j].score && top[j].user in posts
      ensures top[i].user in posts
    {
      TieAt(likes, now, i, j);
      var p, q := KeyIndex(table, top[i].user), KeyIndex(table, top[j].user);
      var m :| 0 <= m < |posts| && posts[m] == top[j].user;
      PrefixAt(posts, Users(table), m);
      KeyIndexAt(table, m);
      assert m == q;
      PrefixAt(posts, Users(table), p);
      assert posts[p] == top[i].user;
    }
  }

  /** Likes outside the window change nothing: the leaderboard of all the
      likes is that of the in-window likes alone. */
  lemma {:induction false} GroupRowsIgnoreOld(likes: seq<Like>, now: int, target: Target, acc: seq<Entry>)
    ensures GroupRows(likes, now, target, acc) == GroupRows(Recent(likes, now), now, target, acc)
    decreases likes
  {
    if likes != [] {
      var l := likes[0];
      if InWindow(l, now) {
        var next := if l.target == target then Add(acc, l.targetAuthor, Points(target)) else acc;
        GroupRowsIgnoreOld(likes[1..], now, target, next);
        var r := Recent(likes, now);
        assert r == [l] + Recent(likes[1..], now);
        assert r[0] == l && r[1..] == Recent(likes[1..], now);
      } else {
        GroupRowsIgnoreOld(likes[1..], now, target, acc);
        assert Recent(likes, now) == Recent(likes[1..], now);
        assert GroupRows(likes, now, target, acc) == GroupRows(likes[1..], now, target, acc);
      }
    }
  }

  lemma OutOfWindowLikesIgnored(likes: seq<Like>, now: int)
    ensures ComputeLeaderboard(likes, now) == ComputeLeaderboard(Recent(likes, now), now)
  {
    GroupRowsIgnoreOld(likes, now, OnPost, []);
    GroupRowsIgnoreOld(likes, now, OnComment, []);
  }

  lemma {:induction false} CountLikesAppend(a: seq<Like>, b: seq<Like>, now: int, target: Target, u: int)
    ensures CountLikes(a + b, now, target, u) == CountLikes(a, now, target, u) + CountLikes(b, now, target, u)
  {
    if a == [] {
      assert a + b == b;
    } else {
      assert (a + b)[0] == a[0] && (a + b)[1..] == a[1..] + b;
      CountLikesAppend(a[1..], b, now, target, u);
    }
  }

  /** One more like adds exactly 5 (on a post) or 1 (on a comment) to its
      target author's score when it is inside the window, and nothing to
      anybody otherwise. */
  lemma OneMoreLike(likes: seq<Like>, l: Like, now: int, u: int)
    ensures Get(ScoreTableOf(likes + [l], now), u) ==
              Get(ScoreTableOf(likes, now), u) + (if InWindow(l, now) && l.targetAuthor == u then Points(l.target) else 0)
  {
    ScoreTableScore(likes + [l], now, u);
    ScoreTableScore(likes, now, u);
    CountLikesAppend(likes, [l], now, OnPost, u);
    CountLikesAppend(likes, [l], now, OnComment, u);
    assert [l][1..] == [];
  }

  /** With at most five scored authors, every one of them is on the board. */
  lemma SmallBoardIsComplete(likes: seq<Like>, now: int, u: int)
    requires |ScoredAuthors(likes, now)| <= TopN && u in ScoredAuthors(likes, now)
    ensures u in Users(ComputeLeaderboard(likes, now))
  {
    var top := ComputeLeaderboard(likes, now);
    var scored := ScoredAuthors(likes, now);
    var onBoard := set x | x in Users(top);
    DistinctUsersIff(top);
    DistinctCard(Users(top));
    forall x | x in onBoard ensures x in scored {
      var i :| 0 <= i < |top| && Users(top)[i] == x;
      assert top[i] in top;
    }
    assert onBoard <= scored;
    assert scored == onBoard + (scored - onBoard);
    assert |scored - onBoard| == 0;
  }

  /** A like exactly 24 hours old still counts. */
  lemma WindowBoundaryIncluded(now: int, a: int)
    ensures ComputeLeaderboard([Like(now - WindowSeconds, OnPost, a)], now) == [Entry(a, PostLikePoints)]
  {
    var likes := [Like(now - WindowSeconds, OnPost, a)];
    assert likes[1..] == [];
    assert CountLikes(likes, now, OnPost, a) == 1;
    assert CountLikes(likes, now, OnComment, a) == 0;
    assert ScoredAuthors(likes, now) == {a};
    var top := ComputeLeaderboard(likes, now);
    assert top[0] in top;
  }

  /** One second older, it no longer does. */
  lemma WindowBoundaryExcluded(now: int, a: int)
    ensures ComputeLeaderboard([Like(now - WindowSeconds - 1, OnPost, a)], now) == []
  {
    var likes := [Like(now - WindowSeconds - 1, OnPost, a)];
    assert ScoredAuthors(likes, now) == {};
  }

  /** A post like an hour old and a comment like two hours old on different
      authors: the post author first with 5, then the comment author with 1. */
  lemma TwoAuthorsExample(now: int, a: int, b: int)
    requires a != b
    ensures ComputeLeaderboard([Like(now - 3600, OnPost, a), Like(now - 7200, OnComment, b)], now)
            == [Entry(a, 5), Entry(b, 1)]
  {
    var likes := [Like(now - 3600, OnPost, a), Like(now - 7200, OnComment, b)];
    assert likes[1..] == [likes[1]] && likes[1..][1..] == [];
    assert CountLikes(likes[1..], now, OnPost, a) == 0 && CountLikes(likes[1..], now, OnComment, a) == 0;
    assert CountLikes(likes[1..], now, OnPost, b) == 0 && CountLikes(likes[1..], now, OnComment, b) == 1;
    assert CountLikes(likes, now, OnPost, a) == 1 && CountLikes(likes, now, OnComment, a) == 0;
    assert CountLikes(likes, now, OnPost, b) == 0 && CountLikes(likes, now, OnComment, b) == 1;
    assert ScoredAuthors(likes, now) == {a, b};
    assert ExpectedScore(likes, now, a) == 5;
    assert ExpectedScore(likes, now, b) == 1;
    var top := ComputeLeaderboard(likes, now);
    assert top[0] in top && top[1] in top;
    assert top[0].user != top[1].user;
    assert top[0].score >= top[1].score;
  }
}
