/** Comments as the tree builder of feed/services.py sees them, with the
    reference notions the builder is checked against: the roots, the
    children of an id, and the walk from a comment up its parent chain. */
module Comments {
  import opened Optional
  import opened SeqFacts

  /** A comment row: its id, its `parent_id` (None for a top-level comment),
      and the two fields the post-detail view serializes. */
  datatype Comment = Comment(id: int, parentId: Option<int>, author: string, content: string)

  /** `if c.parent_id:` is a Python truth test, so a parent id of 0 counts
      as no parent at all, exactly like None. */
  predicate HasParent(c: Comment) {
    c.parentId.Some? && c.parentId.value != 0
  }

  /** `k` names `pid` as its (truthy) parent. */
  predicate IsChildOf(k: Comment, pid: int) {
    HasParent(k) && k.parentId.value == pid
  }

  /** No id occurs twice: the database primary key. */
  predicate UniqueIds(cs: seq<Comment>) {
    forall i, j :: 0 <= i < j < |cs| ==> cs[i].id != cs[j].id
  }

  lemma SameId(cs: seq<Comment>, a: Comment, b: Comment)
    requires UniqueIds(cs) && a in cs && b in cs && a.id == b.id
    ensures a == b
  {
    var i :| 0 <= i < |cs| && cs[i] == a;
    var j :| 0 <= j < |cs| && cs[j] == b;
  }

  lemma UniqueIdsDistinct(cs: seq<Comment>)
    requires UniqueIds(cs)
    ensures Distinct(cs)
  {}

  lemma UniqueIdsTail(cs: seq<Comment>)
    requires UniqueIds(cs) && cs != []
    ensures UniqueIds(cs[1..])
    ensures forall c :: c in cs[1..] ==> c.id != cs[0].id
  {
    forall c | c in cs[1..] ensures c.id != cs[0].id {
      var k :| 0 <= k < |cs[1..]| && cs[1..][k] == c;
      assert cs[k + 1] == c;
    }
  }

  /** Reference: the comments without a (truthy) parent, in input order. */
  function Roots(cs: seq<Comment>): seq<Comment> {
    if cs == [] then []
    else (if HasParent(cs[0]) then [] else [cs[0]]) + Roots(cs[1..])
  }

  /** Reference: the comments whose parent is `pid`, in input order. */
  function ChildrenOf(cs: seq<Comment>, pid: int): seq<Comment> {
    if cs == [] then []
    else (if IsChildOf(cs[0], pid) then [cs[0]] else []) + ChildrenOf(cs[1..], pid)
  }

  lemma {:induction false} RootsMembers(cs: seq<Comment>, c: Comment)
    ensures c in Roots(cs) <==> c in cs && !HasParent(c)
  {
    if cs != [] {
      RootsMembers(cs[1..], c);
      assert cs == [cs[0]] + cs[1..];
    }
  }

  lemma {:induction false} ChildrenMembers(cs: seq<Comment>, pid: int, c: Comment)
    ensures c in ChildrenOf(cs, pid) <==> c in cs && IsChildOf(c, pid)
  {
    if cs != [] {
      ChildrenMembers(cs[1..], pid, c);
      assert cs == [cs[0]] + cs[1..];
    }
  }

  /** Prepending a comment whose id occurs nowhere else keeps ids unique. */
  lemma PrependUnique(c: Comment, r: seq<Comment>)
    requires UniqueIds(r) && forall x :: x in r ==> x.id != c.id
    ensures UniqueIds([c] + r)
  {
    forall i, j | 0 <= i < j < |[c] + r| ensures ([c] + r)[i].id != ([c] + r)[j].id {
      if i == 0 {
        assert ([c] + r)[j] == r[j - 1];
      } else {
        assert ([c] + r)[i] == r[i - 1] && ([c] + r)[j] == r[j - 1];
      }
    }
  }

  lemma {:induction false} RootsUnique(cs: seq<Comment>)
    requires UniqueIds(cs)
    ensures UniqueIds(Roots(cs))
  {
    if cs != [] {
      UniqueIdsTail(cs);
      RootsUnique(cs[1..]);
      if !HasParent(cs[0]) {
        forall x | x in Roots(cs[1..]) ensures x.id != cs[0].id {
          RootsMembers(cs[1..], x);
        }
        PrependUnique(cs[0], Roots(cs[1..]));
      }
    }
  }

  lemma {:induction false} ChildrenUnique(cs: seq<Comment>, pid: int)
    requires UniqueIds(cs)
    ensures UniqueIds(ChildrenOf(cs, pid))
  {
    if cs != [] {
      UniqueIdsTail(cs);
      ChildrenUnique(cs[1..], pid);
      if IsChildOf(cs[0], pid) {
        forall x | x in ChildrenOf(cs[1..], pid) ensures x.id != cs[0].id {
          ChildrenMembers(cs[1..], pid, x);
        }
        PrependUnique(cs[0], ChildrenOf(cs[1..], pid));
      }
    }
  }

  lemma RootsCons(cs: seq<Comment>)
    requires cs != []
    ensures Roots(cs) == (if HasParent(cs[0]) then [] else [cs[0]]) + Roots(cs[1..])
  {}

  lemma ChildrenOfCons(cs: seq<Comment>, pid: int)
    requires cs != []
    ensures ChildrenOf(cs, pid) == (if IsChildOf(cs[0], pid) then [cs[0]] else []) + ChildrenOf(cs[1..], pid)
  {}

  /** The first comment carrying `id`, if any. */
  function FindById(cs: seq<Comment>, id: int): (r: Option<Comment>)
    ensures r.Some? ==> r.value in cs && r.value.id == id
    ensures r.None? ==> forall c :: c in cs ==> c.id != id
  {
    if cs == [] then None
    else if cs[0].id == id then Some(cs[0])
    else FindById(cs[1..], id)
  }

  /** With unique ids, the comment carrying `id` is the one found. */
  lemma FindUnique(cs: seq<Comment>, c: Comment)
    requires UniqueIds(cs) && c in cs
    ensures FindById(cs, c.id) == Some(c)
  {
    SameId(cs, FindById(cs, c.id).value, c);
  }

  /** The parent of `c` among `cs`, if `c` has one and it is present. */
  function ParentOf(cs: seq<Comment>, c: Comment): Option<Comment> {
    if HasParent(c) then FindById(cs, c.parentId.value) else None
  }

  /** The comment `m` parent steps above `d`, if the chain is that long. */
  function Up(cs: seq<Comment>, d: Comment, m: nat): Option<Comment>
    decreases m
  {
    if m == 0 then Some(d)
    else match ParentOf(cs, d)
      case None => None
      case Some(p) => Up(cs, p, m - 1)
  }

  /** The number of parent steps from `d` to a root, when that takes at
      most `fuel` steps and every parent on the way is present. */
  function RootDistance(cs: seq<Comment>, d: Comment, fuel: nat): Option<nat>
    decreases fuel
  {
    if !HasParent(d) then Some(0)
    else if fuel == 0 then None
    else match ParentOf(cs, d)
      case None => None
      case Some(p) =>
        match RootDistance(cs, p, fuel - 1)
        case None => None
        case Some(n) => Some(n + 1)
  }

  /** Reference reachability: walking up from `d` through parents present in
      `cs` ends at a root. A walk of |cs| steps is always enough. */
  predicate ReachesRoot(cs: seq<Comment>, d: Comment) {
    RootDistance(cs, d, |cs|).Some?
  }

  /** The ancestor of `d` that sits at depth `k` (a root has depth 0). */
  function AncestorAt(cs: seq<Comment>, d: Comment, k: nat): Option<Comment> {
    match RootDistance(cs, d, |cs|)
    case None => None
    case Some(n) => if n < k then None else Up(cs, d, n - k)
  }

  /** A downward path from a root: each comment is a child of the previous one. */
  ghost predicate IsChain(cs: seq<Comment>, path: seq<Comment>) {
    && (forall i :: 0 <= i < |path| ==> path[i] in cs)
    && (|path| > 0 ==> !HasParent(path[0]))
    && (forall i :: 0 < i < |path| ==> IsChildOf(path[i], path[i - 1].id))
  }

  lemma ParentOfChild(cs: seq<Comment>, k: Comment, p: Comment)
    requires UniqueIds(cs) && p in cs && IsChildOf(k, p.id)
    ensures ParentOf(cs, k) == Some(p)
  {
    FindUnique(cs, p);
  }

  lemma {:induction false} ChainNoRepeat(cs: seq<Comment>, path: seq<Comment>, i: nat, j: nat)
    requires UniqueIds(cs) && IsChain(cs, path) && i < j < |path|
    ensures path[i] != path[j]
    decreases i
  {
    if i == 0 {
      assert !HasParent(path[0]);
      assert IsChildOf(path[j], path[j - 1].id);
    } else {
      ChainNoRepeat(cs, path, i - 1, j - 1);
      assert path[i - 1].id != path[j - 1].id by {
        UniqueIdsDistinct(cs);
        if path[i - 1].id == path[j - 1].id {
          SameId(cs, path[i - 1], path[j - 1]);
        }
      }
      assert IsChildOf(path[i], path[i - 1].id);
      assert IsChildOf(path[j], path[j - 1].id);
    }
  }

  /** With unique ids a downward path never revisits a comment, so it is at
      most |cs| long: this bounds the recursion depth of the tree builder. */
  lemma ChainBound(cs: seq<Comment>, path: seq<Comment>)
    requires UniqueIds(cs) && IsChain(cs, path)
    ensures |path| <= |cs|
  {
    forall i, j | 0 <= i < j < |path| ensures path[i] != path[j] {
      ChainNoRepeat(cs, path, i, j);
    }
    DistinctLengthBound(path, cs);
  }

  /** The last comment of a downward path has depth |path| - 1. */
  lemma {:induction false} ChainDistance(cs: seq<Comment>, path: seq<Comment>, fuel: nat)
    requires UniqueIds(cs) && IsChain(cs, path) && |path| > 0 && fuel >= |path| - 1
    ensures RootDistance(cs, path[|path| - 1], fuel) == Some(|path| - 1)
  {
    if |path| > 1 {
      var prefix := path[..|path| - 1];
      assert IsChain(cs, prefix);
      ChainDistance(cs, prefix, fuel - 1);
      assert IsChildOf(path[|path| - 1], path[|path| - 2].id);
      ParentOfChild(cs, path[|path| - 1], path[|path| - 2]);
    }
  }

  /** One more step up is a parent step from where `m` steps led. */
  lemma {:induction false} UpStep(cs: seq<Comment>, d: Comment, m: nat)
    ensures Up(cs, d, m + 1) == (match Up(cs, d, m) case None => None case Some(x) => ParentOf(cs, x))
    decreases m
  {
    if m > 0 {
      match ParentOf(cs, d)
      case None =>
      case Some(p) => UpStep(cs, p, m - 1);
    }
  }

  /** If `k` is the ancestor of `d` at depth `j`, then `k`'s parent is the
      ancestor of `d` at depth `j - 1`. */
  lemma AncestorStep(cs: seq<Comment>, d: Comment, k: Comment, c: Comment, j: nat)
    requires j >= 1 && AncestorAt(cs, d, j) == Some(k) && ParentOf(cs, k) == Some(c)
    ensures AncestorAt(cs, d, j - 1) == Some(c)
  {
    var n := RootDistance(cs, d, |cs|).value;
    UpStep(cs, d, n - j);
    assert n - (j - 1) == (n - j) + 1;
  }
}
