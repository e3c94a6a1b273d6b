/** `sorted(scores.items(), key=lambda x: x[1], reverse=True)`: Python's
    sort is stable, also with `reverse=True`, so entries of equal score keep
    the order they had in the dictionary. */
module StableSort {
  import opened SeqFacts
  import opened ScoreTable

  /** Scores never increase along the sequence. */
  predicate Descending(s: seq<Entry>) {
    forall i, j :: 0 <= i < j < |s| ==> s[i].score >= s[j].score
  }

  /** The entries of score `v`, in their order in `s`. A sort is stable when
      it leaves this subsequence unchanged for every `v`. */
  function WithScore(s: seq<Entry>, v: int): seq<Entry> {
    if s == [] then [] else (if s[0].score == v then [s[0]] else []) + WithScore(s[1..], v)
  }

  lemma {:induction false} WithScoreMembers(s: seq<Entry>, v: int, e: Entry)
    ensures e in WithScore(s, v) <==> e in s && e.score == v
  {
    if s != [] {
      WithScoreMembers(s[1..], v, e);
      assert s == [s[0]] + s[1..];
    }
  }

  /** Insert `x`, which came before every entry of `s`, in front of the first
      entry whose score is not larger than its own. */
  function InsertDesc(x: Entry, s: seq<Entry>): seq<Entry> {
    if s == [] || s[0].score <= x.score then [x] + s
    else [s[0]] + InsertDesc(x, s[1..])
  }

  lemma {:induction false} InsertDescMembers(x: Entry, s: seq<Entry>, e: Entry)
    ensures e in InsertDesc(x, s) <==> e == x || e in s
  {
    if s != [] && s[0].score > x.score {
      InsertDescMembers(x, s[1..], e);
      assert s == [s[0]] + s[1..];
    }
  }

  /** Inserting into a descending sequence gives a descending sequence. */
  lemma {:induction false} InsertDescSorted(x: Entry, s: seq<Entry>)
    requires Descending(s)
    ensures Descending(InsertDesc(x, s))
  {
    var r := InsertDesc(x, s);
    if s == [] || s[0].score <= x.score {
      forall i, j | 0 <= i < j < |r| ensures r[i].score >= r[j].score {
        if i == 0 {
          assert r[j] == s[j - 1];
        } else {
          assert r[i] == s[i - 1] && r[j] == s[j - 1];
        }
      }
    } else {
      var rest := InsertDesc(x, s[1..]);
      assert Descending(s[1..]) by {
        forall i, j | 0 <= i < j < |s[1..]| ensures s[1..][i].score >= s[1..][j].score {
          assert s[1..][i] == s[i + 1] && s[1..][j] == s[j + 1];
        }
      }
      InsertDescSorted(x, s[1..]);
      assert r == [s[0]] + rest;
      forall i, j | 0 <= i < j < |r| ensures r[i].score >= r[j].score {
        if i == 0 {
          assert r[j] == rest[j - 1];
          InsertDescMembers(x, s[1..], r[j]);
          if r[j] != x {
            var m :| 0 <= m < |s[1..]| && s[1..][m] == r[j];
            assert s[m + 1] == r[j];
          }
        } else {
          assert r[i] == rest[i - 1] && r[j] == rest[j - 1];
        }
      }
    }
  }

  lemma {:induction false} InsertDescPermutes(x: Entry, s: seq<Entry>)
    ensures multiset(InsertDesc(x, s)) == multiset([x] + s)
  {
    if s != [] && s[0].score > x.score {
      InsertDescPermutes(x, s[1..]);
      assert s == [s[0]] + s[1..];
    }
  }

  lemma WithScoreCons(e: Entry, t: seq<Entry>, v: int)
    ensures WithScore([e] + t, v) == (if e.score == v then [e] else []) + WithScore(t, v)
  {
    assert ([e] + t)[0] == e && ([e] + t)[1..] == t;
  }

  /** Inserting `x` keeps the entries of every score in their order, with `x`
      ahead of the entries of its own score. */
  lemma {:induction false} InsertDescStable(x: Entry, s: seq<Entry>, v: int)
    ensures WithScore(InsertDesc(x, s), v) == WithScore([x] + s, v)
  {
    if s != [] && s[0].score > x.score {
      var rest := InsertDesc(x, s[1..]);
      var tail := WithScore(s[1..], v);
      var hs := if s[0].score == v then [s[0]] else [];
      var hx := if x.score == v then [x] else [];
      assert InsertDesc(x, s) == [s[0]] + rest;
      assert s == [s[0]] + s[1..];
      InsertDescStable(x, s[1..], v);
      WithScoreCons(x, s[1..], v);
      assert WithScore(rest, v) == hx + tail;
      WithScoreCons(s[0], rest, v);
      assert WithScore(InsertDesc(x, s), v) == hs + (hx + tail);
      WithScoreCons(s[0], s[1..], v);
      WithScoreCons(x, s, v);
      assert WithScore([x] + s, v) == hx + (hs + tail);
      assert hs == [] || hx == [];
    }
  }

  lemma {:induction false} InsertDescKeepsUsersDistinct(x: Entry, s: seq<Entry>)
    requires DistinctUsers(s) && x.user !in Users(s)
    ensures DistinctUsers(InsertDesc(x, s))
  {
    if s != [] && s[0].score > x.score {
      var rest := InsertDesc(x, s[1..]);
      var r := [s[0]] + rest;
      assert Users(s[1..]) == Users(s)[1..];
      assert DistinctUsers(s[1..]) by {
        forall i, j | 0 <= i < j < |s[1..]| ensures s[1..][i].user != s[1..][j].user {
          assert s[1..][i] == s[i + 1] && s[1..][j] == s[j + 1];
        }
      }
      InsertDescKeepsUsersDistinct(x, s[1..]);
      assert x.user != s[0].user by { assert Users(s)[0] == s[0].user; }
      forall j | 0 < j < |r| ensures r[0].user != r[j].user {
        assert r[j] in rest;
        InsertDescMembers(x, s[1..], r[j]);
        if r[j] != x {
          var k :| 0 <= k < |s[1..]| && s[1..][k] == r[j];
          assert s[k + 1] == r[j];
        }
      }
      forall i, j | 0 < i < j < |r| ensures r[i].user != r[j].user {
        assert r[i] == rest[i - 1] && r[j] == rest[j - 1];
      }
    } else {
      var r := [x] + s;
      forall j | 0 < j < |r| ensures r[0].user != r[j].user {
        assert Users(s)[j - 1] == r[j].user;
      }
      forall i, j | 0 < i < j < |r| ensures r[i].user != r[j].user {
        assert r[i] == s[i - 1] && r[j] == s[j - 1];
      }
    }
  }

  /** The sort, as an insertion sort from the back: each entry is inserted
      into the sorted rest of the entries that followed it. */
  function SortByScoreDesc(s: seq<Entry>): seq<Entry> {
    if s == [] then [] else InsertDesc(s[0], SortByScoreDesc(s[1..]))
  }

  /** The sort orders by descending score. */
  lemma {:induction false} SortSorted(s: seq<Entry>)
    ensures Descending(SortByScoreDesc(s))
  {
    if s != [] {
      SortSorted(s[1..]);
      InsertDescSorted(s[0], SortByScoreDesc(s[1..]));
    }
  }

  /** The sort keeps exactly the entries it was given. */
  lemma {:induction false} SortMembers(s: seq<Entry>, e: Entry)
    ensures e in SortByScoreDesc(s) <==> e in s
  {
    if s != [] {
      SortMembers(s[1..], e);
      InsertDescMembers(s[0], SortByScoreDesc(s[1..]), e);
      assert s == [s[0]] + s[1..];
    }
  }
  /** The sort permutes its input and keeps, for every score, the order of
      the entries with that score: it is a stable sort. */
  lemma {:induction false} SortIsStablePermutation(s: seq<Entry>)
    ensures multiset(SortByScoreDesc(s)) == multiset(s)
    ensures |SortByScoreDesc(s)| == |s|
    ensures forall v :: WithScore(SortByScoreDesc(s), v) == WithScore(s, v)
  {
    if s != [] {
      var sorted := SortByScoreDesc(s[1..]);
      SortIsStablePermutation(s[1..]);
      InsertDescPermutes(s[0], sorted);
      assert s == [s[0]] + s[1..];
      assert |multiset(SortByScoreDesc(s))| == |SortByScoreDesc(s)|;
      forall v ensures WithScore(SortByScoreDesc(s), v) == WithScore(s, v) {
        InsertDescStable(s[0], sorted, v);
        assert ([s[0]] + sorted)[1..] == sorted;
      }
    }
  }

  /** Sorting a table with distinct keys keeps the keys distinct. */
  lemma {:induction false} SortKeepsUsersDistinct(s: seq<Entry>)
    requires DistinctUsers(s)
    ensures DistinctUsers(SortByScoreDesc(s))
  {
    if s != [] {
      var sorted := SortByScoreDesc(s[1..]);
      assert DistinctUsers(s[1..]) by {
        forall i, j | 0 <= i < j < |s[1..]| ensures s[1..][i].user != s[1..][j].user {
          assert s[1..][i] == s[i + 1] && s[1..][j] == s[j + 1];
        }
      }
      SortKeepsUsersDistinct(s[1..]);
      forall k | 0 <= k < |sorted| ensures sorted[k].user != s[0].user {
        SortMembers(s[1..], sorted[k]);
        var m :| 0 <= m < |s[1..]| && s[1..][m] == sorted[k];
        assert s[m + 1] == sorted[k];
      }
      InsertDescKeepsUsersDistinct(s[0], sorted);
    }
  }

  lemma {:induction false} WithScoreNonEmpty(s: seq<Entry>)
    requires s != []
    ensures WithScore(s, s[0].score) == [s[0]] + WithScore(s[1..], s[0].score)
  {}

  /** An entry of a descending sequence scores no more than its head. */
  lemma HeadIsTop(r: seq<Entry>, e: Entry)
    requires Descending(r) && e in r
    ensures r[0].score >= e.score
  {
    var i :| 0 <= i < |r| && r[i] == e;
  }

  lemma SameTopScore(r1: seq<Entry>, r2: seq<Entry>)
    requires Descending(r1) && Descending(r2) && r1 != [] && r2 != []
    requires WithScore(r1, r1[0].score) == WithScore(r2, r1[0].score)
    requires WithScore(r1, r2[0].score) == WithScore(r2, r2[0].score)
    ensures r1[0].score == r2[0].score
  {
    WithScoreNonEmpty(r1);
    WithScoreNonEmpty(r2);
    assert r1[0] in WithScore(r2, r1[0].score);
    WithScoreMembers(r2, r1[0].score, r1[0]);
    HeadIsTop(r2, r1[0]);
    assert r2[0] in WithScore(r1, r2[0].score);
    WithScoreMembers(r1, r2[0].score, r2[0]);
    HeadIsTop(r1, r2[0]);
  }

  /** The stable descending order is unique: two descending sequences with the
      same entries of every score, in the same order, are equal. So the
      model's sort agrees with Python's `sorted` on every input. */
  lemma {:induction false} StableSortUnique(r1: seq<Entry>, r2: seq<Entry>)
    requires Descending(r1) && Descending(r2)
    requires forall v :: WithScore(r1, v) == WithScore(r2, v)
    ensures r1 == r2
  {
    if r1 != [] && r2 != [] {
      SameTopScore(r1, r2);
      var m := r1[0].score;
      WithScoreNonEmpty(r1);
      WithScoreNonEmpty(r2);
      assert r1[0] == r2[0] by {
        assert WithScore(r1, m)[0] == r1[0];
        assert WithScore(r2, m)[0] == r2[0];
      }
      forall v ensures WithScore(r1[1..], v) == WithScore(r2[1..], v) {
        var h := if m == v then [r1[0]] else [];
        assert WithScore(r1, v) == h + WithScore(r1[1..], v);
        assert WithScore(r2, v) == h + WithScore(r2[1..], v);
        assert WithScore(r1[1..], v) == WithScore(r1, v)[|h|..];
        assert WithScore(r2[1..], v) == WithScore(r2, v)[|h|..];
      }
      StableSortUnique(r1[1..], r2[1..]);
      assert r1 == [r1[0]] + r1[1..];
      assert r2 == [r2[0]] + r2[1..];
    } else if r1 != [] {
      WithScoreNonEmpty(r1);
      assert false;
    } else if r2 != [] {
      WithScoreNonEmpty(r2);
      assert false;
    }
  }

  /** Two entries of score `v` keep their relative order in the entries of
      score `v`. */
  lemma {:induction false} WithScoreOrder(s: seq<Entry>, v: int, i: nat, j: nat)
    requires i < j < |s| && s[i].score == v && s[j].score == v
    ensures exists p, q :: 0 <= p < q < |WithScore(s, v)| && WithScore(s, v)[p] == s[i] && WithScore(s, v)[q] == s[j]
  {
    var w := WithScore(s, v);
    var h := if s[0].score == v then [s[0]] else [];
    var tail := WithScore(s[1..], v);
    assert w == h + tail;
    if i == 0 {
      WithScoreMembers(s[1..], v, s[j]);
      assert s[j] == s[1..][j - 1];
      var q :| 0 <= q < |tail| && tail[q] == s[j];
      assert w[0] == s[0] && w[q + 1] == s[j];
    } else {
      WithScoreOrder(s[1..], v, i - 1, j - 1);
      var p, q :| 0 <= p < q < |tail| && tail[p] == s[1..][i - 1] && tail[q] == s[1..][j - 1];
      assert w[p + |h|] == s[i] && w[q + |h|] == s[j];
    }
  }

  /** Conversely, the entries of score `v` occur in `s` in their order. */
  lemma {:induction false} WithScoreOrderBack(s: seq<Entry>, v: int, p: nat, q: nat)
    requires p < q < |WithScore(s, v)|
    ensures exists i, j :: 0 <= i < j < |s| && s[i] == WithScore(s, v)[p] && s[j] == WithScore(s, v)[q]
  {
    var w := WithScore(s, v);
    var tail := WithScore(s[1..], v);
    if s[0].score == v {
      assert w == [s[0]] + tail;
      if p == 0 {
        WithScoreMembers(s[1..], v, w[q]);
        assert w[q] == tail[q - 1];
        var j :| 0 <= j < |s[1..]| && s[1..][j] == w[q];
        assert s[0] == w[0] && s[j + 1] == w[q];
      } else {
        WithScoreOrderBack(s[1..], v, p - 1, q - 1);
        var i, j :| 0 <= i < j < |s[1..]| && s[1..][i] == tail[p - 1] && s[1..][j] == tail[q - 1];
        assert s[i + 1] == w[p] && s[j + 1] == w[q];
      }
    } else {
      assert w == tail;
      WithScoreOrderBack(s[1..], v, p, q);
      var i, j :| 0 <= i < j < |s[1..]| && s[1..][i] == tail[p] && s[1..][j] == tail[q];
      assert s[i + 1] == w[p] && s[j + 1] == w[q];
    }
  }

  /** If the entries of score `v` of `r` are a prefix of those of `s`, two
      entries of `r` of score `v` stand in `s` in the order they have in `r`. */
  lemma {:induction false} TiesKeepOrder(r: seq<Entry>, s: seq<Entry>, v: int, i: nat, j: nat)
    requires WithScore(r, v) <= WithScore(s, v)
    requires i < j < |r| && r[i].score == v && r[j].score == v
    ensures exists a, b :: 0 <= a < b < |s| && s[a] == r[i] && s[b] == r[j]
  {
    var wr, ws := WithScore(r, v), WithScore(s, v);
    WithScoreOrder(r, v, i, j);
    var p, q :| 0 <= p < q < |wr| && wr[p] == r[i] && wr[q] == r[j];
    PrefixAt(wr, ws, p);
    PrefixAt(wr, ws, q);
    WithScoreOrderBack(s, v, p, q);
    var a, b :| 0 <= a < b < |s| && s[a] == ws[p] && s[b] == ws[q];
    assert s[a] == r[i] && s[b] == r[j];
  }

  /** The entries of score `v` among the first `k` are a prefix of those in
      the whole sequence. */
  lemma {:induction false} WithScorePrefix(s: seq<Entry>, k: nat, v: int)
    requires k <= |s|
    ensures WithScore(s[..k], v) <= WithScore(s, v)
  {
    if k > 0 {
      assert s[..k][1..] == s[1..][..k - 1];
      WithScorePrefix(s[1..], k - 1, v);
    }
  }
}
