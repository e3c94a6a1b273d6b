/** The `scores` dictionary of `LeaderboardView.get` (feed/views.py): a map
    from user id to score that, like a Python dict, remembers the order in
    which its keys were first inserted. It is kept as a sequence of entries. */
module ScoreTable {
  import opened SeqFacts

  /** One `(user_id, score)` item. */
  datatype Entry = Entry(user: int, score: int)

  /** The keys, in insertion order. */
  function Users(t: seq<Entry>): seq<int> {
    seq(|t|, i requires 0 <= i < |t| => t[i].user)
  }

  /** No key occurs twice. */
  predicate DistinctUsers(t: seq<Entry>) {
    forall i, j :: 0 <= i < j < |t| ==> t[i].user != t[j].user
  }

  /** Distinct keys are a repetition-free key sequence. */
  lemma DistinctUsersIff(t: seq<Entry>)
    ensures DistinctUsers(t) <==> Distinct(Users(t))
  {
    if Distinct(Users(t)) {
      forall i, j | 0 <= i < j < |t| ensures t[i].user != t[j].user {
        assert Users(t)[i] != Users(t)[j];
      }
    }
  }

  /** `t.get(u, 0)`. */
  function Get(t: seq<Entry>, u: int): int {
    if t == [] then 0
    else if t[0].user == u then t[0].score
    else Get(t[1..], u)
  }

  lemma {:induction false} GetAbsent(t: seq<Entry>, u: int)
    requires u !in Users(t)
    ensures Get(t, u) == 0
  {
    if t != [] {
      assert Users(t)[0] == t[0].user;
      assert Users(t[1..]) == Users(t)[1..];
      GetAbsent(t[1..], u);
    }
  }

  lemma {:induction false} GetEntry(t: seq<Entry>, i: nat)
    requires DistinctUsers(t) && i < |t|
    ensures Get(t, t[i].user) == t[i].score
  {
    if i > 0 {
      assert t[0].user != t[i].user;
      assert t[1..][i - 1] == t[i];
      GetEntry(t[1..], i - 1);
    }
  }

  /** The position of `u`'s entry; |t| when there is none. */
  function KeyIndex(t: seq<Entry>, u: int): nat {
    if t == [] then 0
    else if t[0].user == u then 0
    else 1 + KeyIndex(t[1..], u)
  }

  /** With distinct keys, the entry at position `i` is found at `i`. */
  lemma {:induction false} KeyIndexAt(t: seq<Entry>, i: nat)
    requires DistinctUsers(t) && i < |t|
    ensures KeyIndex(t, t[i].user) == i
  {
    if i > 0 {
      assert t[0].user != t[i].user;
      assert t[1..][i - 1] == t[i];
      assert DistinctUsers(t[1..]) by {
        forall a, b | 0 <= a < b < |t[1..]| ensures t[1..][a].user != t[1..][b].user {
          assert t[1..][a] == t[a + 1] && t[1..][b] == t[b + 1];
        }
      }
      KeyIndexAt(t[1..], i - 1);
    }
  }

  /** `t[u] = v`: a present key keeps its place and gets the new value; an
      absent one is appended. */
  function Put(t: seq<Entry>, u: int, v: int): seq<Entry> {
    if t == [] then [Entry(u, v)]
    else if t[0].user == u then [Entry(u, v)] + t[1..]
    else [t[0]] + Put(t[1..], u, v)
  }

  lemma UsersCons(e: Entry, t: seq<Entry>)
    ensures Users([e] + t) == [e.user] + Users(t)
  {
    assert ([e] + t)[1..] == t;
  }

  /** Dropping the first entry keeps the keys distinct. */
  lemma TailDistinct(rows: seq<Entry>)
    requires DistinctUsers(rows) && rows != []
    ensures DistinctUsers(rows[1..])
    ensures rows[0].user !in Users(rows[1..])
  {
    forall i, j | 0 <= i < j < |rows[1..]| ensures rows[1..][i].user != rows[1..][j].user {
      assert rows[1..][i] == rows[i + 1] && rows[1..][j] == rows[j + 1];
    }
    forall k | 0 <= k < |rows[1..]| ensures Users(rows[1..])[k] != rows[0].user {
      assert rows[1..][k] == rows[k + 1];
    }
  }

  /** A key not among distinct keys can be put in front of them. */
  lemma ConsDistinct(e: Entry, rest: seq<Entry>)
    requires DistinctUsers(rest) && e.user !in Users(rest)
    ensures DistinctUsers([e] + rest)
  {
    var r := [e] + rest;
    forall i, j | 0 <= i < j < |r| ensures r[i].user != r[j].user {
      assert r[j] == rest[j - 1];
      if i == 0 {
        assert Users(rest)[j - 1] == r[j].user;
      } else {
        assert r[i] == rest[i - 1];
      }
    }
  }

  /** Assigning to a key keeps the key order and appends a new key last. */
  lemma {:induction false} PutUsers(t: seq<Entry>, u: int, v: int)
    ensures Users(Put(t, u, v)) == if u in Users(t) then Users(t) else Users(t) + [u]
  {
    if t != [] {
      UsersCons(t[0], t[1..]);
      assert t == [t[0]] + t[1..];
      if t[0].user == u {
        UsersCons(Entry(u, v), t[1..]);
      } else {
        PutUsers(t[1..], u, v);
        UsersCons(t[0], Put(t[1..], u, v));
      }
    }
  }

  /** After `t[u] = v`, `u` maps to `v` and every other key is unchanged. */
  lemma {:induction false} PutGet(t: seq<Entry>, u: int, v: int, w: int)
    ensures Get(Put(t, u, v), w) == if w == u then v else Get(t, w)
  {
    if t != [] && t[0].user != u {
      PutGet(t[1..], u, v, w);
      assert Put(t, u, v)[1..] == Put(t[1..], u, v);
    }
  }

  /** Assigning to a key never duplicates a key. */
  lemma {:induction false} PutDistinct(t: seq<Entry>, u: int, v: int)
    requires DistinctUsers(t)
    ensures DistinctUsers(Put(t, u, v))
  {
    if t != [] {
      TailDistinct(t);
      if t[0].user == u {
        ConsDistinct(Entry(u, v), t[1..]);
      } else {
        var rest := Put(t[1..], u, v);
        PutDistinct(t[1..], u, v);
        PutUsers(t[1..], u, v);
        assert t[0].user !in Users(rest);
        ConsDistinct(t[0], rest);
      }
    }
  }

  /** `t[u] = t.get(u, 0) + amount`. */
  function Add(t: seq<Entry>, u: int, amount: int): seq<Entry> {
    Put(t, u, Get(t, u) + amount)
  }

  /** Adding to a key keeps the key order, appends a new key last and never
      duplicates a key. */
  lemma AddUsers(t: seq<Entry>, u: int, amount: int)
    ensures Users(Add(t, u, amount)) == if u in Users(t) then Users(t) else Users(t) + [u]
    ensures DistinctUsers(t) ==> DistinctUsers(Add(t, u, amount))
  {
    PutUsers(t, u, Get(t, u) + amount);
    if DistinctUsers(t) {
      PutDistinct(t, u, Get(t, u) + amount);
    }
  }

  /** Adding to `u` raises its score by `amount` and leaves the others. */
  lemma AddGet(t: seq<Entry>, u: int, amount: int, w: int)
    ensures Get(Add(t, u, amount), w) == if w == u then Get(t, u) + amount else Get(t, w)
  {
    PutGet(t, u, Get(t, u) + amount, w);
  }
}
