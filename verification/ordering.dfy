/** `ORDER BY created_at DESC`: arranging the keys of matching rows newest
    first. Rows with equal timestamps may come in either order, as in SQL. */
module Ordering {

  /** Every key of `order` has a timestamp, and timestamps never increase
      along `order`. */
  ghost predicate NewestFirst<K>(order: seq<K>, stamp: map<K, nat>)
  {
    && (forall i | 0 <= i < |order| :: order[i] in stamp)
    && (forall i, j | 0 <= i < j < |order| :: stamp[order[i]] >= stamp[order[j]])
  }

  /** Inserts `k` before the first key that is not newer than it. */
  function InsertNewestFirst<K>(k: K, order: seq<K>, stamp: map<K, nat>): (r: seq<K>)
    requires k in stamp && forall i | 0 <= i < |order| :: order[i] in stamp
    ensures multiset(r) == multiset(order) + multiset{k}
  {
    if |order| == 0 then [k]
    else if stamp[k] >= stamp[order[0]] then [k] + order
    else
      assert order == [order[0]] + order[1..];
      [order[0]] + InsertNewestFirst(k, order[1..], stamp)
  }

  /** A key at least as new as the head of a sorted listing can lead it. */
  lemma PrependNewest<K>(k: K, order: seq<K>, stamp: map<K, nat>)
    requires k in stamp && NewestFirst(order, stamp)
    requires |order| > 0 ==> stamp[k] >= stamp[order[0]]
    ensures NewestFirst([k] + order, stamp)
  {
    var r := [k] + order;
    forall i, j | 0 <= i < j < |r| ensures stamp[r[i]] >= stamp[r[j]] {
      assert r[j] == order[j - 1];
      if i > 0 {
        assert r[i] == order[i - 1];
      } else if j > 1 {
        assert stamp[order[0]] >= stamp[order[j - 1]];
      }
    }
  }

  /** Every key of an insertion's result is the inserted key or came from the listing. */
  lemma InsertedFrom<K>(k: K, order: seq<K>, stamp: map<K, nat>, j: nat)
    requires k in stamp && forall i | 0 <= i < |order| :: order[i] in stamp
    requires j < |InsertNewestFirst(k, order, stamp)|
    ensures InsertNewestFirst(k, order, stamp)[j] == k ||
            exists m | 0 <= m < |order| :: order[m] == InsertNewestFirst(k, order, stamp)[j]
  {
    var r := InsertNewestFirst(k, order, stamp);
    assert r[j] in multiset(r);
    if r[j] != k {
      assert r[j] in multiset(order);
      assert r[j] in order;
    }
  }

  /** Insertion keeps a listing newest first. */
  lemma {:induction false} InsertKeepsNewestFirst<K>(k: K, order: seq<K>, stamp: map<K, nat>)
    requires k in stamp && NewestFirst(order, stamp)
    ensures NewestFirst(InsertNewestFirst(k, order, stamp), stamp)
  {
    if |order| == 0 {
    } else if stamp[k] >= stamp[order[0]] {
      PrependNewest(k, order, stamp);
    } else {
      var rest := InsertNewestFirst(k, order[1..], stamp);
      InsertKeepsNewestFirst(k, order[1..], stamp);
      forall j | 0 <= j < |rest| ensures stamp[order[0]] >= stamp[rest[j]] {
        InsertedFrom(k, order[1..], stamp, j);
        if rest[j] != k {
          var m :| 0 <= m < |order[1..]| && order[1..][m] == rest[j];
          assert order[m + 1] == rest[j];
        }
      }
      PrependNewest(order[0], rest, stamp);
    }
  }

  /** The keys of `stamp`, each once, newest first. */
  method SortNewestFirst<K>(stamp: map<K, nat>) returns (order: seq<K>)
    ensures NewestFirst(order, stamp)
    ensures multiset(order) == multiset(stamp.Keys)
  {
    order := [];
    var rest := stamp.Keys;
    while rest != {}
      invariant rest <= stamp.Keys
      invariant NewestFirst(order, stamp)
      invariant multiset(order) + multiset(rest) == multiset(stamp.Keys)
      decreases |rest|
    {
      var k :| k in rest;
      InsertKeepsNewestFirst(k, order, stamp);
      order := InsertNewestFirst(k, order, stamp);
      assert multiset(rest) == multiset(rest - {k}) + multiset{k};
      rest := rest - {k};
    }
  }

  /** A key appears in a sorted listing exactly when it has a timestamp. */
  lemma ListedIffStamped<K>(order: seq<K>, stamp: map<K, nat>, k: K)
    requires multiset(order) == multiset(stamp.Keys)
    ensures k in order <==> k in stamp
  {
    assert k in order <==> k in multiset(order);
  }

  /** In a newest-first listing, a strictly newer key comes before an older one. */
  lemma NewerListedFirst<K>(order: seq<K>, stamp: map<K, nat>, i: int, j: int)
    requires NewestFirst(order, stamp) && 0 <= i < |order| && 0 <= j < |order|
    requires stamp[order[i]] > stamp[order[j]]
    ensures i < j
  {
  }
}
