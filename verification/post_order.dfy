/**
  The feed order of `getAllPosts`: `ORDER BY created_at DESC`, comparing the
  timestamps as TEXT under SQLite's BINARY collation (`Text.LexLess`). SQLite
  leaves the order of equal timestamps open; this model keeps them in the
  order the join produced them (a stable sort).
*/
module PostOrder {
  import opened Models
  import Text

  /** No entry has a timestamp that sorts below a later entry's. */
  predicate NewestFirst(ps: seq<Post>) {
    forall i, j :: 0 <= i < j < |ps| ==> !Text.LexLess(ps[i].createdAt, ps[j].createdAt)
  }

  /** "not below" is transitive, since `LexLess` is a strict total order. */
  lemma NotBelowTransitive(a: string, b: string, c: string)
    requires !Text.LexLess(a, b) && !Text.LexLess(b, c)
    ensures !Text.LexLess(a, c)
  {
    Text.LexLessTotal(a, b);
    Text.LexLessTotal(b, c);
    if Text.LexLess(a, c) {
      if a != b && b != c {
        Text.LexLessTransitive(c, b, a);
        Text.LexLessAsymmetric(c, a);
      }
    }
  }

  /** Places `x` in front of the first entry whose timestamp is not above its own. */
  function InsertByDate(x: Post, ps: seq<Post>): (r: seq<Post>)
    ensures multiset(r) == multiset(ps) + multiset{x}
  {
    if |ps| == 0 then [x]
    else if !Text.LexLess(x.createdAt, ps[0].createdAt) then
      assert ps == [ps[0]] + ps[1..];
      [x] + ps
    else
      assert ps == [ps[0]] + ps[1..];
      [ps[0]] + InsertByDate(x, ps[1..])
  }

  /** A timestamp not below any entry of `ps` stays not below them after `x` joins, if it is not below `x`. */
  lemma BoundAfterInsert(t: string, x: Post, ps: seq<Post>)
    requires !Text.LexLess(t, x.createdAt)
    requires forall j :: 0 <= j < |ps| ==> !Text.LexLess(t, ps[j].createdAt)
    ensures forall k :: 0 <= k < |InsertByDate(x, ps)| ==> !Text.LexLess(t, InsertByDate(x, ps)[k].createdAt)
  {
    var r := InsertByDate(x, ps);
    forall k | 0 <= k < |r| ensures !Text.LexLess(t, r[k].createdAt) {
      assert r[k] in multiset(r);
      if r[k] != x {
        assert r[k] in multiset(ps);
        var j :| 0 <= j < |ps| && ps[j] == r[k];
      }
    }
  }

  lemma {:induction false} InsertByDateKeepsOrder(x: Post, ps: seq<Post>)
    requires NewestFirst(ps)
    ensures NewestFirst(InsertByDate(x, ps))
  {
    if |ps| > 0 {
      if !Text.LexLess(x.createdAt, ps[0].createdAt) {
        forall j | 0 < j < |ps| ensures !Text.LexLess(x.createdAt, ps[j].createdAt) {
          NotBelowTransitive(x.createdAt, ps[0].createdAt, ps[j].createdAt);
        }
      } else {
        var tail := ps[1..];
        InsertByDateKeepsOrder(x, tail);
        Text.LexLessAsymmetric(x.createdAt, ps[0].createdAt);
        BoundAfterInsert(ps[0].createdAt, x, tail);
      }
    }
  }

  /** Sorting neither adds nor drops an entry. */
  lemma SortKeepsEntries(ps: seq<Post>)
    ensures forall x :: x in SortNewestFirst(ps) <==> x in ps
  {
    var r := SortNewestFirst(ps);
    forall x ensures x in r <==> x in ps {
      assert x in r <==> x in multiset(r);
      assert x in ps <==> x in multiset(ps);
    }
  }

  /** The feed order: a permutation of the input with the newest timestamp first. */
  function SortNewestFirst(ps: seq<Post>): (r: seq<Post>)
    ensures NewestFirst(r)
    ensures multiset(r) == multiset(ps)
  {
    if |ps| == 0 then []
    else
      assert ps == [ps[0]] + ps[1..];
      InsertByDateKeepsOrder(ps[0], SortNewestFirst(ps[1..]));
      InsertByDate(ps[0], SortNewestFirst(ps[1..]))
  }
}
