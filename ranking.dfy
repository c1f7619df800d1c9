/**
 * The ranking rule every script applies:
 *   publications.sort(key=lambda p: (p["year"] or 0, p["title"]), reverse=True)
 * Python's sort is stable also with reverse=True: records with equal keys keep
 * their input order, and all other records come in strictly descending key order.
 */
module Ranking {
  import opened Wrappers
  import opened Seqs
  import opened Records

  /** The sort key: the year with a missing year (and 0) read as 0, then the title. */
  datatype Key = Key(year: int, title: string)

  /** `(p["year"] or 0, p["title"])`. */
  function RankKey(p: Publication): Key {
    Key(if p.year.Some? then p.year.value else 0, p.title)
  }

  /** Python's `<` on strings: code point by code point, a proper prefix first. */
  predicate StrLt(a: string, b: string) {
    if a == [] then b != []
    else if b == [] then false
    else if a[0] != b[0] then a[0] < b[0]
    else StrLt(a[1..], b[1..])
  }

  /** Python's `<` on (int, str) tuples. */
  predicate KeyLt(a: Key, b: Key) {
    a.year < b.year || (a.year == b.year && StrLt(a.title, b.title))
  }

  lemma {:induction false} StrLtIrreflexive(a: string)
    ensures !StrLt(a, a)
  {
    if a != [] {
      StrLtIrreflexive(a[1..]);
    }
  }

  lemma {:induction false} StrLtTransitive(a: string, b: string, c: string)
    requires StrLt(a, b) && StrLt(b, c)
    ensures StrLt(a, c)
  {
    if a != [] && b != [] && c != [] && a[0] == b[0] && b[0] == c[0] {
      StrLtTransitive(a[1..], b[1..], c[1..]);
    }
  }

  lemma {:induction false} StrLtTotal(a: string, b: string)
    ensures a == b || StrLt(a, b) || StrLt(b, a)
  {
    if a != [] && b != [] && a[0] == b[0] {
      StrLtTotal(a[1..], b[1..]);
      if a[1..] == b[1..] {
        assert a == [a[0]] + a[1..] && b == [b[0]] + b[1..];
      }
    }
  }

  lemma KeyLtIrreflexive(a: Key)
    ensures !KeyLt(a, a)
  {
    StrLtIrreflexive(a.title);
  }

  lemma KeyLtTransitive(a: Key, b: Key, c: Key)
    requires KeyLt(a, b) && KeyLt(b, c)
    ensures KeyLt(a, c)
  {
    if a.year == b.year == c.year {
      StrLtTransitive(a.title, b.title, c.title);
    }
  }

  lemma KeyLtTotal(a: Key, b: Key)
    ensures a == b || KeyLt(a, b) || KeyLt(b, a)
  {
    StrLtTotal(a.title, b.title);
  }

  lemma KeyLtAsymmetric(a: Key, b: Key)
    requires KeyLt(a, b)
    ensures !KeyLt(b, a)
  {
    if KeyLt(b, a) {
      KeyLtTransitive(a, b, a);
      KeyLtIrreflexive(a);
    }
  }

  /** "Not smaller" is transitive. */
  lemma NotLtTransitive(a: Key, b: Key, c: Key)
    requires !KeyLt(a, b) && !KeyLt(b, c)
    ensures !KeyLt(a, c)
  {
    KeyLtTotal(a, b);
    KeyLtTotal(b, c);
    if a != b && b != c {
      KeyLtTransitive(c, b, a);
      KeyLtAsymmetric(c, a);
    }
  }

  /** Ranked: no record has a smaller key than a record after it. */
  ghost predicate Ranked(s: seq<Publication>) {
    forall i, j :: 0 <= i < j < |s| ==> !KeyLt(RankKey(s[i]), RankKey(s[j]))
  }

  /** The records of `s` whose key is `k`, in the order of `s`. */
  function WithKey(s: seq<Publication>, k: Key): seq<Publication> {
    if s == [] then []
    else WithKey(s[..|s| - 1], k) + (if RankKey(s[|s| - 1]) == k then [s[|s| - 1]] else [])
  }

  /**
   * A stable ranking of `input`: ranked, and for every key the records with that
   * key appear in the same order as in `input` (so none is added or dropped).
   */
  ghost predicate IsStableRanking(output: seq<Publication>, input: seq<Publication>) {
    Ranked(output) && forall k :: WithKey(output, k) == WithKey(input, k)
  }

  /**
   * Where `x` goes when inserted into ranked `s`: after every record whose key is
   * not smaller than its own, so that an equal-key record already there stays first.
   */
  function InsertPos(x: Publication, s: seq<Publication>): (n: nat)
    ensures n <= |s|
    ensures forall j :: n <= j < |s| ==> KeyLt(RankKey(s[j]), RankKey(x))
    ensures n > 0 ==> !KeyLt(RankKey(s[n - 1]), RankKey(x))
  {
    if s == [] || !KeyLt(RankKey(s[|s| - 1]), RankKey(x)) then |s|
    else InsertPos(x, s[..|s| - 1])
  }

  function Insert(x: Publication, s: seq<Publication>): (r: seq<Publication>)
    ensures |r| == |s| + 1
    ensures multiset(r) == multiset(s) + multiset{x}
  {
    var n := InsertPos(x, s);
    assert s == s[..n] + s[n..];
    s[..n] + [x] + s[n..]
  }

  /**
   * The list after the sort: the records of `s` inserted one after another, in
   * input order, into a ranked list. It is a permutation of `s`.
   */
  function Rank(s: seq<Publication>): (r: seq<Publication>)
    ensures multiset(r) == multiset(s)
    ensures |r| == |s|
  {
    if s == [] then []
    else
      assert s == s[..|s| - 1] + [s[|s| - 1]];
      Insert(s[|s| - 1], Rank(s[..|s| - 1]))
  }

  /** Where each record of `Insert(x, s)` comes from. */
  lemma InsertAt(x: Publication, s: seq<Publication>, k: nat)
    requires k <= |s|
    ensures var n := InsertPos(x, s);
      Insert(x, s)[k] == if k < n then s[k] else if k == n then x else s[k - 1]
  {
  }

  /** Inserting into a ranked list keeps it ranked. */
  lemma InsertRanked(x: Publication, s: seq<Publication>)
    requires Ranked(s)
    ensures Ranked(Insert(x, s))
  {
    var n := InsertPos(x, s);
    var r := Insert(x, s);
    forall i, j | 0 <= i < j < |r|
      ensures !KeyLt(RankKey(r[i]), RankKey(r[j]))
    {
      InsertAt(x, s, i);
      InsertAt(x, s, j);
      if j < n || i > n {
        // both come from s, in their order there
      } else if i < n && j > n {
        assert r[i] == s[i] && r[j] == s[j - 1];
      } else if i == n {
        KeyLtAsymmetric(RankKey(s[j - 1]), RankKey(x));
      } else if i < n - 1 {
        NotLtTransitive(RankKey(s[i]), RankKey(s[n - 1]), RankKey(x));
      }
    }
  }

  /** The sort leaves the list ranked. */
  lemma {:induction false} RankRanked(s: seq<Publication>)
    ensures Ranked(Rank(s))
  {
    if s != [] {
      RankRanked(s[..|s| - 1]);
      InsertRanked(s[|s| - 1], Rank(s[..|s| - 1]));
    }
  }

  lemma {:induction false} WithKeyAppend(a: seq<Publication>, b: seq<Publication>, k: Key)
    ensures WithKey(a + b, k) == WithKey(a, k) + WithKey(b, k)
    decreases |b|
  {
    if b == [] {
      assert a + b == a;
    } else {
      assert (a + b)[..|a + b| - 1] == a + b[..|b| - 1];
      WithKeyAppend(a, b[..|b| - 1], k);
    }
  }

  lemma {:induction false} WithKeyAbsent(s: seq<Publication>, k: Key)
    requires forall j :: 0 <= j < |s| ==> RankKey(s[j]) != k
    ensures WithKey(s, k) == []
  {
    if s != [] {
      WithKeyAbsent(s[..|s| - 1], k);
    }
  }

  lemma {:induction false} WithKeyFound(s: seq<Publication>, k: Key)
    requires WithKey(s, k) != []
    ensures exists j :: 0 <= j < |s| && RankKey(s[j]) == k
  {
    if RankKey(s[|s| - 1]) != k {
      WithKeyFound(s[..|s| - 1], k);
      var j :| 0 <= j < |s| - 1 && RankKey(s[..|s| - 1][j]) == k;
      assert RankKey(s[j]) == k;
    }
  }

  /** The records after `x`'s insertion point all have smaller keys, so none has `x`'s key. */
  lemma WithKeyAfterInsertPos(x: Publication, s: seq<Publication>)
    ensures WithKey(s[InsertPos(x, s)..], RankKey(x)) == []
  {
    var tail := s[InsertPos(x, s)..];
    forall j | 0 <= j < |tail|
      ensures RankKey(tail[j]) != RankKey(x)
    {
      KeyLtIrreflexive(RankKey(x));
    }
    WithKeyAbsent(tail, RankKey(x));
  }

  lemma WithKeyOfLast(s: seq<Publication>)
    requires s != []
    ensures WithKey(s, RankKey(s[|s| - 1])) != []
  {
  }

  lemma WithKeySnoc(s: seq<Publication>, x: Publication, k: Key)
    ensures WithKey(s + [x], k) == WithKey(s, k) + (if RankKey(x) == k then [x] else [])
  {
    assert (s + [x])[..|s + [x]| - 1] == s;
  }

  /** `Insert` cuts `s` at the insertion point and puts `x` in the cut. */
  lemma InsertShape(x: Publication, s: seq<Publication>)
    ensures var n := InsertPos(x, s);
      && Insert(x, s) == (s[..n] + [x]) + s[n..]
      && s == s[..n] + s[n..]
  {
  }

  /** Inserting splits `s` at the insertion point; so do the records of each key. */
  lemma InsertSplit(x: Publication, s: seq<Publication>, k: Key)
    ensures var n := InsertPos(x, s);
      && WithKey(Insert(x, s), k) == WithKey(s[..n], k) + (if RankKey(x) == k then [x] else []) + WithKey(s[n..], k)
      && WithKey(s, k) == WithKey(s[..n], k) + WithKey(s[n..], k)
  {
    var n := InsertPos(x, s);
    InsertShape(x, s);
    WithKeyAppend(s[..n] + [x], s[n..], k);
    WithKeySnoc(s[..n], x, k);
    WithKeyAppend(s[..n], s[n..], k);
  }

  lemma InsertWithKey(x: Publication, s: seq<Publication>, k: Key)
    ensures WithKey(Insert(x, s), k) == WithKey(s, k) + (if RankKey(x) == k then [x] else [])
  {
    InsertSplit(x, s, k);
    if RankKey(x) == k {
      WithKeyAfterInsertPos(x, s);
    }
  }

  /** The sort is stable: for each key, the records with that key keep their input order. */
  lemma {:induction false} RankWithKey(s: seq<Publication>, k: Key)
    ensures WithKey(Rank(s), k) == WithKey(s, k)
  {
    if s != [] {
      RankWithKey(s[..|s| - 1], k);
      InsertWithKey(s[|s| - 1], Rank(s[..|s| - 1]), k);
    }
  }

  /** The sort yields a stable ranking of its input. */
  lemma RankIsStableRanking(s: seq<Publication>)
    ensures IsStableRanking(Rank(s), s)
  {
    RankRanked(s);
    forall k ensures WithKey(Rank(s), k) == WithKey(s, k) {
      RankWithKey(s, k);
    }
  }

  /** There is exactly one stable ranking of any list. */
  lemma {:induction false} StableRankingUnique(a: seq<Publication>, b: seq<Publication>)
    requires Ranked(a) && Ranked(b)
    requires forall k :: WithKey(a, k) == WithKey(b, k)
    ensures a == b
    decreases |a| + |b|
  {
    if a == [] || b == [] {
      if a != [] {
        WithKeyOfLast(a);
      } else if b != [] {
        WithKeyOfLast(b);
      }
    } else {
      var la, lb := a[|a| - 1], b[|b| - 1];
      var a', b' := a[..|a| - 1], b[..|b| - 1];
      LastIsSmallest(a, b, la);
      LastIsSmallest(b, a, lb);
      KeyLtTotal(RankKey(la), RankKey(lb));
      var k0 := RankKey(la);
      assert RankKey(lb) == k0;
      var wa, wb := WithKey(a', k0), WithKey(b', k0);
      assert WithKey(a, k0) == wa + [la];
      assert WithKey(b, k0) == wb + [lb];
      assert wa + [la] == wb + [lb];
      assert |wa| == |wb|;
      assert la == (wa + [la])[|wa|] == (wb + [lb])[|wb|] == lb;
      assert wa == (wa + [la])[..|wa|] == (wb + [lb])[..|wb|] == wb;
      forall k ensures WithKey(a', k) == WithKey(b', k) {
        if k != k0 {
          assert WithKey(a, k) == WithKey(a', k);
          assert WithKey(b, k) == WithKey(b', k);
        }
      }
      StableRankingUnique(a', b');
      assert a == a' + [la] && b == b' + [lb];
    }
  }

  /** The key of the last record of ranked `a` is no greater than that of `x`, when `x`'s key occurs in `a`. */
  lemma LastIsSmallest(a: seq<Publication>, b: seq<Publication>, x: Publication)
    requires Ranked(b) && b != []
    requires forall k :: WithKey(a, k) == WithKey(b, k)
    requires a != [] && x == a[|a| - 1]
    ensures !KeyLt(RankKey(x), RankKey(b[|b| - 1]))
  {
    var k := RankKey(x);
    assert WithKey(a, k) != [];
    WithKeyFound(b, k);
    var j :| 0 <= j < |b| && RankKey(b[j]) == k;
    if j == |b| - 1 {
      KeyLtIrreflexive(k);
    }
  }

  /**
   * The sort is characterized without reference to how it works: a list is the
   * result of sorting `s` exactly when it is a stable ranking of `s`.
   */
  lemma RankCharacterization(s: seq<Publication>, r: seq<Publication>)
    ensures IsStableRanking(r, s) <==> r == Rank(s)
  {
    RankIsStableRanking(s);
    if IsStableRanking(r, s) {
      StableRankingUnique(r, Rank(s));
    }
  }

  /** A record whose key is not greater than the last one's goes to the end. */
  lemma InsertAtEnd(x: Publication, s: seq<Publication>)
    requires s == [] || !KeyLt(RankKey(s[|s| - 1]), RankKey(x))
    ensures Insert(x, s) == s + [x]
  {
    assert InsertPos(x, s) == |s|;
    assert s[..|s|] == s;
  }

  /** Sorting a ranked list changes nothing. */
  lemma {:induction false} RankOfRanked(s: seq<Publication>)
    requires Ranked(s)
    ensures Rank(s) == s
  {
    if s != [] {
      var init, last := s[..|s| - 1], s[|s| - 1];
      assert Ranked(init);
      RankOfRanked(init);
      assert init == [] || !KeyLt(RankKey(init[|init| - 1]), RankKey(last));
      InsertAtEnd(last, init);
      SplitLast(s);
    }
  }

  /** The defensive re-sort of an already sorted list is a no-op. */
  lemma RankIdempotent(s: seq<Publication>)
    ensures Rank(Rank(s)) == Rank(s)
  {
    RankRanked(s);
    RankOfRanked(Rank(s));
  }

  /** Records with identical keys keep their input order: the sort is not "sort ascending, then reverse". */
  lemma EqualKeysKeepInputOrder(p: Publication, q: Publication)
    requires RankKey(p) == RankKey(q)
    ensures Rank([p, q]) == [p, q]
  {
    KeyLtIrreflexive(RankKey(p));
    RankOfRanked([p, q]);
  }

  /**
   * In a ranked list a record with a greater key comes first: a later year before
   * an earlier one whatever the titles, and within one year the greater title first.
   */
  lemma RankedOrder(s: seq<Publication>, i: nat, j: nat)
    requires Ranked(s) && i < |s| && j < |s|
    requires KeyLt(RankKey(s[j]), RankKey(s[i]))
    ensures i < j
  {
    if j <= i {
      KeyLtIrreflexive(RankKey(s[i]));
    }
  }
}
