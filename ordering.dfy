/** The two orders the store sorts by: category names ascending under the
    store's binary collation, and notes by `updated_at` descending. */
module Ordering {
  import opened Models

  /** Strict lexicographic order on code points. Comparing UTF-8 bytes, as
      the BINARY collation does, gives the same order as comparing code points. */
  predicate StringLt(a: string, b: string)
  {
    if a == [] then b != []
    else b != [] && (a[0] < b[0] || (a[0] == b[0] && StringLt(a[1..], b[1..])))
  }

  lemma {:induction false} StringLtIrreflexive(a: string)
    ensures !StringLt(a, a)
  {
    if a != [] {
      StringLtIrreflexive(a[1..]);
    }
  }

  lemma {:induction false} StringLtTransitive(a: string, b: string, c: string)
    requires StringLt(a, b) && StringLt(b, c)
    ensures StringLt(a, c)
  {
    if a != [] && a[0] == b[0] && b[0] == c[0] {
      StringLtTransitive(a[1..], b[1..], c[1..]);
    }
  }

  /** Any two different names are ordered one way or the other. */
  lemma {:induction false} StringLtTotal(a: string, b: string)
    requires a != b
    ensures StringLt(a, b) || StringLt(b, a)
  {
    if a != [] && b != [] && a[0] == b[0] {
      assert a == [a[0]] + a[1..] && b == [b[0]] + b[1..];
      StringLtTotal(a[1..], b[1..]);
    }
  }

  /** Names strictly ascending: sorted, and no name twice. */
  ghost predicate SortedByName(s: seq<Category>)
  {
    forall i, j :: 0 <= i < j < |s| ==> StringLt(s[i].name, s[j].name)
  }

  /** Timestamps non-increasing; notes updated at the same time may come in any order. */
  ghost predicate SortedByUpdatedDesc(s: seq<Note>)
  {
    forall i, j :: 0 <= i < j < |s| ==> s[i].updatedAt >= s[j].updatedAt
  }

  /** No note appears twice. */
  ghost predicate IdsDistinct(s: seq<Note>)
  {
    forall i, j :: 0 <= i < j < |s| ==> s[i].id != s[j].id
  }

  /** Places `c` before the first category whose name it precedes. */
  function InsertByName(c: Category, s: seq<Category>): (r: seq<Category>)
    ensures multiset(r) == multiset(s) + multiset{c}
  {
    if s == [] || StringLt(c.name, s[0].name) then [c] + s
    else
      assert s == [s[0]] + s[1..];
      [s[0]] + InsertByName(c, s[1..])
  }

  /** The elements after inserting `c` are those of `s` and `c` itself. */
  lemma InsertByNameMembers(c: Category, s: seq<Category>)
    ensures forall x :: x in InsertByName(c, s) <==> x in s || x == c
  {
    var r := InsertByName(c, s);
    forall x ensures x in r <==> x in s || x == c {
      assert x in r <==> x in multiset(r);
      assert x in s <==> x in multiset(s);
    }
  }

  /** A head named before every name of a strictly sorted tail gives a strictly sorted list. */
  lemma ConsSortedByName(h: Category, s: seq<Category>)
    requires SortedByName(s)
    requires forall x :: x in s ==> StringLt(h.name, x.name)
    ensures SortedByName([h] + s)
  {
    var r := [h] + s;
    forall i, j | 0 <= i < j < |r| ensures StringLt(r[i].name, r[j].name) {
      if i == 0 {
        assert r[j] in s;
      } else {
        assert r[i] == s[i - 1] && r[j] == s[j - 1];
      }
    }
  }

  lemma {:induction false} InsertByNameSorted(c: Category, s: seq<Category>)
    requires SortedByName(s)
    requires forall x :: x in s ==> x.name != c.name
    ensures SortedByName(InsertByName(c, s))
  {
    if s == [] || StringLt(c.name, s[0].name) {
      forall x | x in s ensures StringLt(c.name, x.name) {
        var k :| 0 <= k < |s| && s[k] == x;
        if k > 0 {
          StringLtTransitive(c.name, s[0].name, s[k].name);
        }
      }
      ConsSortedByName(c, s);
    } else {
      var rest := InsertByName(c, s[1..]);
      InsertByNameSorted(c, s[1..]);
      InsertByNameMembers(c, s[1..]);
      StringLtTotal(c.name, s[0].name);
      forall x | x in rest ensures StringLt(s[0].name, x.name) {
        if x != c {
          var k :| 0 <= k < |s[1..]| && s[1..][k] == x;
          assert s[k + 1] == x;
        }
      }
      ConsSortedByName(s[0], rest);
    }
  }

  /** Places `n` before the first note updated no later than it. */
  function InsertByUpdated(n: Note, s: seq<Note>): (r: seq<Note>)
    ensures multiset(r) == multiset(s) + multiset{n}
  {
    if s == [] || s[0].updatedAt <= n.updatedAt then [n] + s
    else
      assert s == [s[0]] + s[1..];
      [s[0]] + InsertByUpdated(n, s[1..])
  }

  /** The elements after inserting `n` are those of `s` and `n` itself. */
  lemma InsertByUpdatedMembers(n: Note, s: seq<Note>)
    ensures forall x :: x in InsertByUpdated(n, s) <==> x in s || x == n
  {
    var r := InsertByUpdated(n, s);
    forall x ensures x in r <==> x in s || x == n {
      assert x in r <==> x in multiset(r);
      assert x in s <==> x in multiset(s);
    }
  }

  /** A head updated no earlier than every note of a sorted tail gives a sorted list. */
  lemma ConsSortedByUpdated(h: Note, s: seq<Note>)
    requires SortedByUpdatedDesc(s)
    requires forall x :: x in s ==> h.updatedAt >= x.updatedAt
    ensures SortedByUpdatedDesc([h] + s)
  {
    var r := [h] + s;
    forall i, j | 0 <= i < j < |r| ensures r[i].updatedAt >= r[j].updatedAt {
      if i == 0 {
        assert r[j] in s;
      } else {
        assert r[i] == s[i - 1] && r[j] == s[j - 1];
      }
    }
  }

  /** A head whose id no note of a distinct tail has gives a distinct list. */
  lemma ConsIdsDistinct(h: Note, s: seq<Note>)
    requires IdsDistinct(s)
    requires forall x :: x in s ==> h.id != x.id
    ensures IdsDistinct([h] + s)
  {
    var r := [h] + s;
    forall i, j | 0 <= i < j < |r| ensures r[i].id != r[j].id {
      if i == 0 {
        assert r[j] in s;
      } else {
        assert r[i] == s[i - 1] && r[j] == s[j - 1];
      }
    }
  }

  lemma {:induction false} InsertByUpdatedSorted(n: Note, s: seq<Note>)
    requires SortedByUpdatedDesc(s)
    ensures SortedByUpdatedDesc(InsertByUpdated(n, s))
  {
    if s == [] || s[0].updatedAt <= n.updatedAt {
      forall x | x in s ensures n.updatedAt >= x.updatedAt {
        var k :| 0 <= k < |s| && s[k] == x;
        assert s[0].updatedAt >= s[k].updatedAt;
      }
      ConsSortedByUpdated(n, s);
    } else {
      var rest := InsertByUpdated(n, s[1..]);
      InsertByUpdatedSorted(n, s[1..]);
      InsertByUpdatedMembers(n, s[1..]);
      forall x | x in rest ensures s[0].updatedAt >= x.updatedAt {
        if x != n {
          var k :| 0 <= k < |s[1..]| && s[1..][k] == x;
          assert s[k + 1] == x;
        }
      }
      ConsSortedByUpdated(s[0], rest);
    }
  }

  lemma {:induction false} InsertByUpdatedDistinct(n: Note, s: seq<Note>)
    requires IdsDistinct(s)
    requires forall x :: x in s ==> x.id != n.id
    ensures IdsDistinct(InsertByUpdated(n, s))
  {
    if s == [] || s[0].updatedAt <= n.updatedAt {
      ConsIdsDistinct(n, s);
    } else {
      var rest := InsertByUpdated(n, s[1..]);
      InsertByUpdatedDistinct(n, s[1..]);
      InsertByUpdatedMembers(n, s[1..]);
      forall x | x in rest ensures s[0].id != x.id {
        if x != n {
          var k :| 0 <= k < |s[1..]| && s[1..][k] == x;
          assert s[k + 1] == x;
        }
      }
      ConsIdsDistinct(s[0], rest);
    }
  }

  /** A strictly sorted sequence is determined by its elements. */
  lemma {:induction false} SortedByNameDetermined(r1: seq<Category>, r2: seq<Category>)
    requires SortedByName(r1) && SortedByName(r2)
    requires forall c :: c in r1 <==> c in r2
    ensures r1 == r2
  {
    assert r2 != [] ==> r2[0] in r1;
    if r1 != [] {
      assert r1[0] in r2;
      assert r2 != [];
      assert r2[0] in r1;
      if r1[0] != r2[0] {
        var j :| 0 <= j < |r2| && r2[j] == r1[0];
        var i :| 0 <= i < |r1| && r1[i] == r2[0];
        assert StringLt(r2[0].name, r1[0].name);
        assert StringLt(r1[0].name, r2[0].name);
        StringLtTransitive(r1[0].name, r2[0].name, r1[0].name);
        StringLtIrreflexive(r1[0].name);
      }
      NotInTail(r1);
      NotInTail(r2);
      assert r1 == [r1[0]] + r1[1..] && r2 == [r2[0]] + r2[1..];
      forall c ensures c in r1[1..] <==> c in r2[1..] {
        if c in r1[1..] {
          assert c in r1 && c != r1[0];
        }
        if c in r2[1..] {
          assert c in r2 && c != r2[0];
        }
      }
      SortedByNameDetermined(r1[1..], r2[1..]);
      assert r1 == [r1[0]] + r1[1..] && r2 == [r2[0]] + r2[1..];
    }
  }

  lemma NotInTail(r: seq<Category>)
    requires SortedByName(r) && r != []
    ensures r[0] !in r[1..]
  {
    if r[0] in r[1..] {
      var k :| 0 <= k < |r[1..]| && r[1..][k] == r[0];
      assert r[k + 1] == r[0];
      StringLtIrreflexive(r[0].name);
    }
  }
}
