/**
 * Generic operations on a table held as a sequence of rows: a `where` filter
 * that keeps table order, the first row satisfying a condition (a query with
 * `.limit(1)`, or JavaScript's `find`/`findIndex`), and the primary-key
 * invariant.
 */
module Tables {
  import opened Schema

  /** The rows of `s` satisfying `p`, in table order. */
  function Filter<T(!new)>(s: seq<T>, p: T -> bool): (r: seq<T>)
    ensures |r| <= |s|
    ensures forall x :: x in r <==> x in s && p(x)
    decreases |s|
  {
    if s == [] then []
    else (if p(s[0]) then [s[0]] else []) + Filter(s[1..], p)
  }

  lemma {:induction false} FilterAppend<T(!new)>(a: seq<T>, b: seq<T>, p: T -> bool)
    ensures Filter(a + b, p) == Filter(a, p) + Filter(b, p)
    decreases |a|
  {
    if a == [] {
      assert a + b == b;
    } else {
      assert (a + b)[0] == a[0];
      assert (a + b)[1..] == a[1..] + b;
      FilterAppend(a[1..], b, p);
    }
  }

  /** Appending one row adds it to the filter's result exactly when it passes. */
  lemma FilterSnoc<T(!new)>(s: seq<T>, x: T, p: T -> bool)
    ensures Filter(s + [x], p) == Filter(s, p) + if p(x) then [x] else []
  {
    FilterAppend(s, [x], p);
    assert Filter([x], p) == if p(x) then [x] else [];
  }

  lemma AppendAssoc<T>(a: seq<T>, b: seq<T>, c: seq<T>)
    ensures (a + b) + c == a + (b + c)
  {
  }

  /** A filter that every row passes is the identity (an `IN` list that matches nothing is a no-op delete). */
  lemma {:induction false} FilterKeepsAll<T(!new)>(s: seq<T>, p: T -> bool)
    requires forall x :: x in s ==> p(x)
    ensures Filter(s, p) == s
    decreases |s|
  {
    if s != [] {
      assert s[0] in s;
      forall x | x in s[1..] ensures p(x) { assert x in s; }
      FilterKeepsAll(s[1..], p);
      assert [s[0]] + s[1..] == s;
    }
  }

  /** A filter that no row passes is empty (a select that matches nothing). */
  lemma {:induction false} FilterKeepsNone<T(!new)>(s: seq<T>, p: T -> bool)
    requires forall x :: x in s ==> !p(x)
    ensures Filter(s, p) == []
    decreases |s|
  {
    if s != [] {
      assert s[0] in s;
      forall x | x in s[1..] ensures !p(x) { assert x in s; }
      FilterKeepsNone(s[1..], p);
    }
  }

  /** Filtering by a condition that implies an earlier one makes the earlier one redundant. */
  lemma {:induction false} FilterFilter<T(!new)>(s: seq<T>, p: T -> bool, q: T -> bool)
    requires forall x :: q(x) ==> p(x)
    ensures Filter(Filter(s, p), q) == Filter(s, q)
    decreases |s|
  {
    if s != [] {
      FilterFilter(s[1..], p, q);
      if p(s[0]) {
        var rest := Filter(s[1..], p);
        assert Filter(s, p) == [s[0]] + rest;
        assert ([s[0]] + rest)[0] == s[0] && ([s[0]] + rest)[1..] == rest;
      } else {
        assert Filter(s, p) == Filter(s[1..], p);
        assert Filter(s, q) == Filter(s[1..], q);
      }
    }
  }

  /** Index of the first row satisfying `p`, or -1 (JavaScript's `findIndex`). */
  function FindIndex<T>(s: seq<T>, p: T -> bool): (i: int)
    ensures -1 <= i < |s|
    ensures 0 <= i ==> p(s[i]) && forall j :: 0 <= j < i ==> !p(s[j])
    ensures i == -1 ==> forall j :: 0 <= j < |s| ==> !p(s[j])
    decreases |s|
  {
    if s == [] then -1
    else if p(s[0]) then 0
    else
      var k := FindIndex(s[1..], p);
      if k == -1 then -1 else k + 1
  }

  /** The first row satisfying `p`, if any (JavaScript's `find`, or a query with `.limit(1)`). */
  function Find<T(!new)>(s: seq<T>, p: T -> bool): (r: Option<T>)
    ensures r.Some? <==> exists x :: x in s && p(x)
    ensures r.Some? ==> r.value in s && p(r.value)
  {
    var i := FindIndex(s, p);
    if i < 0 then None else Some(s[i])
  }

  /** A hit in the first part of a table shadows any in the rest. */
  lemma FindAppend<T(!new)>(a: seq<T>, b: seq<T>, p: T -> bool)
    ensures Find(a + b, p) == if Find(a, p).Some? then Find(a, p) else Find(b, p)
  {
    var i, k := FindIndex(a, p), FindIndex(a + b, p);
    if i >= 0 {
      assert (a + b)[i] == a[i];
      assert k == i;
    } else {
      var j := FindIndex(b, p);
      if j >= 0 {
        assert (a + b)[|a| + j] == b[j];
        assert forall m :: 0 <= m < |a| + j ==> !p((a + b)[m]);
        assert k == |a| + j;
      } else {
        assert forall m :: 0 <= m < |a + b| ==> !p((a + b)[m]);
      }
    }
  }

  /** Every key below the next fresh id. */
  predicate KeysBelow<T>(s: seq<T>, key: T -> Id, bound: Id) {
    forall i :: 0 <= i < |s| ==> key(s[i]) < bound
  }

  /** One more row with a key below a larger bound. */
  lemma KeysBelowSnoc<T>(s: seq<T>, x: T, key: T -> Id, bound: Id, bound': Id)
    requires KeysBelow(s, key, bound) && key(x) < bound' && bound <= bound'
    ensures KeysBelow(s + [x], key, bound')
  {
    assert forall i :: 0 <= i < |s| ==> (s + [x])[i] == s[i];
  }

  /** The primary-key invariant: keys are pairwise distinct and below the next fresh id. */
  predicate PrimaryKey<T>(s: seq<T>, key: T -> Id, bound: Id) {
    && (forall i :: 0 <= i < |s| ==> key(s[i]) < bound)
    && (forall i, j :: 0 <= i < j < |s| ==> key(s[i]) != key(s[j]))
  }

  /** Under a primary key, a row is determined by its key. */
  lemma PrimaryKeyUnique<T>(s: seq<T>, key: T -> Id, bound: Id, i: nat, j: nat)
    requires PrimaryKey(s, key, bound)
    requires i < |s| && j < |s| && key(s[i]) == key(s[j])
    ensures i == j
  {
  }

  /** Appending rows with fresh keys keeps the primary key. */
  lemma PrimaryKeyAppend<T>(s: seq<T>, t: seq<T>, key: T -> Id, bound: Id, bound': Id)
    requires PrimaryKey(s, key, bound) && PrimaryKey(t, key, bound')
    requires bound <= bound'
    requires forall i :: 0 <= i < |t| ==> bound <= key(t[i])
    ensures PrimaryKey(s + t, key, bound')
  {
    var u := s + t;
    forall i, j | 0 <= i < j < |u| ensures key(u[i]) != key(u[j]) {
      if j < |s| {
        assert u[i] == s[i] && u[j] == s[j];
      } else if i < |s| {
        assert u[i] == s[i] && u[j] == t[j - |s|];
      } else {
        assert u[i] == t[i - |s|] && u[j] == t[j - |s|];
      }
    }
  }

  /** The rows after the first keep the primary key, and none shares the first row's key. */
  lemma PrimaryKeyTail<T>(s: seq<T>, key: T -> Id, bound: Id)
    requires PrimaryKey(s, key, bound) && s != []
    ensures PrimaryKey(s[1..], key, bound)
    ensures forall x :: x in s[1..] ==> key(x) != key(s[0])
  {
    var t := s[1..];
    forall i, j | 0 <= i < j < |t| ensures key(t[i]) != key(t[j]) {
      assert t[i] == s[i + 1] && t[j] == s[j + 1];
    }
    forall x | x in t ensures key(x) != key(s[0]) {
      var j :| 0 <= j < |t| && t[j] == x;
      assert s[j + 1] == x;
    }
  }

  /** A row whose key is fresh and below the bound can be put in front. */
  lemma PrimaryKeyCons<T>(x: T, s: seq<T>, key: T -> Id, bound: Id)
    requires PrimaryKey(s, key, bound) && key(x) < bound
    requires forall y :: y in s ==> key(y) != key(x)
    ensures PrimaryKey([x] + s, key, bound)
  {
    var r := [x] + s;
    forall i, j | 0 <= i < j < |r| ensures key(r[i]) != key(r[j]) {
      assert r[j] == s[j - 1] && r[j] in s;
      if i > 0 {
        assert r[i] == s[i - 1];
      }
    }
    forall i | 0 <= i < |r| ensures key(r[i]) < bound {
      if i > 0 { assert r[i] == s[i - 1]; }
    }
  }

  /** Deleting rows keeps the primary key. */
  lemma {:induction false} PrimaryKeyFilter<T(!new)>(s: seq<T>, p: T -> bool, key: T -> Id, bound: Id)
    requires PrimaryKey(s, key, bound)
    ensures PrimaryKey(Filter(s, p), key, bound)
    decreases |s|
  {
    if s != [] {
      var rest := Filter(s[1..], p);
      PrimaryKeyTail(s, key, bound);
      PrimaryKeyFilter(s[1..], p, key, bound);
      if p(s[0]) {
        assert Filter(s, p) == [s[0]] + rest;
        PrimaryKeyCons(s[0], rest, key, bound);
      } else {
        assert Filter(s, p) == rest;
      }
    }
  }
}
