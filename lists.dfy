/** Lists as the store and the browser client produce them: a collection
    read in its natural order, filtered in place of a query, and sorted by
    one or more string fields, as `find().sort({f1: 1, f2: 1})` does. */
module Lists {
  import opened Envelope
  import opened Text

  /** A stored document: its id and its fields. */
  datatype Entry<T> = Entry(id: Id, value: T)

  // ---------------------------------------------------------------
  // Natural order
  // ---------------------------------------------------------------

  lemma {:induction false} MinExistsBelow(s: set<Id>, n: nat)
    requires exists x :: x in s && x <= n
    ensures exists k :: k in s && forall x :: x in s ==> k <= x
  {
    if n > 0 && exists x :: x in s && x <= n - 1 {
      MinExistsBelow(s, n - 1);
    } else {
      var x :| x in s && x <= n;
      assert forall y :: y in s ==> x <= y;
    }
  }

  lemma MinExists(s: set<Id>)
    requires s != {}
    ensures exists k :: k in s && forall x :: x in s ==> k <= x
  {
    var y :| y in s;
    MinExistsBelow(s, y);
  }

  /** The smallest id of a nonempty set. */
  function MinId(s: set<Id>): (k: Id)
    requires s != {}
    ensures k in s && forall x :: x in s ==> k <= x
  {
    MinExists(s);
    var k :| k in s && forall x :: x in s ==> k <= x; k
  }

  /** A collection read in natural order.  The store hands out ids in
      increasing order, so natural (insertion) order is ascending id order. */
  function Entries<T>(m: map<Id, T>): seq<Entry<T>>
    decreases |m|
  {
    if |m| == 0 then []
    else
      var k := MinId(m.Keys);
      assert (m - {k}).Keys == m.Keys - {k};
      [Entry(k, m[k])] + Entries(m - {k})
  }

  lemma {:induction false} EntriesLength<T>(m: map<Id, T>)
    ensures |Entries(m)| == |m|
    decreases |m|
  {
    if |m| != 0 {
      var k := MinId(m.Keys);
      assert (m - {k}).Keys == m.Keys - {k};
      EntriesLength(m - {k});
    }
  }

  /** Everything listed is a document of the collection ... */
  lemma {:induction false} EntriesSound<T>(m: map<Id, T>)
    ensures forall i :: 0 <= i < |Entries(m)| ==> Entries(m)[i].id in m && m[Entries(m)[i].id] == Entries(m)[i].value
    decreases |m|
  {
    if |m| != 0 {
      var k := MinId(m.Keys);
      var rest := m - {k};
      assert rest.Keys == m.Keys - {k};
      EntriesSound(rest);
      assert Entries(m) == [Entry(k, m[k])] + Entries(rest);
    }
  }

  /** ... every document of the collection is listed ... */
  lemma {:induction false} EntriesComplete<T>(m: map<Id, T>)
    ensures forall k :: k in m ==> Entry(k, m[k]) in Entries(m)
    decreases |m|
  {
    if |m| != 0 {
      var k := MinId(m.Keys);
      var rest := m - {k};
      assert rest.Keys == m.Keys - {k};
      EntriesComplete(rest);
      var r := Entries(m);
      assert r == [Entry(k, m[k])] + Entries(rest);
      forall x | x in m
        ensures Entry(x, m[x]) in r
      {
        if x != k {
          assert x in rest && Entry(x, rest[x]) in Entries(rest);
        }
      }
    }
  }

  /** ... and the ids ascend, so no document is listed twice. */
  lemma {:induction false} EntriesAscending<T>(m: map<Id, T>)
    ensures forall i, j :: 0 <= i < j < |Entries(m)| ==> Entries(m)[i].id < Entries(m)[j].id
    decreases |m|
  {
    if |m| != 0 {
      var k := MinId(m.Keys);
      var rest := m - {k};
      assert rest.Keys == m.Keys - {k};
      EntriesAscending(rest);
      EntriesSound(rest);
      var tail := Entries(rest);
      assert Entries(m) == [Entry(k, m[k])] + tail;
      assert forall i :: 0 <= i < |tail| ==> tail[i].id in rest;
    }
  }

  /** The listing holds each document of the collection exactly once, in
      ascending id order. */
  lemma EntriesListsAll<T>(m: map<Id, T>)
    ensures var r := Entries(m);
      && |r| == |m|
      && (forall i :: 0 <= i < |r| ==> r[i].id in m && m[r[i].id] == r[i].value)
      && (forall k :: k in m ==> Entry(k, m[k]) in r)
      && (forall i, j :: 0 <= i < j < |r| ==> r[i].id < r[j].id)
  {
    EntriesLength(m);
    EntriesSound(m);
    EntriesComplete(m);
    EntriesAscending(m);
  }

  // ---------------------------------------------------------------
  // Filtering
  // ---------------------------------------------------------------

  /** `s.filter(p)`: the elements that satisfy `p`, in their order. */
  function Filter<T>(s: seq<T>, p: T -> bool): (r: seq<T>)
    ensures |r| <= |s|
  {
    if s == [] then [] else (if p(s[0]) then [s[0]] else []) + Filter(s[1..], p)
  }

  /** `r` can be had by deleting elements of `s`, keeping the order. */
  predicate IsSubsequence<T(==)>(r: seq<T>, s: seq<T>)
    decreases |s|
  {
    r == [] || (s != [] && if r[0] == s[0] then IsSubsequence(r[1..], s[1..]) else IsSubsequence(r, s[1..]))
  }

  /** An element is kept exactly when it is in the list and satisfies `p`. */
  lemma {:induction false} FilterMember<T>(s: seq<T>, p: T -> bool, x: T)
    ensures x in Filter(s, p) <==> x in s && p(x)
  {
    if s != [] {
      FilterMember(s[1..], p, x);
      assert s == [s[0]] + s[1..];
    }
  }

  /** Filtering keeps every copy of an element that satisfies `p` and no
      copy of one that does not. */
  lemma {:induction false} FilterMultiset<T>(s: seq<T>, p: T -> bool)
    ensures forall x :: multiset(Filter(s, p))[x] == if p(x) then multiset(s)[x] else 0
  {
    if s != [] {
      FilterMultiset(s[1..], p);
      assert s == [s[0]] + s[1..];
    }
  }

  /** Filtering keeps the original order. */
  lemma {:induction false} FilterIsSubsequence<T>(s: seq<T>, p: T -> bool)
    ensures IsSubsequence(Filter(s, p), s)
  {
    if s != [] {
      FilterIsSubsequence(s[1..], p);
      var r, t := Filter(s, p), Filter(s[1..], p);
      if p(s[0]) {
        assert r[0] == s[0] && r[1..] == t;
      } else if r != [] {
        assert r == t && r[0] in t;
        FilterMember(s[1..], p, r[0]);
        assert r[0] != s[0];
      }
    }
  }

  /** A filter every element passes returns the list unchanged. */
  /** A filter keeps nothing exactly when no element passes it. */
  lemma FilterNone<T>(s: seq<T>, p: T -> bool)
    ensures Filter(s, p) == [] <==> forall i :: 0 <= i < |s| ==> !p(s[i])
  {
    var r := Filter(s, p);
    if r == [] {
      forall i | 0 <= i < |s|
        ensures !p(s[i])
      {
        FilterMember(s, p, s[i]);
      }
    } else {
      FilterMember(s, p, r[0]);
      var i :| 0 <= i < |s| && s[i] == r[0];
    }
  }

  lemma {:induction false} FilterAll<T>(s: seq<T>, p: T -> bool)
    requires forall i :: 0 <= i < |s| ==> p(s[i])
    ensures Filter(s, p) == s
  {
    if s != [] {
      FilterAll(s[1..], p);
    }
  }

  /** Two tests that agree on every element filter alike. */
  lemma {:induction false} FilterCongruent<T>(s: seq<T>, p: T -> bool, q: T -> bool)
    requires forall i :: 0 <= i < |s| ==> p(s[i]) == q(s[i])
    ensures Filter(s, p) == Filter(s, q)
  {
    if s != [] {
      FilterCongruent(s[1..], p, q);
    }
  }

  // ---------------------------------------------------------------
  // Queries on a collection
  // ---------------------------------------------------------------

  /** `findById(id)`: the document with that id, if there is one. */
  function FindById<T>(m: map<Id, T>, id: Id): (r: Option<Entry<T>>)
    ensures r.Some? <==> id in m
    ensures r.Some? ==> r.value == Entry(id, m[id])
  {
    if id in m then Some(Entry(id, m[id])) else None
  }

  /** `find(q)`: the documents that satisfy `q`, in natural order. */
  function Select<T>(m: map<Id, T>, q: Entry<T> -> bool): seq<Entry<T>>
  {
    Filter(Entries(m), q)
  }

  /** The ids of the documents that satisfy `q`: what `countDocuments(q)`
      counts. */
  function Matching<T>(m: map<Id, T>, q: Entry<T> -> bool): set<Id>
  {
    set k | k in m && q(Entry(k, m[k]))
  }

  /** Every selected document is in the collection and satisfies the
      query ... */
  lemma SelectSound<T>(m: map<Id, T>, q: Entry<T> -> bool)
    ensures forall i :: 0 <= i < |Select(m, q)| ==>
      var e := Select(m, q)[i]; e.id in m && m[e.id] == e.value && q(e)
  {
    var all := Entries(m);
    EntriesSound(m);
    forall i | 0 <= i < |Select(m, q)|
      ensures var e := Select(m, q)[i]; e.id in m && m[e.id] == e.value && q(e)
    {
      var e := Select(m, q)[i];
      assert e in Filter(all, q);
      FilterMember(all, q, e);
      var j :| 0 <= j < |all| && all[j] == e;
    }
  }

  /** ... and every document that satisfies it is selected. */
  lemma SelectComplete<T>(m: map<Id, T>, q: Entry<T> -> bool)
    ensures forall k :: k in m && q(Entry(k, m[k])) ==> Entry(k, m[k]) in Select(m, q)
  {
    EntriesComplete(m);
    forall k | k in m && q(Entry(k, m[k]))
      ensures Entry(k, m[k]) in Select(m, q)
    {
      FilterMember(Entries(m), q, Entry(k, m[k]));
    }
  }

  /** `find(q)` returns as many documents as `countDocuments(q)` counts. */
  lemma {:induction false} SelectCount<T>(m: map<Id, T>, q: Entry<T> -> bool)
    ensures |Select(m, q)| == |Matching(m, q)|
    decreases |m|
  {
    if |m| != 0 {
      var k := MinId(m.Keys);
      var rest := m - {k};
      assert rest.Keys == m.Keys - {k};
      SelectCount(rest, q);
      var x := Entry(k, m[k]);
      var tail := Entries(rest);
      assert Entries(m) == [x] + tail;
      assert Filter([x] + tail, q) == (if q(x) then [x] else []) + Filter(tail, q) by {
        assert ([x] + tail)[0] == x && ([x] + tail)[1..] == tail;
      }
      var here: set<Id> := if q(x) then {k} else {};
      assert Matching(m, q) == Matching(rest, q) + here;
      assert k !in Matching(rest, q);
    }
  }

  // ---------------------------------------------------------------
  // Sorting
  // ---------------------------------------------------------------

  /** A sort key: the values of the sort fields, most significant first. */
  type SortKey = seq<string>

  /** Lexicographic order on keys, each field in code-point order. */
  predicate KeyLess(a: SortKey, b: SortKey)
  {
    b != [] && (a == [] || StrLess(a[0], b[0]) || (a[0] == b[0] && KeyLess(a[1..], b[1..])))
  }

  predicate KeyLe(a: SortKey, b: SortKey)
  {
    a == b || KeyLess(a, b)
  }

  lemma {:induction false} KeyLessTransitive(a: SortKey, b: SortKey, c: SortKey)
    requires KeyLess(a, b) && KeyLess(b, c)
    ensures KeyLess(a, c)
  {
    if a != [] {
      if StrLess(a[0], b[0]) && StrLess(b[0], c[0]) {
        StrLessTransitive(a[0], b[0], c[0]);
      } else if a[0] == b[0] && b[0] == c[0] {
        KeyLessTransitive(a[1..], b[1..], c[1..]);
      }
    }
  }

  lemma KeyLeTransitive(a: SortKey, b: SortKey, c: SortKey)
    requires KeyLe(a, b) && KeyLe(b, c)
    ensures KeyLe(a, c)
  {
    if a != b && b != c {
      KeyLessTransitive(a, b, c);
    }
  }

  /** Any two keys are ordered one way or the other. */
  lemma {:induction false} KeyLeTotal(a: SortKey, b: SortKey)
    ensures KeyLe(a, b) || KeyLe(b, a)
  {
    if a != b && a != [] && b != [] {
      if a[0] != b[0] {
        StrLessTotal(a[0], b[0]);
      } else {
        assert a == [a[0]] + a[1..] && b == [b[0]] + b[1..];
        KeyLeTotal(a[1..], b[1..]);
      }
    }
  }

  /** Ascending by `key`; elements with equal keys may come in any order. */
  predicate Sorted<T>(s: seq<T>, key: T -> SortKey)
  {
    forall i, j :: 0 <= i < j < |s| ==> KeyLe(key(s[i]), key(s[j]))
  }

  function Insert<T>(x: T, s: seq<T>, key: T -> SortKey): (r: seq<T>)
    ensures |r| == |s| + 1
  {
    if s == [] then [x]
    else if KeyLe(key(x), key(s[0])) then [x] + s
    else [s[0]] + Insert(x, s[1..], key)
  }


  lemma {:induction false} InsertMultiset<T>(x: T, s: seq<T>, key: T -> SortKey)
    ensures multiset(Insert(x, s, key)) == multiset(s) + multiset{x}
  {
    if s != [] && !KeyLe(key(x), key(s[0])) {
      InsertMultiset(x, s[1..], key);
      assert s == [s[0]] + s[1..];
    }
  }

  lemma {:induction false} InsertSorted<T>(x: T, s: seq<T>, key: T -> SortKey)
    requires Sorted(s, key)
    ensures Sorted(Insert(x, s, key), key)
  {
    if s == [] {
    } else if KeyLe(key(x), key(s[0])) {
      forall j | 0 <= j < |s|
        ensures KeyLe(key(x), key(s[j]))
      {
        KeyLeTransitive(key(x), key(s[0]), key(s[j]));
      }
    } else {
      var t := Insert(x, s[1..], key);
      InsertSorted(x, s[1..], key);
      InsertMultiset(x, s[1..], key);
      KeyLeTotal(key(x), key(s[0]));
      forall j | 0 <= j < |t|
        ensures KeyLe(key(s[0]), key(t[j]))
      {
        assert t[j] in multiset(t);
        if t[j] != x {
          assert t[j] in s[1..];
        }
      }
    }
  }

  /** The sort the store applies to a query result: its input in
      ascending key order, as a permutation. */
  function SortBy<T>(s: seq<T>, key: T -> SortKey): (r: seq<T>)
    ensures |r| == |s|
    ensures Sorted(r, key)
    ensures multiset(r) == multiset(s)
  {
    if s == [] then []
    else
      var t := SortBy(s[1..], key);
      InsertSorted(s[0], t, key);
      InsertMultiset(s[0], t, key);
      assert s == [s[0]] + s[1..];
      Insert(s[0], t, key)
  }
}
