/** A stable insertion sort parameterised by a "less than or equal" relation. It stands in
    for `Array.prototype.sort` with a comparator (stable since ECMAScript 2019) and for SQL
    `ORDER BY`; `localeCompare` is replaced by code-point lexicographic order. */
module Sorting {
  import opened Common

  ghost predicate Total<T(!new)>(le: (T, T) -> bool) {
    forall a, b :: le(a, b) || le(b, a)
  }

  ghost predicate Transitive<T(!new)>(le: (T, T) -> bool) {
    forall a, b, c :: le(a, b) && le(b, c) ==> le(a, c)
  }

  /** A total preorder: what a comparator must be for sorting to be meaningful. */
  ghost predicate TotalPreorder<T(!new)>(le: (T, T) -> bool) {
    Total(le) && Transitive(le)
  }

  predicate SortedBy<T>(s: seq<T>, le: (T, T) -> bool) {
    forall i, j :: 0 <= i < j < |s| ==> le(s[i], s[j])
  }

  /** Inserts `x` into `s` after every leading element not above it. */
  function Insert<T>(s: seq<T>, x: T, le: (T, T) -> bool): (r: seq<T>)
    ensures multiset(r) == multiset(s) + multiset{x}
    ensures |r| == |s| + 1
  {
    if |s| == 0 then [x]
    else if le(s[0], x) then
      assert s == [s[0]] + s[1..];
      [s[0]] + Insert(s[1..], x, le)
    else [x] + s
  }

  function SortBy<T>(s: seq<T>, le: (T, T) -> bool): (r: seq<T>)
    ensures multiset(r) == multiset(s)
    ensures |r| == |s|
  {
    if |s| == 0 then []
    else
      assert s == s[..|s| - 1] + [s[|s| - 1]];
      Insert(SortBy(s[..|s| - 1], le), s[|s| - 1], le)
  }

  /** Sorting a sequence with one more element at the end inserts it into the sorted rest. */
  lemma SortBySnoc<T>(s: seq<T>, x: T, le: (T, T) -> bool)
    ensures SortBy(s + [x], le) == Insert(SortBy(s, le), x, le)
  {
    assert (s + [x])[..|s|] == s;
  }

  /** An element strictly before the current head is inserted at the front. */
  lemma InsertFront<T>(s: seq<T>, x: T, le: (T, T) -> bool)
    requires |s| == 0 || !le(s[0], x)
    ensures Insert(s, x, le)[0] == x
  {
  }

  lemma {:induction false} InsertSorted<T(!new)>(s: seq<T>, x: T, le: (T, T) -> bool)
    requires TotalPreorder(le)
    requires SortedBy(s, le)
    ensures SortedBy(Insert(s, x, le), le)
    decreases |s|
  {
    if |s| > 0 && le(s[0], x) {
      InsertSorted(s[1..], x, le);
      var r := Insert(s, x, le);
      var t := Insert(s[1..], x, le);
      assert r == [s[0]] + t;
      forall j | 0 < j < |r| ensures le(r[0], r[j]) {
        assert r[j] in multiset(t);
        assert r[j] in multiset(s[1..]) + multiset{x};
        if r[j] != x {
          assert r[j] in s[1..];
        }
      }
    }
  }

  /** The sorted output is ordered by `le` (and, by its contract, a permutation of the input). */
  lemma {:induction false} SortBySorted<T(!new)>(s: seq<T>, le: (T, T) -> bool)
    requires TotalPreorder(le)
    ensures SortedBy(SortBy(s, le), le)
    decreases |s|
  {
    if |s| > 0 {
      SortBySorted(s[..|s| - 1], le);
      InsertSorted(SortBy(s[..|s| - 1], le), s[|s| - 1], le);
    }
  }

  /** No element of `s` satisfies `p`: nothing is kept. */
  lemma KeepNothing<T>(s: seq<T>, p: T -> bool)
    requires forall i :: 0 <= i < |s| ==> !p(s[i])
    ensures Keep(s, p) == []
  {
    if |Keep(s, p)| > 0 {
      var k :| 0 <= k < |s| && s[k] == Keep(s, p)[0];
    }
  }

  /** `Keep` of one element in front. */
  lemma KeepCons<T>(x: T, s: seq<T>, p: T -> bool)
    ensures Keep([x] + s, p) == (if p(x) then [x] else []) + Keep(s, p)
  {
    assert ([x] + s)[1..] == s;
  }

  /** What `InsertKeep` asks of the list `s` before the insertion point of `y`. */
  ghost predicate TiesBelow<T>(s: seq<T>, y: T, le: (T, T) -> bool, p: T -> bool) {
    p(y) ==> forall i, j :: 0 <= j <= i < |s| && p(s[i]) ==> le(s[j], y)
  }

  lemma TiesBelowTail<T>(s: seq<T>, y: T, le: (T, T) -> bool, p: T -> bool)
    requires |s| > 0 && TiesBelow(s, y, le, p)
    ensures TiesBelow(s[1..], y, le, p)
  {
    var t := s[1..];
    if p(y) {
      forall i, j | 0 <= j <= i < |t| && p(t[i]) ensures le(t[j], y) {
        assert t[i] == s[i + 1] && t[j] == s[j + 1];
      }
    }
  }

  /** Putting the same element in front of two lists keeps what `Keep` adds to the second. */
  lemma KeepFront<T>(x: T, u: seq<T>, t: seq<T>, p: T -> bool, extra: seq<T>)
    requires Keep(u, p) == Keep(t, p) + extra
    ensures Keep([x] + u, p) == Keep([x] + t, p) + extra
  {
    assert ([x] + u)[1..] == u;
    assert ([x] + t)[1..] == t;
    if p(x) {
      assert [x] + (Keep(t, p) + extra) == ([x] + Keep(t, p)) + extra;
    }
  }

  /** Passing over a leading element not above `y` keeps it in front on both sides. */
  lemma InsertKeepFront<T>(s: seq<T>, y: T, le: (T, T) -> bool, p: T -> bool, extra: seq<T>)
    requires |s| > 0 && le(s[0], y)
    requires Keep(Insert(s[1..], y, le), p) == Keep(s[1..], p) + extra
    ensures Keep(Insert(s, y, le), p) == Keep(s, p) + extra
  {
    var t := s[1..];
    KeepFront(s[0], Insert(t, y, le), t, p, extra);
    assert s == [s[0]] + t;
  }

  /** Inserting `y` puts it after every element of its tie class `p`, provided that every
      element up to a member of the class is not above `y` (as in a sorted list). */
  lemma {:induction false} InsertKeep<T>(s: seq<T>, y: T, le: (T, T) -> bool, p: T -> bool)
    requires TiesBelow(s, y, le, p)
    ensures Keep(Insert(s, y, le), p) == Keep(s, p) + (if p(y) then [y] else [])
    decreases |s|
  {
    if |s| == 0 {
      KeepCons(y, [], p);
    } else if le(s[0], y) {
      TiesBelowTail(s, y, le, p);
      InsertKeep(s[1..], y, le, p);
      InsertKeepFront(s, y, le, p, if p(y) then [y] else []);
    } else {
      KeepCons(y, s, p);
      if p(y) {
        KeepNothing(s, p);
      }
    }
  }

  /** `Keep` of one element at the back. */
  lemma KeepSnoc<T>(s: seq<T>, x: T, p: T -> bool)
    ensures Keep(s + [x], p) == Keep(s, p) + (if p(x) then [x] else [])
  {
    KeepAppend(s, [x], p);
    KeepCons(x, [], p);
    assert [x] + [] == [x];
  }

  /** In a sorted list, every element up to a member of `y`'s tie class is not above `y`. */
  lemma TiesPrecede<T(!new)>(s: seq<T>, y: T, le: (T, T) -> bool, p: T -> bool)
    requires TotalPreorder(le) && SortedBy(s, le)
    requires forall a, b :: p(a) && p(b) ==> le(a, b)
    requires p(y)
    ensures TiesBelow(s, y, le, p)
  {
    forall i, j | 0 <= j <= i < |s| && p(s[i]) ensures le(s[j], y) {
      var a := s[j];
      var b := s[i];
      assert le(b, y);
      if j < i { assert le(a, b); } else { assert a == b; }
    }
  }

  /** The sort is stable: the elements of one tie class (a set of elements `le` holds between
      in both directions) come out in the order they went in. */
  lemma {:induction false} SortByStable<T(!new)>(s: seq<T>, le: (T, T) -> bool, p: T -> bool)
    requires TotalPreorder(le)
    requires forall a, b :: p(a) && p(b) ==> le(a, b)
    ensures Keep(SortBy(s, le), p) == Keep(s, p)
    decreases |s|
  {
    if |s| > 0 {
      var init := s[..|s| - 1];
      var last := s[|s| - 1];
      assert s == init + [last];
      assert SortBy(s, le) == Insert(SortBy(init, le), last, le);
      SortByStable(init, le, p);
      SortedTiesBelow(init, last, le, p);
      StableStep(SortBy(init, le), init, last, le, p);
    }
  }

  lemma SortedTiesBelow<T(!new)>(s: seq<T>, y: T, le: (T, T) -> bool, p: T -> bool)
    requires TotalPreorder(le)
    requires forall a, b :: p(a) && p(b) ==> le(a, b)
    ensures TiesBelow(SortBy(s, le), y, le, p)
  {
    if p(y) {
      SortBySorted(s, le);
      TiesPrecede(SortBy(s, le), y, le, p);
    }
  }

  /** One step of the sort: inserting the next element into a list that keeps the tie class
      in input order keeps it in input order. */
  lemma StableStep<T>(sorted: seq<T>, s: seq<T>, y: T, le: (T, T) -> bool, p: T -> bool)
    requires Keep(sorted, p) == Keep(s, p)
    requires TiesBelow(sorted, y, le, p)
    ensures Keep(Insert(sorted, y, le), p) == Keep(s + [y], p)
  {
    InsertKeep(sorted, y, le, p);
    KeepSnoc(s, y, p);
  }

  /** Sorting keeps exactly the elements it was given. */
  lemma SortByMembers<T>(s: seq<T>, le: (T, T) -> bool)
    ensures forall x :: x in SortBy(s, le) <==> x in s
  {
    var r := SortBy(s, le);
    forall x ensures x in r <==> x in s {
      assert x in r <==> x in multiset(r);
      assert x in s <==> x in multiset(s);
    }
  }

  /** Code-point lexicographic order on strings: the model's stand-in for `localeCompare`. */
  predicate LexLe(a: string, b: string) {
    |a| == 0 || (|b| > 0 && (a[0] < b[0] || (a[0] == b[0] && LexLe(a[1..], b[1..]))))
  }

  lemma {:induction false} LexTotal(a: string, b: string)
    ensures LexLe(a, b) || LexLe(b, a)
    decreases |a|
  {
    if |a| > 0 && |b| > 0 && a[0] == b[0] {
      LexTotal(a[1..], b[1..]);
    }
  }

  lemma {:induction false} LexTransitive(a: string, b: string, c: string)
    requires LexLe(a, b) && LexLe(b, c)
    ensures LexLe(a, c)
    decreases |a|
  {
    if |a| > 0 && a[0] == b[0] && b[0] == c[0] {
      LexTransitive(a[1..], b[1..], c[1..]);
    }
  }

  lemma LexPreorder()
    ensures TotalPreorder(LexLe)
  {
    forall a, b ensures LexLe(a, b) || LexLe(b, a) { LexTotal(a, b); }
    forall a, b, c | LexLe(a, b) && LexLe(b, c) ensures LexLe(a, c) { LexTransitive(a, b, c); }
  }

  /** Ordering records by a key inherits the key order's totality and transitivity. */
  lemma ByKeyPreorder<T(!new), K(!new)>(key: T -> K, le: (K, K) -> bool, ord: (T, T) -> bool)
    requires TotalPreorder(le)
    requires forall x, y :: ord(x, y) == le(key(x), key(y))
    ensures TotalPreorder(ord)
  {
    forall a, b ensures ord(a, b) || ord(b, a) {
      assert le(key(a), key(b)) || le(key(b), key(a));
    }
  }
}
