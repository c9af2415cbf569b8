/** Failure-compatible wrappers shared by every module of the model. */
module Common {

  /** A value that may be absent: JavaScript's `null`/`undefined`. */
  datatype Option<+T> = None | Some(value: T) {

    /** The wrapped value, or `default` when absent (JavaScript's `x ?? default`). */
    function GetOr(default: T): T {
      match this
      case Some(v) => v
      case None => default
    }
  }

  /** A parsed JSON value; numbers are integers. */
  datatype Json = JNull | JBool(b: bool) | JNumber(n: int) | JString(s: string)
                | JArray(items: seq<Json>) | JObject(fields: map<string, Json>)

  /** No element occurs twice. */
  predicate NoDuplicates<T(==)>(s: seq<T>) {
    forall i, j :: 0 <= i < j < |s| ==> s[i] != s[j]
  }

  /** The elements of `s` that satisfy `p`, in order: `Array.prototype.filter`. */
  function Keep<T>(s: seq<T>, p: T -> bool): (r: seq<T>)
    ensures |r| <= |s|
    ensures forall i :: 0 <= i < |r| ==> r[i] in s && p(r[i])
    ensures forall i :: 0 <= i < |s| && p(s[i]) ==> s[i] in r
  {
    if |s| == 0 then []
    else if p(s[0]) then [s[0]] + Keep(s[1..], p)
    else Keep(s[1..], p)
  }

  /** Keeping a subsequence keeps every relation that held between earlier and later elements. */
  lemma {:induction false} KeepOrdered<T(!new)>(s: seq<T>, p: T -> bool, rel: (T, T) -> bool)
    requires forall i, j :: 0 <= i < j < |s| ==> rel(s[i], s[j])
    ensures forall i, j :: 0 <= i < j < |Keep(s, p)| ==> rel(Keep(s, p)[i], Keep(s, p)[j])
    decreases |s|
  {
    if |s| > 0 {
      var t := s[1..];
      var rest := Keep(t, p);
      forall i, j | 0 <= i < j < |t| ensures rel(t[i], t[j]) {
        assert t[i] == s[i + 1] && t[j] == s[j + 1];
      }
      KeepOrdered(t, p, rel);
      assert forall i, j :: 0 <= i < j < |rest| ==> rel(rest[i], rest[j]);
      if p(s[0]) {
        assert Keep(s, p) == [s[0]] + rest;
        forall j | 0 <= j < |rest| ensures rel(s[0], rest[j]) {
          assert rest[j] in t;
          var k :| 0 <= k < |t| && t[k] == rest[j];
          assert s[k + 1] == rest[j];
          assert rel(s[0], s[k + 1]);
        }
        ConsOrdered(s[0], rest, rel);
      } else {
        assert Keep(s, p) == rest;
      }
    }
  }

  lemma ConsOrdered<T>(x: T, s: seq<T>, rel: (T, T) -> bool)
    requires forall i, j :: 0 <= i < j < |s| ==> rel(s[i], s[j])
    requires forall j :: 0 <= j < |s| ==> rel(x, s[j])
    ensures var r := [x] + s; forall i, j :: 0 <= i < j < |r| ==> rel(r[i], r[j])
  {
    var r := [x] + s;
    forall i, j | 0 <= i < j < |r| ensures rel(r[i], r[j]) {
      assert r[j] == s[j - 1];
      if i > 0 { assert r[i] == s[i - 1]; }
    }
  }

  lemma {:induction false} KeepAppend<T>(a: seq<T>, b: seq<T>, p: T -> bool)
    ensures Keep(a + b, p) == Keep(a, p) + Keep(b, p)
    decreases |a|
  {
    if |a| == 0 {
      assert a + b == b;
    } else {
      assert (a + b)[0] == a[0] && (a + b)[1..] == a[1..] + b;
      KeepAppend(a[1..], b, p);
    }
  }

  /** Nothing is kept when no element passes. */
  lemma {:induction false} KeepNone<T>(s: seq<T>, p: T -> bool)
    requires forall i :: 0 <= i < |s| ==> !p(s[i])
    ensures Keep(s, p) == []
    decreases |s|
  {
    if |s| > 0 {
      KeepNone(s[1..], p);
    }
  }

  /** Keeping some elements of a list without repeats repeats none. */
  lemma {:induction false} KeepNoDuplicates<T>(s: seq<T>, p: T -> bool)
    requires NoDuplicates(s)
    ensures NoDuplicates(Keep(s, p))
    decreases |s|
  {
    if |s| > 0 {
      KeepNoDuplicates(s[1..], p);
      var rest := Keep(s[1..], p);
      forall i | 0 <= i < |rest| ensures rest[i] != s[0] {
        var j :| 0 <= j < |s[1..]| && s[1..][j] == rest[i];
        assert s[j + 1] == rest[i];
      }
    }
  }

  /** In a list without repeats every element occurs exactly once. */
  lemma {:induction false} NoDuplicatesOnce<T>(s: seq<T>, x: T)
    requires NoDuplicates(s)
    ensures multiset(s)[x] == if x in s then 1 else 0
    decreases |s|
  {
    if |s| > 0 {
      assert s == [s[0]] + s[1..];
      NoDuplicatesOnce(s[1..], x);
      if x == s[0] {
        assert x !in s[1..] by {
          forall j | 0 <= j < |s[1..]| ensures s[1..][j] != x { assert s[1..][j] == s[j + 1]; }
        }
      }
    }
  }

  /** Filters that agree on every element keep the same elements. */
  lemma {:induction false} KeepSame<T>(s: seq<T>, p: T -> bool, q: T -> bool)
    requires forall i :: 0 <= i < |s| ==> p(s[i]) == q(s[i])
    ensures Keep(s, p) == Keep(s, q)
    decreases |s|
  {
    if |s| > 0 {
      KeepSame(s[1..], p, q);
    }
  }

  /** Keeping everything keeps the list. */
  lemma {:induction false} KeepAll<T>(s: seq<T>)
    ensures Keep(s, (x: T) => true) == s
    decreases |s|
  {
    if |s| > 0 {
      KeepAll(s[1..]);
    }
  }
}
