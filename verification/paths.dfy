/** Node's POSIX `path` functions as the server uses them: `basename`, `extname`,
    `dirname` and `join` of a directory with one entry name. Paths are assumed to be
    normalised (no `.`/`..` segments, no doubled separators); `path.resolve` is a
    parameter where it matters. */
module Paths {
  import opened JsText

  const Sep: char := '/'

  /** `p` without its trailing separators. */
  function StripTrailingSeps(p: string): (r: string)
    ensures |r| <= |p| && r == p[..|r|]
    ensures |r| > 0 ==> r[|r| - 1] != Sep
    ensures forall i :: |r| <= i < |p| ==> p[i] == Sep
  {
    if |p| > 0 && p[|p| - 1] == Sep then StripTrailingSeps(p[..|p| - 1]) else p
  }

  /** `path.basename(p)`: the last path component. */
  function BaseName(p: string): (b: string)
    ensures Sep !in b
  {
    AfterLastSep(StripTrailingSeps(p))
  }

  /** What follows the last separator, or all of `q` when it has none. */
  function AfterLastSep(q: string): (b: string)
    ensures Sep !in b
  {
    if Sep in q then q[LastIndex(q, Sep) + 1..] else q
  }

  /** The extension rule of `path.extname` applied to one component: from the last dot,
      unless there is none, it is the first character, or the component is `..`. */
  function ExtOfBase(b: string): (e: string)
    ensures e == "" || (e[0] == '.' && EndsWith(b, e) && |e| < |b|)
    ensures e == "" || '.' !in e[1..]
  {
    if '.' !in b then ""
    else
      var d := LastIndex(b, '.');
      if d == 0 || b == ".." then ""
      else
        assert b[d..][1..] == b[d + 1..];
        b[d..]
  }

  /** `path.extname(p)`. */
  function ExtName(p: string): (e: string)
    ensures e == "" || (e[0] == '.' && EndsWith(BaseName(p), e) && |e| < |BaseName(p)|)
    ensures e == "" || '.' !in e[1..]
    ensures Sep !in e
  {
    var b := BaseName(p);
    var e := ExtOfBase(b);
    assert e == "" || e == b[|b| - |e|..];
    e
  }

  /** `path.basename(p, path.extname(p))`: the last component without its extension. */
  function Stem(p: string): (s: string)
    ensures s + ExtName(p) == BaseName(p)
  {
    var b := BaseName(p);
    var e := ExtName(p);
    SplitAtSuffix(b, e);
    b[..|b| - |e|]
  }

  lemma SplitAtSuffix(b: string, e: string)
    requires e == "" || EndsWith(b, e)
    ensures |e| <= |b| && b[..|b| - |e|] + e == b
  {
    if e != "" {
      assert b[|b| - |e|..] == e;
    }
  }

  /** `path.dirname(p)` for a normalised path without a trailing separator. */
  function DirName(p: string): (d: string)
    ensures d == "." || d == "/" || (Sep in p && StartsWith(p, d) && |d| < |p|)
  {
    if Sep !in p then "."
    else
      var i := LastIndex(p, Sep);
      if i == 0 then "/" else p[..i]
  }

  /** `path.join(dir, name)` for a normalised directory and a single entry name. */
  function Join(dir: string, name: string): (p: string)
    ensures EndsWith(p, name)
  {
    if dir == "" then name
    else if dir[|dir| - 1] == Sep then dir + name
    else dir + [Sep] + name
  }

  /** A normalised directory: non-empty and, unless it is the root, without a trailing separator. */
  predicate NormalDir(dir: string) {
    dir == "/" || (|dir| > 0 && dir[|dir| - 1] != Sep)
  }

  /** The directory listing entry joined to its directory comes back out of `basename` and `dirname`. */
  lemma JoinSplits(dir: string, name: string)
    requires NormalDir(dir)
    requires |name| > 0 && Sep !in name
    ensures BaseName(Join(dir, name)) == name
    ensures DirName(Join(dir, name)) == dir
  {
    var p := Join(dir, name);
    var k := |p| - |name| - 1;
    JoinShape(dir, name);
    assert p[|p| - 1] == name[|name| - 1];
    assert StripTrailingSeps(p) == p;
    LastIndexUnique(p, Sep, k);
  }

  lemma JoinShape(dir: string, name: string)
    requires NormalDir(dir)
    requires |name| > 0
    ensures var p := Join(dir, name); var k := |p| - |name| - 1;
      0 <= k && p[k] == Sep && p[k + 1..] == name && (dir == "/" ==> k == 0) && (dir != "/" ==> p[..k] == dir)
  {
    if dir == "/" {
      assert Join(dir, name) == "/" + name;
    } else {
      assert Join(dir, name) == dir + "/" + name;
    }
  }

  lemma LastIndexUnique(s: string, c: char, k: nat)
    requires k < |s| && s[k] == c && c !in s[k + 1..]
    ensures LastIndex(s, c) == k
  {
  }

  // ------------------------------------------------------------------ case

  /** Lower-casing touches neither separators nor dots, so it commutes with `extname`. */
  lemma ExtNameOfLower(p: string)
    ensures ExtName(ToLower(p)) == ToLower(ExtName(p))
  {
    BaseNameOfLower(p);
    ExtOfBaseOfLower(BaseName(p));
  }

  lemma BaseNameOfLower(p: string)
    ensures BaseName(ToLower(p)) == ToLower(BaseName(p))
  {
    StripOfLower(p);
    AfterLastOfLower(StripTrailingSeps(p));
  }

  lemma AfterLastOfLower(q: string)
    ensures AfterLastSep(ToLower(q)) == ToLower(AfterLastSep(q))
  {
    if Sep in q {
      AfterLastOfLowerSep(q);
    } else {
      assert Sep !in ToLower(q) by { LowerKeeps(q, Sep); }
    }
  }

  lemma AfterLastOfLowerSep(q: string)
    requires Sep in q
    ensures AfterLastSep(ToLower(q)) == ToLower(AfterLastSep(q))
  {
    var k := LastIndex(q, Sep);
    LastIndexOfLower(q, Sep);
    LowerSlice(q, k + 1, |q|);
  }

  lemma ExtOfBaseOfLower(b: string)
    ensures ExtOfBase(ToLower(b)) == ToLower(ExtOfBase(b))
  {
    var lb := ToLower(b);
    assert '.' in lb <==> '.' in b by {
      LowerKeeps(b, '.');
    }
    if '.' in b {
      var d := LastIndex(b, '.');
      assert LastIndex(lb, '.') == d by {
        LastIndexOfLower(b, '.');
      }
      LowerDotDot(b);
      if d == 0 || b == ".." {
        assert ExtOfBase(b) == "";
        assert ExtOfBase(lb) == "";
      } else {
        assert ExtOfBase(b) == b[d..];
        assert ExtOfBase(lb) == lb[d..];
        LowerSlice(b, d, |b|);
      }
    } else {
      assert ExtOfBase(b) == "";
    }
  }

  lemma LowerDotDot(b: string)
    ensures ToLower(b) == ".." <==> b == ".."
  {
    if ToLower(b) == ".." {
      assert b[0] == '.' && b[1] == '.';
    }
  }

  lemma LowerSlice(s: string, i: nat, j: nat)
    requires i <= j <= |s|
    ensures ToLower(s)[i..j] == ToLower(s[i..j])
  {
  }

  /** For a character that is not a lower-case letter, lower-casing neither creates nor removes it. */
  lemma LowerKeeps(s: string, c: char)
    requires !IsLowerAscii(c) && !IsUpperAscii(c)
    ensures c in ToLower(s) <==> c in s
  {
    if c in ToLower(s) {
      var i :| 0 <= i < |s| && ToLower(s)[i] == c;
      assert s[i] == c;
    }
    if c in s {
      var i :| 0 <= i < |s| && s[i] == c;
      assert ToLower(s)[i] == c;
    }
  }

  lemma {:induction false} LastIndexOfLower(s: string, c: char)
    requires !IsLowerAscii(c) && !IsUpperAscii(c) && c in s
    ensures c in ToLower(s) && LastIndex(ToLower(s), c) == LastIndex(s, c)
    decreases |s|
  {
    LowerKeeps(s, c);
    if s[|s| - 1] != c {
      LowerSlice(s, 0, |s| - 1);
      LastIndexOfLower(s[..|s| - 1], c);
    }
  }

  lemma {:induction false} StripOfLower(p: string)
    ensures StripTrailingSeps(ToLower(p)) == ToLower(StripTrailingSeps(p))
    decreases |p|
  {
    if |p| > 0 {
      LowerSlice(p, 0, |p| - 1);
      if p[|p| - 1] == Sep {
        StripOfLower(p[..|p| - 1]);
      }
    }
  }
}
