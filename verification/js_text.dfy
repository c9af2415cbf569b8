/** The JavaScript string and number primitives the server and client rely on:
    the `\s` character class, `trim`, ASCII lower-casing, `split`/`join`,
    `parseInt` and decimal/hexadecimal rendering. */
module JsText {
  import opened Common

  /** An optional string that JavaScript reads as truthy: present and not empty. */
  predicate Given(field: Option<string>) {
    field.Some? && field.value != ""
  }

  /** ECMAScript WhiteSpace and LineTerminator code points: what `\s` matches and `trim` removes. */
  predicate IsSpace(c: char) {
    c == ' ' || c == '\t' || c == '\n' || c == '\r' || c == '\U{000B}' || c == '\U{000C}'
    || c == '\U{00A0}' || c == '\U{1680}' || ('\U{2000}' <= c <= '\U{200A}')
    || c == '\U{2028}' || c == '\U{2029}' || c == '\U{202F}' || c == '\U{205F}'
    || c == '\U{3000}' || c == '\U{FEFF}'
  }

  /** ECMAScript LineTerminator code points: where `$` matches under the `m` flag. */
  predicate IsLineTerminator(c: char) {
    c == '\n' || c == '\r' || c == '\U{2028}' || c == '\U{2029}'
  }

  predicate IsDigit(c: char) { '0' <= c <= '9' }

  predicate IsUpperAscii(c: char) { 'A' <= c <= 'Z' }

  predicate IsLowerAscii(c: char) { 'a' <= c <= 'z' }

  /** The regular-expression word class `\w`. */
  predicate IsWordChar(c: char) { IsDigit(c) || IsUpperAscii(c) || IsLowerAscii(c) || c == '_' }

  predicate AllDigits(s: string) { forall i :: 0 <= i < |s| ==> IsDigit(s[i]) }

  predicate NoSpace(s: string) { forall i :: 0 <= i < |s| ==> !IsSpace(s[i]) }

  /** `s` is a string whose only characters are whitespace (or that is empty). */
  predicate IsBlank(s: string) { forall i :: 0 <= i < |s| ==> IsSpace(s[i]) }

  // ---------------------------------------------------------------- length

  /** A character outside the Basic Multilingual Plane: UTF-16 stores it as a surrogate pair. */
  predicate IsAstral(c: char) { c as int > 0xFFFF }

  /** The JavaScript `length` of a string: the number of its UTF-16 code units. */
  function Utf16Length(s: string): (n: nat)
    ensures |s| <= n <= 2 * |s|
    decreases |s|
  {
    if |s| == 0 then 0 else (if IsAstral(s[0]) then 2 else 1) + Utf16Length(s[1..])
  }

  /** The JavaScript length equals the number of characters exactly when none of them lies
      outside the Basic Multilingual Plane. */
  lemma {:induction false} Utf16LengthIsSize(s: string)
    ensures Utf16Length(s) == |s| <==> forall i :: 0 <= i < |s| ==> !IsAstral(s[i])
    decreases |s|
  {
    if |s| > 0 {
      Utf16LengthIsSize(s[1..]);
      assert forall i :: 1 <= i < |s| ==> s[i] == s[1..][i - 1];
    }
  }

  /** The length of a concatenation is the sum of the lengths. */
  lemma {:induction false} Utf16LengthAppend(a: string, b: string)
    ensures Utf16Length(a + b) == Utf16Length(a) + Utf16Length(b)
    decreases |a|
  {
    if |a| > 0 {
      assert (a + b)[0] == a[0] && (a + b)[1..] == a[1..] + b;
      Utf16LengthAppend(a[1..], b);
    } else {
      assert a + b == b;
    }
  }

  /** A character outside the Basic Multilingual Plane counts twice. */
  lemma AstralCountsTwice(c: char, s: string)
    requires IsAstral(c)
    ensures Utf16Length([c] + s) == Utf16Length(s) + 2
    ensures Utf16Length("\U{1F600}\U{1F600}") == 4
  {
    assert ([c] + s)[1..] == s;
    assert "\U{1F600}\U{1F600}"[1..] == "\U{1F600}";
  }

  // ---------------------------------------------------------------- trimming

  function TrimStart(s: string): (r: string)
    ensures |r| <= |s| && r == s[|s| - |r|..]
    ensures |r| > 0 ==> !IsSpace(r[0])
    ensures IsBlank(s[..|s| - |r|])
  {
    if |s| > 0 && IsSpace(s[0]) then TrimStart(s[1..]) else s
  }

  function TrimEnd(s: string): (r: string)
    ensures |r| <= |s| && r == s[..|r|]
    ensures |r| > 0 ==> !IsSpace(r[|r| - 1])
    ensures IsBlank(s[|r|..])
  {
    if |s| > 0 && IsSpace(s[|s| - 1]) then TrimEnd(s[..|s| - 1]) else s
  }

  lemma {:induction false} TrimStartEmpty(s: string)
    ensures TrimStart(s) == "" <==> IsBlank(s)
  {
    if |s| > 0 && IsSpace(s[0]) {
      TrimStartEmpty(s[1..]);
      if IsBlank(s[1..]) { assert IsBlank(s); }
      if IsBlank(s) { assert IsBlank(s[1..]); }
    }
  }

  /** `String.prototype.trim`. */
  function Trim(s: string): (r: string)
    ensures |r| <= |s|
    ensures |r| > 0 ==> !IsSpace(r[0]) && !IsSpace(r[|r| - 1])
    ensures |r| == 0 <==> IsBlank(s)
  {
    var a := TrimStart(s);
    var t := TrimEnd(a);
    TrimStartEmpty(s);
    assert |t| > 0 ==> t[0] == a[0];
    t
  }

  /** `Trim(s)` is the slice of `s` that starts after the leading whitespace. */
  lemma TrimSlice(s: string) returns (off: nat)
    ensures off + |Trim(s)| <= |s| && Trim(s) == s[off..off + |Trim(s)|]
  {
    off := |s| - |TrimStart(s)|;
  }

  /** A string that neither starts nor ends with whitespace is its own trim. */
  lemma TrimOfTrimmed(s: string)
    requires |s| > 0 ==> !IsSpace(s[0]) && !IsSpace(s[|s| - 1])
    ensures Trim(s) == s
  {
  }

  lemma TrimIdempotent(s: string)
    ensures Trim(Trim(s)) == Trim(s)
  {
    var t := Trim(s);
    assert TrimStart(t) == t;
    assert TrimEnd(t) == t;
  }

  /** Trailing whitespace does not change the trim. */
  lemma TrimBlankTail(x: string, y: string)
    requires IsBlank(y)
    ensures Trim(x + y) == Trim(x)
  {
    if IsBlank(x) {
      assert IsBlank(x + y);
    } else {
      TrimStartBlankTail(x, y);
      TrimEndBlankTail(TrimStart(x), y);
    }
  }

  lemma {:induction false} TrimStartBlankTail(x: string, y: string)
    requires !IsBlank(x)
    ensures TrimStart(x + y) == TrimStart(x) + y
    decreases |x|
  {
    if IsSpace(x[0]) {
      assert (x + y)[1..] == x[1..] + y;
      TrimStartBlankTail(x[1..], y);
    }
  }

  lemma {:induction false} TrimEndBlankTail(x: string, y: string)
    requires IsBlank(y)
    ensures TrimEnd(x + y) == TrimEnd(x)
    decreases |y|
  {
    if |y| == 0 {
      assert x + y == x;
    } else {
      assert (x + y)[..|x + y| - 1] == x + y[..|y| - 1];
      TrimEndBlankTail(x, y[..|y| - 1]);
    }
  }

  // ---------------------------------------------------------------- case

  /** ASCII-only lower-casing of one character (Unicode case mapping is not modelled). */
  function LowerChar(c: char): (r: char)
    ensures !IsUpperAscii(r)
    ensures IsUpperAscii(c) ==> r as int == c as int + 32
    ensures !IsUpperAscii(c) ==> r == c
  {
    if IsUpperAscii(c) then (c as int + 32) as char else c
  }

  function ToLower(s: string): (r: string)
    ensures |r| == |s|
    ensures forall i :: 0 <= i < |s| ==> r[i] == LowerChar(s[i])
  {
    seq(|s|, i requires 0 <= i < |s| => LowerChar(s[i]))
  }

  lemma ToLowerIdempotent(s: string)
    ensures ToLower(ToLower(s)) == ToLower(s)
  {
  }

  lemma ToLowerDistributes(a: string, b: string)
    ensures ToLower(a + b) == ToLower(a) + ToLower(b)
  {
  }

  // ---------------------------------------------------------------- search

  predicate StartsWith(s: string, p: string) { |p| <= |s| && s[..|p|] == p }

  predicate EndsWith(s: string, p: string) { |p| <= |s| && s[|s| - |p|..] == p }

  /** `p` occurs in `s` starting at position `k`. */
  predicate OccursAt(s: string, p: string, k: int) {
    0 <= k && k + |p| <= |s| && s[k..k + |p|] == p
  }

  /** `String.prototype.includes`: `p` occurs in `s` at some position. */
  predicate Includes(s: string, p: string) {
    exists k :: 0 <= k <= |s| && OccursAt(s, p, k)
  }

  lemma IncludesEmpty(s: string)
    ensures Includes(s, "")
  {
    assert OccursAt(s, "", 0);
  }

  lemma IncludesItself(s: string)
    ensures Includes(s, s)
  {
    assert OccursAt(s, s, 0);
  }

  /** `s.indexOf(p, k)`: the first position at or after `k` where `p` occurs. */
  function IndexOfFrom(s: string, p: string, k: nat): (r: Option<nat>)
    requires k <= |s|
    ensures r.Some? ==> k <= r.value <= |s| && OccursAt(s, p, r.value)
    ensures r.Some? ==> forall j :: k <= j < r.value ==> !OccursAt(s, p, j)
    ensures r.None? ==> forall j :: k <= j <= |s| ==> !OccursAt(s, p, j)
    decreases |s| - k
  {
    if OccursAt(s, p, k) then Some(k) else if k < |s| then IndexOfFrom(s, p, k + 1) else None
  }

  /** `s.replace(p, rep)` with a literal pattern and no `g` flag: only the first occurrence. */
  function ReplaceFirst(s: string, p: string, rep: string): (r: string)
    ensures !Includes(s, p) ==> r == s
    ensures Includes(s, p) ==> |r| == |s| - |p| + |rep|
  {
    var i := IndexOfFrom(s, p, 0);
    if i.Some? then s[..i.value] + rep + s[i.value + |p|..] else s
  }

  /** Removing a pattern that opens the string leaves the rest. */
  lemma ReplaceFirstAtStart(p: string, t: string)
    ensures ReplaceFirst(p + t, p, "") == t
  {
    assert OccursAt(p + t, p, 0);
    assert (p + t)[|p|..] == t;
  }

  /** Replacing a pattern that opens the string puts the replacement in its place. */
  lemma ReplacePrefix(p: string, rep: string, t: string)
    ensures ReplaceFirst(p + t, p, rep) == rep + t
  {
    assert OccursAt(p + t, p, 0);
    assert (p + t)[|p|..] == t;
  }

  /** First position of character `c` in `s`. */
  function FirstIndex(s: string, c: char): (i: nat)
    requires c in s
    ensures i < |s| && s[i] == c && c !in s[..i]
  {
    if s[0] == c then 0 else FirstIndex(s[1..], c) + 1
  }

  /** Last position of character `c` in `s`. */
  function LastIndex(s: string, c: char): (i: nat)
    requires c in s
    ensures i < |s| && s[i] == c && c !in s[i + 1..]
  {
    if s[|s| - 1] == c then |s| - 1 else LastIndex(s[..|s| - 1], c)
  }

  // ---------------------------------------------------------------- split and join

  /** `s.split(sep)` for a one-character separator. */
  function Split(s: string, sep: char): (parts: seq<string>)
    ensures |parts| >= 1
    ensures forall i :: 0 <= i < |parts| ==> sep !in parts[i]
    ensures sep !in s ==> parts == [s]
    decreases |s|
  {
    if sep !in s then [s]
    else
      var i := FirstIndex(s, sep);
      [s[..i]] + Split(s[i + 1..], sep)
  }

  /** `parts.join(sep)`. */
  function Join(parts: seq<string>, sep: string): string {
    if |parts| == 0 then "" else if |parts| == 1 then parts[0] else parts[0] + sep + Join(parts[1..], sep)
  }

  /** With a non-empty separator, a join is empty only when there is nothing, or one empty part, to join. */
  lemma JoinEmpty(parts: seq<string>, sep: string)
    requires |sep| > 0
    ensures Join(parts, sep) == "" <==> |parts| == 0 || (|parts| == 1 && parts[0] == "")
  {
    if |parts| > 1 {
      assert |Join(parts, sep)| >= |sep|;
    }
  }

  /** `parts.filter(Boolean)`: the parts that are not empty, in order. */
  function NonEmptyParts(parts: seq<string>): (r: seq<string>)
    ensures forall x :: x in r <==> x in parts && x != ""
  {
    if |parts| == 0 then []
    else
      var rest := NonEmptyParts(parts[1..]);
      assert forall x :: x in parts <==> x == parts[0] || x in parts[1..];
      if parts[0] == "" then rest else [parts[0]] + rest
  }

  lemma {:induction false} JoinSplit(s: string, sep: char)
    ensures Join(Split(s, sep), [sep]) == s
    decreases |s|
  {
    if sep in s {
      var i := FirstIndex(s, sep);
      var rest := Split(s[i + 1..], sep);
      assert Split(s, sep) == [s[..i]] + rest;
      JoinSplit(s[i + 1..], sep);
      JoinCons(s[..i], rest, [sep]);
      SliceAround(s, i);
    }
  }

  lemma SliceAround(s: string, i: nat)
    requires i < |s|
    ensures s[..i] + [s[i]] + s[i + 1..] == s
  {
  }

  lemma JoinCons(head: string, rest: seq<string>, sep: string)
    requires |rest| >= 1
    ensures Join([head] + rest, sep) == head + sep + Join(rest, sep)
  {
    assert ([head] + rest)[1..] == rest;
  }

  lemma {:induction false} SplitJoin(parts: seq<string>, sep: char)
    requires |parts| >= 1
    requires forall i :: 0 <= i < |parts| ==> sep !in parts[i]
    ensures Split(Join(parts, [sep]), sep) == parts
    decreases |parts|
  {
    if |parts| > 1 {
      var tail := Join(parts[1..], [sep]);
      SplitJoin(parts[1..], sep);
      SplitCons(parts[0], tail, sep);
      assert Join(parts, [sep]) == parts[0] + [sep] + tail;
      assert parts == [parts[0]] + parts[1..];
    }
  }

  /** Splitting a part, a separator and a tail splits off that part. */
  lemma SplitCons(head: string, tail: string, sep: char)
    requires sep !in head
    ensures Split(head + [sep] + tail, sep) == [head] + Split(tail, sep)
  {
    var s := head + [sep] + tail;
    assert s[|head|] == sep;
    assert s[..|head|] == head;
    FirstIndexUnique(s, sep, |head|);
    assert s[|head| + 1..] == tail;
  }

  lemma FirstIndexUnique(s: string, c: char, k: nat)
    requires k < |s| && s[k] == c && c !in s[..k]
    ensures FirstIndex(s, c) == k
  {
  }

  // ---------------------------------------------------------------- whitespace runs

  /** `s.replace(/\s+/g, ' ')`: every maximal whitespace run becomes one space. */
  function CollapseSpaces(s: string): (r: string)
    ensures forall i :: 0 <= i < |r| && IsSpace(r[i]) ==> r[i] == ' '
    ensures forall i :: 0 <= i < |r| - 1 ==> !(IsSpace(r[i]) && IsSpace(r[i + 1]))
    ensures |r| == 0 <==> |s| == 0
    ensures |r| > 0 ==> (IsSpace(r[0]) <==> IsSpace(s[0]))
    ensures |r| <= |s|
    ensures forall i :: 0 <= i < |r| ==> r[i] == ' ' || r[i] in s
    decreases |s|
  {
    if |s| == 0 then ""
    else if IsSpace(s[0]) then " " + CollapseSpaces(TrimStart(s))
    else [s[0]] + CollapseSpaces(s[1..])
  }

  /** No run of two whitespace characters and no whitespace other than the plain space. */
  predicate SingleSpaced(s: string) {
    (forall i :: 0 <= i < |s| && IsSpace(s[i]) ==> s[i] == ' ')
    && (forall i :: 0 <= i < |s| - 1 ==> !(IsSpace(s[i]) && IsSpace(s[i + 1])))
  }

  lemma {:induction false} CollapseSingleSpaced(s: string)
    requires SingleSpaced(s)
    ensures CollapseSpaces(s) == s
    decreases |s|
  {
    if |s| > 0 {
      var t := s[1..];
      SingleSpacedTail(s);
      CollapseSingleSpaced(t);
      if IsSpace(s[0]) {
        TrimStartOfSingle(s);
        assert s == " " + t;
      } else {
        assert s == [s[0]] + t;
      }
    }
  }

  lemma SingleSpacedTail(s: string)
    requires SingleSpaced(s) && |s| > 0
    ensures SingleSpaced(s[1..])
  {
    var t := s[1..];
    forall i | 0 <= i < |t| && IsSpace(t[i]) ensures t[i] == ' ' {
      assert t[i] == s[i + 1];
    }
    forall i | 0 <= i < |t| - 1 ensures !(IsSpace(t[i]) && IsSpace(t[i + 1])) {
      assert t[i] == s[i + 1] && t[i + 1] == s[i + 2];
    }
  }

  lemma TrimStartOfSingle(s: string)
    requires SingleSpaced(s) && |s| > 0 && IsSpace(s[0])
    ensures TrimStart(s) == s[1..]
  {
    if |s| > 1 {
      assert !IsSpace(s[1]);
      assert TrimStart(s[1..]) == s[1..];
    }
  }

  // ---------------------------------------------------------------- decimal numbers

  function DigitChar(d: nat): (c: char)
    requires d < 10
    ensures IsDigit(c) && c as int - '0' as int == d
  {
    ('0' as int + d) as char
  }

  function DigitValue(c: char): (d: nat)
    requires IsDigit(c)
    ensures d < 10 && DigitChar(d) == c
  {
    c as int - '0' as int
  }

  /** `String(n)` for a non-negative integer. */
  function NatToString(n: nat): (r: string)
    ensures |r| >= 1 && AllDigits(r)
    ensures |r| > 1 ==> r[0] != '0'
    decreases n
  {
    if n < 10 then [DigitChar(n)] else NatToString(n / 10) + [DigitChar(n % 10)]
  }

  /** `String(i)` for any integer. */
  function IntToString(i: int): (r: string)
    ensures |r| >= 1
  {
    if i < 0 then "-" + NatToString(-i) else NatToString(i)
  }

  lemma DigitNotSpace(c: char)
    requires IsDigit(c)
    ensures !IsSpace(c)
  {
  }

  /** The value of a decimal digit string. */
  function DigitsValue(s: string): nat
    requires AllDigits(s)
  {
    if |s| == 0 then 0 else DigitsValue(s[..|s| - 1]) * 10 + DigitValue(s[|s| - 1])
  }

  lemma {:induction false} DigitsValueOfNatToString(n: nat)
    ensures DigitsValue(NatToString(n)) == n
    decreases n
  {
    if n >= 10 {
      var r := NatToString(n);
      DigitsValueOfNatToString(n / 10);
      assert r[..|r| - 1] == NatToString(n / 10);
    }
  }

  /** The longest prefix of digits of `s`. */
  function DigitPrefix(s: string): (d: string)
    ensures AllDigits(d) && StartsWith(s, d)
    ensures |d| < |s| ==> !IsDigit(s[|d|])
  {
    if |s| > 0 && IsDigit(s[0]) then [s[0]] + DigitPrefix(s[1..]) else ""
  }

  /** `parseInt(s, 10)`: leading whitespace, an optional sign, then the
      longest run of decimal digits. `None` stands for `NaN` (no digit after the sign). */
  function ParseInt(s: string): (r: Option<int>)
    ensures r.Some? <==> |DigitPrefix(AfterSign(TrimStart(s)))| > 0
  {
    var t := TrimStart(s);
    var d := DigitPrefix(AfterSign(t));
    if |d| == 0 then None
    else if |t| > 0 && t[0] == '-' then Some(0 - DigitsValue(d))
    else Some(DigitsValue(d))
  }

  function AfterSign(t: string): string {
    if |t| > 0 && (t[0] == '-' || t[0] == '+') then t[1..] else t
  }

  lemma DigitPrefixOfDigits(s: string, rest: string)
    requires AllDigits(s)
    requires |rest| > 0 ==> !IsDigit(rest[0])
    ensures DigitPrefix(s + rest) == s
    decreases |s|
  {
    if |s| > 0 {
      assert (s + rest)[1..] == s[1..] + rest;
      DigitPrefixOfDigits(s[1..], rest);
    }
  }

  /** `parseInt(String(n) + rest, 10)` reads back `n` whenever `rest` does not continue the digits. */
  lemma ParseIntOfNatToString(n: nat, rest: string)
    requires |rest| > 0 ==> !IsDigit(rest[0])
    ensures ParseInt(NatToString(n) + rest) == Some(n)
  {
    var s := NatToString(n) + rest;
    DigitNotSpace(s[0]);
    assert TrimStart(s) == s;
    assert AfterSign(s) == s;
    DigitPrefixOfDigits(NatToString(n), rest);
    DigitsValueOfNatToString(n);
  }

  /** `String(n).padStart(2, '0')`. */
  function PadStart2(s: string): (r: string)
    ensures |s| >= 2 ==> r == s
    ensures |s| < 2 ==> |r| == 2 && EndsWith(r, s) && forall i :: 0 <= i < 2 - |s| ==> r[i] == '0'
  {
    if |s| >= 2 then s else if |s| == 1 then "0" + s else "00"
  }

  // ---------------------------------------------------------------- hexadecimal

  predicate IsHexDigit(c: char) { IsDigit(c) || ('a' <= c <= 'f') || ('A' <= c <= 'F') }

  function HexValue(c: char): (v: nat)
    requires IsHexDigit(c)
    ensures v < 16
  {
    if IsDigit(c) then c as int - '0' as int
    else if 'a' <= c <= 'f' then c as int - 'a' as int + 10
    else c as int - 'A' as int + 10
  }

  /** Lower-case hexadecimal digit for `0 <= v < 16`, as `Number.prototype.toString(16)` writes it. */
  function HexChar(v: nat): (c: char)
    requires v < 16
    ensures IsHexDigit(c) && HexValue(c) == v && !IsUpperAscii(c)
  {
    if v < 10 then ('0' as int + v) as char else ('a' as int + v - 10) as char
  }

  lemma HexCharOfValue(c: char)
    requires IsHexDigit(c)
    ensures HexChar(HexValue(c)) == LowerChar(c)
  {
  }

  /** Longest prefix of hexadecimal digits. */
  function HexPrefix(s: string): (d: string)
    ensures StartsWith(s, d) && forall i :: 0 <= i < |d| ==> IsHexDigit(d[i])
    ensures |d| < |s| ==> !IsHexDigit(s[|d|])
  {
    if |s| > 0 && IsHexDigit(s[0]) then [s[0]] + HexPrefix(s[1..]) else ""
  }

  function HexDigitsValue(s: string): nat
    requires forall i :: 0 <= i < |s| ==> IsHexDigit(s[i])
  {
    if |s| == 0 then 0 else HexDigitsValue(s[..|s| - 1]) * 16 + HexValue(s[|s| - 1])
  }

  /** A `0x` or `0X` prefix. */
  predicate HexMarked(u: string) {
    |u| >= 2 && u[0] == '0' && (u[1] == 'x' || u[1] == 'X')
  }

  /** `parseInt(s, 16)`: leading whitespace, an optional sign, an optional `0x`/`0X` prefix,
      then the longest run of hexadecimal digits; `None` stands for `NaN`. */
  function ParseIntHex(s: string): (r: Option<int>)
    ensures r.Some? ==> (r.value >= 0 || (|TrimStart(s)| > 0 && TrimStart(s)[0] == '-'))
  {
    var t := TrimStart(s);
    var u := AfterSign(t);
    var v := if HexMarked(u) then u[2..] else u;
    var d := HexPrefix(v);
    if |d| == 0 then None
    else if |t| > 0 && t[0] == '-' then Some(0 - HexDigitsValue(d))
    else Some(HexDigitsValue(d))
  }

  /** Global `parseInt(s)` without a radix: leading whitespace and an optional sign as for
      `ParseInt`, then a `0x`/`0X` prefix selects hexadecimal and anything else decimal.
      `None` stands for `NaN`; in particular `"0x"` with no hexadecimal digit after it. */
  function ParseIntAuto(s: string): (r: Option<int>)
    ensures var u := AfterSign(TrimStart(s));
      r.Some? <==> (if HexMarked(u) then |HexPrefix(u[2..])| > 0 else |DigitPrefix(u)| > 0)
    ensures !HexMarked(AfterSign(TrimStart(s))) ==> r == ParseInt(s)
  {
    if HexMarked(AfterSign(TrimStart(s))) then ParseIntHex(s) else ParseInt(s)
  }

  /** On text with a `0x` prefix, the radix-less parse is the hexadecimal one. */
  lemma ParseIntAutoHex(s: string)
    requires HexMarked(AfterSign(TrimStart(s)))
    ensures ParseIntAuto(s) == ParseIntHex(s)
  {
  }

  /** `0x1A` is 26 without a radix, where the decimal reading stops at the `x`. */
  lemma ParseIntAutoReadsHex()
    ensures ParseIntAuto("0x1A") == Some(26) && ParseInt("0x1A") == Some(0)
  {
    var s := "0x1A";
    Unpadded(s);
    assert s[2..] == "1A";
    HexDigitsOf("1A", 26);
    assert DigitPrefix(s) == "0";
  }

  /** Text that opens with a digit or `-` has no whitespace and no sign to skip, or only the sign. */
  lemma Unpadded(s: string)
    requires |s| > 0 && (IsDigit(s[0]) || s[0] == '-')
    ensures TrimStart(s) == s
    ensures AfterSign(s) == if s[0] == '-' then s[1..] else s
  {
    var c := s[0];
    assert !IsSpace(c) by {
      if IsDigit(c) { DigitNotSpace(c); }
    }
  }

  lemma HexDigitsOf(d: string, v: nat)
    requires (d == "1A" && v == 26) || (d == "10" && v == 16)
    ensures HexPrefix(d) == d && HexDigitsValue(d) == v
  {
    assert d[1..][1..] == "";
    assert HexPrefix(d[1..]) == d[1..];
    assert d == [d[0]] + d[1..];
    var hi := d[..1];
    assert hi == [d[0]] && hi[..0] == "";
    assert HexDigitsValue(hi) == HexValue(d[0]);
  }

  /** A bare `0x` is `NaN` without a radix, where the decimal reading gives 0. */
  lemma ParseIntAutoBarePrefix()
    ensures ParseIntAuto("0x") == None && ParseInt("0x") == Some(0)
  {
    var s := "0x";
    Unpadded(s);
    assert s[2..] == "";
    assert DigitPrefix(s) == "0";
  }

  /** The sign comes before the prefix: `-0X10` is -16. */
  lemma ParseIntAutoSignedHex()
    ensures ParseIntAuto("-0X10") == Some(-16)
  {
    var s := "-0X10";
    Unpadded(s);
    assert s[1..] == "0X10";
    assert "0X10"[2..] == "10";
    HexDigitsOf("10", 16);
  }

  lemma NatTextUnmarked(n: nat, rest: string)
    requires |rest| > 0 ==> !IsDigit(rest[0]) && rest[0] != 'x' && rest[0] != 'X'
    ensures AfterSign(TrimStart(NatToString(n) + rest)) == NatToString(n) + rest
    ensures !HexMarked(NatToString(n) + rest)
  {
    var d := NatToString(n);
    var s := d + rest;
    assert s[0] == d[0];
    Unpadded(s);
    if |s| >= 2 {
      if |d| > 1 {
        assert s[1] == d[1];
        assert IsDigit(d[1]);
      } else {
        assert s[1] == rest[0];
      }
    }
  }

  /** `parseInt(String(n) + rest)` without a radix reads back `n` whenever `rest` neither
      continues the digits nor turns a leading `0` into a `0x` prefix. */
  lemma ParseIntAutoOfNatToString(n: nat, rest: string)
    requires |rest| > 0 ==> !IsDigit(rest[0]) && rest[0] != 'x' && rest[0] != 'X'
    ensures ParseIntAuto(NatToString(n) + rest) == Some(n)
  {
    NatTextUnmarked(n, rest);
    ParseIntOfNatToString(n, rest);
  }
}
