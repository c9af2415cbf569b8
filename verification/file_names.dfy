/** The movie and episode file-name parsers of the server's file utilities. Each regular
    expression is modelled by the positions at which it can match and a leftmost search over
    them, following JavaScript's backtracking order (lazy groups try the shortest text first,
    greedy ones the longest). None of the expressions has the `m` flag, so `^` and `$` are the
    ends of the input and `.` stops at a line terminator. */
module FileNames {
  import opened Common
  import opened JsText
  import Paths
  import opened FileUtils

  // ------------------------------------------------------------------ matching primitives

  /** No line terminator among `s[a..b]`: `.` can cross that text. */
  predicate NoLineBreak(s: string, a: nat, b: nat) {
    forall i :: a <= i < b && i < |s| ==> !IsLineTerminator(s[i])
  }

  /** The end of the maximal run of characters satisfying `p` that starts at `i`: what a
      greedy `[...]*` reaches. */
  function RunEnd(s: string, i: nat, p: char -> bool): (m: nat)
    requires i <= |s|
    ensures i <= m <= |s|
    ensures forall k :: i <= k < m ==> p(s[k])
    ensures m < |s| ==> !p(s[m])
    decreases |s| - i
  {
    if i < |s| && p(s[i]) then RunEnd(s, i + 1, p) else i
  }

  /** The first position `j >= e` at which `at` holds. With `dotted`, the positions are only
      those a `.`-loop from the start of `s` can reach, so the search stops at a line
      terminator. */
  function Leftmost(s: string, e: nat, at: nat -> bool, dotted: bool): (r: Option<nat>)
    requires e <= |s| && (dotted ==> NoLineBreak(s, 0, e))
    ensures r.Some? ==> e <= r.value <= |s| && at(r.value)
    ensures r.Some? && dotted ==> NoLineBreak(s, 0, r.value)
    ensures r.Some? ==> forall j :: e <= j < r.value ==> !at(j)
    ensures r.None? ==> forall j :: e <= j <= |s| && (dotted ==> NoLineBreak(s, 0, j)) ==> !at(j)
    decreases |s| - e
  {
    if at(e) then Some(e)
    else if e < |s| && !(dotted && IsLineTerminator(s[e])) then Leftmost(s, e + 1, at, dotted)
    else None
  }

  // ------------------------------------------------------------------ years

  predicate FourDigitsAt(s: string, i: nat) {
    i + 4 <= |s| && IsDigit(s[i]) && IsDigit(s[i + 1]) && IsDigit(s[i + 2]) && IsDigit(s[i + 3])
  }

  /** `(?:19|20)\d{2}` at `i`. */
  predicate CenturyYearAt(s: string, i: nat) {
    FourDigitsAt(s, i) && ((s[i] == '1' && s[i + 1] == '9') || (s[i] == '2' && s[i + 1] == '0'))
  }

  /** `parseInt` of the four digits at `i`. */
  function YearValue(s: string, i: nat): (y: nat)
    requires FourDigitsAt(s, i)
    ensures y < 10000
    ensures CenturyYearAt(s, i) ==> 1900 <= y <= 2099
  {
    DigitValue(s[i]) * 1000 + DigitValue(s[i + 1]) * 100 + DigitValue(s[i + 2]) * 10 + DigitValue(s[i + 3])
  }

  /** The year window every strategy applies: from 1900 up to next year. */
  predicate Plausible(year: int, currentYear: int) {
    1900 <= year <= currentYear + 1
  }

  // ------------------------------------------------------------------ movie strategies

  /** Strategy 1, `^(.+?)\s*\((\d{4})\)`, after its lazy title ends at `e`: the whitespace run
      from `e`, then a parenthesised four-digit number. A shorter whitespace run would leave a
      whitespace character where the `(` must be, so only the maximal run can succeed. */
  predicate ParenYearAt(s: string, e: nat) {
    e <= |s|
    && var m := RunEnd(s, e, IsSpace);
       m + 6 <= |s| && s[m] == '(' && FourDigitsAt(s, m + 1) && s[m + 5] == ')'
  }

  function ParenDigits(s: string, e: nat): (i: nat)
    requires ParenYearAt(s, e)
    ensures FourDigitsAt(s, i)
  {
    RunEnd(s, e, IsSpace) + 1
  }

  /** Where strategy 1's title ends, if it matches: the smallest non-empty title on the first
      line. */
  function ParenMatch(s: string): (r: Option<nat>)
    ensures r.Some? ==> 1 <= r.value <= |s| && ParenYearAt(s, r.value) && NoLineBreak(s, 0, r.value)
    ensures r.Some? ==> forall j :: 1 <= j < r.value ==> !ParenYearAt(s, j)
    ensures r.None? ==> forall j :: 1 <= j <= |s| && NoLineBreak(s, 0, j) ==> !ParenYearAt(s, j)
  {
    if |s| > 0 && !IsLineTerminator(s[0]) then
      var at := (j: nat) => ParenYearAt(s, j);
      assert forall j: nat :: at(j) == ParenYearAt(s, j);
      Leftmost(s, 1, at, true)
    else None
  }

  /** Strategy 2, `\s((?:19|20)\d{2})\s`, matching at `k`. */
  predicate SpacedYearAt(s: string, k: nat) {
    k + 6 <= |s| && IsSpace(s[k]) && CenturyYearAt(s, k + 1) && IsSpace(s[k + 5])
  }

  function SpacedMatch(s: string): (r: Option<nat>)
    ensures r.Some? ==> SpacedYearAt(s, r.value) && forall j :: 0 <= j < r.value ==> !SpacedYearAt(s, j)
    ensures r.None? ==> forall j :: 0 <= j <= |s| ==> !SpacedYearAt(s, j)
  {
    var at := (k: nat) => SpacedYearAt(s, k);
    assert forall k: nat :: at(k) == SpacedYearAt(s, k);
    Leftmost(s, 0, at, false)
  }

  /** Strategy 3, `^(.*?)\b((?:19|20)\d{2})\b`, after its lazy prefix ends at `e`: a year with
      a word boundary on both sides. */
  predicate WordYearAt(s: string, e: nat) {
    e + 4 <= |s| && (e == 0 || !IsWordChar(s[e - 1])) && CenturyYearAt(s, e)
    && (e + 4 == |s| || !IsWordChar(s[e + 4]))
  }

  function WordMatch(s: string): (r: Option<nat>)
    ensures r.Some? ==> WordYearAt(s, r.value) && NoLineBreak(s, 0, r.value)
    ensures r.Some? ==> forall j :: 0 <= j < r.value ==> !WordYearAt(s, j)
    ensures r.None? ==> forall j :: 0 <= j <= |s| && NoLineBreak(s, 0, j) ==> !WordYearAt(s, j)
  {
    var at := (e: nat) => WordYearAt(s, e);
    assert forall e: nat :: at(e) == WordYearAt(s, e);
    Leftmost(s, 0, at, true)
  }

  // ------------------------------------------------------------------ parseMovieFilename

  datatype ParsedMovie = ParsedMovie(title: string, titleAfterYear: Option<string>, year: Option<int>)

  /** The file's base name without extension, dots and underscores turned into spaces. */
  function Normalised(filename: string): string {
    DotsToSpaces(Paths.Stem(filename))
  }

  /** `parseMovieFilename`: the first strategy that finds a plausible year decides; the junk
      stripper used when none does is a parameter. */
  function ParseMovie(filename: string, currentYear: int, stripJunk: string -> string): (r: ParsedMovie)
    ensures r.year.Some? ==> Plausible(r.year.value, currentYear)
    ensures r.year.None? ==> r.titleAfterYear.None?
    ensures Finalised(r.title)
    ensures r.titleAfterYear.Some? ==> Utf16Length(r.titleAfterYear.value) >= 4 && Finalised(r.titleAfterYear.value)
  {
    ParseNormalised(Normalised(filename), currentYear, stripJunk)
  }

  function ParseNormalised(n: string, currentYear: int, stripJunk: string -> string): (r: ParsedMovie)
    ensures r.year.Some? ==> Plausible(r.year.value, currentYear)
    ensures r.year.None? ==> r.titleAfterYear.None?
    ensures Finalised(r.title)
    ensures r.titleAfterYear.Some? ==> Utf16Length(r.titleAfterYear.value) >= 4 && Finalised(r.titleAfterYear.value)
  {
    var s1 := ParenStrategy(n, currentYear);
    var s2 := SpacedStrategy(n, currentYear, stripJunk);
    var s3 := WordStrategy(n, currentYear, stripJunk);
    if s1.Some? then s1.value
    else if s2.Some? then s2.value
    else if s3.Some? then s3.value
    else ParsedMovie(Finalise(stripJunk(n)), None, None)
  }

  /** The result shape every year strategy guarantees. */
  predicate YearResult(r: ParsedMovie, currentYear: int) {
    r.year.Some? && Plausible(r.year.value, currentYear) && Finalised(r.title)
    && (r.titleAfterYear.Some? ==> Utf16Length(r.titleAfterYear.value) >= 4 && Finalised(r.titleAfterYear.value))
  }

  /** Strategy 1 matches and its year is plausible. */
  predicate ParenFinds(n: string, currentYear: int) {
    ParenMatch(n).Some? && Plausible(YearValue(n, ParenDigits(n, ParenMatch(n).value)), currentYear)
  }

  /** Strategy 2 matches and its year is plausible. */
  predicate SpacedFinds(n: string, currentYear: int) {
    SpacedMatch(n).Some? && Plausible(YearValue(n, SpacedMatch(n).value + 1), currentYear)
  }

  /** Strategy 3 matches and its year is plausible. */
  predicate WordFinds(n: string, currentYear: int) {
    WordMatch(n).Some? && Plausible(YearValue(n, WordMatch(n).value), currentYear)
  }

  function ParenStrategy(n: string, currentYear: int): (r: Option<ParsedMovie>)
    ensures r.Some? <==> ParenFinds(n, currentYear)
    ensures r.Some? ==> YearResult(r.value, currentYear) && r.value.titleAfterYear.None?
    ensures r.Some? ==> r.value.title == Finalise(n[..ParenMatch(n).value])
  {
    var paren := ParenMatch(n);
    if paren.Some? && Plausible(YearValue(n, ParenDigits(n, paren.value)), currentYear) then
      Some(ParsedMovie(Finalise(n[..paren.value]), None, Some(YearValue(n, ParenDigits(n, paren.value)))))
    else None
  }

  function SpacedStrategy(n: string, currentYear: int, stripJunk: string -> string): (r: Option<ParsedMovie>)
    ensures r.Some? <==> SpacedFinds(n, currentYear)
    ensures r.Some? ==> YearResult(r.value, currentYear)
  {
    var spaced := SpacedMatch(n);
    if spaced.Some? && Plausible(YearValue(n, spaced.value + 1), currentYear) then
      var k := spaced.value;
      Some(ParsedMovie(Finalise(Trim(n[..k])), MeaningfulAfterYear(Trim(n[k + 6..]), stripJunk), Some(YearValue(n, k + 1))))
    else None
  }

  function WordStrategy(n: string, currentYear: int, stripJunk: string -> string): (r: Option<ParsedMovie>)
    ensures r.Some? <==> WordFinds(n, currentYear)
    ensures r.Some? ==> YearResult(r.value, currentYear)
  {
    var word := WordMatch(n);
    if word.Some? && Plausible(YearValue(n, word.value), currentYear) then
      var e := word.value;
      Some(ParsedMovie(Finalise(n[..e]), MeaningfulAfterYear(Trim(n[e + 4..]), stripJunk), Some(YearValue(n, e))))
    else None
  }

  /** A year is reported exactly when one of the three patterns finds a plausible one; the
      `Title (Year)` form never reports text after the year. */
  lemma MovieYearFound(n: string, currentYear: int, stripJunk: string -> string)
    ensures ParseNormalised(n, currentYear, stripJunk).year.Some? <==>
      ParenFinds(n, currentYear) || SpacedFinds(n, currentYear) || WordFinds(n, currentYear)
    ensures ParenFinds(n, currentYear) ==>
      && ParseNormalised(n, currentYear, stripJunk).titleAfterYear.None?
      && ParseNormalised(n, currentYear, stripJunk).title == Finalise(n[..ParenMatch(n).value])
  {
    var s1 := ParenStrategy(n, currentYear);
    var s2 := SpacedStrategy(n, currentYear, stripJunk);
    var s3 := WordStrategy(n, currentYear, stripJunk);
    assert ParseNormalised(n, currentYear, stripJunk)
      == if s1.Some? then s1.value else if s2.Some? then s2.value else if s3.Some? then s3.value
         else ParsedMovie(Finalise(stripJunk(n)), None, None);
  }

  /** `Title (Year)`: when the first `e` characters of a name are a title on one line that
      ends in a non-space character and has no `(`, and whitespace up to `m` and a
      parenthesised plausible year follow, the name is read as that title and year. */
  lemma TitleParenYear(n: string, e: nat, m: nat, currentYear: int, stripJunk: string -> string)
    requires 1 <= e <= m && m + 6 <= |n|
    requires forall i :: 0 <= i < e ==> n[i] != '(' && !IsLineTerminator(n[i])
    requires !IsSpace(n[e - 1])
    requires forall i :: e <= i < m ==> IsSpace(n[i])
    requires n[m] == '(' && FourDigitsAt(n, m + 1) && n[m + 5] == ')'
    requires Plausible(YearValue(n, m + 1), currentYear)
    ensures ParseNormalised(n, currentYear, stripJunk) == ParsedMovie(Finalise(n[..e]), None, Some(YearValue(n, m + 1)))
  {
    ParenMatchOfTitle(n, e, m);
    ParenDecides(n, e, currentYear, stripJunk);
  }

  /** When strategy 1 finds a plausible year, it decides the result. */
  lemma ParenDecides(n: string, e: nat, currentYear: int, stripJunk: string -> string)
    requires ParenMatch(n) == Some(e)
    requires Plausible(YearValue(n, ParenDigits(n, e)), currentYear)
    ensures ParseNormalised(n, currentYear, stripJunk) == ParsedMovie(Finalise(n[..e]), None, Some(YearValue(n, ParenDigits(n, e))))
  {
  }

  lemma ParenMatchOfTitle(n: string, e: nat, m: nat)
    requires 1 <= e <= m && m + 6 <= |n|
    requires forall i :: 0 <= i < e ==> n[i] != '(' && !IsLineTerminator(n[i])
    requires !IsSpace(n[e - 1])
    requires forall i :: e <= i < m ==> IsSpace(n[i])
    requires n[m] == '(' && FourDigitsAt(n, m + 1) && n[m + 5] == ')'
    ensures ParenMatch(n) == Some(e) && ParenDigits(n, e) == m + 1
  {
    RunEndPastBlank(n, e, m);
    assert ParenYearAt(n, e);
    assert NoLineBreak(n, 0, e);
    forall j | 1 <= j < e
      ensures !ParenYearAt(n, j)
    {
      NoParenBefore(n, j, e);
    }
  }

  /** A whitespace run starting before the title's last character stops inside the title,
      where no `(` is. */
  lemma NoParenBefore(n: string, j: nat, e: nat)
    requires 1 <= j < e <= |n|
    requires forall i :: 0 <= i < e ==> n[i] != '('
    requires !IsSpace(n[e - 1])
    ensures !ParenYearAt(n, j)
  {
    var r := RunEnd(n, j, IsSpace);
    assert r < e;
  }

  lemma {:induction false} RunEndPastBlank(s: string, i: nat, m: nat)
    requires i <= m < |s|
    requires forall k :: i <= k < m ==> IsSpace(s[k])
    requires !IsSpace(s[m])
    ensures RunEnd(s, i, IsSpace) == m
    decreases m - i
  {
    if i < m {
      RunEndPastBlank(s, i + 1, m);
    }
  }

  // ------------------------------------------------------------------ parseEpisodeFilename

  /** The class `[._\s-]`. */
  predicate EpisodeSep(c: char) {
    c == '.' || c == '_' || IsSpace(c) || c == '-'
  }

  predicate IsSeasonMark(c: char) { c == 'S' || c == 's' }

  predicate IsEpisodeMark(c: char) { c == 'E' || c == 'e' }

  /** Where the groups of `^(.+?)[._\s-]+[Ss](\d{1,2})[Ee](\d{1,2})(?:[._\s-]+(.+))?$` lie
      once the lazy name has ended at `nameEnd`. */
  datatype EpisodeMatch = EpisodeMatch(
    nameEnd: nat, seasonStart: nat, seasonEnd: nat, episodeStart: nat, episodeEnd: nat,
    titleStart: Option<nat>)

  /** `[._\s-]+[Ss](\d{1,2})[Ee]` after a name ending at `e`, with the season digits at
      `a..b`: a non-empty separator run, `S`, one or two digits, `E`. */
  predicate SeasonShape(s: string, e: nat, a: nat, b: nat) {
    e < a - 1 && a < b < |s| && b - a <= 2
    && IsSeasonMark(s[a - 1]) && IsEpisodeMark(s[b])
    && (forall k :: e <= k < a - 1 ==> EpisodeSep(s[k]))
    && (forall k :: a <= k < b ==> IsDigit(s[k]))
  }

  /** `(\d{1,2})(?:[._\s-]+(.+))?$` with the episode digits at `q0..q` and the title, if any,
      from `t` to the end, after a separator run and on one line. */
  predicate NumberShape(s: string, q0: nat, q: nat, t: Option<nat>) {
    q0 < q <= q0 + 2 && q <= |s|
    && (forall k :: q0 <= k < q ==> IsDigit(s[k]))
    && (t.None? <==> q == |s|)
    && (t.Some? ==> q < t.value < |s| && NoLineBreak(s, t.value, |s|))
  }

  /** The groups of an episode match after a name ending at `e`. */
  predicate EpisodeShape(s: string, e: nat, x: EpisodeMatch) {
    x.nameEnd == e && x.episodeStart == x.seasonEnd + 1
    && SeasonShape(s, e, x.seasonStart, x.seasonEnd)
    && NumberShape(s, x.episodeStart, x.episodeEnd, x.titleStart)
  }

  /** The rest of the episode pattern tried after a name ending at `e`.
      - The separator run must be maximal: a shorter one leaves a separator where `S` must be.
      - `\d{1,2}` before `E` must take the whole digit run, which has one or two digits.
      - The episode number takes two digits when it can; giving one back leaves a digit that
        neither the optional group nor `$` accepts.
      - The optional group first gives its separator run everything and `.+` the remainder up
        to the end; when the separators reach the end, it hands the last one to `.+`. */
  function EpisodeAt(s: string, e: nat): (r: Option<EpisodeMatch>)
    requires e <= |s|
    ensures r.Some? ==> EpisodeShape(s, e, r.value)
  {
    var head := SeasonAt(s, e);
    if head.None? then None
    else
      var number := NumberAt(s, head.value.1 + 1);
      if number.None? then None
      else Some(EpisodeMatch(e, head.value.0, head.value.1, head.value.1 + 1, number.value.0, number.value.1))
  }

  /** Where the season digits lie, if the pattern gets that far. */
  function SeasonAt(s: string, e: nat): (r: Option<(nat, nat)>)
    requires e <= |s|
    ensures r.Some? ==> SeasonShape(s, e, r.value.0, r.value.1)
  {
    var m := RunEnd(s, e, EpisodeSep);
    if m == e || m >= |s| || !IsSeasonMark(s[m]) then None
    else
      var d := RunEnd(s, m + 1, IsDigit);
      if d - (m + 1) > 2 || d == m + 1 || d >= |s| || !IsEpisodeMark(s[d]) then None
      else Some((m + 1, d))
  }

  /** Where the episode digits end and the title starts, if the rest matches from `q0`. */
  function NumberAt(s: string, q0: nat): (r: Option<(nat, Option<nat>)>)
    requires q0 <= |s|
    ensures r.Some? ==> NumberShape(s, q0, r.value.0, r.value.1)
  {
    var q := EpisodeDigitsEnd(s, q0);
    if q == q0 then None
    else
      var tail := EpisodeTail(s, q);
      if tail.None? then None else Some((q, tail.value))
  }

  /** `\d{1,2}` after `E`, taking two digits when it can. */
  function EpisodeDigitsEnd(s: string, q0: nat): (q: nat)
    requires q0 <= |s|
    ensures q0 <= q <= q0 + 2 && q <= |s|
    ensures forall k :: q0 <= k < q ==> IsDigit(s[k])
    ensures q == q0 <==> q0 == |s| || !IsDigit(s[q0])
  {
    if q0 < |s| && IsDigit(s[q0]) then (if q0 + 1 < |s| && IsDigit(s[q0 + 1]) then q0 + 2 else q0 + 1) else q0
  }

  /** `(?:[._\s-]+(.+))?$` from `q`: `None` when it cannot match; otherwise where the title
      starts, if the group takes part. */
  function EpisodeTail(s: string, q: nat): (r: Option<Option<nat>>)
    requires q <= |s|
    ensures r.Some? ==> (r.value.None? <==> q == |s|)
    ensures r.Some? && r.value.Some? ==> q < r.value.value < |s| && NoLineBreak(s, r.value.value, |s|)
    ensures q == |s| ==> r == Some(None)
  {
    if q == |s| then Some(None)
    else
      var t := RunEnd(s, q, EpisodeSep);
      if t == q then None
      else if t < |s| then
        if NoLineBreak(s, t, |s|) then Some(Some(t)) else None
      else if t - q >= 2 && !IsLineTerminator(s[|s| - 1]) then Some(Some(|s| - 1))
      else None
  }

  predicate EpisodeMatchesAt(s: string, e: nat) {
    e <= |s| && EpisodeAt(s, e).Some?
  }

  /** The whole episode pattern: the smallest non-empty name on the first line after which
      the rest matches. */
  function EpisodeMatchOf(s: string): (r: Option<EpisodeMatch>)
    ensures r.Some? ==> 1 <= r.value.nameEnd <= |s| && EpisodeAt(s, r.value.nameEnd) == r
    ensures r.Some? ==> EpisodeShape(s, r.value.nameEnd, r.value)
    ensures r.Some? ==> NoLineBreak(s, 0, r.value.nameEnd)
    ensures r.Some? ==> forall j :: 1 <= j < r.value.nameEnd ==> !EpisodeMatchesAt(s, j)
    ensures r.None? ==> forall j :: 1 <= j <= |s| && NoLineBreak(s, 0, j) ==> !EpisodeMatchesAt(s, j)
  {
    if |s| > 0 && !IsLineTerminator(s[0]) then
      var at := (j: nat) => EpisodeMatchesAt(s, j);
      assert forall j: nat :: at(j) == EpisodeMatchesAt(s, j);
      var e := Leftmost(s, 1, at, true);
      if e.Some? then EpisodeAt(s, e.value) else None
    else None
  }

  datatype EpisodeInfo = EpisodeInfo(showName: string, season: nat, episode: nat, episodeTitle: Option<string>)

  /** The value of a one- or two-digit run. */
  function SmallNumber(s: string, a: nat, b: nat): (v: nat)
    requires a < b <= |s| && b - a <= 2
    requires forall k :: a <= k < b ==> IsDigit(s[k])
    ensures v < 100
  {
    if b - a == 1 then DigitValue(s[a]) else DigitValue(s[a]) * 10 + DigitValue(s[a + 1])
  }

  /** `parseEpisodeFilename` over the base name without extension. */
  function ParseEpisode(filename: string): (r: Option<EpisodeInfo>)
    ensures r.Some? ==> r.value.season < 100 && r.value.episode < 100
    ensures r.Some? ==> Finalised(r.value.showName)
    ensures r.Some? && r.value.episodeTitle.Some? ==> Finalised(r.value.episodeTitle.value)
    ensures r.Some? ==> exists k :: MarkerAt(Paths.Stem(filename), k)
  {
    var b := Paths.Stem(filename);
    var m := EpisodeMatchOf(b);
    if m.None? then None
    else
      var x := m.value;
      MatchHasMarker(b, x);
      Some(EpisodeInfo(
        Finalise(b[..x.nameEnd]),
        SmallNumber(b, x.seasonStart, x.seasonEnd),
        SmallNumber(b, x.episodeStart, x.episodeEnd),
        if x.titleStart.Some? then Some(Finalise(b[x.titleStart.value..])) else None))
  }

  /** `[Ss]\d{1,2}[Ee]\d{1,2}` at `k`: the season digits give one back when two would leave no
      `E` after them. */
  predicate MarkerAt(s: string, k: nat) {
    k + 4 <= |s| && IsSeasonMark(s[k]) && IsDigit(s[k + 1])
    && ((IsEpisodeMark(s[k + 2]) && IsDigit(s[k + 3]))
        || (k + 5 <= |s| && IsDigit(s[k + 2]) && IsEpisodeMark(s[k + 3]) && IsDigit(s[k + 4])))
  }

  /** `isEpisodeFile`: the marker anywhere in the base name, extension included. */
  predicate IsEpisodeFile(filePath: string) {
    var b := Paths.BaseName(filePath);
    exists k :: 0 <= k <= |b| && MarkerAt(b, k)
  }

  /** Every parsed episode name passes the cheaper test. */
  lemma ParsedIsEpisodeFile(filename: string)
    requires ParseEpisode(filename).Some?
    ensures IsEpisodeFile(filename)
  {
    var k :| MarkerAt(Paths.Stem(filename), k);
    MarkerInBaseName(filename, k);
  }

  /** A marker in the stem is a marker in the base name. */
  lemma MarkerInBaseName(filename: string, k: nat)
    requires MarkerAt(Paths.Stem(filename), k)
    ensures IsEpisodeFile(filename)
  {
    var s := Paths.Stem(filename);
    var b := Paths.BaseName(filename);
    assert b == s + Paths.ExtName(filename);
    MarkerInPrefix(s, Paths.ExtName(filename), k);
    assert 0 <= k <= |b| && MarkerAt(b, k);
  }

  lemma MatchHasMarker(s: string, x: EpisodeMatch)
    requires EpisodeShape(s, x.nameEnd, x)
    ensures MarkerAt(s, x.seasonStart - 1)
  {
    var k := x.seasonStart - 1;
    assert IsSeasonMark(s[k]) && IsDigit(s[k + 1]) && IsDigit(s[x.episodeStart]);
    if x.seasonEnd == x.seasonStart + 1 {
      assert IsEpisodeMark(s[k + 2]) && IsDigit(s[k + 3]);
    } else {
      assert IsDigit(s[k + 2]) && IsEpisodeMark(s[k + 3]) && IsDigit(s[k + 4]);
    }
  }

  lemma MarkerInPrefix(s: string, ext: string, k: nat)
    requires MarkerAt(s, k)
    ensures MarkerAt(s + ext, k)
  {
    assert forall i :: 0 <= i < |s| ==> (s + ext)[i] == s[i];
  }

  /** The converse fails: a bare marker has no name before it. */
  lemma BareMarkerNotParsed(a: char, b: char)
    requires IsDigit(a) && IsDigit(b)
    ensures IsEpisodeFile(['S', a, 'E', b])
    ensures ParseEpisode(['S', a, 'E', b]).None?
  {
    var s := ['S', a, 'E', b];
    PlainName(s);
    assert MarkerAt(s, 0);
    NoEpisodeMatch(s);
  }

  /** A name without any separator character has no episode match. */
  lemma NoEpisodeMatch(s: string)
    requires forall i :: 0 <= i < |s| ==> !EpisodeSep(s[i])
    ensures EpisodeMatchOf(s).None?
  {
    forall j | 1 <= j <= |s|
      ensures !EpisodeMatchesAt(s, j)
    {
      assert RunEnd(s, j, EpisodeSep) == j;
    }
  }

  /** A name without separators or dots is its own base name and stem. */
  lemma PlainName(s: string)
    requires Paths.Sep !in s && '.' !in s
    ensures Paths.BaseName(s) == s && Paths.Stem(s) == s
  {
    assert Paths.StripTrailingSeps(s) == s;
  }

  /** The episode title is absent exactly when the episode number ends the name. */
  lemma EpisodeTitleAbsent(filename: string)
    requires ParseEpisode(filename).Some?
    ensures var s := Paths.Stem(filename);
      ParseEpisode(filename).value.episodeTitle.None? <==> EpisodeMatchOf(s).value.episodeEnd == |s|
  {
  }
}
