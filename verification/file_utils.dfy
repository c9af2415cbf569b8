/** File-name helpers of the server: media-type tests by extension, MIME types, movie and
    episode file-name parsing, sort titles and the library containment test. The current
    year and the junk-token stripper (a table of release-tag regular expressions) are
    parameters. */
module FileUtils {
  import opened Common
  import opened JsText
  import Paths

  const VideoExtensions: set<string> :=
    {".mp4", ".mkv", ".avi", ".mov", ".m4v", ".wmv", ".flv", ".webm", ".ts", ".m2ts"}

  const AudioExtensions: set<string> :=
    {".mp3", ".flac", ".aac", ".ogg", ".wav", ".m4a", ".opus"}

  const MimeTypes: map<string, string> := map[
    ".mp4" := "video/mp4", ".mkv" := "video/x-matroska", ".avi" := "video/x-msvideo",
    ".mov" := "video/quicktime", ".m4v" := "video/mp4", ".wmv" := "video/x-ms-wmv",
    ".webm" := "video/webm", ".ts" := "video/mp2t", ".m2ts" := "video/mp2t",
    ".flv" := "video/x-flv", ".mp3" := "audio/mpeg", ".flac" := "audio/flac",
    ".aac" := "audio/aac", ".ogg" := "audio/ogg", ".wav" := "audio/wav", ".m4a" := "audio/mp4"]

  const DefaultMimeType: string := "application/octet-stream"

  /** The lower-cased extension of a path, dot included. */
  function LowerExt(p: string): string {
    ToLower(Paths.ExtName(p))
  }

  predicate IsVideoFile(p: string) {
    LowerExt(p) in VideoExtensions
  }

  predicate IsAudioFile(p: string) {
    LowerExt(p) in AudioExtensions
  }

  function MimeType(p: string): (m: string)
    ensures m == DefaultMimeType <==> LowerExt(p) !in MimeTypes
  {
    var e := LowerExt(p);
    if e in MimeTypes then MimeTypes[e] else DefaultMimeType
  }

  /** The media tests and the MIME lookup ignore the case of the path. */
  lemma ExtensionCaseInsensitive(p: string)
    ensures IsVideoFile(ToLower(p)) == IsVideoFile(p)
    ensures IsAudioFile(ToLower(p)) == IsAudioFile(p)
    ensures MimeType(ToLower(p)) == MimeType(p)
  {
    Paths.ExtNameOfLower(p);
    ToLowerIdempotent(Paths.ExtName(p));
  }

  /** Every video file gets a `video/` type; every audio file but `.opus` an `audio/` type,
      and `.opus` falls back to the generic type. */
  lemma MimeTypeOfMedia(p: string)
    ensures IsVideoFile(p) ==> StartsWith(MimeType(p), "video/")
    ensures IsAudioFile(p) && LowerExt(p) != ".opus" ==> StartsWith(MimeType(p), "audio/")
    ensures LowerExt(p) == ".opus" ==> IsAudioFile(p) && MimeType(p) == DefaultMimeType
  {
    MediaTypesTable();
  }

  lemma MediaTypesTable()
    ensures forall e :: e in VideoExtensions ==> e in MimeTypes && StartsWith(MimeTypes[e], "video/")
    ensures forall e :: e in AudioExtensions && e != ".opus" ==> e in MimeTypes && StartsWith(MimeTypes[e], "audio/")
    ensures ".opus" !in MimeTypes
  {
    VideoTypesTable();
    AudioTypesTable();
  }

  lemma VideoTypesTable()
    ensures forall e :: e in VideoExtensions ==> e in MimeTypes && StartsWith(MimeTypes[e], "video/")
  {
    forall e | e in VideoExtensions
      ensures e in MimeTypes && StartsWith(MimeTypes[e], "video/")
    {
      var m := MimeTypes[e];
      assert m[..6] == "video/";
    }
  }

  lemma AudioTypesTable()
    ensures forall e :: e in AudioExtensions && e != ".opus" ==> e in MimeTypes && StartsWith(MimeTypes[e], "audio/")
    ensures ".opus" !in MimeTypes
  {
    forall e | e in AudioExtensions && e != ".opus"
      ensures e in MimeTypes && StartsWith(MimeTypes[e], "audio/")
    {
      var m := MimeTypes[e];
      assert m[..6] == "audio/";
    }
  }

  // ------------------------------------------------------------------ clean-up

  /** `s.replace(/[._]/g, ' ')`. */
  function DotsToSpaces(s: string): (r: string)
    ensures |r| == |s| && '.' !in r && '_' !in r
    ensures forall i :: 0 <= i < |s| ==> r[i] == (if s[i] == '.' || s[i] == '_' then ' ' else s[i])
  {
    seq(|s|, i requires 0 <= i < |s| => if s[i] == '.' || s[i] == '_' then ' ' else s[i])
  }

  /** The shape `finalise` guarantees. */
  predicate Finalised(s: string) {
    '.' !in s && '_' !in s && SingleSpaced(s) && (|s| > 0 ==> !IsSpace(s[0]) && !IsSpace(s[|s| - 1]))
  }

  /** `finalise`: dots and underscores become spaces, whitespace runs one space, then trim. */
  function Finalise(raw: string): (r: string)
    ensures Finalised(r)
  {
    var d := DotsToSpaces(raw);
    CleanShape(d);
    Trim(CollapseSpaces(d))
  }

  lemma CleanShape(d: string)
    requires '.' !in d && '_' !in d
    ensures Finalised(Trim(CollapseSpaces(d)))
  {
    CollapseKeepsAbsent(d, '.');
    CollapseKeepsAbsent(d, '_');
    TrimShape(CollapseSpaces(d));
  }

  lemma TrimShape(c: string)
    requires SingleSpaced(c) && '.' !in c && '_' !in c
    ensures Finalised(Trim(c))
  {
    var off := TrimSlice(c);
    SliceShape(c, off, off + |Trim(c)|, Trim(c));
  }

  lemma CollapseKeepsAbsent(d: string, ch: char)
    requires ch !in d && ch != ' '
    ensures ch !in CollapseSpaces(d)
  {
    var c := CollapseSpaces(d);
    forall i | 0 <= i < |c| ensures c[i] != ch {
      assert c[i] == ' ' || c[i] in d;
    }
  }

  /** A slice of a single-spaced string without dots or underscores keeps those properties. */
  lemma SliceShape(c: string, i: nat, j: nat, r: string)
    requires i <= j <= |c| && r == c[i..j]
    requires SingleSpaced(c) && '.' !in c && '_' !in c
    ensures SingleSpaced(r) && '.' !in r && '_' !in r
  {
    forall k | 0 <= k < |r| - 1 ensures !(IsSpace(r[k]) && IsSpace(r[k + 1])) {
      assert r[k] == c[i + k] && r[k + 1] == c[i + k + 1];
    }
    forall k | 0 <= k < |r| && IsSpace(r[k]) ensures r[k] == ' ' {
      assert r[k] == c[i + k];
    }
    assert forall k :: 0 <= k < |r| ==> r[k] in c;
  }

  lemma FinaliseFixes(s: string)
    requires Finalised(s)
    ensures Finalise(s) == s
  {
    assert DotsToSpaces(s) == s;
    CollapseSingleSpaced(s);
    TrimOfTrimmed(s);
  }

  lemma FinaliseIdempotent(raw: string)
    ensures Finalise(Finalise(raw)) == Finalise(raw)
  {
    FinaliseFixes(Finalise(raw));
  }

  /** `meaningfulAfterYear`: the cleaned post-year text, unless its JavaScript length
      (UTF-16 code units) is below 4. */
  function MeaningfulAfterYear(raw: string, stripJunk: string -> string): (r: Option<string>)
    ensures r.None? <==> Utf16Length(Finalise(stripJunk(raw))) < 4
    ensures r.Some? ==> Utf16Length(r.value) >= 4 && Finalised(r.value)
  {
    var cleaned := Finalise(stripJunk(raw));
    if Utf16Length(cleaned) < 4 then None else Some(cleaned)
  }

  // ------------------------------------------------------------------ sort titles

  /** `makeSortTitle`: lower-case, drop one leading `the`, `a` or `an` followed by whitespace,
      then trim. */
  function MakeSortTitle(title: string): (r: string)
    ensures |r| > 0 ==> !IsSpace(r[0]) && !IsSpace(r[|r| - 1])
    ensures forall i :: 0 <= i < |r| ==> !IsUpperAscii(r[i])
  {
    var l := ToLower(title);
    var rest := ArticleRest(l);
    LowerShape(rest);
    Trim(rest)
  }

  lemma LowerShape(rest: string)
    requires forall i :: 0 <= i < |rest| ==> !IsUpperAscii(rest[i])
    ensures forall i :: 0 <= i < |Trim(rest)| ==> !IsUpperAscii(Trim(rest)[i])
  {
    var off := TrimSlice(rest);
  }

  /** What `/^(the|a|an)\s+/` leaves of a lower-cased title: the alternatives are tried in order
      and each needs at least one whitespace character after it. */
  function ArticleRest(l: string): (rest: string)
    ensures |rest| <= |l| && rest == l[|l| - |rest|..]
  {
    if |l| > 3 && l[0] == 't' && l[1] == 'h' && l[2] == 'e' && IsSpace(l[3]) then TrimStart(l[3..])
    else if |l| > 1 && l[0] == 'a' && IsSpace(l[1]) then TrimStart(l[1..])
    else if |l| > 2 && l[0] == 'a' && l[1] == 'n' && IsSpace(l[2]) then TrimStart(l[2..])
    else l
  }

  predicate IsArticle(w: string) { w == "the" || w == "a" || w == "an" }

  /** `l` opens with the word `w` followed by whitespace. */
  predicate ArticleAt(l: string, w: string) {
    |l| > |w| && l[..|w|] == w && IsSpace(l[|w|])
  }

  /** `l` opens with one of the three articles followed by whitespace. */
  predicate LeadingArticle(l: string) {
    ArticleAt(l, "the") || ArticleAt(l, "a") || ArticleAt(l, "an")
  }

  /** The article pattern changes a lower-cased title exactly when an article leads it, and then
      it shortens it. */
  lemma ArticleRestChanges(l: string)
    ensures LeadingArticle(l) <==> ArticleRest(l) != l
    ensures LeadingArticle(l) ==> |ArticleRest(l)| < |l|
  {
    ArticleAtThe(l);
    ArticleAtA(l);
    ArticleAtAn(l);
  }

  lemma ArticleAtThe(l: string)
    ensures ArticleAt(l, "the") <==> |l| > 3 && l[0] == 't' && l[1] == 'h' && l[2] == 'e' && IsSpace(l[3])
  {
    if |l| > 3 && l[0] == 't' && l[1] == 'h' && l[2] == 'e' {
      assert l[..3] == "the";
    }
  }

  lemma ArticleAtA(l: string)
    ensures ArticleAt(l, "a") <==> |l| > 1 && l[0] == 'a' && IsSpace(l[1])
  {
    if |l| > 1 && l[0] == 'a' {
      assert l[..1] == "a";
    }
  }

  lemma ArticleAtAn(l: string)
    ensures ArticleAt(l, "an") <==> |l| > 2 && l[0] == 'a' && l[1] == 'n' && IsSpace(l[2])
  {
    if |l| > 2 && l[0] == 'a' && l[1] == 'n' {
      assert l[..2] == "an";
    }
  }

  /** A title that does not start with an article is only lower-cased and trimmed. */
  lemma SortTitleWithoutArticle(title: string)
    requires !LeadingArticle(ToLower(title))
    ensures MakeSortTitle(title) == Trim(ToLower(title))
  {
    ArticleRestChanges(ToLower(title));
  }

  /** Exactly one leading article is removed, whatever its case. */
  lemma SortTitleDropsOneArticle(article: string, gap: string, rest: string)
    requires IsArticle(ToLower(article))
    requires |gap| > 0 && IsBlank(gap)
    requires |rest| > 0 && !IsSpace(rest[0])
    ensures MakeSortTitle(article + gap + rest) == Trim(ToLower(rest))
  {
    LowerOfParts(article, gap, rest);
    assert !IsSpace(ToLower(rest)[0]);
    ArticleRestOf(ToLower(article), gap, ToLower(rest));
  }

  lemma LowerOfParts(a: string, gap: string, rest: string)
    requires IsBlank(gap)
    ensures ToLower(a + gap + rest) == ToLower(a) + gap + ToLower(rest)
  {
    ToLowerDistributes(a + gap, rest);
    ToLowerDistributes(a, gap);
    LowerOfBlank(gap);
  }

  lemma LowerOfBlank(gap: string)
    requires IsBlank(gap)
    ensures ToLower(gap) == gap
  {
  }

  lemma ArticleRestOf(a: string, gap: string, rest: string)
    requires IsArticle(a)
    requires |gap| > 0 && IsBlank(gap)
    requires |rest| > 0 && !IsSpace(rest[0])
    ensures ArticleRest(a + gap + rest) == rest
  {
    TrimStartPast(gap, rest);
    if a == "the" {
      ArticleRestThe(gap, rest);
    } else if a == "a" {
      ArticleRestA(gap, rest);
    } else {
      ArticleRestAn(gap, rest);
    }
  }

  lemma ArticleRestThe(gap: string, rest: string)
    requires |gap| > 0 && IsSpace(gap[0]) && TrimStart(gap + rest) == rest
    ensures ArticleRest("the" + gap + rest) == rest
  {
    var l := "the" + gap + rest;
    assert l[0] == 't' && l[1] == 'h' && l[2] == 'e' && l[3] == gap[0];
    assert l[3..] == gap + rest;
  }

  lemma ArticleRestA(gap: string, rest: string)
    requires |gap| > 0 && IsSpace(gap[0]) && TrimStart(gap + rest) == rest
    ensures ArticleRest("a" + gap + rest) == rest
  {
    var l := "a" + gap + rest;
    assert l[0] == 'a';
    assert l[1] == gap[0];
    assert l[1..] == gap + rest;
  }

  lemma ArticleRestAn(gap: string, rest: string)
    requires |gap| > 0 && IsSpace(gap[0]) && TrimStart(gap + rest) == rest
    ensures ArticleRest("an" + gap + rest) == rest
  {
    var l := "an" + gap + rest;
    assert l[0] == 'a' && l[1] == 'n' && l[2] == gap[0];
    assert l[2..] == gap + rest;
    ArticleRestAfterAn(l);
  }

  lemma ArticleRestAfterAn(l: string)
    requires |l| > 2 && l[0] == 'a' && l[1] == 'n' && IsSpace(l[2])
    ensures ArticleRest(l) == TrimStart(l[2..])
  {
    assert !IsSpace(l[1]);
  }

  lemma {:induction false} TrimStartPast(gap: string, rest: string)
    requires IsBlank(gap)
    requires |rest| > 0 && !IsSpace(rest[0])
    ensures TrimStart(gap + rest) == rest
    decreases |gap|
  {
    if |gap| > 0 {
      assert (gap + rest)[1..] == gap[1..] + rest;
      TrimStartPast(gap[1..], rest);
    } else {
      assert gap + rest == rest;
    }
  }

  /** A leading article in front of an already trimmed title leaves that title lower-cased. */
  lemma SortTitleOfTrimmed(article: string, gap: string, tail: string)
    requires IsArticle(ToLower(article))
    requires |gap| > 0 && IsBlank(gap)
    requires |tail| > 0 && !IsSpace(tail[0]) && !IsSpace(tail[|tail| - 1])
    ensures MakeSortTitle(article + gap + tail) == ToLower(tail)
  {
    SortTitleDropsOneArticle(article, gap, tail);
    LowerKeepsTrimmed(tail);
  }

  lemma LowerKeepsTrimmed(s: string)
    requires |s| > 0 && !IsSpace(s[0]) && !IsSpace(s[|s| - 1])
    ensures Trim(ToLower(s)) == ToLower(s)
  {
    var l := ToLower(s);
    LowerCharSpace(s[0]);
    LowerCharSpace(s[|s| - 1]);
    assert l[0] == LowerChar(s[0]) && l[|l| - 1] == LowerChar(s[|s| - 1]);
    TrimOfTrimmed(l);
  }

  lemma LowerCharSpace(c: char)
    ensures IsSpace(LowerChar(c)) == IsSpace(c)
  {
  }

  /** Only one article goes, so the sort title is not idempotent: for "The A Team" the first
      call gives "a team" and the second "team". */
  lemma SortTitleNotIdempotent(a1: string, g1: string, a2: string, g2: string, rest: string)
    requires IsArticle(ToLower(a1)) && IsArticle(ToLower(a2))
    requires |g1| > 0 && IsBlank(g1) && |g2| > 0 && IsBlank(g2)
    requires |rest| > 0 && !IsSpace(rest[0]) && !IsSpace(rest[|rest| - 1])
    ensures MakeSortTitle(a1 + g1 + a2 + g2 + rest) == ToLower(a2 + g2 + rest)
    ensures MakeSortTitle(MakeSortTitle(a1 + g1 + a2 + g2 + rest)) == ToLower(rest)
    ensures MakeSortTitle(MakeSortTitle(a1 + g1 + a2 + g2 + rest)) != MakeSortTitle(a1 + g1 + a2 + g2 + rest)
  {
    var tail := a2 + g2 + rest;
    assert a1 + g1 + a2 + g2 + rest == a1 + g1 + tail;
    ArticleStartsWord(a2);
    assert tail[0] == a2[0] && tail[|tail| - 1] == rest[|rest| - 1];
    SortTitleOfTrimmed(a1, g1, tail);
    LowerOfParts(a2, g2, rest);
    SortTitleOfLowered(a2, g2, rest);
  }

  lemma ArticleStartsWord(a: string)
    requires IsArticle(ToLower(a))
    ensures |a| > 0 && !IsSpace(a[0])
  {
    assert ToLower(a)[0] == LowerChar(a[0]);
    LowerCharSpace(a[0]);
  }

  lemma SortTitleOfLowered(a: string, gap: string, rest: string)
    requires IsArticle(ToLower(a))
    requires |gap| > 0 && IsBlank(gap)
    requires |rest| > 0 && !IsSpace(rest[0]) && !IsSpace(rest[|rest| - 1])
    ensures MakeSortTitle(ToLower(a) + gap + ToLower(rest)) == ToLower(rest)
  {
    ToLowerIdempotent(a);
    ToLowerIdempotent(rest);
    var lr := ToLower(rest);
    LowerCharSpace(rest[0]);
    LowerCharSpace(rest[|rest| - 1]);
    assert lr[0] == LowerChar(rest[0]) && lr[|lr| - 1] == LowerChar(rest[|rest| - 1]);
    SortTitleOfTrimmed(ToLower(a), gap, lr);
  }

  // ------------------------------------------------------------------ library containment

  /** `isPathWithinLibraries` as written: the resolved path equals a resolved root or starts with
      the root followed by a separator. `resolve` is `path.resolve`. */
  predicate IsPathWithinLibraries(resolve: string -> string, filePath: string, libraryPaths: seq<string>) {
    exists i :: 0 <= i < |libraryPaths| && WithinRoot(resolve(filePath), resolve(libraryPaths[i]))
  }

  predicate WithinRoot(resolved: string, root: string) {
    StartsWith(resolved, root + [Paths.Sep]) || resolved == root
  }

  /** A sibling directory that shares a prefix is not inside: `/media2/x` is not within `/media`. */
  lemma SiblingPrefixNotWithin()
    ensures !WithinRoot("/media2/x", "/media")
    ensures WithinRoot("/media/x", "/media")
  {
    assert "/media2/x"[6] != "/media/"[6];
    assert "/media/x"[..7] == "/media/";
  }

  /** The file-system root as a library: `path.resolve("/")` is "/", so the test looks for the
      prefix "//" and no file below the root is within it. */
  lemma RootLibraryContainsNothing(resolved: string)
    requires StartsWith(resolved, "/") && |resolved| > 1 && resolved[1] != '/'
    ensures !WithinRoot(resolved, "/")
  {
    assert resolved[..2] != "//";
  }

  /** The evidently intended containment test: a root that already ends with the separator is
      not given a second one. */
  predicate WithinRootFixed(resolved: string, root: string) {
    var prefix := if |root| > 0 && root[|root| - 1] == Paths.Sep then root else root + [Paths.Sep];
    StartsWith(resolved, prefix) || resolved == root
  }

  /** The corrected test agrees with the written one for every root without a trailing separator,
      and puts every absolute path inside the root directory. */
  lemma WithinRootFixedAgrees(resolved: string, root: string)
    ensures (|root| > 0 && root[|root| - 1] != Paths.Sep) ==> (WithinRootFixed(resolved, root) <==> WithinRoot(resolved, root))
    ensures StartsWith(resolved, "/") ==> WithinRootFixed(resolved, "/")
  {
  }

  predicate IsPathWithinLibrariesFixed(resolve: string -> string, filePath: string, libraryPaths: seq<string>) {
    exists i :: 0 <= i < |libraryPaths| && WithinRootFixed(resolve(filePath), resolve(libraryPaths[i]))
  }
}
