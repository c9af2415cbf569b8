/** The TMDB lookup layer of the scanner (server/src/services/metadata.ts): the ordered chain of
    search queries tried for a movie or show, the all-caps junk stripping that feeds it, the
    suggestion list, and the grouping of crew credits. The TMDB client is an oracle: each of its
    calls is a total function from request to reply, where a reply may be a thrown error. */
module Metadata {
  import opened Common
  import opened JsText

  // ---------------------------------------------------------------- the client as an oracle

  /** A search request: the query text and the optional `year` filter. */
  datatype Query = Query(text: string, year: Option<int>)

  /** One entry of a search's `results` list. */
  datatype Hit = Hit(
    id: Option<int>,
    title: Option<string>,
    originalTitle: Option<string>,
    releaseDate: Option<string>,
    posterPath: Option<string>,
    overview: Option<string>)

  /** A search answer: a thrown error, or a reply whose `results` may be missing. */
  datatype SearchReply = SearchThrew | SearchResults(results: Option<seq<Hit>>)

  datatype CrewMember = CrewMember(name: string, job: string, profilePath: Option<string>)

  /** The details of one movie or show (for a show, `title` is its `name` and `releaseDate`
      its `first_air_date`). */
  datatype Details = Details(
    id: int,
    title: Option<string>,
    originalTitle: Option<string>,
    posterPath: Option<string>,
    backdropPath: Option<string>,
    overview: Option<string>,
    releaseDate: Option<string>,
    genres: Option<seq<string>>,
    voteAverage: Option<real>,
    runtime: Option<int>,
    crew: Option<seq<CrewMember>>)

  datatype DetailsReply = InfoThrew | InfoOk(details: Details)

  datatype CastMember = CastMember(name: string, character: Option<string>, profilePath: Option<string>)

  /** Everything a credits lookup reads: cast, crew, genre names and the spoken languages'
      English names. */
  datatype CreditsSource = CreditsSource(
    cast: seq<CastMember>,
    crew: seq<CrewMember>,
    genres: seq<string>,
    languages: seq<Option<string>>)

  /** The TMDB client. A credits lookup answers `None` when one of its requests throws; its
      argument is the `parseInt` of the id, `None` standing for `NaN`. */
  datatype Tmdb = Tmdb(
    searchMovie: Query -> SearchReply,
    movieInfo: int -> DetailsReply,
    searchTv: string -> SearchReply,
    tvInfo: int -> DetailsReply,
    movieCredits: Option<int> -> Option<CreditsSource>,
    tvCredits: Option<int> -> Option<CreditsSource>)

  /** What a lookup reports for a movie or show. */
  datatype MetadataResult = MetadataResult(
    title: string,
    tmdbId: string,
    posterUrl: Option<string>,
    backdropUrl: Option<string>,
    description: Option<string>,
    year: Option<int>,
    genre: Option<string>,
    rating: Option<real>,
    director: Option<string>,
    duration: Option<int>)

  // ---------------------------------------------------------------- result fields

  const ImageBase := "https://image.tmdb.org/t/p"

  /** An image URL of the given size, or nothing for a missing or empty path. */
  function ImgUrl(size: string, path: Option<string>): (r: Option<string>)
    ensures r.Some? <==> path.Some? && path.value != ""
    ensures r.Some? ==> StartsWith(r.value, ImageBase + "/" + size) && EndsWith(r.value, path.value)
  {
    if path.Some? && path.value != "" then Some(ImageBase + "/" + size + path.value) else None
  }

  /** `text || null`. */
  function NullIfEmpty(text: string): (r: Option<string>)
    ensures r.None? <==> text == ""
    ensures r.Some? ==> r.value == text
  {
    if text == "" then None else Some(text)
  }

  /** The year of a release date: the `parseInt` of the text before its first `-`, nothing for
      a missing or empty date (`None` also stands for a `NaN` parse). */
  function ReleaseYear(date: Option<string>): (r: Option<int>)
    ensures r.Some? ==> date.Some? && date.value != ""
  {
    if date.Some? && date.value != "" then ParseIntAuto(Split(date.value, '-')[0]) else None
  }

  /** An ISO date `YYYY-…` reads back its year. */
  lemma ReleaseYearOfIsoDate(y: nat, rest: string)
    ensures ReleaseYear(Some(NatToString(y) + "-" + rest)) == Some(y)
  {
    var ys := NatToString(y);
    assert '-' !in ys by { assert AllDigits(ys); }
    SplitCons(ys, rest, '-');
    assert ys + "-" + rest == ys + ['-'] + rest;
    ParseIntAutoOfNatToString(y, "");
    assert ys + "" == ys;
  }

  /** The runtime in minutes turned into seconds; nothing for a missing or zero runtime. */
  function DurationSeconds(runtime: Option<int>): (r: Option<int>)
    ensures r.Some? <==> runtime.Some? && runtime.value != 0
    ensures r.Some? ==> r.value % 60 == 0 && r.value / 60 == runtime.value
  {
    if runtime.Some? && runtime.value != 0 then Some(runtime.value * 60) else None
  }

  /** `crew.filter(c => c.job === job)`. */
  function WithJob(crew: seq<CrewMember>, job: string): (r: seq<CrewMember>)
    ensures forall m :: m in r <==> m in crew && m.job == job
    ensures |r| <= |crew|
  {
    if |crew| == 0 then []
    else
      var rest := WithJob(crew[1..], job);
      assert forall m :: m in crew <==> m == crew[0] || m in crew[1..];
      if crew[0].job == job then [crew[0]] + rest else rest
  }

  function Names(crew: seq<CrewMember>): (r: seq<string>)
    ensures |r| == |crew| && forall i :: 0 <= i < |crew| ==> r[i] == crew[i].name
  {
    seq(|crew|, i requires 0 <= i < |crew| => crew[i].name)
  }

  /** The directors' names joined with `, `, or nothing when that join is empty. */
  function DirectorText(crew: seq<CrewMember>): (r: Option<string>)
    ensures (forall m :: m in crew ==> m.job != "Director") ==> r.None?
    ensures r.Some? ==> exists m :: m in crew && m.job == "Director"
  {
    var ds := WithJob(crew, "Director");
    var t := Join(Names(ds), ", ");
    JoinEmpty(Names(ds), ", ");
    assert |ds| > 0 ==> ds[0] in ds;
    NullIfEmpty(t)
  }

  /** The genre names joined with `, `, or nothing when absent or empty. */
  function GenreText(genres: Option<seq<string>>): (r: Option<string>)
    ensures r.None? <==> genres.None? || |genres.value| == 0 || (|genres.value| == 1 && genres.value[0] == "")
  {
    if genres.None? then None
    else
      JoinEmpty(genres.value, ", ");
      NullIfEmpty(Join(genres.value, ", "))
  }

  /** The result built from a movie's details, `query` being the last title fallback. */
  function MovieResultOf(d: Details, query: string): (r: MetadataResult)
    ensures d.title.Some? ==> r.title == d.title.value
    ensures d.title.None? && d.originalTitle.Some? ==> r.title == d.originalTitle.value
    ensures d.title.None? && d.originalTitle.None? ==> r.title == query
    ensures r.tmdbId == IntToString(d.id) && r.description == d.overview && r.rating == d.voteAverage
  {
    MetadataResult(
      d.title.GetOr(d.originalTitle.GetOr(query)),
      IntToString(d.id),
      ImgUrl("w500", d.posterPath),
      ImgUrl("w1280", d.backdropPath),
      d.overview,
      ReleaseYear(d.releaseDate),
      GenreText(d.genres),
      d.voteAverage,
      DirectorText(d.crew.GetOr([])),
      DurationSeconds(d.runtime))
  }

  /** A show's result: the same fields, but never a director or a duration. */
  function TvResultOf(d: Details, query: string): (r: MetadataResult)
    ensures r.director.None? && r.duration.None?
    ensures r.title == MovieResultOf(d, query).title && r.year == ReleaseYear(d.releaseDate)
  {
    MovieResultOf(d, query).(director := None, duration := None)
  }

  // ---------------------------------------------------------------- single attempts

  /** The id of the first search result, when it is present and not zero. */
  function TopHitId(reply: SearchReply): (r: Option<int>)
    ensures r.Some? ==> r.value != 0
    ensures r.Some? <==> (reply.SearchResults? && reply.results.Some? && |reply.results.value| > 0
                          && reply.results.value[0].id.Some? && reply.results.value[0].id.value != 0)
  {
    if reply.SearchResults? && reply.results.Some? && |reply.results.value| > 0 then
      var id := reply.results.value[0].id;
      if id.Some? && id.value != 0 then id else None
    else None
  }

  /** One search attempt: nothing for a blank query (the client is not called), when the
      search throws or has no usable first hit, or when the details request throws; otherwise
      the result built from the first hit's details. */
  function TryMovieSearch(c: Tmdb, q: Query): (r: Option<MetadataResult>)
    ensures Trim(q.text) == "" ==> r.None?
    ensures r.Some? <==> Trim(q.text) != "" && TopHitId(c.searchMovie(q)).Some?
                         && c.movieInfo(TopHitId(c.searchMovie(q)).value).InfoOk?
    ensures r.Some? ==> r.value == MovieResultOf(c.movieInfo(TopHitId(c.searchMovie(q)).value).details, q.text)
  {
    if Trim(q.text) == "" then None
    else
      var id := TopHitId(c.searchMovie(q));
      if id.None? then None
      else
        match c.movieInfo(id.value)
        case InfoThrew => None
        case InfoOk(d) => Some(MovieResultOf(d, q.text))
  }

  /** The TV counterpart of `TryMovieSearch`. */
  function TryTvSearch(c: Tmdb, query: string): (r: Option<MetadataResult>)
    ensures Trim(query) == "" ==> r.None?
    ensures r.Some? <==> Trim(query) != "" && TopHitId(c.searchTv(query)).Some?
                         && c.tvInfo(TopHitId(c.searchTv(query)).value).InfoOk?
    ensures r.Some? ==> r.value.director.None? && r.value.duration.None?
  {
    if Trim(query) == "" then None
    else
      var id := TopHitId(c.searchTv(query));
      if id.None? then None
      else
        match c.tvInfo(id.value)
        case InfoThrew => None
        case InfoOk(d) => Some(TvResultOf(d, query))
  }

  /** A blank query never reaches the client: two clients give the same (empty) answer. */
  lemma BlankQueryNotSent(c1: Tmdb, c2: Tmdb, q: Query)
    requires IsBlank(q.text)
    ensures TryMovieSearch(c1, q) == TryMovieSearch(c2, q) == None
  {
  }

  // ---------------------------------------------------------------- fallback chains

  /** The first attempt of `plan` that finds something. */
  function FirstHit<Q>(attempt: Q -> Option<MetadataResult>, plan: seq<Q>): (r: Option<MetadataResult>)
    ensures r.None? <==> forall i :: 0 <= i < |plan| ==> attempt(plan[i]).None?
    ensures r.Some? ==> exists i :: 0 <= i < |plan| && attempt(plan[i]) == r
                                   && forall j :: 0 <= j < i ==> attempt(plan[j]).None?
  {
    if |plan| == 0 then None
    else
      var here := attempt(plan[0]);
      if here.Some? then here
      else
        var rest := FirstHit(attempt, plan[1..]);
        assert forall i :: 1 <= i < |plan| ==> plan[i] == plan[1..][i - 1];
        rest
  }

  /** The attempts actually made: the plan up to and including its first hit. */
  function Attempts<Q>(attempt: Q -> Option<MetadataResult>, plan: seq<Q>): (r: seq<Q>)
    ensures |r| <= |plan| && r == plan[..|r|]
    ensures forall i :: 0 <= i < |r| - 1 ==> attempt(r[i]).None?
    ensures |r| < |plan| ==> |r| > 0 && attempt(r[|r| - 1]).Some?
  {
    if |plan| == 0 then []
    else if attempt(plan[0]).Some? then [plan[0]]
    else [plan[0]] + Attempts(attempt, plan[1..])
  }

  /** The chain's answer depends only on the attempts made: nothing after the first hit is
      consulted. */
  lemma {:induction false} FirstHitOfAttempts<Q>(attempt: Q -> Option<MetadataResult>, plan: seq<Q>)
    ensures FirstHit(attempt, Attempts(attempt, plan)) == FirstHit(attempt, plan)
  {
    if |plan| > 0 && attempt(plan[0]).None? {
      FirstHitOfAttempts(attempt, plan[1..]);
      var a := Attempts(attempt, plan[1..]);
      assert ([plan[0]] + a)[1..] == a;
    }
  }

  /** Running two chains one after the other: the second is consulted only when the first
      finds nothing. */
  lemma {:induction false} FirstHitAppend<Q>(attempt: Q -> Option<MetadataResult>, a: seq<Q>, b: seq<Q>)
    ensures FirstHit(attempt, a + b) == Fallback(FirstHit(attempt, a), FirstHit(attempt, b))
  {
    if |a| > 0 {
      assert (a + b)[1..] == a[1..] + b;
      FirstHitAppend(attempt, a[1..], b);
    } else {
      assert a + b == b;
    }
  }

  /** `tryMovieSearch(q, year ?? undefined) ?? tryMovieSearch(q)`. */
  function WithAndWithoutYear(text: string, year: Option<int>): (r: seq<Query>)
    ensures |r| == 2 && r[0] == Query(text, year) && r[1] == Query(text, None)
  {
    [Query(text, year), Query(text, None)]
  }

  /** `s.split(' ').filter(Boolean)`. */
  function Words(s: string): (r: seq<string>)
    ensures forall w :: w in r ==> w != "" && ' ' !in w
  {
    NonEmptyParts(Split(s, ' '))
  }

  /** One search per text, with the year and then without it, in order. */
  function Paired(texts: seq<string>, year: Option<int>): (r: seq<Query>)
    ensures |r| == 2 * |texts|
    ensures forall k :: 0 <= k < |r| ==> r[k].text == texts[k / 2] && r[k].year == (if k % 2 == 0 then year else None)
  {
    seq(2 * |texts|, k requires 0 <= k < 2 * |texts| => Query(texts[k / 2], if k % 2 == 0 then year else None))
  }

  /** The word-trim loop `for (end = n - 1; end >= max(2, n - maxDrop); end--)`: the first `end`
      words, joined by spaces, for each `end` in turn. */
  function TrimTexts(words: seq<string>, maxDrop: nat): (r: seq<string>)
    ensures forall k :: 0 <= k < |r| ==>
      var e := |words| - 1 - k;
      2 <= e && |words| - maxDrop <= e && e < |words| && r[k] == Join(words[..e], " ")
    ensures |words| <= 2 || maxDrop == 0 ==> r == []
    ensures |words| > 2 && maxDrop > 0 ==> |r| == if maxDrop < |words| - 2 then maxDrop else |words| - 2
  {
    var n := |words|;
    var lo := if n - maxDrop > 2 then n - maxDrop else 2;
    var count := if n - 1 >= lo then n - lo else 0;
    seq(count, k requires 0 <= k < count => Join(words[..n - 1 - k], " "))
  }

  /** The trims of a word list, each searched with and without the year. */
  function Trims(words: seq<string>, maxDrop: nat, year: Option<int>): seq<Query> {
    Paired(TrimTexts(words, maxDrop), year)
  }

  /** Whether `year` is truthy. */
  predicate HasYear(year: Option<int>) { year.Some? && year.value != 0 }

  /** Step 1: the title with its year, only when a year is known. */
  function YearStep(title: string, year: Option<int>): (r: seq<Query>)
    ensures r == [] <==> !HasYear(year)
    ensures forall q :: q in r ==> q == Query(title, year)
  {
    if HasYear(year) then [Query(title, year)] else []
  }

  /** Step 3: the junk-stripped title, only when stripping changed it. */
  function StripStep(title: string, stripped: string, year: Option<int>): (r: seq<Query>)
    ensures r == [] <==> stripped == title
    ensures forall q :: q in r ==> q.text == stripped && q.text != title
  {
    if stripped != title then WithAndWithoutYear(stripped, year) else []
  }

  /** Step 4: trims of the stripped title's words (of the title's when stripping left nothing),
      dropping up to four words. */
  function TrimStep(title: string, stripped: string, year: Option<int>): seq<Query> {
    Trims(Words(if stripped != "" then stripped else title), 4, year)
  }

  /** Steps 5 and 6: an alternative title, then its trims dropping up to three words. */
  function AlternativeStep(alt: string, year: Option<int>): (r: seq<Query>)
    ensures |r| >= 2 && r[0] == Query(alt, year) && r[1] == Query(alt, None)
  {
    WithAndWithoutYear(alt, year) + Trims(Words(alt), 3, year)
  }

  /** Step 5: the text after the year, when there is some. */
  function AfterYearStep(afterYear: Option<string>, year: Option<int>): (r: seq<Query>)
    ensures r == [] <==> !Given(afterYear)
  {
    if Given(afterYear) then AlternativeStep(afterYear.value, year) else []
  }

  /** Step 6: the folder title, when there is one and it differs from the title. */
  function FolderStep(title: string, folder: Option<string>, year: Option<int>): (r: seq<Query>)
    ensures r == [] <==> !Given(folder) || folder.value == title
  {
    if Given(folder) && folder.value != title then AlternativeStep(folder.value, year) else []
  }

  /** The whole movie plan, in order: steps 1 to 6. */
  function MoviePlan(title: string, year: Option<int>, afterYear: Option<string>, folder: Option<string>): seq<Query> {
    var stripped := StripRemainingJunk(title);
    YearStep(title, year) + ([Query(title, None)] + (StripStep(title, stripped, year)
    + (TrimStep(title, stripped, year) + (AfterYearStep(afterYear, year) + FolderStep(title, folder, year)))))
  }

  /** One movie search attempt with the client `c`. */
  function MovieAttempt(c: Tmdb): Query -> Option<MetadataResult> {
    q => TryMovieSearch(c, q)
  }

  /** `fetchMovieMetadata`: nothing without a client (no API key), else the first hit of the plan. */
  function FetchMovieMetadata(client: Option<Tmdb>, title: string, year: Option<int>,
                              afterYear: Option<string>, folder: Option<string>): (r: Option<MetadataResult>)
    ensures client.None? ==> r.None?
  {
    if client.None? then None
    else FirstHit(MovieAttempt(client.value), MoviePlan(title, year, afterYear, folder))
  }

  /** A movie lookup only ever reports the answer to one of the plan's queries. */
  lemma MovieHitFromPlan(c: Tmdb, title: string, year: Option<int>, afterYear: Option<string>, folder: Option<string>)
    ensures var r := FetchMovieMetadata(Some(c), title, year, afterYear, folder);
      r.Some? ==> exists q :: q in MoviePlan(title, year, afterYear, folder) && TryMovieSearch(c, q) == r
  {
    var plan := MoviePlan(title, year, afterYear, folder);
    var r := FirstHit(MovieAttempt(c), plan);
    if r.Some? {
      var i :| 0 <= i < |plan| && MovieAttempt(c)(plan[i]) == r;
      assert plan[i] in plan && TryMovieSearch(c, plan[i]) == r;
    }
  }

  /** The plan opens with the title and its year when a year is known, and with the bare title
      otherwise. */
  lemma MoviePlanStart(title: string, year: Option<int>, afterYear: Option<string>, folder: Option<string>)
    ensures var plan := MoviePlan(title, year, afterYear, folder);
      if HasYear(year) then |plan| >= 2 && plan[0] == Query(title, year) && plan[1] == Query(title, None)
      else |plan| >= 1 && plan[0] == Query(title, None)
  {
    var plan := MoviePlan(title, year, afterYear, folder);
    var later := plan[|YearStep(title, year)|..];
    assert plan[..|YearStep(title, year)|] == YearStep(title, year);
    assert later[0] == Query(title, None);
  }

  /** A hit on the title with its year ends the search before any other query is tried. */
  lemma YearHitWins(c: Tmdb, title: string, year: Option<int>, afterYear: Option<string>, folder: Option<string>)
    requires HasYear(year) && TryMovieSearch(c, Query(title, year)).Some?
    ensures FetchMovieMetadata(Some(c), title, year, afterYear, folder) == TryMovieSearch(c, Query(title, year))
    ensures Attempts(MovieAttempt(c), MoviePlan(title, year, afterYear, folder)) == [Query(title, year)]
  {
    MoviePlanStart(title, year, afterYear, folder);
  }

  /** The steps run in order: each is consulted only when every earlier one has found nothing. */
  lemma {:induction false} MoviePlanOrder(c: Tmdb, title: string, year: Option<int>, afterYear: Option<string>, folder: Option<string>)
    ensures var attempt := MovieAttempt(c);
      var stripped := StripRemainingJunk(title);
      FetchMovieMetadata(Some(c), title, year, afterYear, folder)
      == Fallback(FirstHit(attempt, YearStep(title, year)),
         Fallback(attempt(Query(title, None)),
         Fallback(FirstHit(attempt, StripStep(title, stripped, year)),
         Fallback(FirstHit(attempt, TrimStep(title, stripped, year)),
         Fallback(FirstHit(attempt, AfterYearStep(afterYear, year)),
                  FirstHit(attempt, FolderStep(title, folder, year)))))))
  {
    var attempt := MovieAttempt(c);
    var stripped := StripRemainingJunk(title);
    var s1, s2 := YearStep(title, year), [Query(title, None)];
    var s3, s4 := StripStep(title, stripped, year), TrimStep(title, stripped, year);
    var s5, s6 := AfterYearStep(afterYear, year), FolderStep(title, folder, year);
    FirstHitAppend(attempt, s1, s2 + (s3 + (s4 + (s5 + s6))));
    FirstHitAppend(attempt, s2, s3 + (s4 + (s5 + s6)));
    FirstHitAppend(attempt, s3, s4 + (s5 + s6));
    FirstHitAppend(attempt, s4, s5 + s6);
    FirstHitAppend(attempt, s5, s6);
    assert FirstHit(attempt, s2) == attempt(Query(title, None));
  }

  /** `a ?? b` on lookup results. */
  function Fallback(a: Option<MetadataResult>, b: Option<MetadataResult>): (r: Option<MetadataResult>)
    ensures a.Some? ==> r == a
    ensures a.None? ==> r == b
  {
    if a.Some? then a else b
  }

  /** The show plan: the title, then the junk-stripped title when it differs. */
  function TvPlan(title: string): (r: seq<string>)
    ensures |r| >= 1 && r[0] == title
    ensures |r| == 2 <==> StripRemainingJunk(title) != title
    ensures |r| <= 2 && (|r| == 2 ==> r[1] == StripRemainingJunk(title))
  {
    var stripped := StripRemainingJunk(title);
    [title] + (if stripped != title then [stripped] else [])
  }

  /** `fetchTVMetadata`. */
  function FetchTvMetadata(client: Option<Tmdb>, title: string): (r: Option<MetadataResult>)
    ensures client.None? ==> r.None?
    ensures client.Some? && TryTvSearch(client.value, title).Some? ==> r == TryTvSearch(client.value, title)
    ensures r.Some? ==> r.value.director.None? && r.value.duration.None?
  {
    if client.None? then None
    else
      var c := client.value;
      var r := FirstHit(q => TryTvSearch(c, q), TvPlan(title));
      assert r.Some? ==> exists i :: 0 <= i < |TvPlan(title)| && TryTvSearch(c, TvPlan(title)[i]) == r;
      r
  }

  // ---------------------------------------------------------------- suggestions

  datatype Suggestion = Suggestion(
    tmdbId: string,
    title: string,
    year: Option<int>,
    posterUrl: Option<string>,
    description: Option<string>)

  /** A search hit as a suggestion; an absent id prints as `undefined`. */
  function SuggestionOf(h: Hit, query: string): (r: Suggestion)
    ensures h.id.None? ==> r.tmdbId == "undefined"
    ensures h.id.Some? ==> r.tmdbId == IntToString(h.id.value)
    ensures r.year == ReleaseYear(h.releaseDate) && r.description == h.overview
  {
    Suggestion(
      if h.id.Some? then IntToString(h.id.value) else "undefined",
      h.title.GetOr(h.originalTitle.GetOr(query)),
      ReleaseYear(h.releaseDate),
      ImgUrl("w342", h.posterPath),
      h.overview)
  }

  /** `searchMovieSuggestions`: the first four hits of one search, or nothing without a
      client, for a blank query, or when the search throws. */
  function SearchMovieSuggestions(client: Option<Tmdb>, query: string, year: Option<int>): (r: seq<Suggestion>)
    ensures client.None? || Trim(query) == "" ==> r == []
    ensures |r| <= 4
    ensures client.Some? && Trim(query) != "" ==>
      var reply := client.value.searchMovie(Query(query, year));
      var hits := if reply.SearchResults? then reply.results.GetOr([]) else [];
      |r| == (if |hits| < 4 then |hits| else 4)
      && forall i :: 0 <= i < |r| ==> r[i] == SuggestionOf(hits[i], query)
  {
    if client.None? || Trim(query) == "" then []
    else
      match client.value.searchMovie(Query(query, year))
      case SearchThrew => []
      case SearchResults(results) =>
        var hits := results.GetOr([]);
        var top := if |hits| < 4 then hits else hits[..4];
        seq(|top|, i requires 0 <= i < |top| => SuggestionOf(top[i], query))
  }

  // ---------------------------------------------------------------- credits

  datatype Person = Person(name: string, character: Option<string>, job: Option<string>, profileUrl: Option<string>)

  datatype CrewCategory = CrewCategory(name: string, people: seq<Person>)

  datatype Credits = Credits(
    directors: seq<Person>,
    crewCategories: seq<CrewCategory>,
    cast: seq<Person>,
    genres: seq<string>,
    language: Option<string>)

  /** A named crew category and the jobs it gathers, in priority order. */
  datatype Category = Category(name: string, jobs: seq<string>)

  const CrewCategories: seq<Category> := [
    Category("Writers", ["Writer", "Screenplay", "Story"]),
    Category("Cinematography", ["Director of Photography"]),
    Category("Music", ["Original Music Composer", "Music"]),
    Category("Editing", ["Editor"]),
    Category("Production Design", ["Production Design", "Production Designer"]),
    Category("Costume Design", ["Costume Design", "Costume Designer"]),
    Category("Visual Effects", ["Visual Effects Supervisor", "Visual Effects Producer"]),
    Category("Sound", ["Sound Designer", "Sound Mixer", "Sound Re-Recording Mixer"])
  ]

  /** The crew of every job in `jobs`: job-list order first, crew order within a job. */
  function WithJobs(crew: seq<CrewMember>, jobs: seq<string>): (r: seq<CrewMember>)
    ensures forall m :: m in r <==> m in crew && m.job in jobs
  {
    if |jobs| == 0 then []
    else
      assert forall j :: j in jobs <==> j == jobs[0] || j in jobs[1..];
      WithJob(crew, jobs[0]) + WithJobs(crew, jobs[1..])
  }

  /** Keeps the first member of each name not yet in `seen`. */
  function DedupByName(cs: seq<CrewMember>, seen: set<string>): (r: seq<CrewMember>)
    ensures forall m :: m in r ==> m in cs && m.name !in seen
  {
    if |cs| == 0 then []
    else if cs[0].name in seen then DedupByName(cs[1..], seen)
    else [cs[0]] + DedupByName(cs[1..], seen + {cs[0].name})
  }

  /** No two members share a name. */
  predicate DistinctNames(ms: seq<CrewMember>) {
    forall i, j :: 0 <= i < j < |ms| ==> ms[i].name != ms[j].name
  }

  /** No name is kept twice. */
  lemma {:induction false} DedupDistinct(cs: seq<CrewMember>, seen: set<string>)
    ensures DistinctNames(DedupByName(cs, seen))
  {
    if |cs| > 0 {
      if cs[0].name in seen {
        DedupDistinct(cs[1..], seen);
        assert DedupByName(cs, seen) == DedupByName(cs[1..], seen);
      } else {
        var rest := DedupByName(cs[1..], seen + {cs[0].name});
        DedupDistinct(cs[1..], seen + {cs[0].name});
        assert DedupByName(cs, seen) == [cs[0]] + rest;
        assert forall k :: 0 <= k < |rest| ==> rest[k].name != cs[0].name by {
          assert forall k :: 0 <= k < |rest| ==> rest[k] in rest;
        }
        DistinctCons(cs[0], rest);
      }
    }
  }

  lemma DistinctCons(x: CrewMember, rest: seq<CrewMember>)
    requires DistinctNames(rest) && forall k :: 0 <= k < |rest| ==> rest[k].name != x.name
    ensures DistinctNames([x] + rest)
  {
    var r := [x] + rest;
    assert forall k :: 1 <= k < |r| ==> r[k] == rest[k - 1];
  }

  /** Every name not in `seen` is kept. */
  lemma {:induction false} DedupComplete(cs: seq<CrewMember>, seen: set<string>, i: nat)
    requires i < |cs| && cs[i].name !in seen
    ensures exists m :: m in DedupByName(cs, seen) && m.name == cs[i].name
  {
    if i == 0 {
      assert cs[0] in DedupByName(cs, seen);
    } else if cs[0].name in seen {
      DedupComplete(cs[1..], seen, i - 1);
    } else if cs[i].name == cs[0].name {
      assert cs[0] in DedupByName(cs, seen);
    } else {
      DedupComplete(cs[1..], seen + {cs[0].name}, i - 1);
      var m :| m in DedupByName(cs[1..], seen + {cs[0].name}) && m.name == cs[i].name;
      assert m in DedupByName(cs, seen);
    }
  }

  /** The member kept for a name is the first one carrying that name. */
  lemma {:induction false} DedupFirst(cs: seq<CrewMember>, seen: set<string>, k: nat) returns (i: nat)
    requires k < |DedupByName(cs, seen)|
    ensures i < |cs| && cs[i] == DedupByName(cs, seen)[k]
    ensures forall j :: 0 <= j < i ==> cs[j].name != cs[i].name
  {
    var r := DedupByName(cs, seen);
    assert r[k] in r;
    if cs[0].name in seen {
      assert r == DedupByName(cs[1..], seen);
      var i' := DedupFirst(cs[1..], seen, k);
      i := i' + 1;
      assert cs[i] == r[k] && cs[i].name !in seen;
      assert forall j :: 1 <= j < i ==> cs[j] == cs[1..][j - 1];
    } else if k == 0 {
      i := 0;
    } else {
      var rest := DedupByName(cs[1..], seen + {cs[0].name});
      assert r == [cs[0]] + rest;
      assert r[k] == rest[k - 1] && rest[k - 1] in rest;
      var i' := DedupFirst(cs[1..], seen + {cs[0].name}, k - 1);
      i := i' + 1;
      assert cs[i] == rest[k - 1] && cs[i].name != cs[0].name;
      assert forall j :: 1 <= j < i ==> cs[j] == cs[1..][j - 1];
    }
  }

  function CrewPerson(m: CrewMember): (p: Person)
    ensures p.name == m.name && p.job == Some(m.job) && p.character.None?
  {
    Person(m.name, None, Some(m.job), ImgUrl("w185", m.profilePath))
  }

  /** The crew gathered by a category: job-list order, then crew order, first of each name. */
  function CategoryMembers(crew: seq<CrewMember>, cat: Category): seq<CrewMember> {
    DedupByName(WithJobs(crew, cat.jobs), {})
  }

  /** The people of one category. */
  function CategoryPeople(crew: seq<CrewMember>, cat: Category): (r: seq<Person>)
    ensures |r| == |CategoryMembers(crew, cat)|
  {
    var ms := CategoryMembers(crew, cat);
    seq(|ms|, i requires 0 <= i < |ms| => CrewPerson(ms[i]))
  }

  /** A category lists each name once, and only people of its jobs. */
  lemma CategoryPeopleSound(crew: seq<CrewMember>, cat: Category)
    ensures var r := CategoryPeople(crew, cat);
      (forall i, j :: 0 <= i < j < |r| ==> r[i].name != r[j].name)
      && forall p :: p in r ==> exists m :: m in crew && m.job in cat.jobs && p == CrewPerson(m)
  {
    var ms := CategoryMembers(crew, cat);
    var ps := CategoryPeople(crew, cat);
    DedupDistinct(WithJobs(crew, cat.jobs), {});
    assert forall k :: 0 <= k < |ms| ==> ps[k] == CrewPerson(ms[k]);
    forall p | p in ps ensures exists m :: m in crew && m.job in cat.jobs && p == CrewPerson(m) {
      var k :| 0 <= k < |ps| && ps[k] == p;
      assert ms[k] in ms;
    }
  }

  /** Everyone of the category's jobs is listed under it. */
  lemma CategoryPeopleComplete(crew: seq<CrewMember>, cat: Category, m: CrewMember)
    requires m in crew && m.job in cat.jobs
    ensures exists p :: p in CategoryPeople(crew, cat) && p.name == m.name
  {
    var cs := WithJobs(crew, cat.jobs);
    var i :| 0 <= i < |cs| && cs[i] == m;
    DedupComplete(cs, {}, i);
    var ms := CategoryMembers(crew, cat);
    var x :| x in ms && x.name == m.name;
    var k :| 0 <= k < |ms| && ms[k] == x;
    assert CategoryPeople(crew, cat)[k].name == m.name;
  }

  /** The non-empty categories, in category order. */
  function GroupCrew(crew: seq<CrewMember>, cats: seq<Category>): (r: seq<CrewCategory>)
    ensures |r| <= |cats|
    ensures forall g :: g in r ==> |g.people| > 0
  {
    if |cats| == 0 then []
    else
      var people := CategoryPeople(crew, cats[0]);
      var rest := GroupCrew(crew, cats[1..]);
      if |people| > 0 then [CrewCategory(cats[0].name, people)] + rest else rest
  }

  /** Each group is a category of `cats` with its people; each category with people has a group. */
  lemma {:induction false} GroupCrewSound(crew: seq<CrewMember>, cats: seq<Category>)
    ensures forall g :: g in GroupCrew(crew, cats) ==>
      exists cat :: cat in cats && g == CrewCategory(cat.name, CategoryPeople(crew, cat))
  {
    if |cats| > 0 {
      GroupCrewSound(crew, cats[1..]);
      var people := CategoryPeople(crew, cats[0]);
      var rest := GroupCrew(crew, cats[1..]);
      assert forall cat :: cat in cats[1..] ==> cat in cats;
      if |people| > 0 {
        assert GroupCrew(crew, cats) == [CrewCategory(cats[0].name, people)] + rest;
      } else {
        assert GroupCrew(crew, cats) == rest;
      }
    }
  }

  /** Every category of `cats` with people has its group. */
  lemma {:induction false} GroupCrewHas(crew: seq<CrewMember>, cats: seq<Category>, cat: Category)
    requires cat in cats && |CategoryPeople(crew, cat)| > 0
    ensures CrewCategory(cat.name, CategoryPeople(crew, cat)) in GroupCrew(crew, cats)
  {
    var people := CategoryPeople(crew, cats[0]);
    var rest := GroupCrew(crew, cats[1..]);
    if cat == cats[0] {
      assert GroupCrew(crew, cats) == [CrewCategory(cats[0].name, people)] + rest;
    } else {
      GroupCrewHas(crew, cats[1..], cat);
      if |people| > 0 {
        assert GroupCrew(crew, cats) == [CrewCategory(cats[0].name, people)] + rest;
      }
    }
  }

  /** Every crew member of a category's jobs is listed, once, under that category. */
  lemma GroupCrewComplete(crew: seq<CrewMember>, cats: seq<Category>, cat: Category, m: CrewMember)
    requires cat in cats && m in crew && m.job in cat.jobs
    ensures exists g :: g in GroupCrew(crew, cats) && g.name == cat.name && exists p :: p in g.people && p.name == m.name
  {
    CategoryPeopleComplete(crew, cat, m);
    GroupCrewHas(crew, cats, cat);
    var g := CrewCategory(cat.name, CategoryPeople(crew, cat));
    assert g in GroupCrew(crew, cats);
  }

  /** `cast.slice(0, 8)` as people, an empty character being dropped. */
  function TopCast(cast: seq<CastMember>): (r: seq<Person>)
    ensures |r| == if |cast| < 8 then |cast| else 8
    ensures forall i :: 0 <= i < |r| ==>
      r[i].name == cast[i].name && r[i].job.None? && (r[i].character.Some? <==> Given(cast[i].character))
  {
    var top := if |cast| < 8 then cast else cast[..8];
    seq(|top|, i requires 0 <= i < |top| =>
      Person(top[i].name, if Given(top[i].character) then top[i].character else None, None,
             ImgUrl("w185", top[i].profilePath)))
  }

  /** The spoken languages' names that are present and non-empty, joined, or nothing. */
  function LanguageText(langs: seq<Option<string>>): (r: Option<string>)
    ensures r.None? <==> forall l :: l in langs ==> !Given(l)
  {
    var names := seq(|langs|, i requires 0 <= i < |langs| => langs[i].GetOr(""));
    var kept := NonEmptyParts(names);
    JoinEmpty(kept, ", ");
    assert "" !in kept;
    assert |kept| > 0 ==> kept[0] in kept;
    assert forall l :: l in langs && Given(l) ==> l.value in names by {
      forall l | l in langs && Given(l) ensures l.value in names {
        var i :| 0 <= i < |langs| && langs[i] == l;
        assert names[i] == l.value;
      }
    }
    assert forall x :: x in names && x != "" ==> exists l :: l in langs && Given(l) by {
      forall x | x in names && x != "" ensures exists l :: l in langs && Given(l) {
        var i :| 0 <= i < |names| && names[i] == x;
        assert langs[i] in langs && Given(langs[i]);
      }
    }
    NullIfEmpty(Join(kept, ", "))
  }

  /** The credits assembled from what the lookups returned. */
  function CreditsOf(src: CreditsSource): (r: Credits)
    ensures forall p :: p in r.directors ==> p.job == Some("Director")
    ensures |r.directors| == |WithJob(src.crew, "Director")|
    ensures |r.cast| <= 8 && r.genres == src.genres
    ensures forall g :: g in r.crewCategories ==> |g.people| > 0
  {
    var ds := WithJob(src.crew, "Director");
    Credits(
      seq(|ds|, i requires 0 <= i < |ds| => Person(ds[i].name, None, Some("Director"), ImgUrl("w185", ds[i].profilePath))),
      GroupCrew(src.crew, CrewCategories),
      TopCast(src.cast),
      src.genres,
      LanguageText(src.languages))
  }

  datatype MediaType = Movie | Tv

  /** `fetchCredits`: nothing without a client or when a request throws. */
  function FetchCredits(client: Option<Tmdb>, tmdbId: string, mediaType: MediaType): (r: Option<Credits>)
    ensures client.None? ==> r.None?
    ensures client.Some? ==>
      var src := (if mediaType == Movie then client.value.movieCredits else client.value.tvCredits)(ParseIntAuto(tmdbId));
      (r.None? <==> src.None?) && (r.Some? ==> r.value == CreditsOf(src.value))
  {
    if client.None? then None
    else
      var lookup := if mediaType == Movie then client.value.movieCredits else client.value.tvCredits;
      match lookup(ParseIntAuto(tmdbId))
      case None => None
      case Some(src) => Some(CreditsOf(src))
  }

  // ---------------------------------------------------------------- all-caps junk

  /** A word of three or more ASCII capitals. */
  predicate IsJunkWord(w: string) {
    |w| >= 3 && forall i :: 0 <= i < |w| ==> IsUpperAscii(w[i])
  }

  /** The length of the run of word characters that opens `s`. */
  function WordRun(s: string): (n: nat)
    ensures n <= |s| && forall i :: 0 <= i < n ==> IsWordChar(s[i])
    ensures n < |s| ==> !IsWordChar(s[n])
  {
    if |s| > 0 && IsWordChar(s[0]) then 1 + WordRun(s[1..]) else 0
  }

  /** `s.replace(/\b[A-Z]{3,}\b/g, '')`: every maximal run of word characters that is a junk
      word is removed, everything else is kept. */
  function StripCaps(s: string): (r: string)
    ensures |r| <= |s|
    decreases |s|
  {
    if |s| == 0 then ""
    else if !IsWordChar(s[0]) then [s[0]] + StripCaps(s[1..])
    else
      var n := WordRun(s);
      (if IsJunkWord(s[..n]) then "" else s[..n]) + StripCaps(s[n..])
  }

  /** The reference reading of the pattern: a junk word at `[i, j)` with a word boundary on
      both sides. */
  predicate JunkWordAt(s: string, i: int, j: int) {
    0 <= i < j <= |s| && IsJunkWord(s[i..j])
    && (i == 0 || !IsWordChar(s[i - 1])) && (j == |s| || !IsWordChar(s[j]))
  }

  ghost predicate HasJunkWord(s: string) {
    exists i, j :: JunkWordAt(s, i, j)
  }

  /** A junk word past position `k` is a junk word of `s[k..]`. */
  lemma JunkToTail(s: string, k: nat, i: int, j: int)
    requires JunkWordAt(s, i, j) && k <= i
    ensures JunkWordAt(s[k..], i - k, j - k)
  {
    var t := s[k..];
    assert forall x :: 0 <= x < j - i ==> t[i - k..j - k][x] == s[i + x] == s[i..j][x];
    assert t[i - k..j - k] == s[i..j];
    assert i - k > 0 ==> t[i - k - 1] == s[i - 1];
    assert j - k < |t| ==> t[j - k] == s[j];
  }

  /** A junk word of `s[k..]` is one of `s` unless it starts right after a word character. */
  lemma JunkFromTail(s: string, k: nat, i: int, j: int)
    requires k <= |s| && JunkWordAt(s[k..], i, j)
    requires i == 0 ==> k == 0 || !IsWordChar(s[k - 1])
    ensures JunkWordAt(s, i + k, j + k)
  {
    var t := s[k..];
    assert forall x :: 0 <= x < j - i ==> s[i + k..j + k][x] == s[i + k + x] == t[i..j][x];
    assert s[i + k..j + k] == t[i..j];
    assert i > 0 ==> s[i + k - 1] == t[i - 1];
    assert j < |t| ==> s[j + k] == t[j];
  }

  lemma JunkShiftNonWord(s: string)
    requires |s| > 0 && !IsWordChar(s[0])
    ensures HasJunkWord(s) <==> HasJunkWord(s[1..])
  {
    if HasJunkWord(s) {
      var i, j :| JunkWordAt(s, i, j);
      assert IsUpperAscii(s[i..j][0]);
      JunkToTail(s, 1, i, j);
    }
    if HasJunkWord(s[1..]) {
      var i, j :| JunkWordAt(s[1..], i, j);
      JunkFromTail(s, 1, i, j);
    }
  }

  lemma JunkShiftWord(s: string, n: nat)
    requires n == WordRun(s) && n >= 1 && !IsJunkWord(s[..n])
    ensures HasJunkWord(s) <==> HasJunkWord(s[n..])
  {
    if HasJunkWord(s) {
      var i, j :| JunkWordAt(s, i, j);
      JunkAtStart(s, j);
      assert i != 0 by { assert s[..n] == s[0..n]; }
      assert i - 1 >= n by { assert !IsWordChar(s[i - 1]); }
      JunkToTail(s, n, i, j);
    }
    if HasJunkWord(s[n..]) {
      var i, j :| JunkWordAt(s[n..], i, j);
      var t := s[n..];
      assert !IsWordChar(t[0]) by { assert n < |s| && t[0] == s[n]; }
      assert IsUpperAscii(t[i]) by { assert t[i..j][0] == t[i]; }
      JunkFromTail(s, n, i, j);
    }
  }

  /** A junk word at the very start is the whole opening word run. */
  lemma JunkAtStart(s: string, j: int)
    ensures JunkWordAt(s, 0, j) ==> WordRun(s) == j
  {
    if JunkWordAt(s, 0, j) {
      var n := WordRun(s);
      assert forall k :: 0 <= k < j ==> IsWordChar(s[k]) by {
        forall k | 0 <= k < j ensures IsWordChar(s[k]) {
          assert IsUpperAscii(s[0..j][k]);
        }
      }
      assert n >= j;
      assert n <= j;
    }
  }

  /** `StripCaps` leaves a string unchanged exactly when it holds no junk word. */
  lemma {:induction false} StripCapsIdentity(s: string)
    ensures StripCaps(s) == s <==> !HasJunkWord(s)
    decreases |s|
  {
    if |s| == 0 {
      assert !HasJunkWord(s);
    } else if !IsWordChar(s[0]) {
      StripCapsIdentity(s[1..]);
      JunkShiftNonWord(s);
      StripCapsNonWordStep(s);
    } else {
      var n := WordRun(s);
      if IsJunkWord(s[..n]) {
        StripCapsDropsJunk(s, n);
      } else {
        StripCapsIdentity(s[n..]);
        JunkShiftWord(s, n);
        StripCapsWordStep(s, n);
      }
    }
  }

  lemma StripCapsNonWordStep(s: string)
    requires |s| > 0 && !IsWordChar(s[0])
    ensures StripCaps(s) == s <==> StripCaps(s[1..]) == s[1..]
  {
    var rest := StripCaps(s[1..]);
    assert StripCaps(s) == [s[0]] + rest;
    if rest == s[1..] {
      assert [s[0]] + s[1..] == s;
    }
    if StripCaps(s) == s {
      assert ([s[0]] + rest)[1..] == rest;
    }
  }

  lemma StripCapsWordStep(s: string, n: nat)
    requires n == WordRun(s) && n >= 1 && !IsJunkWord(s[..n])
    ensures StripCaps(s) == s <==> StripCaps(s[n..]) == s[n..]
  {
    assert s == s[..n] + s[n..];
  }

  lemma StripCapsDropsJunk(s: string, n: nat)
    requires n == WordRun(s) && n >= 1 && IsJunkWord(s[..n])
    ensures StripCaps(s) != s && HasJunkWord(s)
  {
    assert s[0..n] == s[..n];
    assert JunkWordAt(s, 0, n);
    assert |StripCaps(s[n..])| < |s|;
  }

  /** `stripRemainingJunk`: junk words removed, whitespace runs collapsed, the ends trimmed. */
  function StripRemainingJunk(title: string): (r: string)
    ensures |r| <= |title|
    ensures |r| > 0 ==> !IsSpace(r[0]) && !IsSpace(r[|r| - 1])
  {
    var t := CollapseSpaces(StripCaps(title));
    Trim(t)
  }

  /** A title that is one junk word vanishes. */
  lemma JunkWordVanishes(w: string)
    requires IsJunkWord(w)
    ensures StripRemainingJunk(w) == ""
  {
    assert forall i :: 0 <= i < |w| ==> IsWordChar(w[i]);
    WordRunAll(w);
    assert w[..|w|] == w && w[|w|..] == "";
  }

  /** A title that is one word of word characters other than a junk word stays as it is. */
  lemma PlainWordKept(w: string)
    requires |w| > 0 && (forall i :: 0 <= i < |w| ==> IsWordChar(w[i])) && !IsJunkWord(w)
    ensures StripRemainingJunk(w) == w
  {
    WordRunAll(w);
    assert w[..|w|] == w && w[|w|..] == "";
    assert StripCaps(w) == w;
    assert forall i :: 0 <= i < |w| ==> !IsSpace(w[i]) by {
      forall i | 0 <= i < |w| ensures !IsSpace(w[i]) { WordCharNotSpace(w[i]); }
    }
    CollapseSingleSpaced(w);
    TrimOfTrimmed(w);
  }

  lemma WordCharNotSpace(c: char)
    requires IsWordChar(c)
    ensures !IsSpace(c)
  {
  }

  lemma {:induction false} WordRunAll(w: string)
    requires forall i :: 0 <= i < |w| ==> IsWordChar(w[i])
    ensures WordRun(w) == |w|
  {
    if |w| > 0 {
      WordRunAll(w[1..]);
    }
  }

  /** "DNA" is removed. */
  lemma DnaRemoved()
    ensures StripRemainingJunk("DNA") == ""
  {
    var w := "DNA";
    assert IsJunkWord(w) by { assert w[0] == 'D' && w[1] == 'N' && w[2] == 'A'; }
    JunkWordVanishes(w);
  }

  /** "AI" is kept: it is too short. */
  lemma ShortCapsKept()
    ensures StripRemainingJunk("AI") == "AI"
  {
    var ai := "AI";
    assert ai[0] == 'A' && ai[1] == 'I';
    PlainWordKept(ai);
  }

  /** "Dna" is kept: it is not all capitals. */
  lemma MixedCaseKept()
    ensures StripRemainingJunk("Dna") == "Dna"
  {
    var dna := "Dna";
    assert dna[0] == 'D' && dna[1] == 'n' && dna[2] == 'a';
    assert !IsJunkWord(dna) by { assert !IsUpperAscii(dna[1]); }
    PlainWordKept(dna);
  }
}
