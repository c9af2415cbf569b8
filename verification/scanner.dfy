/** The library scanner: the walk over the library folders with its counters, the
    single-scan guard, the record each video file is indexed as, and the stored list of
    library folders. The file system is a tree value, the metadata service and the store's
    failures are parameters. */
module Scanner {
  import opened Common
  import opened JsText
  import Paths
  import opened FileUtils
  import opened FileNames
  import Metadata

  // ---------------------------------------------------------------- the file system

  /** What `existsSync` and `readdirSync` report for a folder. */
  datatype Listing = Missing | Unreadable | Listed(entries: seq<Entry>)

  /** A directory entry: a sub-folder with its own listing, a regular file, or anything else
      (a socket, a device, a dangling link). */
  datatype Entry = DirEntry(name: string, listing: Listing) | FileEntry(name: string) | OtherEntry(name: string)

  datatype Totals = Totals(scanned: nat, errors: nat)

  function Plus(a: Totals, b: Totals): Totals {
    Totals(a.scanned + b.scanned, a.errors + b.errors)
  }

  /** The outcome of walking one folder: totals, or the exception `readdirSync` raised. */
  datatype Walk = Done(totals: Totals) | Threw

  function AddWalk(a: Walk, b: Walk): (r: Walk)
    ensures r.Done? <==> a.Done? && b.Done?
  {
    if a.Done? && b.Done? then Done(Plus(a.totals, b.totals)) else Threw
  }

  /** `scanDirectory`: a missing folder counts nothing; sub-folders are walked recursively;
      a regular video file counts as scanned, or as an error when indexing it throws
      (`fails`); every other entry is ignored. */
  function ScanDirectory(dir: string, l: Listing, fails: string -> bool): (r: Walk)
    ensures l.Missing? ==> r == Done(Totals(0, 0))
    ensures l.Unreadable? ==> r.Threw?
    decreases l
  {
    match l
    case Missing => Done(Totals(0, 0))
    case Unreadable => Threw
    case Listed(es) => ScanEntries(dir, es, fails)
  }

  function ScanEntries(dir: string, es: seq<Entry>, fails: string -> bool): (r: Walk)
    decreases es
  {
    if |es| == 0 then Done(Totals(0, 0))
    else AddWalk(ScanEntry(dir, es[0], fails), ScanEntries(dir, es[1..], fails))
  }

  function ScanEntry(dir: string, e: Entry, fails: string -> bool): (r: Walk)
    decreases e
  {
    var full := Paths.Join(dir, e.name);
    match e
    case DirEntry(_, sub) => ScanDirectory(full, sub, fails)
    case FileEntry(_) =>
      if !IsVideoFile(full) then Done(Totals(0, 0))
      else if fails(full) then Done(Totals(0, 1))
      else Done(Totals(1, 0))
    case OtherEntry(_) => Done(Totals(0, 0))
  }

  // ---------------------------------------------------------------- reference walk

  /** Every folder below `l` can be listed. */
  predicate Readable(l: Listing)
    decreases l
  {
    match l
    case Missing => true
    case Unreadable => false
    case Listed(es) => AllReadable(es)
  }

  predicate AllReadable(es: seq<Entry>)
    decreases es
  {
    |es| == 0 || (EntryReadable(es[0]) && AllReadable(es[1..]))
  }

  predicate EntryReadable(e: Entry)
    decreases e
  {
    e.DirEntry? ==> Readable(e.listing)
  }

  /** The full paths of the video files below a folder, in walk order. */
  function VideoPaths(dir: string, l: Listing): (r: seq<string>)
    ensures forall i :: 0 <= i < |r| ==> IsVideoFile(r[i])
    decreases l
  {
    if l.Listed? then EntriesVideoPaths(dir, l.entries) else []
  }

  function EntriesVideoPaths(dir: string, es: seq<Entry>): (r: seq<string>)
    ensures forall i :: 0 <= i < |r| ==> IsVideoFile(r[i])
    decreases es
  {
    if |es| == 0 then [] else EntryVideoPaths(dir, es[0]) + EntriesVideoPaths(dir, es[1..])
  }

  function EntryVideoPaths(dir: string, e: Entry): (r: seq<string>)
    ensures forall i :: 0 <= i < |r| ==> IsVideoFile(r[i])
    decreases e
  {
    var full := Paths.Join(dir, e.name);
    match e
    case DirEntry(_, sub) => VideoPaths(full, sub)
    case FileEntry(_) => if IsVideoFile(full) then [full] else []
    case OtherEntry(_) => []
  }

  /** How many of `paths` fail to index. */
  function Failing(paths: seq<string>, fails: string -> bool): (n: nat)
    ensures n <= |paths|
  {
    if |paths| == 0 then 0 else (if fails(paths[0]) then 1 else 0) + Failing(paths[1..], fails)
  }

  lemma {:induction false} FailingAppend(a: seq<string>, b: seq<string>, fails: string -> bool)
    ensures Failing(a + b, fails) == Failing(a, fails) + Failing(b, fails)
    decreases |a|
  {
    if |a| > 0 {
      assert (a + b)[0] == a[0] && (a + b)[1..] == a[1..] + b;
      FailingAppend(a[1..], b, fails);
    } else {
      assert a + b == b;
    }
  }

  /** What the counters mean: a walk throws exactly when some folder below cannot be listed;
      otherwise every video file is counted once, as an error when indexing it fails and as
      scanned when it does not. */
  predicate Counts(w: Walk, readable: bool, paths: seq<string>, fails: string -> bool) {
    (w.Done? <==> readable)
    && (w.Done? ==> w.totals.errors == Failing(paths, fails)
                    && w.totals.scanned + w.totals.errors == |paths|)
  }

  lemma {:induction false} ScanDirectoryCounts(dir: string, l: Listing, fails: string -> bool)
    ensures Counts(ScanDirectory(dir, l, fails), Readable(l), VideoPaths(dir, l), fails)
    decreases l
  {
    if l.Listed? {
      ScanEntriesCounts(dir, l.entries, fails);
    }
  }

  lemma {:induction false} ScanEntriesCounts(dir: string, es: seq<Entry>, fails: string -> bool)
    ensures Counts(ScanEntries(dir, es, fails), AllReadable(es), EntriesVideoPaths(dir, es), fails)
    decreases es
  {
    if |es| > 0 {
      ScanEntryCounts(dir, es[0], fails);
      ScanEntriesCounts(dir, es[1..], fails);
      FailingAppend(EntryVideoPaths(dir, es[0]), EntriesVideoPaths(dir, es[1..]), fails);
    }
  }

  lemma {:induction false} ScanEntryCounts(dir: string, e: Entry, fails: string -> bool)
    ensures Counts(ScanEntry(dir, e, fails), EntryReadable(e), EntryVideoPaths(dir, e), fails)
    decreases e
  {
    if e.DirEntry? {
      ScanDirectoryCounts(Paths.Join(dir, e.name), e.listing, fails);
    } else if e.FileEntry? {
      var full := Paths.Join(dir, e.name);
      if IsVideoFile(full) {
        assert EntryVideoPaths(dir, e) == [full];
        assert Failing([full], fails) == (if fails(full) then 1 else 0);
      }
    }
  }

  // ---------------------------------------------------------------- scanLibrary

  /** The scan's reply: the summed totals, or the rejection of the returned promise. */
  datatype ScanReply = Finished(totals: Totals) | Rejected

  /** The module-level `scanInProgress` flag after a call, and the reply. */
  datatype ScanStep = ScanStep(reply: ScanReply, inProgress: bool)

  /** Walks the library folders in order, stopping at the first one that throws. */
  function ScanAll(roots: seq<string>, fs: string -> Listing, fails: string -> bool): (r: Walk)
  {
    if |roots| == 0 then Done(Totals(0, 0))
    else AddWalk(ScanDirectory(roots[0], fs(roots[0]), fails), ScanAll(roots[1..], fs, fails))
  }

  /** `scanLibrary`: a call made while a scan runs returns zero totals and leaves the flag
      set; otherwise the library folders are walked and the flag is cleared afterwards,
      whether the walk finished or threw. */
  function ScanLibrary(inProgress: bool, roots: seq<string>, fs: string -> Listing, fails: string -> bool): (r: ScanStep)
    ensures inProgress ==> r == ScanStep(Finished(Totals(0, 0)), true)
    ensures !inProgress ==> !r.inProgress
  {
    if inProgress then ScanStep(Finished(Totals(0, 0)), true)
    else
      var w := ScanAll(roots, fs, fails);
      ScanStep(if w.Done? then Finished(w.totals) else Rejected, false)
  }

  /** The library's video files, folder after folder. */
  function LibraryVideoPaths(roots: seq<string>, fs: string -> Listing): (r: seq<string>)
  {
    if |roots| == 0 then [] else VideoPaths(roots[0], fs(roots[0])) + LibraryVideoPaths(roots[1..], fs)
  }

  predicate LibraryReadable(roots: seq<string>, fs: string -> Listing) {
    forall i :: 0 <= i < |roots| ==> Readable(fs(roots[i]))
  }

  lemma {:induction false} ScanAllCounts(roots: seq<string>, fs: string -> Listing, fails: string -> bool)
    ensures Counts(ScanAll(roots, fs, fails), LibraryReadable(roots, fs), LibraryVideoPaths(roots, fs), fails)
    decreases |roots|
  {
    if |roots| > 0 {
      ScanDirectoryCounts(roots[0], fs(roots[0]), fails);
      ScanAllCounts(roots[1..], fs, fails);
      FailingAppend(VideoPaths(roots[0], fs(roots[0])), LibraryVideoPaths(roots[1..], fs), fails);
      LibraryReadableCons(roots, fs);
    }
  }

  lemma LibraryReadableCons(roots: seq<string>, fs: string -> Listing)
    requires |roots| > 0
    ensures LibraryReadable(roots, fs) <==> Readable(fs(roots[0])) && LibraryReadable(roots[1..], fs)
  {
    if Readable(fs(roots[0])) && LibraryReadable(roots[1..], fs) {
      forall i | 0 <= i < |roots| ensures Readable(fs(roots[i])) {
        if i > 0 { assert roots[i] == roots[1..][i - 1]; }
      }
    }
  }

  /** A scan that is let through counts every video file in the library once: failures as
      errors, the rest as scanned; it is rejected exactly when some folder cannot be listed. */
  lemma ScanLibraryCounts(roots: seq<string>, fs: string -> Listing, fails: string -> bool)
    ensures var r := ScanLibrary(false, roots, fs, fails);
      (r.reply.Finished? <==> LibraryReadable(roots, fs))
      && (r.reply.Finished? ==>
            r.reply.totals.errors == Failing(LibraryVideoPaths(roots, fs), fails)
            && r.reply.totals.scanned + r.reply.totals.errors == |LibraryVideoPaths(roots, fs)|)
  {
    ScanAllCounts(roots, fs, fails);
  }

  /** A library folder that does not exist contributes nothing and throws nothing. */
  lemma MissingRootAddsNothing(root: string, rest: seq<string>, fs: string -> Listing, fails: string -> bool)
    requires fs(root) == Missing
    ensures ScanAll([root] + rest, fs, fails) == ScanAll(rest, fs, fails)
  {
    assert ([root] + rest)[1..] == rest;
    var w := ScanAll(rest, fs, fails);
    if w.Done? {
      assert Plus(Totals(0, 0), w.totals) == w.totals;
    }
  }

  // ---------------------------------------------------------------- indexing one file

  datatype MediaKind = MovieKind | EpisodeKind

  /** The row `indexVideoFile` upserts (the codec column is always null). */
  datatype MediaRecord = MediaRecord(
    title: string,
    sortTitle: string,
    kind: MediaKind,
    year: Option<int>,
    genre: Option<string>,
    filePath: string,
    fileSize: nat,
    duration: Option<int>,
    tmdbId: Option<string>,
    posterUrl: Option<string>,
    backdropUrl: Option<string>,
    description: Option<string>,
    rating: Option<real>,
    director: Option<string>)

  /** Two-digit zero-padded season or episode number. */
  function Pad(n: nat): (r: string)
    ensures n < 100 ==> |r| == 2 && AllDigits(r)
  {
    assert 10 <= n < 100 ==> NatToString(n) == NatToString(n / 10) + [DigitChar(n % 10)];
    PadStart2(NatToString(n))
  }

  /** The two padded digits read back the number. */
  lemma PadValue(n: nat)
    requires n < 100
    ensures |Pad(n)| == 2 && DigitValue(Pad(n)[0]) * 10 + DigitValue(Pad(n)[1]) == n
  {
    if n >= 10 {
      assert NatToString(n) == NatToString(n / 10) + [DigitChar(n % 10)];
      assert Pad(n) == [DigitChar(n / 10), DigitChar(n % 10)];
    } else {
      assert Pad(n) == ['0', DigitChar(n)];
    }
  }

  /** The stored episode title: `<show> - S<ss>E<ee>`, then ` - <title>` when the parsed
      episode title is non-empty. */
  function EpisodeTitle(show: string, season: nat, episode: nat, episodeTitle: Option<string>): (r: string)
    ensures StartsWith(r, show + " - S")
  {
    var head := show + " - S" + Pad(season) + "E" + Pad(episode);
    assert StartsWith(head, show + " - S") by {
      assert head == (show + " - S") + (Pad(season) + "E" + Pad(episode));
    }
    if Given(episodeTitle) then head + " - " + episodeTitle.value else head
  }

  /** The episode branch: the show's metadata supplies the display name and the shared
      fields; the director is never set. */
  function EpisodeRecord(info: EpisodeInfo, showMeta: Option<Metadata.MetadataResult>, filePath: string, size: nat): (r: MediaRecord)
    ensures var show := if showMeta.Some? then showMeta.value.title else info.showName;
      r.title == EpisodeTitle(show, info.season, info.episode, info.episodeTitle)
      && r.sortTitle == MakeSortTitle(show)
    ensures r.kind == EpisodeKind && r.filePath == filePath && r.fileSize == size && r.director.None?
    ensures showMeta.None? ==> r.year.None? && r.tmdbId.None? && r.posterUrl.None?
  {
    var show := if showMeta.Some? then showMeta.value.title else info.showName;
    var title := EpisodeTitle(show, info.season, info.episode, info.episodeTitle);
    if showMeta.None? then
      MediaRecord(title, MakeSortTitle(show), EpisodeKind, None, None, filePath, size,
                  None, None, None, None, None, None, None)
    else
      var m := showMeta.value;
      MediaRecord(title, MakeSortTitle(show), EpisodeKind, m.year, m.genre, filePath, size,
                  m.duration, Some(m.tmdbId), m.posterUrl, m.backdropUrl, m.description, m.rating, None)
  }

  /** The parent folder's title becomes a search candidate only when it is non-empty, not
      the file's own title, and longer than three
      UTF-16 code units. */
  function FolderCandidate(folderTitle: string, title: string): (r: Option<string>)
    ensures r.Some? ==> r.value == folderTitle
    ensures r.None? <==> (Utf16Length(folderTitle) <= 3 || folderTitle == title)
  {
    if folderTitle != "" && folderTitle != title && Utf16Length(folderTitle) > 3 then Some(folderTitle) else None
  }

  /** The title a movie is stored under: the metadata title, else the parsed title, and
      `Unknown` when the chosen one is empty. */
  function DisplayTitle(meta: Option<Metadata.MetadataResult>, title: string): (r: string)
    ensures r != ""
    ensures meta.Some? && meta.value.title != "" ==> r == meta.value.title
    ensures meta.None? && title != "" ==> r == title
  {
    var t := if meta.Some? then meta.value.title else title;
    if t == "" then "Unknown" else t
  }

  /** The movie branch's row, from the parsed title, the year chosen and the lookup. */
  function MovieRecord(title: string, year: Option<int>, meta: Option<Metadata.MetadataResult>, filePath: string, size: nat): (r: MediaRecord)
    ensures r.title == DisplayTitle(meta, title) && r.sortTitle == MakeSortTitle(r.title)
    ensures r.kind == MovieKind && r.filePath == filePath && r.fileSize == size
    ensures r.year == (if meta.Some? && meta.value.year.Some? then meta.value.year else year)
    ensures meta.None? ==> r.director.None? && r.tmdbId.None? && r.genre.None?
  {
    var display := DisplayTitle(meta, title);
    if meta.None? then
      MediaRecord(display, MakeSortTitle(display), MovieKind, year, None, filePath, size,
                  None, None, None, None, None, None, None)
    else
      var m := meta.value;
      MediaRecord(display, MakeSortTitle(display), MovieKind, if m.year.Some? then m.year else year,
                  m.genre, filePath, size, m.duration, Some(m.tmdbId), m.posterUrl, m.backdropUrl,
                  m.description, m.rating, m.director)
  }

  /** The inputs of the movie lookup: the file's parse, the folder's parse, the year and
      the folder candidate. */
  datatype MovieLookup = MovieLookup(file: ParsedMovie, folder: ParsedMovie, year: Option<int>, candidate: Option<string>)

  function MovieLookupOf(filePath: string, currentYear: int, stripJunk: string -> string): (r: MovieLookup)
    ensures r.file == ParseMovie(filePath, currentYear, stripJunk)
    ensures r.year == (if r.file.year.Some? then r.file.year else r.folder.year)
    ensures r.year.Some? ==> Plausible(r.year.value, currentYear)
    ensures r.candidate.Some? ==> r.candidate.value != r.file.title && Utf16Length(r.candidate.value) > 3
  {
    var file := ParseMovie(filePath, currentYear, stripJunk);
    var folder := ParseMovie(Paths.BaseName(Paths.DirName(filePath)) + ".mkv", currentYear, stripJunk);
    MovieLookup(file, folder, if file.year.Some? then file.year else folder.year,
                FolderCandidate(folder.title, file.title))
  }

  /** `indexVideoFile`: an episode file whose name does not parse is skipped (no row);
      other episode files become episode rows, everything else a movie row. */
  function IndexVideoFile(filePath: string, size: nat, client: Option<Metadata.Tmdb>,
                          currentYear: int, stripJunk: string -> string): (r: Option<MediaRecord>)
    ensures r.None? <==> IsEpisodeFile(filePath) && ParseEpisode(filePath).None?
    ensures r.Some? ==> r.value.filePath == filePath && r.value.fileSize == size
    ensures r.Some? ==> (r.value.kind == EpisodeKind <==> IsEpisodeFile(filePath))
  {
    if IsEpisodeFile(filePath) then
      var info := ParseEpisode(filePath);
      if info.None? then None
      else Some(EpisodeRecord(info.value, Metadata.FetchTvMetadata(client, info.value.showName), filePath, size))
    else
      var m := MovieLookupOf(filePath, currentYear, stripJunk);
      var meta := Metadata.FetchMovieMetadata(client, m.file.title, m.year, m.file.titleAfterYear, m.candidate);
      Some(MovieRecord(m.file.title, m.year, meta, filePath, size))
  }

  /** Without a metadata client a movie keeps its parsed title (or `Unknown`) and the year
      from the file name, else from the folder name. */
  lemma OfflineMovie(filePath: string, size: nat, currentYear: int, stripJunk: string -> string)
    requires !IsEpisodeFile(filePath)
    ensures var r := IndexVideoFile(filePath, size, None, currentYear, stripJunk);
      var m := MovieLookupOf(filePath, currentYear, stripJunk);
      r.Some? && r.value.title == (if m.file.title == "" then "Unknown" else m.file.title)
      && r.value.year == m.year && r.value.director.None?
  {
  }

  /** Without a metadata client an episode row carries the parsed show name. */
  lemma OfflineEpisode(filePath: string, size: nat, currentYear: int, stripJunk: string -> string)
    requires IsEpisodeFile(filePath) && ParseEpisode(filePath).Some?
    ensures var r := IndexVideoFile(filePath, size, None, currentYear, stripJunk);
      var info := ParseEpisode(filePath).value;
      r.Some? && r.value.title == EpisodeTitle(info.showName, info.season, info.episode, info.episodeTitle)
      && r.value.sortTitle == MakeSortTitle(info.showName) && r.value.year.None?
  {
  }

  // ---------------------------------------------------------------- getLibraryPaths

  /** `getLibraryPaths`: the stored JSON list, or [] when the setting is absent, empty, or
      does not parse (`parse` stands for `JSON.parse`, `None` for its exception). */
  function GetLibraryPaths(raw: Option<string>, parse: string -> Option<seq<string>>): (r: seq<string>)
    ensures raw.None? || raw.value == "" ==> r == []
    ensures raw.Some? && raw.value != "" && parse(raw.value).None? ==> r == []
    ensures raw.Some? && raw.value != "" && parse(raw.value).Some? ==> r == parse(raw.value).value
  {
    if raw.None? || raw.value == "" then []
    else if parse(raw.value).None? then []
    else parse(raw.value).value
  }
}
