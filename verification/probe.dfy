/** The media prober: which of ffprobe's streams the server plays, how audio and
    subtitle streams become track lists, and which files next to a video are taken as
    its subtitle sidecars. ffprobe itself and the directory listing are inputs. */
module Probe {
  import opened Common
  import opened JsText
  import Paths

  datatype Kind = Video | Audio | Subtitle | OtherKind

  /** One entry of ffprobe's `streams`, with the optional fields the server reads. */
  datatype Stream = Stream(
    index: int,
    kind: Kind,
    codecName: Option<string>,
    attachedPic: Option<int>,
    forced: Option<int>,
    language: Option<string>,
    title: Option<string>,
    channels: Option<int>,
    width: Option<int>,
    height: Option<int>)

  datatype AudioTrack = AudioTrack(index: int, codec: string, language: Option<string>, channels: int, title: Option<string>)

  datatype SubtitleTrack = SubtitleTrack(index: int, codec: string, language: Option<string>, title: Option<string>, forced: bool)

  /** ffprobe's answer: the streams and the container format (`duration`, `format_name`). */
  datatype Metadata = Metadata(streams: seq<Stream>, duration: Option<real>, formatName: Option<string>)

  datatype ProbeResult = ProbeResult(
    videoCodec: Option<string>,
    videoStreamIndex: Option<int>,
    audioCodec: Option<string>,
    width: Option<int>,
    height: Option<int>,
    durationSeconds: Option<int>,
    audioTracks: seq<AudioTrack>,
    subtitleTracks: seq<SubtitleTrack>,
    container: Option<string>)

  datatype ProbeOutcome = Rejected | Probed(result: ProbeResult)

  // ---------------------------------------------------------------- video stream choice

  /** Cover art embedded as a video stream (`disposition.attached_pic === 1`). */
  predicate IsCover(s: Stream) { s.attachedPic == Some(1) }

  predicate Eligible(s: Stream, skipCovers: bool) {
    s.kind == Video && (skipCovers ==> !IsCover(s))
  }

  /** Position of the first eligible stream at or after `k`. */
  function FirstEligible(streams: seq<Stream>, k: nat, skipCovers: bool): (r: Option<nat>)
    requires k <= |streams|
    ensures r.Some? ==> k <= r.value < |streams| && Eligible(streams[r.value], skipCovers)
    ensures r.Some? ==> forall j :: k <= j < r.value ==> !Eligible(streams[j], skipCovers)
    ensures r.None? ==> forall j :: k <= j < |streams| ==> !Eligible(streams[j], skipCovers)
    decreases |streams| - k
  {
    if k == |streams| then None
    else if Eligible(streams[k], skipCovers) then Some(k)
    else FirstEligible(streams, k + 1, skipCovers)
  }

  /** The played video stream: the first that is not cover art, else the first video
      stream, else none. */
  function ChooseVideo(streams: seq<Stream>): (r: Option<nat>)
    ensures r.None? <==> forall j :: 0 <= j < |streams| ==> streams[j].kind != Video
    ensures r.Some? ==> r.value < |streams| && streams[r.value].kind == Video
    ensures r.Some? && !IsCover(streams[r.value]) ==>
      forall j :: 0 <= j < r.value ==> !(streams[j].kind == Video && !IsCover(streams[j]))
    ensures r.Some? && IsCover(streams[r.value]) ==>
      (forall j :: 0 <= j < |streams| && streams[j].kind == Video ==> IsCover(streams[j])) &&
      (forall j :: 0 <= j < r.value ==> streams[j].kind != Video)
  {
    var plain := FirstEligible(streams, 0, true);
    if plain.Some? then plain else FirstEligible(streams, 0, false)
  }

  // ---------------------------------------------------------------- track lists

  function AudioTrackOf(s: Stream): AudioTrack {
    AudioTrack(s.index, s.codecName.GetOr("unknown"), s.language, s.channels.GetOr(2), s.title)
  }

  function SubtitleTrackOf(s: Stream): SubtitleTrack {
    SubtitleTrack(s.index, s.codecName.GetOr("unknown"), s.language, s.title, s.forced == Some(1))
  }

  /** The audio streams, in order, as tracks. */
  function AudioTracks(streams: seq<Stream>): (r: seq<AudioTrack>)
    ensures |r| <= |streams|
    ensures forall t :: t in r ==> exists s :: s in streams && s.kind == Audio && t == AudioTrackOf(s)
    ensures (forall s :: s in streams ==> s.kind != Audio) <==> r == []
  {
    if |streams| == 0 then []
    else
      var rest := AudioTracks(streams[1..]);
      assert forall s :: s in streams <==> s == streams[0] || s in streams[1..];
      if streams[0].kind == Audio then [AudioTrackOf(streams[0])] + rest else rest
  }

  /** The subtitle streams, in order, as tracks. */
  function SubtitleTracks(streams: seq<Stream>): (r: seq<SubtitleTrack>)
    ensures |r| <= |streams|
    ensures forall t :: t in r ==> exists s :: s in streams && s.kind == Subtitle && t == SubtitleTrackOf(s)
  {
    if |streams| == 0 then []
    else
      var rest := SubtitleTracks(streams[1..]);
      assert forall s :: s in streams <==> s == streams[0] || s in streams[1..];
      if streams[0].kind == Subtitle then [SubtitleTrackOf(streams[0])] + rest else rest
  }

  /** The track lists are built stream by stream: the list of a concatenation is the
      concatenation of the lists, and one stream contributes one track exactly when it
      has the right kind. */
  lemma {:induction false} TracksAppend(a: seq<Stream>, b: seq<Stream>)
    ensures AudioTracks(a + b) == AudioTracks(a) + AudioTracks(b)
    ensures SubtitleTracks(a + b) == SubtitleTracks(a) + SubtitleTracks(b)
    decreases |a|
  {
    if |a| > 0 {
      assert (a + b)[1..] == a[1..] + b;
      TracksAppend(a[1..], b);
    } else {
      assert a + b == b;
    }
  }

  lemma TracksOfOne(s: Stream)
    ensures AudioTracks([s]) == (if s.kind == Audio then [AudioTrackOf(s)] else [])
    ensures SubtitleTracks([s]) == (if s.kind == Subtitle then [SubtitleTrackOf(s)] else [])
  {
    assert [s][1..] == [];
  }

  /** A subtitle track is forced exactly when ffprobe flags it `forced: 1`; absent tags
      give absent language and title, and a missing codec name reads `unknown`. */
  lemma SubtitleTrackFields(s: Stream)
    requires s.kind == Subtitle
    ensures var t := SubtitleTracks([s])[0];
      t.index == s.index && (t.forced <==> s.forced == Some(1)) &&
      (s.language.None? ==> t.language.None?) && (s.title.None? ==> t.title.None?) &&
      (s.codecName.None? ==> t.codec == "unknown")
  {
    TracksOfOne(s);
  }

  /** An audio track takes two channels and codec `unknown` when ffprobe omits them. */
  lemma AudioTrackDefaults(s: Stream)
    requires s.kind == Audio
    ensures var t := AudioTracks([s])[0];
      t.index == s.index && (s.channels.None? ==> t.channels == 2) && (s.channels.Some? ==> t.channels == s.channels.value) &&
      (s.codecName.None? ==> t.codec == "unknown")
  {
    TracksOfOne(s);
  }

  // ---------------------------------------------------------------- the probe result

  /** First audio stream's codec name, if any (no `unknown` default here). */
  function FirstAudioCodec(streams: seq<Stream>): (r: Option<string>)
    ensures r.Some? ==> exists j :: 0 <= j < |streams| && streams[j].kind == Audio && streams[j].codecName == r
  {
    if |streams| == 0 then None
    else if streams[0].kind == Audio then streams[0].codecName
    else FirstAudioCodec(streams[1..])
  }

  /** The first audio track describes the stream `audioCodec` names. */
  lemma {:induction false} AudioCodecIsFirstTrack(streams: seq<Stream>)
    ensures FirstAudioCodec(streams).Some? ==> |AudioTracks(streams)| > 0 && AudioTracks(streams)[0].codec == FirstAudioCodec(streams).value
    ensures AudioTracks(streams) == [] ==> FirstAudioCodec(streams).None?
  {
    if |streams| > 0 && streams[0].kind != Audio {
      AudioCodecIsFirstTrack(streams[1..]);
    }
  }

  /** `Math.round` of a duration in seconds (halves round up). */
  function RoundHalfUp(x: real): (n: int)
    ensures n as real - 0.5 <= x < n as real + 0.5
  {
    (x + 0.5).Floor
  }

  /** `p` describes video stream `s`: its index and codec name. */
  predicate Reports(p: ProbeResult, s: Stream) {
    s.kind == Video && p.videoStreamIndex == Some(s.index) && p.videoCodec == s.codecName
  }

  /** `probeFile`: a failed ffprobe rejects, otherwise the chosen video stream, the track
      lists and the container are reported. */
  function ProbeFile(reply: Option<Metadata>): (r: ProbeOutcome)
    ensures reply.None? <==> r.Rejected?
    ensures r.Probed? ==> var m := reply.value; var p := r.result;
      (p.videoStreamIndex.None? <==> forall j :: 0 <= j < |m.streams| ==> m.streams[j].kind != Video) &&
      (p.videoStreamIndex.None? ==> p.videoCodec.None? && p.width.None? && p.height.None?) &&
      (p.videoStreamIndex.Some? ==> exists j :: 0 <= j < |m.streams| && Reports(p, m.streams[j])) &&
      (p.durationSeconds.None? <==> m.duration.None? || m.duration.value == 0.0) &&
      p.container == m.formatName
    ensures r.Probed? ==> var m := reply.value; var p := r.result;
      ChooseVideo(m.streams).Some? ==>
        var s := m.streams[ChooseVideo(m.streams).value];
        Reports(p, s) && p.width == s.width && p.height == s.height
    ensures r.Probed? ==> var m := reply.value; var p := r.result;
      p.audioTracks == AudioTracks(m.streams) && p.subtitleTracks == SubtitleTracks(m.streams)
      && p.audioCodec == FirstAudioCodec(m.streams)
    ensures r.Probed? ==> var m := reply.value; var p := r.result;
      p.durationSeconds.Some? ==> p.durationSeconds.value == RoundHalfUp(m.duration.value)
  {
    match reply
    case None => Rejected
    case Some(m) =>
      var v := ChooseVideo(m.streams);
      var vs := if v.Some? then Some(m.streams[v.value]) else None;
      Probed(ProbeResult(
        if vs.Some? then vs.value.codecName else None,
        if vs.Some? then Some(vs.value.index) else None,
        FirstAudioCodec(m.streams),
        if vs.Some? then vs.value.width else None,
        if vs.Some? then vs.value.height else None,
        if m.duration.Some? && m.duration.value != 0.0 then Some(RoundHalfUp(m.duration.value)) else None,
        AudioTracks(m.streams),
        SubtitleTracks(m.streams),
        m.formatName))
  }

  /** A cover image is reported as the video only when the file has no other video stream:
      with a real video stream at `j`, the reported one is real and listed no later. The
      reported duration is the probed one within half a second. */
  lemma ProbePrefersRealVideo(m: Metadata, j: nat)
    requires j < |m.streams| && m.streams[j].kind == Video && !IsCover(m.streams[j])
    ensures var p := ProbeFile(Some(m)).result;
      exists k :: 0 <= k <= j && !IsCover(m.streams[k]) && Reports(p, m.streams[k])
    ensures var p := ProbeFile(Some(m)).result;
      p.durationSeconds.Some? ==>
        p.durationSeconds.value as real - 0.5 <= m.duration.value < p.durationSeconds.value as real + 0.5
  {
    var k := ChooseVideo(m.streams).value;
    assert !IsCover(m.streams[k]);
    assert k <= j;
  }

  /** The reported audio codec is the codec of the first listed audio track. */
  lemma ProbeAudioAgrees(m: Metadata)
    ensures var p := ProbeFile(Some(m)).result;
      (p.audioCodec.Some? ==> |p.audioTracks| > 0 && p.audioTracks[0].codec == p.audioCodec.value) &&
      (p.audioTracks == [] ==> p.audioCodec.None?)
  {
    AudioCodecIsFirstTrack(m.streams);
  }

  // ---------------------------------------------------------------- sidecar subtitles

  const SubtitleExtensions: seq<string> := [".srt", ".vtt", ".ass", ".ssa", ".sub"]

  datatype SubFormat = Srt | Vtt | Ass | Ssa | Sub

  function FormatName(f: SubFormat): string {
    match f
    case Srt => "srt" case Vtt => "vtt" case Ass => "ass" case Ssa => "ssa" case Sub => "sub"
  }

  datatype ExternalSubtitle = ExternalSubtitle(filePath: string, language: Option<string>, forced: bool, format: SubFormat)

  /** The subtitle format a lower-cased extension names, decided letter by letter. */
  function FormatOfExt(e: string): (r: Option<SubFormat>)
    ensures r.Some? ==> "." + FormatName(r.value) == e
  {
    if |e| != 4 || e[0] != '.' then None
    else if e[1] == 's' && e[2] == 'r' && e[3] == 't' then Some(Srt)
    else if e[1] == 'v' && e[2] == 't' && e[3] == 't' then Some(Vtt)
    else if e[1] == 'a' && e[2] == 's' && e[3] == 's' then Some(Ass)
    else if e[1] == 's' && e[2] == 's' && e[3] == 'a' then Some(Ssa)
    else if e[1] == 's' && e[2] == 'u' && e[3] == 'b' then Some(Sub)
    else None
  }

  /** The letter-by-letter decision accepts exactly the listed extensions. */
  lemma FormatOfExtListed(e: string)
    ensures FormatOfExt(e).Some? <==> e in SubtitleExtensions
  {
    if FormatOfExt(e).Some? {
      assert e == "." + FormatName(FormatOfExt(e).value);
    }
    if e == ".srt" { assert e[1] == 's' && e[2] == 'r' && e[3] == 't'; }
    if e == ".vtt" { assert e[1] == 'v' && e[2] == 't' && e[3] == 't'; }
    if e == ".ass" { assert e[1] == 'a' && e[2] == 's' && e[3] == 's'; }
    if e == ".ssa" { assert e[1] == 's' && e[2] == 's' && e[3] == 'a'; }
    if e == ".sub" { assert e[1] == 's' && e[2] == 'u' && e[3] == 'b'; }
  }

  /** `s.slice(a, b)` for `0 <= a` and `0 <= b <= |s|`: empty when the bounds cross. */
  function Slice(s: string, a: nat, b: nat): (r: string)
    requires b <= |s|
    ensures a <= b ==> r == s[a..b]
    ensures a > b ==> r == ""
  {
    if a <= b then s[a..b] else ""
  }

  /** The text between the video's base name and the entry's extension. */
  function Middle(base: string, entry: string): string {
    var e := Paths.ExtName(entry);
    Slice(entry, |base|, |entry| - |e|)
  }

  /** What a sidecar name says between base name and extension. */
  datatype Tags = Tags(language: Option<string>, forced: bool)

  /** The language is the first non-empty `.`-segment of `mid`; the file is forced when
      some segment is exactly `forced`. */
  function TagsOf(mid: string): (t: Tags)
    ensures t.forced <==> "forced" in Split(mid, '.')
    ensures t.language.Some? ==> t.language.value != "" && '.' !in t.language.value && t.language.value in Split(mid, '.')
  {
    var parts := NonEmptyParts(Split(mid, '.'));
    assert |parts| > 0 ==> parts[0] in parts;
    Tags(if |parts| > 0 then Some(parts[0]) else None, "forced" in parts)
  }

  /** The sidecar record for one directory entry, if it qualifies. */
  function Sidecar(dir: string, base: string, entry: string): (r: Option<ExternalSubtitle>)
    ensures r.Some? ==> FromEntry(dir, base, entry, r.value)
    ensures r.Some? ==> "." + FormatName(r.value.format) == ToLower(Paths.ExtName(entry))
  {
    var f := FormatOfExt(ToLower(Paths.ExtName(entry)));
    if f.None? || !StartsWith(entry, base) then None
    else
      var t := TagsOf(Middle(base, entry));
      Some(ExternalSubtitle(Paths.Join(dir, entry), t.language, t.forced, f.value))
  }

  /** An entry qualifies exactly when its lower-cased extension is one of the five
      subtitle extensions and its name starts (case-sensitively) with the video's base;
      its language and forced flag are then read from the text in between. */
  lemma SidecarQualifies(dir: string, base: string, entry: string)
    ensures Sidecar(dir, base, entry).Some? <==> ToLower(Paths.ExtName(entry)) in SubtitleExtensions && StartsWith(entry, base)
    ensures Sidecar(dir, base, entry).Some? ==>
      Sidecar(dir, base, entry).value.language == TagsOf(Middle(base, entry)).language &&
      Sidecar(dir, base, entry).value.forced == TagsOf(Middle(base, entry)).forced
  {
    FormatOfExtListed(ToLower(Paths.ExtName(entry)));
  }

  /** `x` is the record of a qualifying `entry`: its name starts with the base name and
      it lives in `dir`. */
  predicate FromEntry(dir: string, base: string, entry: string, x: ExternalSubtitle) {
    StartsWith(entry, base) && x.filePath == Paths.Join(dir, entry)
  }

  /** The sidecars found among `entries`, in listing order. */
  function Sidecars(dir: string, base: string, entries: seq<string>): (r: seq<ExternalSubtitle>)
    ensures |r| <= |entries|
    ensures forall x :: x in r ==> exists e :: e in entries && FromEntry(dir, base, e, x)
  {
    if |entries| == 0 then []
    else
      var rest := Sidecars(dir, base, entries[1..]);
      var here := Sidecar(dir, base, entries[0]);
      var res := if here.Some? then [here.value] + rest else rest;
      assert forall x :: x in res ==> exists e :: e in entries && FromEntry(dir, base, e, x) by {
        forall x | x in res ensures exists e :: e in entries && FromEntry(dir, base, e, x) {
          if here.Some? && x == here.value {
            assert entries[0] in entries && FromEntry(dir, base, entries[0], x);
          } else {
            assert x in rest;
            var e :| e in entries[1..] && FromEntry(dir, base, e, x);
            assert e in entries;
          }
        }
      }
      res
  }

  /** `findExternalSubtitles`: an unreadable directory (`listing` absent) yields no
      sidecars; otherwise records for entries of the video's directory whose names start
      with the video's base name. */
  function FindExternalSubtitles(videoPath: string, listing: Option<seq<string>>): (r: seq<ExternalSubtitle>)
    ensures listing.None? ==> r == []
    ensures listing.Some? ==> forall x :: x in r ==>
      exists e :: e in listing.value && FromEntry(Paths.DirName(videoPath), Paths.Stem(videoPath), e, x)
  {
    match listing
    case None => []
    case Some(entries) => Sidecars(Paths.DirName(videoPath), Paths.Stem(videoPath), entries)
  }

  /** Scanning a listing entry by entry: the sidecars of a concatenation are those of
      each part, and one entry contributes exactly when it qualifies. */
  lemma {:induction false} SidecarsAppend(dir: string, base: string, a: seq<string>, b: seq<string>)
    ensures Sidecars(dir, base, a + b) == Sidecars(dir, base, a) + Sidecars(dir, base, b)
    decreases |a|
  {
    if |a| > 0 {
      assert (a + b)[1..] == a[1..] + b;
      SidecarsAppend(dir, base, a[1..], b);
    } else {
      assert a + b == b;
    }
  }

  lemma SidecarsOfOne(dir: string, base: string, entry: string)
    ensures Sidecars(dir, base, [entry]) ==
      (if Sidecar(dir, base, entry).Some? then [Sidecar(dir, base, entry).value] else [])
    ensures |Sidecars(dir, base, [entry])| == 1 <==> ToLower(Paths.ExtName(entry)) in SubtitleExtensions && StartsWith(entry, base)
  {
    assert [entry][1..] == [];
    SidecarQualifies(dir, base, entry);
  }

  /** No language is read exactly when the text between base name and extension is made
      only of dots (or is empty). */
  lemma {:induction false} NoLanguageIffDots(s: string)
    ensures TagsOf(s).language.None? <==> forall i :: 0 <= i < |s| ==> s[i] == '.'
    decreases |s|
  {
    if '.' in s {
      var k := FirstIndex(s, '.');
      var tail := s[k + 1..];
      assert Split(s, '.') == [s[..k]] + Split(tail, '.');
      assert ([s[..k]] + Split(tail, '.'))[1..] == Split(tail, '.');
      NoLanguageIffDots(tail);
      if s[..k] == "" {
        assert k == 0;
        assert (forall i :: 0 <= i < |s| ==> s[i] == '.') <==> (forall i :: 0 <= i < |tail| ==> tail[i] == '.') by {
          if forall i :: 0 <= i < |tail| ==> tail[i] == '.' {
            forall i | 0 <= i < |s| ensures s[i] == '.' {
              if i > 0 { assert s[i] == tail[i - 1]; }
            }
          }
        }
      } else {
        assert s[0] != '.';
      }
    } else {
      assert Split(s, '.') == [s];
      if s != "" {
        assert s[0] != '.';
      }
    }
  }

  /** An entry `<base><mid><ext>` with a subtitle extension is a sidecar of `base`. */
  lemma SidecarShape(dir: string, base: string, mid: string, ext: string)
    requires ext in SubtitleExtensions
    requires |base + mid| > 0 && Paths.Sep !in base + mid
    ensures Sidecar(dir, base, base + mid + ext).Some?
  {
    var entry := base + mid + ext;
    assert Paths.ExtName(entry) == ext by { ExtOfParts(base + mid, ext); }
    assert FormatOfExt(ToLower(ext)).Some? by { LowerSubtitleExtension(ext); FormatOfExtListed(ext); }
    assert StartsWith(entry, base) by { assert entry[..|base|] == base; }
  }

  /** In such an entry the text its language and forced flag are read from is exactly `mid`. */
  lemma MiddleShape(base: string, mid: string, ext: string)
    requires ext in SubtitleExtensions
    requires |base + mid| > 0 && Paths.Sep !in base + mid
    ensures Middle(base, base + mid + ext) == mid
  {
    var entry := base + mid + ext;
    assert Paths.ExtName(entry) == ext by { ExtOfParts(base + mid, ext); }
    assert entry[|base|..|entry| - |ext|] == mid;
  }

  lemma LowerSubtitleExtension(ext: string)
    requires ext in SubtitleExtensions
    ensures ToLower(ext) == ext
  {
    forall i | 0 <= i < |ext| ensures LowerChar(ext[i]) == ext[i] {
      assert !IsUpperAscii(ext[i]);
    }
  }

  /** The extension of `<name><ext>` is `ext` when the name has no separator. */
  lemma ExtOfParts(name: string, ext: string)
    requires ext in SubtitleExtensions
    requires |name| > 0 && Paths.Sep !in name
    ensures Paths.ExtName(name + ext) == ext
  {
    var entry := name + ext;
    assert Paths.Sep !in entry by {
      forall i | 0 <= i < |entry| ensures entry[i] != Paths.Sep {
        if i < |name| { assert entry[i] == name[i]; } else { assert entry[i] == ext[i - |name|]; }
      }
    }
    assert entry[|entry| - 1] != Paths.Sep;
    assert Paths.StripTrailingSeps(entry) == entry;
    assert Paths.BaseName(entry) == entry;
    var d := |name|;
    assert entry[d] == '.';
    assert '.' !in entry[d + 1..] by { assert entry[d + 1..] == ext[1..]; }
    Paths.LastIndexUnique(entry, '.', d);
    assert entry[d..] == ext;
  }

  lemma SplitAt(s: string, sep: char, k: nat)
    requires k < |s| && s[k] == sep && sep !in s[..k]
    ensures Split(s, sep) == [s[..k]] + Split(s[k + 1..], sep)
  {
    FirstIndexUnique(s, sep, k);
  }

  /** A sidecar named just `<base><ext>` has no language and is not forced. */
  lemma PlainTags()
    ensures TagsOf("") == Tags(None, false)
  {
    assert Split("", '.') == [""];
  }

  /** A file named like the video with further text before the first dot still counts:
      `Movie2.en.srt` is a sidecar of `Movie.mkv`, and `2.en` is what its tags are read from. */
  lemma LooseBaseMatch()
    ensures Sidecar("/m", "Movie", "Movie" + "2.en" + ".srt").Some?
    ensures Middle("Movie", "Movie" + "2.en" + ".srt") == "2.en"
  {
    SidecarShape("/m", "Movie", "2.en", ".srt");
    MiddleShape("Movie", "2.en", ".srt");
  }

  /** `<lang>.<word>` is read with the first segment as language, forced when either
      segment is exactly `forced`. */
  lemma TwoSegmentTags(a: string, b: string)
    requires a != "" && b != "" && '.' !in a && '.' !in b
    ensures TagsOf(a + "." + b) == Tags(Some(a), a == "forced" || b == "forced")
  {
    var m := a + "." + b;
    assert m[|a|] == '.' && m[..|a|] == a && m[|a| + 1..] == b;
    SplitAt(m, '.', |a|);
    assert Split(m, '.') == [a, b];
    assert NonEmptyParts([b]) == [b] by { assert [b][1..] == []; }
    assert NonEmptyParts([a, b]) == [a, b] by { assert [a, b][1..] == [b]; }
  }

  /** `.<word>` (an empty first segment) is read with `word` as language, so a file
      named `Movie.forced.srt` gets language `forced` and is forced. */
  lemma LeadingDotTags(w: string)
    requires w != "" && '.' !in w
    ensures TagsOf("." + w) == Tags(Some(w), w == "forced")
  {
    var m := "." + w;
    assert m[0] == '.' && m[..0] == "" && m[1..] == w;
    SplitAt(m, '.', 0);
    assert Split(m, '.') == ["", w];
    assert NonEmptyParts([w]) == [w] by { assert [w][1..] == []; }
    assert NonEmptyParts(["", w]) == [w] by { assert ["", w][1..] == [w]; }
  }

  /** `Movie2.en.srt` next to `Movie.mkv` has language `2`; `Movie.forced.srt` has
      language `forced` and is forced. */
  lemma SidecarTagExamples()
    ensures TagsOf("2" + "." + "en") == Tags(Some("2"), false)
    ensures TagsOf("." + "forced") == Tags(Some("forced"), true)
  {
    TwoSegmentTags("2", "en");
    LeadingDotTags("forced");
  }
}
