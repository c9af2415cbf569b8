/** The TV client's server address: how a typed URL is normalised and stored, which API base
    the client adopts at start-up, and the stream and subtitle URLs it builds. Local
    storage is a parameter. */
module TvApi {
  import opened Common
  import opened JsText

  /** The API base of the web client, used until a server URL is known. */
  const DefaultBase := "/api"

  /** `url.replace(/\/+$/, '')`: the longest prefix that does not end in `/` and is followed
      only by `/`. */
  function StripTrailingSlashes(s: string): (r: string)
    ensures |r| <= |s| && r == s[..|r|]
    ensures |r| > 0 ==> r[|r| - 1] != '/'
    ensures forall i :: |r| <= i < |s| ==> s[i] == '/'
  {
    if |s| > 0 && s[|s| - 1] == '/' then StripTrailingSlashes(s[..|s| - 1]) else s
  }

  /** Normalising twice is normalising once. */
  lemma StripIdempotent(s: string)
    ensures StripTrailingSlashes(StripTrailingSlashes(s)) == StripTrailingSlashes(s)
  {
  }

  function Slashes(n: nat): (r: string)
    ensures |r| == n && forall i :: 0 <= i < n ==> r[i] == '/'
  {
    if n == 0 then "" else Slashes(n - 1) + "/"
  }

  /** The normalised URL is exactly the address without its run of trailing separators:
      any run of separators after an address that does not end in one is removed, and
      nothing else is. */
  lemma {:induction false} StripSlashes(t: string, n: nat)
    requires |t| > 0 ==> t[|t| - 1] != '/'
    ensures StripTrailingSlashes(t + Slashes(n)) == t
  {
    if n > 0 {
      assert (t + Slashes(n))[..|t + Slashes(n)| - 1] == t + Slashes(n - 1);
      StripSlashes(t, n - 1);
    } else {
      assert t + Slashes(0) == t;
    }
  }

  /** The client after a server URL is chosen: what is stored and the API base it uses. */
  datatype Client = Client(stored: string, base: string)

  /** `setServerUrl`. */
  function SetServerUrl(url: string): (c: Client)
    ensures c.base == c.stored + DefaultBase
    ensures c.stored == StripTrailingSlashes(url)
  {
    var clean := StripTrailingSlashes(url);
    Client(clean, clean + DefaultBase)
  }

  /** The constructor: a stored, non-empty server URL is adopted as `<url>/api`; otherwise
      the default base stays. */
  function StartBase(stored: Option<string>): (base: string)
    ensures Given(stored) ==> base == stored.value + DefaultBase
    ensures !Given(stored) ==> base == DefaultBase
  {
    if Given(stored) then stored.value + DefaultBase else DefaultBase
  }

  /** A restarted client uses the base the last `setServerUrl` chose, even when the URL
      normalised to the empty string. */
  lemma RestartKeepsBase(url: string)
    ensures StartBase(Some(SetServerUrl(url).stored)) == SetServerUrl(url).base
  {
  }

  /** Setting the stored URL again changes nothing. */
  lemma SetServerUrlStable(url: string)
    ensures SetServerUrl(SetServerUrl(url).stored) == SetServerUrl(url)
  {
    StripIdempotent(url);
  }

  // ---------------------------------------------------------------- stream URLs

  const StreamPath := "/stream/"
  const SubtitlesPath := "/subtitles/"

  /** `streamUrl(id)`. */
  function StreamUrl(base: string, id: nat): (r: string)
    ensures StartsWith(r, base + StreamPath)
  {
    var r := base + StreamPath + NatToString(id);
    assert r[..|base + StreamPath|] == base + StreamPath;
    r
  }

  /** `subtitleUrl(mediaId, trackIndex)`. */
  function SubtitleUrl(base: string, mediaId: nat, trackIndex: nat): (r: string)
    ensures StartsWith(r, StreamUrl(base, mediaId) + SubtitlesPath)
  {
    var r := StreamUrl(base, mediaId) + SubtitlesPath + NatToString(trackIndex);
    assert r[..|StreamUrl(base, mediaId) + SubtitlesPath|] == StreamUrl(base, mediaId) + SubtitlesPath;
    r
  }

  /** The id reads back from the stream URL: the server's integer parse of the path
      segment after `/stream/` is the media id. */
  lemma StreamUrlReadsBack(base: string, mediaId: nat)
    ensures ParseIntAuto(StreamUrl(base, mediaId)[|base| + |StreamPath|..]) == Some(mediaId)
  {
    ReadsAfter(base + StreamPath, mediaId, "");
    assert base + StreamPath + NatToString(mediaId) + "" == StreamUrl(base, mediaId);
  }

  /** Both ids read back from the subtitle URL: the segment after `/stream/` is the media
      id and the segment after `/subtitles/` is the track. */
  lemma SubtitleUrlReadsBack(base: string, mediaId: nat, trackIndex: nat)
    ensures ParseIntAuto(SubtitleUrl(base, mediaId, trackIndex)[|base| + |StreamPath|..]) == Some(mediaId)
    ensures ParseIntAuto(SubtitleUrl(base, mediaId, trackIndex)[|StreamUrl(base, mediaId)| + |SubtitlesPath|..])
            == Some(trackIndex)
  {
    var t := NatToString(trackIndex);
    ReadsAfter(base + StreamPath, mediaId, SubtitlesPath + t);
    assert base + StreamPath + NatToString(mediaId) + (SubtitlesPath + t) == SubtitleUrl(base, mediaId, trackIndex);
    ReadsAfter(StreamUrl(base, mediaId) + SubtitlesPath, trackIndex, "");
    assert StreamUrl(base, mediaId) + SubtitlesPath + t + "" == SubtitleUrl(base, mediaId, trackIndex);
  }

  /** A number written after a prefix is read back from just past the prefix, when what
      follows does not continue the digits. */
  lemma ReadsAfter(prefix: string, n: nat, rest: string)
    requires |rest| > 0 ==> !IsDigit(rest[0]) && rest[0] != 'x' && rest[0] != 'X'
    ensures ParseIntAuto((prefix + NatToString(n) + rest)[|prefix|..]) == Some(n)
  {
    var t := (prefix + NatToString(n) + rest)[|prefix|..];
    assert t == NatToString(n) + rest;
    ParseIntAutoOfNatToString(n, rest);
  }
}
