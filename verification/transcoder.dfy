/** The HLS transcode session registry of the server: one session per media item,
    created on demand, refreshed on every access, reaped when idle and killed on request.
    The clock is a parameter (`now`, in milliseconds), the encoder, the file system and the
    timers are outside the model: their effects are returned as `Effect` values and their
    callbacks are the events `PollTick`, `ReadyTimeout` and `EncoderError`. */
module Transcoder {
  import opened Common
  import opened JsText
  import Paths

  /** A session idle for longer than this is reaped (30 minutes). */
  const IdleTimeoutMs: int := 30 * 60 * 1000
  /** The reaper runs every 5 minutes. */
  const ReapIntervalMs: int := 5 * 60 * 1000
  /** Readiness is polled every 300 ms ... */
  const PollIntervalMs: int := 300
  /** ... until this many segments are listed ... */
  const MinSegments: nat := 3
  /** ... or for at most 60 seconds. */
  const ReadyTimeoutMs: int := 60000
  /** The HLS end-of-playlist tag (section 4.3.3.4 of RFC 8216). */
  const EndListTag: string := "#EXT-X-ENDLIST"
  const PlaylistName: string := "stream.m3u8"
  const SegmentPattern: string := "seg_%05d.ts"

  /** One session record. `serial` is the identity of the record object: the readiness
      timers of a session hold that object, not the map key. */
  datatype Session = Session(
    serial: nat,
    id: string,
    mediaItemId: int,
    outputDir: string,
    playlistPath: string,
    encoderOptions: seq<string>,
    ready: bool,
    released: bool,        // the ready promise has been resolved
    polling: bool,         // the 300 ms readiness interval is still scheduled
    timeoutPending: bool,  // the 60 s safety timer has not fired yet
    startedAt: int,
    lastAccessedAt: int,
    startSeconds: int)

  /** The active-session map, the next record identity and the cache directory. */
  datatype Registry = Registry(sessions: map<int, Session>, nextSerial: nat, cacheBase: string)

  /** What the registry asks of the outside world. */
  datatype Effect =
    | MakeDir(path: string)
    | StartEncoder(input: string, seekSeconds: int, options: seq<string>, output: string)
    | SignalKill(sessionId: string)
    | RemoveDir(path: string)

  /** What the readiness poll finds on disk. */
  datatype PlaylistSnapshot = Missing | Unreadable | Text(content: string)

  function Init(cacheBase: string): (reg: Registry)
    ensures reg.sessions == map[] && Valid(reg)
  {
    Registry(map[], 0, cacheBase)
  }

  // ------------------------------------------------------------------ invariant

  /** A record is well formed for its key: it belongs to that item, its directories derive from
      its id, and the readiness flags only move forward (ready implies released, released
      implies the poll has stopped, a fired safety timer implies released). */
  predicate WellFormed(reg: Registry, key: int, s: Session) {
    s.mediaItemId == key
    && s.outputDir == Paths.Join(reg.cacheBase, s.id)
    && s.playlistPath == Paths.Join(s.outputDir, PlaylistName)
    && (s.ready ==> s.released)
    && (s.released ==> !s.polling)
    && (!s.timeoutPending ==> s.released)
    && s.serial < reg.nextSerial
  }

  predicate Valid(reg: Registry) {
    (forall k :: k in reg.sessions ==> WellFormed(reg, k, reg.sessions[k]))
    && (forall k1, k2 :: k1 in reg.sessions && k2 in reg.sessions && k1 != k2
          ==> reg.sessions[k1].serial != reg.sessions[k2].serial)
  }

  // ------------------------------------------------------------------ naming

  /** `<mediaItemId>-<now>`. */
  function SessionId(mediaItemId: int, now: int): string {
    IntToString(mediaItemId) + "-" + IntToString(now)
  }

  /** `-map 0:<index>` when a video stream index is supplied, else the first video stream. */
  function VideoMap(videoStreamIndex: Option<int>): string {
    match videoStreamIndex
    case Some(v) => "-map 0:" + IntToString(v)
    case None => "-map 0:v:0"
  }

  /** `-map 0:a:<index>`, the first audio track when none is supplied. */
  function AudioMap(audioTrackIndex: Option<int>): string {
    "-map 0:a:" + IntToString(audioTrackIndex.GetOr(0))
  }

  /** The encoder's output options: H.264/AAC stereo into 6-second HLS segments. */
  function EncoderOptions(mediaItemId: int, outputDir: string, audioTrackIndex: Option<int>, videoStreamIndex: Option<int>): (opts: seq<string>)
    ensures |opts| == 18
    ensures opts[8] == VideoMap(videoStreamIndex) && opts[9] == AudioMap(audioTrackIndex)
    ensures opts[15] == "-hls_segment_filename" && opts[16] == Paths.Join(outputDir, SegmentPattern)
  {
    ["-c:v libx264", "-profile:v high", "-pix_fmt yuv420p", "-preset veryfast", "-crf 23",
     "-c:a aac", "-b:a 192k", "-ac 2",
     VideoMap(videoStreamIndex), AudioMap(audioTrackIndex),
     "-f hls", "-hls_time 6", "-hls_list_size 0", "-hls_playlist_type event",
     "-hls_base_url /api/stream/" + IntToString(mediaItemId) + "/hls/",
     "-hls_segment_filename", Paths.Join(outputDir, SegmentPattern),
     "-start_number 0"]
  }

  // ------------------------------------------------------------------ operations

  /** `getOrCreateSession`: join an existing session (refreshing only its access time), or
      register a new one under `mediaItemId` and start its encoder. */
  function GetOrCreate(reg: Registry, mediaItemId: int, filePath: string, startSeconds: int,
                       audioTrackIndex: Option<int>, videoStreamIndex: Option<int>, now: int)
    : (r: (Registry, Session, seq<Effect>))
    ensures forall k :: k in r.0.sessions <==> k in reg.sessions || k == mediaItemId
    ensures forall k :: k in reg.sessions && k != mediaItemId ==> r.0.sessions[k] == reg.sessions[k]
    ensures r.0.sessions[mediaItemId] == r.1 && r.1.lastAccessedAt == now
    ensures r.0.cacheBase == reg.cacheBase
    ensures mediaItemId in reg.sessions ==> r.1 == reg.sessions[mediaItemId].(lastAccessedAt := now) && r.2 == []
    ensures mediaItemId !in reg.sessions ==>
      && r.1 == NewSession(reg, mediaItemId, startSeconds, audioTrackIndex, videoStreamIndex, now)
      && r.0.nextSerial == reg.nextSerial + 1
      && r.2 == [MakeDir(r.1.outputDir), StartEncoder(filePath, startSeconds, r.1.encoderOptions, r.1.playlistPath)]
  {
    if mediaItemId in reg.sessions then
      var s := reg.sessions[mediaItemId].(lastAccessedAt := now);
      (reg.(sessions := reg.sessions[mediaItemId := s]), s, [])
    else
      var s := NewSession(reg, mediaItemId, startSeconds, audioTrackIndex, videoStreamIndex, now);
      (Registry(reg.sessions[mediaItemId := s], reg.nextSerial + 1, reg.cacheBase), s,
       [MakeDir(s.outputDir), StartEncoder(filePath, startSeconds, s.encoderOptions, s.playlistPath)])
  }

  /** The record a fresh `getOrCreateSession` registers, before its encoder starts. */
  function NewSession(reg: Registry, mediaItemId: int, startSeconds: int,
                      audioTrackIndex: Option<int>, videoStreamIndex: Option<int>, now: int): (s: Session)
    ensures s.id == SessionId(mediaItemId, now) && s.mediaItemId == mediaItemId
    ensures s.outputDir == Paths.Join(reg.cacheBase, s.id)
    ensures s.playlistPath == Paths.Join(s.outputDir, PlaylistName)
    ensures !s.ready && !s.released && s.polling && s.timeoutPending
    ensures s.startedAt == now && s.lastAccessedAt == now && s.startSeconds == startSeconds
    ensures s.serial == reg.nextSerial
  {
    var id := SessionId(mediaItemId, now);
    var dir := Paths.Join(reg.cacheBase, id);
    Session(reg.nextSerial, id, mediaItemId, dir, Paths.Join(dir, PlaylistName),
            EncoderOptions(mediaItemId, dir, audioTrackIndex, videoStreamIndex),
            false, false, true, true, now, now, startSeconds)
  }

  /** `getSession`: look up without ever inserting; a hit refreshes the access time. */
  function GetSession(reg: Registry, mediaItemId: int, now: int): (r: (Registry, Option<Session>))
    ensures r.0.sessions.Keys == reg.sessions.Keys
    ensures r.1.Some? <==> mediaItemId in reg.sessions
    ensures r.1.Some? ==> r.1.value == reg.sessions[mediaItemId].(lastAccessedAt := now)
                          && r.0.sessions == reg.sessions[mediaItemId := r.1.value]
    ensures r.1.None? ==> r.0 == reg
  {
    if mediaItemId in reg.sessions then
      var s := reg.sessions[mediaItemId].(lastAccessedAt := now);
      (reg.(sessions := reg.sessions[mediaItemId := s]), Some(s))
    else (reg, None)
  }

  /** `killSession`: signal the encoder, remove the output directory (both may fail and are
      ignored) and drop the entry; nothing happens for an absent id. */
  function Kill(reg: Registry, mediaItemId: int): (r: (Registry, seq<Effect>))
    ensures r.0.sessions.Keys == reg.sessions.Keys - {mediaItemId}
    ensures forall k :: k in r.0.sessions ==> r.0.sessions[k] == reg.sessions[k]
    ensures r.0.nextSerial == reg.nextSerial && r.0.cacheBase == reg.cacheBase
    ensures mediaItemId !in reg.sessions ==> r.0 == reg && r.1 == []
    ensures mediaItemId in reg.sessions ==>
      r.1 == [SignalKill(reg.sessions[mediaItemId].id), RemoveDir(reg.sessions[mediaItemId].outputDir)]
  {
    if mediaItemId !in reg.sessions then (reg, [])
    else
      var s := reg.sessions[mediaItemId];
      (reg.(sessions := reg.sessions - {mediaItemId}), [SignalKill(s.id), RemoveDir(s.outputDir)])
  }

  predicate Idle(s: Session, now: int) {
    now - s.lastAccessedAt > IdleTimeoutMs
  }

  /** The effects of killing session `s`. */
  predicate KillEffectOf(s: Session, e: Effect) {
    e == SignalKill(s.id) || e == RemoveDir(s.outputDir)
  }

  /** The ids of `order` that are registered and idle, in that order. */
  function IdleIn(reg: Registry, now: int, order: seq<int>): (ids: seq<int>)
    ensures forall k :: k in ids <==> k in order && k in reg.sessions && Idle(reg.sessions[k], now)
  {
    if |order| == 0 then []
    else
      var rest := IdleIn(reg, now, order[1..]);
      if order[0] in reg.sessions && Idle(reg.sessions[order[0]], now) then [order[0]] + rest else rest
  }

  /** One run of the reaper: the `forEach` over the map, in its enumeration order `order`, kills
      every idle session; every other one is kept as is. */
  function Reap(reg: Registry, now: int, order: seq<int>): (r: (Registry, seq<Effect>))
    requires forall k :: k in order <==> k in reg.sessions
    ensures forall k :: k in r.0.sessions <==> k in reg.sessions && !Idle(reg.sessions[k], now)
    ensures forall k :: k in r.0.sessions ==> r.0.sessions[k] == reg.sessions[k]
    ensures r.0.nextSerial == reg.nextSerial && r.0.cacheBase == reg.cacheBase
  {
    var ids := IdleIn(reg, now, order);
    KillEachRemoves(reg, ids);
    assert forall k :: k in (set j | j in ids) <==> k in ids;
    KillEach(reg, ids)
  }

  /** The reaper signals every idle session and removes its directory ... */
  lemma ReapKillsIdle(reg: Registry, now: int, order: seq<int>, k: int)
    requires forall k :: k in order <==> k in reg.sessions
    requires k in reg.sessions && Idle(reg.sessions[k], now)
    ensures SignalKill(reg.sessions[k].id) in Reap(reg, now, order).1
    ensures RemoveDir(reg.sessions[k].outputDir) in Reap(reg, now, order).1
  {
    KillEachSignals(reg, IdleIn(reg, now, order), k);
  }

  /** ... and touches no other session. */
  lemma ReapKillsOnlyIdle(reg: Registry, now: int, order: seq<int>, e: Effect)
    requires forall k :: k in order <==> k in reg.sessions
    requires e in Reap(reg, now, order).1
    ensures exists k :: k in reg.sessions && Idle(reg.sessions[k], now) && KillEffectOf(reg.sessions[k], e)
  {
    var k := KillEachOnlyKills(reg, IdleIn(reg, now, order), e);
    assert k in reg.sessions && Idle(reg.sessions[k], now) && KillEffectOf(reg.sessions[k], e);
  }

  /** `cleanupAllSessions`: every session is killed, in the enumeration order `order`, and then
      the whole cache directory is removed. */
  function CleanupAll(reg: Registry, order: seq<int>): (r: (Registry, seq<Effect>))
    requires forall k :: k in order <==> k in reg.sessions
    ensures r.0.sessions == map[]
    ensures r.0.nextSerial == reg.nextSerial && r.0.cacheBase == reg.cacheBase
    ensures |r.1| > 0 && r.1[|r.1| - 1] == RemoveDir(reg.cacheBase)
  {
    KillEachRemoves(reg, order);
    var killed := KillEach(reg, order);
    assert forall k :: k in killed.0.sessions ==> k in (set j | j in order);
    (killed.0, killed.1 + [RemoveDir(reg.cacheBase)])
  }

  /** Shutdown signals every session and removes its directory, then the cache directory; the
      effects before the last are kills of registered sessions only. */
  lemma CleanupKillsAll(reg: Registry, order: seq<int>, k: int)
    requires forall k :: k in order <==> k in reg.sessions
    requires k in reg.sessions
    ensures SignalKill(reg.sessions[k].id) in CleanupAll(reg, order).1
    ensures RemoveDir(reg.sessions[k].outputDir) in CleanupAll(reg, order).1
  {
    KillEachSignals(reg, order, k);
  }

  lemma CleanupKillsOnlySessions(reg: Registry, order: seq<int>, i: nat)
    requires forall k :: k in order <==> k in reg.sessions
    requires i < |CleanupAll(reg, order).1| - 1
    ensures exists k :: k in reg.sessions && KillEffectOf(reg.sessions[k], CleanupAll(reg, order).1[i])
  {
    var killed := KillEach(reg, order);
    assert CleanupAll(reg, order).1[i] == killed.1[i];
    var k := KillEachOnlyKills(reg, order, killed.1[i]);
    assert k in reg.sessions && KillEffectOf(reg.sessions[k], CleanupAll(reg, order).1[i]);
  }

  /** The encoder reported an error (also after it was killed): the entry now registered under
      `mediaItemId` is removed, whichever session it is, and no directory is removed. */
  function EncoderError(reg: Registry, mediaItemId: int): (r: Registry)
    ensures r.sessions == reg.sessions - {mediaItemId}
  {
    reg.(sessions := reg.sessions - {mediaItemId})
  }

  /** At least `MinSegments` segment URIs, or the playlist is complete. */
  predicate PlaylistReady(text: string) {
    SegmentCount(text) >= MinSegments || Includes(text, EndListTag)
  }

  /** One tick of the 300 ms readiness poll of the session record `serial`. A tick of a record
      that is no longer registered changes nothing in the registry. */
  function PollTick(reg: Registry, mediaItemId: int, serial: nat, snapshot: PlaylistSnapshot): (r: Registry)
    ensures r.sessions.Keys == reg.sessions.Keys
    ensures forall k :: k in reg.sessions && k != mediaItemId ==> r.sessions[k] == reg.sessions[k]
    ensures mediaItemId in reg.sessions ==>
      var s := reg.sessions[mediaItemId];
      var t := r.sessions[mediaItemId];
      var fires := s.serial == serial && s.polling && snapshot.Text? && PlaylistReady(snapshot.content);
      && (t.ready <==> s.ready || fires)
      && t == (if fires then s.(ready := true, released := true, polling := false) else s)
  {
    if mediaItemId !in reg.sessions then reg
    else
      var s := reg.sessions[mediaItemId];
      if s.serial == serial && s.polling && snapshot.Text? && PlaylistReady(snapshot.content) then
        reg.(sessions := reg.sessions[mediaItemId := s.(ready := true, released := true, polling := false)])
      else reg
  }

  /** The 60 s safety timer of the record `serial`: the poll stops; a session not yet ready
      becomes ready exactly when its playlist file exists, and its waiters are released. */
  function ReadyTimeout(reg: Registry, mediaItemId: int, serial: nat, playlistExists: bool): (r: Registry)
    ensures r.sessions.Keys == reg.sessions.Keys
    ensures forall k :: k in reg.sessions && k != mediaItemId ==> r.sessions[k] == reg.sessions[k]
    ensures mediaItemId in reg.sessions ==>
      var s := reg.sessions[mediaItemId];
      var t := r.sessions[mediaItemId];
      && (s.ready ==> t.ready)
      && (s.serial == serial && s.timeoutPending ==>
            && !t.polling && !t.timeoutPending
            && t.ready == (s.ready || playlistExists)
            && t.released == (s.released || !s.ready))
      && (s.serial != serial || !s.timeoutPending ==> t == s)
  {
    if mediaItemId !in reg.sessions then reg
    else
      var s := reg.sessions[mediaItemId];
      if s.serial == serial && s.timeoutPending then
        var t := s.(polling := false, timeoutPending := false);
        var t' := if !s.ready then t.(ready := playlistExists, released := true) else t;
        reg.(sessions := reg.sessions[mediaItemId := t'])
      else reg
  }

  // ------------------------------------------------------------------ segment counting

  /** From position `j`, whitespace runs up to a line end or the end of the text: `\s*$` under
      the `m` flag. */
  predicate BlankToLineEnd(s: string, j: nat)
    requires j <= |s|
    decreases |s| - j
  {
    j == |s| || IsLineTerminator(s[j]) || (IsSpace(s[j]) && BlankToLineEnd(s, j + 1))
  }

  /** A match of `/\.ts\s*$/m` starts at `k`. */
  predicate SegmentUriAt(s: string, k: nat) {
    k + 3 <= |s| && s[k..k + 3] == ".ts" && BlankToLineEnd(s, k + 3)
  }

  /** The number of matches of `/\.ts\s*$/gm` at or after position `k`. Matches cannot overlap:
      each starts with `.` and what a match consumes after `.ts` is whitespace. */
  function SegmentCountFrom(s: string, k: nat): (n: nat)
    requires k <= |s|
    ensures n <= |s| - k
    decreases |s| - k
  {
    if k == |s| then 0 else (if SegmentUriAt(s, k) then 1 else 0) + SegmentCountFrom(s, k + 1)
  }

  function SegmentCount(s: string): nat {
    SegmentCountFrom(s, 0)
  }

  // ------------------------------------------------------------------ helpers for Reap and CleanupAll

  /** Killing the ids of `keys` one after another (the `forEach` over `killSession` in `killAllSessions`),
      collecting the effects in order. */
  function KillEach(reg: Registry, keys: seq<int>): (Registry, seq<Effect>)
    decreases |keys|
  {
    if |keys| == 0 then (reg, [])
    else
      var first := Kill(reg, keys[0]);
      var rest := KillEach(first.0, keys[1..]);
      (rest.0, first.1 + rest.1)
  }

  lemma {:induction false} KillEachRemoves(reg: Registry, keys: seq<int>)
    ensures KillEach(reg, keys).0.sessions.Keys == reg.sessions.Keys - (set k | k in keys)
    ensures forall k :: k in KillEach(reg, keys).0.sessions ==> KillEach(reg, keys).0.sessions[k] == reg.sessions[k]
    ensures KillEach(reg, keys).0.nextSerial == reg.nextSerial && KillEach(reg, keys).0.cacheBase == reg.cacheBase
    decreases |keys|
  {
    if |keys| > 0 {
      KillEachRemoves(Kill(reg, keys[0]).0, keys[1..]);
      assert (set k | k in keys) == {keys[0]} + (set k | k in keys[1..]);
    }
  }

  /** Killing `keys` in turn signals every registered session among them and removes its
      directory ... */
  lemma {:induction false} KillEachSignals(reg: Registry, keys: seq<int>, k: int)
    requires k in keys && k in reg.sessions
    ensures SignalKill(reg.sessions[k].id) in KillEach(reg, keys).1
    ensures RemoveDir(reg.sessions[k].outputDir) in KillEach(reg, keys).1
    decreases |keys|
  {
    var first := Kill(reg, keys[0]);
    var rest := KillEach(first.0, keys[1..]);
    assert KillEach(reg, keys).1 == first.1 + rest.1;
    if k == keys[0] {
      assert first.1 == [SignalKill(reg.sessions[k].id), RemoveDir(reg.sessions[k].outputDir)];
    } else {
      assert k in keys[1..];
      assert k in first.0.sessions && first.0.sessions[k] == reg.sessions[k];
      KillEachSignals(first.0, keys[1..], k);
    }
  }

  /** ... and does nothing else. */
  lemma {:induction false} KillEachOnlyKills(reg: Registry, keys: seq<int>, e: Effect) returns (k: int)
    requires e in KillEach(reg, keys).1
    ensures k in keys && k in reg.sessions && KillEffectOf(reg.sessions[k], e)
    decreases |keys|
  {
    var first := Kill(reg, keys[0]);
    var rest := KillEach(first.0, keys[1..]);
    assert KillEach(reg, keys).1 == first.1 + rest.1;
    if e in first.1 {
      k := keys[0];
    } else {
      k := KillEachOnlyKills(first.0, keys[1..], e);
      assert first.0.sessions[k] == reg.sessions[k];
    }
  }

  // ------------------------------------------------------------------ properties

  /** Every operation keeps the registry well formed, so the map never holds a record under
      another item's key and the readiness flags never move backwards. */
  lemma GetOrCreatePreservesValid(reg: Registry, mediaItemId: int, filePath: string, startSeconds: int,
                                  audio: Option<int>, video: Option<int>, now: int)
    requires Valid(reg)
    ensures Valid(GetOrCreate(reg, mediaItemId, filePath, startSeconds, audio, video, now).0)
  {
    var g := GetOrCreate(reg, mediaItemId, filePath, startSeconds, audio, video, now).0;
    forall k | k in g.sessions && k != mediaItemId ensures WellFormed(g, k, g.sessions[k]) {
      assert WellFormed(reg, k, reg.sessions[k]);
    }
    assert WellFormed(g, mediaItemId, g.sessions[mediaItemId]);
  }

  lemma LookupAndRemovalPreserveValid(reg: Registry, mediaItemId: int, now: int, order: seq<int>)
    requires Valid(reg)
    requires forall k :: k in order <==> k in reg.sessions
    ensures Valid(GetSession(reg, mediaItemId, now).0)
    ensures Valid(Kill(reg, mediaItemId).0)
    ensures Valid(Reap(reg, now, order).0)
    ensures Valid(CleanupAll(reg, order).0)
    ensures Valid(EncoderError(reg, mediaItemId))
  {
    var g := GetSession(reg, mediaItemId, now).0;
    forall k | k in g.sessions ensures WellFormed(g, k, g.sessions[k]) && g.sessions[k].serial == reg.sessions[k].serial {
      assert WellFormed(reg, k, reg.sessions[k]);
    }
    RemovalPreservesValid(reg, Kill(reg, mediaItemId).0);
    RemovalPreservesValid(reg, Reap(reg, now, order).0);
    RemovalPreservesValid(reg, CleanupAll(reg, order).0);
    RemovalPreservesValid(reg, EncoderError(reg, mediaItemId));
  }

  /** Dropping entries, and nothing else, keeps the registry well formed. */
  lemma RemovalPreservesValid(reg: Registry, r: Registry)
    requires Valid(reg) && r.nextSerial == reg.nextSerial && r.cacheBase == reg.cacheBase
    requires forall k :: k in r.sessions ==> k in reg.sessions && r.sessions[k] == reg.sessions[k]
    ensures Valid(r)
  {
    forall k | k in r.sessions ensures WellFormed(r, k, r.sessions[k]) {
      assert WellFormed(reg, k, reg.sessions[k]);
    }
  }

  lemma PollTickPreservesValid(reg: Registry, mediaItemId: int, serial: nat, snapshot: PlaylistSnapshot)
    requires Valid(reg)
    ensures Valid(PollTick(reg, mediaItemId, serial, snapshot))
  {
    var r := PollTick(reg, mediaItemId, serial, snapshot);
    assert r.nextSerial == reg.nextSerial && r.cacheBase == reg.cacheBase;
    forall k | k in r.sessions ensures WellFormed(r, k, r.sessions[k]) && r.sessions[k].serial == reg.sessions[k].serial {
      assert WellFormed(reg, k, reg.sessions[k]);
    }
  }

  lemma ReadyTimeoutPreservesValid(reg: Registry, mediaItemId: int, serial: nat, playlistExists: bool)
    requires Valid(reg)
    ensures Valid(ReadyTimeout(reg, mediaItemId, serial, playlistExists))
  {
    var r := ReadyTimeout(reg, mediaItemId, serial, playlistExists);
    assert r.nextSerial == reg.nextSerial && r.cacheBase == reg.cacheBase;
    forall k | k in r.sessions ensures WellFormed(r, k, r.sessions[k]) && r.sessions[k].serial == reg.sessions[k].serial {
      assert WellFormed(reg, k, reg.sessions[k]);
    }
  }

  /** Join semantics: a second `getOrCreateSession` for the same item, whatever its start time and
      track choices, returns the session the first call registered, with only the access time
      refreshed, and starts nothing. */
  lemma SecondRequestJoins(reg: Registry, mediaItemId: int,
                           f1: string, t1: int, a1: Option<int>, v1: Option<int>, now1: int,
                           f2: string, t2: int, a2: Option<int>, v2: Option<int>, now2: int)
    ensures var (r1, s1, _) := GetOrCreate(reg, mediaItemId, f1, t1, a1, v1, now1);
            var (r2, s2, e2) := GetOrCreate(r1, mediaItemId, f2, t2, a2, v2, now2);
            s2 == s1.(lastAccessedAt := now2) && e2 == [] && r2.sessions.Keys == r1.sessions.Keys
  {
  }

  /** `killSession` twice is `killSession` once, and the second call has no effect at all. */
  lemma KillIdempotent(reg: Registry, mediaItemId: int)
    ensures Kill(Kill(reg, mediaItemId).0, mediaItemId) == (Kill(reg, mediaItemId).0, [])
  {
  }

  /** The stream selectors in the encoder options read back as the indices they were made from. */
  lemma MapOptionsReadBack(v: nat, a: Option<nat>)
    ensures ParseInt(VideoMap(Some(v))[7..]) == Some(v)
    ensures ParseInt(AudioMap(a)[9..]) == Some(a.GetOr(0))
  {
    assert VideoMap(Some(v))[7..] == NatToString(v) + "";
    ParseIntOfNatToString(v, "");
    var n: nat := a.GetOr(0);
    assert AudioMap(a)[9..] == NatToString(n) + "";
    ParseIntOfNatToString(n, "");
  }

  /** A session id determines its item and its creation time (for non-negative ids and clocks). */
  lemma SessionIdInjective(m1: nat, t1: nat, m2: nat, t2: nat)
    requires SessionId(m1, t1) == SessionId(m2, t2)
    ensures m1 == m2 && t1 == t2
  {
    var a1, b1 := NatToString(m1), NatToString(t1);
    var a2, b2 := NatToString(m2), NatToString(t2);
    var s := SessionId(m1, t1);
    assert s == a1 + "-" + b1 && s == a2 + "-" + b2;
    assert '-' !in a1 && '-' !in a2 by {
      assert forall i :: 0 <= i < |a1| ==> IsDigit(a1[i]);
      assert forall i :: 0 <= i < |a2| ==> IsDigit(a2[i]);
    }
    FirstIndexAfterDigits(a1, b1);
    FirstIndexAfterDigits(a2, b2);
    assert |a1| == |a2|;
    assert a1 == s[..|a1|] && a2 == s[..|a2|];
    assert b1 == s[|a1| + 1..] && b2 == s[|a2| + 1..];
    DigitsValueOfNatToString(m1);
    DigitsValueOfNatToString(m2);
    DigitsValueOfNatToString(t1);
    DigitsValueOfNatToString(t2);
  }

  lemma FirstIndexAfterDigits(a: string, b: string)
    requires '-' !in a
    ensures FirstIndex(a + "-" + b, '-') == |a|
  {
    FirstIndexUnique(a + "-" + b, '-', |a|);
  }

  /** Scenario behind a finding: a session is killed (its encoder will report an error once the
      signal lands), a new session is created for the same item, and then the late error of
      the first encoder arrives: it evicts the newer session, whose encoder keeps running but
      can no longer be killed, reaped or joined. */
  lemma StaleErrorEvictsNewerSession(reg: Registry, mediaItemId: int, filePath: string, now1: int, now2: int)
    requires mediaItemId !in reg.sessions
    ensures var (r1, a, _) := GetOrCreate(reg, mediaItemId, filePath, 0, None, None, now1);
            var r2 := Kill(r1, mediaItemId).0;
            var (r3, b, e3) := GetOrCreate(r2, mediaItemId, filePath, 0, None, None, now2);
            && b.serial != a.serial
            && e3[1].StartEncoder?
            && mediaItemId !in EncoderError(r3, mediaItemId).sessions
  {
  }

  /** The evidently intended error handler: drop the entry only when it is still the session
      whose encoder failed. */
  function EncoderErrorOf(reg: Registry, mediaItemId: int, serial: nat): (r: Registry)
    ensures mediaItemId in reg.sessions && reg.sessions[mediaItemId].serial == serial
            ==> r.sessions == reg.sessions - {mediaItemId}
    ensures !(mediaItemId in reg.sessions && reg.sessions[mediaItemId].serial == serial) ==> r == reg
  {
    if mediaItemId in reg.sessions && reg.sessions[mediaItemId].serial == serial
    then reg.(sessions := reg.sessions - {mediaItemId})
    else reg
  }

  /** With the corrected handler the late error of a killed session leaves the newer one alone. */
  lemma StaleErrorKeepsNewerSession(reg: Registry, mediaItemId: int, filePath: string, now1: int, now2: int)
    requires Valid(reg) && mediaItemId !in reg.sessions
    ensures var (r1, a, _) := GetOrCreate(reg, mediaItemId, filePath, 0, None, None, now1);
            var r2 := Kill(r1, mediaItemId).0;
            var (r3, b, _) := GetOrCreate(r2, mediaItemId, filePath, 0, None, None, now2);
            EncoderErrorOf(r3, mediaItemId, a.serial) == r3 && r3.sessions[mediaItemId] == b
  {
  }
}
