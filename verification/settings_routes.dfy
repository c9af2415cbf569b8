/** The decision logic of the settings routes: what `GET /settings` reveals, what
    `POST /settings` validates, persists and starts, and how the native folder picker's
    outcome is shaped. The file system, JSON text, the process environment and the
    dialog programs are parameters. */
module SettingsRoutes {
  import opened Common
  import opened JsText
  import opened Catalog

  /** The placeholder sent instead of a stored key: eight bullets. */
  const Mask := "\U{2022}\U{2022}\U{2022}\U{2022}\U{2022}\U{2022}\U{2022}\U{2022}"

  /** A stored setting that JavaScript reads as truthy: present and not empty. */
  predicate Stored(st: Store, key: string) {
    Given(GetSetting(st, key))
  }

  // ---------------------------------------------------------------- GET /settings

  datatype SettingsView = SettingsView(libraryPaths: seq<string>, tmdbApiKey: string, hasTmdbApiKey: bool)

  /** `GET /settings`. `decode` is `JSON.parse` of the stored path list (`None` when it
      throws, which fails the request). */
  function ViewSettings(st: Store, decode: string -> Option<seq<string>>): (r: Option<SettingsView>)
    ensures !Stored(st, PathsKey) ==> r.Some? && r.value.libraryPaths == []
    ensures Stored(st, PathsKey) ==> (r.Some? <==> decode(st.settings[PathsKey]).Some?)
    ensures Stored(st, PathsKey) && r.Some? ==> r.value.libraryPaths == decode(st.settings[PathsKey]).value
    ensures r.Some? ==> (r.value.hasTmdbApiKey <==> Stored(st, ApiKey))
    ensures r.Some? ==> r.value.tmdbApiKey == if Stored(st, ApiKey) then Mask else ""
  {
    var raw := GetSetting(st, PathsKey);
    var paths := if raw.Some? && raw.value != "" then decode(raw.value) else Some([]);
    if paths.None? then None
    else
      var hasKey := Stored(st, ApiKey);
      Some(SettingsView(paths.value, if hasKey then Mask else "", hasKey))
  }

  /** The view never carries the stored key: two stores that differ only in the (non-empty)
      key give the same view. */
  lemma KeyNeverRevealed(st: Store, decode: string -> Option<seq<string>>, k1: string, k2: string)
    requires k1 != "" && k2 != ""
    ensures ViewSettings(st.(settings := st.settings[ApiKey := k1]), decode)
         == ViewSettings(st.(settings := st.settings[ApiKey := k2]), decode)
  {
  }

  // ---------------------------------------------------------------- POST /settings

  datatype SettingsBody = SettingsBody(libraryPaths: Option<seq<string>>, tmdbApiKey: Option<string>)

  datatype PostOutcome =
    | PostRejected(status: int, message: string)
    /** The new store, the value written to the process environment's key (if any) and
        the paths a scan was started on (if any). */
    | PostSaved(store: Store, envKey: Option<string>, scan: Option<seq<string>>)

  /** The listed paths the file system does not have, in order. */
  function Missing(paths: seq<string>, onDisk: string -> bool): (r: seq<string>)
    ensures forall p :: p in r <==> p in paths && !onDisk(p)
  {
    Keep(paths, (p: string) => !onDisk(p))
  }

  /** `POST /settings`. `onDisk` is `fs.existsSync`, `encode` is `JSON.stringify` and
      `scanning` is whether a scan is in progress. */
  function PostSettings(st: Store, body: SettingsBody, onDisk: string -> bool,
                        encode: seq<string> -> string, scanning: bool): (r: PostOutcome)
    ensures r.PostSaved? ==> r.store == st.(settings := r.store.settings)
  {
    match body.libraryPaths
    case Some(paths) =>
      var invalid := Missing(paths, onDisk);
      if |invalid| > 0 then PostRejected(400, "Paths do not exist: " + Join(invalid, ", "))
      else
        var saved := SetSetting(st, PathsKey, encode(paths));
        var key := body.tmdbApiKey;
        var keyed := if key.Some? && key.value != "" then SetSetting(saved, ApiKey, key.value) else saved;
        PostSaved(keyed, if key.Some? && key.value != "" then key else None,
                  if scanning then None else Some(paths))
    case None =>
      match body.tmdbApiKey
      case Some(key) => PostSaved(SetSetting(st, ApiKey, key), Some(key), None)
      case None => PostSaved(st, None, None)
  }

  /** Any listed path that does not exist rejects the whole request with 400, naming
      exactly those paths: neither the paths nor the key are written. */
  lemma PostRejectsMissingPaths(st: Store, body: SettingsBody, onDisk: string -> bool,
                                encode: seq<string> -> string, scanning: bool)
    requires body.libraryPaths.Some?
    ensures var r := PostSettings(st, body, onDisk, encode, scanning);
      r.PostRejected? <==> exists i :: 0 <= i < |body.libraryPaths.value| && !onDisk(body.libraryPaths.value[i])
    ensures var r := PostSettings(st, body, onDisk, encode, scanning);
      r.PostRejected? ==> r == PostRejected(400, "Paths do not exist: " + Join(Missing(body.libraryPaths.value, onDisk), ", "))
  {
    var paths := body.libraryPaths.value;
    var invalid := Missing(paths, onDisk);
    if |invalid| > 0 {
      assert invalid[0] in paths;
    }
  }

  /** Valid paths are stored; the key is stored and exported only when it is non-empty; a
      scan of the new paths starts only when none is running; no other setting changes. */
  lemma PostStoresValidPaths(st: Store, body: SettingsBody, onDisk: string -> bool,
                             encode: seq<string> -> string, scanning: bool, other: string)
    requires body.libraryPaths.Some?
    requires forall i :: 0 <= i < |body.libraryPaths.value| ==> onDisk(body.libraryPaths.value[i])
    requires other != PathsKey && other != ApiKey
    ensures var r := PostSettings(st, body, onDisk, encode, scanning);
      r.PostSaved?
      && GetSetting(r.store, PathsKey) == Some(encode(body.libraryPaths.value))
      && (Given(body.tmdbApiKey) ==> GetSetting(r.store, ApiKey) == body.tmdbApiKey && r.envKey == body.tmdbApiKey)
      && (!Given(body.tmdbApiKey) ==> GetSetting(r.store, ApiKey) == GetSetting(st, ApiKey) && r.envKey.None?)
      && (r.scan.Some? <==> !scanning)
      && (r.scan.Some? ==> r.scan.value == body.libraryPaths.value)
      && GetSetting(r.store, other) == GetSetting(st, other)
  {
  }

  /** A key sent without paths is stored and exported as sent, even when empty; no scan
      starts. A body with neither changes nothing. */
  lemma PostStoresKeyAlone(st: Store, key: Option<string>, onDisk: string -> bool,
                           encode: seq<string> -> string, scanning: bool)
    ensures var r := PostSettings(st, SettingsBody(None, key), onDisk, encode, scanning);
      r.PostSaved? && r.scan.None? && r.envKey == key
      && (key.Some? ==> GetSetting(r.store, ApiKey) == key && r.store.settings.Keys == st.settings.Keys + {ApiKey})
      && (key.None? ==> r.store == st)
  {
  }

  /** What the settings page reads back after a successful save: the saved paths (when the
      JSON encoding round-trips) and a mask exactly when a key is stored. */
  lemma PostThenView(st: Store, body: SettingsBody, onDisk: string -> bool,
                     encode: seq<string> -> string, decode: string -> Option<seq<string>>, scanning: bool)
    requires body.libraryPaths.Some?
    requires forall i :: 0 <= i < |body.libraryPaths.value| ==> onDisk(body.libraryPaths.value[i])
    requires encode(body.libraryPaths.value) != "" && decode(encode(body.libraryPaths.value)) == body.libraryPaths
    ensures var r := PostSettings(st, body, onDisk, encode, scanning);
      r.PostSaved? && ViewSettings(r.store, decode)
        == Some(SettingsView(body.libraryPaths.value,
                             if Given(body.tmdbApiKey) || Stored(st, ApiKey) then Mask else "",
                             Given(body.tmdbApiKey) || Stored(st, ApiKey)))
  {
    PostStoresValidPaths(st, body, onDisk, encode, scanning, "");
  }

  // ---------------------------------------------------------------- GET /settings/pick-folder

  /** How a dialog program ended: its standard output, or its error's numeric exit code
      (`None` when the error carries none) and standard error. */
  datatype Exec = Exited(stdout: string) | ExecFailed(code: Option<int>, stderr: string)

  datatype Platform = Darwin | Linux | OtherPlatform

  datatype Pick = Picked(path: Option<string>, cancelled: bool) | PickError(status: int, message: string)

  /** The dialog the desktop shell injects: absent, returning its answer, or throwing. */
  datatype ShellDialog = NoShell | ShellReturned(answer: Pick) | ShellThrew

  const MsgPickFailed := "Failed to open folder picker"
  const MsgPickUnsupported := "Native folder picker not supported on this platform"

  /** `replace(/\/$/, '')`: one trailing separator removed. */
  function StripSlash(s: string): (r: string)
    ensures EndsWith(s, "/") ==> r + "/" == s
    ensures !EndsWith(s, "/") ==> r == s
  {
    if |s| > 0 && s[|s| - 1] == '/' then
      assert s == s[..|s| - 1] + "/";
      s[..|s| - 1]
    else s
  }

  /** The error handler: exit code 1, or "cancelled" in any case in the error output, is
      the user cancelling; anything else is a 500. */
  function Failure(code: Option<int>, stderr: string): (r: Pick)
    ensures r == Picked(None, true) || r == PickError(500, MsgPickFailed)
  {
    if code == Some(1) || Includes(ToLower(stderr), "cancelled") then Picked(None, true)
    else PickError(500, MsgPickFailed)
  }

  /** `GET /settings/pick-folder`: the shell's dialog when there is one; otherwise
      `osascript` on macOS, or `zenity` and then `kdialog` on Linux. */
  function PickFolder(shell: ShellDialog, platform: Platform, osascript: Exec, zenity: Exec, kdialog: Exec): (r: Pick)
    ensures shell.NoShell? && r.Picked? ==> (r.cancelled <==> r.path.None?)
  {
    match shell
    case ShellReturned(answer) => answer
    case ShellThrew => PickError(500, MsgPickFailed)
    case NoShell =>
      match platform
      case Darwin =>
        (match osascript
         case Exited(out) => Picked(Some(StripSlash(Trim(out))), false)
         case ExecFailed(code, err) => Failure(code, err))
      case Linux =>
        (match zenity
         case Exited(out) => Picked(Some(Trim(out)), false)
         case ExecFailed(_, _) =>
           match kdialog
           case Exited(out) => Picked(Some(Trim(out)), false)
           case ExecFailed(code, err) => Failure(code, err))
      case OtherPlatform => PickError(501, MsgPickUnsupported)
  }

  /** Cancelling the macOS dialog (exit code 1) answers `{path: null, cancelled: true}`;
      a chosen folder comes back trimmed with one trailing separator removed. */
  lemma PickOnMac(osascript: Exec, zenity: Exec, kdialog: Exec)
    ensures osascript.ExecFailed? && osascript.code == Some(1) ==>
      PickFolder(NoShell, Darwin, osascript, zenity, kdialog) == Picked(None, true)
    ensures osascript.Exited? ==>
      var r := PickFolder(NoShell, Darwin, osascript, zenity, kdialog);
      var out := Trim(osascript.stdout);
      r.Picked? && !r.cancelled && r.path.Some?
      && (EndsWith(out, "/") ==> r.path.value + "/" == out)
      && (!EndsWith(out, "/") ==> r.path.value == out)
  {
  }

  /** On Linux any `zenity` failure, a cancel included, falls through to `kdialog`, whose
      outcome alone decides the answer. */
  lemma PickOnLinux(zenity: Exec, kdialog: Exec, osascript: Exec, other: Exec)
    requires zenity.ExecFailed? && other.ExecFailed?
    ensures PickFolder(NoShell, Linux, osascript, zenity, kdialog) == PickFolder(NoShell, Linux, osascript, other, kdialog)
    ensures kdialog.Exited? ==> PickFolder(NoShell, Linux, osascript, zenity, kdialog) == Picked(Some(Trim(kdialog.stdout)), false)
    ensures kdialog.ExecFailed? ==> PickFolder(NoShell, Linux, osascript, zenity, kdialog) == Failure(kdialog.code, kdialog.stderr)
  {
  }
}
