/** The library section of the web client's settings page: editing the list of library
    folders, merging a picked folder, deciding what a save sends, and what the page shows
    afterwards. The page is a record threaded through its handlers; the HTTP calls are the
    server's answers passed in. */
module SettingsPage {
  import opened Common
  import opened JsText
  import opened Catalog
  import opened SettingsRoutes

  /** The page's state: the edited folder list, the list as last loaded or saved, the key
      field, the key the server supplied when the page loaded, the manual-path input and
      the status message. */
  datatype Page = Page(paths: seq<string>, original: seq<string>, tmdbKey: string,
                       loadedKey: string, manualPath: string, message: string)

  /** `ngOnInit`'s handler for the settings answer: the list becomes both the edited and
      the original list, and the key field shows what the server sent. */
  function Loaded(page: Page, view: SettingsView): (r: Page)
    ensures r.paths == r.original == view.libraryPaths && r.tmdbKey == r.loadedKey == view.tmdbApiKey
    ensures r.manualPath == page.manualPath && r.message == page.message
  {
    page.(paths := view.libraryPaths, original := view.libraryPaths,
          tmdbKey := view.tmdbApiKey, loadedKey := view.tmdbApiKey)
  }

  // ---------------------------------------------------------------- editing the list

  /** `removePath`: the list without any occurrence of `p`. */
  function RemovePath(page: Page, p: string): (r: Page)
    ensures r == page.(paths := r.paths)
    ensures p !in r.paths
    ensures forall q :: q != p ==> (q in r.paths <==> q in page.paths)
  {
    page.(paths := Keep(page.paths, (q: string) => q != p))
  }

  /** Removal deletes every occurrence of the path and keeps every other occurrence of
      every other path. */
  lemma RemovePathCounts(page: Page, p: string)
    ensures multiset(RemovePath(page, p).paths) == multiset(page.paths)[p := 0]
  {
    KeepOutCounts(page.paths, p);
  }

  lemma {:induction false} KeepOutCounts(s: seq<string>, p: string)
    ensures multiset(Keep(s, (q: string) => q != p)) == multiset(s)[p := 0]
    decreases |s|
  {
    if |s| > 0 {
      KeepOutCounts(s[1..], p);
      assert s == [s[0]] + s[1..];
      assert multiset(s) == multiset{s[0]} + multiset(s[1..]);
    }
  }

  /** The list with `p` appended unless it is already listed. */
  function AddIfAbsent(paths: seq<string>, p: string): (r: seq<string>)
    ensures p in r && (forall q :: q in r <==> q in paths || q == p)
    ensures p in paths ==> r == paths
    ensures p !in paths ==> r == paths + [p]
  {
    if p in paths then paths else paths + [p]
  }

  /** Adding never creates a duplicate and adding twice is adding once. */
  lemma AddIfAbsentLaws(paths: seq<string>, p: string)
    ensures NoDuplicates(paths) ==> NoDuplicates(AddIfAbsent(paths, p))
    ensures AddIfAbsent(AddIfAbsent(paths, p), p) == AddIfAbsent(paths, p)
  {
    if NoDuplicates(paths) && p !in paths {
      var r := paths + [p];
      forall i, j | 0 <= i < j < |r| ensures r[i] != r[j] {
        if j == |paths| {
          assert r[i] in paths;
        }
      }
    }
  }

  /** `addManualPath`: the trimmed input is added unless it is blank, and the input is then
      cleared. A blank input returns early and is left in the field. */
  function AddManualPath(page: Page): (r: Page)
    ensures Trim(page.manualPath) == "" ==> r == page
    ensures Trim(page.manualPath) != "" ==>
      r == page.(paths := AddIfAbsent(page.paths, Trim(page.manualPath)), manualPath := "")
  {
    var p := Trim(page.manualPath);
    if p == "" then page
    else page.(paths := AddIfAbsent(page.paths, p), manualPath := "")
  }

  /** Typing an already listed folder, with any surrounding whitespace, leaves the list as
      it was and clears the input. */
  lemma AddManualPathListed(page: Page, p: string, pad: string)
    requires p in page.paths && Trim(pad + p) == p && p != ""
    ensures AddManualPath(page.(manualPath := pad + p)) == page.(manualPath := "")
  {
  }

  const PickHint := " You can type a path manually below."

  /** `pickFolder`'s handlers: a chosen folder (not cancelled, a non-empty path) is added
      unless listed; an error shows the server's message followed by a hint. The message
      is cleared when the dialog opens. */
  function PickFolderReply(page: Page, reply: Pick): (r: Page)
    ensures reply.Picked? ==> r.message == "" && r.tmdbKey == page.tmdbKey && r.original == page.original
    ensures reply.Picked? && !reply.cancelled && Given(reply.path) ==> r.paths == AddIfAbsent(page.paths, reply.path.value)
    ensures reply.Picked? && (reply.cancelled || !Given(reply.path)) ==> r.paths == page.paths
    ensures reply.PickError? ==> r == page.(message := reply.message + PickHint)
  {
    match reply
    case Picked(path, cancelled) =>
      var cleared := page.(message := "");
      if !cancelled && Given(path) then cleared.(paths := AddIfAbsent(page.paths, path.value)) else cleared
    case PickError(_, message) => page.(message := message + PickHint)
  }

  // ---------------------------------------------------------------- saving

  /** The change test: a different length, or a position where the lists differ. */
  predicate PathsChanged(current: seq<string>, original: seq<string>) {
    |current| != |original| || exists i :: 0 <= i < |current| && (i >= |original| || current[i] != original[i])
  }

  /** The change test is list inequality. */
  lemma PathsChangedIsInequality(current: seq<string>, original: seq<string>)
    ensures PathsChanged(current, original) <==> current != original
  {
    if current != original && |current| == |original| {
      var i :| 0 <= i < |current| && current[i] != original[i];
    }
  }

  /** The request `save` sends as written: the key field always, the paths only when they
      changed. */
  function SavePayloadAsWritten(page: Page): (body: SettingsBody)
    ensures body.tmdbApiKey == Some(page.tmdbKey)
    ensures body.libraryPaths.Some? <==> page.paths != page.original
    ensures body.libraryPaths.Some? ==> body.libraryPaths.value == page.paths
  {
    PathsChangedIsInequality(page.paths, page.original);
    SettingsBody(if PathsChanged(page.paths, page.original) then Some(page.paths) else None, Some(page.tmdbKey))
  }

  /** The request `save` should send: as written, except that the key is sent only when the
      field no longer holds what the server supplied. */
  function SavePayload(page: Page): (body: SettingsBody)
    ensures body.tmdbApiKey.Some? <==> page.tmdbKey != page.loadedKey
    ensures body.tmdbApiKey.Some? ==> body.tmdbApiKey.value == page.tmdbKey
    ensures body.libraryPaths == SavePayloadAsWritten(page).libraryPaths
  {
    SettingsBody(SavePayloadAsWritten(page).libraryPaths,
                 if page.tmdbKey != page.loadedKey then Some(page.tmdbKey) else None)
  }

  const MsgSaved := "Settings saved."
  const MsgSavedScan := "Settings saved. Library scan started."

  /** The success handler, run on the page as it is when the reply arrives. `sent` is the page
      as it was when Save was pressed: the handler uses the list and the change test captured
      then. The message says a scan started exactly when that list had changed, and that list
      becomes the original. */
  function SaveSucceeded(page: Page, sent: Page): (r: Page)
    ensures r.message == if sent.paths != sent.original then MsgSavedScan else MsgSaved
    ensures r == page.(original := sent.paths, message := r.message)
  {
    PathsChangedIsInequality(sent.paths, sent.original);
    page.(original := sent.paths,
          message := if PathsChanged(sent.paths, sent.original) then MsgSavedScan else MsgSaved)
  }

  /** The failure handler: the server's error, else the transport's message, else a
      fixed text. Nothing else changes. */
  function SaveFailed(page: Page, serverError: Option<string>, transport: Option<string>): (r: Page)
    ensures serverError.Some? ==> r.message == serverError.value
    ensures serverError.None? && transport.Some? ==> r.message == transport.value
    ensures serverError.None? && transport.None? ==> r.message == "Failed to save settings."
    ensures r == page.(message := r.message)
  {
    page.(message := serverError.GetOr(transport.GetOr("Failed to save settings.")))
  }

  /** After a successful save the list counts as unchanged, so saving again sends no paths
      and starts no scan. */
  lemma SaveTwiceSendsPathsOnce(page: Page)
    ensures SavePayloadAsWritten(SaveSucceeded(page, page)).libraryPaths.None?
    ensures SavePayload(SaveSucceeded(page, page)).libraryPaths.None?
    ensures SaveSucceeded(SaveSucceeded(page, page), SaveSucceeded(page, page)).message == MsgSaved
  {
  }

  /** Folders edited while a save is in flight are not lost: the reply records the list that
      was sent, so the next save still sends the edited one. */
  lemma EditDuringSaveIsSentNext(page: Page, sent: Page)
    requires page.paths != sent.paths
    ensures SavePayloadAsWritten(SaveSucceeded(page, sent)).libraryPaths == Some(page.paths)
  {
    PathsChangedIsInequality(page.paths, sent.paths);
  }

  // ---------------------------------------------------------------- the stored key across a save

  /** As written: loading the page while a key is stored and saving without touching the key
      field, whatever was done to the folder list, stores the placeholder in place of the
      key and exports it to the process. With the list untouched the save always succeeds. */
  lemma UntouchedSaveStoresMask(st: Store, decode: string -> Option<seq<string>>, page: Page, edited: seq<string>,
                                onDisk: string -> bool, encode: seq<string> -> string, scanning: bool)
    requires Stored(st, ApiKey) && ViewSettings(st, decode).Some?
    ensures var p := Loaded(page, ViewSettings(st, decode).value).(paths := edited);
      var r := PostSettings(st, SavePayloadAsWritten(p), onDisk, encode, scanning);
      (edited == p.original ==> r.PostSaved?)
      && (r.PostSaved? ==> GetSetting(r.store, ApiKey) == Some(Mask) && r.envKey == Some(Mask))
  {
  }

  /** As written, concretely: a stored key "abc123" is replaced by eight bullets. */
  lemma MaskReplacesKey(st: Store, decode: string -> Option<seq<string>>, page: Page,
                        onDisk: string -> bool, encode: seq<string> -> string, scanning: bool)
    requires GetSetting(st, ApiKey) == Some("abc123") && ViewSettings(st, decode).Some?
    ensures var p := Loaded(page, ViewSettings(st, decode).value);
      var r := PostSettings(st, SavePayloadAsWritten(p), onDisk, encode, scanning);
      r.PostSaved? && GetSetting(r.store, ApiKey) != GetSetting(st, ApiKey)
  {
    var p := Loaded(page, ViewSettings(st, decode).value);
    UntouchedSaveStoresMask(st, decode, page, p.original, onDisk, encode, scanning);
    assert p.(paths := p.original) == p;
    assert Mask[0] != 'a';
  }

  /** Corrected: a save that leaves the key field as loaded never touches the stored key or
      the process's key, whatever was done to the folder list. */
  lemma UntouchedSaveKeepsKey(st: Store, page: Page, onDisk: string -> bool,
                              encode: seq<string> -> string, scanning: bool)
    requires page.tmdbKey == page.loadedKey
    ensures var r := PostSettings(st, SavePayload(page), onDisk, encode, scanning);
      r.PostSaved? ==> GetSetting(r.store, ApiKey) == GetSetting(st, ApiKey) && r.envKey.None?
  {
    var body := SavePayload(page);
    if body.libraryPaths.Some? {
      var r := PostSettings(st, body, onDisk, encode, scanning);
      if r.PostSaved? {
        assert r.store.settings == st.settings[PathsKey := encode(body.libraryPaths.value)];
      }
    }
  }

  /** Corrected: a new key typed over the placeholder, with the folders untouched, is what
      the server stores. */
  lemma EditedKeyIsStored(st: Store, decode: string -> Option<seq<string>>, page: Page, key: string,
                          onDisk: string -> bool, encode: seq<string> -> string, scanning: bool)
    requires ViewSettings(st, decode).Some? && key != ViewSettings(st, decode).value.tmdbApiKey
    ensures var p := Loaded(page, ViewSettings(st, decode).value).(tmdbKey := key);
      var r := PostSettings(st, SavePayload(p), onDisk, encode, scanning);
      r.PostSaved? && GetSetting(r.store, ApiKey) == Some(key) && r.envKey == Some(key)
  {
  }
}
