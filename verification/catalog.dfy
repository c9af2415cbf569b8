/** The server's catalog store: the SQLite tables as sequences, maps and sets, and the
    statements of the query module as functions from store to store. Rows of the media
    table are column maps so that the edit endpoint's arbitrary field set can be applied as
    it is. */
module Catalog {
  import opened Common
  import opened Sorting

  // ---------------------------------------------------------------- values and rows

  /** A column value as the driver hands it over. */
  datatype Value = VNull | VInt(i: int) | VReal(x: real) | VText(s: string)

  /** JavaScript truthiness of a column value. */
  predicate Truthy(v: Value) {
    match v
    case VNull => false
    case VInt(i) => i != 0
    case VReal(x) => x != 0.0
    case VText(s) => s != ""
  }

  type Row = map<string, Value>

  /** A column of a row; a column the row does not mention is `NULL`. */
  function Col(r: Row, k: string): Value {
    if k in r then r[k] else VNull
  }

  /** A `media_items` row and its `INTEGER PRIMARY KEY`. */
  datatype Item = Item(id: int, row: Row)

  datatype Progress = Progress(position: real, completed: int, updatedAt: int)

  datatype ManualCollection = ManualCollection(id: int, name: string, createdAt: int)

  datatype Role = Admin | Member

  datatype User = User(id: int, username: string, passwordHash: string, displayName: string,
                       role: Role, createdAt: int)

  datatype Invite = Invite(code: string, createdBy: int, usedBy: Option<int>, createdAt: int,
                           usedAt: Option<int>)

  /** The database. Tables with an `AUTOINCREMENT` key carry the next key; key pairs are
      (user, item) for progress, favourites and watchlist and (collection, item) for
      collection membership. */
  datatype Store = Store(
    items: seq<Item>, nextItem: int,
    progress: map<(int, int), Progress>,
    collections: seq<ManualCollection>, nextCollection: int,
    members: set<(int, int)>,
    settings: map<string, string>,
    users: seq<User>, nextUser: int,
    invites: seq<Invite>,
    favorites: set<(int, int)>, watchlist: set<(int, int)>)

  // ---------------------------------------------------------------- item lookups

  predicate HasItem(st: Store, id: int) {
    exists i :: 0 <= i < |st.items| && st.items[i].id == id
  }

  /** The position of the row with that key. */
  function ItemIndex(items: seq<Item>, id: int): (r: Option<nat>)
    ensures r.Some? ==> r.value < |items| && items[r.value].id == id
    ensures r.None? ==> forall i :: 0 <= i < |items| ==> items[i].id != id
  {
    if |items| == 0 then None
    else if items[|items| - 1].id == id then Some(|items| - 1)
    else ItemIndex(items[..|items| - 1], id)
  }

  /** Rows are in key order, so no key repeats. */
  predicate IdsIncreasing(items: seq<Item>) {
    forall i, j :: 0 <= i < j < |items| ==> items[i].id < items[j].id
  }

  /** Row keys only grow and the next key is above every one used. */
  predicate KeysIncreasing(items: seq<Item>, next: int) {
    IdsIncreasing(items) && forall i :: 0 <= i < |items| ==> items[i].id < next
  }

  /** With keys in order, the lookup finds the one row with that key. */
  lemma {:induction false} IndexOfKey(items: seq<Item>, id: int, i: nat)
    requires IdsIncreasing(items)
    requires i < |items| && items[i].id == id
    ensures ItemIndex(items, id) == Some(i)
    decreases |items|
  {
    if i != |items| - 1 {
      assert items[|items| - 1].id != id;
      IndexOfKey(items[..|items| - 1], id, i);
    }
  }

  /** `file_path` is `UNIQUE`: no two rows share a non-null path. */
  predicate PathsUnique(items: seq<Item>) {
    forall i, j :: 0 <= i < |items| && 0 <= j < |items| && i != j && Col(items[i].row, "file_path") != VNull
      ==> Col(items[i].row, "file_path") != Col(items[j].row, "file_path")
  }

  /** Every progress, membership, favourite and watchlist row refers to a stored item
      (the schema's foreign keys, enforced). */
  predicate ItemReferences(st: Store) {
    (forall k :: k in st.progress ==> HasItem(st, k.1))
    && (forall m :: m in st.members ==> HasItem(st, m.1))
    && (forall f :: f in st.favorites ==> HasItem(st, f.1))
    && (forall w :: w in st.watchlist ==> HasItem(st, w.1))
  }

  predicate Valid(st: Store) {
    KeysIncreasing(st.items, st.nextItem) && PathsUnique(st.items) && ItemReferences(st)
  }

  // ---------------------------------------------------------------- updateMediaItem

  /** The columns the edit endpoint may write. */
  const Updatable: set<string> := {"title", "sort_title", "year", "genre", "description", "rating",
                                   "director", "poster_url", "backdrop_url", "tmdb_id", "is_favorite"}

  /** The allow-listed part of a requested change. */
  function Allowed(fields: map<string, Value>): (r: map<string, Value>)
    ensures r.Keys == fields.Keys * Updatable
    ensures forall k :: k in r ==> r[k] == fields[k]
  {
    map k | k in fields.Keys * Updatable :: fields[k]
  }

  /** One row after an edit addressed to `id`. */
  function PatchRow(it: Item, id: int, patch: map<string, Value>): (r: Item)
    ensures r.id == it.id
    ensures forall k :: Col(r.row, k) == if it.id == id && k in patch then patch[k] else Col(it.row, k)
  {
    if it.id == id then it.(row := it.row + patch) else it
  }

  /** The one updatable column the schema declares `NOT NULL`. */
  const NotNullColumn: string := "title"

  /** `updateMediaItem`: the row with that key takes the allow-listed fields; every other
      column, row and table stays as it was. With no allow-listed field nothing is run. A
      `NULL` title breaks the column's `NOT NULL` constraint when a row is addressed: the
      statement throws (`None`) and nothing is written. */
  function UpdateMediaItem(st: Store, id: int, fields: map<string, Value>): (r: Option<Store>)
    ensures r.None? <==> HasItem(st, id) && NotNullColumn in fields && fields[NotNullColumn] == VNull
    ensures |Allowed(fields)| == 0 ==> r == Some(st)
    ensures r.Some? ==> r.value == st.(items := r.value.items)
    ensures r.Some? ==> |r.value.items| == |st.items|
    ensures r.Some? ==> forall i :: 0 <= i < |r.value.items| ==> r.value.items[i].id == st.items[i].id
    ensures r.Some? ==> forall i, k :: 0 <= i < |r.value.items| ==>
      Col(r.value.items[i].row, k) == if st.items[i].id == id && k in Allowed(fields) then fields[k] else Col(st.items[i].row, k)
  {
    var patch := Allowed(fields);
    assert NotNullColumn in Updatable;
    if |patch| == 0 then
      assert NotNullColumn !in fields;
      Some(st)
    else if NotNullColumn in patch && patch[NotNullColumn] == VNull && ItemIndex(st.items, id).Some? then None
    else
      var items := seq(|st.items|, i requires 0 <= i < |st.items| => PatchRow(st.items[i], id, patch));
      assert forall i :: 0 <= i < |items| ==> items[i] == PatchRow(st.items[i], id, patch);
      Some(st.(items := items))
  }

  /** An edit never touches a column outside the allow-list: not the file path, the type,
      the watchlist flag or the time it was added. */
  lemma UpdateKeepsProtected(st: Store, id: int, fields: map<string, Value>, i: nat, k: string)
    requires i < |st.items| && k !in Updatable
    ensures var r := UpdateMediaItem(st, id, fields);
      r.Some? ==> Col(r.value.items[i].row, k) == Col(st.items[i].row, k)
  {
  }

  /** An edit keeps the store's invariant when it does not change a file path. */
  lemma UpdateKeepsValid(st: Store, id: int, fields: map<string, Value>)
    requires Valid(st)
    ensures UpdateMediaItem(st, id, fields).Some? ==> Valid(UpdateMediaItem(st, id, fields).value)
  {
    var u := UpdateMediaItem(st, id, fields);
    if u.Some? {
      UpdateKeepsPaths(st, id, fields);
      RewrittenValid(st, u.value);
    }
  }

  /** No edit writes a file path. */
  lemma UpdateKeepsPaths(st: Store, id: int, fields: map<string, Value>)
    ensures var u := UpdateMediaItem(st, id, fields);
      u.Some? ==> forall i :: 0 <= i < |u.value.items| ==>
        Col(u.value.items[i].row, "file_path") == Col(st.items[i].row, "file_path")
  {
    var u := UpdateMediaItem(st, id, fields);
    if u.Some? {
      FilePathProtected();
      forall i | 0 <= i < |u.value.items| ensures Col(u.value.items[i].row, "file_path") == Col(st.items[i].row, "file_path") {
        UpdateKeepsProtected(st, id, fields, i, "file_path");
      }
    }
  }

  lemma FilePathProtected()
    ensures "file_path" !in Updatable
  {
  }

  /** Rewriting rows in place, with keys and file paths as they were and the other tables
      untouched, keeps the store valid. */
  lemma RewrittenValid(st: Store, r: Store)
    requires Valid(st)
    requires r == st.(items := r.items) && |r.items| == |st.items|
    requires forall i :: 0 <= i < |r.items| ==> r.items[i].id == st.items[i].id
    requires forall i :: 0 <= i < |r.items| ==> Col(r.items[i].row, "file_path") == Col(st.items[i].row, "file_path")
    ensures Valid(r)
  {
    KeysAndPathsKept(st, r);
    ReferencesKept(st, r);
  }

  /** Rewriting rows in place, with keys as they were and the other tables untouched, keeps
      every reference to an item good. */
  lemma ReferencesKept(st: Store, r: Store)
    requires ItemReferences(st)
    requires r == st.(items := r.items) && |r.items| == |st.items|
    requires forall i :: 0 <= i < |r.items| ==> r.items[i].id == st.items[i].id
    ensures ItemReferences(r)
  {
    forall n | HasItem(st, n) ensures HasItem(r, n) {
      var i :| 0 <= i < |st.items| && st.items[i].id == n;
      assert r.items[i].id == n;
    }
  }

  /** Rewriting rows in place, with keys and file paths as they were, keeps keys ordered and
      paths unique. */
  lemma KeysAndPathsKept(st: Store, r: Store)
    requires KeysIncreasing(st.items, st.nextItem) && PathsUnique(st.items)
    requires r.nextItem == st.nextItem && |r.items| == |st.items|
    requires forall i :: 0 <= i < |r.items| ==> r.items[i].id == st.items[i].id
    requires forall i :: 0 <= i < |r.items| ==> Col(r.items[i].row, "file_path") == Col(st.items[i].row, "file_path")
    ensures KeysIncreasing(r.items, r.nextItem) && PathsUnique(r.items)
  {
  }

  // ---------------------------------------------------------------- global toggles

  /** `toggleFavorite` / `toggleWatchlist` on `column`: a missing row gives false and no
      change; otherwise the flag becomes 0 when it was truthy and 1 when not, and the result
      says whether it is now 1. */
  function ToggleFlag(st: Store, id: int, column: string): (r: (Store, bool))
    ensures ItemIndex(st.items, id).None? ==> r == (st, false)
    ensures ItemIndex(st.items, id).Some? ==>
      var i := ItemIndex(st.items, id).value;
      r.1 == !Truthy(Col(st.items[i].row, column))
      && r.0 == st.(items := st.items[i := Item(id, st.items[i].row[column := VInt(if r.1 then 1 else 0)])])
  {
    var i := ItemIndex(st.items, id);
    if i.None? then (st, false)
    else
      var it := st.items[i.value];
      var now := if Truthy(Col(it.row, column)) then 0 else 1;
      (st.(items := st.items[i.value := it.(row := it.row[column := VInt(now)])]), now == 1)
  }

  /** On a 0/1 flag, toggling twice restores the store, and the two results differ. */
  lemma ToggleFlagTwice(st: Store, id: int, column: string)
    requires IdsIncreasing(st.items)
    requires ItemIndex(st.items, id).Some?
    requires Col(st.items[ItemIndex(st.items, id).value].row, column) in {VInt(0), VInt(1)}
    ensures var once := ToggleFlag(st, id, column);
      ToggleFlag(once.0, id, column).0 == st && ToggleFlag(once.0, id, column).1 == !once.1
  {
    var i := ItemIndex(st.items, id).value;
    var once := ToggleFlag(st, id, column);
    assert IdsIncreasing(once.0.items) by {
      assert forall j :: 0 <= j < |st.items| ==> once.0.items[j].id == st.items[j].id;
    }
    IndexOfKey(once.0.items, id, i);
    var row := st.items[i].row;
    assert column in row;
    assert row[column := row[column]] == row;
    assert once.0.items[i].row[column := row[column]] == row;
    assert st.items[i := Item(id, row)] == st.items;
  }

  // ---------------------------------------------------------------- upsertMediaItem

  /** The columns an index run writes to an existing row. */
  const UpsertColumns: set<string> := {"title", "sort_title", "type", "year", "genre", "file_size",
                                       "duration", "codec_info", "tmdb_id", "poster_url", "backdrop_url",
                                       "description", "rating", "director"}

  /** The scanned record's values for those columns (absent ones are `NULL`). */
  function Scanned(record: Row): (r: Row)
    ensures r.Keys == UpsertColumns
    ensures forall k :: k in r ==> r[k] == Col(record, k)
  {
    map k | k in UpsertColumns :: Col(record, k)
  }

  /** The first row whose path equals `path`; `NULL` equals nothing in SQL. */
  function PathOwner(items: seq<Item>, path: Value): (r: Option<nat>)
    ensures r.Some? ==> r.value < |items| && path != VNull && Col(items[r.value].row, "file_path") == path
    ensures r.None? ==> path == VNull || forall i :: 0 <= i < |items| ==> Col(items[i].row, "file_path") != path
  {
    if path == VNull || |items| == 0 then None
    else if Col(items[0].row, "file_path") == path then Some(0)
    else
      var r := PathOwner(items[1..], path);
      assert forall i :: 1 <= i < |items| ==> items[i] == items[1..][i - 1];
      if r.Some? then Some(r.value + 1) else None
  }

  /** A new row: the scanned columns, the path, both flags 0 and the time added. `now` is
      the text of SQLite's `datetime('now')` (`YYYY-MM-DD HH:MM:SS`), the column default. */
  function NewRow(record: Row, now: string): (r: Row)
    ensures UpsertColumns <= r.Keys
    ensures forall k :: k in UpsertColumns ==> Col(r, k) == Col(record, k)
    ensures Col(r, "file_path") == Col(record, "file_path")
    ensures Col(r, "is_favorite") == VInt(0) && Col(r, "in_watchlist") == VInt(0) && Col(r, "added_at") == VText(now)
  {
    Scanned(record)["file_path" := Col(record, "file_path")]["is_favorite" := VInt(0)]
                   ["in_watchlist" := VInt(0)]["added_at" := VText(now)]
  }

  /** `upsertMediaItem`, keyed by file path: a row with that path keeps its key, path,
      flags and time added and takes the scanned columns; otherwise a row is inserted under
      the next key. Returns the row's key. */
  function Upsert(st: Store, record: Row, now: string): (r: (Store, int))
    ensures PathOwner(st.items, Col(record, "file_path")).Some? ==>
      var i := PathOwner(st.items, Col(record, "file_path")).value;
      r.1 == st.items[i].id && r.0 == st.(items := st.items[i := Item(r.1, st.items[i].row + Scanned(record))])
    ensures PathOwner(st.items, Col(record, "file_path")).None? ==>
      r.1 == st.nextItem && r.0 == st.(items := st.items + [Item(r.1, NewRow(record, now))], nextItem := st.nextItem + 1)
  {
    var owner := PathOwner(st.items, Col(record, "file_path"));
    if owner.Some? then
      var prior := st.items[owner.value];
      (st.(items := st.items[owner.value := Item(prior.id, prior.row + Scanned(record))]), prior.id)
    else
      (st.(items := st.items + [Item(st.nextItem, NewRow(record, now))], nextItem := st.nextItem + 1), st.nextItem)
  }

  /** Upserting keeps the store valid, and afterwards exactly the returned row holds the
      record's (non-null) path: one row per path. */
  lemma UpsertOnePerPath(st: Store, record: Row, now: string)
    requires Valid(st)
    ensures Valid(Upsert(st, record, now).0)
    ensures var path := Col(record, "file_path"); var r := Upsert(st, record, now);
      path != VNull ==>
        forall i :: 0 <= i < |r.0.items| ==> (Col(r.0.items[i].row, "file_path") == path <==> r.0.items[i].id == r.1)
  {
    var path := Col(record, "file_path");
    var r := Upsert(st, record, now);
    var owner := PathOwner(st.items, path);
    assert "file_path" !in UpsertColumns;
    if owner.Some? {
      UpsertExisting(st, record, now, owner.value);
    } else {
      UpsertNew(st, record, now);
    }
  }

  lemma UpsertExisting(st: Store, record: Row, now: string, o: nat)
    requires Valid(st) && o < |st.items|
    requires PathOwner(st.items, Col(record, "file_path")) == Some(o)
    ensures var r := Upsert(st, record, now);
      Valid(r.0)
      && forall i :: 0 <= i < |r.0.items| ==> (Col(r.0.items[i].row, "file_path") == Col(record, "file_path") <==> r.0.items[i].id == r.1)
  {
    var path := Col(record, "file_path");
    var r := Upsert(st, record, now);
    var items := r.0.items;
    assert "file_path" !in UpsertColumns;
    SameShapeValid(st, r.0);
    forall i | 0 <= i < |items| ensures Col(items[i].row, "file_path") == path <==> items[i].id == r.1 {
      if i != o {
        assert Col(st.items[o].row, "file_path") != Col(st.items[i].row, "file_path");
        assert st.items[i].id != st.items[o].id by {
          if i < o { assert st.items[i].id < st.items[o].id; } else { assert st.items[o].id < st.items[i].id; }
        }
      }
    }
  }

  /** Rewriting columns other than the key and the path keeps a store valid. */
  lemma SameShapeValid(st: Store, st': Store)
    requires Valid(st)
    requires |st'.items| == |st.items| && st'.nextItem == st.nextItem
    requires forall i :: 0 <= i < |st.items| ==> st'.items[i].id == st.items[i].id
    requires forall i :: 0 <= i < |st.items| ==> Col(st'.items[i].row, "file_path") == Col(st.items[i].row, "file_path")
    requires st'.progress == st.progress && st'.members == st.members
    requires st'.favorites == st.favorites && st'.watchlist == st.watchlist
    ensures Valid(st')
  {
    forall n | HasItem(st, n) ensures HasItem(st', n) {
      var i :| 0 <= i < |st.items| && st.items[i].id == n;
      assert st'.items[i].id == n;
    }
  }

  lemma UpsertNew(st: Store, record: Row, now: string)
    requires Valid(st)
    requires PathOwner(st.items, Col(record, "file_path")).None?
    ensures var r := Upsert(st, record, now);
      Valid(r.0)
      && (Col(record, "file_path") != VNull ==>
            forall i :: 0 <= i < |r.0.items| ==> (Col(r.0.items[i].row, "file_path") == Col(record, "file_path") <==> r.0.items[i].id == r.1))
  {
    var r := Upsert(st, record, now);
    var row := NewRow(record, now);
    AppendKeys(st.items, st.nextItem, row);
    AppendPaths(st.items, st.nextItem, row);
    AppendReferences(st, r.0);
  }

  lemma AppendKeys(items: seq<Item>, next: int, row: Row)
    requires KeysIncreasing(items, next)
    ensures KeysIncreasing(items + [Item(next, row)], next + 1)
  {
  }

  lemma AppendPaths(items: seq<Item>, next: int, row: Row)
    requires PathsUnique(items) && KeysIncreasing(items, next)
    requires PathOwner(items, Col(row, "file_path")).None?
    ensures var all := items + [Item(next, row)];
      PathsUnique(all)
      && (Col(row, "file_path") != VNull ==>
            forall i :: 0 <= i < |all| ==> (Col(all[i].row, "file_path") == Col(row, "file_path") <==> all[i].id == next))
  {
    var all := items + [Item(next, row)];
    assert forall i :: 0 <= i < |items| ==> all[i] == items[i];
  }

  /** Adding rows to the item table keeps every reference resolvable. */
  lemma AppendReferences(st: Store, st': Store)
    requires ItemReferences(st)
    requires |st.items| <= |st'.items| && st'.items[..|st.items|] == st.items
    requires st'.progress == st.progress && st'.members == st.members
    requires st'.favorites == st.favorites && st'.watchlist == st.watchlist
    ensures ItemReferences(st')
  {
    forall n | HasItem(st, n) ensures HasItem(st', n) {
      var i :| 0 <= i < |st.items| && st.items[i].id == n;
      assert st'.items[i] == st'.items[..|st.items|][i];
    }
  }

  /** Indexing the same file twice leaves the store as indexing it once did. */
  lemma UpsertIdempotent(st: Store, record: Row, now: string, later: string)
    requires Valid(st) && Col(record, "file_path") != VNull
    ensures var once := Upsert(st, record, now);
      Upsert(once.0, record, later) == once
  {
    var once := Upsert(st, record, now);
    UpsertOnePerPath(st, record, now);
    var j := UpsertedRow(st, record, now);
    var items := once.0.items;
    FirstOwner(items, Col(record, "file_path"), j);
    RescanSame(items[j].row, record);
    assert items[j := Item(once.1, items[j].row)] == items;
  }

  /** Where the upserted row sits: it carries the path and the scanned columns. */
  lemma UpsertedRow(st: Store, record: Row, now: string) returns (j: nat)
    requires Valid(st)
    ensures var once := Upsert(st, record, now);
      j < |once.0.items| && once.0.items[j].id == once.1
      && Col(once.0.items[j].row, "file_path") == Col(record, "file_path")
      && forall k :: k in UpsertColumns ==> k in once.0.items[j].row && once.0.items[j].row[k] == Col(record, k)
  {
    var owner := PathOwner(st.items, Col(record, "file_path"));
    assert "file_path" !in UpsertColumns;
    j := if owner.Some? then owner.value else |st.items|;
  }

  /** Writing the scanned columns onto a row that already holds them changes nothing. */
  lemma RescanSame(row: Row, record: Row)
    requires forall k :: k in UpsertColumns ==> k in row && row[k] == Col(record, k)
    ensures row + Scanned(record) == row
  {
  }

  /** With paths unique, the path lookup finds the row holding the path. */
  lemma FirstOwner(items: seq<Item>, path: Value, j: nat)
    requires PathsUnique(items) && j < |items| && path != VNull && Col(items[j].row, "file_path") == path
    ensures PathOwner(items, path) == Some(j)
  {
  }

  // ---------------------------------------------------------------- deleteMediaItemById

  /** `deleteMediaItemById`: the row goes, with its progress and collection rows (deleted
      first) and its favourite and watchlist rows (by the schema's `ON DELETE CASCADE`). */
  function DeleteItem(st: Store, id: int): (r: Store)
    ensures !HasItem(r, id)
    ensures forall n :: n != id ==> (HasItem(r, n) <==> HasItem(st, n))
    ensures forall k :: k in r.progress <==> k in st.progress && k.1 != id
    ensures forall k :: k in r.progress ==> r.progress[k] == st.progress[k]
    ensures forall m :: m in r.members <==> m in st.members && m.1 != id
    ensures forall f :: f in r.favorites <==> f in st.favorites && f.1 != id
    ensures forall w :: w in r.watchlist <==> w in st.watchlist && w.1 != id
    ensures r.collections == st.collections && r.settings == st.settings && r.users == st.users
    ensures r.invites == st.invites && r.nextItem == st.nextItem
  {
    var items := Keep(st.items, (it: Item) => it.id != id);
    assert forall n :: n != id ==> (HasItem(st, n) ==> exists i :: 0 <= i < |items| && items[i].id == n) by {
      forall n | n != id && HasItem(st, n) ensures exists i :: 0 <= i < |items| && items[i].id == n {
        var i :| 0 <= i < |st.items| && st.items[i].id == n;
        assert st.items[i] in items;
      }
    }
    assert forall i :: 0 <= i < |items| ==> HasItem(st, items[i].id) by {
      forall i | 0 <= i < |items| ensures HasItem(st, items[i].id) {
        assert items[i] in st.items;
      }
    }
    st.(items := items,
        progress := (map k | k in st.progress && k.1 != id :: st.progress[k]),
        members := (set m | m in st.members && m.1 != id),
        favorites := (set f | f in st.favorites && f.1 != id),
        watchlist := (set w | w in st.watchlist && w.1 != id))
  }

  /** Deleting an item leaves no row that refers to it, and the store valid. */
  lemma DeleteItemValid(st: Store, id: int)
    requires Valid(st)
    ensures Valid(DeleteItem(st, id))
  {
    var r := DeleteItem(st, id);
    var p := (it: Item) => it.id != id;
    KeepIncreasing(st.items, p);
    KeepPaths(st.items, p);
    assert forall i :: 0 <= i < |r.items| ==> r.items[i].id < r.nextItem by {
      forall i | 0 <= i < |r.items| ensures r.items[i].id < r.nextItem {
        assert r.items[i] in st.items;
      }
    }
  }

  lemma KeepIncreasing(items: seq<Item>, p: Item -> bool)
    requires IdsIncreasing(items)
    ensures IdsIncreasing(Keep(items, p))
  {
    KeepOrdered(items, p, (a: Item, b: Item) => a.id < b.id);
  }

  /** Distinct paths, stated once per ordered pair. */
  predicate PathsApart(a: Item, b: Item) {
    Col(a.row, "file_path") == VNull || Col(a.row, "file_path") != Col(b.row, "file_path")
  }

  lemma PathsUniqueOrdered(items: seq<Item>)
    ensures PathsUnique(items) <==> forall i, j :: 0 <= i < j < |items| ==> PathsApart(items[i], items[j]) && PathsApart(items[j], items[i])
  {
  }

  lemma KeepPaths(items: seq<Item>, p: Item -> bool)
    requires PathsUnique(items)
    ensures PathsUnique(Keep(items, p))
  {
    PathsUniqueOrdered(items);
    KeepOrdered(items, p, (a: Item, b: Item) => PathsApart(a, b) && PathsApart(b, a));
    PathsUniqueOrdered(Keep(items, p));
  }

  // ---------------------------------------------------------------- watch progress

  /** `getWatchProgress`: the record for that user and item, if any. */
  function GetWatchProgress(st: Store, item: int, user: int): (r: Option<Progress>)
    ensures r.Some? <==> (user, item) in st.progress
    ensures r.Some? ==> r.value == st.progress[(user, item)]
  {
    if (user, item) in st.progress then Some(st.progress[(user, item)]) else None
  }

  /** `upsertWatchProgress`: one record per user and item, its position, completion flag
      and time overwritten. The item reference is a foreign key, so an unknown item makes
      the statement fail (`None`). */
  function UpsertWatchProgress(st: Store, item: int, position: real, completed: bool, user: int, now: int): (r: Option<Store>)
    ensures r.None? <==> !HasItem(st, item)
    ensures r.Some? ==> r.value.progress.Keys == st.progress.Keys + {(user, item)}
    ensures r.Some? ==> r.value == st.(progress := r.value.progress)
  {
    if !HasItem(st, item) then None
    else Some(st.(progress := st.progress[(user, item) := Progress(position, if completed then 1 else 0, now)]))
  }

  /** Reading after writing gives what was written; every other record and the rest of
      the store are as before, and the store stays valid. */
  lemma WatchProgressGetAfterSet(st: Store, item: int, position: real, completed: bool, user: int, now: int,
                                 item': int, user': int)
    requires Valid(st) && HasItem(st, item)
    ensures var r := UpsertWatchProgress(st, item, position, completed, user, now).value;
      Valid(r)
      && GetWatchProgress(r, item, user) == Some(Progress(position, if completed then 1 else 0, now))
      && ((user', item') != (user, item) ==> GetWatchProgress(r, item', user') == GetWatchProgress(st, item', user'))
  {
  }

  /** Writing twice leaves only the second write. */
  lemma WatchProgressOverwrites(st: Store, item: int, user: int, p1: real, c1: bool, t1: int, p2: real, c2: bool, t2: int)
    requires HasItem(st, item)
    ensures var once := UpsertWatchProgress(st, item, p1, c1, user, t1).value;
      UpsertWatchProgress(once, item, p2, c2, user, t2) == UpsertWatchProgress(st, item, p2, c2, user, t2)
  {
    var once := UpsertWatchProgress(st, item, p1, c1, user, t1).value;
    assert HasItem(once, item);
    assert once.progress[(user, item) := Progress(p2, if c2 then 1 else 0, t2)]
        == st.progress[(user, item) := Progress(p2, if c2 then 1 else 0, t2)];
  }

  // ---------------------------------------------------------------- getContinueWatching

  /** A record counts as "in progress" when it is not completed and has a position. */
  predicate InProgress(p: Progress) {
    p.completed == 0 && p.position > 0.0
  }

  /** The join of the user's in-progress records with their items, in table order. */
  function Watching(items: seq<Item>, progress: map<(int, int), Progress>, user: int): (r: seq<(Item, Progress)>)
    ensures forall e :: e in r <==> e.0 in items && (user, e.0.id) in progress
                                    && e.1 == progress[(user, e.0.id)] && InProgress(e.1)
  {
    if |items| == 0 then []
    else
      var rest := Watching(items[1..], progress, user);
      assert forall it :: it in items <==> it == items[0] || it in items[1..];
      var key := (user, items[0].id);
      if key in progress && InProgress(progress[key]) then [(items[0], progress[key])] + rest else rest
  }

  /** Newest first by the record's update time. */
  predicate NewerFirst(a: (Item, Progress), b: (Item, Progress)) {
    a.1.updatedAt >= b.1.updatedAt
  }

  lemma NewerFirstPreorder()
    ensures TotalPreorder(NewerFirst)
  {
  }

  const ContinueLimit := 20

  /** `getContinueWatching`: the user's in-progress items, newest first, at most 20. */
  function ContinueWatching(st: Store, user: int): (r: seq<(Item, Progress)>)
    ensures |r| <= ContinueLimit
    ensures SortedBy(r, NewerFirst)
    ensures forall e :: e in r ==> e in Watching(st.items, st.progress, user)
  {
    var sorted := SortBy(Watching(st.items, st.progress, user), NewerFirst);
    NewerFirstPreorder();
    SortBySorted(Watching(st.items, st.progress, user), NewerFirst);
    var r := if |sorted| <= ContinueLimit then sorted else sorted[..ContinueLimit];
    assert forall e :: e in r ==> e in multiset(sorted);
    r
  }

  /** Nothing in progress is missed when there are at most 20; beyond that, whatever is
      left out is no newer than anything shown. */
  lemma ContinueWatchingComplete(st: Store, user: int, e: (Item, Progress))
    requires e in Watching(st.items, st.progress, user)
    ensures var r := ContinueWatching(st, user);
      |Watching(st.items, st.progress, user)| <= ContinueLimit ==> e in r
    ensures var r := ContinueWatching(st, user);
      e !in r ==> |r| == ContinueLimit && forall i :: 0 <= i < |r| ==> r[i].1.updatedAt >= e.1.updatedAt
  {
    var w := Watching(st.items, st.progress, user);
    var sorted := SortBy(w, NewerFirst);
    NewerFirstPreorder();
    SortBySorted(w, NewerFirst);
    assert e in multiset(sorted);
    var j :| 0 <= j < |sorted| && sorted[j] == e;
    var r := ContinueWatching(st, user);
    if e !in r {
      assert |sorted| > ContinueLimit && r == sorted[..ContinueLimit];
      assert j >= ContinueLimit;
      forall i | 0 <= i < |r| ensures r[i].1.updatedAt >= e.1.updatedAt {
        assert r[i] == sorted[i];
      }
    }
  }

  // ---------------------------------------------------------------- manual collections

  predicate HasCollection(st: Store, id: int) {
    exists i :: 0 <= i < |st.collections| && st.collections[i].id == id
  }

  /** `createCollection`: a new, empty collection under the next key. */
  function CreateCollection(st: Store, name: string, now: int): (r: (Store, ManualCollection))
    ensures r.1 == ManualCollection(st.nextCollection, name, now)
    ensures r.0.collections == st.collections + [r.1] && r.0.nextCollection == st.nextCollection + 1
    ensures r.0 == st.(collections := r.0.collections, nextCollection := r.0.nextCollection)
  {
    var c := ManualCollection(st.nextCollection, name, now);
    (st.(collections := st.collections + [c], nextCollection := st.nextCollection + 1), c)
  }

  /** `deleteCollection`: the collection goes, and its memberships with it by cascade. */
  function DeleteCollection(st: Store, id: int): (r: Store)
    ensures !HasCollection(r, id)
    ensures forall n :: n != id ==> (HasCollection(r, n) <==> HasCollection(st, n))
    ensures forall m :: m in r.members <==> m in st.members && m.0 != id
    ensures r == st.(collections := r.collections, members := r.members)
  {
    var cs := Keep(st.collections, (c: ManualCollection) => c.id != id);
    assert forall n :: n != id && HasCollection(st, n) ==> exists i :: 0 <= i < |cs| && cs[i].id == n by {
      forall n | n != id && HasCollection(st, n) ensures exists i :: 0 <= i < |cs| && cs[i].id == n {
        var i :| 0 <= i < |st.collections| && st.collections[i].id == n;
        assert st.collections[i] in cs;
      }
    }
    assert forall i :: 0 <= i < |cs| ==> HasCollection(st, cs[i].id) by {
      forall i | 0 <= i < |cs| ensures HasCollection(st, cs[i].id) {
        assert cs[i] in st.collections;
      }
    }
    st.(collections := cs, members := (set m | m in st.members && m.0 != id))
  }

  /** `renameCollection`: every collection with that key takes the new name. */
  function RenameCollection(st: Store, id: int, name: string): (r: Store)
    ensures |r.collections| == |st.collections|
    ensures forall i :: 0 <= i < |r.collections| ==>
      r.collections[i] == if st.collections[i].id == id then st.collections[i].(name := name) else st.collections[i]
    ensures r == st.(collections := r.collections)
  {
    var cs := st.collections;
    st.(collections := seq(|cs|, i requires 0 <= i < |cs| => if cs[i].id == id then cs[i].(name := name) else cs[i]))
  }

  /** `addItemToCollection`: an `INSERT OR IGNORE` into a set of pairs; both references are
      foreign keys, so an unknown collection or item makes it fail (`None`). */
  function AddItemToCollection(st: Store, collection: int, item: int): (r: Option<Store>)
    ensures r.None? <==> !HasCollection(st, collection) || !HasItem(st, item)
    ensures r.Some? ==> r.value.members == st.members + {(collection, item)}
    ensures r.Some? ==> r.value == st.(members := r.value.members)
  {
    if !HasCollection(st, collection) || !HasItem(st, item) then None
    else Some(st.(members := st.members + {(collection, item)}))
  }

  /** `removeItemFromCollection`: exactly that pair goes. */
  function RemoveItemFromCollection(st: Store, collection: int, item: int): (r: Store)
    ensures forall m :: m in r.members <==> m in st.members && m != (collection, item)
    ensures r == st.(members := r.members)
  {
    st.(members := st.members - {(collection, item)})
  }

  /** Adding twice is adding once; removing undoes an add of a new pair; neither touches
      any other membership. */
  lemma MembershipLaws(st: Store, collection: int, item: int)
    requires HasCollection(st, collection) && HasItem(st, item)
    ensures var once := AddItemToCollection(st, collection, item).value;
      AddItemToCollection(once, collection, item) == Some(once)
    ensures (collection, item) !in st.members ==>
      RemoveItemFromCollection(AddItemToCollection(st, collection, item).value, collection, item) == st
  {
    var once := AddItemToCollection(st, collection, item).value;
    assert HasCollection(once, collection) && HasItem(once, item);
    assert once.members + {(collection, item)} == once.members;
    if (collection, item) !in st.members {
      assert once.members - {(collection, item)} == st.members;
    }
  }

  // ---------------------------------------------------------------- settings

  /** The settings the server itself reads: the JSON list of library roots and the
      metadata service key. */
  const PathsKey := "library_paths"
  const ApiKey := "tmdb_api_key"

  /** `getSetting`. */
  function GetSetting(st: Store, key: string): (r: Option<string>)
    ensures r.Some? <==> key in st.settings
    ensures r.Some? ==> r.value == st.settings[key]
  {
    if key in st.settings then Some(st.settings[key]) else None
  }

  /** `setSetting`: insert, or overwrite the value on a key conflict. */
  function SetSetting(st: Store, key: string, value: string): (r: Store)
    ensures r.settings.Keys == st.settings.Keys + {key}
    ensures r == st.(settings := r.settings)
  {
    st.(settings := st.settings[key := value])
  }

  /** A read after a write returns it; a later write wins; other keys are untouched. */
  lemma SettingGetAfterSet(st: Store, key: string, value: string, later: string, other: string)
    ensures GetSetting(SetSetting(st, key, value), key) == Some(value)
    ensures SetSetting(SetSetting(st, key, value), key, later) == SetSetting(st, key, later)
    ensures other != key ==> GetSetting(SetSetting(st, key, value), other) == GetSetting(st, other)
  {
    assert st.settings[key := value][key := later] == st.settings[key := later];
  }
}
