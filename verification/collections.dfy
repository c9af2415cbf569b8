/** The client's collection rows: the filter rule shared with the browse page, and the
    collections service, whose state is the server's collections, the locally stored filter
    collections and the per-collection overrides (a new name, or hidden). */
module Collections {
  import opened Common
  import opened JsText

  datatype ItemType = MovieItem | ShowItem | EpisodeItem | SongItem | AlbumItem

  /** The fields of a library item the client's list logic reads. */
  datatype MediaItem = MediaItem(
    id: int,
    title: string,
    sortTitle: Option<string>,
    kind: ItemType,
    year: Option<int>,
    genre: Option<string>,
    director: Option<string>,
    posterUrl: Option<string>,
    tmdbId: Option<string>,
    inWatchlist: int,
    addedAt: string)

  datatype FilterType = GenreFilter | DirectorFilter | DecadeFilter

  datatype Collection = Collection(
    id: string,
    name: string,
    itemIds: seq<int>,
    isManual: bool,
    filterType: Option<FilterType>,
    filterValue: Option<string>)

  /** A string that JavaScript treats as true: present and non-empty. */
  predicate Present(s: Option<string>) { s.Some? && s.value != "" }

  // ---------------------------------------------------------------- matchesFilter

  /** The comma-separated genres, each trimmed and lower-cased. */
  function Genres(genre: string): (r: seq<string>)
    ensures |r| == |Split(genre, ',')|
  {
    var parts := Split(genre, ',');
    seq(|parts|, i requires 0 <= i < |parts| => ToLower(Trim(parts[i])))
  }

  /** The genre and director filters dereference `filterValue` unconditionally. */
  predicate FilterReady(col: Collection) {
    col.filterType.Some? && col.filterType.value != DecadeFilter ==> col.filterValue.Some?
  }

  /** `Math.floor(year / 10) * 10`. */
  function DecadeOf(year: int): (d: int)
    ensures d % 10 == 0 && d <= year < d + 10
  {
    (year / 10) * 10
  }

  /** `matchesFilter`: genre membership, director substring (both ignoring case) or the
      item's decade written out; an item without the field, or a collection without a
      filter, never matches. */
  predicate MatchesFilter(item: MediaItem, col: Collection)
    requires FilterReady(col)
  {
    match col.filterType
    case None => false
    case Some(GenreFilter) =>
      Present(item.genre) && ToLower(col.filterValue.value) in Genres(item.genre.value)
    case Some(DirectorFilter) =>
      Present(item.director) && Includes(ToLower(item.director.value), ToLower(col.filterValue.value))
    case Some(DecadeFilter) =>
      item.year.Some? && item.year.value != 0 && col.filterValue == Some(IntToString(DecadeOf(item.year.value)))
  }

  /** The `i`-th comma-separated part of `genre`, trimmed, is `v` up to case. */
  predicate GenreAt(genre: string, i: int, v: string) {
    var parts := Split(genre, ',');
    0 <= i < |parts| && Genres(genre)[i] == ToLower(v)
  }

  lemma GenreAtMeans(genre: string, i: int, v: string)
    requires 0 <= i < |Split(genre, ',')|
    ensures GenreAt(genre, i, v) <==> ToLower(Trim(Split(genre, ',')[i])) == ToLower(v)
  {
  }

  /** A genre collection matches exactly the items one of whose comma-separated genres,
      trimmed, equals the filter value up to case (see `GenreAtMeans`). */
  lemma GenreMatch(item: MediaItem, col: Collection)
    requires col.filterType == Some(GenreFilter) && col.filterValue.Some?
    ensures MatchesFilter(item, col) <==>
      Present(item.genre) && exists i :: GenreAt(item.genre.value, i, col.filterValue.value)
  {
    if Present(item.genre) {
      var g := Genres(item.genre.value);
      var v := ToLower(col.filterValue.value);
      if v in g {
        var i :| 0 <= i < |g| && g[i] == v;
        assert GenreAt(item.genre.value, i, col.filterValue.value);
      }
    }
  }

  /** A genre is matched whole, never as a part: an item with a single genre matches only
      a value equal to that genre, trimmed, up to case (`Sci` does not match
      `Science Fiction`). */
  lemma SingleGenreMatch(item: MediaItem, col: Collection)
    requires col.filterType == Some(GenreFilter) && col.filterValue.Some?
    requires Present(item.genre) && ',' !in item.genre.value
    ensures MatchesFilter(item, col) <==> ToLower(Trim(item.genre.value)) == ToLower(col.filterValue.value)
  {
    var g := item.genre.value;
    GenreMatch(item, col);
    assert Split(g, ',') == [g];
    GenreAtMeans(g, 0, col.filterValue.value);
    assert forall i :: GenreAt(g, i, col.filterValue.value) ==> i == 0;
  }

  /** Every year of a decade matches that decade's collection and no other. */
  lemma DecadeMatch(item: MediaItem, col: Collection, d: int)
    requires col.filterType == Some(DecadeFilter)
    requires item.year.Some? && item.year.value != 0
    requires d % 10 == 0 && d <= item.year.value < d + 10
    ensures MatchesFilter(item, col) <==> col.filterValue == Some(IntToString(d))
  {
    var y := item.year.value;
    var e := DecadeOf(y);
    assert e == d by {
      assert e <= y < e + 10 && e % 10 == 0;
    }
  }

  /** An item without a year never matches a decade collection. */
  lemma NoYearNoDecade(item: MediaItem, col: Collection)
    requires col.filterType == Some(DecadeFilter)
    requires item.year.None? || item.year == Some(0)
    ensures !MatchesFilter(item, col)
  {
  }

  /** A director collection matches, whatever the case, any credit that contains the value. */
  lemma DirectorMatch(item: MediaItem, col: Collection, before: string, after: string)
    requires col.filterType == Some(DirectorFilter) && col.filterValue.Some?
    requires item.director == Some(before + col.filterValue.value + after)
    requires col.filterValue.value != "" || before + after != ""
    ensures MatchesFilter(item, col)
  {
    var v := col.filterValue.value;
    ToLowerDistributes(before, v + after);
    ToLowerDistributes(v, after);
    assert before + (v + after) == before + v + after;
    assert OccursAt(ToLower(item.director.value), ToLower(v), |before|) by {
      assert ToLower(item.director.value) == ToLower(before) + (ToLower(v) + ToLower(after));
    }
  }

  // ---------------------------------------------------------------- overrides

  /** A local override of a server-side collection. */
  datatype Override = Override(name: Option<string>, hidden: Option<bool>)

  type Overrides = map<string, Override>

  predicate Hidden(o: Overrides, id: string) {
    id in o && o[id].hidden == Some(true)
  }

  /** The name a collection is shown under: the override's name when it is non-empty. */
  function ShownName(o: Overrides, c: Collection): string {
    if c.id in o && Present(o[c.id].name) then o[c.id].name.value else c.name
  }

  /** `applyOverrides`: hidden collections are dropped, the others keep their order and take
      their override name. */
  function ApplyOverrides(all: seq<Collection>, o: Overrides): (r: seq<Collection>)
    ensures |r| <= |all|
    ensures forall i :: 0 <= i < |r| ==> !Hidden(o, r[i].id)
  {
    if |all| == 0 then []
    else
      var rest := ApplyOverrides(all[1..], o);
      if Hidden(o, all[0].id) then rest else [all[0].(name := ShownName(o, all[0]))] + rest
  }

  function Ids(cs: seq<Collection>): (r: seq<string>)
    ensures |r| == |cs|
  {
    seq(|cs|, i requires 0 <= i < |cs| => cs[i].id)
  }

  /** The shown ids are the non-hidden ids, in their original order. */
  lemma {:induction false} ApplyOverridesIds(all: seq<Collection>, o: Overrides)
    ensures Ids(ApplyOverrides(all, o)) == Keep(Ids(all), (id: string) => !Hidden(o, id))
    decreases |all|
  {
    if |all| > 0 {
      var p := (id: string) => !Hidden(o, id);
      var rest := ApplyOverrides(all[1..], o);
      ApplyOverridesIds(all[1..], o);
      var ids := Ids(all);
      assert ids[0] == all[0].id && ids[1..] == Ids(all[1..]);
      assert Keep(ids, p) == if p(ids[0]) then [ids[0]] + Keep(ids[1..], p) else Keep(ids[1..], p);
      if !Hidden(o, all[0].id) {
        IdsCons(all[0].(name := ShownName(o, all[0])), rest);
      }
    }
  }

  lemma IdsCons(c: Collection, rest: seq<Collection>)
    ensures Ids([c] + rest) == [c.id] + Ids(rest)
  {
    assert forall i :: 0 <= i < |rest| ==> ([c] + rest)[i + 1] == rest[i];
  }

  /** Every collection that is not hidden is shown, under its shown name, and nothing else is. */
  lemma {:induction false} ApplyOverridesMembers(all: seq<Collection>, o: Overrides, c: Collection)
    ensures c in ApplyOverrides(all, o) <==>
      exists i :: 0 <= i < |all| && !Hidden(o, all[i].id) && c == all[i].(name := ShownName(o, all[i]))
    decreases |all|
  {
    if |all| > 0 {
      ApplyOverridesMembers(all[1..], o, c);
      if exists i :: 0 <= i < |all[1..]| && !Hidden(o, all[1..][i].id) && c == all[1..][i].(name := ShownName(o, all[1..][i])) {
        var i :| 0 <= i < |all[1..]| && !Hidden(o, all[1..][i].id) && c == all[1..][i].(name := ShownName(o, all[1..][i]));
        assert all[1..][i] == all[i + 1];
      }
      if exists i :: 0 <= i < |all| && !Hidden(o, all[i].id) && c == all[i].(name := ShownName(o, all[i])) {
        var i :| 0 <= i < |all| && !Hidden(o, all[i].id) && c == all[i].(name := ShownName(o, all[i]));
        if i > 0 { assert all[i] == all[1..][i - 1]; }
      }
    }
  }

  /** With no overrides every collection is shown as it is. */
  lemma {:induction false} NoOverridesIdentity(all: seq<Collection>)
    ensures ApplyOverrides(all, map[]) == all
    decreases |all|
  {
    if |all| > 0 {
      NoOverridesIdentity(all[1..]);
      assert all[0].(name := ShownName(map[], all[0])) == all[0];
      assert all == [all[0]] + all[1..];
    }
  }

  // ---------------------------------------------------------------- the service

  /** Requests the service sends to the server. */
  datatype ApiCall = DeleteCollectionCall(id: string) | RenameCollectionCall(id: string, name: string)

  /** The service's signals: server collections, filter collections, overrides, and the
      combined list the pages show. */
  datatype Service = Service(api: seq<Collection>, filters: seq<Collection>, overrides: Overrides, shown: seq<Collection>)

  /** `updateCollections`: recompute what is shown from the three sources. */
  function Refresh(s: Service): (r: Service)
    ensures r.api == s.api && r.filters == s.filters && r.overrides == s.overrides
    ensures r.shown == ApplyOverrides(s.api + s.filters, s.overrides)
  {
    s.(shown := ApplyOverrides(s.api + s.filters, s.overrides))
  }

  predicate HasId(cs: seq<Collection>, id: string) {
    exists i :: 0 <= i < |cs| && cs[i].id == id
  }

  /** The first collection with that id (`Array.prototype.find`). */
  function Find(cs: seq<Collection>, id: string): (r: Option<Collection>)
    ensures r.Some? <==> HasId(cs, id)
    ensures r.Some? ==> r.value in cs && r.value.id == id
  {
    if |cs| == 0 then None
    else if cs[0].id == id then Some(cs[0])
    else
      var r := Find(cs[1..], id);
      assert HasId(cs, id) ==> HasId(cs[1..], id) by {
        if HasId(cs, id) {
          var i :| 0 <= i < |cs| && cs[i].id == id;
          assert cs[1..][i - 1] == cs[i];
        }
      }
      assert HasId(cs[1..], id) ==> HasId(cs, id) by {
        if HasId(cs[1..], id) {
          var i :| 0 <= i < |cs[1..]| && cs[1..][i].id == id;
          assert cs[i + 1] == cs[1..][i];
        }
      }
      r
  }

  function WithoutId(cs: seq<Collection>, id: string): (r: seq<Collection>)
    ensures !HasId(r, id)
    ensures forall i :: 0 <= i < |cs| && cs[i].id != id ==> cs[i] in r
    ensures forall i :: 0 <= i < |r| ==> r[i] in cs
  {
    var r := Keep(cs, (c: Collection) => c.id != id);
    assert !HasId(r, id) by {
      forall i | 0 <= i < |r| ensures r[i].id != id { assert r[i] in cs; }
    }
    r
  }

  function Renamed(cs: seq<Collection>, id: string, name: string): (r: seq<Collection>)
    ensures |r| == |cs|
    ensures forall i :: 0 <= i < |r| ==> r[i] == if cs[i].id == id then cs[i].(name := name) else cs[i]
  {
    seq(|cs|, i requires 0 <= i < |cs| => if cs[i].id == id then cs[i].(name := name) else cs[i])
  }

  /** The override of `id` with `hidden` set, keeping any name. */
  function HideOverride(o: Overrides, id: string): (r: Overrides)
    ensures Hidden(r, id)
    ensures forall k :: k in o && k != id ==> k in r && r[k] == o[k]
    ensures r.Keys == o.Keys + {id}
    ensures id in o ==> r[id].name == o[id].name
  {
    o[id := Override(if id in o then o[id].name else None, Some(true))]
  }

  function NameOverride(o: Overrides, id: string, name: string): (r: Overrides)
    ensures id in r && r[id].name == Some(name)
    ensures Hidden(r, id) <==> Hidden(o, id)
    ensures forall k :: k in o && k != id ==> k in r && r[k] == o[k]
  {
    o[id := Override(Some(name), if id in o then o[id].hidden else None)]
  }

  /** `removeCollection`: a filter collection is deleted locally; otherwise a manual server
      collection is deleted (and the server asked to), an automatic one is only hidden; an
      unknown id changes nothing. */
  function RemoveCollection(s: Service, id: string): (r: (Service, seq<ApiCall>))
    ensures HasId(s.filters, id) ==> r.0 == Refresh(s.(filters := WithoutId(s.filters, id))) && r.1 == []
    ensures !HasId(s.filters, id) && !HasId(s.api, id) ==> r == (s, [])
    ensures !HasId(s.filters, id) && HasId(s.api, id) && Find(s.api, id).value.isManual ==>
      r.0 == Refresh(s.(api := WithoutId(s.api, id))) && r.1 == [DeleteCollectionCall(id)]
    ensures !HasId(s.filters, id) && HasId(s.api, id) && !Find(s.api, id).value.isManual ==>
      r.0 == Refresh(s.(overrides := HideOverride(s.overrides, id))) && r.1 == []
  {
    if Find(s.filters, id).Some? then (Refresh(s.(filters := WithoutId(s.filters, id))), [])
    else
      var col := Find(s.api, id);
      if col.None? then (s, [])
      else if col.value.isManual then (Refresh(s.(api := WithoutId(s.api, id))), [DeleteCollectionCall(id)])
      else (Refresh(s.(overrides := HideOverride(s.overrides, id))), [])
  }

  /** `renameCollection`: filter and manual collections change their own name (manual ones
      on the server too); an automatic one gets an override name. */
  function RenameCollection(s: Service, id: string, name: string): (r: (Service, seq<ApiCall>))
    ensures HasId(s.filters, id) ==> r.0 == Refresh(s.(filters := Renamed(s.filters, id, name))) && r.1 == []
    ensures !HasId(s.filters, id) && !HasId(s.api, id) ==> r == (s, [])
    ensures !HasId(s.filters, id) && HasId(s.api, id) && Find(s.api, id).value.isManual ==>
      r.0 == Refresh(s.(api := Renamed(s.api, id, name))) && r.1 == [RenameCollectionCall(id, name)]
    ensures !HasId(s.filters, id) && HasId(s.api, id) && !Find(s.api, id).value.isManual ==>
      r.0 == Refresh(s.(overrides := NameOverride(s.overrides, id, name))) && r.1 == []
  {
    if Find(s.filters, id).Some? then (Refresh(s.(filters := Renamed(s.filters, id, name))), [])
    else
      var col := Find(s.api, id);
      if col.None? then (s, [])
      else if col.value.isManual then (Refresh(s.(api := Renamed(s.api, id, name))), [RenameCollectionCall(id, name)])
      else (Refresh(s.(overrides := NameOverride(s.overrides, id, name))), [])
  }

  /** `restoreCollection`: the override loses its `hidden` flag, and is dropped entirely when
      it has no name left. */
  function RestoreOverride(o: Overrides, id: string): (r: Overrides)
    ensures !Hidden(r, id)
    ensures forall k :: k != id ==> (k in r <==> k in o) && (k in o ==> r[k] == o[k])
    ensures id in r <==> id in o && Present(o[id].name)
    ensures id in r ==> r[id].name == o[id].name
  {
    if id !in o then o
    else if Present(o[id].name) then o[id := Override(o[id].name, None)]
    else o - {id}
  }

  function RestoreCollection(s: Service, id: string): (r: Service)
    ensures r == Refresh(s.(overrides := RestoreOverride(s.overrides, id)))
  {
    Refresh(s.(overrides := RestoreOverride(s.overrides, id)))
  }

  /** Hiding an automatic collection that had no override and then restoring it leaves the
      overrides as they were. */
  lemma HideRestoreRoundTrip(o: Overrides, id: string)
    requires id !in o
    ensures RestoreOverride(HideOverride(o, id), id) == o
  {
  }

  /** Restoring keeps a name given earlier. */
  lemma RestoreKeepsName(o: Overrides, id: string, name: string)
    requires name != ""
    ensures var r := RestoreOverride(HideOverride(NameOverride(o, id, name), id), id);
      id in r && r[id].name == Some(name) && !Hidden(r, id)
  {
  }

  /** A removed automatic collection disappears from what is shown. */
  lemma RemovedAutoNotShown(s: Service, id: string)
    requires !HasId(s.filters, id) && HasId(s.api, id) && !Find(s.api, id).value.isManual
    ensures !HasId(RemoveCollection(s, id).0.shown, id)
  {
    var t := RemoveCollection(s, id).0;
    forall i | 0 <= i < |t.shown| ensures t.shown[i].id != id {
      assert !Hidden(t.overrides, t.shown[i].id);
    }
  }

  /** `hiddenCollections`: the server and filter collections, manual ones excepted, whose
      override hides them. */
  function HiddenCollections(s: Service): (r: seq<Collection>)
    ensures forall i :: 0 <= i < |r| ==> !r[i].isManual && Hidden(s.overrides, r[i].id) && r[i] in s.api + s.filters
    ensures forall c :: c in s.api + s.filters && !c.isManual && Hidden(s.overrides, c.id) ==> c in r
  {
    var all := s.api + s.filters;
    var r := Keep(all, (c: Collection) => !c.isManual && Hidden(s.overrides, c.id));
    assert forall c :: c in all && !c.isManual && Hidden(s.overrides, c.id) ==> c in r by {
      forall c | c in all && !c.isManual && Hidden(s.overrides, c.id) ensures c in r {
        var i :| 0 <= i < |all| && all[i] == c;
      }
    }
    r
  }

  /** A non-manual collection is either shown or listed as hidden, never both. */
  lemma ShownOrHidden(s: Service, c: Collection)
    requires s.shown == ApplyOverrides(s.api + s.filters, s.overrides)
    requires c in s.api + s.filters && !c.isManual
    ensures c in HiddenCollections(s) <==> c.(name := ShownName(s.overrides, c)) !in s.shown
  {
    var all := s.api + s.filters;
    var i :| 0 <= i < |all| && all[i] == c;
    ApplyOverridesMembers(all, s.overrides, c.(name := ShownName(s.overrides, c)));
  }

  /** A partial change to a filter collection: each field present replaces the old one. */
  datatype FilterPatch = FilterPatch(name: Option<string>, filterType: Option<FilterType>, filterValue: Option<string>)

  /** `{ ...c, ...patch }`: the collection's identity, items and kind are kept. */
  function Patched(c: Collection, p: FilterPatch): (r: Collection)
    ensures r.id == c.id && r.itemIds == c.itemIds && r.isManual == c.isManual
    ensures p == FilterPatch(None, None, None) ==> r == c
  {
    c.(name := p.name.GetOr(c.name),
       filterType := if p.filterType.Some? then p.filterType else c.filterType,
       filterValue := if p.filterValue.Some? then p.filterValue else c.filterValue)
  }

  /** `updateFilterCollection`: every filter collection with that id is patched in place. */
  function UpdateFilterCollection(s: Service, id: string, p: FilterPatch): (r: Service)
    ensures |r.filters| == |s.filters| && Ids(r.filters) == Ids(s.filters)
    ensures forall i :: 0 <= i < |s.filters| && s.filters[i].id != id ==> r.filters[i] == s.filters[i]
    ensures r.api == s.api && r.overrides == s.overrides
  {
    var fs := seq(|s.filters|, i requires 0 <= i < |s.filters| =>
                if s.filters[i].id == id then Patched(s.filters[i], p) else s.filters[i]);
    assert Ids(fs) == Ids(s.filters) by {
      assert forall i :: 0 <= i < |fs| ==> Ids(fs)[i] == fs[i].id == s.filters[i].id == Ids(s.filters)[i];
    }
    Refresh(s.(filters := fs))
  }

  /** Patching only the name of a filter collection is renaming it. */
  lemma PatchNameIsRename(s: Service, id: string, name: string)
    requires HasId(s.filters, id)
    ensures UpdateFilterCollection(s, id, FilterPatch(Some(name), None, None)) == RenameCollection(s, id, name).0
  {
    var fs := UpdateFilterCollection(s, id, FilterPatch(Some(name), None, None)).filters;
    assert fs == Renamed(s.filters, id, name);
  }

  /** `addFilterCollection` with the id the browser generated. */
  function AddFilterCollection(s: Service, id: string, name: string, t: FilterType, value: string): (r: Service)
    ensures r.filters == s.filters + [Collection(id, name, [], false, Some(t), Some(value))]
    ensures r.api == s.api && r.overrides == s.overrides
  {
    Refresh(s.(filters := s.filters + [Collection(id, name, [], false, Some(t), Some(value))]))
  }
}
