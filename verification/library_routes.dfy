/** The decision logic of the library routes: the type filter of the listing, the
    sort-title rule of the manual edit, the assembly of `/collections` (special, folder
    and manual collections) and the validation of the collection endpoints. The media
    listing is a parameter in the order the listing query returns it. */
module LibraryRoutes {
  import opened Common
  import opened JsText
  import opened Sorting
  import Paths
  import FileUtils
  import opened Catalog
  import Collections

  /** The response shape of a collection, shared with the client. */
  type Collection = Collections.Collection

  // ---------------------------------------------------------------- columns the routes read

  predicate IsMovie(it: Item) {
    Col(it.row, "type") == VText("movie")
  }

  /** `file_path`, with `NULL` read as the empty (falsy) string. */
  function PathOf(it: Item): string {
    match Col(it.row, "file_path")
    case VText(s) => s
    case _ => ""
  }

  /** `added_at ?? ''`. */
  function AddedAt(it: Item): string {
    match Col(it.row, "added_at")
    case VText(s) => s
    case _ => ""
  }

  function YearOf(it: Item): Option<int> {
    match Col(it.row, "year")
    case VInt(y) => Some(y)
    case _ => None
  }

  function IdsOf(items: seq<Item>): (r: seq<int>)
    ensures |r| == |items| && forall i :: 0 <= i < |r| ==> r[i] == items[i].id
  {
    seq(|items|, i requires 0 <= i < |items| => items[i].id)
  }

  // ---------------------------------------------------------------- GET /library

  /** The optional `type` query: when given and non-empty, only items of that type. */
  function TypeFilter(items: seq<Item>, kind: Option<string>): (r: seq<Item>)
    ensures kind.None? || kind.value == "" ==> r == items
    ensures kind.Some? && kind.value != "" ==>
      forall it :: it in r <==> it in items && Col(it.row, "type") == VText(kind.value)
  {
    if kind.None? || kind.value == "" then items
    else Keep(items, (it: Item) => Col(it.row, "type") == VText(kind.value))
  }

  // ---------------------------------------------------------------- PUT /library/:id

  datatype Outcome = Outcome(status: int, store: Store)

  /** The edit body with the sort-title rule applied: a truthy title without a truthy sort
      title brings a generated one. `None` is the `TypeError` of a truthy title that is not
      a string. */
  function WithSortTitle(fields: map<string, Value>): (r: Option<map<string, Value>>)
    ensures !(Truthy(Col(fields, "title")) && !Truthy(Col(fields, "sort_title"))) ==> r == Some(fields)
    ensures Truthy(Col(fields, "title")) && !Truthy(Col(fields, "sort_title")) ==>
      (r.Some? <==> Col(fields, "title").VText?)
      && (r.Some? ==> r.value == fields["sort_title" := VText(FileUtils.MakeSortTitle(Col(fields, "title").s))])
  {
    var title := Col(fields, "title");
    if Truthy(title) && !Truthy(Col(fields, "sort_title")) then
      if title.VText? then Some(fields["sort_title" := VText(FileUtils.MakeSortTitle(title.s))]) else None
    else Some(fields)
  }

  /** `PUT /library/:id`: 404 for an unknown (or unparsable) id, 500 for the type error
      above or for a `NULL` title the update refuses, otherwise the allow-listed update of
      the adjusted body. */
  function EditItem(st: Store, idText: string, fields: map<string, Value>): (r: Outcome)
    ensures r.status in {200, 404, 500}
    ensures r.status != 200 ==> r.store == st
    ensures |r.store.items| == |st.items|
    ensures r.status == 404 <==> ParseIntAuto(idText).None? || !HasItem(st, ParseIntAuto(idText).value)
  {
    var id := ParseIntAuto(idText);
    if id.None? || ItemIndex(st.items, id.value).None? then Outcome(404, st)
    else
      var adjusted := WithSortTitle(fields);
      if adjusted.None? then Outcome(500, st)
      else
        var updated := UpdateMediaItem(st, id.value, adjusted.value);
        if updated.None? then Outcome(500, st) else Outcome(200, updated.value)
  }

  /** A body whose title is `null` is a 500 for a stored item, and nothing changes: the
      sort-title rule leaves a falsy title alone and the update breaks `NOT NULL`. */
  lemma EditNullTitle(st: Store, idText: string, fields: map<string, Value>)
    requires ParseIntAuto(idText).Some? && HasItem(st, ParseIntAuto(idText).value)
    requires "title" in fields && fields["title"] == VNull
    ensures EditItem(st, idText, fields) == Outcome(500, st)
  {
    assert WithSortTitle(fields) == Some(fields);
  }

  /** An id that does not parse or names no item is a 404 that changes nothing. */
  lemma EditUnknownItem(st: Store, idText: string, fields: map<string, Value>)
    requires ParseIntAuto(idText).None? || !HasItem(st, ParseIntAuto(idText).value)
    ensures EditItem(st, idText, fields) == Outcome(404, st)
  {
    if ParseIntAuto(idText).Some? {
      assert ItemIndex(st.items, ParseIntAuto(idText).value).None?;
    }
  }

  /** A successful edit is the allow-listed update of the adjusted body; only a stored
      item and a well-typed title get there. */
  lemma EditSucceeds(st: Store, idText: string, fields: map<string, Value>)
    requires EditItem(st, idText, fields).status == 200
    ensures ParseIntAuto(idText).Some? && HasItem(st, ParseIntAuto(idText).value) && WithSortTitle(fields).Some?
    ensures UpdateMediaItem(st, ParseIntAuto(idText).value, WithSortTitle(fields).value).Some?
    ensures EditItem(st, idText, fields).store == UpdateMediaItem(st, ParseIntAuto(idText).value, WithSortTitle(fields).value).value
  {
    var i := ItemIndex(st.items, ParseIntAuto(idText).value).value;
    assert st.items[i].id == ParseIntAuto(idText).value;
  }

  /** Retitling without a sort title stores the generated sort title; a supplied sort
      title is stored as given. */
  lemma EditSortTitle(st: Store, idText: string, fields: map<string, Value>, i: nat)
    requires ParseIntAuto(idText).Some? && i < |st.items| && st.items[i].id == ParseIntAuto(idText).value
    requires Col(fields, "title").VText? && Col(fields, "title").s != ""
    ensures var r := EditItem(st, idText, fields);
      r.status == 200
      && Col(r.store.items[i].row, "sort_title") ==
           (if Truthy(Col(fields, "sort_title")) then fields["sort_title"]
            else VText(FileUtils.MakeSortTitle(Col(fields, "title").s)))
  {
    EditApplies(st, idText, fields, i);
    AdjustedSortTitle(fields);
    var adjusted := WithSortTitle(fields).value;
    assert "sort_title" in Allowed(adjusted);
  }

  lemma AdjustedSortTitle(fields: map<string, Value>)
    requires Col(fields, "title").VText? && Col(fields, "title").s != ""
    ensures WithSortTitle(fields).Some? && "sort_title" in WithSortTitle(fields).value
    ensures WithSortTitle(fields).value["sort_title"] ==
      (if Truthy(Col(fields, "sort_title")) then fields["sort_title"]
       else VText(FileUtils.MakeSortTitle(Col(fields, "title").s)))
  {
  }

  lemma EditApplies(st: Store, idText: string, fields: map<string, Value>, i: nat)
    requires ParseIntAuto(idText).Some? && i < |st.items| && st.items[i].id == ParseIntAuto(idText).value
    requires Col(fields, "title").VText?
    ensures WithSortTitle(fields).Some?
    ensures UpdateMediaItem(st, ParseIntAuto(idText).value, WithSortTitle(fields).value).Some?
    ensures EditItem(st, idText, fields) == Outcome(200, UpdateMediaItem(st, ParseIntAuto(idText).value, WithSortTitle(fields).value).value)
  {
    var id := ParseIntAuto(idText).value;
    assert ItemIndex(st.items, id).Some?;
    AdjustedKeepsTitle(fields);
    var adjusted := WithSortTitle(fields).value;
    assert Col(adjusted, NotNullColumn).VText?;
    assert UpdateMediaItem(st, id, adjusted).Some?;
  }

  /** The sort-title rule never touches the title itself. */
  lemma AdjustedKeepsTitle(fields: map<string, Value>)
    requires Col(fields, "title").VText?
    ensures WithSortTitle(fields).Some?
    ensures Col(WithSortTitle(fields).value, "title") == Col(fields, "title")
  {
  }

  // ---------------------------------------------------------------- folder collections

  /** The first configured root that contains `p` below it. */
  function RootOf(roots: seq<string>, p: string): (r: Option<string>)
    ensures r.Some? ==> r.value in roots && StartsWith(p, r.value + "/")
    ensures r.None? ==> forall k :: 0 <= k < |roots| ==> !StartsWith(p, roots[k] + "/")
  {
    if |roots| == 0 then None
    else if StartsWith(p, roots[0] + "/") then Some(roots[0])
    else
      var r := RootOf(roots[1..], p);
      assert forall k :: 1 <= k < |roots| ==> roots[k] == roots[1..][k - 1];
      r
  }

  /** The folder collection a listing entry belongs to: a movie with a path under a root
      and not directly in it goes to the root joined with its first sub-folder. */
  function FolderOf(it: Item, roots: seq<string>): Option<string> {
    var p := PathOf(it);
    if !IsMovie(it) || p == "" then None
    else
      var root := RootOf(roots, p);
      if root.None? then None
      else
        var rel := p[|root.value| + 1..];
        if '/' !in rel then None else Some(Paths.Join(root.value, rel[..FirstIndex(rel, '/')]))
  }

  /** With roots written without a trailing separator, an entry's folder lies directly
      below one of the roots, the entry's path lies below the folder, and only movies
      have one. */
  lemma FolderBelowRoot(it: Item, roots: seq<string>)
    requires forall k :: 0 <= k < |roots| ==> |roots[k]| > 0 && roots[k][|roots[k]| - 1] != '/'
    requires FolderOf(it, roots).Some?
    ensures IsMovie(it)
    ensures var f := FolderOf(it, roots).value;
      StartsWith(PathOf(it), f + "/")
      && exists k :: 0 <= k < |roots| && StartsWith(f, roots[k] + "/") && '/' !in f[|roots[k]| + 1..]
  {
    var root, seg, tail := FolderShape(it, roots);
    var f := FolderOf(it, roots).value;
    assert (f + "/" + tail)[..|f| + 1] == f + "/";
    assert (root + "/" + seg)[..|root| + 1] == root + "/";
    assert f[|root| + 1..] == seg;
    var k :| 0 <= k < |roots| && roots[k] == root;
  }

  /** An entry's folder is a root, a separator and one segment; its path continues it. */
  lemma FolderShape(it: Item, roots: seq<string>) returns (root: string, seg: string, tail: string)
    requires forall k :: 0 <= k < |roots| ==> |roots[k]| > 0 && roots[k][|roots[k]| - 1] != '/'
    requires FolderOf(it, roots).Some?
    ensures IsMovie(it) && root in roots && '/' !in seg
    ensures FolderOf(it, roots).value == root + "/" + seg
    ensures PathOf(it) == root + "/" + seg + "/" + tail
  {
    root := FolderOfRoot(it, roots);
    var k :| 0 <= k < |roots| && roots[k] == root;
    seg, tail := SplitBelowRoot(PathOf(it), root);
  }

  /** Unfolds `FolderOf` to the root it found. */
  lemma FolderOfRoot(it: Item, roots: seq<string>) returns (root: string)
    requires FolderOf(it, roots).Some?
    ensures IsMovie(it) && RootOf(roots, PathOf(it)) == Some(root) && root in roots
    ensures StartsWith(PathOf(it), root + "/") && '/' in PathOf(it)[|root| + 1..]
    ensures var rel := PathOf(it)[|root| + 1..];
      FolderOf(it, roots) == Some(Paths.Join(root, rel[..FirstIndex(rel, '/')]))
  {
    root := RootOf(roots, PathOf(it)).value;
  }

  /** A path below a root, with a further separator, is the root, one segment and the rest. */
  lemma SplitBelowRoot(p: string, root: string) returns (seg: string, tail: string)
    requires |root| > 0 && root[|root| - 1] != '/'
    requires StartsWith(p, root + "/") && '/' in p[|root| + 1..]
    ensures var rel := p[|root| + 1..];
      seg == rel[..FirstIndex(rel, '/')] && '/' !in seg
    ensures Paths.Join(root, seg) == root + "/" + seg
    ensures p == root + "/" + seg + "/" + tail
  {
    var rel := p[|root| + 1..];
    PrefixSplit(p, root + "/");
    seg, tail := SplitAtFirst(rel);
    JoinBelow(root, seg);
  }

  lemma JoinBelow(root: string, name: string)
    requires |root| > 0 && root[|root| - 1] != '/'
    ensures Paths.Join(root, name) == root + "/" + name
  {
  }

  lemma PrefixSplit(p: string, pre: string)
    requires StartsWith(p, pre)
    ensures p == pre + p[|pre|..]
  {
  }

  /** A string holding a separator is its first segment, the separator and the rest. */
  lemma SplitAtFirst(rel: string) returns (seg: string, tail: string)
    requires '/' in rel
    ensures seg == rel[..FirstIndex(rel, '/')] && '/' !in seg
    ensures rel == seg + "/" + tail
  {
    var j := FirstIndex(rel, '/');
    seg := rel[..j];
    tail := rel[j + 1..];
    assert rel == rel[..j] + [rel[j]] + rel[j + 1..];
  }

  /** Each entry of the listing tagged with its folder. */
  function Tagged(items: seq<Item>, roots: seq<string>): (r: seq<(Option<string>, int)>)
    ensures |r| == |items| && forall i :: 0 <= i < |r| ==> r[i] == (FolderOf(items[i], roots), items[i].id)
  {
    seq(|items|, i requires 0 <= i < |items| => (FolderOf(items[i], roots), items[i].id))
  }

  lemma TaggedSnoc(items: seq<Item>, roots: seq<string>)
    requires |items| > 0
    ensures Tagged(items, roots) == Tagged(items[..|items| - 1], roots) + [(FolderOf(items[|items| - 1], roots), items[|items| - 1].id)]
  {
  }

  /** Some entry of the listing belongs to folder `k`. */
  predicate InFolder(items: seq<Item>, roots: seq<string>, k: string) {
    var t := Tagged(items, roots);
    exists i :: 0 <= i < |t| && t[i].0 == Some(k)
  }

  lemma FoldersStep(items: seq<Item>, roots: seq<string>)
    requires |items| > 0
    ensures forall k :: InFolder(items, roots, k) <==>
      InFolder(items[..|items| - 1], roots, k) || FolderOf(items[|items| - 1], roots) == Some(k)
  {
    var t := Tagged(items, roots);
    var t0 := Tagged(items[..|items| - 1], roots);
    TaggedSnoc(items, roots);
    forall k ensures InFolder(items, roots, k) <==> InFolder(items[..|items| - 1], roots, k) || t[|t| - 1].0 == Some(k) {
      if InFolder(items, roots, k) && t[|t| - 1].0 != Some(k) {
        var i :| 0 <= i < |t| && t[i].0 == Some(k);
        assert t0[i] == t[i];
      }
      if InFolder(items[..|items| - 1], roots, k) {
        var i :| 0 <= i < |t0| && t0[i].0 == Some(k);
        assert t[i] == t0[i];
      }
    }
  }

  /** The folders of the listing, in listing order (with repeats). */
  function Folders(items: seq<Item>, roots: seq<string>): (r: seq<string>)
    ensures forall k :: k in r <==> InFolder(items, roots, k)
    decreases |items|
  {
    if |items| == 0 then []
    else
      var rest := Folders(items[..|items| - 1], roots);
      var last := items[|items| - 1];
      var f := FolderOf(last, roots);
      FoldersStep(items, roots);
      if f.Some? then rest + [f.value] else rest
  }

  /** Distinct elements in order of first appearance (the insertion order of a `Map`). */
  function FirstSeen(s: seq<string>): (r: seq<string>)
    ensures NoDuplicates(r)
    ensures forall x :: x in r <==> x in s
  {
    if |s| == 0 then []
    else
      var d := FirstSeen(s[..|s| - 1]);
      assert forall x :: x in s <==> x in s[..|s| - 1] || x == s[|s| - 1];
      if s[|s| - 1] in d then d else d + [s[|s| - 1]]
  }

  /** Entry `id` of the listing belongs to folder `k`. */
  predicate MemberIn(items: seq<Item>, roots: seq<string>, k: string, id: int) {
    (Some(k), id) in Tagged(items, roots)
  }

  /** The ids pushed onto a folder's list, in listing order. */
  function MembersOf(items: seq<Item>, roots: seq<string>, k: string): (r: seq<int>)
    ensures forall id :: id in r <==> MemberIn(items, roots, k, id)
    decreases |items|
  {
    if |items| == 0 then []
    else
      var rest := MembersOf(items[..|items| - 1], roots, k);
      var last := items[|items| - 1];
      TaggedSnoc(items, roots);
      if FolderOf(last, roots) == Some(k) then rest + [last.id] else rest
  }

  /** A folder with a member is a folder of the listing. */
  lemma MembersMeanFolder(items: seq<Item>, roots: seq<string>, k: string)
    requires |MembersOf(items, roots, k)| > 0
    ensures k in Folders(items, roots)
  {
    var t := Tagged(items, roots);
    assert MemberIn(items, roots, k, MembersOf(items, roots, k)[0]);
    var i :| 0 <= i < |t| && t[i] == (Some(k), MembersOf(items, roots, k)[0]);
    assert InFolder(items, roots, k);
  }

  predicate NameLe(a: Collection, b: Collection) {
    LexLe(a.name, b.name)
  }

  lemma NameLePreorder()
    ensures TotalPreorder(NameLe)
  {
    LexPreorder();
    ByKeyPreorder((c: Collection) => c.name, LexLe, NameLe);
  }

  function FolderCollection(items: seq<Item>, roots: seq<string>, k: string): (r: Collection)
    ensures r.id == k && r.name == Paths.BaseName(k) && !r.isManual && r.filterType.None?
  {
    Collections.Collection(k, Paths.BaseName(k), MembersOf(items, roots, k), false, None, None)
  }

  /** A folder that gets a collection: two or more movies in it. */
  predicate Shared(items: seq<Item>, roots: seq<string>, k: string) {
    |MembersOf(items, roots, k)| >= 2
  }

  /** The folders that get a collection, in first-seen order. */
  function SharedFolders(items: seq<Item>, roots: seq<string>): (r: seq<string>)
    ensures forall k :: k in r <==> Shared(items, roots, k)
  {
    var fs := FirstSeen(Folders(items, roots));
    var r := Keep(fs, (k: string) => Shared(items, roots, k));
    forall k | Shared(items, roots, k) ensures k in r {
      MembersMeanFolder(items, roots, k);
      var i :| 0 <= i < |fs| && fs[i] == k;
    }
    r
  }

  function FolderCollections(items: seq<Item>, roots: seq<string>): (r: seq<Collection>)
    ensures forall c :: c in r <==> Shared(items, roots, c.id) && c == FolderCollection(items, roots, c.id)
  {
    var keys := SharedFolders(items, roots);
    FolderCollectionsOf(items, roots, keys);
    seq(|keys|, i requires 0 <= i < |keys| => FolderCollection(items, roots, keys[i]))
  }

  lemma FolderCollectionsOf(items: seq<Item>, roots: seq<string>, keys: seq<string>)
    ensures var r := seq(|keys|, i requires 0 <= i < |keys| => FolderCollection(items, roots, keys[i]));
      forall c :: c in r <==> c.id in keys && c == FolderCollection(items, roots, c.id)
  {
    var r := seq(|keys|, i requires 0 <= i < |keys| => FolderCollection(items, roots, keys[i]));
    forall c ensures c in r <==> c.id in keys && c == FolderCollection(items, roots, c.id) {
      if c in r {
        var i :| 0 <= i < |r| && r[i] == c;
        assert keys[i] in keys;
      }
      if c.id in keys && c == FolderCollection(items, roots, c.id) {
        var i :| 0 <= i < |keys| && keys[i] == c.id;
        assert r[i] == c;
      }
    }
  }

  /** The folder collections: every folder with two or more movies, by name. */
  function AutoCollections(items: seq<Item>, roots: seq<string>): (r: seq<Collection>)
    ensures SortedBy(r, NameLe)
    ensures forall c :: c in r <==> Shared(items, roots, c.id) && c == FolderCollection(items, roots, c.id)
    ensures forall i :: 0 <= i < |r| ==> !r[i].isManual
  {
    var cols := FolderCollections(items, roots);
    NameLePreorder();
    SortBySorted(cols, NameLe);
    SortByMembers(cols, NameLe);
    AutoNotManual(SortBy(cols, NameLe), items, roots);
    SortBy(cols, NameLe)
  }

  lemma AutoNotManual(r: seq<Collection>, items: seq<Item>, roots: seq<string>)
    requires forall c :: c in r ==> c == FolderCollection(items, roots, c.id)
    ensures forall i :: 0 <= i < |r| ==> !r[i].isManual
  {
    forall i | 0 <= i < |r| ensures !r[i].isManual {
      assert r[i] in r;
    }
  }

  /** Every movie that sits in a sub-folder shared with another movie is listed in that
      folder's collection; a movie alone in its folder is in none. */
  lemma AutoCollectionsCover(items: seq<Item>, roots: seq<string>, i: nat)
    requires i < |items| && FolderOf(items[i], roots).Some?
    ensures var k := FolderOf(items[i], roots).value;
      |MembersOf(items, roots, k)| >= 2 ==>
        exists c :: c in AutoCollections(items, roots) && c.id == k && items[i].id in c.itemIds
    ensures var k := FolderOf(items[i], roots).value;
      |MembersOf(items, roots, k)| < 2 ==> forall c :: c in AutoCollections(items, roots) ==> c.id != k
  {
    var k := FolderOf(items[i], roots).value;
    assert Tagged(items, roots)[i] == (Some(k), items[i].id);
    assert MemberIn(items, roots, k, items[i].id);
    if Shared(items, roots, k) {
      assert FolderCollection(items, roots, k) in AutoCollections(items, roots);
    }
  }

  // ---------------------------------------------------------------- special collections

  predicate NewerAdded(a: Item, b: Item) {
    LexLe(AddedAt(b), AddedAt(a))
  }

  lemma NewerAddedPreorder()
    ensures TotalPreorder(NewerAdded)
  {
    LexPreorder();
    forall a, b ensures NewerAdded(a, b) || NewerAdded(b, a) {
      assert LexLe(AddedAt(b), AddedAt(a)) || LexLe(AddedAt(a), AddedAt(b));
    }
  }

  const RecentCount := 8

  /** "Recently Added": the listing newest first by time added, the first eight. */
  function RecentlyAdded(items: seq<Item>): (r: seq<Item>)
    ensures |r| == if |items| < RecentCount then |items| else RecentCount
    ensures SortedBy(r, NewerAdded)
    ensures forall it :: it in r ==> it in items
  {
    var sorted := SortBy(items, NewerAdded);
    NewerAddedPreorder();
    SortBySorted(items, NewerAdded);
    var r := if |sorted| <= RecentCount then sorted else sorted[..RecentCount];
    assert forall it :: it in r ==> it in multiset(sorted);
    r
  }

  /** Whatever "Recently Added" leaves out was added no later than anything it shows. */
  lemma RecentlyAddedNewest(items: seq<Item>, x: Item)
    requires x in items && x !in RecentlyAdded(items)
    ensures forall i :: 0 <= i < |RecentlyAdded(items)| ==> LexLe(AddedAt(x), AddedAt(RecentlyAdded(items)[i]))
  {
    var sorted := SortBy(items, NewerAdded);
    NewerAddedPreorder();
    SortBySorted(items, NewerAdded);
    assert x in multiset(sorted);
    var j :| 0 <= j < |sorted| && sorted[j] == x;
    var r := RecentlyAdded(items);
    assert r == sorted[..RecentCount];
    forall i | 0 <= i < |r| ensures LexLe(AddedAt(x), AddedAt(r[i])) {
      assert r[i] == sorted[i];
    }
  }

  /** A file indexed for the first time, at a time later than every stored row's, heads
      "Recently Added": the time added is the insert's `datetime('now')` text, which orders
      as the time it writes. */
  lemma NewlyIndexedFirst(st: Store, record: Row, now: string)
    requires PathOwner(st.items, Col(record, "file_path")).None?
    requires forall i :: 0 <= i < |st.items| ==> !LexLe(now, AddedAt(st.items[i]))
    ensures var r := Upsert(st, record, now);
      |RecentlyAdded(r.0.items)| > 0 && RecentlyAdded(r.0.items)[0] == Item(r.1, NewRow(record, now))
  {
    var r := Upsert(st, record, now);
    var x := Item(r.1, NewRow(record, now));
    assert r.0.items == st.items + [x];
    assert AddedAt(x) == now;
    NewestFirst(st.items, x);
  }

  /** An item added after every other one heads "Recently Added". */
  lemma NewestFirst(items: seq<Item>, x: Item)
    requires forall i :: 0 <= i < |items| ==> !LexLe(AddedAt(x), AddedAt(items[i]))
    ensures |RecentlyAdded(items + [x])| > 0 && RecentlyAdded(items + [x])[0] == x
  {
    var sorted := SortBy(items, NewerAdded);
    SortBySnoc(items, x, NewerAdded);
    if |sorted| > 0 {
      assert sorted[0] in multiset(items);
      var k :| 0 <= k < |items| && items[k] == sorted[0];
    }
    InsertFront(sorted, x, NewerAdded);
  }

  /** "New Releases": movies from last year on. */
  function NewReleases(items: seq<Item>, currentYear: int): (r: seq<Item>)
    ensures forall it :: it in r <==> it in items && IsMovie(it) && YearOf(it).Some? && YearOf(it).value >= currentYear - 1
  {
    Keep(items, (it: Item) => IsMovie(it) && YearOf(it).Some? && YearOf(it).value >= currentYear - 1)
  }

  const RecentId := "__recently-added__"
  const NewId := "__new-releases__"

  /** The special collections: "Recently Added" always, "New Releases" when non-empty. */
  function SpecialCollections(items: seq<Item>, currentYear: int): (r: seq<Collection>)
    ensures 1 <= |r| <= 2 && r[0].id == RecentId && r[0].itemIds == IdsOf(RecentlyAdded(items))
    ensures |r| == 2 <==> |NewReleases(items, currentYear)| > 0
    ensures |r| == 2 ==> r[1].id == NewId && r[1].itemIds == IdsOf(NewReleases(items, currentYear))
    ensures forall i :: 0 <= i < |r| ==> !r[i].isManual && r[i].filterType.None?
  {
    var recent := Collections.Collection(RecentId, "Recently Added", IdsOf(RecentlyAdded(items)), false, None, None);
    var released := NewReleases(items, currentYear);
    if |released| > 0 then [recent, Collections.Collection(NewId, "New Releases", IdsOf(released), false, None, None)]
    else [recent]
  }

  // ---------------------------------------------------------------- manual collections

  predicate CollectionNameLe(a: ManualCollection, b: ManualCollection) {
    LexLe(a.name, b.name)
  }

  lemma CollectionNameLePreorder()
    ensures TotalPreorder(CollectionNameLe)
  {
    LexPreorder();
    ByKeyPreorder((c: ManualCollection) => c.name, LexLe, CollectionNameLe);
  }

  /** The items of one collection in the order the membership table lists them. */
  function ItemIdsOf(rows: seq<(int, int)>, collection: int): (r: seq<int>)
    ensures forall x :: x in r <==> (collection, x) in rows
  {
    var mine := Keep(rows, (m: (int, int)) => m.0 == collection);
    var r := seq(|mine|, i requires 0 <= i < |mine| => mine[i].1);
    assert forall x :: (collection, x) in rows ==> x in r by {
      forall x | (collection, x) in rows ensures x in r {
        var i :| 0 <= i < |mine| && mine[i] == (collection, x);
        assert r[i] == x;
      }
    }
    r
  }

  function AsCollection(c: ManualCollection, rows: seq<(int, int)>): (r: Collection)
    ensures r.id == IntToString(c.id) && r.name == c.name && r.isManual && r.filterType.None?
  {
    Collections.Collection(IntToString(c.id), c.name, ItemIdsOf(rows, c.id), true, None, None)
  }

  /** The stored collections by name (`ORDER BY name`). */
  function ByName(st: Store): (r: seq<ManualCollection>)
    ensures SortedBy(r, CollectionNameLe)
    ensures multiset(r) == multiset(st.collections)
  {
    CollectionNameLePreorder();
    SortBySorted(st.collections, CollectionNameLe);
    SortBy(st.collections, CollectionNameLe)
  }

  /** The stored collections by name, keys as strings, each with its items; `rows` is the
      membership table in scan order. */
  function ManualCollections(st: Store, rows: seq<(int, int)>): (r: seq<Collection>)
    ensures |r| == |st.collections|
    ensures forall i :: 0 <= i < |r| ==> r[i] == AsCollection(ByName(st)[i], rows)
  {
    var sorted := ByName(st);
    seq(|sorted|, i requires 0 <= i < |sorted| => AsCollection(sorted[i], rows))
  }

  /** Each stored collection is listed once per copy, by name, its key reading back with
      `parseInt` and its items those of the membership table. */
  lemma ManualCollectionsSpec(st: Store, rows: seq<(int, int)>, i: nat)
    requires forall m :: m in rows <==> m in st.members
    requires i < |st.collections|
    ensures var r := ManualCollections(st, rows);
      r[i].isManual && ByName(st)[i] in st.collections
      && ParseIntAuto(r[i].id) == Some(ByName(st)[i].id)
      && (forall x :: x in r[i].itemIds <==> (ByName(st)[i].id, x) in st.members)
      && (i + 1 < |r| ==> LexLe(r[i].name, r[i + 1].name))
  {
    var sorted := ByName(st);
    assert sorted[i] in multiset(st.collections);
    IntToStringParses(sorted[i].id);
  }

  lemma IntToStringParses(n: int)
    ensures ParseIntAuto(IntToString(n)) == Some(n)
  {
    if n < 0 {
      NegativeParses(-n);
    } else {
      NatParses(n);
    }
  }

  lemma NatParses(n: nat)
    ensures ParseIntAuto(IntToString(n)) == Some(n)
  {
    assert IntToString(n) == NatToString(n);
    ParseIntAutoOfNatToString(n, "");
    assert NatToString(n) + "" == NatToString(n);
  }

  lemma NegativeParses(m: nat)
    requires m > 0
    ensures ParseIntAuto(IntToString(-(m as int))) == Some(-(m as int))
  {
    NegativeTextParses(m);
    assert IntToString(-(m as int)) == "-" + NatToString(m);
  }

  lemma NegativeTextParses(m: nat)
    requires m > 0
    ensures ParseIntAuto("-" + NatToString(m)) == Some(-(m as int))
  {
    var s := "-" + NatToString(m);
    SignedTextUnmarked(m);
    NegativeDecimalParses(m);
  }

  lemma SignedTextUnmarked(m: nat)
    ensures !HexMarked(AfterSign(TrimStart("-" + NatToString(m))))
  {
    var s := "-" + NatToString(m);
    assert !IsSpace('-');
    assert TrimStart(s) == s;
    assert AfterSign(s) == NatToString(m) + "";
    NatTextUnmarked(m, "");
  }

  lemma NegativeDecimalParses(m: nat)
    requires m > 0
    ensures ParseInt("-" + NatToString(m)) == Some(-(m as int))
  {
    var s := "-" + NatToString(m);
    var d := NatToString(m);
    assert !IsSpace('-');
    assert TrimStart(s) == s;
    assert AfterSign(s) == d;
    DigitPrefixOfDigits(d, "");
    assert d + "" == d;
    DigitsValueOfNatToString(m);
  }

  // ---------------------------------------------------------------- GET /collections

  /** The response: the special collections, then the folder ones, then the stored ones. */
  function CollectionsResponse(st: Store, items: seq<Item>, roots: seq<string>, currentYear: int,
                               rows: seq<(int, int)>): (r: seq<Collection>)
    requires forall m :: m in rows <==> m in st.members
    ensures var special := SpecialCollections(items, currentYear);
      var auto := AutoCollections(items, roots);
      |r| == |special| + |auto| + |st.collections|
      && r[..|special|] == special
      && r[|special|..|special| + |auto|] == auto
      && forall i :: 0 <= i < |r| ==> (r[i].isManual <==> i >= |special| + |auto|)
  {
    var special := SpecialCollections(items, currentYear);
    var auto := AutoCollections(items, roots);
    var manual := ManualCollections(st, rows);
    ConcatFlags(special, auto, manual);
    special + auto + manual
  }

  lemma ConcatFlags(a: seq<Collection>, b: seq<Collection>, c: seq<Collection>)
    requires forall i :: 0 <= i < |a| ==> !a[i].isManual
    requires forall i :: 0 <= i < |b| ==> !b[i].isManual
    requires forall i :: 0 <= i < |c| ==> c[i].isManual
    ensures var r := a + b + c;
      r[..|a|] == a && r[|a|..|a| + |b|] == b
      && forall i :: 0 <= i < |r| ==> (r[i].isManual <==> i >= |a| + |b|)
  {
    var r := a + b + c;
    assert r[..|a|] == a;
    assert r[|a|..|a| + |b|] == b;
    forall i | 0 <= i < |r| ensures r[i].isManual <==> i >= |a| + |b| {
      if i < |a| {
        assert r[i] == a[i];
      } else if i < |a| + |b| {
        assert r[i] == b[i - |a|];
      } else {
        assert r[i] == c[i - |a| - |b|];
      }
    }
  }

  // ---------------------------------------------------------------- collection requests

  /** A usable name: present and not blank once trimmed. */
  predicate NameGiven(name: Option<string>) {
    name.Some? && Trim(name.value) != ""
  }

  /** `POST /collections`: 400 without a usable name; otherwise the trimmed name is stored. */
  function CreateRoute(st: Store, name: Option<string>, now: int): (r: Outcome)
    ensures !NameGiven(name) <==> r == Outcome(400, st)
    ensures NameGiven(name) ==> r.status == 200
    ensures NameGiven(name) ==> r.store.collections == st.collections + [ManualCollection(st.nextCollection, Trim(name.value), now)]
  {
    if !NameGiven(name) then Outcome(400, st)
    else Outcome(200, CreateCollection(st, Trim(name.value), now).0)
  }

  /** `PATCH /collections/:id`: the id is checked first, then the name. */
  function RenameRoute(st: Store, idText: string, name: Option<string>): (r: Outcome)
    ensures ParseIntAuto(idText).None? || !NameGiven(name) <==> r.status == 400
    ensures r.status == 400 ==> r.store == st
    ensures r.status != 400 ==> r == Outcome(200, RenameCollection(st, ParseIntAuto(idText).value, Trim(name.value)))
  {
    var id := ParseIntAuto(idText);
    if id.None? then Outcome(400, st)
    else if !NameGiven(name) then Outcome(400, st)
    else Outcome(200, RenameCollection(st, id.value, Trim(name.value)))
  }

  /** `DELETE /collections/:id`. */
  function DeleteRoute(st: Store, idText: string): (r: Outcome)
    ensures ParseIntAuto(idText).None? <==> r == Outcome(400, st)
    ensures ParseIntAuto(idText).Some? ==> r == Outcome(200, DeleteCollection(st, ParseIntAuto(idText).value))
  {
    var id := ParseIntAuto(idText);
    if id.None? then Outcome(400, st) else Outcome(200, DeleteCollection(st, id.value))
  }

  /** `POST /collections/:id/items`: a bad id is 400; a dangling reference makes the insert
      throw (500). */
  function AddItemRoute(st: Store, idText: string, item: int): (r: Outcome)
    ensures ParseIntAuto(idText).None? ==> r == Outcome(400, st)
    ensures ParseIntAuto(idText).Some? ==>
      var added := AddItemToCollection(st, ParseIntAuto(idText).value, item);
      r == if added.None? then Outcome(500, st) else Outcome(200, added.value)
  {
    var id := ParseIntAuto(idText);
    if id.None? then Outcome(400, st)
    else
      var added := AddItemToCollection(st, id.value, item);
      if added.None? then Outcome(500, st) else Outcome(200, added.value)
  }

  /** `DELETE /collections/:id/items/:itemId`: either id unparsable is 400. */
  function RemoveItemRoute(st: Store, idText: string, itemText: string): (r: Outcome)
    ensures ParseIntAuto(idText).None? || ParseIntAuto(itemText).None? <==> r == Outcome(400, st)
    ensures r.status == 200 ==> r.store == RemoveItemFromCollection(st, ParseIntAuto(idText).value, ParseIntAuto(itemText).value)
  {
    var c := ParseIntAuto(idText);
    var i := ParseIntAuto(itemText);
    if c.None? || i.None? then Outcome(400, st)
    else
      var after := RemoveItemFromCollection(st, c.value, i.value);
      assert after.members == st.members - {(c.value, i.value)};
      Outcome(200, after)
  }

  /** A request with an unparsable collection id changes nothing on any collection
      endpoint, and is answered 400. */
  lemma BadIdTouchesNothing(st: Store, idText: string, name: Option<string>, item: int, itemText: string)
    requires ParseIntAuto(idText).None?
    ensures RenameRoute(st, idText, name) == Outcome(400, st)
    ensures DeleteRoute(st, idText) == Outcome(400, st)
    ensures AddItemRoute(st, idText, item) == Outcome(400, st)
    ensures RemoveItemRoute(st, idText, itemText) == Outcome(400, st)
  {
  }

  /** A created collection reads back under the next key with its trimmed name. */
  lemma CreatedNameTrimmed(st: Store, name: string, now: int)
    requires Trim(name) != ""
    ensures var r := CreateRoute(st, Some(name), now);
      r.status == 200 && HasCollection(r.store, st.nextCollection)
      && r.store.collections[|st.collections|].name == Trim(name)
      && Trim(r.store.collections[|st.collections|].name) == r.store.collections[|st.collections|].name
  {
    var r := CreateRoute(st, Some(name), now);
    assert r.store.collections[|st.collections|].id == st.nextCollection;
    TrimIdempotent(name);
  }
}
