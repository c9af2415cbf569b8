/** The collection manager panel: drag-reordering of the browse rows, inline rename, delete,
    the per-row captions and the form that adds a filter collection. */
module CollectionManager {
  import opened Common
  import opened JsText
  import opened Collections
  import opened RowOrder

  // ---------------------------------------------------------------- drag and drop

  /** `s` without its `i`-th element (`splice(i, 1)`). */
  function Remove<T>(s: seq<T>, i: nat): (r: seq<T>)
    requires i < |s|
    ensures |r| == |s| - 1
    ensures multiset(r) + multiset{s[i]} == multiset(s)
  {
    assert s == s[..i] + [s[i]] + s[i + 1..];
    s[..i] + s[i + 1..]
  }

  /** The element at `from` taken out and put back in at `to` (`splice(from, 1)` followed by
      `splice(to, 0, moved)`). */
  function Move<T>(s: seq<T>, from: nat, to: nat): (r: seq<T>)
    requires from < |s| && to < |s|
    ensures |r| == |s| && r[to] == s[from]
    ensures multiset(r) == multiset(s)
    ensures Remove(r, to) == Remove(s, from)
  {
    var rest := Remove(s, from);
    var r := rest[..to] + [s[from]] + rest[to..];
    assert r[..to] == rest[..to] && r[to + 1..] == rest[to..];
    assert rest == rest[..to] + rest[to..];
    r
  }

  /** Dragging back undoes a drag. */
  lemma MoveBack<T>(s: seq<T>, from: nat, to: nat)
    requires from < |s| && to < |s|
    ensures Move(Move(s, from, to), to, from) == s
  {
    var rest := Remove(s, from);
    assert rest[..from] == s[..from] && rest[from..] == s[from + 1..];
    assert s == s[..from] + [s[from]] + s[from + 1..];
  }

  /** `onDrop`: the new order to save, or nothing when no drag is in progress or the row is
      dropped where it started. `from` and `to` are positions of rendered rows. */
  function OnDrop<T>(rows: seq<T>, from: Option<nat>, to: nat): (r: Option<seq<T>>)
    requires from.Some? ==> from.value < |rows|
    requires to < |rows|
    ensures r.None? <==> from.None? || from.value == to
    ensures r.Some? ==> |r.value| == |rows| && multiset(r.value) == multiset(rows) && r.value[to] == rows[from.value]
    ensures r.Some? ==> Remove(r.value, to) == Remove(rows, from.value)
  {
    if from.None? || from.value == to then None else Some(Move(rows, from.value, to))
  }

  // ---------------------------------------------------------------- the panel

  /** The panel's view of the two services: the collections and the saved row order. */
  datatype Panel = Panel(service: Service, rawOrder: seq<Json>)

  /** `rows`: the saved order merged with the shown collections' ids. */
  function Rows(p: Panel): (r: seq<Json>)
    ensures forall x :: x in r <==> x in Strings(Ids(p.service.shown))
  {
    Merge(p.rawOrder, Strings(Ids(p.service.shown)))
  }

  /** A merged order that already holds exactly the current ids is left as it is. */
  lemma MergeStable(s: seq<Json>, all: seq<Json>)
    requires forall x :: x in s <==> x in all
    ensures Merge(s, all) == s
  {
    var pin := (x: Json) => x in all;
    KeepSame(s, pin, (x: Json) => true);
    KeepAll(s);
    var pout := (x: Json) => x !in s;
    forall i | 0 <= i < |all| ensures !pout(all[i]) {
      assert all[i] in all;
    }
    KeepNone(all, pout);
  }

  /** `deleteEntry`: the collection is removed, then the rows (already recomputed without
      it) are saved without its id. Returns the panel and the server calls made. */
  function DeleteEntry(p: Panel, id: string): (r: (Panel, seq<ApiCall>))
    ensures r.0.service == RemoveCollection(p.service, id).0 && r.1 == RemoveCollection(p.service, id).1
    ensures JString(id) !in r.0.rawOrder
    ensures forall x :: x in r.0.rawOrder <==> x in Rows(p.(service := r.0.service)) && x != JString(id)
  {
    var (s, calls) := RemoveCollection(p.service, id);
    var rows := Rows(p.(service := s));
    (Panel(s, Keep(rows, (x: Json) => x != JString(id))), calls)
  }

  /** After deleting a collection that was shown under that id only once, the rows are the
      previous rows without it, in the same order. */
  lemma DeleteEntryRows(p: Panel, id: string)
    requires JString(id) !in Strings(Ids(RemoveCollection(p.service, id).0.shown))
    ensures var q := DeleteEntry(p, id).0;
      Rows(q) == q.rawOrder && JString(id) !in Rows(q)
  {
    var q := DeleteEntry(p, id).0;
    var all := Strings(Ids(q.service.shown));
    forall x ensures x in q.rawOrder <==> x in all {
      if x in all { assert x != JString(id); }
    }
    MergeStable(q.rawOrder, all);
  }

  /** The name shown for a row (`getLabel`): the collection's name, or "" when it is gone. */
  function Label(p: Panel, id: string): (r: string)
    ensures HasId(p.service.shown, id) ==> exists c :: c in p.service.shown && c.id == id && r == c.name
    ensures !HasId(p.service.shown, id) ==> r == ""
  {
    var c := Find(p.service.shown, id);
    if c.Some? then c.value.name else ""
  }

  /** `commitEdit`: a trimmed, non-empty label different from the current name renames the
      collection; anything else leaves it. */
  function CommitEdit(p: Panel, id: string, text: string): (r: (Panel, seq<ApiCall>))
    ensures Trim(text) != "" && Trim(text) != Label(p, id) ==>
              r == (p.(service := RenameCollection(p.service, id, Trim(text)).0),
                    RenameCollection(p.service, id, Trim(text)).1)
    ensures Trim(text) == "" || Trim(text) == Label(p, id) ==> r == (p, [])
  {
    var trimmed := Trim(text);
    if trimmed != "" && trimmed != Label(p, id) then
      var (s, calls) := RenameCollection(p.service, id, trimmed);
      (p.(service := s), calls)
    else (p, [])
  }

  /** Committing the unedited label of a collection whose name has no surrounding
      whitespace changes nothing. */
  lemma CommitSameName(p: Panel, id: string)
    requires Trim(Label(p, id)) == Label(p, id)
    ensures CommitEdit(p, id, Label(p, id)) == (p, [])
  {
  }

  // ---------------------------------------------------------------- row captions

  /** A filter type as the client spells it. */
  function FilterName(t: FilterType): string {
    match t
    case GenreFilter => "genre"
    case DirectorFilter => "director"
    case DecadeFilter => "decade"
  }

  /** A template literal's rendering of an optional string: a missing value reads
      "undefined". */
  function Shown(v: Option<string>): string {
    if v.Some? then v.value else "undefined"
  }

  /** `getSubtitle`: "<type>: <value>" for a filter collection, the decade with an "s";
      nothing for any other row. */
  function Subtitle(p: Panel, id: string): (r: Option<string>)
    ensures r.Some? <==> Find(p.service.shown, id).Some? && Find(p.service.shown, id).value.filterType.Some?
    ensures r.Some? ==>
      var c := Find(p.service.shown, id).value;
      StartsWith(r.value, FilterName(c.filterType.value) + ": ")
      && (c.filterType.value == DecadeFilter ==> r.value[|r.value| - 1] == 's')
  {
    var c := Find(p.service.shown, id);
    if c.None? || c.value.filterType.None? then None
    else
      var t := c.value.filterType.value;
      var head := FilterName(t) + ": ";
      var value := Shown(c.value.filterValue) + (if t == DecadeFilter then "s" else "");
      assert (head + value)[..|head|] == head;
      Some(head + value)
  }

  /** `isAuto`: a shown collection that is neither manual nor a filter. */
  predicate IsAuto(p: Panel, id: string) {
    var c := Find(p.service.shown, id);
    c.Some? && !c.value.isManual && c.value.filterType.None?
  }

  /** `getItemCount`: the number of listed items of a collection that is not a filter one. */
  function ItemCount(p: Panel, id: string): (r: Option<nat>)
    ensures r.None? <==> !HasId(p.service.shown, id) || Find(p.service.shown, id).value.filterType.Some?
    ensures r.Some? ==> r.value == |Find(p.service.shown, id).value.itemIds|
  {
    var c := Find(p.service.shown, id);
    if c.None? || c.value.filterType.Some? then None else Some(|c.value.itemIds|)
  }

  /** Every shown row is exactly one of automatic, filter or manual: the captions never
      overlap. */
  lemma RowKinds(p: Panel, id: string)
    requires HasId(p.service.shown, id)
    ensures IsAuto(p, id) ==> Subtitle(p, id).None? && ItemCount(p, id).Some?
    ensures Subtitle(p, id).Some? <==> ItemCount(p, id).None?
  {
  }

  // ---------------------------------------------------------------- add form

  /** The add-filter form: its label, filter type and value text, and whether it is open. */
  datatype Form = Form(name: string, filterType: FilterType, value: string, open: bool)

  /** The form as it starts and as a successful add leaves it. */
  const EmptyForm := Form("", GenreFilter, "", false)

  /** `setAddFilterType`: a new type clears the value. */
  function SetFilterType(f: Form, t: FilterType): (r: Form)
    ensures r.filterType == t && r.value == "" && r.name == f.name && r.open == f.open
  {
    f.(filterType := t, value := "")
  }

  /** `addFilterCollection`: with a non-blank label and value, the collection is added under
      the trimmed texts (with the browser-generated `newId`) and the form is reset; otherwise
      nothing happens. */
  function AddFromForm(p: Panel, f: Form, newId: string): (r: (Panel, Form))
    ensures Trim(f.name) == "" || Trim(f.value) == "" ==> r == (p, f)
    ensures Trim(f.name) != "" && Trim(f.value) != "" ==>
      r.1 == EmptyForm
      && r.0.service == AddFilterCollection(p.service, newId, Trim(f.name), f.filterType, Trim(f.value))
  {
    if Trim(f.name) == "" || Trim(f.value) == "" then (p, f)
    else (p.(service := AddFilterCollection(p.service, newId, Trim(f.name), f.filterType, Trim(f.value))), EmptyForm)
  }

  /** An added filter collection carries no blank name or value, and no surrounding
      whitespace. */
  lemma AddedFilterTrimmed(p: Panel, f: Form, newId: string)
    requires Trim(f.name) != "" && Trim(f.value) != ""
    ensures var c := AddFromForm(p, f, newId).0.service.filters[|p.service.filters|];
      c.name == Trim(c.name) && c.filterValue == Some(Trim(c.filterValue.value)) && c.name != ""
  {
    TrimOfTrimmed(Trim(f.name));
    TrimOfTrimmed(Trim(f.value));
  }
}
