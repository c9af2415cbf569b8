/** The client's saved order of the browse page's collection rows: merging the saved order
    with the current collections, and reading the order back from browser storage. */
module RowOrder {
  import opened Common

  // ---------------------------------------------------------------- mergeRowOrder

  /** `mergeRowOrder`: the saved ids that still exist, in saved order, followed by every
      current id the saved order does not mention, in current order. The `seen` set is taken
      once from the kept saved ids and never grows. */
  function Merge<T(==,!new)>(saved: seq<T>, all: seq<T>): (r: seq<T>)
    ensures forall x :: x in r <==> x in all
  {
    var kept := Keep(saved, (x: T) => x in all);
    var added := Keep(all, (x: T) => x !in kept);
    assert forall x :: x in kept ==> x in all by {
      forall x | x in kept ensures x in all {
        var i :| 0 <= i < |kept| && kept[i] == x;
      }
    }
    assert forall x :: x in added ==> x in all by {
      forall x | x in added ensures x in all {
        var i :| 0 <= i < |added| && added[i] == x;
      }
    }
    assert forall x :: x in all && x !in kept ==> x in added by {
      forall x | x in all && x !in kept ensures x in added {
        var i :| 0 <= i < |all| && all[i] == x;
      }
    }
    kept + added
  }

  /** The merged order opens with the saved ids that still exist, in their saved order. */
  lemma MergeKeepsSaved<T(!new)>(saved: seq<T>, all: seq<T>)
    ensures var kept := Keep(saved, (x: T) => x in all);
      |kept| <= |Merge(saved, all)| && Merge(saved, all)[..|kept|] == kept
  {
    var kept := Keep(saved, (x: T) => x in all);
    var added := Keep(all, (x: T) => x !in kept);
    assert (kept + added)[..|kept|] == kept;
  }

  /** An id the saved order does not mention comes after every surviving saved id. */
  lemma MergeAppendsNew<T(!new)>(saved: seq<T>, all: seq<T>, k: nat)
    requires k < |all| && all[k] !in saved
    ensures var kept := Keep(saved, (x: T) => x in all); var r := Merge(saved, all);
      all[k] in r[|kept|..]
  {
    var kept := Keep(saved, (x: T) => x in all);
    var added := Keep(all, (x: T) => x !in kept);
    forall i | 0 <= i < |kept| ensures kept[i] != all[k] {
      assert kept[i] in saved;
    }
    assert all[k] in added;
    assert Merge(saved, all)[|kept|..] == added;
  }

  /** Merging a merged order with the same ids changes nothing. */
  lemma MergeIdempotent<T(!new)>(saved: seq<T>, all: seq<T>)
    ensures Merge(Merge(saved, all), all) == Merge(saved, all)
  {
    var m := Merge(saved, all);
    var pin := (x: T) => x in all;
    KeepSame(m, pin, (x: T) => true);
    KeepAll(m);
    var kept := Keep(m, pin);
    assert kept == m;
    var pout := (x: T) => x !in kept;
    forall i | 0 <= i < |all| ensures !pout(all[i]) {
      assert all[i] in m;
    }
    KeepNone(all, pout);
  }

  /** Without repeated ids on either side, the merged order is a rearrangement of the current
      ids: each appears exactly once. */
  lemma MergePermutes<T(!new)>(saved: seq<T>, all: seq<T>)
    requires NoDuplicates(saved) && NoDuplicates(all)
    ensures NoDuplicates(Merge(saved, all))
    ensures multiset(Merge(saved, all)) == multiset(all)
  {
    var kept := Keep(saved, (x: T) => x in all);
    var added := Keep(all, (x: T) => x !in kept);
    var r := Merge(saved, all);
    KeepNoDuplicates(saved, (x: T) => x in all);
    KeepNoDuplicates(all, (x: T) => x !in kept);
    assert r == kept + added;
    forall i, j | 0 <= i < j < |r| ensures r[i] != r[j] {
      if i < |kept| && j >= |kept| {
        assert r[j] == added[j - |kept|];
        assert r[j] !in kept;
        assert r[i] == kept[i];
      } else if j < |kept| {
        assert r[i] == kept[i] && r[j] == kept[j];
      } else {
        assert r[i] == added[i - |kept|] && r[j] == added[j - |kept|];
      }
    }
    forall x ensures multiset(r)[x] == multiset(all)[x] {
      NoDuplicatesOnce(r, x);
      NoDuplicatesOnce(all, x);
    }
    assert multiset(r) == multiset(all);
  }

  // ---------------------------------------------------------------- storage

  /** Ids as the JSON strings they are stored as. */
  function Strings(ids: seq<string>): (r: seq<Json>)
    ensures |r| == |ids| && forall i :: 0 <= i < |r| ==> r[i] == JString(ids[i])
  {
    seq(|ids|, i requires 0 <= i < |ids| => JString(ids[i]))
  }

  /** The stored array is in the old `{ kind, id }` format: its first entry is an object with
      a `kind` field. */
  predicate IsLegacy(items: seq<Json>) {
    |items| > 0 && items[0].JObject? && "kind" in items[0].fields
  }

  /** `e.id` for an entry that is not `null`: an object's `id` field; any other value has
      none, and the missing value is written back as `null`. */
  function IdOf(e: Json): Json {
    if e.JObject? && "id" in e.fields then e.fields["id"] else JNull
  }

  /** The result of reading the order: the order kept in memory, and the array written back
      to storage, if any. */
  datatype Loaded = Loaded(order: seq<Json>, written: Option<seq<Json>>)

  /** `load`: the stored array; an old-format array is rewritten as its ids. Anything that
      throws on the way (text that does not parse, a property read on `null`, a failing
      storage write) yields the empty order, as does a stored value that is not an array.
      The stored text is `stored` (`None` when the key is absent); `parse` is `JSON.parse`,
      `None` when it throws; `writeFails` says whether the storage write throws. */
  function Load(stored: Option<string>, parse: string -> Option<Json>, writeFails: bool): (r: Loaded)
    ensures stored.None? ==> r == Loaded([], None)
    ensures stored.Some? && (parse(stored.value).None? || !parse(stored.value).value.JArray?) ==> r == Loaded([], None)
    ensures r.written.Some? ==> r.order == r.written.value && !writeFails
    ensures r.written.Some? ==>
              stored.Some? && parse(stored.value).Some? && parse(stored.value).value.JArray?
              && IsLegacy(parse(stored.value).value.items)
              && |r.order| == |parse(stored.value).value.items|
              && forall i :: 0 <= i < |r.order| ==> r.order[i] == IdOf(parse(stored.value).value.items[i])
    ensures r.written.None? && r.order != [] ==>
      stored.Some? && parse(stored.value) == Some(JArray(r.order)) && !IsLegacy(r.order)
  {
    if stored.None? then Loaded([], None)
    else
      var v := parse(stored.value);
      if v.None? || !v.value.JArray? then Loaded([], None)
      else
        var raw := v.value.items;
        if |raw| > 0 && raw[0].JNull? then Loaded([], None)
        else if IsLegacy(raw) then
          if exists i :: 0 <= i < |raw| && raw[i].JNull? then Loaded([], None)
          else if writeFails then Loaded([], None)
          else
            var migrated := seq(|raw|, i requires 0 <= i < |raw| => IdOf(raw[i]));
            Loaded(migrated, Some(migrated))
        else Loaded(raw, None)
  }

  /** Every entry of an old-format array that carries a string id. */
  predicate StringIds(raw: seq<Json>) {
    forall i :: 0 <= i < |raw| ==> raw[i].JObject? && "id" in raw[i].fields && raw[i].fields["id"].JString?
  }

  /** Migration happens once: an old-format array whose entries carry string ids is
      rewritten as those ids, and reading the rewritten array back returns it unchanged
      without another write. */
  lemma MigrationSettles(stored: string, text: string, parse: string -> Option<Json>)
    requires parse(stored).Some? && parse(stored).value.JArray?
    requires IsLegacy(parse(stored).value.items) && StringIds(parse(stored).value.items)
    requires parse(text) == Some(JArray(Load(Some(stored), parse, false).order))
    ensures Load(Some(stored), parse, false).written.Some?
    ensures Load(Some(text), parse, false) == Load(Some(stored), parse, false).(written := None)
  {
    var raw := parse(stored).value.items;
    assert !raw[0].JNull?;
    assert !exists i :: 0 <= i < |raw| && raw[i].JNull? by {
      forall i | 0 <= i < |raw| ensures !raw[i].JNull? { assert raw[i].JObject?; }
    }
    var m := Load(Some(stored), parse, false).order;
    assert m[0] == raw[0].fields["id"];
  }

  /** `saveOrder`: the order is kept in memory and written to storage as JSON; a failing
      write is ignored and leaves the stored text as it was. Returns the in-memory order
      and the stored text. */
  function SaveOrder(stored: Option<string>, order: seq<string>, stringify: seq<Json> -> string,
                     writeFails: bool): (r: (seq<Json>, Option<string>))
    ensures r.0 == Strings(order)
    ensures writeFails ==> r.1 == stored
    ensures !writeFails ==> r.1 == Some(stringify(Strings(order)))
  {
    (Strings(order), if writeFails then stored else Some(stringify(Strings(order))))
  }

  /** What `saveOrder` stores, `load` reads back, whenever parsing undoes stringifying. */
  lemma SaveLoadRoundTrip(stored: Option<string>, order: seq<string>, stringify: seq<Json> -> string,
                          parse: string -> Option<Json>, writeFails: bool)
    requires parse(stringify(Strings(order))) == Some(JArray(Strings(order)))
    ensures var saved := SaveOrder(stored, order, stringify, false);
      Load(saved.1, parse, writeFails) == Loaded(saved.0, None)
  {
    var s := Strings(order);
    assert |s| > 0 ==> s[0] == JString(order[0]);
  }
}
