/** The client's display preferences: the defaults, a partial update, and how the stored
    copy is read back, including the migration of the old `roundedPosters` flag. The
    settings object is a map from field name to JSON value; local storage and `JSON.parse`
    are parameters. */
module DisplaySettings {
  import opened Common
  import opened JsText

  type Settings = map<string, Json>

  /** The values every field takes when nothing else is known. */
  const Defaults: Settings := map[
    "theme" := JString("dark"),
    "colorScheme" := JString("default"),
    "accentColor" := JString("#e50914"),
    "libraryName" := JString("My Library"),
    "showDirectors" := JBool(true),
    "headingFont" := JString("serif"),
    "titleFont" := JString("sans"),
    "detailFont" := JString("mono"),
    "bodyFont" := JString("sans"),
    "posterCorners" := JString("none"),
    "detailLayout" := JString("poster-header"),
    "rowSpacing" := JString("comfortable"),
    "cardSize" := JString("large"),
    "showYearUnderPoster" := JBool(true),
    "detailBackdropBlur" := JString("none"),
    "detailBackdropTint" := JBool(true),
    "browseStyle" := JString("dvd-case"),
    "cardGap" := JString("comfortable"),
    "cardTextAlign" := JString("center")
  ]

  const Legacy := "roundedPosters"
  const Corners := "posterCorners"

  /** JavaScript truthiness of a JSON value. */
  predicate Truthy(v: Json) {
    match v
    case JNull => false
    case JBool(b) => b
    case JNumber(n) => n != 0
    case JString(s) => s != ""
    case _ => true
  }

  // ---------------------------------------------------------------- update

  /** `update(patch)`: `{ ...prev, ...patch }`. */
  function Update(prev: Settings, patch: Settings): (r: Settings)
    ensures r.Keys == prev.Keys + patch.Keys
    ensures forall k :: k in patch ==> r[k] == patch[k]
    ensures forall k :: k in prev && k !in patch ==> r[k] == prev[k]
  {
    prev + patch
  }

  /** Applying a patch twice is applying it once, and two patches in a row are one patch
      in which the later wins. */
  lemma UpdateLaws(prev: Settings, a: Settings, b: Settings)
    ensures Update(Update(prev, a), a) == Update(prev, a)
    ensures Update(Update(prev, a), b) == Update(prev, Update(a, b))
  {
  }

  // ---------------------------------------------------------------- load

  /** The migration: an object with the old flag and without the new field gets
      `posterCorners` 'small' or 'none' after the flag's truthiness, and loses the flag. */
  function Migrate(fields: Settings): (r: Settings)
    ensures Legacy !in r || Corners in r
    ensures Corners in fields ==> r == fields
    ensures Legacy !in fields ==> r == fields
  {
    if Legacy in fields && Corners !in fields then
      (fields - {Legacy})[Corners := JString(if Truthy(fields[Legacy]) then "small" else "none")]
    else fields
  }

  lemma MigrateIdempotent(fields: Settings)
    ensures Migrate(Migrate(fields)) == Migrate(fields)
  {
  }

  /** What spreading an array into an object adds: its elements under their indices. */
  function Indexed(items: seq<Json>): (r: Settings)
    ensures forall i :: 0 <= i < |items| ==> NatToString(i) in r && r[NatToString(i)] == items[i]
    ensures forall k :: k in r ==> exists i :: 0 <= i < |items| && k == NatToString(i)
  {
    NatToStringInjective();
    map i | 0 <= i < |items| :: NatToString(i) := items[i]
  }

  lemma NatToStringInjective()
    ensures forall m: nat, n: nat :: NatToString(m) == NatToString(n) ==> m == n
  {
    forall m: nat, n: nat | NatToString(m) == NatToString(n) ensures m == n {
      DigitsValueOfNatToString(m);
      DigitsValueOfNatToString(n);
    }
  }

  /** `load`: nothing stored (or an empty string) and text that does not parse give the
      defaults; so does a parsed primitive, on which the `in` test throws. A parsed object
      is migrated and then laid over the defaults; an array lays its indices over them.
      `stored` is the storage entry and `parse` is `JSON.parse` (`None` when it throws). */
  function Load(stored: Option<string>, parse: string -> Option<Json>): (r: Settings)
    ensures Defaults.Keys <= r.Keys
    ensures !Given(stored) ==> r == Defaults
  {
    if !Given(stored) then Defaults
    else
      match parse(stored.value)
      case Some(JObject(fields)) => Defaults + Migrate(fields)
      case Some(JArray(items)) => Defaults + Indexed(items)
      case _ => Defaults
  }

  /** Text that does not parse, or parses to a primitive, gives the defaults. */
  lemma LoadFallsBack(stored: string, parse: string -> Option<Json>)
    requires parse(stored).None? || !(parse(stored).value.JObject? || parse(stored).value.JArray?)
    ensures Load(Some(stored), parse) == Defaults
  {
  }

  /** Stored fields override the defaults and absent fields take the default values. */
  lemma LoadOverrides(stored: string, parse: string -> Option<Json>, fields: Settings)
    requires stored != "" && parse(stored) == Some(JObject(fields))
    requires Legacy !in fields || Corners in fields
    ensures var r := Load(Some(stored), parse);
      r.Keys == Defaults.Keys + fields.Keys
      && (forall k :: k in fields ==> r[k] == fields[k])
      && (forall k :: k in Defaults && k !in fields ==> r[k] == Defaults[k])
  {
  }

  /** The old flag becomes the corner style and is dropped; every other stored field is
      laid over the defaults as before. */
  lemma LoadMigrates(stored: string, parse: string -> Option<Json>, fields: Settings)
    requires stored != "" && parse(stored) == Some(JObject(fields))
    requires Legacy in fields && Corners !in fields
    ensures var r := Load(Some(stored), parse);
      r[Corners] == JString(if Truthy(fields[Legacy]) then "small" else "none")
      && Legacy !in r
      && (forall k :: k in fields && k != Legacy ==> r[k] == fields[k])
  {
    assert Legacy !in Defaults;
  }

  /** Settings written by the service are read back unchanged, provided the JSON text round
      trips: every field the service writes holds all the defaults' keys, and a written
      object never needs the migration. */
  lemma SaveThenLoad(s: Settings, encode: Settings -> string, parse: string -> Option<Json>)
    requires Defaults.Keys <= s.Keys && Corners in s
    requires encode(s) != "" && parse(encode(s)) == Some(JObject(s))
    ensures Load(Some(encode(s)), parse) == s
  {
  }

  /** Every update keeps a loaded value complete: an update never removes a field. */
  lemma UpdateKeepsComplete(stored: Option<string>, parse: string -> Option<Json>, patch: Settings)
    ensures Defaults.Keys <= Update(Load(stored, parse), patch).Keys && Corners in Update(Load(stored, parse), patch)
  {
  }

  // ---------------------------------------------------------------- font classes

  /** `fontToClass`. */
  function FontToClass(font: string): (r: string)
    ensures r in {"font-serif", "font-mono", "font-sans"}
    ensures r == "font-serif" <==> font == "serif"
    ensures r == "font-mono" <==> font == "mono"
  {
    if font == "serif" then "font-serif"
    else if font == "mono" then "font-mono"
    else "font-sans"
  }

  /** The class of one of the four font fields; a value that is not a string reads as sans. */
  function FontClass(s: Settings, field: string): (r: string)
    ensures field in s && s[field].JString? ==> r == FontToClass(s[field].s)
    ensures !(field in s && s[field].JString?) ==> r == "font-sans"
  {
    if field in s && s[field].JString? then FontToClass(s[field].s) else "font-sans"
  }

  /** With the defaults, headings are serif, details monospaced, titles and body sans. */
  lemma DefaultFonts()
    ensures FontClass(Defaults, "headingFont") == "font-serif"
    ensures FontClass(Defaults, "titleFont") == "font-sans"
    ensures FontClass(Defaults, "detailFont") == "font-mono"
    ensures FontClass(Defaults, "bodyFont") == "font-sans"
  {
  }
}
