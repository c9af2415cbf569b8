/** The direct-play route `GET /stream/:id`: the item lookup, the Range header arithmetic and
    the choice between a full (200), partial (206) and unsatisfiable (416) response. The
    catalog and the disk are parameters: a map from item id to stored file path ("" when the
    item has none) and a map from path to file contents. */
module Streaming {
  import opened Common
  import opened JsText
  import FileUtils

  datatype Header = Header(name: string, value: string)

  datatype Body = NoBody | Bytes(data: seq<bv8>) | ErrorJson(message: string)

  /** What the handler does: reply, or throw because the file stream rejects its options. */
  datatype Outcome = Reply(status: int, headers: seq<Header>, body: Body) | Thrown

  const CacheControl: Header := Header("Cache-Control", "no-cache, no-store")
  const AcceptRanges: Header := Header("Accept-Ranges", "bytes")

  // ------------------------------------------------------------------ range arithmetic

  /** How the Range header was read.
      - `Partial`: the clamped inclusive byte positions.
      - `Unsatisfiable`: the first position lies after the clamped last one.
      - `EndNotANumber`: the second part is present but not numeric. Both bounds then become
        `NaN`, the comparison is false, and the file stream is asked to end at `NaN`. */
  datatype RangeDecision = Partial(first: nat, last: nat) | Unsatisfiable | EndNotANumber

  /** `Math.max(0, parseInt(parts[0], 10) || 0)`: `NaN` and zero both give zero. */
  function RangeStart(part: string): (start: nat)
    ensures ParseInt(part).None? ==> start == 0
    ensures ParseInt(part).Some? ==> start == if ParseInt(part).value > 0 then ParseInt(part).value else 0
  {
    var v := ParseInt(part);
    if v.Some? && v.value > 0 then v.value else 0
  }

  /** The Range header after `replace(/bytes=/, '')` and `split('-')`. */
  function RangeParts(header: string): (parts: seq<string>)
    ensures |parts| >= 1
  {
    Split(ReplaceFirst(header, "bytes=", ""), '-')
  }

  /** The decision for a non-empty Range header and a file of `size` bytes. A second part that
      is missing or empty means "to the end"; any end is clamped to `size - 1`. */
  function DecideRange(header: string, size: nat): (d: RangeDecision)
    ensures d.Partial? ==> d.first <= d.last < size
    ensures d.Partial? ==> d.first == RangeStart(RangeParts(header)[0])
    ensures size == 0 ==> !d.Partial?
    ensures d.EndNotANumber? <==> (|RangeParts(header)| > 1 && RangeParts(header)[1] != ""
                                   && ParseInt(RangeParts(header)[1]).None?)
  {
    var parts := RangeParts(header);
    var start := RangeStart(parts[0]);
    if |parts| > 1 && parts[1] != "" && ParseInt(parts[1]).None? then EndNotANumber
    else
      var given := if |parts| > 1 && parts[1] != "" then ParseInt(parts[1]).value else size - 1;
      var end := if given < size - 1 then given else size - 1;
      if start > end then Unsatisfiable else Partial(start, end)
  }

  /** The end position the code computes when the second part is usable. */
  function ClampedEnd(header: string, size: nat): int
  {
    var parts := RangeParts(header);
    var given := if |parts| > 1 && parts[1] != "" && ParseInt(parts[1]).Some? then ParseInt(parts[1]).value else size - 1;
    if given < size - 1 then given else size - 1
  }

  /** The decision is exactly the comparison of the clamped bounds. */
  lemma DecisionIsComparison(header: string, size: nat)
    requires !DecideRange(header, size).EndNotANumber?
    ensures var start := RangeStart(RangeParts(header)[0]);
      var end := ClampedEnd(header, size);
      end <= size - 1
      && (DecideRange(header, size).Unsatisfiable? <==> start > end)
      && (DecideRange(header, size).Partial? ==> DecideRange(header, size) == Partial(start, end))
  {
  }

  // ------------------------------------------------------------------ the handler

  function ContentRange(first: nat, last: nat, size: nat): string {
    "bytes " + NatToString(first) + "-" + NatToString(last) + "/" + NatToString(size)
  }

  /** Where the item's file is, or why there is none. */
  datatype Lookup = NoItem | NotOnDisk | Found(path: string, content: seq<bv8>)

  /** `parseInt(id)` (no radix), the catalog lookup, the `file_path` test and `fs.existsSync`. */
  function LookupFile(idParam: string, items: map<int, string>, disk: map<string, seq<bv8>>): (l: Lookup)
    ensures var id := ParseIntAuto(idParam);
      (l.NoItem? <==> (id.None? || id.value !in items || items[id.value] == ""))
      && (l.NotOnDisk? <==> (id.Some? && id.value in items && items[id.value] != "" && items[id.value] !in disk))
      && (l.Found? ==> id.Some? && id.value in items && l.path == items[id.value] && l.path in disk && l.content == disk[l.path])
  {
    var id := ParseIntAuto(idParam);
    if id.None? || id.value !in items || items[id.value] == "" then NoItem
    else if items[id.value] !in disk then NotOnDisk
    else Found(items[id.value], disk[items[id.value]])
  }

  /** The route handler. `idParam` is the `:id` path segment, `range` the Range header. */
  function Handle(idParam: string, range: Option<string>, items: map<int, string>, disk: map<string, seq<bv8>>): (o: Outcome)
    ensures o.Reply? && o.status == 404 <==> !LookupFile(idParam, items, disk).Found?
    ensures var l := LookupFile(idParam, items, disk);
      l.Found? && range.Some? && range.value != "" ==> o == ServeRange(l.content, FileUtils.MimeType(l.path), range.value)
    ensures var l := LookupFile(idParam, items, disk);
      l.Found? && (range.None? || range.value == "") ==> o == ServeFull(l.content, FileUtils.MimeType(l.path))
  {
    match LookupFile(idParam, items, disk)
    case NoItem => Reply(404, [], ErrorJson("Not found"))
    case NotOnDisk => Reply(404, [], ErrorJson("File not found on disk"))
    case Found(path, content) =>
      if range.Some? && range.value != "" then ServeRange(content, FileUtils.MimeType(path), range.value)
      else ServeFull(content, FileUtils.MimeType(path))
  }

  /** The full-file reply: every byte, its count, and no caching. */
  function ServeFull(content: seq<bv8>, mime: string): (o: Outcome)
    ensures o.Reply? && o.status == 200 && o.body == Bytes(content)
    ensures o.headers == [Header("Content-Length", NatToString(|content|)), Header("Content-Type", mime), AcceptRanges, CacheControl]
  {
    Reply(200, [Header("Content-Length", NatToString(|content|)), Header("Content-Type", mime), AcceptRanges, CacheControl],
          Bytes(content))
  }

  /** The reply to a non-empty Range header. */
  function ServeRange(content: seq<bv8>, mime: string, header: string): (o: Outcome)
    ensures o.Thrown? <==> DecideRange(header, |content|).EndNotANumber?
    ensures o.Reply? ==> o.status == 206 || o.status == 416
    ensures o.Reply? && o.status == 416 ==> o.body == NoBody
    ensures o.Reply? && o.status == 416 ==> o.headers == [Header("Content-Range", "bytes */" + NatToString(|content|))]
    ensures DecideRange(header, |content|).Partial? ==>
      o == PartialReply(content, mime, DecideRange(header, |content|).first, DecideRange(header, |content|).last)
  {
    match DecideRange(header, |content|)
    case EndNotANumber => Thrown
    case Unsatisfiable => Reply(416, [Header("Content-Range", "bytes */" + NatToString(|content|))], NoBody)
    case Partial(first, last) => PartialReply(content, mime, first, last)
  }

  /** The 206 reply: exactly the bytes `first..last`, their count, and where they lie. */
  function PartialReply(content: seq<bv8>, mime: string, first: nat, last: nat): (o: Outcome)
    requires first <= last < |content|
    ensures o.Reply? && o.status == 206 && |o.headers| == 5 && o.headers[1] == AcceptRanges && o.headers[4] == CacheControl
    ensures o.body == Bytes(content[first..last + 1]) && |o.body.data| == last - first + 1
    ensures o.headers[0] == Header("Content-Range", ContentRange(first, last, |content|))
    ensures o.headers[2] == Header("Content-Length", NatToString(|o.body.data|))
  {
    Reply(206, [Header("Content-Range", ContentRange(first, last, |content|)), AcceptRanges,
                Header("Content-Length", NatToString(last - first + 1)), Header("Content-Type", mime),
                CacheControl],
          Bytes(content[first..last + 1]))
  }

  /** For a stored item whose file is on disk, the route serves that file's bytes: all of them
      with 200 when no Range header is sent, exactly the selected positions with 206 when the
      header selects some, and nothing with 416 when it selects none. */
  lemma HandleServesStoredFile(idParam: string, range: Option<string>, items: map<int, string>,
                               disk: map<string, seq<bv8>>, id: int)
    requires ParseIntAuto(idParam) == Some(id) && id in items && items[id] != "" && items[id] in disk
    ensures var o := Handle(idParam, range, items, disk);
      range.None? || range.value == "" ==> o.Reply? && o.status == 200 && o.body == Bytes(disk[items[id]])
    ensures range.Some? && range.value != "" && DecideRange(range.value, |disk[items[id]]|).Partial? ==>
      var o := Handle(idParam, range, items, disk);
      var d := DecideRange(range.value, |disk[items[id]]|);
      o.Reply? && o.status == 206 && o.body == Bytes(disk[items[id]][d.first..d.last + 1])
    ensures var o := Handle(idParam, range, items, disk);
      range.Some? && range.value != "" && DecideRange(range.value, |disk[items[id]]|).Unsatisfiable? ==>
        o.Reply? && o.status == 416 && o.body == NoBody
  {
  }

  /** An empty Range header is treated as no header at all. */
  lemma EmptyRangeIsFull(idParam: string, items: map<int, string>, disk: map<string, seq<bv8>>)
    ensures Handle(idParam, Some(""), items, disk) == Handle(idParam, None, items, disk)
  {
  }

  // ------------------------------------------------------------------ RFC 9110 comparison

  /** A single byte-range-spec of section 14.1.2 of RFC 9110: an int-range with an optional last
      position, or a suffix range of the last `n` bytes. */
  datatype RangeSpec = IntRange(firstPos: nat, lastPos: Option<nat>) | SuffixRange(length: nat)

  /** Section 14.1.1: an int-range whose last position is before its first is invalid. */
  predicate ValidSpec(spec: RangeSpec) {
    spec.IntRange? && spec.lastPos.Some? ==> spec.firstPos <= spec.lastPos.value
  }

  /** `bytes=<spec>` as a client writes it. */
  function RenderRange(spec: RangeSpec): string {
    match spec
    case IntRange(a, b) => "bytes=" + NatToString(a) + "-" + (if b.Some? then NatToString(b.value) else "")
    case SuffixRange(n) => "bytes=-" + NatToString(n)
  }

  /** The positions the standard selects (section 14.1.2), or unsatisfiable (section 15.5.17). */
  function RfcSelect(spec: RangeSpec, size: nat): (d: RangeDecision)
    requires ValidSpec(spec)
    ensures d.Partial? ==> d.first <= d.last < size
  {
    match spec
    case IntRange(a, b) =>
      if a >= size then Unsatisfiable
      else Partial(a, if b.Some? && b.value < size - 1 then b.value else size - 1)
    case SuffixRange(n) =>
      if n == 0 || size == 0 then Unsatisfiable
      else Partial(if n < size then size - n else 0, size - 1)
  }

  /** The decision once the header is known to have exactly two parts. */
  lemma DecideTwoParts(header: string, size: nat, p0: string, p1: string)
    requires RangeParts(header) == [p0, p1]
    ensures p1 == "" ==> DecideRange(header, size) == (if RangeStart(p0) > size - 1 then Unsatisfiable else Partial(RangeStart(p0), size - 1))
    ensures p1 != "" && ParseInt(p1).Some? ==>
      var end := if ParseInt(p1).value < size - 1 then ParseInt(p1).value else size - 1;
      DecideRange(header, size) == (if RangeStart(p0) > end then Unsatisfiable else Partial(RangeStart(p0), end))
  {
  }

  lemma SplitTwo(x: string, y: string, c: char)
    requires c !in x && c !in y
    ensures Split(x + [c] + y, c) == [x, y]
  {
    SplitJoin([x, y], c);
    assert Join([x, y], [c]) == x + [c] + y;
  }

  /** The parts of `bytes=<a>-<b>`. */
  lemma PartsOfRange(a: string, b: string)
    requires '-' !in a && '-' !in b
    ensures RangeParts("bytes=" + a + "-" + b) == [a, b]
  {
    assert "bytes=" + a + "-" + b == "bytes=" + (a + ['-'] + b);
    ReplaceFirstAtStart("bytes=", a + ['-'] + b);
    SplitTwo(a, b, '-');
  }

  /** The parts of `bytes=-<b>`. */
  lemma PartsOfSuffix(b: string)
    requires '-' !in b
    ensures RangeParts("bytes=-" + b) == ["", b]
  {
    assert "bytes=-" + b == "bytes=" + ("" + ['-'] + b);
    ReplaceFirstAtStart("bytes=", "" + ['-'] + b);
    SplitTwo("", b, '-');
  }

  lemma NoDashInDigits(n: nat)
    ensures '-' !in NatToString(n)
  {
    assert AllDigits(NatToString(n));
  }

  lemma ReadsBack(n: nat)
    ensures ParseInt(NatToString(n)) == Some(n)
    ensures '-' !in NatToString(n) && NatToString(n) != ""
  {
    ParseIntOfNatToString(n, "");
    assert NatToString(n) + "" == NatToString(n);
    NoDashInDigits(n);
  }

  /** For every valid int-range the handler selects what the standard selects: the end is
      clamped to the last byte and a first position past it is unsatisfiable. */
  lemma IntRangeAgrees(a: nat, b: Option<nat>, size: nat)
    requires ValidSpec(IntRange(a, b))
    ensures DecideRange(RenderRange(IntRange(a, b)), size) == RfcSelect(IntRange(a, b), size)
  {
    ReadsBack(a);
    var h := RenderRange(IntRange(a, b));
    if b.Some? {
      ReadsBack(b.value);
      PartsOfRange(NatToString(a), NatToString(b.value));
      DecideTwoParts(h, size, NatToString(a), NatToString(b.value));
    } else {
      PartsOfRange(NatToString(a), "");
      assert "bytes=" + NatToString(a) + "-" + "" == h;
      DecideTwoParts(h, size, NatToString(a), "");
    }
  }

  /** A suffix range is read with an empty, hence zero, first position: the handler serves the
      first `n + 1` bytes where the standard asks for the last `n`. */
  lemma SuffixRangeDeviates(n: nat, size: nat)
    requires 0 < n < size
    ensures DecideRange(RenderRange(SuffixRange(n)), size) == Partial(0, n)
    ensures RfcSelect(SuffixRange(n), size) == Partial(size - n, size - 1)
    ensures DecideRange(RenderRange(SuffixRange(n)), size) != RfcSelect(SuffixRange(n), size)
  {
    ReadsBack(n);
    PartsOfSuffix(NatToString(n));
    assert ParseInt("") == None;
    DecideTwoParts(RenderRange(SuffixRange(n)), size, "", NatToString(n));
  }
}
