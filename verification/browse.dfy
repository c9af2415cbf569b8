/** The browse page's list logic: reading the show, season and episode back out of an
    episode title, grouping episodes into shows and seasons, and the movie and collection
    rows. */
module Browse {
  import opened Common
  import opened JsText
  import opened FileNames
  import Scanner
  import opened Sorting
  import opened Collections

  // ---------------------------------------------------------------- title extractors

  /** `\s+-\s+[Ss]\d{1,2}[Ee]\d{1,2}` starts at `p`. Neither `-` nor `S` is whitespace, so
      the two whitespace runs must be maximal. */
  predicate SepAt(t: string, p: nat) {
    p <= |t|
    && var a := RunEnd(t, p, IsSpace);
       p < a < |t| && t[a] == '-'
       && var b := RunEnd(t, a + 1, IsSpace);
          a + 1 < b && MarkerAt(t, b)
  }

  /** Where the lazy `^(.+?)` of `extractShowName` stops: the first `p >= 1` at which the
      separator follows, with no line terminator before it. */
  function ShowNameEnd(t: string): (r: Option<nat>)
    ensures r.Some? ==> 1 <= r.value <= |t| && SepAt(t, r.value) && NoLineBreak(t, 0, r.value)
    ensures r.Some? ==> forall p: nat :: 1 <= p < r.value ==> !SepAt(t, p)
    ensures r.None? ==> forall p: nat :: 1 <= p <= |t| && NoLineBreak(t, 0, p) ==> !SepAt(t, p)
  {
    if |t| == 0 || IsLineTerminator(t[0]) then None
    else
      var at := (p: nat) => SepAt(t, p);
      assert forall p: nat :: at(p) == SepAt(t, p);
      Leftmost(t, 1, at, true)
  }

  /** `extractShowName`: the trimmed text before the first ` - SxxEyy`, else the title. */
  function ExtractShowName(t: string): (r: string)
    ensures ShowNameEnd(t).None? ==> r == t
    ensures ShowNameEnd(t).Some? ==> r == Trim(t[..ShowNameEnd(t).value])
  {
    var e := ShowNameEnd(t);
    if e.None? then t else Trim(t[..e.value])
  }

  /** The leftmost `[Ss]\d{1,2}[Ee]\d{1,2}`. */
  function FirstMarker(t: string): (r: Option<nat>)
    ensures r.Some? ==> MarkerAt(t, r.value)
    ensures r.Some? ==> forall k: nat :: k < r.value ==> !MarkerAt(t, k)
    ensures r.None? ==> forall k: nat :: !MarkerAt(t, k)
  {
    var at := (k: nat) => MarkerAt(t, k);
    assert forall k: nat :: at(k) == MarkerAt(t, k);
    Leftmost(t, 0, at, false)
  }

  /** The position of the `E` of a marker at `k`: the season takes two digits when that
      still leaves `E` and a digit after them. */
  function SeasonEnd(t: string, k: nat): (e: nat)
    requires MarkerAt(t, k)
    ensures e == k + 2 || e == k + 3
    ensures e + 2 <= |t| && IsEpisodeMark(t[e]) && IsDigit(t[e + 1])
    ensures forall j :: k + 1 <= j < e ==> IsDigit(t[j])
  {
    if k + 5 <= |t| && IsDigit(t[k + 2]) && IsEpisodeMark(t[k + 3]) && IsDigit(t[k + 4]) then k + 3 else k + 2
  }

  /** `extractSeason`: the season digits of the first marker, 0 when there is none. */
  function ExtractSeason(t: string): (r: nat)
    ensures r < 100
    ensures FirstMarker(t).None? ==> r == 0
  {
    var m := FirstMarker(t);
    if m.None? then 0 else SmallNumber(t, m.value + 1, SeasonEnd(t, m.value))
  }

  /** `extractEpisodeNum`: the (greedy, one or two) episode digits of the first marker. */
  function ExtractEpisodeNum(t: string): (r: nat)
    ensures r < 100
    ensures FirstMarker(t).None? ==> r == 0
  {
    var m := FirstMarker(t);
    if m.None? then 0
    else
      var q := SeasonEnd(t, m.value) + 1;
      SmallNumber(t, q, if q + 1 < |t| && IsDigit(t[q + 1]) then q + 2 else q + 1)
  }

  // ---------------------------------------------------------------- round trip

  /** The characters of a stored episode title around the show name. */
  lemma TitleLayout(show: string, s: nat, e: nat, et: Option<string>)
    requires s < 100 && e < 100
    ensures var t := Scanner.EpisodeTitle(show, s, e, et); var n := |show|;
      |t| >= n + 9 && t[..n] == show
      && t[n] == ' ' && t[n + 1] == '-' && t[n + 2] == ' ' && t[n + 3] == 'S'
      && t[n + 4] == Scanner.Pad(s)[0] && t[n + 5] == Scanner.Pad(s)[1] && t[n + 6] == 'E'
      && t[n + 7] == Scanner.Pad(e)[0] && t[n + 8] == Scanner.Pad(e)[1]
  {
    var t := Scanner.EpisodeTitle(show, s, e, et);
    var head := show + " - S" + Scanner.Pad(s) + "E" + Scanner.Pad(e);
    assert StartsWith(t, head);
    assert t[..|head|] == head;
  }

  /** The stored title shape, as the facts the proofs below use. */
  predicate Layout(t: string, show: string) {
    var n := |show|;
    |t| >= n + 9 && t[..n] == show
    && t[n] == ' ' && t[n + 1] == '-' && t[n + 2] == ' ' && t[n + 3] == 'S'
    && IsDigit(t[n + 4]) && IsDigit(t[n + 5]) && t[n + 6] == 'E' && IsDigit(t[n + 7]) && IsDigit(t[n + 8])
  }

  /** A marker that starts inside the show name lies wholly inside it. */
  lemma MarkerInShow(t: string, show: string, k: nat)
    requires Layout(t, show)
    requires k < |show| && MarkerAt(t, k)
    ensures MarkerAt(show, k)
  {
    var n := |show|;
    assert forall j :: 0 <= j < n ==> t[j] == show[j] by {
      forall j | 0 <= j < n ensures t[j] == show[j] { assert t[..n][j] == t[j]; }
    }
  }

  /** The first marker of a stored title is the one the scanner wrote. */
  lemma FirstMarkerOfTitle(t: string, show: string)
    requires Layout(t, show)
    requires forall k: nat :: !MarkerAt(show, k)
    ensures FirstMarker(t) == Some(|show| + 3)
  {
    var n := |show|;
    assert MarkerAt(t, n + 3);
    forall k: nat | k < n + 3 ensures !MarkerAt(t, k) {
      if k < n {
        if MarkerAt(t, k) { MarkerInShow(t, show, k); }
      }
    }
  }

  /** The separator follows the show name. */
  lemma SepAtShowEnd(t: string, show: string)
    requires Layout(t, show)
    ensures SepAt(t, |show|)
  {
    var n := |show|;
    assert RunEnd(t, n, IsSpace) == n + 1;
    assert RunEnd(t, n + 2, IsSpace) == n + 3;
    assert MarkerAt(t, n + 3);
  }

  /** A separator found earlier is followed only by whitespace up to the show's end. */
  lemma SepBeforeShowEnd(t: string, show: string, p: nat)
    requires Layout(t, show)
    requires forall k: nat :: !MarkerAt(show, k)
    requires 1 <= p <= |show| && SepAt(t, p)
    ensures IsBlank(show[p..])
  {
    var n := |show|;
    var a := RunEnd(t, p, IsSpace);
    var b := RunEnd(t, a + 1, IsSpace);
    if b < n {
      MarkerInShow(t, show, b);
    }
    assert b >= n + 3;
    assert a == n + 1;
    forall j | 0 <= j < |show[p..]| ensures IsSpace(show[p..][j]) {
      assert show[p..][j] == t[..n][p + j] == t[p + j];
    }
  }

  /** The browse extractors read back what the scanner wrote: the show name (trimmed), the
      season and the episode, for any season and episode below 100, any episode title, and
      any non-empty single-line show name that has no marker of its own. */
  lemma EpisodeTitleRoundTrip(show: string, s: nat, e: nat, et: Option<string>)
    requires s < 100 && e < 100
    requires |show| > 0 && NoLineBreak(show, 0, |show|)
    requires forall k: nat :: !MarkerAt(show, k)
    ensures var t := Scanner.EpisodeTitle(show, s, e, et);
      ExtractShowName(t) == Trim(show) && ExtractSeason(t) == s && ExtractEpisodeNum(t) == e
  {
    var t := Scanner.EpisodeTitle(show, s, e, et);
    var n := |show|;
    TitleLayout(show, s, e, et);
    Scanner.PadValue(s);
    Scanner.PadValue(e);
    assert Layout(t, show);
    ShowNameRoundTrip(t, show);
    FirstMarkerOfTitle(t, show);
    NumbersOfLayout(t, show);
  }

  /** With the scanner's marker first, the two-digit season and episode are read back. */
  lemma NumbersOfLayout(t: string, show: string)
    requires Layout(t, show) && FirstMarker(t) == Some(|show| + 3)
    ensures var n := |show|;
      ExtractSeason(t) == DigitValue(t[n + 4]) * 10 + DigitValue(t[n + 5])
      && ExtractEpisodeNum(t) == DigitValue(t[n + 7]) * 10 + DigitValue(t[n + 8])
  {
    assert SeasonEnd(t, |show| + 3) == |show| + 6;
  }

  lemma ShowNameRoundTrip(t: string, show: string)
    requires Layout(t, show)
    requires |show| > 0 && NoLineBreak(show, 0, |show|)
    requires forall k: nat :: !MarkerAt(show, k)
    ensures ExtractShowName(t) == Trim(show)
  {
    SepAtShowEnd(t, show);
    LayoutNoLineBreak(t, show);
    var p := ShowNameEnd(t).value;
    SepBeforeShowEnd(t, show, p);
    ShowNameTail(t, show, p);
  }

  lemma LayoutNoLineBreak(t: string, show: string)
    requires Layout(t, show) && NoLineBreak(show, 0, |show|)
    ensures NoLineBreak(t, 0, |show|)
  {
    var n := |show|;
    forall j | 0 <= j < n ensures !IsLineTerminator(t[j]) { assert t[..n][j] == t[j]; }
  }

  lemma ShowNameTail(t: string, show: string, p: nat)
    requires Layout(t, show) && p <= |show| && IsBlank(show[p..])
    ensures Trim(t[..p]) == Trim(show)
  {
    var n := |show|;
    assert t[..p] == t[..n][..p] == show[..p];
    assert show == show[..p] + show[p..];
    TrimBlankTail(show[..p], show[p..]);
  }

  // ---------------------------------------------------------------- show groups

  /** The key an episode is grouped under: its sort title, else its show name lower-cased. */
  function ShowKey(ep: MediaItem): string {
    if ep.sortTitle.Some? then ep.sortTitle.value else ToLower(ExtractShowName(ep.title))
  }

  datatype ShowGroup = ShowGroup(sortTitle: string, name: string, posterUrl: Option<string>,
                                 episodes: seq<MediaItem>, seasonCount: nat)

  /** The episodes of `eps` grouped under `key`, in order. */
  function WithKey(eps: seq<MediaItem>, key: string): seq<MediaItem> {
    Keep(eps, (e: MediaItem) => ShowKey(e) == key)
  }

  /** The position of the group with that key. */
  function GroupIndex(gs: seq<ShowGroup>, key: string): (r: Option<nat>)
    ensures r.Some? ==> r.value < |gs| && gs[r.value].sortTitle == key
    ensures r.None? ==> forall i :: 0 <= i < |gs| ==> gs[i].sortTitle != key
  {
    if |gs| == 0 then None
    else if gs[|gs| - 1].sortTitle == key then Some(|gs| - 1)
    else GroupIndex(gs[..|gs| - 1], key)
  }

  /** One turn of the grouping loop: the episode joins the group of its key, or opens a new
      group named after it, with its poster. */
  function AddEpisode(gs: seq<ShowGroup>, ep: MediaItem): seq<ShowGroup> {
    var key := ShowKey(ep);
    var i := GroupIndex(gs, key);
    if i.Some? then gs[i.value := gs[i.value].(episodes := gs[i.value].episodes + [ep])]
    else gs + [ShowGroup(key, ExtractShowName(ep.title), ep.posterUrl, [ep], 0)]
  }

  /** The grouping loop of `showGroups` over the episodes, in `Map` insertion order. */
  function GroupEpisodes(eps: seq<MediaItem>): seq<ShowGroup> {
    if |eps| == 0 then [] else AddEpisode(GroupEpisodes(eps[..|eps| - 1]), eps[|eps| - 1])
  }

  /** What a group holds: every episode with its key, in order, and the name and poster of
      the first of them. */
  predicate GroupOf(eps: seq<MediaItem>, g: ShowGroup) {
    g.episodes == WithKey(eps, g.sortTitle) && |g.episodes| > 0
    && g.name == ExtractShowName(g.episodes[0].title) && g.posterUrl == g.episodes[0].posterUrl
  }

  predicate DistinctKeys(gs: seq<ShowGroup>) {
    forall i, j :: 0 <= i < j < |gs| ==> gs[i].sortTitle != gs[j].sortTitle
  }

  lemma WithKeySnoc(eps: seq<MediaItem>, e: MediaItem, key: string)
    ensures WithKey(eps + [e], key) == WithKey(eps, key) + (if ShowKey(e) == key then [e] else [])
  {
    var p := (x: MediaItem) => ShowKey(x) == key;
    KeepAppend(eps, [e], p);
    assert Keep([e], p) == (if p(e) then [e] + Keep([], p) else Keep([], p));
  }

  /** Every episode's key has its group. */
  predicate Covers(eps: seq<MediaItem>, gs: seq<ShowGroup>) {
    forall k :: 0 <= k < |eps| ==> GroupIndex(gs, ShowKey(eps[k])).Some?
  }

  predicate AllGroupsOf(eps: seq<MediaItem>, gs: seq<ShowGroup>) {
    forall i :: 0 <= i < |gs| ==> GroupOf(eps, gs[i])
  }

  /** Grouping yields one group per key, holding exactly that key's episodes, and every
      episode's key has its group. */
  lemma {:induction false} GroupEpisodesSpec(eps: seq<MediaItem>)
    ensures var gs := GroupEpisodes(eps);
      DistinctKeys(gs) && AllGroupsOf(eps, gs) && Covers(eps, gs)
    decreases |eps|
  {
    if |eps| > 0 {
      var pre := eps[..|eps| - 1];
      var e := eps[|eps| - 1];
      assert eps == pre + [e];
      GroupEpisodesSpec(pre);
      var gs := GroupEpisodes(pre);
      AddDistinct(gs, e);
      AddGroupsOf(pre, gs, e);
      AddCovers(pre, gs, e);
    }
  }

  lemma AddDistinct(gs: seq<ShowGroup>, e: MediaItem)
    requires DistinctKeys(gs)
    ensures DistinctKeys(AddEpisode(gs, e))
  {
    var r := AddEpisode(gs, e);
    assert forall i :: 0 <= i < |gs| ==> r[i].sortTitle == gs[i].sortTitle;
  }

  lemma AddCovers(pre: seq<MediaItem>, gs: seq<ShowGroup>, e: MediaItem)
    requires Covers(pre, gs)
    ensures Covers(pre + [e], AddEpisode(gs, e))
  {
    var r := AddEpisode(gs, e);
    var eps := pre + [e];
    assert forall i :: 0 <= i < |gs| ==> r[i].sortTitle == gs[i].sortTitle;
    forall k | 0 <= k < |eps| ensures GroupIndex(r, ShowKey(eps[k])).Some? {
      var j := if k < |pre| then GroupIndex(gs, ShowKey(pre[k])).value
               else if GroupIndex(gs, ShowKey(e)).Some? then GroupIndex(gs, ShowKey(e)).value
               else |gs|;
      assert r[j].sortTitle == ShowKey(eps[k]);
    }
  }

  lemma AddGroupsOf(pre: seq<MediaItem>, gs: seq<ShowGroup>, e: MediaItem)
    requires DistinctKeys(gs) && AllGroupsOf(pre, gs) && Covers(pre, gs)
    ensures AllGroupsOf(pre + [e], AddEpisode(gs, e))
  {
    forall i | 0 <= i < |AddEpisode(gs, e)| ensures GroupOf(pre + [e], AddEpisode(gs, e)[i]) {
      AddGroupOfAt(pre, gs, e, i);
    }
  }

  lemma AddGroupOfAt(pre: seq<MediaItem>, gs: seq<ShowGroup>, e: MediaItem, i: nat)
    requires DistinctKeys(gs) && AllGroupsOf(pre, gs) && Covers(pre, gs)
    requires i < |AddEpisode(gs, e)|
    ensures GroupOf(pre + [e], AddEpisode(gs, e)[i])
  {
    var key := ShowKey(e);
    if i == |gs| {
      NoEpisodesWithoutGroup(pre, gs, key);
      WithKeySnoc(pre, e, key);
    } else if GroupIndex(gs, key) == Some(i) {
      JoinedGroup(pre, gs[i], e);
    } else {
      OtherGroup(pre, gs, e, i);
    }
  }

  lemma JoinedGroup(pre: seq<MediaItem>, g: ShowGroup, e: MediaItem)
    requires GroupOf(pre, g) && ShowKey(e) == g.sortTitle
    ensures GroupOf(pre + [e], g.(episodes := g.episodes + [e]))
  {
    WithKeySnoc(pre, e, g.sortTitle);
  }

  lemma OtherGroup(pre: seq<MediaItem>, gs: seq<ShowGroup>, e: MediaItem, i: nat)
    requires DistinctKeys(gs) && i < |gs| && GroupOf(pre, gs[i])
    requires GroupIndex(gs, ShowKey(e)) != Some(i)
    ensures AddEpisode(gs, e)[i] == gs[i]
    ensures GroupOf(pre + [e], gs[i])
  {
    WithKeySnoc(pre, e, gs[i].sortTitle);
  }

  lemma NoEpisodesWithoutGroup(pre: seq<MediaItem>, gs: seq<ShowGroup>, key: string)
    requires Covers(pre, gs) && GroupIndex(gs, key).None?
    ensures WithKey(pre, key) == []
  {
    var p := (x: MediaItem) => ShowKey(x) == key;
    forall k | 0 <= k < |pre| ensures !p(pre[k]) {
      assert GroupIndex(gs, ShowKey(pre[k])).Some?;
    }
    KeepNone(pre, p);
  }

  /** The distinct seasons of some episodes. */
  function Seasons(eps: seq<MediaItem>): set<nat> {
    set e | e in eps :: ExtractSeason(e.title)
  }

  function WithSeasonCounts(gs: seq<ShowGroup>): (r: seq<ShowGroup>)
    ensures |r| == |gs|
    ensures forall i :: 0 <= i < |r| ==> r[i] == gs[i].(seasonCount := |Seasons(gs[i].episodes)|)
  {
    seq(|gs|, i requires 0 <= i < |gs| => gs[i].(seasonCount := |Seasons(gs[i].episodes)|))
  }

  /** A group precedes another when its key is not greater (`localeCompare` stands as
      code-point order). */
  predicate KeyLe(a: ShowGroup, b: ShowGroup) { LexLe(a.sortTitle, b.sortTitle) }

  function Episodes(items: seq<MediaItem>): seq<MediaItem> {
    Keep(items, (i: MediaItem) => i.kind == EpisodeItem)
  }

  predicate NameMatches(g: ShowGroup, q: string) { q == "" || Includes(ToLower(g.name), q) }

  /** `showGroups`: the episode groups, with their season counts, whose name contains the
      search text (ignoring case), ordered by key. */
  function ShowGroups(items: seq<MediaItem>, search: string): (r: seq<ShowGroup>)
    ensures SortedBy(r, KeyLe)
    ensures forall i :: 0 <= i < |r| ==> NameMatches(r[i], ToLower(search))
  {
    var q := ToLower(search);
    var gs := WithSeasonCounts(GroupEpisodes(Episodes(items)));
    var shown := Keep(gs, (g: ShowGroup) => NameMatches(g, q));
    KeySorted(shown);
    var r := SortBy(shown, KeyLe);
    assert forall i :: 0 <= i < |r| ==> r[i] in multiset(shown);
    r
  }

  lemma KeySorted(gs: seq<ShowGroup>)
    ensures SortedBy(SortBy(gs, KeyLe), KeyLe)
  {
    LexPreorder();
    ByKeyPreorder((g: ShowGroup) => g.sortTitle, LexLe, KeyLe);
    SortBySorted(gs, KeyLe);
  }

  /** The shown groups are exactly the counted groups whose name matches the search. */
  lemma ShowGroupsMembers(items: seq<MediaItem>, search: string, g: ShowGroup)
    ensures g in ShowGroups(items, search)
        <==> g in WithSeasonCounts(GroupEpisodes(Episodes(items))) && NameMatches(g, ToLower(search))
  {
    var q := ToLower(search);
    var gs := WithSeasonCounts(GroupEpisodes(Episodes(items)));
    var shown := Keep(gs, (g: ShowGroup) => NameMatches(g, q));
    assert multiset(ShowGroups(items, search)) == multiset(shown);
    assert g in ShowGroups(items, search) <==> g in multiset(shown);
    if g in gs && NameMatches(g, q) {
      var j :| 0 <= j < |gs| && gs[j] == g;
    }
  }

  /** Every shown group holds exactly the episodes of its key and counts their distinct
      seasons, and no two different groups share a key. */
  lemma ShowGroupsSpec(items: seq<MediaItem>, search: string)
    ensures var r := ShowGroups(items, search); var eps := Episodes(items);
      (forall i :: 0 <= i < |r| ==>
         GroupOf(eps, r[i].(seasonCount := 0)) && r[i].seasonCount == |Seasons(r[i].episodes)|)
      && KeysIdentify(r)
  {
    var eps := Episodes(items);
    var g0 := GroupEpisodes(eps);
    var gs := WithSeasonCounts(g0);
    var r := ShowGroups(items, search);
    GroupEpisodesSpec(eps);
    GroupsStartUncounted(eps);
    forall i | 0 <= i < |r| ensures r[i] in gs {
      ShowGroupsMembers(items, search, r[i]);
    }
    forall i | 0 <= i < |r|
      ensures GroupOf(eps, r[i].(seasonCount := 0)) && r[i].seasonCount == |Seasons(r[i].episodes)|
    {
      var j :| 0 <= j < |gs| && gs[j] == r[i];
      assert GroupOf(eps, g0[j]) && g0[j] == r[i].(seasonCount := 0);
    }
    ShownKeysIdentify(g0, gs, r);
  }

  lemma {:induction false} GroupsStartUncounted(eps: seq<MediaItem>)
    ensures forall i :: 0 <= i < |GroupEpisodes(eps)| ==> GroupEpisodes(eps)[i].seasonCount == 0
    decreases |eps|
  {
    if |eps| > 0 {
      GroupsStartUncounted(eps[..|eps| - 1]);
    }
  }

  /** No two different groups share a key. */
  predicate KeysIdentify(gs: seq<ShowGroup>) {
    forall i, j :: 0 <= i < |gs| && 0 <= j < |gs| && gs[i].sortTitle == gs[j].sortTitle ==> gs[i] == gs[j]
  }

  lemma ShownKeysIdentify(g0: seq<ShowGroup>, gs: seq<ShowGroup>, r: seq<ShowGroup>)
    requires DistinctKeys(g0) && gs == WithSeasonCounts(g0)
    requires forall i :: 0 <= i < |r| ==> r[i] in gs
    ensures KeysIdentify(r)
  {
    forall i, j | 0 <= i < |r| && 0 <= j < |r| && r[i].sortTitle == r[j].sortTitle
      ensures r[i] == r[j]
    {
      var a :| 0 <= a < |gs| && gs[a] == r[i];
      var b :| 0 <= b < |gs| && gs[b] == r[j];
      assert g0[a].sortTitle == g0[b].sortTitle;
    }
  }

  // ---------------------------------------------------------------- seasons

  type SeasonMap = map<nat, seq<MediaItem>>

  /** The episodes of `eps` in season `n`, in order. */
  function InSeason(eps: seq<MediaItem>, n: nat): seq<MediaItem> {
    Keep(eps, (e: MediaItem) => ExtractSeason(e.title) == n)
  }

  /** One turn of the `seasonGroups` loop: the episode is appended to its season's list. */
  function AddToSeason(m: SeasonMap, ep: MediaItem): SeasonMap {
    var n := ExtractSeason(ep.title);
    m[n := (if n in m then m[n] else []) + [ep]]
  }

  function Bucket(eps: seq<MediaItem>): SeasonMap {
    if |eps| == 0 then map[] else AddToSeason(Bucket(eps[..|eps| - 1]), eps[|eps| - 1])
  }

  /** `seasonGroups`: the selected show's episodes by season; nothing without a show. */
  function SeasonGroups(selected: Option<ShowGroup>): SeasonMap {
    if selected.None? then map[] else Bucket(selected.value.episodes)
  }

  lemma SeasonsSnoc(eps: seq<MediaItem>, e: MediaItem)
    ensures Seasons(eps + [e]) == Seasons(eps) + {ExtractSeason(e.title)}
  {
    forall n | n in Seasons(eps + [e]) ensures n in Seasons(eps) + {ExtractSeason(e.title)} {
      var x :| x in eps + [e] && ExtractSeason(x.title) == n;
      if x != e { assert x in eps; }
    }
    forall n | n in Seasons(eps) ensures n in Seasons(eps + [e]) {
      var x :| x in eps && ExtractSeason(x.title) == n;
      assert x in eps + [e];
    }
    assert e in eps + [e];
  }

  lemma InSeasonSnoc(eps: seq<MediaItem>, e: MediaItem, n: nat)
    ensures InSeason(eps + [e], n) == InSeason(eps, n) + (if ExtractSeason(e.title) == n then [e] else [])
  {
    var p := (x: MediaItem) => ExtractSeason(x.title) == n;
    KeepAppend(eps, [e], p);
    assert Keep([e], p) == (if p(e) then [e] + Keep([], p) else Keep([], p));
  }

  lemma InSeasonNone(eps: seq<MediaItem>, n: nat)
    requires n !in Seasons(eps)
    ensures InSeason(eps, n) == []
  {
    var p := (x: MediaItem) => ExtractSeason(x.title) == n;
    forall k | 0 <= k < |eps| ensures !p(eps[k]) {
      assert eps[k] in eps;
    }
    KeepNone(eps, p);
  }

  /** Bucketing keys the map by exactly the seasons present, each holding that season's
      episodes in order. */
  lemma {:induction false} BucketSpec(eps: seq<MediaItem>)
    ensures Bucket(eps).Keys == Seasons(eps)
    ensures forall n :: n in Bucket(eps) ==> Bucket(eps)[n] == InSeason(eps, n)
    decreases |eps|
  {
    if |eps| == 0 {
      assert Seasons(eps) == {};
    } else {
      var pre := eps[..|eps| - 1];
      var e := eps[|eps| - 1];
      assert eps == pre + [e];
      BucketSpec(pre);
      SeasonsSnoc(pre, e);
      forall n | n in Bucket(eps) ensures Bucket(eps)[n] == InSeason(eps, n) {
        InSeasonSnoc(pre, e, n);
        if n !in Bucket(pre) {
          InSeasonNone(pre, n);
        }
      }
    }
  }

  /** Episode order within a season. */
  predicate EpisodeLe(a: MediaItem, b: MediaItem) {
    ExtractEpisodeNum(a.title) <= ExtractEpisodeNum(b.title)
  }

  /** `seasonEpisodes`: the selected season's episodes ordered by episode number; nothing
      when no season is selected or the season has no episodes. */
  function SeasonEpisodes(groups: SeasonMap, season: Option<nat>): (r: seq<MediaItem>)
    ensures season.None? ==> r == []
    ensures season.Some? && season.value in groups ==> multiset(r) == multiset(groups[season.value])
    ensures season.Some? && season.value !in groups ==> r == []
    ensures SortedBy(r, EpisodeLe)
  {
    if season.None? then []
    else
      var eps := if season.value in groups then groups[season.value] else [];
      assert TotalPreorder(EpisodeLe);
      SortBySorted(eps, EpisodeLe);
      SortBy(eps, EpisodeLe)
  }

  /** The selected season of the selected show lists exactly that season's episodes. */
  lemma SeasonEpisodesOfShow(show: ShowGroup, n: nat)
    ensures multiset(SeasonEpisodes(SeasonGroups(Some(show)), Some(n))) == multiset(InSeason(show.episodes, n))
  {
    BucketSpec(show.episodes);
    if n !in Bucket(show.episodes) {
      InSeasonNone(show.episodes, n);
    }
  }

  predicate IsMin(s: set<nat>, m: nat) {
    m in s && forall y :: y in s ==> m <= y
  }

  /** Some least element of a non-empty set of naturals exists. */
  lemma {:induction false} MinExists(s: set<nat>)
    requires s != {}
    ensures exists m :: IsMin(s, m)
    decreases |s|
  {
    var x :| x in s;
    var rest := s - {x};
    assert |rest| == |s| - 1;
    if rest != {} {
      MinExists(rest);
      var m :| IsMin(rest, m);
      MinOfTwo(s, x, m);
    } else {
      forall y | y in s ensures x <= y {
        assert y !in rest;
      }
      assert IsMin(s, x);
    }
  }

  lemma MinOfTwo(s: set<nat>, x: nat, m: nat)
    requires x in s && IsMin(s - {x}, m)
    ensures IsMin(s, if x < m then x else m)
  {
    forall y | y in s ensures (if x < m then x else m) <= y {
      if y != x { assert y in s - {x}; }
    }
  }

  /** The least element of a non-empty set of naturals. */
  function Min(s: set<nat>): (m: nat)
    requires s != {}
    ensures m in s && forall y :: y in s ==> m <= y
  {
    MinExists(s);
    var m :| IsMin(s, m);
    m
  }

  /** The elements of a set of naturals in ascending order. */
  function Ascending(s: set<nat>): (r: seq<nat>)
    ensures forall x :: x in r <==> x in s
    ensures forall i, j :: 0 <= i < j < |r| ==> r[i] < r[j]
    decreases |s|
  {
    if s == {} then []
    else
      var m := Min(s);
      var rest := Ascending(s - {m});
      assert forall i :: 0 <= i < |rest| ==> m < rest[i] by {
        forall i | 0 <= i < |rest| ensures m < rest[i] {
          assert rest[i] in s - {m};
        }
      }
      [m] + rest
  }

  /** `seasonNumbers`: the keys of the season map, ascending. */
  function SeasonNumbers(groups: SeasonMap): (r: seq<nat>)
    ensures forall n :: n in r <==> n in groups
    ensures forall i, j :: 0 <= i < j < |r| ==> r[i] < r[j]
  {
    Ascending(groups.Keys)
  }

  /** The season list of the selected show is its distinct seasons, each once, ascending,
      and there are as many as the group's season count. */
  lemma SeasonNumbersOfShow(items: seq<MediaItem>, search: string, show: ShowGroup)
    requires show in ShowGroups(items, search)
    ensures var r := SeasonNumbers(SeasonGroups(Some(show)));
      (forall n :: n in r <==> n in Seasons(show.episodes)) && |r| == show.seasonCount
  {
    BucketSpec(show.episodes);
    var r := SeasonNumbers(SeasonGroups(Some(show)));
    var i :| 0 <= i < |ShowGroups(items, search)| && ShowGroups(items, search)[i] == show;
    ShowGroupsSpec(items, search);
    DistinctLength(r, Seasons(show.episodes));
  }

  lemma {:induction false} DistinctLength(r: seq<nat>, s: set<nat>)
    requires forall n :: n in r <==> n in s
    requires forall i, j :: 0 <= i < j < |r| ==> r[i] < r[j]
    ensures |r| == |s|
    decreases |r|
  {
    if |r| > 0 {
      var rest := r[1..];
      assert r[0] !in rest by {
        forall i | 0 <= i < |rest| ensures rest[i] != r[0] {
          assert rest[i] == r[i + 1];
        }
      }
      forall n ensures n in rest <==> n in s - {r[0]} {
        if n in s - {r[0]} {
          assert n in r;
          var k :| 0 <= k < |r| && r[k] == n;
          assert rest[k - 1] == n;
        }
      }
      DistinctLength(rest, s - {r[0]});
    } else {
      assert forall n :: n !in s;
      assert s == {};
    }
  }

  /** `seasonPoster`: the season's fetched poster when it has one, else the show's. */
  function SeasonPoster(posters: map<nat, Option<string>>, season: nat, selected: Option<ShowGroup>): (r: Option<string>)
    ensures season in posters && Present(posters[season]) ==> r == posters[season]
    ensures !(season in posters && Present(posters[season])) ==>
              r == (if selected.Some? then selected.value.posterUrl else None)
  {
    var fetched := if season in posters then posters[season] else None;
    if Present(fetched) then fetched
    else if selected.Some? then selected.value.posterUrl
    else None
  }

  // ---------------------------------------------------------------- rows

  predicate MovieMatches(i: MediaItem, q: string) {
    i.kind == MovieItem && (q == "" || Includes(ToLower(i.title), q))
  }

  /** `filteredMovies`: the movies whose title contains the search text, ignoring case, in
      library order. */
  function FilteredMovies(items: seq<MediaItem>, search: string): (r: seq<MediaItem>)
    ensures forall k :: 0 <= k < |r| ==> r[k] in items && MovieMatches(r[k], ToLower(search))
    ensures forall k :: 0 <= k < |items| && MovieMatches(items[k], ToLower(search)) ==> items[k] in r
  {
    var q := ToLower(search);
    Keep(items, (i: MediaItem) => MovieMatches(i, q))
  }

  /** An empty search keeps every movie. */
  lemma FilteredMoviesEmptySearch(items: seq<MediaItem>)
    ensures FilteredMovies(items, "") == Keep(items, (i: MediaItem) => i.kind == MovieItem)
  {
    assert ToLower("") == "";
    KeepSame(items, (i: MediaItem) => MovieMatches(i, ""), (i: MediaItem) => i.kind == MovieItem);
  }

  /** `rowItems`: a filter collection shows the searched movies that match its filter; a
      manual one shows the library items it lists, whatever the search, in library order. */
  function RowItems(col: Collection, items: seq<MediaItem>, search: string): (r: seq<MediaItem>)
    requires FilterReady(col)
    ensures col.filterType.Some? ==>
      (forall k :: 0 <= k < |r| ==> r[k] in items && MovieMatches(r[k], ToLower(search)) && MatchesFilter(r[k], col))
    ensures col.filterType.None? ==>
      (forall k :: 0 <= k < |r| ==> r[k] in items && r[k].id in col.itemIds)
    ensures col.filterType.None? ==>
      (forall k :: 0 <= k < |items| && items[k].id in col.itemIds ==> items[k] in r)
  {
    if col.filterType.Some? then Keep(FilteredMovies(items, search), (i: MediaItem) => MatchesFilter(i, col))
    else Keep(items, (i: MediaItem) => i.id in col.itemIds)
  }

  /** Every searched movie that matches a filter collection's filter is in its row. */
  lemma RowItemsFilterComplete(col: Collection, items: seq<MediaItem>, search: string, k: nat)
    requires FilterReady(col) && col.filterType.Some?
    requires k < |items| && MovieMatches(items[k], ToLower(search)) && MatchesFilter(items[k], col)
    ensures items[k] in RowItems(col, items, search)
  {
    var f := FilteredMovies(items, search);
    assert items[k] in f;
    var j :| 0 <= j < |f| && f[j] == items[k];
  }
}
