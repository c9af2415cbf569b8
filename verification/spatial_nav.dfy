/** The TV client's remote-control navigation: which focusable element an arrow key moves
    to, where the back key leads, and how a key press is dispatched. The document is a
    sequence of elements in document order, each with an identity and its bounding box;
    focusing, scrolling and the router are left to the caller. */
module SpatialNavigation {
  import opened Common
  import opened JsText

  /** A bounding box as `getBoundingClientRect` reports it. */
  datatype Rect = Rect(left: real, top: real, width: real, height: real)

  /** An element of the document; `id` stands for object identity. */
  datatype Element = Element(id: nat, rect: Rect)

  datatype Direction = Up | Down | Left | Right

  function CentreX(r: Rect): real { r.left + r.width / 2.0 }

  function CentreY(r: Rect): real { r.top + r.height / 2.0 }

  function Abs(x: real): real { if x < 0.0 then -x else x }

  // ---------------------------------------------------------------- getAllFocusable

  /** Only elements with a positive width and height take part. */
  predicate Visible(r: Rect) { r.width > 0.0 && r.height > 0.0 }

  /** The focusable elements the selector matched, keeping the visible ones in document order. */
  function Focusable(matched: seq<Element>): (r: seq<Element>)
    ensures forall i :: 0 <= i < |r| ==> r[i] in matched && Visible(r[i].rect)
    ensures forall i :: 0 <= i < |matched| && Visible(matched[i].rect) ==> matched[i] in r
  {
    Keep(matched, (e: Element) => Visible(e.rect))
  }

  /** The filter keeps document order: the focusable elements of a document are those of its
      first part followed by those of the rest, and one element is kept exactly when it is
      visible. */
  lemma FocusableKeepsOrder(a: seq<Element>, b: seq<Element>, e: Element)
    ensures Focusable(a + b) == Focusable(a) + Focusable(b)
    ensures Focusable([e]) == if Visible(e.rect) then [e] else []
  {
    KeepAppend(a, b, (e: Element) => Visible(e.rect));
    assert [e][1..] == [];
  }

  // ---------------------------------------------------------------- findNextFocusable

  /** The minimum distance a centre must move to count as a step. */
  const Threshold: real := 5.0

  /** The candidate's centre lies more than the threshold beyond the current centre in the
      pressed direction. */
  predicate Ahead(dir: Direction, from: Rect, to: Rect) {
    match dir
    case Up => CentreY(to) < CentreY(from) - Threshold
    case Down => CentreY(to) > CentreY(from) + Threshold
    case Left => CentreX(to) < CentreX(from) - Threshold
    case Right => CentreX(to) > CentreX(from) + Threshold
  }

  /** Distance along the pressed axis plus three times the distance across it. */
  function Score(dir: Direction, from: Rect, to: Rect): (s: real)
    ensures s >= 0.0
  {
    var dx := Abs(CentreX(to) - CentreX(from));
    var dy := Abs(CentreY(to) - CentreY(from));
    if dir == Up || dir == Down then dy + dx * 3.0 else dx + dy * 3.0
  }

  /** An element focus may move to: not the current element, and ahead of it. */
  predicate Candidate(current: Element, e: Element, dir: Direction) {
    e.id != current.id && Ahead(dir, current.rect, e.rect)
  }

  /** The reference rule: `all[k]` is a candidate with the least score, and no earlier
      candidate ties with it. */
  predicate IsBest(all: seq<Element>, current: Element, dir: Direction, k: int) {
    0 <= k < |all| && Candidate(current, all[k], dir)
    && (forall j :: 0 <= j < |all| && Candidate(current, all[j], dir)
          ==> Score(dir, current.rect, all[k].rect) <= Score(dir, current.rect, all[j].rect))
    && (forall j :: 0 <= j < k && Candidate(current, all[j], dir)
          ==> Score(dir, current.rect, all[k].rect) < Score(dir, current.rect, all[j].rect))
  }

  /** `findNextFocusable` over the focusable elements: the position of the best candidate,
      or nothing when there is none. */
  method FindNextFocusable(all: seq<Element>, current: Element, dir: Direction) returns (best: Option<nat>)
    ensures best.Some? ==> IsBest(all, current, dir, best.value)
    ensures best.None? <==> forall j :: 0 <= j < |all| ==> !Candidate(current, all[j], dir)
  {
    if |all| == 0 {
      return None;
    }
    var cx := CentreX(current.rect);
    var cy := CentreY(current.rect);
    best := None;
    var bestScore: real := 0.0;
    for k := 0 to |all|
      invariant best.None? ==> forall j :: 0 <= j < k ==> !Candidate(current, all[j], dir)
      invariant best.Some? ==> best.value < k && Candidate(current, all[best.value], dir)
                               && bestScore == Score(dir, current.rect, all[best.value].rect)
      invariant best.Some? ==> forall j :: 0 <= j < k && Candidate(current, all[j], dir)
                                 ==> bestScore <= Score(dir, current.rect, all[j].rect)
      invariant best.Some? ==> forall j :: 0 <= j < best.value && Candidate(current, all[j], dir)
                                 ==> bestScore < Score(dir, current.rect, all[j].rect)
    {
      var e := all[k];
      if e.id == current.id {
        continue;
      }
      var ex := e.rect.left + e.rect.width / 2.0;
      var ey := e.rect.top + e.rect.height / 2.0;
      var valid := match dir
        case Up => ey < cy - 5.0
        case Down => ey > cy + 5.0
        case Left => ex < cx - 5.0
        case Right => ex > cx + 5.0;
      assert valid == Candidate(current, e, dir);
      if !valid {
        continue;
      }
      var dx := ex - cx;
      var dy := ey - cy;
      var score := if dir == Up || dir == Down then Abs(dy) + Abs(dx) * 3.0 else Abs(dx) + Abs(dy) * 3.0;
      assert score == Score(dir, current.rect, e.rect);
      if best.None? || score < bestScore {
        bestScore := score;
        best := Some(k);
      }
    }
  }

  /** The best candidate is unique, so the rule determines the answer. */
  lemma BestUnique(all: seq<Element>, current: Element, dir: Direction, k1: int, k2: int)
    requires IsBest(all, current, dir, k1) && IsBest(all, current, dir, k2)
    ensures k1 == k2
  {
  }

  /** The whole search: from the matched elements to the one focus moves to. */
  method NextFocus(matched: seq<Element>, current: Element, dir: Direction) returns (next: Option<Element>)
    ensures next.Some? ==> next.value in matched && Visible(next.value.rect)
                           && next.value.id != current.id && Ahead(dir, current.rect, next.value.rect)
    ensures next.Some? ==> exists k :: IsBest(Focusable(matched), current, dir, k) && next.value == Focusable(matched)[k]
    ensures next.None? <==> forall e :: e in matched && Visible(e.rect) ==> !Candidate(current, e, dir)
  {
    var all := Focusable(matched);
    var k := FindNextFocusable(all, current, dir);
    if k.Some? {
      next := Some(all[k.value]);
    } else {
      next := None;
      forall e | e in matched && Visible(e.rect) ensures !Candidate(current, e, dir) {
        var i :| 0 <= i < |matched| && matched[i] == e;
        assert e in all;
      }
    }
  }

  /** Moving every box by the same offset changes neither which elements are candidates nor
      which one is best: only relative positions matter. */
  function Shift(r: Rect, dx: real, dy: real): Rect {
    r.(left := r.left + dx, top := r.top + dy)
  }

  function ShiftAll(all: seq<Element>, dx: real, dy: real): (r: seq<Element>)
    ensures |r| == |all|
    ensures forall i :: 0 <= i < |all| ==> r[i] == all[i].(rect := Shift(all[i].rect, dx, dy))
  {
    seq(|all|, i requires 0 <= i < |all| => all[i].(rect := Shift(all[i].rect, dx, dy)))
  }

  lemma ShiftKeepsGeometry(dir: Direction, a: Rect, b: Rect, dx: real, dy: real)
    ensures Ahead(dir, Shift(a, dx, dy), Shift(b, dx, dy)) <==> Ahead(dir, a, b)
    ensures Score(dir, Shift(a, dx, dy), Shift(b, dx, dy)) == Score(dir, a, b)
  {
    assert CentreX(Shift(b, dx, dy)) - CentreX(Shift(a, dx, dy)) == CentreX(b) - CentreX(a);
    assert CentreY(Shift(b, dx, dy)) - CentreY(Shift(a, dx, dy)) == CentreY(b) - CentreY(a);
  }

  lemma TranslationInvariant(all: seq<Element>, current: Element, dir: Direction, k: int, dx: real, dy: real)
    ensures IsBest(ShiftAll(all, dx, dy), current.(rect := Shift(current.rect, dx, dy)), dir, k)
            <==> IsBest(all, current, dir, k)
  {
    var moved := ShiftAll(all, dx, dy);
    var c := current.(rect := Shift(current.rect, dx, dy));
    forall j | 0 <= j < |all|
      ensures Candidate(c, moved[j], dir) <==> Candidate(current, all[j], dir)
      ensures Score(dir, c.rect, moved[j].rect) == Score(dir, current.rect, all[j].rect)
    {
      ShiftKeepsGeometry(dir, current.rect, all[j].rect, dx, dy);
    }
  }

  // ---------------------------------------------------------------- getBackRoute

  const PlayerPrefix := "/player/"
  const DetailPrefix := "/detail/"

  /** Where the back key leads from the current route. */
  function BackRoute(url: string): (r: string)
    ensures r == "/browse" || r == "/setup" || StartsWith(url, PlayerPrefix)
  {
    if StartsWith(url, PlayerPrefix) then ReplaceFirst(url, PlayerPrefix, DetailPrefix)
    else if StartsWith(url, DetailPrefix) then "/browse"
    else if url == "/login" then "/setup"
    else "/browse"
  }

  /** The route hierarchy: a player goes back to the detail page of the same item, a detail
      page to the library, login to setup, anything else to the library. */
  lemma BackRouteSpec(x: string, url: string)
    ensures BackRoute(PlayerPrefix + x) == DetailPrefix + x
    ensures BackRoute(DetailPrefix + x) == "/browse"
    ensures BackRoute("/login") == "/setup"
    ensures !StartsWith(url, PlayerPrefix) && !StartsWith(url, DetailPrefix) && url != "/login"
            ==> BackRoute(url) == "/browse"
  {
    assert (PlayerPrefix + x)[..|PlayerPrefix|] == PlayerPrefix;
    ReplacePrefix(PlayerPrefix, DetailPrefix, x);
    assert (DetailPrefix + x)[..|DetailPrefix|] == DetailPrefix;
    assert (DetailPrefix + x)[..|PlayerPrefix|] != PlayerPrefix by {
      assert (DetailPrefix + x)[1] == 'd';
    }
  }

  /** Pressing back twice from a player reaches the library. */
  lemma BackTwiceFromPlayer(x: string)
    ensures BackRoute(BackRoute(PlayerPrefix + x)) == "/browse"
  {
    BackRouteSpec(x, "");
  }

  // ---------------------------------------------------------------- onKeyDown

  const BackKeyCode := 461

  /** What has focus: nothing, the page body, or an element (an `input` or not). */
  datatype Focus = NoFocus | BodyFocus | ElementFocus(el: Element, isInput: bool)

  /** The effect of a key press. Every effect except `Unhandled` also cancels the browser's
      default action. */
  datatype KeyAction = Navigate(url: string) | FocusFirst | MoveFocus(to: Element) | Unhandled

  function ArrowDirection(key: string): (r: Option<Direction>)
    ensures r.Some? <==> key in {"ArrowUp", "ArrowDown", "ArrowLeft", "ArrowRight"}
  {
    if key == "ArrowUp" then Some(Up)
    else if key == "ArrowDown" then Some(Down)
    else if key == "ArrowLeft" then Some(Left)
    else if key == "ArrowRight" then Some(Right)
    else None
  }

  predicate IsBackKey(key: string, keyCode: int) {
    keyCode == BackKeyCode || key == "GoBack" || key == "Escape"
  }

  /** `onKeyDown`: back keys navigate; arrows with nothing focused focus the first element;
      left and right are left to a focused text input; otherwise focus moves to the best
      candidate, if any. */
  method KeyDown(key: string, keyCode: int, focus: Focus, url: string, matched: seq<Element>)
    returns (action: KeyAction)
    ensures IsBackKey(key, keyCode) ==> action == Navigate(BackRoute(url))
    ensures !IsBackKey(key, keyCode) && ArrowDirection(key).None? ==> action == Unhandled
    ensures !IsBackKey(key, keyCode) && ArrowDirection(key).Some? && !focus.ElementFocus? ==> action == FocusFirst
    ensures (!IsBackKey(key, keyCode) && focus.ElementFocus? && focus.isInput
             && ArrowDirection(key) in {Some(Left), Some(Right)}) ==> action == Unhandled
    ensures action.MoveFocus? ==>
              focus.ElementFocus? && ArrowDirection(key).Some?
              && action.to in matched && Visible(action.to.rect)
              && Candidate(focus.el, action.to, ArrowDirection(key).value)
    ensures action.MoveFocus? ==>
              exists k :: IsBest(Focusable(matched), focus.el, ArrowDirection(key).value, k)
                          && action.to == Focusable(matched)[k]
    ensures (!IsBackKey(key, keyCode) && ArrowDirection(key).Some? && focus.ElementFocus?
             && !(focus.isInput && ArrowDirection(key).value in {Left, Right})) ==>
              (action.MoveFocus? <==>
                 exists e :: e in matched && Visible(e.rect) && Candidate(focus.el, e, ArrowDirection(key).value))
    ensures (!IsBackKey(key, keyCode) && ArrowDirection(key).Some? && focus.ElementFocus?
             && !(focus.isInput && ArrowDirection(key).value in {Left, Right})) ==>
              (action.MoveFocus? || action == Unhandled)
  {
    if IsBackKey(key, keyCode) {
      return Navigate(BackRoute(url));
    }
    var dir := ArrowDirection(key);
    if dir.None? {
      return Unhandled;
    }
    if !focus.ElementFocus? {
      return FocusFirst;
    }
    if focus.isInput && (dir.value == Left || dir.value == Right) {
      return Unhandled;
    }
    var next := NextFocus(matched, focus.el, dir.value);
    if next.Some? {
      action := MoveFocus(next.value);
    } else {
      action := Unhandled;
    }
  }
}
