/** The skills carousel of `assets/main.js`: a current slide index, a pointer
    drag in progress, and the view that `updateSkills` writes into the page.
    The slide count, the slide width in pixels, the pointer positions and the
    reduced-motion preference are all inputs; nothing here measures layout. */
module Carousel {
  import opened Wrappers
  import opened Text

  /** The controller's mutable variables: `idx`, `startX`, `curX`, `dragging`. */
  datatype Carousel = Carousel(idx: nat, startX: real, curX: real, dragging: bool)

  /** The page starts on the first slide with no drag in progress. */
  const Initial := Carousel(0, 0.0, 0.0, false)

  /** The track's CSS transform: a percentage after `updateSkills`, pixels while dragging. */
  datatype Transform = TranslatePercent(pct: int) | TranslatePx(px: real)

  /** The track's CSS transition: eased settle, or none (reduced motion, or mid-drag). */
  datatype Transition = Eased | NoTransition

  /** The two attributes written on each slide. */
  datatype SlideAttrs = SlideAttrs(ariaHidden: string, tabIndex: string)

  /** Everything the carousel writes into the page. */
  datatype View = View(
    transform: Transform,
    transition: Transition,
    slides: seq<SlideAttrs>,
    prevDisabled: bool,
    nextDisabled: bool,
    status: string)

  datatype Widget = Widget(state: Carousel, view: View)

  /** Where `go` may leave the index: a slide position, or 0 when there is no slide. */
  predicate InRange(total: nat, idx: nat) {
    if total == 0 then idx == 0 else idx < total
  }

  // ---------------------------------------------------------------------------
  // Index clamping: `Math.max(0, Math.min(total - 1, n))`

  function Clamp(total: nat, n: int): (r: nat)
    ensures InRange(total, r)
    ensures 0 <= n < total ==> r == n
    ensures n < 0 ==> r == 0
    ensures total >= 1 && n >= total ==> r == total - 1
  {
    var m := if total - 1 <= n then total - 1 else n;
    if m <= 0 then 0 else m
  }

  /** The clamped index is the slide position nearest to the request. */
  lemma ClampIsNearest(total: nat, n: int, k: int)
    requires 0 <= k < total
    ensures Clamp(total, n) - n <= k - n || Clamp(total, n) - n <= n - k
    ensures n - Clamp(total, n) <= k - n || n - Clamp(total, n) <= n - k
  {
  }

  // ---------------------------------------------------------------------------
  // Status line: `Card {idx+1} of {total}`

  function StatusText(shown: nat, total: nat): (t: string)
    ensures ParseStatus(t) == Some((shown, total))
    ensures forall t' :: ParseStatus(t') == Some((shown, total)) ==> t' == t
  {
    var t := "Card " + NatToString(shown) + " of " + NatToString(total);
    StatusTextParses(shown, total);
    forall t' | ParseStatus(t') == Some((shown, total))
      ensures t' == t
    {
      ParseStatusExact(t', shown, total);
    }
    t
  }

  /** Reads a status line back into the two numbers it announces. */
  function ParseStatus(t: string): Option<(nat, nat)> {
    if |t| < 5 || t[..5] != "Card " then None else ParseCounts(t[5..])
  }

  /** Reads `<digits> of <digits>`; a number written with a leading zero is
      rejected. */
  function ParseCounts(rest: string): Option<(nat, nat)> {
    var k := DigitSpan(rest);
    if k == 0 || (k > 1 && rest[0] == '0') then None
    else
      var tail := rest[k..];
      if |tail| < 4 || tail[..4] != " of " then None
      else ParseTotal(DigitsToNat(rest[..k]), tail[4..])
  }

  /** Reads the final `<digits>`, again without a leading zero. */
  function ParseTotal(shown: nat, b: string): Option<(nat, nat)> {
    if |b| == 0 || DigitSpan(b) != |b| || (|b| > 1 && b[0] == '0') then None
    else
      assert b[..|b|] == b;
      Some((shown, DigitsToNat(b)))
  }

  /** Only the exact status line for `(a, b)` parses to `(a, b)`. */
  lemma ParseStatusExact(t: string, a: nat, b: nat)
    requires ParseStatus(t) == Some((a, b))
    ensures t == "Card " + NatToString(a) + " of " + NatToString(b)
  {
    ParseCountsExact(t[5..], a, b);
    PrefixThenRest(t, "Card ", NatToString(a), " of ", NatToString(b));
  }

  /** A text that starts with `p` and continues with `x + y + z` is
      `p + x + y + z`. */
  lemma PrefixThenRest(t: string, p: string, x: string, y: string, z: string)
    requires |p| <= |t| && t[..|p|] == p && t[|p|..] == x + y + z
    ensures t == p + x + y + z
  {
    assert t == t[..|p|] + t[|p|..];
  }

  lemma ParseCountsExact(rest: string, a: nat, b: nat)
    requires ParseCounts(rest) == Some((a, b))
    ensures rest == NatToString(a) + " of " + NatToString(b)
  {
    var k := DigitSpan(rest);
    var d1 := rest[..k];
    var tail := rest[k..];
    assert ParseTotal(DigitsToNat(d1), tail[4..]) == Some((a, b));
    ParseTotalExact(DigitsToNat(d1), tail[4..], a, b);
    assert Canonical(d1);
    NatToStringOfDigitsToNat(d1);
    assert d1 == NatToString(a);
    var d2 := tail[4..];
    assert d2 == NatToString(b);
    assert tail == " of " + d2;
    assert rest == d1 + tail;
    assert d1 + (" of " + d2) == d1 + " of " + d2;
  }

  lemma ParseTotalExact(shown: nat, d: string, a: nat, b: nat)
    requires ParseTotal(shown, d) == Some((a, b))
    ensures a == shown && d == NatToString(b)
  {
    assert d[..|d|] == d;
    assert Canonical(d);
    NatToStringOfDigitsToNat(d);
  }

  lemma StatusTextParses(shown: nat, total: nat)
    ensures ParseStatus("Card " + NatToString(shown) + " of " + NatToString(total))
            == Some((shown, total))
  {
    var a, b := NatToString(shown), NatToString(total);
    var rest := a + (" of " + b);
    assert "Card " + a + " of " + b == "Card " + rest;
    SplitConcat("Card ", rest);
    CountsParse(shown, total);
  }

  lemma CountsParse(shown: nat, total: nat)
    ensures ParseCounts(NatToString(shown) + (" of " + NatToString(total))) == Some((shown, total))
  {
    var a, b := NatToString(shown), NatToString(total);
    var rest := a + (" of " + b);
    DigitSpanOfDigitsThen(a, " of " + b);
    assert rest[..|a|] == a;
    assert rest[|a|..] == " of " + b;
    assert (" of " + b)[..4] == " of ";
    assert (" of " + b)[4..] == b;
    DigitsToNatOfNatToString(shown);
    TotalParses(shown, total);
  }

  lemma TotalParses(shown: nat, total: nat)
    ensures ParseTotal(shown, NatToString(total)) == Some((shown, total))
  {
    var b := NatToString(total);
    DigitSpanOfDigitsThen(b, "");
    assert b + "" == b;
    DigitsToNatOfNatToString(total);
  }

  // ---------------------------------------------------------------------------
  // `updateSkills`: the view derived from the index

  function SlideAt(i: nat, idx: nat): SlideAttrs {
    if i == idx then SlideAttrs("false", "0") else SlideAttrs("true", "-1")
  }

  function Render(idx: nat, total: nat, motionOk: bool): (v: View)
    ensures v.transform == TranslatePercent(-(idx * 100))
    ensures v.transition == (if motionOk then Eased else NoTransition)
    ensures |v.slides| == total
    ensures forall i :: 0 <= i < total ==>
              (v.slides[i].ariaHidden == "false" <==> i == idx) &&
              (v.slides[i].ariaHidden == "true" <==> i != idx) &&
              (v.slides[i].tabIndex == "0" <==> i == idx) &&
              (v.slides[i].tabIndex == "-1" <==> i != idx)
    ensures v.prevDisabled <==> idx == 0
    ensures v.nextDisabled <==> idx == total - 1
    ensures ParseStatus(v.status) == Some((idx + 1, total))
  {
    View(
      TranslatePercent(-(idx * 100)),
      if motionOk then Eased else NoTransition,
      seq(total, i requires 0 <= i < total => SlideAt(i, idx)),
      idx == 0,
      idx == total - 1,
      StatusText(idx + 1, total))
  }

  /** Re-rendering never touches the controller state. */
  function UpdateSkills(w: Widget, total: nat, motionOk: bool): (r: Widget)
    ensures r.state == w.state
    ensures r.view == Render(w.state.idx, total, motionOk)
  {
    w.(view := Render(w.state.idx, total, motionOk))
  }

  // ---------------------------------------------------------------------------
  // Navigation: `go`, the prev/next buttons and the arrow keys

  /** The state half of `go`: only the index changes, and it lands in range. */
  function GoState(s: Carousel, total: nat, n: int): (r: Carousel)
    ensures InRange(total, r.idx)
    ensures 0 <= n < total ==> r.idx == n
    ensures n < 0 ==> r.idx == 0
    ensures total >= 1 && n >= total ==> r.idx == total - 1
    ensures r.(idx := s.idx) == s
  {
    s.(idx := Clamp(total, n))
  }

  function NextState(s: Carousel, total: nat): Carousel {
    GoState(s, total, s.idx + 1)
  }

  function PrevState(s: Carousel, total: nat): Carousel {
    GoState(s, total, s.idx - 1)
  }

  /** `go`: move the index, then re-render. */
  function Go(w: Widget, total: nat, n: int, motionOk: bool): (r: Widget)
    ensures r.state == GoState(w.state, total, n)
    ensures r.view == Render(r.state.idx, total, motionOk)
  {
    var s := GoState(w.state, total, n);
    Widget(s, Render(s.idx, total, motionOk))
  }

  /** The next button and ArrowRight: one slide forward, stopping at the last. */
  function Next(w: Widget, total: nat, motionOk: bool): (r: Widget)
    ensures r.state == NextState(w.state, total)
    ensures w.state.idx < total ==>
              r.state.idx == (if w.state.idx + 1 < total then w.state.idx + 1 else total - 1)
    ensures r.view == Render(r.state.idx, total, motionOk)
  {
    Go(w, total, w.state.idx + 1, motionOk)
  }

  /** The prev button and ArrowLeft: one slide back, stopping at the first. */
  function Prev(w: Widget, total: nat, motionOk: bool): (r: Widget)
    ensures r.state == PrevState(w.state, total)
    ensures w.state.idx < total ==> r.state.idx == (if w.state.idx >= 1 then w.state.idx - 1 else 0)
    ensures r.view == Render(r.state.idx, total, motionOk)
  {
    Go(w, total, w.state.idx - 1, motionOk)
  }

  /** A key press on the track: ArrowRight goes forward, ArrowLeft back, and
      either arrow re-renders the view; any other key does nothing. */
  function KeyDown(w: Widget, key: string, total: nat, motionOk: bool): (r: Widget)
    ensures key == "ArrowRight" ==>
              r.state == NextState(w.state, total) && r.view == Render(r.state.idx, total, motionOk)
    ensures key == "ArrowLeft" ==>
              r.state == PrevState(w.state, total) && r.view == Render(r.state.idx, total, motionOk)
    ensures key != "ArrowRight" && key != "ArrowLeft" ==> r == w
  {
    if key == "ArrowRight" then Next(w, total, motionOk)
    else if key == "ArrowLeft" then Prev(w, total, motionOk)
    else w
  }

  /** From a slide position, an arrow key moves at most one slide, in its
      own direction, and stays on a slide; other keys change nothing. */
  lemma KeyDownMovesOneStep(w: Widget, key: string, total: nat, motionOk: bool)
    requires w.state.idx < total
    ensures var r := KeyDown(w, key, total, motionOk);
            && r.state.idx < total
            && (key == "ArrowRight" ==> r.state.idx == w.state.idx + 1 || r.state.idx == w.state.idx == total - 1)
            && (key == "ArrowLeft" ==> r.state.idx == w.state.idx - 1 || r.state.idx == w.state.idx == 0)
            && (key != "ArrowRight" && key != "ArrowLeft" ==> r == w)
  {
  }

  /** Next on the last slide stays there, and the view says so. */
  lemma NextSaturates(w: Widget, total: nat, motionOk: bool)
    requires total >= 1 && w.state.idx == total - 1
    ensures Next(w, total, motionOk).state == w.state
    ensures Next(w, total, motionOk).view.nextDisabled
  {
  }

  /** Prev on the first slide stays there, and the view says so. */
  lemma PrevSaturates(w: Widget, total: nat, motionOk: bool)
    requires w.state.idx == 0
    ensures Prev(w, total, motionOk).state == w.state
    ensures Prev(w, total, motionOk).view.prevDisabled
  {
  }

  /** Going to the same place twice is going there once. */
  lemma GoIdempotent(w: Widget, total: nat, n: int, motionOk: bool)
    ensures Go(Go(w, total, n, motionOk), total, n, motionOk) == Go(w, total, n, motionOk)
  {
  }

  /** Going to the current, in-range index changes no state and re-renders
      exactly the view `updateSkills` would. */
  lemma GoCurrentIsUpdate(w: Widget, total: nat, motionOk: bool)
    requires w.state.idx < total
    ensures Go(w, total, w.state.idx, motionOk) == UpdateSkills(w, total, motionOk)
  {
  }

  /** The state after `k` presses of Next. */
  function NextTimes(s: Carousel, total: nat, k: nat): Carousel
    decreases k
  {
    if k == 0 then s else NextTimes(NextState(s, total), total, k - 1)
  }

  /** The state after `k` presses of Prev. */
  function PrevTimes(s: Carousel, total: nat, k: nat): Carousel
    decreases k
  {
    if k == 0 then s else PrevTimes(PrevState(s, total), total, k - 1)
  }

  /** Repeated Next advances one slide per press and then sticks at the last one. */
  lemma {:induction false} NextTimesSaturates(s: Carousel, total: nat, k: nat)
    requires s.idx < total
    ensures NextTimes(s, total, k).idx == if s.idx + k < total then s.idx + k else total - 1
    decreases k
  {
    if k > 0 {
      NextTimesSaturates(NextState(s, total), total, k - 1);
    }
  }

  /** Repeated Prev steps back one slide per press and then sticks at the first one. */
  lemma {:induction false} PrevTimesSaturates(s: Carousel, total: nat, k: nat)
    requires s.idx < total
    ensures PrevTimes(s, total, k).idx == if s.idx >= k then s.idx - k else 0
    decreases k
  {
    if k > 0 {
      PrevTimesSaturates(PrevState(s, total), total, k - 1);
    }
  }

  // ---------------------------------------------------------------------------
  // Swipe: `onStart`, `onMove`, `onEnd`

  /** A press on the track starts a fresh drag at `x`, overwriting any earlier one. */
  function OnStart(w: Widget, x: real, motionOk: bool): (r: Widget)
    ensures r.state == Carousel(w.state.idx, x, x, true)
    ensures r.view.transition == (if motionOk then NoTransition else w.view.transition)
    ensures r.view.(transition := w.view.transition) == w.view
  {
    Widget(
      w.state.(dragging := true, startX := x, curX := x),
      if motionOk then w.view.(transition := NoTransition) else w.view)
  }

  /** Pointer movement: while dragging, record `x` and let the track follow the
      pointer in pixels; the index never moves. */
  function OnMove(w: Widget, x: real, slideWidth: real): (r: Widget)
    ensures !w.state.dragging ==> r == w
    ensures r.state.idx == w.state.idx && r.state.dragging == w.state.dragging
    ensures r.state.startX == w.state.startX
    ensures w.state.dragging ==> r.state.curX == x
    ensures w.state.dragging ==>
              r.view.transform == TranslatePx(x - w.state.startX - w.state.idx as real * slideWidth)
    ensures r.view.(transform := w.view.transform) == w.view
  {
    if !w.state.dragging then w
    else
      var dx := x - w.state.startX;
      var base := -(w.state.idx as real * slideWidth);
      Widget(w.state.(curX := x), w.view.(transform := TranslatePx(base + dx)))
  }

  /** Navigation threshold: 15% of one slide's width. */
  function Threshold(slideWidth: real): real {
    slideWidth * 0.15
  }

  /** The widget with the drag flag cleared and nothing else changed. */
  function Release(w: Widget): Widget {
    w.(state := w.state.(dragging := false))
  }

  /** Release: a drag further right than the threshold goes back one slide, one
      further left goes forward one, anything else snaps back; `dragging` is
      cleared but the recorded positions are kept. */
  function OnEnd(w: Widget, total: nat, slideWidth: real, motionOk: bool): (r: Widget)
    ensures !w.state.dragging ==> r == w
    ensures w.state.dragging ==> !r.state.dragging
    ensures r.state.startX == w.state.startX && r.state.curX == w.state.curX
    ensures InRange(total, w.state.idx) ==> InRange(total, r.state.idx)
  {
    if !w.state.dragging then w
    else
      var released := Release(w);
      var dx := released.state.curX - released.state.startX;
      var threshold := Threshold(slideWidth);
      if dx > threshold then Go(released, total, released.state.idx - 1, motionOk)
      else if dx < -threshold then Go(released, total, released.state.idx + 1, motionOk)
      else UpdateSkills(released, total, motionOk)
  }

  /** The release decision, stated against the button actions: the new
      state is Prev's, Next's or unchanged, and the view is re-rendered for it. */
  lemma OnEndDecision(w: Widget, total: nat, slideWidth: real, motionOk: bool)
    requires w.state.dragging && slideWidth >= 0.0
    ensures var dx := w.state.curX - w.state.startX;
            var released := w.state.(dragging := false);
            var r := OnEnd(w, total, slideWidth, motionOk);
            && (dx > slideWidth * 0.15 ==> r.state == PrevState(released, total))
            && (dx < -(slideWidth * 0.15) ==> r.state == NextState(released, total))
            && (-(slideWidth * 0.15) <= dx <= slideWidth * 0.15 ==> r.state == released)
            && r.view == Render(r.state.idx, total, motionOk)
  {
  }

  /** A displacement of exactly the threshold, either way, never navigates. */
  lemma OnEndAtThresholdStays(w: Widget, total: nat, slideWidth: real, motionOk: bool)
    requires w.state.dragging && slideWidth >= 0.0
    requires w.state.curX - w.state.startX == slideWidth * 0.15 ||
             w.state.curX - w.state.startX == -(slideWidth * 0.15)
    ensures OnEnd(w, total, slideWidth, motionOk).state.idx == w.state.idx
  {
  }

  /** A press released without any movement never navigates, whatever the
      previous drag state was. */
  lemma StartThenEndStays(w: Widget, x: real, total: nat, slideWidth: real, motionOk: bool)
    requires slideWidth >= 0.0
    ensures OnEnd(OnStart(w, x, motionOk), total, slideWidth, motionOk).state ==
            Carousel(w.state.idx, x, x, false)
  {
  }

  /** A sequence of pointer movements. */
  function Moves(w: Widget, xs: seq<real>, slideWidth: real): Widget
    decreases |xs|
  {
    if |xs| == 0 then w else Moves(OnMove(w, xs[0], slideWidth), xs[1..], slideWidth)
  }

  /** During a drag only the last pointer position matters, and the index and
      the drag origin are untouched. */
  lemma {:induction false} MovesKeepLast(w: Widget, xs: seq<real>, slideWidth: real)
    requires w.state.dragging && |xs| > 0
    ensures Moves(w, xs, slideWidth).state == w.state.(curX := xs[|xs| - 1])
    decreases |xs|
  {
    if |xs| > 1 {
      MovesKeepLast(OnMove(w, xs[0], slideWidth), xs[1..], slideWidth);
    }
  }

  /** A full gesture: press at `x0`, move through `xs`, release. The outcome
      depends only on the net displacement from `x0` to the last position. */
  lemma GestureOutcome(w: Widget, x0: real, xs: seq<real>, total: nat, slideWidth: real, motionOk: bool)
    requires |xs| > 0 && w.state.idx < total && slideWidth >= 0.0
    ensures var r := OnEnd(Moves(OnStart(w, x0, motionOk), xs, slideWidth), total, slideWidth, motionOk);
            var dx := xs[|xs| - 1] - x0;
            && !r.state.dragging
            && (dx > slideWidth * 0.15 ==> r.state.idx == Clamp(total, w.state.idx - 1))
            && (dx < -(slideWidth * 0.15) ==> r.state.idx == Clamp(total, w.state.idx + 1))
            && (-(slideWidth * 0.15) <= dx <= slideWidth * 0.15 ==> r.state.idx == w.state.idx)
  {
    MovesKeepLast(OnStart(w, x0, motionOk), xs, slideWidth);
  }

  // ---------------------------------------------------------------------------
  // Worked scenarios

  /** Page load: from the initial state, whatever the markup showed, the first
      render puts the first slide on screen with Prev disabled and the status
      "Card 1 of total"; Next is disabled only when there is a single slide. */
  lemma InitialRender(v: View, total: nat, motionOk: bool)
    ensures var r := UpdateSkills(Widget(Initial, v), total, motionOk);
            && r.state == Carousel(0, 0.0, 0.0, false)
            && r.view.transform == TranslatePercent(0)
            && r.view.prevDisabled
            && (r.view.nextDisabled <==> total == 1)
            && ParseStatus(r.view.status) == Some((1, total))
  {
  }

  /** Five slides, starting on the third: three Nexts reach the last slide and
      disable Next; one Prev then shows "Card 4 of 5". */
  lemma FiveSlideScenario(w: Widget, motionOk: bool)
    requires w.state.idx == 2
    ensures var w3 := Next(Next(Next(w, 5, motionOk), 5, motionOk), 5, motionOk);
            && w3.state.idx == 4
            && w3.view.nextDisabled
            && Prev(w3, 5, motionOk).state.idx == 3
            && ParseStatus(Prev(w3, 5, motionOk).view.status) == Some((4, 5))
  {
  }

  /** With one slide both buttons are disabled and both do nothing. */
  lemma SingleSlideScenario(w: Widget, motionOk: bool)
    requires w.state.idx == 0
    ensures Next(w, 1, motionOk).state == w.state && Prev(w, 1, motionOk).state == w.state
    ensures Next(w, 1, motionOk).view.prevDisabled && Next(w, 1, motionOk).view.nextDisabled
  {
  }

  /** With no slides the index is forced to 0, Prev is disabled, Next is not
      (0 is not -1), and the status claims card 1 of 0. */
  lemma EmptyScenario(w: Widget, n: int, motionOk: bool)
    ensures Go(w, 0, n, motionOk).state.idx == 0
    ensures Go(w, 0, n, motionOk).view.prevDisabled
    ensures !Go(w, 0, n, motionOk).view.nextDisabled
    ensures Go(w, 0, n, motionOk).view.slides == []
    ensures ParseStatus(Go(w, 0, n, motionOk).view.status) == Some((1, 0))
  {
  }
}
