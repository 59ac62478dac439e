/**
 The presentation viewer: a state of (current slide index, dark mode) over a
 fixed deck of `count` slides, moved by the previous/next buttons, the slide
 selector and the theme toggle, together with the viewer's display rules.
 */
module Presentation {
  import opened SlideData

  datatype ViewerState = ViewerState(currentSlide: int, darkMode: bool)

  /** The viewer opens on the first slide in dark mode. */
  const Initial: ViewerState := ViewerState(0, true)

  /** The index names a slide of a deck of `count` slides. */
  predicate Valid(st: ViewerState, count: nat)
  {
    0 <= st.currentSlide < count
  }

  /** `nextSlide`: advance by one unless already on the last slide. */
  function NextSlide(st: ViewerState, count: nat): (r: ViewerState)
    ensures r.darkMode == st.darkMode
    ensures st.currentSlide < count - 1 ==> r.currentSlide == st.currentSlide + 1
    ensures st.currentSlide >= count - 1 ==> r == st
    ensures r.currentSlide >= st.currentSlide
  {
    if st.currentSlide < count - 1 then st.(currentSlide := st.currentSlide + 1) else st
  }

  /** `prevSlide`: go back by one unless already on the first slide. */
  function PrevSlide(st: ViewerState): (r: ViewerState)
    ensures r.darkMode == st.darkMode
    ensures st.currentSlide > 0 ==> r.currentSlide == st.currentSlide - 1
    ensures st.currentSlide <= 0 ==> r == st
    ensures r.currentSlide <= st.currentSlide
  {
    if st.currentSlide > 0 then st.(currentSlide := st.currentSlide - 1) else st
  }

  /** `toggleDarkMode`: flip the theme; the slide stays. */
  function ToggleDarkMode(st: ViewerState): (r: ViewerState)
    ensures r.currentSlide == st.currentSlide
    ensures r.darkMode == !st.darkMode
  {
    st.(darkMode := !st.darkMode)
  }

  /** The values of the selector's options: one per slide, its index. */
  function OptionValues(count: nat): (r: seq<int>)
    ensures |r| == count
    ensures forall k :: 0 <= k < count ==> r[k] == k
  {
    seq(count, k => k)
  }

  /** `handleSlideChange`: jump to the index of the option picked. */
  function HandleSlideChange(st: ViewerState, count: nat, value: int): (r: ViewerState)
    requires value in OptionValues(count)
    ensures r.currentSlide == value
    ensures r.darkMode == st.darkMode
    ensures Valid(r, count)
  {
    st.(currentSlide := value)
  }

  /** The previous button is disabled on the first slide, where pressing it would do nothing. */
  function PrevDisabled(st: ViewerState): (disabled: bool)
    ensures st.currentSlide >= 0 ==> (disabled <==> PrevSlide(st) == st)
  {
    st.currentSlide == 0
  }

  /** The next button is disabled on the last slide, where pressing it would do nothing. */
  function NextDisabled(st: ViewerState, count: nat): (disabled: bool)
    ensures st.currentSlide <= count - 1 ==> (disabled <==> NextSlide(st, count) == st)
  {
    st.currentSlide == count - 1
  }

  /** The number shown in the "Slide n / count" counter. */
  function CounterNumber(st: ViewerState, count: nat): (n: int)
    ensures Valid(st, count) ==> 1 <= n <= count
    ensures Valid(st, count) ==> (n == count <==> NextDisabled(st, count))
  {
    st.currentSlide + 1
  }

  /** A cover image is present when `image` is a non-empty string (JavaScript truthiness). */
  predicate HasCoverImage(s: Slide)
  {
    s.image.Some? && s.image.value != ""
  }

  /** The cover image is rendered only on the first slide, and only if that slide has one. */
  function ShowsCover(st: ViewerState, slides: seq<Slide>): (shown: bool)
    requires Valid(st, |slides|)
    ensures shown <==> st.currentSlide == 0 && HasCoverImage(slides[0])
  {
    st.currentSlide == 0 && HasCoverImage(slides[st.currentSlide])
  }

  /** One rendered list item of a slide body: an optional bullet marker and the text. */
  datatype Item = Item(marker: bool, text: string)

  /** The list items rendered for a slide's blocks, in order. */
  function RenderBlocks(blocks: seq<Block>): (items: seq<Item>)
    ensures |items| == |blocks|
    ensures forall k :: 0 <= k < |blocks| ==> (items[k].marker <==> blocks[k].kind == Bullet)
    ensures forall k :: 0 <= k < |blocks| && blocks[k].text.Some? ==> items[k].text == blocks[k].text.value
    decreases |blocks|
  {
    if |blocks| == 0 then []
    else
      var b := blocks[0];
      [Item(b.kind == Bullet, if b.text.Some? then b.text.value else "")] + RenderBlocks(blocks[1..])
  }

  /** A user control of the viewer. */
  datatype Control = Next | Prev | Jump(value: int) | Toggle

  /** Every jump in `controls` picks one of the selector's options. */
  predicate JumpsFromOptions(controls: seq<Control>, count: nat)
  {
    forall k :: 0 <= k < |controls| && controls[k].Jump? ==> controls[k].value in OptionValues(count)
  }

  function Apply(st: ViewerState, count: nat, c: Control): ViewerState
    requires c.Jump? ==> c.value in OptionValues(count)
  {
    match c
    case Next => NextSlide(st, count)
    case Prev => PrevSlide(st)
    case Jump(v) => HandleSlideChange(st, count, v)
    case Toggle => ToggleDarkMode(st)
  }

  /** The state after a sequence of controls, in order. */
  function Replay(st: ViewerState, count: nat, controls: seq<Control>): ViewerState
    requires JumpsFromOptions(controls, count)
    decreases |controls|
  {
    if |controls| == 0 then st
    else
      Replay(Apply(st, count, controls[0]), count, controls[1..])
  }

  /** Number of theme toggles in `controls`. */
  function Toggles(controls: seq<Control>): nat
    decreases |controls|
  {
    if |controls| == 0 then 0
    else (if controls[0].Toggle? then 1 else 0) + Toggles(controls[1..])
  }

  /** Every index in `[0, count)` is offered by the selector, and nothing else is. */
  lemma OptionValuesAreIndices(count: nat, value: int)
    ensures value in OptionValues(count) <==> 0 <= value < count
  {
    if 0 <= value < count {
      assert OptionValues(count)[value] == value;
    }
  }

  /** Each control keeps the index inside the deck. */
  lemma ApplyPreservesValid(st: ViewerState, count: nat, c: Control)
    requires Valid(st, count)
    requires c.Jump? ==> c.value in OptionValues(count)
    ensures Valid(Apply(st, count, c), count)
  {
  }

  /**
   From any valid state, every sequence of controls (jumps picked from the
   selector) keeps `0 <= currentSlide < count`.
   */
  lemma {:induction false} ReplayPreservesValid(st: ViewerState, count: nat, controls: seq<Control>)
    requires Valid(st, count)
    requires JumpsFromOptions(controls, count)
    ensures Valid(Replay(st, count, controls), count)
    decreases |controls|
  {
    if |controls| > 0 {
      ApplyPreservesValid(st, count, controls[0]);
      ReplayPreservesValid(Apply(st, count, controls[0]), count, controls[1..]);
    }
  }

  /** The initial state is valid for every non-empty deck, so every reachable state is. */
  lemma ReachableStatesAreValid(count: nat, controls: seq<Control>)
    requires count >= 1
    requires JumpsFromOptions(controls, count)
    ensures Valid(Replay(Initial, count, controls), count)
  {
    ReplayPreservesValid(Initial, count, controls);
  }

  /** Only the toggle changes the theme: it ends flipped iff the toggle count is odd. */
  lemma {:induction false} ReplayDarkMode(st: ViewerState, count: nat, controls: seq<Control>)
    requires JumpsFromOptions(controls, count)
    ensures Replay(st, count, controls).darkMode == (st.darkMode != (Toggles(controls) % 2 == 1))
    decreases |controls|
  {
    if |controls| > 0 {
      ReplayDarkMode(Apply(st, count, controls[0]), count, controls[1..]);
    }
  }

  /** Toggling the theme twice restores the state. */
  lemma ToggleTwiceIsIdentity(st: ViewerState)
    ensures ToggleDarkMode(ToggleDarkMode(st)) == st
  {
  }

  /** Going forward then back returns to the starting slide when it is not the last. */
  lemma PrevAfterNext(st: ViewerState, count: nat)
    requires Valid(st, count) && st.currentSlide < count - 1
    ensures PrevSlide(NextSlide(st, count)) == st
  {
  }

  /** Going back then forward returns to the starting slide when it is not the first. */
  lemma NextAfterPrev(st: ViewerState, count: nat)
    requires Valid(st, count) && st.currentSlide > 0
    ensures NextSlide(PrevSlide(st), count) == st
  {
  }

  /** Leaving the first slide hides the cover image. */
  lemma NextHidesCover(st: ViewerState, slides: seq<Slide>)
    requires Valid(st, |slides|) && |slides| >= 2
    ensures !ShowsCover(NextSlide(st, |slides|), slides)
  {
  }
}
