# Slide deck editor and viewer, modelled in Dafny

This project models the two pieces of logic in a small React slide
presentation: the drag-and-drop slide editor and the presentation viewer.
Both work on one deck of slides. A slide has a title, an optional cover image
and an ordered list of content blocks. Each block is tagged `paragraph`,
`bullet`, `image`, `code` or `quote`. Its content is in `text`, except for
`image` blocks, whose content is in `src`.

- `sequences.dfy` (module `Sequences`) holds the positional edits the editor is
  built from: removal and insertion at an index, JavaScript's
  `Array.prototype.splice(i, 1)`, and the reorder primitive `arrayMove`.
- `slide_data.dfy` (module `SlideData`) holds the `Block`/`Slide` data shape
  and the invariant "exactly one content field is present, and it is the one
  the tag selects" (`WellFormedBlock`).
- `slide_editor.dfy` (module `SlideEditor`) holds each editor handler as a pure
  function from one deck to the next. `Step`/`Run` replay a session of edits.
- `presentation.dfy` (module `Presentation`) holds the viewer state
  `(currentSlide, darkMode)`, its transitions, the button and selector rules,
  and the display conditions for the counter, the cover image and the bullet
  marker.

Modelling choices:
- The editor copies the array shallowly and then mutates the old slide objects
  in place. The model uses value semantics instead: each handler returns a new
  deck, and nothing is claimed about the deck it was given.
- `removeSlide` and `removeBlock` call `splice(i, 1)`. That call accepts any
  index: a negative one counts back from the end, and one past the end removes
  nothing. The model follows `splice` here rather than requiring an in-range
  index.
- `updateTitle`, `addBlock`, `updateBlock` and `removeBlock` read `copy[i]`,
  and `updateBlock` also reads `blocks[j]`. Out of range, such a read gives
  `undefined`. Reading or setting a property on it (`.title`, `.blocks` or `.type`)
  then throws before `setSlides` is called. So these handlers require valid
  indices, and the total `Step` leaves the deck unchanged for such indices.
- `arrayMove` comes from the `@dnd-kit/sortable` package, which is not part of
  this model. It is ASSUMED to take out the element at `from` and insert it at
  `to`. `Sequences.ArrayMove` marks this assumption. The guard in `onDragEnd`
  (no drop target, or the same slide) is modelled exactly.
- The viewer's deck comes from a static data file. It is a parameter here: the
  slide count `count`, or the deck itself, with `count >= 1` where the index
  invariant needs it.
- A cover image is present only when `image` is a non-empty string, because
  the source tests it for JavaScript truthiness.

## Model

| member | source | states |
|---|---|---|
| SlideData.EmptyBlock | src/SlideEditor.tsx:199 | a new block of tag t has t as its tag, an empty string in `src` for an image and in `text` otherwise, no other field, and is well formed |
| SlideEditor.UpdateTitle | src/SlideEditor.tsx:177-181 | only slide i's title changes, to v; its image and blocks, the other slides and the length stay the same; well-formedness is kept |
| SlideEditor.UpdateTitleLastWins | src/SlideEditor.tsx:177-181 | of two title edits to one slide, the later one decides the result |
| SlideEditor.UpdateTitleWithSameTitle | src/SlideEditor.tsx:177-181 | writing a slide's own title back leaves the deck unchanged |
| SlideEditor.AddSlide | src/SlideEditor.tsx:183-188 | the deck grows by exactly one; the existing slides are a prefix of the result; the new last slide is titled "New Slide", has no image and holds one paragraph block with empty text |
| SlideEditor.RemoveSlide | src/SlideEditor.tsx:190-194 | for i in range the length drops by one, slides before i stay and slides after i shift left by one; a negative i removes the slide at count + i, or the first slide when that is below 0; past the end nothing changes; no slide is invented |
| SlideEditor.RemoveSlideUndoesAddSlide | src/SlideEditor.tsx:183-194 | removing the slide just appended gives back the deck |
| SlideEditor.AddBlock | src/SlideEditor.tsx:196-202 | slide i gets one more block at its end, of tag t, with `src` "" for an image and `text` "" otherwise; its old blocks, title and image and every other slide are unchanged |
| SlideEditor.RemoveBlockUndoesAddBlock | src/SlideEditor.tsx:196-216 | removing the block just added to slide i gives back the deck |
| SlideEditor.UpdateBlock | src/SlideEditor.tsx:204-210 | on an image block `src` becomes v and `text` stays; on any other tag `text` becomes v and `src` stays; the tag, the other blocks, the slide's title and image and the other slides are unchanged |
| SlideEditor.UpdateBlockSetsContent | src/SlideEditor.tsx:206-208 | after the edit the field the tag selects holds v and the other field is what it was |
| SlideEditor.UpdateBlockLastWins | src/SlideEditor.tsx:204-210 | of two edits to one block, the later one decides the result |
| SlideEditor.UpdateBlockWithSameContent | src/SlideEditor.tsx:204-210 | writing a block's present content back leaves the deck unchanged |
| SlideEditor.RemoveBlock | src/SlideEditor.tsx:212-216 | for j in range block j of slide i goes and later blocks shift left; a negative j removes the block at count + j, or the first block when that is below 0; past the end nothing changes; no block is invented; the slide's title and image and all other slides are unchanged |
| SlideEditor.RemoveBlockPreservesWellFormed | src/SlideEditor.tsx:212-216 | removing a block keeps every remaining block's single content field matching its tag |
| SlideEditor.DragEnd | src/SlideEditor.tsx:218-223 | with no drop target or the same slide as target the deck is unchanged; otherwise the length and the multiset of slides are kept, the dragged slide lands at the target index, the slides between source and target shift one place toward the source, and all others stay put |
| SlideEditor.DragEndPreservesWellFormed | src/SlideEditor.tsx:218-223 | a drag keeps every block's single content field matching its tag |
| SlideEditor.DragEndUndo | src/SlideEditor.tsx:218-223 | dragging the slide back from the target to the source index restores the deck |
| SlideEditor.DragEndSwapsTwoSlides | src/SlideEditor.tsx:218-223 | in a two-slide deck, dropping the first slide on the second swaps them |
| SlideEditor.Step | src/SlideEditor.tsx:177-223 | a title edit, block addition or block edit whose slide or block index is out of range, or a block removal on an out-of-range slide, leaves the deck unchanged, as the handler throws before saving (slide and block removal with an out-of-range position instead follow `splice`); so does a drop with no target or on itself; each interaction changes the slide count by at most one, only adding a slide grows it and only removing one shrinks it |
| SlideEditor.StepPreservesWellFormed | src/SlideEditor.tsx:186-216 | every editor interaction keeps each block's single content field matching its tag |
| SlideEditor.RunPreservesWellFormed | src/SlideEditor.tsx:174-223 | a whole editing session keeps each block's single content field matching its tag |
| Sequences.SpliceOne | src/SlideEditor.tsx:192 | the one-element splice removes the element at the normalised start (negative counts back from the end) and removes nothing past the end |
| Sequences.ArrayMove | src/SlideEditor.tsx:222 | under the stated assumption: the length and multiset are kept, the moved element lands at `to`, and the elements between shift by one toward the vacated place |
| Sequences.ArrayMoveInverse | src/SlideEditor.tsx:222 | moving back from `to` to `from` undoes a move |
| Presentation.NextSlide | src/GSOCPresentation.tsx:20-22 | the index goes up by one exactly when it is below count - 1, otherwise the state is unchanged; the theme never changes |
| Presentation.PrevSlide | src/GSOCPresentation.tsx:24-26 | the index goes down by one exactly when it is above 0, otherwise the state is unchanged; the theme never changes |
| Presentation.ToggleDarkMode | src/GSOCPresentation.tsx:28 | the theme flips and the slide index stays |
| Presentation.ToggleTwiceIsIdentity | src/GSOCPresentation.tsx:28 | toggling the theme twice gives back the same state |
| Presentation.HandleSlideChange | src/GSOCPresentation.tsx:30-32 | picking a selector option moves to that index, keeps the theme and yields a valid state |
| Presentation.OptionValues | src/GSOCPresentation.tsx:129-133 | the selector has one option per slide, and option k carries the value k |
| Presentation.OptionValuesAreIndices | src/GSOCPresentation.tsx:129-133 | the selector offers exactly the indices 0 to count - 1 |
| Presentation.ReplayPreservesValid | src/GSOCPresentation.tsx:20-32 | from a valid state, any sequence of next, prev, option jumps and toggles keeps 0 <= currentSlide < count |
| Presentation.ReachableStatesAreValid | src/GSOCPresentation.tsx:17-32 | for count >= 1 the initial state (0, dark) is valid, so every state reached from it is |
| Presentation.ReplayDarkMode | src/GSOCPresentation.tsx:18-28 | after any sequence of controls the theme is the starting one flipped iff the number of toggles is odd; navigation never changes it |
| Presentation.PrevAfterNext | src/GSOCPresentation.tsx:20-26 | next then prev returns to the starting index whenever it is below count - 1 |
| Presentation.NextAfterPrev | src/GSOCPresentation.tsx:20-26 | prev then next returns to the starting index whenever it is above 0 |
| Presentation.PrevDisabled | src/GSOCPresentation.tsx:110 | for a non-negative index, the previous button is disabled exactly when pressing it would leave the state unchanged |
| Presentation.NextDisabled | src/GSOCPresentation.tsx:138 | for an index up to the last slide, the next button is disabled exactly when pressing it would leave the state unchanged |
| Presentation.CounterNumber | src/GSOCPresentation.tsx:65 | in a valid state the counter number lies in [1, count], and it equals count exactly when the next button is disabled |
| Presentation.ShowsCover | src/GSOCPresentation.tsx:96-102 | the cover image shows iff the index is 0 and the first slide has a non-empty image |
| Presentation.NextHidesCover | src/GSOCPresentation.tsx:20-22 | in a deck of two or more slides the cover image is never shown after pressing next |
| Presentation.RenderBlocks | src/GSOCPresentation.tsx:86-93 | one list item per block in order; an item has the bullet marker iff its block is a bullet, and shows the block's text when it has one |

## Left out

- JSX rendering, CSS class strings, icons and the editor's per-tag glyphs
  (src/SlideEditor.tsx:47-55): presentation only, with no behaviour to state.
- The dnd-kit machinery (`DndContext`, `closestCenter`, `useSortable`, CSS
  transforms): pointer and collision handling inside a library that is not
  part of this model. Only `arrayMove` is kept, as the assumption above. Drag
  ids are the current indices, so `Step` treats out-of-range ids as no drop.
- Loading the deck from `slideData.json` and the `JSON.stringify` preview:
  external data and library serialisation. The deck is a parameter.
- The editor's aliasing of old slide objects, as described above.
- `parseInt` on the selector's string value: the option values are the
  indices, so a jump is modelled as picking an index from `OptionValues`.
- Out-of-range `currentSlide` in the viewer: the model states that the UI never
  produces one, rather than what rendering `slides[currentSlide]` would do.
- src/App.tsx: routing, the development-only editor route and analytics. This
  is framework wiring with no logic.
- Move-up/move-down buttons and JSON round-tripping: not present in this
  version of the editor.
