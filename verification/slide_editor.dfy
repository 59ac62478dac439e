/**
 The drag-and-drop slide editor's state transitions. Each handler of the
 editor is a pure function from the current deck to the next one (value
 semantics: the editor's shallow copy and in-place mutation of the old slide
 objects is not modelled, and nothing is said about the old deck).
 */
module SlideEditor {
  import opened SlideData
  import opened Sequences

  /** Title of a slide created by `AddSlide`. */
  const NewSlideTitle: string := "New Slide"

  /** `updateTitle(i, v)`: slide `i` gets title `v`; nothing else changes. */
  function UpdateTitle(slides: seq<Slide>, i: nat, v: string): (r: seq<Slide>)
    requires i < |slides|
    ensures |r| == |slides|
    ensures r[i].title == v
    ensures r[i].image == slides[i].image && r[i].blocks == slides[i].blocks
    ensures forall k :: 0 <= k < |slides| && k != i ==> r[k] == slides[k]
    ensures WellFormedDeck(slides) ==> WellFormedDeck(r)
  {
    slides[i := slides[i].(title := v)]
  }

  /** `addSlide()`: appends a titled slide holding one empty paragraph. */
  function AddSlide(slides: seq<Slide>): (r: seq<Slide>)
    ensures |r| == |slides| + 1
    ensures r[..|slides|] == slides
    ensures r[|slides|].title == NewSlideTitle
    ensures r[|slides|].image.None?
    ensures r[|slides|].blocks == [Block(Paragraph, Some(""), None)]
    ensures WellFormedDeck(slides) ==> WellFormedDeck(r)
  {
    slides + [Slide(NewSlideTitle, None, [EmptyBlock(Paragraph)])]
  }

  /**
   `removeSlide(i)`: `splice(i, 1)` on the deck. For an index in range, slide
   `i` is removed and later slides shift left; a negative index counts back
   from the end (clamped to the first slide); past the end nothing happens.
   */
  function RemoveSlide(slides: seq<Slide>, i: int): (r: seq<Slide>)
    ensures 0 <= i < |slides| ==>
              && |r| == |slides| - 1
              && (forall k :: 0 <= k < i ==> r[k] == slides[k])
              && (forall k :: i <= k < |r| ==> r[k] == slides[k + 1])
    ensures i >= |slides| ==> r == slides
    ensures i < 0 && 0 <= |slides| + i ==> r == RemoveAt(slides, |slides| + i)
    ensures 0 < |slides| && |slides| + i < 0 ==> r == RemoveAt(slides, 0)
    ensures |r| == |slides| || |r| == |slides| - 1
    ensures multiset(r) <= multiset(slides)
    ensures WellFormedDeck(slides) ==> WellFormedDeck(r)
  {
    SpliceOne(slides, i)
  }

  /**
   `addBlock(i, t)`: appends to slide `i` an empty block of kind `t`, with
   `src: ""` for an image and `text: ""` otherwise.
   */
  function AddBlock(slides: seq<Slide>, i: nat, t: BlockKind): (r: seq<Slide>)
    requires i < |slides|
    ensures |r| == |slides|
    ensures forall k :: 0 <= k < |slides| && k != i ==> r[k] == slides[k]
    ensures r[i].title == slides[i].title && r[i].image == slides[i].image
    ensures |r[i].blocks| == |slides[i].blocks| + 1
    ensures r[i].blocks[..|slides[i].blocks|] == slides[i].blocks
    ensures var b := r[i].blocks[|slides[i].blocks|];
            && b.kind == t
            && (t == Image ==> b.src == Some("") && b.text.None?)
            && (t != Image ==> b.text == Some("") && b.src.None?)
    ensures WellFormedDeck(slides) ==> WellFormedDeck(r)
  {
    slides[i := slides[i].(blocks := slides[i].blocks + [EmptyBlock(t)])]
  }

  /**
   `updateBlock(i, j, v)`: block `j` of slide `i` gets content `v` in the field
   its tag selects (`src` for an image, `text` otherwise); the other field,
   the tag, the other blocks and the other slides are left as they were.
   */
  function UpdateBlock(slides: seq<Slide>, i: nat, j: nat, v: string): (r: seq<Slide>)
    requires i < |slides| && j < |slides[i].blocks|
    ensures |r| == |slides|
    ensures forall k :: 0 <= k < |slides| && k != i ==> r[k] == slides[k]
    ensures r[i].title == slides[i].title && r[i].image == slides[i].image
    ensures |r[i].blocks| == |slides[i].blocks|
    ensures forall k :: 0 <= k < |slides[i].blocks| && k != j ==> r[i].blocks[k] == slides[i].blocks[k]
    ensures var old_b, b := slides[i].blocks[j], r[i].blocks[j];
            && b.kind == old_b.kind
            && (old_b.kind == Image ==> b.src == Some(v) && b.text == old_b.text)
            && (old_b.kind != Image ==> b.text == Some(v) && b.src == old_b.src)
    ensures WellFormedDeck(slides) ==> WellFormedDeck(r)
  {
    var b := slides[i].blocks[j];
    var b' := if b.kind == Image then b.(src := Some(v)) else b.(text := Some(v));
    slides[i := slides[i].(blocks := slides[i].blocks[j := b'])]
  }

  /**
   `removeBlock(i, j)`: `splice(j, 1)` on the blocks of slide `i`. For `j` in
   range, block `j` is removed and later blocks shift left; a negative `j`
   counts back from the end (clamped to the first block); past the end
   nothing happens.
   */
  function RemoveBlock(slides: seq<Slide>, i: nat, j: int): (r: seq<Slide>)
    requires i < |slides|
    ensures |r| == |slides|
    ensures forall k :: 0 <= k < |slides| && k != i ==> r[k] == slides[k]
    ensures r[i].title == slides[i].title && r[i].image == slides[i].image
    ensures 0 <= j < |slides[i].blocks| ==>
              var old_bs, bs := slides[i].blocks, r[i].blocks;
              && |bs| == |old_bs| - 1
              && (forall k :: 0 <= k < j ==> bs[k] == old_bs[k])
              && (forall k :: j <= k < |bs| ==> bs[k] == old_bs[k + 1])
    ensures j >= |slides[i].blocks| ==> r == slides
    ensures var old_bs := slides[i].blocks;
            j < 0 && 0 <= |old_bs| + j ==> r[i].blocks == RemoveAt(old_bs, |old_bs| + j)
    ensures var old_bs := slides[i].blocks;
            0 < |old_bs| && |old_bs| + j < 0 ==> r[i].blocks == RemoveAt(old_bs, 0)
    ensures multiset(r[i].blocks) <= multiset(slides[i].blocks)
  {
    slides[i := slides[i].(blocks := SpliceOne(slides[i].blocks, j))]
  }

  /** Removing a block leaves only blocks of the well-formed deck behind. */
  lemma RemoveBlockPreservesWellFormed(slides: seq<Slide>, i: nat, j: int)
    requires i < |slides|
    requires WellFormedDeck(slides)
    ensures WellFormedDeck(RemoveBlock(slides, i, j))
  {
    var bs := SpliceOne(slides[i].blocks, j);
    WellFormedBlocksFrom(slides[i], bs);
    WellFormedDeckUpdate(slides, i, slides[i].(blocks := bs));
  }

  /**
   `onDragEnd`: the slide dragged from index `active` is dropped over index
   `over`, or over nothing. Dropping over nothing or over itself changes
   nothing; otherwise the slide is moved with `ArrayMove` (an assumed model
   of the library's reorder): it lands at `over`, the slides between the two
   positions shift one place toward `active`, and the rest stay put.
   */
  function DragEnd(slides: seq<Slide>, active: nat, over: Option<nat>): (r: seq<Slide>)
    requires active < |slides|
    requires over.Some? ==> over.value < |slides|
    ensures over.None? || over.value == active ==> r == slides
    ensures |r| == |slides|
    ensures multiset(r) == multiset(slides)
    ensures over.Some? ==> r[over.value] == slides[active]
    ensures over.Some? && active < over.value ==>
              && (forall k :: 0 <= k < active ==> r[k] == slides[k])
              && (forall k :: active <= k < over.value ==> r[k] == slides[k + 1])
              && (forall k :: over.value < k < |slides| ==> r[k] == slides[k])
    ensures over.Some? && over.value < active ==>
              && (forall k :: 0 <= k < over.value ==> r[k] == slides[k])
              && (forall k :: over.value < k <= active ==> r[k] == slides[k - 1])
              && (forall k :: active < k < |slides| ==> r[k] == slides[k])
  {
    if over.None? || active == over.value then
      slides
    else
      ArrayMove(slides, active, over.value)
  }

  /** A drag only rearranges the slides, so it keeps a well-formed deck well formed. */
  lemma DragEndPreservesWellFormed(slides: seq<Slide>, active: nat, over: Option<nat>)
    requires active < |slides|
    requires over.Some? ==> over.value < |slides|
    requires WellFormedDeck(slides)
    ensures WellFormedDeck(DragEnd(slides, active, over))
  {
    WellFormedDeckPermuted(slides, DragEnd(slides, active, over));
  }

  /** One user interaction with the editor, with the indices the UI passes. */
  datatype Edit =
    | SetTitle(i: int, v: string)
    | NewSlide
    | DeleteSlide(i: int)
    | NewBlock(i: int, t: BlockKind)
    | SetBlock(i: int, j: int, v: string)
    | DeleteBlock(i: int, j: int)
    | Drop(active: int, over: Option<int>)

  /**
   The deck after one interaction. For an out-of-range `i`, `copy[i]` is
   `undefined` and reading `.title` or `.blocks` from it throws; so does
   reading `.type` from an out-of-range `blocks[j]`. Either way the handler
   stops before it calls `setSlides`, and the deck stays as it was. Drag ids
   are always current indices; out-of-range ids cannot arise and are treated
   as no drop.
   */
  function Step(slides: seq<Slide>, e: Edit): (r: seq<Slide>)
    ensures e.SetTitle? && !(0 <= e.i < |slides|) ==> r == slides
    ensures e.NewBlock? && !(0 <= e.i < |slides|) ==> r == slides
    ensures e.SetBlock? && !(0 <= e.i < |slides| && 0 <= e.j < |slides[e.i].blocks|) ==> r == slides
    ensures e.DeleteBlock? && !(0 <= e.i < |slides|) ==> r == slides
    ensures e.Drop? && (e.over.None? || e.over.value == e.active) ==> r == slides
    ensures |slides| - 1 <= |r| <= |slides| + 1
    ensures |r| > |slides| <==> e.NewSlide?
    ensures |r| < |slides| ==> e.DeleteSlide?
  {
    match e
    case SetTitle(i, v) =>
      if 0 <= i < |slides| then UpdateTitle(slides, i, v) else slides
    case NewSlide => AddSlide(slides)
    case DeleteSlide(i) => RemoveSlide(slides, i)
    case NewBlock(i, t) =>
      if 0 <= i < |slides| then AddBlock(slides, i, t) else slides
    case SetBlock(i, j, v) =>
      if 0 <= i < |slides| && 0 <= j < |slides[i].blocks| then UpdateBlock(slides, i, j, v) else slides
    case DeleteBlock(i, j) =>
      if 0 <= i < |slides| then RemoveBlock(slides, i, j) else slides
    case Drop(active, over) =>
      if 0 <= active < |slides| && (over.Some? ==> 0 <= over.value < |slides|) then
        DragEnd(slides, active, if over.Some? then Some(over.value as nat) else None)
      else
        slides
  }

  /** The deck after a whole session of interactions, in order. */
  function Run(slides: seq<Slide>, edits: seq<Edit>): seq<Slide>
    decreases |edits|
  {
    if |edits| == 0 then slides else Run(Step(slides, edits[0]), edits[1..])
  }

  /** Every interaction keeps "exactly one content field, matching the tag". */
  lemma StepPreservesWellFormed(slides: seq<Slide>, e: Edit)
    requires WellFormedDeck(slides)
    ensures WellFormedDeck(Step(slides, e))
  {
    match e
    case DeleteBlock(i, j) =>
      if 0 <= i < |slides| {
        RemoveBlockPreservesWellFormed(slides, i, j);
      }
    case Drop(active, over) =>
      if 0 <= active < |slides| && (over.Some? ==> 0 <= over.value < |slides|) {
        DragEndPreservesWellFormed(slides, active, if over.Some? then Some(over.value as nat) else None);
      }
    case _ =>
  }

  /** A whole editing session keeps every block well formed. */
  lemma {:induction false} RunPreservesWellFormed(slides: seq<Slide>, edits: seq<Edit>)
    requires WellFormedDeck(slides)
    ensures WellFormedDeck(Run(slides, edits))
    decreases |edits|
  {
    if |edits| > 0 {
      StepPreservesWellFormed(slides, edits[0]);
      RunPreservesWellFormed(Step(slides, edits[0]), edits[1..]);
    }
  }

  /** Removing the slide just added restores the deck. */
  lemma RemoveSlideUndoesAddSlide(slides: seq<Slide>)
    ensures RemoveSlide(AddSlide(slides), |slides|) == slides
  {
    assert AddSlide(slides) == InsertAt(slides, |slides|, AddSlide(slides)[|slides|]);
    RemoveAtInsertAt(slides, |slides|, AddSlide(slides)[|slides|]);
  }

  /** Removing the block just added to slide `i` restores the deck. */
  lemma RemoveBlockUndoesAddBlock(slides: seq<Slide>, i: nat, t: BlockKind)
    requires i < |slides|
    ensures RemoveBlock(AddBlock(slides, i, t), i, |slides[i].blocks|) == slides
  {
    var r := RemoveBlock(AddBlock(slides, i, t), i, |slides[i].blocks|);
    assert r[i].blocks == slides[i].blocks;
    assert r[i] == slides[i];
  }

  /** Writing slide `i`'s own title back changes nothing. */
  lemma UpdateTitleWithSameTitle(slides: seq<Slide>, i: nat)
    requires i < |slides|
    ensures UpdateTitle(slides, i, slides[i].title) == slides
  {
  }

  /** Of two title edits to the same slide, the later one wins. */
  lemma UpdateTitleLastWins(slides: seq<Slide>, i: nat, v: string, w: string)
    requires i < |slides|
    ensures UpdateTitle(UpdateTitle(slides, i, v), i, w) == UpdateTitle(slides, i, w)
  {
  }

  /** Writing a block's present content back changes nothing. */
  lemma UpdateBlockWithSameContent(slides: seq<Slide>, i: nat, j: nat)
    requires i < |slides| && j < |slides[i].blocks|
    requires Content(slides[i].blocks[j]).Some?
    ensures UpdateBlock(slides, i, j, Content(slides[i].blocks[j]).value) == slides
  {
    var r := UpdateBlock(slides, i, j, Content(slides[i].blocks[j]).value);
    assert r[i].blocks == slides[i].blocks;
  }

  /** Of two content edits to the same block, the later one wins. */
  lemma UpdateBlockLastWins(slides: seq<Slide>, i: nat, j: nat, v: string, w: string)
    requires i < |slides| && j < |slides[i].blocks|
    ensures UpdateBlock(UpdateBlock(slides, i, j, v), i, j, w) == UpdateBlock(slides, i, j, w)
  {
    var twice, once := UpdateBlock(UpdateBlock(slides, i, j, v), i, j, w), UpdateBlock(slides, i, j, w);
    assert twice[i].blocks[j] == once[i].blocks[j];
    assert twice[i].blocks == once[i].blocks;
    assert twice[i] == once[i];
  }

  /** After an edit, the block's selected content is the value typed. */
  lemma UpdateBlockSetsContent(slides: seq<Slide>, i: nat, j: nat, v: string)
    requires i < |slides| && j < |slides[i].blocks|
    ensures Content(UpdateBlock(slides, i, j, v)[i].blocks[j]) == Some(v)
    ensures OtherField(UpdateBlock(slides, i, j, v)[i].blocks[j]) == OtherField(slides[i].blocks[j])
  {
  }

  /** Dragging the slide back from where it was dropped undoes the drag. */
  lemma DragEndUndo(slides: seq<Slide>, active: nat, over: nat)
    requires active < |slides| && over < |slides|
    ensures DragEnd(DragEnd(slides, active, Some(over)), over, Some(active)) == slides
  {
    if active != over {
      ArrayMoveInverse(slides, active, over);
    }
  }

  /** With two slides, dropping the first over the second swaps them. */
  lemma DragEndSwapsTwoSlides(a: Slide, b: Slide)
    ensures DragEnd([a, b], 0, Some(1)) == [b, a]
  {
  }
}
