/**
 The shared data shape of the slide deck: a slide has a title, an optional
 cover image and an ordered list of content blocks; a block is tagged with one
 of five kinds and carries its content in `text`, or in `src` for images.
 */
module SlideData {

  datatype Option<T> = None | Some(value: T)

  /** The five block tags. */
  datatype BlockKind = Paragraph | Bullet | Image | Code | Quote

  /**
   A content block. Both content fields are optional, as in the data files;
   which one is meant is decided by the tag (see `Content`).
   */
  datatype Block = Block(kind: BlockKind, text: Option<string>, src: Option<string>)

  datatype Slide = Slide(title: string, image: Option<string>, blocks: seq<Block>)

  /** The content field the tag selects: `src` for images, `text` for the rest. */
  function Content(b: Block): Option<string>
  {
    if b.kind == Image then b.src else b.text
  }

  /** The content field the tag does not select. */
  function OtherField(b: Block): Option<string>
  {
    if b.kind == Image then b.text else b.src
  }

  /** Exactly one content field is present, and it is the one the tag selects. */
  predicate WellFormedBlock(b: Block)
  {
    Content(b).Some? && OtherField(b).None?
  }

  predicate WellFormedSlide(s: Slide)
  {
    forall k :: 0 <= k < |s.blocks| ==> WellFormedBlock(s.blocks[k])
  }

  predicate WellFormedDeck(slides: seq<Slide>)
  {
    forall i :: 0 <= i < |slides| ==> WellFormedSlide(slides[i])
  }

  /** Replacing one slide of a well-formed deck by a well-formed slide keeps the deck well formed. */
  lemma WellFormedDeckUpdate(slides: seq<Slide>, i: nat, s: Slide)
    requires i < |slides|
    requires WellFormedDeck(slides) && WellFormedSlide(s)
    ensures WellFormedDeck(slides[i := s])
  {
  }

  /** A slide whose blocks are all drawn from a well-formed slide is well formed. */
  lemma WellFormedBlocksFrom(s: Slide, bs: seq<Block>)
    requires WellFormedSlide(s)
    requires forall k :: 0 <= k < |bs| ==> bs[k] in s.blocks
    ensures WellFormedSlide(s.(blocks := bs))
  {
  }

  /** A rearrangement of a well-formed deck is well formed. */
  lemma WellFormedDeckPermuted(slides: seq<Slide>, r: seq<Slide>)
    requires WellFormedDeck(slides)
    requires multiset(r) == multiset(slides)
    ensures WellFormedDeck(r)
  {
    forall k | 0 <= k < |r|
      ensures WellFormedSlide(r[k])
    {
      assert r[k] in multiset(slides);
    }
  }

  /** The block the editor creates for tag `t`: an empty string in the selected field. */
  function EmptyBlock(t: BlockKind): (b: Block)
    ensures b.kind == t
    ensures Content(b) == Some("")
    ensures WellFormedBlock(b)
    ensures t == Image <==> b.src.Some?
    ensures t != Image <==> b.text.Some?
  {
    if t == Image then Block(t, None, Some("")) else Block(t, Some(""), None)
  }
}
