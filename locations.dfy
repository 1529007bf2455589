/** The closed set of comment-location variants. Each variant checks its own
    fields when it is constructed (`CheckInit`) and checks itself against a
    document, when there is one (`Validate`). */
module Locations {
  import opened Errors
  import opened Text
  import opened Entities

  datatype Location =
    | Anchor(anchorText: string)
    | Paragraph(paragraphIndex: int)
    | Line(lineNumber: int)
    | CharRange(startChar: int, endChar: int)
    | BlockId(blockId: string)
    | Composite(startChar: int, endChar: int, paragraphIndex: int, anchorText: string)

  // ---------------------------------------------------------------------------
  // The discriminator written into the serialised form
  // ---------------------------------------------------------------------------

  /** The name of the property that carries the variant's tag. */
  const TypeProperty: string := "type"

  datatype Kind = AnchorKind | ParagraphKind | LineKind | CharRangeKind | BlockKind | CompositeKind

  function KindOf(loc: Location): Kind {
    match loc
    case Anchor(_) => AnchorKind
    case Paragraph(_) => ParagraphKind
    case Line(_) => LineKind
    case CharRange(_, _) => CharRangeKind
    case BlockId(_) => BlockKind
    case Composite(_, _, _, _) => CompositeKind
  }

  /** The tag each variant is written with. */
  function TagName(kind: Kind): string {
    match kind
    case AnchorKind => "anchor"
    case ParagraphKind => "paragraph"
    case LineKind => "line"
    case CharRangeKind => "charRange"
    case BlockKind => "block"
    case CompositeKind => "composite"
  }

  /** Reading a tag back: the variant written with it, if any. */
  function KindForTag(tag: string): (r: Option<Kind>)
    ensures r.Some? ==> TagName(r.value) == tag
    ensures r.None? ==> forall kind :: TagName(kind) != tag
  {
    if tag == "anchor" then Some(AnchorKind)
    else if tag == "paragraph" then Some(ParagraphKind)
    else if tag == "line" then Some(LineKind)
    else if tag == "charRange" then Some(CharRangeKind)
    else if tag == "block" then Some(BlockKind)
    else if tag == "composite" then Some(CompositeKind)
    else None
  }

  /** No two variants share a tag. */
  lemma TagNamesDistinct(k1: Kind, k2: Kind)
    ensures TagName(k1) == TagName(k2) ==> k1 == k2
  {
  }

  /** Reading back the tag a variant was written with gives that variant. */
  lemma {:induction false} TagRoundTrip(kind: Kind)
    ensures KindForTag(TagName(kind)) == Some(kind)
  {
    var r := KindForTag(TagName(kind));
    assert r.Some?;
    TagNamesDistinct(r.value, kind);
  }

  // ---------------------------------------------------------------------------
  // Construction
  // ---------------------------------------------------------------------------

  /** The structural invariant of each variant, needing no document. */
  predicate WellFormed(loc: Location) {
    match loc
    case Anchor(text) => !IsBlank(text)
    case Paragraph(index) => index >= 0
    case Line(line) => line > 0
    case CharRange(s, e) => s <= e
    case BlockId(id) => !IsBlank(id)
    case Composite(s, e, index, text) => s <= e && index >= 0 && !IsBlank(text)
  }

  /** The `init` blocks: the first `require` that fails, in declaration order,
      as the `IllegalArgumentException` it throws. */
  function CheckInit(loc: Location): (r: Outcome)
    ensures r.Pass? <==> WellFormed(loc)
    ensures r.Fail? ==> r.error.IllegalArgument?
  {
    match loc
    case Anchor(text) =>
      if IsBlank(text) then Fail(IllegalArgument(BlankAnchor)) else Pass
    case Paragraph(index) =>
      if index < 0 then Fail(IllegalArgument(NegativeParagraph)) else Pass
    case Line(line) =>
      if line <= 0 then Fail(IllegalArgument(NonPositiveLine)) else Pass
    case CharRange(s, e) =>
      if s > e then Fail(IllegalArgument(StartAfterEnd)) else Pass
    case BlockId(id) =>
      if IsBlank(id) then Fail(IllegalArgument(BlankBlockId)) else Pass
    case Composite(s, e, index, text) =>
      if s > e then Fail(IllegalArgument(StartAfterEnd))
      else if index < 0 then Fail(IllegalArgument(NegativeParagraph))
      else if IsBlank(text) then Fail(IllegalArgument(BlankAnchor))
      else Pass
  }

  /** A composite is constructed exactly when its character range, its paragraph
      and its anchor would be, and the first of those that fails is reported. */
  lemma CompositeInitIsOrderedConjunction(s: int, e: int, index: int, text: string)
    ensures CheckInit(Composite(s, e, index, text))
         == Then(Then(CheckInit(CharRange(s, e)), CheckInit(Paragraph(index))), CheckInit(Anchor(text)))
  {
  }

  /** The `@Min` bounds declared on the fields, enforced by bean validation and
      not by `init`: character offsets and the paragraph index are non-negative,
      the line number is at least 1. The composite declares none. */
  predicate DeclaredBounds(loc: Location) {
    match loc
    case Paragraph(index) => index >= 0
    case Line(line) => line >= 1
    case CharRange(s, e) => s >= 0 && e >= 0
    case _ => true
  }

  // ---------------------------------------------------------------------------
  // Validation against a document
  // ---------------------------------------------------------------------------

  const ParagraphSeparator: string := "\n\n"
  const LineSeparator: string := "\n"

  /** `content.split("\n\n").size`. */
  function ParagraphCount(content: string): (n: nat)
    ensures n >= 1
  {
    SplitCount(content, ParagraphSeparator)
  }

  /** `content.split("\n").size`: one more than the number of newlines. */
  function LineCount(content: string): (n: nat)
    ensures n == multiset(content)['\n'] + 1
  {
    SplitCountOnChar(content, '\n');
    SplitCount(content, LineSeparator)
  }

  /** Both ends must be offsets into the content, the start checked first. */
  function ValidateCharRange(startChar: int, endChar: int, doc: Option<DocView>): (r: Outcome)
    ensures doc.None? ==> r == Pass
    ensures doc.Some? ==> (r.Pass? <==> startChar < |doc.value.content| && endChar < |doc.value.content|)
    ensures r.Fail? ==> r.error.InvalidCommentLocation?
  {
    match doc
    case None => Pass
    case Some(d) =>
      if startChar >= |d.content| then Fail(InvalidCommentLocation(StartBeyondLength(startChar)))
      else if endChar >= |d.content| then Fail(InvalidCommentLocation(EndBeyondLength(endChar)))
      else Pass
  }

  /** The index must name one of the blank-line separated paragraphs. */
  function ValidateParagraph(index: int, doc: Option<DocView>): (r: Outcome)
    ensures doc.None? ==> r == Pass
    ensures doc.Some? && index <= 0 ==> r == Pass
    ensures r.Fail? ==> r.error.InvalidCommentLocation?
  {
    match doc
    case None => Pass
    case Some(d) =>
      var count := ParagraphCount(d.content);
      if index >= count then Fail(InvalidCommentLocation(ParagraphBeyondCount(index, count)))
      else Pass
  }

  /** The line number must not pass the last line. */
  function ValidateLine(lineNumber: int, doc: Option<DocView>): (r: Outcome)
    ensures doc.None? ==> r == Pass
    ensures doc.Some? ==> (r.Pass? <==> lineNumber <= multiset(doc.value.content)['\n'] + 1)
    ensures doc.Some? && r.Fail? ==>
      r == Fail(InvalidCommentLocation(LineBeyondCount(lineNumber, multiset(doc.value.content)['\n'] + 1)))
    ensures r.Fail? ==> r.error.InvalidCommentLocation?
  {
    match doc
    case None => Pass
    case Some(d) =>
      var count := LineCount(d.content);
      if lineNumber > count then Fail(InvalidCommentLocation(LineBeyondCount(lineNumber, count)))
      else Pass
  }

  /** The content must contain the anchor text, ignoring case. */
  function ValidateAnchor(anchorText: string, doc: Option<DocView>): (r: Outcome)
    ensures doc.None? ==> r == Pass
    ensures doc.Some? ==> (r.Pass? <==> Contains(Lowercase(doc.value.content), Lowercase(anchorText)))
    ensures r.Fail? ==> r == Fail(InvalidCommentLocation(AnchorNotFound(anchorText)))
  {
    match doc
    case None => Pass
    case Some(d) =>
      ContainsIgnoreCaseIsLowercaseContains(d.content, anchorText);
      if !ContainsIgnoreCase(d.content, anchorText) then Fail(InvalidCommentLocation(AnchorNotFound(anchorText)))
      else Pass
  }

  /** `blocks.any { it.id == blockId }`. */
  function AnyBlockHasId(blocks: seq<Block>, blockId: string): (found: bool)
    ensures found <==> exists b :: b in blocks && b.id == blockId
  {
    if blocks == [] then false
    else blocks[0].id == blockId || AnyBlockHasId(blocks[1..], blockId)
  }

  /** Some block must carry exactly this id. A missing block fails a `require`,
      so it is reported as an illegal argument, not as an invalid location. */
  function ValidateBlockId(blockId: string, doc: Option<DocView>): (r: Outcome)
    ensures doc.None? ==> r == Pass
    ensures doc.Some? ==> (r.Pass? <==> exists b :: b in doc.value.blocks && b.id == blockId)
    ensures r.Fail? ==> r == Fail(IllegalArgument(BlockNotFound(blockId)))
  {
    match doc
    case None => Pass
    case Some(d) =>
      if !AnyBlockHasId(d.blocks, blockId) then Fail(IllegalArgument(BlockNotFound(blockId)))
      else Pass
  }

  /** The composite's four guards, in the order start, end, paragraph, anchor:
      exactly the character-range, paragraph and anchor checks run one after
      the other, stopping at the first failure. */
  function ValidateComposite(startChar: int, endChar: int, index: int, anchorText: string, doc: Option<DocView>): (r: Outcome)
    ensures r == Then(Then(ValidateCharRange(startChar, endChar, doc), ValidateParagraph(index, doc)),
                      ValidateAnchor(anchorText, doc))
  {
    match doc
    case None => Pass
    case Some(d) =>
      if startChar >= |d.content| then Fail(InvalidCommentLocation(StartBeyondLength(startChar)))
      else if endChar >= |d.content| then Fail(InvalidCommentLocation(EndBeyondLength(endChar)))
      else if index >= ParagraphCount(d.content) then
        Fail(InvalidCommentLocation(ParagraphBeyondCount(index, ParagraphCount(d.content))))
      else if !ContainsIgnoreCase(d.content, anchorText) then
        Fail(InvalidCommentLocation(AnchorNotFound(anchorText)))
      else Pass
  }

  /** `validate(document)`: each variant's own check; with no document, nothing
      is checked. */
  function Validate(loc: Location, doc: Option<DocView>): (r: Outcome)
    ensures doc.None? ==> r == Pass
    ensures r.Fail? ==> (r.error.InvalidCommentLocation? <==> !loc.BlockId?)
  {
    match loc
    case Anchor(text) => ValidateAnchor(text, doc)
    case Paragraph(index) => ValidateParagraph(index, doc)
    case Line(line) => ValidateLine(line, doc)
    case CharRange(s, e) => ValidateCharRange(s, e, doc)
    case BlockId(id) => ValidateBlockId(id, doc)
    case Composite(s, e, index, text) => ValidateComposite(s, e, index, text, doc)
  }

  // ---------------------------------------------------------------------------
  // Properties of the checks
  // ---------------------------------------------------------------------------

  /** For a constructed range, only the end decides: the start is at most the end. */
  lemma CharRangeValidIffEndInBounds(s: int, e: int, d: DocView)
    requires WellFormed(CharRange(s, e))
    ensures Validate(CharRange(s, e), Some(d)).Pass? <==> e < |d.content|
  {
  }

  /** Within the declared bounds, no range fits an empty content. */
  lemma CharRangeRejectsEmptyContent(s: int, e: int, blocks: seq<Block>)
    requires WellFormed(CharRange(s, e)) && DeclaredBounds(CharRange(s, e))
    ensures Validate(CharRange(s, e), Some(DocView([], blocks))).Fail?
  {
  }

  /** The offsets are exclusive of the length: a start at the length is out,
      and it is the start that is reported when both ends are out. */
  lemma CharRangeReportsStartFirst(s: int, e: int, d: DocView)
    requires s >= |d.content|
    ensures Validate(CharRange(s, e), Some(d)) == Fail(InvalidCommentLocation(StartBeyondLength(s)))
  {
  }

  /** The end is reported only once the start fits. */
  lemma CharRangeReportsEnd(s: int, e: int, d: DocView)
    requires s < |d.content| <= e
    ensures Validate(CharRange(s, e), Some(d)) == Fail(InvalidCommentLocation(EndBeyondLength(e)))
  {
  }

  /** A paragraph index passes exactly when it is below the paragraph count;
      a failure reports the index and that count. */
  lemma ParagraphValidIffBelowCount(index: int, d: DocView)
    ensures Validate(Paragraph(index), Some(d)).Pass? <==> index < ParagraphCount(d.content)
    ensures Validate(Paragraph(index), Some(d)).Fail? ==>
      Validate(Paragraph(index), Some(d))
        == Fail(InvalidCommentLocation(ParagraphBeyondCount(index, ParagraphCount(d.content))))
  {
  }

  /** The first paragraph exists in every document, even an empty one. */
  lemma FirstParagraphAlwaysValid(d: DocView)
    ensures Validate(Paragraph(0), Some(d)) == Pass
  {
  }

  /** Valid paragraph indices are downward closed. */
  lemma ParagraphValidDownwardClosed(i: int, j: int, d: DocView)
    requires 0 <= j <= i
    requires Validate(Paragraph(i), Some(d)).Pass?
    ensures Validate(Paragraph(j), Some(d)).Pass?
  {
  }

  /** A content that holds a blank-line separator has a second paragraph. */
  lemma SecondParagraphWhenSeparated(d: DocView, at: nat)
    requires at + 2 <= |d.content| && d.content[at..at + 2] == ParagraphSeparator
    ensures Validate(Paragraph(1), Some(d)) == Pass
  {
    SplitAtOccurrence(d.content, ParagraphSeparator, at);
  }

  /** The last line is accepted and the one after it is not; a failure reports
      the line number and the line count. */
  lemma LastLineIsValid(d: DocView)
    ensures Validate(Line(LineCount(d.content)), Some(d)) == Pass
    ensures Validate(Line(LineCount(d.content) + 1), Some(d))
         == Fail(InvalidCommentLocation(LineBeyondCount(LineCount(d.content) + 1, LineCount(d.content))))
  {
  }

  /** Line 1 exists in every document. */
  lemma FirstLineAlwaysValid(d: DocView)
    ensures Validate(Line(1), Some(d)) == Pass
  {
  }

  /** Changing the letter case of the anchor or of the content does not change
      whether an anchor is found. */
  lemma AnchorValidationIsCaseBlind(text: string, text': string, content: string, content': string, blocks: seq<Block>)
    requires Lowercase(text) == Lowercase(text') && Lowercase(content) == Lowercase(content')
    ensures Validate(Anchor(text), Some(DocView(content, blocks))).Pass?
        == Validate(Anchor(text'), Some(DocView(content', blocks))).Pass?
  {
    ContainsIgnoreCaseIsCaseBlind(content, content', text, text');
  }

  /** A block id is matched exactly: a block whose id differs only in case is
      not found. */
  lemma BlockIdIsCaseSensitive(content: string)
    ensures Validate(BlockId("FIG-3A"), Some(DocView(content, [Block("fig-3a", "figure", "")])))
         == Fail(IllegalArgument(BlockNotFound("FIG-3A")))
  {
    var blocks := [Block("fig-3a", "figure", "")];
    assert forall b :: b in blocks ==> b.id == "fig-3a";
    assert "fig-3a" != "FIG-3A" by { assert "fig-3a"[0] != "FIG-3A"[0]; }
  }

  /** A composite passes exactly when its character range, its paragraph and its
      anchor each pass on their own. */
  lemma CompositeIsConjunction(s: int, e: int, index: int, text: string, doc: Option<DocView>)
    ensures Validate(Composite(s, e, index, text), doc).Pass?
        <==> && Validate(CharRange(s, e), doc).Pass?
             && Validate(Paragraph(index), doc).Pass?
             && Validate(Anchor(text), doc).Pass?
  {
  }
}
