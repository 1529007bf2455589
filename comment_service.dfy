/** The comment service: list a document's comments and add a comment after
    checking its flat location against the document's text. */
module CommentServices {
  import opened Errors
  import opened Text
  import opened Entities
  import opened Locations
  import opened Dtos
  import opened Repository

  // ---------------------------------------------------------------------------
  // Mapping between the request location and the stored location
  // ---------------------------------------------------------------------------

  /** `toEntity`: the stored location takes the request's five fields. */
  function ToEntity(d: CommentLocationDto): (e: CommentLocation) {
    CommentLocation(d.startChar, d.endChar, d.paragraphIndex, d.anchorText, d.lineNumber)
  }

  /** `toDto`: the response location takes the stored five fields; building it
      runs its `init` checks, so a stored location without a reference fails. */
  function ToDto(e: CommentLocation): (r: Result<CommentLocationDto>)
    ensures r.Success? ==> ToEntity(r.value) == e
    ensures r.Failure? ==> r.error.IllegalArgument?
  {
    var d := CommentLocationDto(e.startChar, e.endChar, e.paragraphIndex, e.anchorText, e.lineNumber);
    match CheckLocationDtoInit(d)
    case Pass => Success(d)
    case Fail(err) => Failure(err)
  }

  /** Every request location comes back unchanged after storing and reading. */
  lemma LocationRoundTrip(d: CommentLocationDto)
    requires CheckLocationDtoInit(d).Pass?
    ensures ToDto(ToEntity(d)) == Success(d)
  {
  }

  /** Reading a stored location fails exactly when it could not have been
      built as a request location. */
  lemma ReadableIffConstructible(e: CommentLocation)
    ensures ToDto(e).Success? <==> exists d :: CheckLocationDtoInit(d).Pass? && ToEntity(d) == e
  {
    var d := CommentLocationDto(e.startChar, e.endChar, e.paragraphIndex, e.anchorText, e.lineNumber);
    assert ToEntity(d) == e;
  }

  /** The all-absent stored location, which nothing stops from existing, has no
      response form. */
  lemma EmptyLocationIsUnreadable()
    ensures ToDto(NoLocation) == Failure(IllegalArgument(NoLocationReference))
  {
  }

  /** The request's declared bounds carry over to the stored location, except
      that only the stored anchor text is limited in length. */
  lemma ToEntityKeepsBounds(d: CommentLocationDto)
    ensures CommentLocationConstraints(ToEntity(d)) <==>
      LocationDtoBounds(d) && (d.anchorText.Some? ==> |d.anchorText.value| <= MaxAnchorLength)
  {
  }

  /** An anchor of 501 characters meets every check on the request and still
      does not fit the stored column. */
  lemma LongAnchorExceedsColumn()
    ensures var d := CommentLocationDto(None, None, None, Some(seq(MaxAnchorLength + 1, _ => 'a')), None);
      && CheckLocationDtoInit(d).Pass?
      && LocationDtoBounds(d)
      && !CommentLocationConstraints(ToEntity(d))
  {
  }

  // ---------------------------------------------------------------------------
  // validateCommentLocation
  // ---------------------------------------------------------------------------

  /** `validateCommentLocation`: each field that is present is checked against
      the content, in the order start, end, paragraph, anchor, line, and the
      first failure is reported. A present field passes when the start and end
      are offsets into the content, the paragraph index is below the number of
      blank-line separated pieces, the content contains the anchor up to case,
      and the line number is at most the number of lines. */
  function ValidateFlat(d: CommentLocationDto, content: string): (r: Outcome)
    ensures r.Pass? <==>
      && (d.startChar.Some? ==> d.startChar.value < |content|)
      && (d.endChar.Some? ==> d.endChar.value < |content|)
      && (d.paragraphIndex.Some? ==> d.paragraphIndex.value < ParagraphCount(content))
      && (d.anchorText.Some? ==> ContainsIgnoreCase(content, d.anchorText.value))
      && (d.lineNumber.Some? ==> d.lineNumber.value <= multiset(content)['\n'] + 1)
    ensures r.Fail? ==> r.error.InvalidCommentLocation?
  {
    if d.startChar.Some? && d.startChar.value >= |content| then
      Fail(InvalidCommentLocation(StartBeyondLength(d.startChar.value)))
    else if d.endChar.Some? && d.endChar.value >= |content| then
      Fail(InvalidCommentLocation(EndBeyondLength(d.endChar.value)))
    else if d.paragraphIndex.Some? && d.paragraphIndex.value >= ParagraphCount(content) then
      Fail(InvalidCommentLocation(ParagraphBeyondCount(d.paragraphIndex.value, ParagraphCount(content))))
    else if d.anchorText.Some? && !ContainsIgnoreCase(content, d.anchorText.value) then
      Fail(InvalidCommentLocation(AnchorNotFound(d.anchorText.value)))
    else if d.lineNumber.Some? && d.lineNumber.value > LineCount(content) then
      Fail(InvalidCommentLocation(LineBeyondCount(d.lineNumber.value, LineCount(content))))
    else Pass
  }

  /** The checks run one field at a time in the order start, end, paragraph,
      anchor, line, and the first field that fails decides the outcome. */
  lemma FlatChecksFieldsInOrder(d: CommentLocationDto, content: string)
    ensures ValidateFlat(d, content)
      == Then(Then(Then(Then(
           ValidateFlat(CommentLocationDto(d.startChar, None, None, None, None), content),
           ValidateFlat(CommentLocationDto(None, d.endChar, None, None, None), content)),
           ValidateFlat(CommentLocationDto(None, None, d.paragraphIndex, None, None), content)),
           ValidateFlat(CommentLocationDto(None, None, None, d.anchorText, None), content)),
           ValidateFlat(CommentLocationDto(None, None, None, None, d.lineNumber), content))
  {
  }

  /** A flat range agrees with the character-range variant, error included. */
  lemma FlatRangeAgreesWithCharRange(s: int, e: int, d: DocView)
    ensures ValidateFlat(CommentLocationDto(Some(s), Some(e), None, None, None), d.content)
         == Validate(CharRange(s, e), Some(d))
  {
  }

  /** A flat paragraph index agrees with the paragraph variant. */
  lemma FlatParagraphAgreesWithParagraph(index: int, d: DocView)
    ensures ValidateFlat(CommentLocationDto(None, None, Some(index), None, None), d.content)
         == Validate(Paragraph(index), Some(d))
  {
  }

  /** A flat anchor agrees with the anchor variant. */
  lemma FlatAnchorAgreesWithAnchor(text: string, d: DocView)
    ensures ValidateFlat(CommentLocationDto(None, None, None, Some(text), None), d.content)
         == Validate(Anchor(text), Some(d))
  {
  }

  /** A flat line number agrees with the line variant. */
  lemma FlatLineAgreesWithLine(line: int, d: DocView)
    ensures ValidateFlat(CommentLocationDto(None, None, None, None, Some(line)), d.content)
         == Validate(Line(line), Some(d))
  {
  }

  /** Range, paragraph and anchor together agree with the composite variant:
      the same checks in the same order, so the same first failure. */
  lemma FlatAgreesWithComposite(s: int, e: int, index: int, text: string, d: DocView)
    ensures ValidateFlat(CommentLocationDto(Some(s), Some(e), Some(index), Some(text), None), d.content)
         == Validate(Composite(s, e, index, text), Some(d))
  {
  }

  /** The flat checks, unlike the variants' construction, accept a negative
      offset or paragraph index: only the upper bounds are checked. */
  lemma FlatChecksOnlyUpperBounds(content: string)
    requires content != []
    ensures ValidateFlat(CommentLocationDto(Some(-1), None, Some(-1), None, None), content) == Pass
  {
  }

  // ---------------------------------------------------------------------------
  // Responses
  // ---------------------------------------------------------------------------

  /** `toResponseDto` of a saved comment: the response carries the comment's
      id, text, author, time and document, and a location that stores back as
      the comment's own; it fails, as an argument error, exactly when the
      stored location cannot be read. */
  function ToResponseDto(c: StoredComment): (r: Result<CommentResponseDto>)
    requires c.id.Some?
    ensures r.Success? <==> ToDto(c.location).Success?
    ensures r.Success? ==>
      && ToEntity(r.value.location) == c.location
      && r.value.id == c.id.value
      && r.value.content == c.comment
      && r.value.author == c.author
      && r.value.createdAt == c.createdAt
      && r.value.documentId == c.documentId
    ensures r.Failure? ==> r.error.IllegalArgument?
  {
    match ToDto(c.location)
    case Failure(err) => Failure(err)
    case Success(loc) => Success(CommentResponseDto(c.id.value, c.comment, c.author, loc, c.createdAt, c.documentId))
  }

  /** Every stored location can be read back. */
  ghost predicate LocationsReadable(cs: seq<StoredComment>) {
    forall c :: c in cs ==> ToDto(c.location).Success?
  }

  /** `comments.map { it.toResponseDto() }`: one response per comment, in
      order, or the failure of the first comment whose location cannot be
      read. */
  function ToResponseDtos(cs: seq<StoredComment>): (r: Result<seq<CommentResponseDto>>)
    requires forall c :: c in cs ==> c.id.Some?
    ensures r.Success? <==> LocationsReadable(cs)
    ensures r.Success? ==> |r.value| == |cs|
    ensures r.Success? ==> forall i :: 0 <= i < |cs| ==> ToResponseDto(cs[i]) == Success(r.value[i])
    ensures r.Failure? ==> r.error.IllegalArgument?
  {
    if cs == [] then Success([])
    else
      match ToResponseDto(cs[0])
      case Failure(err) => Failure(err)
      case Success(head) =>
        match ToResponseDtos(cs[1..])
        case Failure(err) => Failure(err)
        case Success(tail) => Success([head] + tail)
  }

  /** Deleting a document keeps the remaining locations readable. */
  lemma DeleteKeepsLocationsReadable(cs: seq<StoredComment>, id: DocId)
    requires LocationsReadable(cs)
    ensures LocationsReadable(WithoutDocument(cs, id))
  {
  }

  // ---------------------------------------------------------------------------
  // The service
  // ---------------------------------------------------------------------------

  class CommentService {
    const store: Store

    constructor (store: Store)
      ensures this.store == store
    {
      this.store := store;
    }

    /** `getCommentsByDocumentId`: a missing document fails; otherwise the
        responses for that document's comments, in stored order. */
    method GetCommentsByDocumentId(documentId: DocId) returns (r: Result<seq<CommentResponseDto>>)
      requires store.Valid()
      ensures documentId !in store.documents ==> r == Failure(DocumentNotFound(documentId))
      ensures documentId in store.documents ==> r == ToResponseDtos(CommentsOf(store.comments, documentId))
      ensures documentId in store.documents && LocationsReadable(store.comments) ==>
        r.Success? && |r.value| == |CommentsOf(store.comments, documentId)|
      ensures r.Success? ==> forall i, j :: 0 <= i < j < |r.value| ==> r.value[i].createdAt <= r.value[j].createdAt
    {
      var found := store.ExistsDocument(documentId);
      if !found {
        return Failure(DocumentNotFound(documentId));
      }
      var cs := store.FindCommentsByDocument(documentId);
      r := ToResponseDtos(cs);
    }

    /** `createComment`. A missing document fails before any check; a location
        that does not fit the document's content fails before anything is
        saved; otherwise the comment is appended with a fresh id and the
        response repeats the request's location exactly. The request location
        exists only if its own construction checks passed. */
    method CreateComment(documentId: DocId, dto: CommentCreateDto, now: int) returns (r: Result<CommentResponseDto>)
      requires store.Valid() && store.NotBefore(now)
      requires CheckLocationDtoInit(dto.location).Pass?
      modifies store
      ensures store.Valid()
      ensures store.documents == old(store.documents)
      ensures LocationsReadable(old(store.comments)) ==> LocationsReadable(store.comments)
      ensures documentId !in store.documents ==>
        r == Failure(DocumentNotFound(documentId)) && store.comments == old(store.comments)
      ensures documentId in store.documents && ValidateFlat(dto.location, store.documents[documentId].content).Fail? ==>
        && r == Failure(ValidateFlat(dto.location, store.documents[documentId].content).error)
        && store.comments == old(store.comments)
      ensures documentId in store.documents && ValidateFlat(dto.location, store.documents[documentId].content).Pass? ==>
        && r == Success(CommentResponseDto(old(store.nextCommentId), dto.content, dto.author, dto.location, now, documentId))
        && store.comments == old(store.comments)
             + [Comment(Some(old(store.nextCommentId)), dto.content, dto.author, ToEntity(dto.location), now, documentId)]
    {
      var d := store.FindDocument(documentId);
      if d == null {
        return Failure(DocumentNotFound(documentId));
      }
      var verdict := ValidateFlat(dto.location, d.content);
      if verdict.Fail? {
        return Failure(verdict.error);
      }
      var comment := Comment(None, dto.content, dto.author, ToEntity(dto.location), now, documentId);
      var saved := store.SaveComment(comment);
      LocationRoundTrip(dto.location);
      r := ToResponseDto(saved);
    }
  }
}
