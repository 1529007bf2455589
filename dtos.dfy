/** The request and response records of the two services, and the field
    constraints declared on them. */
module Dtos {
  import opened Errors
  import opened Text
  import opened Entities

  // ---------------------------------------------------------------------------
  // Comments
  // ---------------------------------------------------------------------------

  /** The flat location of a comment request: any of five optional references. */
  datatype CommentLocationDto = CommentLocationDto(
    startChar: Option<int>,
    endChar: Option<int>,
    paragraphIndex: Option<int>,
    anchorText: Option<string>,
    lineNumber: Option<int>)

  /** The `init` block of the flat location: some reference other than the end
      character must be given, and a start and end given together must be in
      order. A location exists only when this passes. */
  function CheckLocationDtoInit(d: CommentLocationDto): (r: Outcome)
    ensures r.Pass? <==>
      && (d.startChar.Some? || d.paragraphIndex.Some? || d.anchorText.Some? || d.lineNumber.Some?)
      && (d.startChar.Some? && d.endChar.Some? ==> d.startChar.value <= d.endChar.value)
    ensures r.Fail? ==> r.error.IllegalArgument?
  {
    if d.startChar.None? && d.paragraphIndex.None? && d.anchorText.None? && d.lineNumber.None? then
      Fail(IllegalArgument(NoLocationReference))
    else if d.startChar.Some? && d.endChar.Some? && d.startChar.value > d.endChar.value then
      Fail(IllegalArgument(StartAfterEnd))
    else Pass
  }

  /** The end character alone is not a location reference. */
  lemma EndCharAloneIsRejected(e: int)
    ensures CheckLocationDtoInit(CommentLocationDto(None, Some(e), None, None, None))
         == Fail(IllegalArgument(NoLocationReference))
  {
  }

  /** The order of start and end is checked only when both are given. */
  lemma RangeOrderNeedsBothEnds(s: int, e: int)
    ensures CheckLocationDtoInit(CommentLocationDto(Some(s), None, None, None, None)) == Pass
    ensures CheckLocationDtoInit(CommentLocationDto(Some(s), Some(e), None, None, None)).Pass? <==> s <= e
  {
  }

  /** The `@Min` bounds declared on the flat location's fields. */
  predicate LocationDtoBounds(d: CommentLocationDto) {
    && (d.startChar.Some? ==> d.startChar.value >= 0)
    && (d.endChar.Some? ==> d.endChar.value >= 0)
    && (d.paragraphIndex.Some? ==> d.paragraphIndex.value >= 0)
    && (d.lineNumber.Some? ==> d.lineNumber.value >= 1)
  }

  datatype CommentCreateDto = CommentCreateDto(content: string, author: string, location: CommentLocationDto)

  /** The declared constraints of a comment request: non-blank content,
      non-blank author of at most 100 characters, and a location within its
      bounds (the location is validated in cascade). */
  predicate CommentCreateDtoConstraints(dto: CommentCreateDto) {
    && !IsBlank(dto.content)
    && !IsBlank(dto.author)
    && |dto.author| <= MaxAuthorLength
    && LocationDtoBounds(dto.location)
  }

  datatype CommentResponseDto = CommentResponseDto(
    id: nat,
    content: string,
    author: string,
    location: CommentLocationDto,
    createdAt: int,
    documentId: DocId)

  // ---------------------------------------------------------------------------
  // Documents
  // ---------------------------------------------------------------------------

  datatype DocumentCreateDto = DocumentCreateDto(title: string, content: string)

  /** A new document needs a non-blank title of at most 255 characters and a
      non-blank content. */
  predicate DocumentCreateDtoConstraints(dto: DocumentCreateDto) {
    !IsBlank(dto.title) && |dto.title| <= MaxTitleLength && !IsBlank(dto.content)
  }

  /** A partial update: an absent title or content keeps the stored one. The
      version the caller last read is mandatory. */
  datatype DocumentUpdateDto = DocumentUpdateDto(title: Option<string>, content: Option<string>, version: int)

  /** A title, when given, has at most 255 characters; the version is not
      negative. Nothing keeps the title or content from being blank. */
  predicate DocumentUpdateDtoConstraints(dto: DocumentUpdateDto) {
    (dto.title.Some? ==> |dto.title.value| <= MaxTitleLength) && dto.version >= 0
  }

  datatype DocumentResponseDto = DocumentResponseDto(
    id: DocId,
    title: string,
    content: string,
    createdAt: int,
    updatedAt: int,
    commentCount: nat,
    version: int)
}
