/** Concrete runs of the location checks and of the two services, each on a
    store of its own, following the repository's own test cases. */
module Scenarios {
  import opened Errors
  import opened Text
  import opened Entities
  import opened Locations
  import opened Dtos
  import opened Repository
  import opened DocumentServices
  import opened CommentServices

  // ---------------------------------------------------------------------------
  // Location variants on concrete documents
  // ---------------------------------------------------------------------------

  /** A composite over the start of the text, its first paragraph and a word
      that occurs in it is constructed and accepted. */
  lemma CompositeExampleIsValid()
    ensures CheckInit(Composite(0, 4, 0, "content")) == Pass
    ensures Validate(Composite(0, 4, 0, "content"), Some(DocView("This is a test document content", []))) == Pass
  {
    assert !IsWhitespace("content"[0]);
    ContainsIgnoreCaseAt("This is a test document content", "content", 24);
  }

  /** A block id that one of the document's blocks carries is accepted. */
  lemma BlockExampleIsValid()
    ensures Validate(BlockId("fig-3a"),
                     Some(DocView("Content", [Block("fig-3a", "figure", "Diagram showing architecture.")]))) == Pass
  {
    assert Block("fig-3a", "figure", "Diagram showing architecture.")
        in [Block("fig-3a", "figure", "Diagram showing architecture.")];
  }

  /** A range that starts past a short text is reported by its start. */
  lemma RangePastShortTextIsRejected()
    ensures Validate(CharRange(100, 105), Some(DocView("Short", [])))
         == Fail(InvalidCommentLocation(StartBeyondLength(100)))
  {
  }

  /** An anchor that does not occur in the text is rejected. */
  lemma MissingAnchorIsRejected()
    ensures Validate(Anchor("nonexistent text"), Some(DocView("This is a test document", [])))
         == Fail(InvalidCommentLocation(AnchorNotFound("nonexistent text")))
  {
    FirstCharacterAbsent("This is a test document", "nonexistent text");
  }

  /** Two single-line paragraphs joined by a blank line make exactly two
      paragraphs. */
  lemma {:induction false} TwoSingleLineParagraphs(first: string, second: string)
    requires '\n' !in first && '\n' !in second
    ensures ParagraphCount(first + ParagraphSeparator + second) == 2
  {
    SplitAtFirstDelimiter(first, ParagraphSeparator, second);
    SplitWithoutDelimiter(second, ParagraphSeparator);
  }

  /** The text of the paragraph test has two paragraphs. */
  lemma TwoParagraphs()
    ensures ParagraphCount("Paragraph one.\n\nParagraph two.") == 2
  {
    assert "Paragraph one.\n\nParagraph two." == "Paragraph one." + ParagraphSeparator + "Paragraph two.";
    TwoSingleLineParagraphs("Paragraph one.", "Paragraph two.");
  }

  /** The flat checks accept a range, the first paragraph and a word of the text
      given together. */
  lemma CombinedLocationPassesFlatChecks()
    ensures ValidateFlat(CommentLocationDto(Some(5), Some(7), Some(0), Some("is"), None), "This is a test document") == Pass
  {
    ContainsIgnoreCaseAt("This is a test document", "is", 2);
  }

  // ---------------------------------------------------------------------------
  // Documents
  // ---------------------------------------------------------------------------

  /** A created document reads back exactly as the creation reported it, at
      version 0 and without comments. */
  method CreateThenGet(title: string, content: string, now: int)
    returns (created: DocumentResponseDto, fetched: Result<DocumentResponseDto>)
    ensures created.title == title && created.content == content
    ensures created.version == 0 && created.commentCount == 0
    ensures created.createdAt == now && created.updatedAt == now
    ensures fetched == Success(created)
  {
    var store := new Store();
    var documents := new DocumentService(store);
    created := documents.CreateDocument(DocumentCreateDto(title, content), now);
    fetched := documents.GetDocumentById(created.id);
  }

  /** An update that names a version the document does not have is rejected
      with both versions, as often as it is repeated, and the document stays
      as it was. */
  method StaleUpdateIsRejected(now: int)
    returns (first: Result<DocumentResponseDto>, second: Result<DocumentResponseDto>,
             created: DocumentResponseDto, fetched: Result<DocumentResponseDto>)
    ensures first == second == Failure(OptimisticLocking(VersionMismatch(1, 0)))
    ensures fetched == Success(created)
  {
    var store := new Store();
    var documents := new DocumentService(store);
    created := documents.CreateDocument(DocumentCreateDto("Doc", "Content"), now);
    var stale := DocumentUpdateDto(Some("Changed"), None, 1);
    first := documents.UpdateDocument(created.id, stale, now + 1);
    second := documents.UpdateDocument(created.id, stale, now + 2);
    fetched := documents.GetDocumentById(created.id);
  }

  /** An update against the current version succeeds and reports the version
      it was read at; the store has moved on, so repeating the same request is
      a conflict naming the stale and the stored version. A lost race on the
      first save leaves the version where it was, and the repeat is then
      accepted or lost again. */
  method RepeatedUpdateConflicts(now: int)
    returns (first: Result<DocumentResponseDto>, second: Result<DocumentResponseDto>)
    ensures first.Success? ==> first.value.version == 0 && first.value.title == "New"
    ensures first.Success? ==> second == Failure(OptimisticLocking(VersionMismatch(0, 1)))
    ensures first.Failure? ==> first == Failure(OptimisticLocking(ConcurrentModification))
  {
    var store := new Store();
    var documents := new DocumentService(store);
    var doc := documents.CreateDocument(DocumentCreateDto("Old", "Content"), now);
    var update := DocumentUpdateDto(Some("New"), None, 0);
    first := documents.UpdateDocument(doc.id, update, now + 1);
    second := documents.UpdateDocument(doc.id, update, now + 2);
  }

  /** Three partial updates, each against the version read just before it:
      when no save loses a race, the title is the last one given, the content
      the one given in between, and the version has advanced three times. */
  method SequentialPartialUpdates(now: int)
    returns (u1: Result<DocumentResponseDto>, u2: Result<DocumentResponseDto>,
             u3: Result<DocumentResponseDto>, latest: Result<DocumentResponseDto>)
    ensures u1.Success? && u2.Success? && u3.Success? ==>
      && latest.Success?
      && latest.value.title == "Third"
      && latest.value.content == "Second"
      && latest.value.version == 3
    ensures u3.Success? ==> latest.Success? && latest.value.title == "Third"
  {
    var store := new Store();
    var documents := new DocumentService(store);
    var doc := documents.CreateDocument(DocumentCreateDto("Seq Test", "Original"), now);
    u1 := documents.UpdateDocument(doc.id, DocumentUpdateDto(Some("First"), None, doc.version), now + 1);
    var fresh1 := documents.GetDocumentById(doc.id);
    u2 := documents.UpdateDocument(doc.id, DocumentUpdateDto(None, Some("Second"), fresh1.value.version), now + 2);
    var fresh2 := documents.GetDocumentById(doc.id);
    u3 := documents.UpdateDocument(doc.id, DocumentUpdateDto(Some("Third"), None, fresh2.value.version), now + 3);
    latest := documents.GetDocumentById(doc.id);
  }

  // ---------------------------------------------------------------------------
  // Comments
  // ---------------------------------------------------------------------------

  /** A comment on the second paragraph of a text that has one, such as
      `"Paragraph one.\n\nParagraph two."` (`TwoParagraphs`), is saved, keeps
      its location and is the document's only comment. */
  method CommentOnSecondParagraph(title: string, content: string, now: int)
    returns (saved: Result<CommentResponseDto>, listed: Result<seq<CommentResponseDto>>)
    requires ParagraphCount(content) >= 2
    ensures saved.Success? && saved.value.location.paragraphIndex == Some(1)
    ensures listed == Success([saved.value])
  {
    var store := new Store();
    var documents := new DocumentService(store);
    var comments := new CommentService(store);
    var doc := documents.CreateDocument(DocumentCreateDto(title, content), now);
    var location := CommentLocationDto(None, None, Some(1), None, None);
    saved := comments.CreateComment(doc.id, CommentCreateDto("Paragraph comment", "Tester", location), now + 1);
    ghost var stored := store.comments[0];
    assert store.comments == [] + [stored];
    CommentsOfAppend([], stored, doc.id);
    LocationRoundTrip(location);
    listed := comments.GetCommentsByDocumentId(doc.id);
    assert ToResponseDto(stored) == saved;
    assert listed.value == [listed.value[0]];
  }

  /** A comment whose anchor does not occur in the text, as "nonexistent
      text" does not occur in "This is a test document"
      (`MissingAnchorIsRejected`), is refused, and nothing is saved. */
  method MissingAnchorSavesNothing(content: string, anchor: string, now: int)
    returns (saved: Result<CommentResponseDto>, listed: Result<seq<CommentResponseDto>>)
    requires !ContainsIgnoreCase(content, anchor)
    ensures saved == Failure(InvalidCommentLocation(AnchorNotFound(anchor)))
    ensures listed == Success([])
  {
    var store := new Store();
    var documents := new DocumentService(store);
    var comments := new CommentService(store);
    var doc := documents.CreateDocument(DocumentCreateDto("Test Doc", content), now);
    var location := CommentLocationDto(None, None, None, Some(anchor), None);
    saved := comments.CreateComment(doc.id, CommentCreateDto("Test comment", "Test Author", location), now + 1);
    listed := comments.GetCommentsByDocumentId(doc.id);
  }

  /** A range, the first paragraph and an anchor given together, on a text
      that is long enough and holds the anchor, as "This is a test document"
      holds "is" (`CombinedLocationPassesFlatChecks`), are all checked and the
      comment is saved with all three. */
  method CombinedLocationIsSaved(content: string, now: int) returns (saved: Result<CommentResponseDto>)
    requires |content| > 7 && ContainsIgnoreCase(content, "is")
    ensures saved.Success?
    ensures saved.value.location == CommentLocationDto(Some(5), Some(7), Some(0), Some("is"), None)
  {
    var store := new Store();
    var documents := new DocumentService(store);
    var comments := new CommentService(store);
    var doc := documents.CreateDocument(DocumentCreateDto("Doc", content), now);
    var location := CommentLocationDto(Some(5), Some(7), Some(0), Some("is"), None);
    saved := comments.CreateComment(doc.id, CommentCreateDto("Combined location comment", "Tester", location), now + 1);
  }

  /** Commenting on a document that does not exist fails and saves nothing. */
  method CommentOnMissingDocument(now: int) returns (saved: Result<CommentResponseDto>)
    ensures saved == Failure(DocumentNotFound(7))
  {
    var store := new Store();
    var comments := new CommentService(store);
    var location := CommentLocationDto(Some(0), Some(4), None, None, None);
    saved := comments.CreateComment(7, CommentCreateDto("Test comment", "Test Author", location), now);
  }

  /** The first paragraph is a location every text passes. */
  lemma FirstParagraphFits(content: string)
    ensures ValidateFlat(CommentLocationDto(None, None, Some(0), None, None), content) == Pass
  {
  }

  /** A fresh store holding two documents and no comment. */
  method TwoDocuments(firstText: string, secondText: string, now: int)
    returns (store: Store, documents: DocumentService, comments: CommentService, first: DocId, second: DocId)
    ensures fresh(store) && store.Valid()
    ensures documents.store == store && comments.store == store
    ensures first in store.documents && second in store.documents && first != second
    ensures store.comments == []
  {
    store := new Store();
    documents := new DocumentService(store);
    comments := new CommentService(store);
    var a := documents.CreateDocument(DocumentCreateDto("Doomed", firstText), now);
    var b := documents.CreateDocument(DocumentCreateDto("Other", secondText), now);
    first, second := a.id, b.id;
  }

  /** Two documents with one comment each, on the first paragraph: the
      comment "Drop" on the first document and "Keep" on the second. */
  method TwoCommentedDocuments(doomedText: string, otherText: string, now: int)
    returns (store: Store, documents: DocumentService, comments: CommentService, doomed: DocId, other: DocId)
    ensures fresh(store) && store.Valid()
    ensures documents.store == store && comments.store == store
    ensures doomed in store.documents && other in store.documents && doomed != other
    ensures LocationsReadable(store.comments)
    ensures |CommentsOf(store.comments, other)| == 1
    ensures CommentsOf(store.comments, other)[0].comment == "Keep"
  {
    store, documents, comments, doomed, other := TwoDocuments(doomedText, otherText, now);
    var location := CommentLocationDto(None, None, Some(0), None, None);
    LocationRoundTrip(location);
    FirstParagraphFits(store.documents[doomed].content);
    FirstParagraphFits(store.documents[other].content);
    var c1 := comments.CreateComment(doomed, CommentCreateDto("Drop", "Tester", location), now + 1);
    var c2 := comments.CreateComment(other, CommentCreateDto("Keep", "Tester", location), now + 2);
    ghost var dropped, keeper := store.comments[0], store.comments[1];
    assert store.comments == [dropped] + [keeper];
    CommentsOfAppend([], dropped, other);
    CommentsOfAppend([dropped], keeper, other);
  }

  /** Deleting a document takes its comments with it and leaves another
      document's comments in place. */
  method DeleteTakesCommentsAlong(doomedText: string, otherText: string, now: int)
    returns (deleted: Outcome, gone: Result<seq<CommentResponseDto>>, kept: Result<seq<CommentResponseDto>>)
    ensures deleted == Pass
    ensures gone.Failure? && gone.error.DocumentNotFound?
    ensures kept.Success? && |kept.value| == 1 && kept.value[0].content == "Keep"
  {
    var store, documents, comments, doomed, other := TwoCommentedDocuments(doomedText, otherText, now);
    ghost var keeper := CommentsOf(store.comments, other)[0];
    assert CommentsOf(store.comments, other) == [keeper];
    ghost var before := store.comments;
    deleted := documents.DeleteDocument(doomed);
    DeleteKeepsLocationsReadable(before, doomed);
    gone := comments.GetCommentsByDocumentId(doomed);
    kept := comments.GetCommentsByDocumentId(other);
  }
}
