/** The document service: read one document, create one, update one under
    optimistic locking, and delete one with its comments. */
module DocumentServices {
  import opened Errors
  import opened Text
  import opened Entities
  import opened Dtos
  import opened Repository

  // ---------------------------------------------------------------------------
  // The partial update
  // ---------------------------------------------------------------------------

  /** The update applied to a stored row: the title is replaced exactly when
      one is given, the content likewise, and nothing else changes. */
  function ApplyUpdate(row: DocumentRow, dto: DocumentUpdateDto): (r: DocumentRow)
    ensures r.(title := row.title, content := row.content) == row
    ensures dto.title.Some? ==> r.title == dto.title.value
    ensures dto.title.None? ==> r.title == row.title
    ensures dto.content.Some? ==> r.content == dto.content.value
    ensures dto.content.None? ==> r.content == row.content
  {
    var titled := if dto.title.Some? then row.(title := dto.title.value) else row;
    if dto.content.Some? then titled.(content := dto.content.value) else titled
  }

  /** One update that has the effect of `first` followed by `second`: the
      later request's fields win wherever it gives them. */
  function Merge(first: DocumentUpdateDto, second: DocumentUpdateDto): DocumentUpdateDto {
    DocumentUpdateDto(
      if second.title.Some? then second.title else first.title,
      if second.content.Some? then second.content else first.content,
      second.version)
  }

  /** Sequential partial updates compose field by field. */
  lemma UpdatesCompose(row: DocumentRow, first: DocumentUpdateDto, second: DocumentUpdateDto)
    ensures ApplyUpdate(ApplyUpdate(row, first), second) == ApplyUpdate(row, Merge(first, second))
  {
  }

  /** Applying the same update twice is applying it once. */
  lemma UpdateIsIdempotent(row: DocumentRow, dto: DocumentUpdateDto)
    ensures ApplyUpdate(ApplyUpdate(row, dto), dto) == ApplyUpdate(row, dto)
  {
  }

  /** An update that gives neither field leaves the row as it was. */
  lemma EmptyUpdateKeepsRow(row: DocumentRow, version: int)
    ensures ApplyUpdate(row, DocumentUpdateDto(None, None, version)) == row
  {
  }

  /** A document that meets its constraints still does after an update whose
      given fields are non-blank and whose title fits. */
  lemma UpdateKeepsConstraints(row: DocumentRow, dto: DocumentUpdateDto)
    requires DocumentConstraints(row.title, row.content)
    requires DocumentUpdateDtoConstraints(dto)
    requires dto.title.Some? ==> !IsBlank(dto.title.value)
    requires dto.content.Some? ==> !IsBlank(dto.content.value)
    ensures DocumentConstraints(ApplyUpdate(row, dto).title, ApplyUpdate(row, dto).content)
  {
  }

  /** The update request's own constraints do not forbid a blank title, which
      the document's constraints do forbid. */
  lemma BlankTitleUpdateBreaksConstraints(row: DocumentRow)
    ensures DocumentUpdateDtoConstraints(DocumentUpdateDto(Some(""), None, 0))
    ensures !DocumentConstraints(ApplyUpdate(row, DocumentUpdateDto(Some(""), None, 0)).title, row.content)
  {
  }

  /** `toResponseDto`: the response for the row stored under `id`, with the
      number of comments the document owns. */
  function RowResponse(id: DocId, row: DocumentRow, commentCount: nat): DocumentResponseDto {
    DocumentResponseDto(id, row.title, row.content, row.createdAt, row.updatedAt, commentCount, row.version)
  }

  /** A document the store has never held owns no comment. */
  lemma {:induction false} UnknownDocumentHasNoComments(cs: seq<StoredComment>, documents: map<DocId, DocumentRow>, id: DocId)
    requires forall c :: c in cs ==> c.documentId in documents
    requires id !in documents
    ensures CommentsOf(cs, id) == []
  {
    if cs != [] {
      assert cs[0] in cs;
      UnknownDocumentHasNoComments(cs[1..], documents, id);
    }
  }

  // ---------------------------------------------------------------------------
  // The service
  // ---------------------------------------------------------------------------

  class DocumentService {
    const store: Store

    constructor (store: Store)
      ensures this.store == store
    {
      this.store := store;
    }

    /** `getDocumentById`: the stored document with its comment count, or
        not found. */
    method GetDocumentById(id: DocId) returns (r: Result<DocumentResponseDto>)
      requires store.Valid()
      ensures id !in store.documents ==> r == Failure(DocumentNotFound(id))
      ensures id in store.documents ==>
        r == Success(RowResponse(id, store.documents[id], |CommentsOf(store.comments, id)|))
    {
      var d := store.FindDocument(id);
      if d == null {
        return Failure(DocumentNotFound(id));
      }
      var cs := store.FindCommentsByDocument(id);
      r := Success(RowResponse(id, d.Row(), |cs|));
    }

    /** `createDocument`: a new document holding exactly the given title and
        content, at version 0, under an id not used before; it owns no
        comment. */
    method CreateDocument(dto: DocumentCreateDto, now: int) returns (r: DocumentResponseDto)
      requires store.Valid()
      modifies store
      ensures store.Valid()
      ensures r.id !in old(store.documents)
      ensures store.documents == old(store.documents)[r.id := DocumentRow(0, dto.title, dto.content, [], now, now)]
      ensures store.comments == old(store.comments)
      ensures r == RowResponse(r.id, store.documents[r.id], |CommentsOf(store.comments, r.id)|)
      ensures DocumentCreateDtoConstraints(dto) ==>
        DocumentConstraints(store.documents[r.id].title, store.documents[r.id].content)
    {
      var d := new Document(dto.title, dto.content, now);
      var id := store.InsertDocument(d);
      UnknownDocumentHasNoComments(store.comments, old(store.documents), id);
      r := RowResponse(id, d.Row(), 0);
    }

    /** `updateDocument`. A missing document, or one whose stored version is not
        the version the caller read, fails before anything changes. Otherwise
        the loaded entity takes the given fields and is saved; the save can
        lose a race, which is reported as the same locking failure and leaves
        the store as it was. The response is built from the entity as saved,
        before the store advances the version. */
    method UpdateDocument(id: DocId, dto: DocumentUpdateDto, now: int) returns (r: Result<DocumentResponseDto>)
      requires store.Valid()
      modifies store
      ensures store.Valid()
      ensures store.comments == old(store.comments)
      ensures id !in old(store.documents) ==>
        r == Failure(DocumentNotFound(id)) && store.documents == old(store.documents)
      ensures id in old(store.documents) && old(store.documents)[id].version != dto.version ==>
        && r == Failure(OptimisticLocking(VersionMismatch(dto.version, old(store.documents)[id].version)))
        && store.documents == old(store.documents)
      ensures id in old(store.documents) && old(store.documents)[id].version == dto.version ==>
        || (&& r == Success(RowResponse(id, ApplyUpdate(old(store.documents)[id], dto), |CommentsOf(store.comments, id)|))
            && store.documents == old(store.documents)[id := Committed(ApplyUpdate(old(store.documents)[id], dto), now)])
        || (r == Failure(OptimisticLocking(ConcurrentModification)) && store.documents == old(store.documents))
    {
      var d := store.FindDocument(id);
      if d == null {
        return Failure(DocumentNotFound(id));
      }
      if d.version != dto.version {
        return Failure(OptimisticLocking(VersionMismatch(dto.version, d.version)));
      }
      if dto.title.Some? {
        d.title := dto.title.value;
      }
      if dto.content.Some? {
        d.content := dto.content.value;
      }
      var saved := store.SaveDocument(d, now);
      if !saved {
        return Failure(OptimisticLocking(ConcurrentModification));
      }
      var cs := store.FindCommentsByDocument(id);
      r := Success(RowResponse(id, d.Row(), |cs|));
    }

    /** `deleteDocument`: a missing document fails and nothing is deleted;
        otherwise exactly that document goes, together with its comments, and
        every other document keeps the comments it had. */
    method DeleteDocument(id: DocId) returns (r: Outcome)
      requires store.Valid()
      modifies store
      ensures store.Valid()
      ensures id !in old(store.documents) ==>
        && r == Fail(DocumentNotFound(id))
        && store.documents == old(store.documents)
        && store.comments == old(store.comments)
      ensures id in old(store.documents) ==>
        && r == Pass
        && store.documents == old(store.documents) - {id}
        && store.comments == WithoutDocument(old(store.comments), id)
      ensures CommentsOf(store.comments, id) == []
      ensures forall other :: other != id ==> CommentsOf(store.comments, other) == CommentsOf(old(store.comments), other)
    {
      var found := store.ExistsDocument(id);
      if !found {
        UnknownDocumentHasNoComments(store.comments, store.documents, id);
        return Fail(DocumentNotFound(id));
      }
      ghost var before := store.comments;
      store.DeleteDocument(id);
      forall other | other != id
        ensures CommentsOf(store.comments, other) == CommentsOf(before, other)
      {
        WithoutDocumentKeepsOthers(before, id, other);
      }
      WithoutDocumentKeepsOthers(before, id, id + 1);
      r := Pass;
    }
  }
}
