/** The storage the services use, as an in-memory store: a map from document
    id to the stored document row, and the comments in the order they were
    saved. Saving an existing document is a conditional write on its version
    that can also lose a race with a concurrent writer. */
module Repository {
  import opened Errors
  import opened Entities

  /** A comment as the comment service stores it, with the flat location. */
  type StoredComment = Comment<CommentLocation>

  /** The comments of one document, in stored order. */
  function CommentsOf(cs: seq<StoredComment>, docId: DocId): (r: seq<StoredComment>)
    ensures forall c :: c in r <==> c in cs && c.documentId == docId
  {
    if cs == [] then []
    else (if cs[0].documentId == docId then [cs[0]] else []) + CommentsOf(cs[1..], docId)
  }

  /** Selecting one document's comments distributes over concatenation. */
  lemma {:induction false} CommentsOfConcat(a: seq<StoredComment>, b: seq<StoredComment>, docId: DocId)
    ensures CommentsOf(a + b, docId) == CommentsOf(a, docId) + CommentsOf(b, docId)
  {
    if a == [] {
      assert a + b == b;
    } else {
      assert (a + b)[1..] == a[1..] + b;
      CommentsOfConcat(a[1..], b, docId);
    }
  }

  /** Saving a comment adds it at the end of its own document's list and leaves
      every other document's list as it was. */
  lemma CommentsOfAppend(cs: seq<StoredComment>, c: StoredComment, docId: DocId)
    ensures CommentsOf(cs + [c], docId) == CommentsOf(cs, docId) + (if c.documentId == docId then [c] else [])
  {
    CommentsOfConcat(cs, [c], docId);
    assert [c][1..] == [];
  }

  /** The comments left once a document and everything it owns are removed. */
  function WithoutDocument(cs: seq<StoredComment>, docId: DocId): (r: seq<StoredComment>)
    ensures forall c :: c in r <==> c in cs && c.documentId != docId
  {
    if cs == [] then []
    else (if cs[0].documentId != docId then [cs[0]] else []) + WithoutDocument(cs[1..], docId)
  }

  /** Removing one document's comments leaves that document with none and every
      other document with exactly the comments it had, in the same order. */
  lemma {:induction false} WithoutDocumentKeepsOthers(cs: seq<StoredComment>, docId: DocId, other: DocId)
    ensures CommentsOf(WithoutDocument(cs, docId), docId) == []
    ensures other != docId ==> CommentsOf(WithoutDocument(cs, docId), other) == CommentsOf(cs, other)
  {
    if cs != [] {
      WithoutDocumentKeepsOthers(cs[1..], docId, other);
      var head := if cs[0].documentId != docId then [cs[0]] else [];
      CommentsOfConcat(head, WithoutDocument(cs[1..], docId), docId);
      CommentsOfConcat(head, WithoutDocument(cs[1..], docId), other);
      CommentsOfConcat([cs[0]], cs[1..], other);
      assert [cs[0]] + cs[1..] == cs;
    }
  }

  /** The comments are in order of creation time; comments created at the
      same time may come in either order. */
  ghost predicate OrderedByCreation(cs: seq<StoredComment>) {
    forall i, j :: 0 <= i < j < |cs| ==> cs[i].createdAt <= cs[j].createdAt
  }

  /** A comment created no later than any comment after it keeps the order. */
  lemma OrderedPrepend(c: StoredComment, cs: seq<StoredComment>)
    requires OrderedByCreation(cs)
    requires forall d :: d in cs ==> c.createdAt <= d.createdAt
    ensures OrderedByCreation([c] + cs)
  {
    var r := [c] + cs;
    forall i, j | 0 <= i < j < |r|
      ensures r[i].createdAt <= r[j].createdAt
    {
      assert r[j] == cs[j - 1];
      if i > 0 {
        assert r[i] == cs[i - 1];
      }
    }
  }

  /** The first comment of an ordered sequence is no later than the rest. */
  lemma OrderedHead(cs: seq<StoredComment>)
    requires cs != [] && OrderedByCreation(cs)
    ensures OrderedByCreation(cs[1..])
    ensures forall d :: d in cs[1..] ==> cs[0].createdAt <= d.createdAt
  {
    forall d | d in cs[1..]
      ensures cs[0].createdAt <= d.createdAt
    {
      var k :| 0 <= k < |cs[1..]| && cs[1..][k] == d;
      assert cs[k + 1] == d;
    }
  }

  /** One document's comments, selected from comments in creation order, are
      in creation order. */
  lemma {:induction false} CommentsOfKeepsOrder(cs: seq<StoredComment>, docId: DocId)
    requires OrderedByCreation(cs)
    ensures OrderedByCreation(CommentsOf(cs, docId))
  {
    if cs != [] {
      OrderedHead(cs);
      CommentsOfKeepsOrder(cs[1..], docId);
      if cs[0].documentId == docId {
        OrderedPrepend(cs[0], CommentsOf(cs[1..], docId));
      } else {
        assert CommentsOf(cs, docId) == CommentsOf(cs[1..], docId);
      }
    }
  }

  /** Removing a document's comments keeps the others in creation order. */
  lemma {:induction false} WithoutDocumentKeepsOrder(cs: seq<StoredComment>, docId: DocId)
    requires OrderedByCreation(cs)
    ensures OrderedByCreation(WithoutDocument(cs, docId))
  {
    if cs != [] {
      OrderedHead(cs);
      WithoutDocumentKeepsOrder(cs[1..], docId);
      if cs[0].documentId != docId {
        OrderedPrepend(cs[0], WithoutDocument(cs[1..], docId));
      } else {
        assert WithoutDocument(cs, docId) == WithoutDocument(cs[1..], docId);
      }
    }
  }

  /** A successful write of an existing row: the version column advances by one
      and the update time is refreshed. */
  function Committed(row: DocumentRow, now: int): DocumentRow {
    row.(version := row.version + 1, updatedAt := now)
  }

  class Store {
    var documents: map<DocId, DocumentRow>
    var comments: seq<StoredComment>
    var nextDocId: nat
    var nextCommentId: nat

    /** Ids not yet handed out are unused, every saved comment has an id, no
        comment outlives its document, and the comments are kept in order of
        creation time. */
    ghost predicate Valid()
      reads this
    {
      && (forall id :: id in documents ==> id < nextDocId)
      && (forall c :: c in comments ==> c.documentId in documents)
      && (forall c :: c in comments ==> c.id.Some? && c.id.value < nextCommentId)
      && OrderedByCreation(comments)
    }

    /** The clock reads `now` no earlier than the creation time of the last
        saved comment: time does not run backwards. */
    predicate NotBefore(now: int)
      reads this
    {
      comments == [] || comments[|comments| - 1].createdAt <= now
    }

    constructor ()
      ensures Valid() && documents == map[] && comments == []
    {
      documents := map[];
      comments := [];
      nextDocId := 0;
      nextCommentId := 0;
    }

    /** `findById`: the entity loaded from its row, or nothing. */
    method FindDocument(id: DocId) returns (d: Document?)
      ensures d == null <==> id !in documents
      ensures d != null ==> fresh(d) && d.id == Some(id) && d.Row() == documents[id]
    {
      if id in documents {
        d := new Document.Load(id, documents[id]);
      } else {
        d := null;
      }
    }

    /** `existsById`. */
    method ExistsDocument(id: DocId) returns (b: bool)
      ensures b <==> id in documents
    {
      b := id in documents;
    }

    /** `save` of a new document: it gets an unused id and is stored as it is. */
    method InsertDocument(d: Document) returns (id: DocId)
      requires Valid()
      modifies this, d`id
      ensures Valid()
      ensures id !in old(documents) && d.id == Some(id)
      ensures documents == old(documents)[id := d.Row()]
      ensures comments == old(comments) && nextCommentId == old(nextCommentId)
    {
      id := nextDocId;
      d.id := Some(id);
      documents := documents[id := d.Row()];
      nextDocId := nextDocId + 1;
    }

    /** `save` of a loaded document: the write succeeds only if the stored
        version is still the one the entity was loaded with, and it can lose a
        race with a concurrent writer, which the model leaves open. */
    method SaveDocument(d: Document, now: int) returns (ok: bool)
      requires Valid() && d.id.Some? && d.id.value in documents
      modifies this
      ensures Valid()
      ensures comments == old(comments) && nextDocId == old(nextDocId) && nextCommentId == old(nextCommentId)
      ensures ok ==> && old(documents)[d.id.value].version == d.version
                     && documents == old(documents)[d.id.value := Committed(d.Row(), now)]
      ensures !ok ==> documents == old(documents)
    {
      var id := d.id.value;
      var raced: bool := *;
      ok := !raced && documents[id].version == d.version;
      if ok {
        documents := documents[id := Committed(d.Row(), now)];
      }
    }

    /** `deleteById`: the document goes, and its comments with it. */
    method DeleteDocument(id: DocId)
      requires Valid() && id in documents
      modifies this
      ensures Valid()
      ensures documents == old(documents) - {id}
      ensures comments == WithoutDocument(old(comments), id)
      ensures nextDocId == old(nextDocId) && nextCommentId == old(nextCommentId)
    {
      WithoutDocumentKeepsOrder(comments, id);
      documents := documents - {id};
      comments := WithoutDocument(comments, id);
    }

    /** `save` of a new comment: it gets an unused id and goes at the end,
        which is its place in creation order. */
    method SaveComment(c: StoredComment) returns (saved: StoredComment)
      requires Valid() && c.documentId in documents && NotBefore(c.createdAt)
      modifies this
      ensures Valid()
      ensures saved == c.(id := Some(old(nextCommentId)))
      ensures comments == old(comments) + [saved]
      ensures documents == old(documents) && nextDocId == old(nextDocId)
    {
      saved := c.(id := Some(nextCommentId));
      comments := comments + [saved];
      nextCommentId := nextCommentId + 1;
    }

    /** `findByDocumentIdOrderByCreatedAtAsc`: exactly the document's
        comments, in order of creation time; comments created at the same time
        come in the order they were saved. */
    method FindCommentsByDocument(docId: DocId) returns (cs: seq<StoredComment>)
      requires Valid()
      ensures cs == CommentsOf(comments, docId)
      ensures forall i, j :: 0 <= i < j < |cs| ==> cs[i].createdAt <= cs[j].createdAt
    {
      CommentsOfKeepsOrder(comments, docId);
      cs := CommentsOf(comments, docId);
    }
  }
}
