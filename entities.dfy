/** The persistent records: documents (with their content blocks), the flat
    comment location and comments. */
module Entities {
  import opened Errors
  import opened Text

  /** A named, typed part of a document's content. */
  datatype Block = Block(id: string, blockType: string, content: string)

  /** What a location is checked against: the document's text and its blocks. */
  datatype DocView = DocView(content: string, blocks: seq<Block>)

  /** A stored document, as one row of the store. */
  datatype DocumentRow = DocumentRow(
    version: int,
    title: string,
    content: string,
    blocks: seq<Block>,
    createdAt: int,
    updatedAt: int)

  const MaxTitleLength: nat := 255

  /** The declared constraints of a document: the title is non-blank and at most
      255 characters, the content is non-blank. */
  predicate DocumentConstraints(title: string, content: string) {
    !IsBlank(title) && |title| <= MaxTitleLength && !IsBlank(content)
  }

  /** A document entity, whose fields the update operation assigns in place. */
  class Document {
    var id: Option<DocId>
    var version: int
    var title: string
    var content: string
    var blocks: seq<Block>
    const createdAt: int
    var updatedAt: int

    /** A new, unsaved document: no id yet, version 0, no blocks, both
        timestamps at the current time. */
    constructor (title: string, content: string, now: int)
      ensures id == None && version == 0
      ensures this.title == title && this.content == content && blocks == []
      ensures createdAt == now && updatedAt == now
    {
      this.id := None;
      this.version := 0;
      this.title := title;
      this.content := content;
      this.blocks := [];
      this.createdAt := now;
      this.updatedAt := now;
    }

    /** The entity loaded from the row stored under `id`. */
    constructor Load(id: DocId, row: DocumentRow)
      ensures this.id == Some(id) && Row() == row
    {
      this.id := Some(id);
      this.version := row.version;
      this.title := row.title;
      this.content := row.content;
      this.blocks := row.blocks;
      this.createdAt := row.createdAt;
      this.updatedAt := row.updatedAt;
    }

    /** The row this entity is written as. */
    function Row(): DocumentRow
      reads this
    {
      DocumentRow(version, title, content, blocks, createdAt, updatedAt)
    }
  }

  /** The flat location embedded in a stored comment: five optional fields,
      all absent by default, and no check at construction. */
  datatype CommentLocation = CommentLocation(
    startChar: Option<int>,
    endChar: Option<int>,
    paragraphIndex: Option<int>,
    anchorText: Option<string>,
    lineNumber: Option<int>)

  const NoLocation := CommentLocation(None, None, None, None, None)

  const MaxAnchorLength: nat := 500

  /** The declared bounds of the stored location: character offsets and the
      paragraph index are non-negative, the line number is at least 1, the
      anchor text fits its 500-character column. */
  predicate CommentLocationConstraints(loc: CommentLocation) {
    && (loc.startChar.Some? ==> loc.startChar.value >= 0)
    && (loc.endChar.Some? ==> loc.endChar.value >= 0)
    && (loc.paragraphIndex.Some? ==> loc.paragraphIndex.value >= 0)
    && (loc.anchorText.Some? ==> |loc.anchorText.value| <= MaxAnchorLength)
    && (loc.lineNumber.Some? ==> loc.lineNumber.value >= 1)
  }

  const MaxAuthorLength: nat := 100

  /** A comment on a document. `L` is the shape of its location: the comment
      entity declares one of the location variants, while the comment service
      stores the flat `CommentLocation`. The id is absent until the comment is
      saved; `documentId` is the owning document. */
  datatype Comment<L> = Comment(
    id: Option<nat>,
    comment: string,
    author: string,
    location: L,
    createdAt: int,
    documentId: DocId)

  /** The declared constraints of a comment: non-blank text, non-blank author
      of at most 100 characters. */
  predicate CommentConstraints<L>(c: Comment<L>) {
    !IsBlank(c.comment) && !IsBlank(c.author) && |c.author| <= MaxAuthorLength
  }
}
