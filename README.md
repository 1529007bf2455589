# Document comment service — a Dafny model

This project models the core of a small document service written in Kotlin. Clients create documents, update them under optimistic locking, delete them, and attach comments to locations in a document's text.

The model covers these parts:

- **Location variants** (module `Locations`, file `locations.dfy`). A comment location is one of six variants: character range, paragraph, line, anchor text, block id, and a composite of range, paragraph and anchor. Each variant checks its own fields when it is constructed (`CheckInit`) and checks itself against a document (`Validate`). The tag each variant is serialised with is modelled too.
- **The flat location** (modules `Dtos` and `CommentServices`). This is the older record of five optional fields. Its own construction rules are `CheckLocationDtoInit`. The comment service checks it against a document field by field (`ValidateFlat`). `ToEntity` and `ToDto` map it to and from the stored form.
- **Entities and request/response records** (modules `Entities` and `Dtos`). The document is a class whose fields the update assigns in place. Stored rows, comments, blocks and the declared field constraints are values and predicates.
- **The store** (module `Repository`). It holds a map from document id to stored row, and the comments in the order they were saved. Writing an existing document is conditional on its version. The write may also lose a race with another writer; the model leaves that choice open.
- **The two services** (modules `DocumentServices` and `CommentServices`). These are classes over a shared store:
  - `GetDocumentById`, `CreateDocument`, `UpdateDocument`, `DeleteDocument`;
  - `GetCommentsByDocumentId`, `CreateComment`.
- **Kotlin text operations** (module `Text`). These are the pieces of Kotlin's standard library the checks depend on:
  - `isBlank`;
  - `split` on a literal delimiter, which keeps trailing empty pieces;
  - `contains(…, ignoreCase = true)`.
- **Runs taken from the repository's own tests** (module `Scenarios`). Each run works on a fresh store.

Failures are the values of `Errors.Error`. `DocumentNotFound`, `InvalidCommentLocation` and `OptimisticLocking` stand for the service's three exception classes. `IllegalArgument` stands for a failed Kotlin `require`. Each failure carries the facts its message reports, not the message text.

Points where the code's behaviour is easy to misread, and what the model does:

- **Comment creation uses the flat location.** `createComment` checks the flat five-field location field by field (`CommentService.kt:47` calls `validateCommentLocation`, lines 80-121). It never builds one of the tagged location variants. The model does the same. The variants are modelled on their own, and lemmas show where they agree with the flat checks.
- **Out-of-range failures name only the offset.** The range checks report the offending start or end and not the document length (`CharRangeLocation.kt:21` and `:28`, `CommentService.kt:83-95`). So `StartBeyondLength` and `EndBeyondLength` carry only the offset.
- **A missing block is an argument error.** The block-id check fails a `require` (`BlockIdLocation.kt:15-19`), which throws `IllegalArgumentException`, not `InvalidCommentLocationException`. The model reports it as `IllegalArgument`.
- **Updates return the version they were read at.** `updateDocument` builds its response from the entity that `save` returns (`DocumentService.kt:83-86`), before the version advances on flush. The integration test asserts that the returned version equals the version read before the update (`DocumentServiceIntegrationTest.kt:140`). `UpdateDocument` responds that way, and `Scenarios.RepeatedUpdateConflicts` shows the consequence.
- **The update code does not prevent a blank title or content.** The update request declares no `@NotBlank` (`DocumentDto.kt:28-36`), and `updateDocument` assigns whatever it is given (`DocumentService.kt:74-81`). The entity declares `@NotBlank` on both fields (`Document.kt:22-29`), which Bean Validation would check when the entity is written; the model does not run Bean Validation. `BlankTitleUpdateBreaksConstraints` shows the gap between the two declarations.

## Model


| member | source | states |
|---|---|---|
| Text.SplitCount | src/main/kotlin/am/hhovhann/document_comment_service/dto/location/ParagraphLocation.kt:17-19 | `split(...).size`: at least one, and exactly the number of pieces of every leftmost cut of the content (`IsLeftmostSplit`) |
| Text.Split | src/main/kotlin/am/hhovhann/document_comment_service/dto/location/ParagraphLocation.kt:17 | `split` on a literal delimiter always yields at least one piece, even for empty content |
| Text.SplitIsLeftmost | src/main/kotlin/am/hhovhann/document_comment_service/dto/location/ParagraphLocation.kt:17 | `split` cuts at the leftmost non-overlapping occurrences: the pieces join back to the content, the last holds no delimiter, and no delimiter starts inside any other piece or overlaps its end |
| Text.LeftmostSplitIsUnique | src/main/kotlin/am/hhovhann/document_comment_service/dto/location/ParagraphLocation.kt:17 | the leftmost cut is unique: any pieces with those properties are exactly what `split` returns |
| Text.LeftmostSplitsAgree | src/main/kotlin/am/hhovhann/document_comment_service/dto/location/ParagraphLocation.kt:17 | every leftmost cut of a string equals its `split` |
| Text.PiecesAreDelimiterFree | src/main/kotlin/am/hhovhann/document_comment_service/dto/location/ParagraphLocation.kt:17 | no piece of `split` contains the delimiter |
| Text.SplitOfDelimiterFree | src/main/kotlin/am/hhovhann/document_comment_service/dto/location/ParagraphLocation.kt:17 | content without the delimiter is a single piece |
| Text.SplitAfterLeftmost | src/main/kotlin/am/hhovhann/document_comment_service/dto/location/ParagraphLocation.kt:17 | when no delimiter starts before a given one, the text before it is the first piece and the rest is split on its own |
| Text.JoinSplit | src/main/kotlin/am/hhovhann/document_comment_service/dto/location/ParagraphLocation.kt:17 | the split is lossless: joining the pieces with the delimiter gives back the content |
| Text.SplitCountOnChar | src/main/kotlin/am/hhovhann/document_comment_service/dto/location/LineLocation.kt:17-19 | splitting on one character gives one more piece than the character's occurrences |
| Text.JoinPrepend | src/main/kotlin/am/hhovhann/document_comment_service/dto/location/ParagraphLocation.kt:17 | a character put before the first piece comes first in the joined text |
| Text.SplitAtOccurrence | src/main/kotlin/am/hhovhann/document_comment_service/dto/location/ParagraphLocation.kt:17-19 | content that holds the delimiter splits into at least two pieces |
| Text.SplitWithoutDelimiter | src/main/kotlin/am/hhovhann/document_comment_service/dto/location/ParagraphLocation.kt:17 | content without the delimiter's first character is a single piece |
| Text.SplitAtFirstDelimiter | src/main/kotlin/am/hhovhann/document_comment_service/dto/location/ParagraphLocation.kt:17 | the first piece is everything before the first delimiter |
| Text.IndexOfIgnoreCase | src/main/kotlin/am/hhovhann/document_comment_service/dto/location/AnchorLocation.kt:15 | the result is the leftmost case-insensitive match at or after the start, or -1 exactly when there is none |
| Text.ContainsIgnoreCase | src/main/kotlin/am/hhovhann/document_comment_service/dto/location/AnchorLocation.kt:15 | true exactly when the pattern matches the text at some position, up to case |
| Text.Lowercase | src/main/kotlin/am/hhovhann/document_comment_service/dto/location/AnchorLocation.kt:15 | keeps the length, leaves no upper-case ASCII letter, keeps every other character, and maps each upper-case letter to the lower-case letter at the same place in the alphabet |
| Text.LowercaseIsIdempotent | src/main/kotlin/am/hhovhann/document_comment_service/dto/location/AnchorLocation.kt:15 | lower-casing twice is lower-casing once |
| Text.IsWhitespace | src/main/kotlin/am/hhovhann/document_comment_service/dto/location/AnchorLocation.kt:11 | the JVM whitespace set that `isBlank` tests each character against |
| Text.IsBlank | src/main/kotlin/am/hhovhann/document_comment_service/dto/location/AnchorLocation.kt:11 | `isBlank`: true for the empty string and for whitespace only |
| Text.MatchesAtLowercase | src/main/kotlin/am/hhovhann/document_comment_service/dto/location/AnchorLocation.kt:15 | a case-insensitive match at a position is an exact match of the lower-cased strings there |
| Text.ContainsIgnoreCaseIsLowercaseContains | src/main/kotlin/am/hhovhann/document_comment_service/dto/location/AnchorLocation.kt:15 | searching up to case is searching the lower-cased text for the lower-cased pattern, both ways |
| Text.ContainsIgnoreCaseIsCaseBlind | src/main/kotlin/am/hhovhann/document_comment_service/dto/location/AnchorLocation.kt:15 | re-casing text or pattern does not change the search result |
| Text.FirstCharacterAbsent | src/main/kotlin/am/hhovhann/document_comment_service/dto/location/AnchorLocation.kt:15-16 | if the pattern's first character occurs at no candidate position, the search fails |
| Text.ContainsIgnoreCaseAt | src/main/kotlin/am/hhovhann/document_comment_service/dto/location/AnchorLocation.kt:15-16 | a match at a known position makes the search succeed |
| Entities.Document.constructor | src/main/kotlin/am/hhovhann/document_comment_service/entity/Document.kt:13-37 | a new document has no id, version 0, the given title and content, no blocks, and both timestamps at the creation time |
| Entities.Document.Load | src/main/kotlin/am/hhovhann/document_comment_service/entity/Document.kt:13-45 | a loaded entity carries its id and exactly the stored row |
| Entities.DocumentConstraints | src/main/kotlin/am/hhovhann/document_comment_service/entity/Document.kt:22-29 | a stored document has a non-blank title of at most 255 characters and non-blank content |
| Entities.CommentConstraints | src/main/kotlin/am/hhovhann/document_comment_service/entity/Comment.kt:20-27 | a stored comment has non-blank text and a non-blank author of at most 100 characters |
| Entities.CommentLocationConstraints | src/main/kotlin/am/hhovhann/document_comment_service/entity/CommentLocation.kt:10-30 | the stored location's bounds, including the 500-character anchor column |
| Locations.KindForTag | src/main/kotlin/am/hhovhann/document_comment_service/dto/location/CommentLocationStrategy.kt:7-19 | a decoded tag is the tag of the variant returned; an unknown tag is no variant's tag |
| Locations.TagNamesDistinct | src/main/kotlin/am/hhovhann/document_comment_service/dto/location/CommentLocationStrategy.kt:13-18 | the six tag names are pairwise distinct |
| Locations.TagRoundTrip | src/main/kotlin/am/hhovhann/document_comment_service/dto/location/CommentLocationStrategy.kt:12-20 | decoding a variant's tag gives back that variant |
| Locations.KindOf | src/main/kotlin/am/hhovhann/document_comment_service/dto/location/CommentLocationStrategy.kt:20 | which of the six variants a location is |
| Locations.TagName | src/main/kotlin/am/hhovhann/document_comment_service/dto/location/CommentLocationStrategy.kt:12-19 | the name each variant is tagged with in the serialised form |
| Locations.CheckInit | src/main/kotlin/am/hhovhann/document_comment_service/dto/location/CompositeLocation.kt:15-19 | construction passes exactly when the variant is well formed (range in order, index ≥ 0, line > 0, anchor and block id non-blank); otherwise it is an argument error |
| Locations.CompositeInitIsOrderedConjunction | src/main/kotlin/am/hhovhann/document_comment_service/dto/location/CompositeLocation.kt:15-19 | the composite's construction is the range, paragraph and anchor checks in that order, the first failure reported |
| Locations.WellFormed | src/main/kotlin/am/hhovhann/document_comment_service/dto/location/CompositeLocation.kt:15-19 | the `require` conditions of each variant's `init`: non-blank anchor or block id, non-negative paragraph, positive line, ordered range |
| Locations.DeclaredBounds | src/main/kotlin/am/hhovhann/document_comment_service/dto/location/CharRangeLocation.kt:8 | the `@Min` bounds on the variants' fields: non-negative offsets and paragraph index, line at least 1 |
| Locations.ParagraphCount | src/main/kotlin/am/hhovhann/document_comment_service/dto/location/ParagraphLocation.kt:17-19 | at least one paragraph, and exactly as many as the pieces of the leftmost cut at blank lines (inherited from `Text.SplitCount`) |
| Locations.LineCount | src/main/kotlin/am/hhovhann/document_comment_service/dto/location/LineLocation.kt:17-19 | the line count is the number of newlines plus one |
| Locations.ValidateCharRange | src/main/kotlin/am/hhovhann/document_comment_service/dto/location/CharRangeLocation.kt:17-31 | with no document it passes; with one it passes iff both ends are below the content length; failures are invalid locations |
| Locations.ValidateParagraph | src/main/kotlin/am/hhovhann/document_comment_service/dto/location/ParagraphLocation.kt:16-24 | with no document it passes; index ≤ 0 always passes; failures are invalid locations |
| Locations.ValidateLine | src/main/kotlin/am/hhovhann/document_comment_service/dto/location/LineLocation.kt:16-24 | with no document it passes; otherwise it passes iff the line is at most newlines + 1, and a failure reports the line number and the line count (newlines + 1) |
| Locations.ValidateAnchor | src/main/kotlin/am/hhovhann/document_comment_service/dto/location/AnchorLocation.kt:14-21 | with no document it passes; otherwise it passes iff the lower-cased content contains the lower-cased anchor; a failure names the anchor |
| Locations.AnyBlockHasId | src/main/kotlin/am/hhovhann/document_comment_service/dto/location/BlockIdLocation.kt:15 | true exactly when some block carries the id |
| Locations.ValidateBlockId | src/main/kotlin/am/hhovhann/document_comment_service/dto/location/BlockIdLocation.kt:14-20 | with no document it passes; otherwise it passes iff some block has exactly this id; a failure is an argument error naming the id |
| Locations.ValidateComposite | src/main/kotlin/am/hhovhann/document_comment_service/dto/location/CompositeLocation.kt:21-51 | the composite's four guards are the range, paragraph and anchor checks run in order, stopping at the first failure |
| Locations.Validate | src/main/kotlin/am/hhovhann/document_comment_service/dto/location/CommentLocationStrategy.kt:20-22 | no document means no failure; a failure is an invalid location for every variant except block id |
| Locations.CharRangeValidIffEndInBounds | src/main/kotlin/am/hhovhann/document_comment_service/dto/location/CharRangeLocation.kt:12-30 | for a constructed range, validation passes iff the end is below the length |
| Locations.CharRangeRejectsEmptyContent | src/main/kotlin/am/hhovhann/document_comment_service/dto/location/CharRangeLocation.kt:12-30 | within its bounds, no range fits empty content |
| Locations.CharRangeReportsStartFirst | src/main/kotlin/am/hhovhann/document_comment_service/dto/location/CharRangeLocation.kt:19-21 | a start at or past the length is reported as the start, whatever the end |
| Locations.CharRangeReportsEnd | src/main/kotlin/am/hhovhann/document_comment_service/dto/location/CharRangeLocation.kt:26-28 | with the start in range, an end at or past the length is reported as the end |
| Locations.ParagraphValidIffBelowCount | src/main/kotlin/am/hhovhann/document_comment_service/dto/location/ParagraphLocation.kt:17-22 | passes iff the index is below the paragraph count; a failure carries the index and the count |
| Locations.FirstParagraphAlwaysValid | src/main/kotlin/am/hhovhann/document_comment_service/dto/location/ParagraphLocation.kt:17-19 | paragraph 0 is valid in every document, even an empty one |
| Locations.ParagraphValidDownwardClosed | src/main/kotlin/am/hhovhann/document_comment_service/dto/location/ParagraphLocation.kt:19 | if index i passes, every 0 ≤ j ≤ i passes |
| Locations.SecondParagraphWhenSeparated | src/main/kotlin/am/hhovhann/document_comment_service/dto/location/ParagraphLocation.kt:17-19 | content holding a blank-line separator has a valid paragraph 1 |
| Locations.LastLineIsValid | src/main/kotlin/am/hhovhann/document_comment_service/dto/location/LineLocation.kt:19-21 | the last line passes; the next fails, reporting the line and the line count |
| Locations.FirstLineAlwaysValid | src/main/kotlin/am/hhovhann/document_comment_service/dto/location/LineLocation.kt:17-19 | line 1 is valid in every document |
| Locations.AnchorValidationIsCaseBlind | src/main/kotlin/am/hhovhann/document_comment_service/dto/location/AnchorLocation.kt:15 | re-casing the anchor or the content does not change whether validation passes |
| Locations.BlockIdIsCaseSensitive | src/main/kotlin/am/hhovhann/document_comment_service/dto/location/BlockIdLocation.kt:15-18 | an id differing only in case is not found, and the failure is an argument error |
| Locations.CompositeIsConjunction | src/main/kotlin/am/hhovhann/document_comment_service/dto/location/CompositeLocation.kt:21-51 | a composite passes iff its range, paragraph and anchor each pass |
| Dtos.CheckLocationDtoInit | src/main/kotlin/am/hhovhann/document_comment_service/dto/CommentDto.kt:46-58 | construction passes iff a start, paragraph, anchor or line is given and a start and end given together are in order; failures are argument errors |
| Dtos.EndCharAloneIsRejected | src/main/kotlin/am/hhovhann/document_comment_service/dto/CommentDto.kt:48-50 | an end character alone is not a location reference |
| Dtos.RangeOrderNeedsBothEnds | src/main/kotlin/am/hhovhann/document_comment_service/dto/CommentDto.kt:53-57 | the order of start and end is checked only when both are given |
| Dtos.LocationDtoBounds | src/main/kotlin/am/hhovhann/document_comment_service/dto/CommentDto.kt:31-45 | the `@Min` bounds on the flat location: non-negative offsets and paragraph index, line at least 1 |
| Dtos.CommentCreateDtoConstraints | src/main/kotlin/am/hhovhann/document_comment_service/dto/CommentDto.kt:19-29 | a comment request has non-blank content, a non-blank author of at most 100 characters and a location within its bounds |
| Dtos.DocumentCreateDtoConstraints | src/main/kotlin/am/hhovhann/document_comment_service/dto/DocumentDto.kt:19-26 | a new document has a non-blank title of at most 255 characters and non-blank content |
| Dtos.DocumentUpdateDtoConstraints | src/main/kotlin/am/hhovhann/document_comment_service/dto/DocumentDto.kt:28-36 | an update's title, when given, has at most 255 characters and its version is not negative |
| Repository.CommentsOf | src/main/kotlin/am/hhovhann/document_comment_service/repository/CommentRepository.kt:12 | a document's comments are exactly the stored comments that belong to it |
| Repository.CommentsOfConcat | src/main/kotlin/am/hhovhann/document_comment_service/repository/CommentRepository.kt:12 | selecting one document's comments distributes over concatenation, keeping order |
| Repository.CommentsOfAppend | src/main/kotlin/am/hhovhann/document_comment_service/service/CommentService.kt:56 | a saved comment is appended to its document's list, and every other list stays the same |
| Repository.WithoutDocument | src/main/kotlin/am/hhovhann/document_comment_service/entity/Document.kt:39-45 | the remaining comments are exactly those of other documents |
| Repository.WithoutDocumentKeepsOthers | src/main/kotlin/am/hhovhann/document_comment_service/entity/Document.kt:39-45 | after a cascading delete the document has no comments, and every other document has exactly the ones it had, in order |
| Repository.CommentsOfKeepsOrder | src/main/kotlin/am/hhovhann/document_comment_service/repository/CommentRepository.kt:12 | one document's comments, selected from comments in creation order, are in creation order |
| Repository.WithoutDocumentKeepsOrder | src/main/kotlin/am/hhovhann/document_comment_service/entity/Document.kt:39-45 | removing a document's comments keeps the rest in creation order |
| Repository.Committed | src/main/kotlin/am/hhovhann/document_comment_service/entity/Document.kt:18-37 | a committed write advances the `@Version` column by one and refreshes the `@UpdateTimestamp` column |
| Repository.Store.constructor | src/main/kotlin/am/hhovhann/document_comment_service/repository/DocumentRepository.kt:10 | an empty store satisfies the store invariant |
| Repository.Store.FindDocument | src/main/kotlin/am/hhovhann/document_comment_service/service/DocumentService.kt:32-36 | a fresh entity holding the stored row, or none exactly when the id is absent |
| Repository.Store.ExistsDocument | src/main/kotlin/am/hhovhann/document_comment_service/service/DocumentService.kt:95 | true exactly when the id is stored |
| Repository.Store.InsertDocument | src/main/kotlin/am/hhovhann/document_comment_service/service/DocumentService.kt:43-47 | a new document gets an unused id and is stored as given; comments are untouched |
| Repository.Store.SaveDocument | src/main/kotlin/am/hhovhann/document_comment_service/service/DocumentService.kt:83-90 | a write succeeds only if the stored version still equals the entity's; it then stores the row with the version advanced; a failed write changes nothing |
| Repository.Store.DeleteDocument | src/main/kotlin/am/hhovhann/document_comment_service/entity/Document.kt:39-45 | the document is removed together with its comments, and the store invariant is kept |
| Repository.Store.SaveComment | src/main/kotlin/am/hhovhann/document_comment_service/service/CommentService.kt:56 | the comment gets an unused id and is appended, which keeps the comments in creation order; documents are untouched |
| Repository.Store.FindCommentsByDocument | src/main/kotlin/am/hhovhann/document_comment_service/repository/CommentRepository.kt:12 | exactly the document's comments, in ascending creation time; comments created at the same time come in save order |
| DocumentServices.ApplyUpdate | src/main/kotlin/am/hhovhann/document_comment_service/service/DocumentService.kt:74-81 | the title is replaced iff given, the content iff given, and nothing else changes |
| DocumentServices.UpdatesCompose | src/test/kotlin/am/hhovhann/document_comment_service/service/integration/DocumentServiceIntegrationTest.kt:68-84 | two partial updates in sequence equal one merged update in which the later fields win |
| DocumentServices.UpdateIsIdempotent | src/main/kotlin/am/hhovhann/document_comment_service/service/DocumentService.kt:74-81 | applying an update twice equals applying it once |
| DocumentServices.EmptyUpdateKeepsRow | src/main/kotlin/am/hhovhann/document_comment_service/service/DocumentService.kt:74-81 | an update giving neither field leaves the row unchanged |
| DocumentServices.UpdateKeepsConstraints | src/main/kotlin/am/hhovhann/document_comment_service/dto/DocumentDto.kt:28-36 | an update within its constraints and with non-blank fields keeps a document within its constraints |
| DocumentServices.BlankTitleUpdateBreaksConstraints | src/main/kotlin/am/hhovhann/document_comment_service/dto/DocumentDto.kt:28-36 | the update request's constraints admit a blank title, which the document's constraints forbid |
| DocumentServices.RowResponse | src/main/kotlin/am/hhovhann/document_comment_service/service/DocumentService.kt:110-120 | the document response: the stored row's fields, its id and its comment count |
| DocumentServices.UnknownDocumentHasNoComments | src/main/kotlin/am/hhovhann/document_comment_service/entity/Comment.kt:37-39 | while every comment's document is stored, a document not stored owns no comment |
| DocumentServices.DocumentService.GetDocumentById | src/main/kotlin/am/hhovhann/document_comment_service/service/DocumentService.kt:30-38 | an absent id is not found; otherwise the response holds the stored row and its comment count |
| DocumentServices.DocumentService.CreateDocument | src/main/kotlin/am/hhovhann/document_comment_service/service/DocumentService.kt:40-50 | stores exactly the given title and content at version 0 under a new id, with no comments, and leaves everything else as it was |
| DocumentServices.DocumentService.UpdateDocument | src/main/kotlin/am/hhovhann/document_comment_service/service/DocumentService.kt:52-91 | an absent id is not found; a version mismatch names both versions; neither changes the store. On a match, either the updated row is committed and returned, or a lost race is reported as a locking failure and the store is unchanged |
| DocumentServices.DocumentService.DeleteDocument | src/main/kotlin/am/hhovhann/document_comment_service/service/DocumentService.kt:93-101 | an absent id is not found and nothing changes; otherwise exactly that document and its comments go, and every other document keeps its comments |
| CommentServices.ToDto | src/main/kotlin/am/hhovhann/document_comment_service/service/CommentService.kt:133-141 | a read-back location maps back to the stored one; a failure is an argument error |
| CommentServices.ToEntity | src/main/kotlin/am/hhovhann/document_comment_service/service/CommentService.kt:123-131 | the stored location takes the request location's five fields |
| CommentServices.LocationRoundTrip | src/main/kotlin/am/hhovhann/document_comment_service/service/CommentService.kt:123-141 | a request location, stored and read back, is equal to the original field by field |
| CommentServices.ReadableIffConstructible | src/main/kotlin/am/hhovhann/document_comment_service/service/CommentService.kt:133-141 | a stored location reads back iff some valid request location maps to it |
| CommentServices.EmptyLocationIsUnreadable | src/main/kotlin/am/hhovhann/document_comment_service/entity/CommentLocation.kt:7-31 | the all-absent stored location, constructible without checks, fails to read back |
| CommentServices.ToEntityKeepsBounds | src/main/kotlin/am/hhovhann/document_comment_service/entity/CommentLocation.kt:10-30 | the stored location is within its bounds iff the request is within its bounds and the anchor fits 500 characters |
| CommentServices.LongAnchorExceedsColumn | src/main/kotlin/am/hhovhann/document_comment_service/entity/CommentLocation.kt:24-25 | a 501-character anchor passes every request check and still exceeds the stored column |
| CommentServices.ValidateFlat | src/main/kotlin/am/hhovhann/document_comment_service/service/CommentService.kt:80-121 | passes iff every present field fits: offsets below the length, paragraph below the paragraph count, anchor found up to case, line at most the line count; failures are invalid locations |
| CommentServices.FlatChecksFieldsInOrder | src/main/kotlin/am/hhovhann/document_comment_service/service/CommentService.kt:80-121 | the outcome is the per-field checks chained in source order (start, end, paragraph, anchor, line): the first failing field decides |
| CommentServices.FlatRangeAgreesWithCharRange | src/main/kotlin/am/hhovhann/document_comment_service/service/CommentService.kt:83-95 | a flat range gives the same outcome and error as the range variant |
| CommentServices.FlatParagraphAgreesWithParagraph | src/main/kotlin/am/hhovhann/document_comment_service/service/CommentService.kt:97-103 | a flat paragraph index gives the same outcome and error as the paragraph variant |
| CommentServices.FlatAnchorAgreesWithAnchor | src/main/kotlin/am/hhovhann/document_comment_service/service/CommentService.kt:105-110 | a flat anchor gives the same outcome and error as the anchor variant |
| CommentServices.FlatLineAgreesWithLine | src/main/kotlin/am/hhovhann/document_comment_service/service/CommentService.kt:112-118 | a flat line number gives the same outcome and error as the line variant, so a failure reports the line number and the line count |
| CommentServices.FlatAgreesWithComposite | src/main/kotlin/am/hhovhann/document_comment_service/service/CommentService.kt:80-110 | range, paragraph and anchor together give the same outcome and first error as the composite |
| CommentServices.FlatChecksOnlyUpperBounds | src/main/kotlin/am/hhovhann/document_comment_service/service/CommentService.kt:83-103 | negative offsets and indices pass the flat checks |
| CommentServices.ToResponseDto | src/main/kotlin/am/hhovhann/document_comment_service/service/CommentService.kt:143-152 | succeeds exactly when the stored location reads back; the response location then stores back as the comment's own, and id, text, author, time and document are the comment's; a failure is an argument error |
| CommentServices.ToResponseDtos | src/main/kotlin/am/hhovhann/document_comment_service/service/CommentService.kt:35 | succeeds iff every location reads back, and then maps the comments one to one, in order |
| CommentServices.DeleteKeepsLocationsReadable | src/main/kotlin/am/hhovhann/document_comment_service/entity/Document.kt:39-45 | removing a document's comments keeps the remaining locations readable |
| CommentServices.CommentService.GetCommentsByDocumentId | src/main/kotlin/am/hhovhann/document_comment_service/service/CommentService.kt:25-36 | an absent document is not found; otherwise the document's comments are mapped one to one in ascending creation time, and this succeeds with one response per comment while all stored locations are readable |
| CommentServices.CommentService.CreateComment | src/main/kotlin/am/hhovhann/document_comment_service/service/CommentService.kt:38-60 | an absent document is not found and a misfitting location is rejected, neither saving anything; otherwise the comment is appended with a fresh id and the response repeats the request's location; readable locations stay readable and creation order is kept |
| Scenarios.CompositeExampleIsValid | src/test/kotlin/am/hhovhann/document_comment_service/service/unit/CommentServiceTest.kt:75-99 | Composite(0, 4, 0, "content") is constructed and valid on "This is a test document content" |
| Scenarios.BlockExampleIsValid | src/test/kotlin/am/hhovhann/document_comment_service/service/unit/CommentServiceTest.kt:101-134 | block id "fig-3a" is valid against a document holding that block |
| Scenarios.RangePastShortTextIsRejected | src/test/kotlin/am/hhovhann/document_comment_service/service/unit/CommentServiceTest.kt:155-173 | the range 100..105 on "Short" is rejected by its start |
| Scenarios.MissingAnchorIsRejected | src/test/kotlin/am/hhovhann/document_comment_service/service/unit/CommentServiceTest.kt:175-193 | "nonexistent text" is not found in "This is a test document" |
| Scenarios.TwoSingleLineParagraphs | src/main/kotlin/am/hhovhann/document_comment_service/dto/location/ParagraphLocation.kt:17-19 | two texts without a newline joined by a blank line make exactly two paragraphs |
| Scenarios.TwoParagraphs | src/test/kotlin/am/hhovhann/document_comment_service/service/integration/CommentServiceIntegrationTest.kt:71-80 | "Paragraph one.\n\nParagraph two." has exactly two paragraphs |
| Scenarios.CombinedLocationPassesFlatChecks | src/test/kotlin/am/hhovhann/document_comment_service/service/integration/CommentServiceIntegrationTest.kt:93-107 | range 5..7, paragraph 0 and anchor "is" fit "This is a test document" |
| Scenarios.CreateThenGet | src/main/kotlin/am/hhovhann/document_comment_service/service/DocumentService.kt:30-50 | a created document reads back exactly as created, at version 0 with no comments |
| Scenarios.StaleUpdateIsRejected | src/main/kotlin/am/hhovhann/document_comment_service/service/DocumentService.kt:61-71 | a stale version is rejected with both versions, again on repetition, and the document is unchanged |
| Scenarios.RepeatedUpdateConflicts | src/test/kotlin/am/hhovhann/document_comment_service/service/integration/DocumentServiceIntegrationTest.kt:136-140 | a successful update reports the version it was read at; repeating it names the stale and the stored version |
| Scenarios.SequentialPartialUpdates | src/test/kotlin/am/hhovhann/document_comment_service/service/integration/DocumentServiceIntegrationTest.kt:68-84 | when no save loses a race, three partial updates end at title "Third", content "Second", version 3 |
| Scenarios.CommentOnSecondParagraph | src/test/kotlin/am/hhovhann/document_comment_service/service/integration/CommentServiceIntegrationTest.kt:71-80 | a comment on paragraph 1 is saved, keeps its location and is the only one listed |
| Scenarios.MissingAnchorSavesNothing | src/main/kotlin/am/hhovhann/document_comment_service/service/CommentService.kt:40-59 | on any content that does not hold the anchor, the comment is rejected with that anchor and the document's list stays empty |
| Scenarios.CombinedLocationIsSaved | src/test/kotlin/am/hhovhann/document_comment_service/service/integration/CommentServiceIntegrationTest.kt:93-107 | on any content longer than seven characters that holds "is", range 5..7, paragraph 0 and anchor "is" are saved with all three references |
| Scenarios.FirstParagraphFits | src/main/kotlin/am/hhovhann/document_comment_service/service/CommentService.kt:97-103 | the flat check of paragraph 0 passes on every content |
| Scenarios.CommentOnMissingDocument | src/main/kotlin/am/hhovhann/document_comment_service/service/CommentService.kt:41-45 | commenting on a missing document fails as not found |
| Scenarios.DeleteTakesCommentsAlong | src/main/kotlin/am/hhovhann/document_comment_service/entity/Document.kt:39-45 | after deleting one document its comments are gone, and another document keeps its own |

## Left out

- The controllers, the exception-to-response mapping, JSON (de)serialisation beyond the tag names, Swagger configuration, the application entry point and all logging are not part of this model.
- `getAllDocuments`, `searchDocuments`, `getCommentsByAuthor` and `getCommentsByParagraph` only pass a repository query through and map the result. The queries' ordering by update time and their SQL matching are not modelled.
- Bean Validation does not run in the model, neither on request bodies (`@Valid` in the controllers) nor on entities when they are written. The declared constraints are predicates (`DocumentConstraints`, `CommentConstraints`, `CommentLocationConstraints`, `LocationDtoBounds`, `CommentCreateDtoConstraints`, `DocumentCreateDtoConstraints`, `DocumentUpdateDtoConstraints`, `DeclaredBounds`). Lemmas relate them, but no operation enforces them, because the service code does not. The 500-character anchor limit in `CommentLocationConstraints` is a column length rather than Bean Validation; the `CreateComment` line below covers it.
- Repository.Store.SaveDocument: advancing the version by one and setting the update time on a successful write is an assumption about the persistence framework, not something the service code does.
- Repository.Store.SaveDocument: whether a write loses a race is left open (a nondeterministic choice). Real concurrency and transactions are not modelled.
- DocumentServices.DocumentService.UpdateDocument: a lost race is reported inside the method, as `OptimisticLocking(ConcurrentModification)`. Under JPA the version conflict surfaces when the transaction commits, outside the method's `try`/`catch` (`DocumentService.kt:83-90`), and `GlobalExceptionHandler.kt:49-50` handles it as a separate exception; the model places the conflict inside the method.
- CommentServices.CommentService.CreateComment: does not model the 500-character column length of the anchor (`@Column(length = 500)` at `CommentLocation.kt:24`). That limit is a database constraint, not Bean Validation: the database rejects a longer anchor when the insert is flushed, while `Store.SaveComment` and `CreateComment` store it (`LongAnchorExceedsColumn`).
- CommentServices.CommentService.CreateComment: requires that the clock not run backwards (`Store.NotBefore`). This keeps the stored comments in creation order, so listing them in save order is listing them by creation time. Comments created at the same instant are listed in save order, where the database leaves their order open.
- The clock is a parameter `now`. Creation and update times are that value; the framework's own timestamping is not modelled.
- Ids are numbers handed out by counters in the store, not random UUIDs.
- Kotlin `Int` and `Long` are unbounded integers in the model. No operation here adds to them except the version advance, and 64-bit overflow of that counter is not modelled.
- Text.ContainsIgnoreCase: folds only the ASCII letters. Kotlin folds every Unicode letter, so the model can report "not found" for a non-ASCII anchor that differs only in case.
- Locations.ValidateCharRange: counts characters, not the UTF-16 code units that Kotlin's `length` counts. The two differ only for characters outside the Basic Multilingual Plane.
- CommentServices.ValidateFlat: compares offsets with the number of characters, not the UTF-16 code units that Kotlin's `length` counts; the two differ only for characters outside the Basic Multilingual Plane.
- Locations.ValidateComposite: compares with the same unit as `Locations.ValidateCharRange`, so the same caveat applies.
- The comment entity declares a tagged-variant location, but the comment service stores the flat location in it. `Entities.Comment` takes its location shape as a type parameter: the service stores the flat shape, and the variants are checked on their own. The mismatch is not reconciled.
- The service reads the comment's text as `content`, while the entity names that field `comment`. The model uses the entity's field.
- `Document.kt` has no block list, but the block-id variant reads one. The model's document row carries a block list, and nothing in the services ever sets it.
- `CommentServices.CommentService.CreateComment` requires a request location whose construction checks passed. In the source, a request location that fails them is never built, so the service never sees one.
- The messages of the failures are not modelled as text. Each failure carries the numbers and strings its message reports.
