/**
 * The records of the store (pkg/database/models.go) and of the request
 * surface (pkg/common/common_models.go).
 */
module Models {
  import opened Wrappers

  /** A point in time. Opaque: no operation of the model looks inside it. */
  datatype Timestamp = Timestamp(instant: int)

  /** The zero value of Go's time.Time, carried by records a handler builds itself. */
  const ZERO_TIME := Timestamp(0)

  /** A row of the documents table. */
  datatype Document = Document(id: int, name: string, latestVersion: int, createdAt: Timestamp)

  /** A row of the drafts table. */
  datatype Draft = Draft(id: int, documentId: int, content: string, versionNumber: int, createdAt: Timestamp)

  /** A row of the comments table; also the body of a comment request. */
  datatype Comment = Comment(
    id: int, draftId: int, userId: int, text: string,
    parentCommentId: Option<int>, createdAt: Timestamp)

  /** A row of the reactions table (the columns the store writes). */
  datatype ReactionRow = ReactionRow(id: int, commentId: int, userId: int, emoji: string, createdAt: Timestamp)

  /** common.Reaction: the reaction as requests and responses carry it (no comment column). */
  datatype Reaction = Reaction(id: int, userId: int, emoji: string, createdAt: Timestamp)

  /** common.Draft: the body of a draft request. */
  datatype DraftInput = DraftInput(name: string, content: string, versionNumber: int)

  /** A comment with the reactions attached to it, as the comments-with-reactions query returns it. */
  datatype CommentWithReactions = CommentWithReactions(
    id: int, userId: int, text: string, parentCommentId: Option<int>,
    createdAt: Timestamp, reactions: seq<Reaction>)
}
