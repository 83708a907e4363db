/**
 * The SQLite store of pkg/database/document_draft_db.go as an object over
 * in-memory tables. Each method follows the source step by step and is
 * proved to have the effect the functions of DraftTables, DraftQueries and
 * CommentsFold specify; the properties of those functions are proved there.
 */
module DraftStore {
  import opened Wrappers
  import opened Models
  import opened DraftTables
  import opened DraftQueries
  import opened CommentsFold

  class SQLite {
    var documents: seq<Document>
    var drafts: seq<Draft>
    var comments: seq<Comment>
    var reactions: seq<ReactionRow>
    // AUTOINCREMENT: the id the next insert into each table receives
    var nextDocumentId: int
    var nextDraftId: int
    var nextCommentId: int
    var nextReactionId: int

    /** The whole database as a value. */
    function State(): Tables
      reads this
    {
      Tables(documents, drafts, comments, reactions, nextDocumentId, nextDraftId, nextCommentId, nextReactionId)
    }

    ghost predicate Valid()
      reads this
    {
      DraftTables.Valid(State())
    }

    /** A freshly initialised database: four empty tables. */
    constructor ()
      ensures State() == EMPTY && Valid()
    {
      documents, drafts, comments, reactions := [], [], [], [];
      nextDocumentId, nextDraftId, nextCommentId, nextReactionId := 1, 1, 1, 1;
      EmptyValid();
    }

    /** SELECT ... FROM documents WHERE Id = id: the row, or None when absent. */
    function GetDocumentById(id: int): (r: Option<Document>)
      reads this
      ensures r.Some? ==> r.value in documents && r.value.id == id
      ensures r.None? <==> forall d | d in documents :: d.id != id
    {
      match FirstMatch(documents, ById(id))
      case Some(i) => Some(documents[i])
      case None => None
    }

    /** SELECT ... FROM documents WHERE Name = name: the first such row, or None when absent. */
    function GetDocumentByName(name: string): (r: Option<Document>)
      reads this
      ensures r.Some? ==> r.value in documents && r.value.name == name
      ensures r.None? <==> forall d | d in documents :: d.name != name
    {
      match FirstMatch(documents, ByName(name))
      case Some(i) => Some(documents[i])
      case None => None
    }

    /**
     * incrementDocumentVersion, an internal step of CreateDraft:
     * UPDATE documents SET LatestVersion = ? WHERE Name = ?, so every row of
     * that name is updated. On its own it does not keep Valid().
     */
    method IncrementDocumentVersion(document: Document)
      modifies this`documents
      ensures documents == SetVersionByName(old(documents), document.name, document.latestVersion)
    {
      documents := SetVersionByName(documents, document.name, document.latestVersion);
    }

    /**
     * createDocument, an internal step of CreateDraft: bump the existing
     * document's version, or insert the document at version 1 and read it
     * back. It leaves a document's version one ahead of its drafts until
     * CreateDraft appends the draft, so it does not keep Valid() on its own.
     */
    method CreateDocument(name: string, now: Timestamp) returns (doc: Document)
      requires Valid()
      modifies this`documents, this`nextDocumentId
      ensures (State(), doc) == ApplyCreateDocument(old(State()), name, now)
    {
      var existing := GetDocumentByName(name);
      if existing.Some? {
        var bumped := existing.value.(latestVersion := existing.value.latestVersion + 1);
        IncrementDocumentVersion(bumped);
        return bumped;
      }
      var id := nextDocumentId;
      DocumentIdsAfterAppend(documents, id, Document(id, name, 1, now));
      FirstMatchAppended(documents, Document(id, name, 1, now));
      documents := documents + [Document(id, name, 1, now)];
      nextDocumentId := id + 1;
      var found := GetDocumentById(id);
      doc := found.value;
    }

    /** CreateDraft: file a draft under the document of its name, stamped with that document's new version. */
    method CreateDraft(draft: DraftInput, now: Timestamp)
      requires Valid()
      modifies this`documents, this`nextDocumentId, this`drafts, this`nextDraftId
      ensures State() == ApplyCreateDraft(old(State()), draft.name, draft.content, now)
      ensures Valid()
    {
      var doc := CreateDocument(draft.name, now);
      drafts := drafts + [Draft(nextDraftId, doc.id, draft.content, doc.latestVersion, now)];
      nextDraftId := nextDraftId + 1;
      CreateDraftPreservesValid(old(State()), draft.name, draft.content, now);
    }

    /**
     * GetLatestDrafts: the drafts the WHERE clause keeps, ordered by version
     * number, highest first. The tables are not changed.
     */
    method GetLatestDrafts(limit: int) returns (result: seq<Draft>)
      ensures multiset(result) == multiset(LatestRows(drafts, drafts, limit))
      ensures forall d :: d in result <==> d in drafts && InLatest(drafts, d, limit)
      ensures ByVersionDesc(result)
    {
      result := [];
      for i := 0 to |drafts|
        invariant ByVersionDesc(result)
        invariant multiset(result) == multiset(LatestRows(drafts[..i], drafts, limit))
      {
        var d := drafts[i];
        assert drafts[..i + 1][..i] == drafts[..i];
        if InLatest(drafts, d, limit) {
          result := OrderedInsert(result, d);
        }
      }
      assert drafts[..|drafts|] == drafts;
      forall d
        ensures d in result <==> d in LatestRows(drafts, drafts, limit)
      {
        assert d in result <==> d in multiset(result);
      }
    }

    /**
     * SearchDrafts: exactly the drafts whose content contains the query, in
     * strictly decreasing id order. The tables are not changed.
     */
    method SearchDrafts(query: string) returns (result: seq<Draft>)
      requires Valid()
      ensures result == SearchRows(drafts, query)
      ensures forall d :: d in result <==> d in drafts && IsSubstring(query, d.content)
      ensures forall a, b | 0 <= a < b < |result| :: result[a].id > result[b].id
    {
      result := [];
      var i := |drafts|;
      while i > 0
        invariant 0 <= i <= |drafts|
        invariant result == SearchRows(drafts[i..], query)
      {
        i := i - 1;
        assert drafts[i..][1..] == drafts[i + 1..];
        if Like(drafts[i].content, query) {
          result := result + [drafts[i]];
        }
      }
      assert drafts[0..] == drafts;
      SearchRowsMembers(drafts, query);
      SearchRowsDescending(drafts, query);
    }

    /**
     * GetAllDocumentsLatestVersions: every document, in ascending id order,
     * each with the number of its drafts as its latest version.
     */
    method GetAllDocumentsLatestVersions() returns (result: seq<Document>)
      requires Valid()
      ensures multiset(result) == multiset(documents)
      ensures forall a, b | 0 <= a < b < |result| :: result[a].id < result[b].id
      ensures forall d | d in result :: d.latestVersion == |DraftsOf(drafts, d.id)|
    {
      DocumentsListed(State());
      result := [];
      for i := 0 to |documents|
        invariant result == documents[..i]
      {
        result := result + [documents[i]];
      }
      assert documents[..|documents|] == documents;
    }

    /** AddCommentToDraft: insert the comment under a fresh id and return that id. */
    method AddCommentToDraft(comment: Comment, now: Timestamp) returns (commentId: int)
      requires Valid()
      modifies this`comments, this`nextCommentId
      ensures (State(), commentId) == ApplyAddComment(old(State()), comment, now)
      ensures Valid()
    {
      commentId := nextCommentId;
      comments := comments + [Comment(commentId, comment.draftId, comment.userId, comment.text, comment.parentCommentId, now)];
      nextCommentId := commentId + 1;
      AddCommentPreservesValid(old(State()), comment, now);
    }

    /** AddReactionToComment: insert the reaction, its Id field going to the CommentId column. */
    method AddReactionToComment(reaction: Reaction, now: Timestamp)
      requires Valid()
      modifies this`reactions, this`nextReactionId
      ensures State() == ApplyAddReaction(old(State()), reaction, now)
      ensures Valid()
    {
      reactions := reactions + [ReactionRow(nextReactionId, reaction.id, reaction.userId, reaction.emoji, now)];
      nextReactionId := nextReactionId + 1;
      AddReactionPreservesValid(old(State()), reaction, now);
    }

    /**
     * GetCommentsAndReactionsByDraftId: fold the join rows into a map keyed
     * by comment id, then list the map's entries in no particular order.
     * The result has one entry per comment of the draft, with that
     * comment's fields and exactly its stored reactions.
     */
    method GetCommentsAndReactionsByDraftId(draftId: int) returns (result: seq<CommentWithReactions>)
      requires Valid()
      ensures (set c | c in result :: c.id) == set c | c in comments && c.draftId == draftId :: c.id
      ensures forall a, b | 0 <= a < b < |result| :: result[a].id != result[b].id
      ensures forall c | c in comments && c.draftId == draftId ::
        CommentWithReactions(c.id, c.userId, c.text, c.parentCommentId, c.createdAt, ReactionsOf(reactions, c.id)) in result
    {
      var rows := JoinRows(comments, reactions, draftId);
      var commentsMap := FoldRows(rows);

      result := MapEntries(commentsMap);

      JoinFold(comments, reactions, draftId);
      forall c | c in comments && c.draftId == draftId
        ensures CommentWithReactions(c.id, c.userId, c.text, c.parentCommentId, c.createdAt, ReactionsOf(reactions, c.id)) in result
      {
        assert c.id in commentsMap.Keys;
        var a :| 0 <= a < |result| && result[a].id == c.id;
      }
    }
  }

  /**
   * The rows.Next loop of GetCommentsAndReactionsByDraftId: each row either
   * adds its reaction to the entry of a comment seen before or starts the
   * entry of a new comment.
   */
  method FoldRows(rows: seq<JoinRow>) returns (commentsMap: map<int, CommentWithReactions>)
    ensures commentsMap == Fold(rows)
  {
    commentsMap := map[];
    for i := 0 to |rows|
      invariant commentsMap == Fold(rows[..i])
    {
      var row := rows[i];
      assert rows[..i + 1][..i] == rows[..i];
      assert Fold(rows[..i + 1]) == FoldStep(commentsMap, row);
      if row.commentId in commentsMap {
        if row.reaction.Some? {
          var stored := commentsMap[row.commentId];
          commentsMap := commentsMap[row.commentId := stored.(reactions := stored.reactions + [row.reaction.value])];
        }
      } else {
        var newComment := CommentWithReactions(row.commentId, row.userId, row.text, row.parentCommentId, row.createdAt, []);
        if row.reaction.Some? {
          newComment := newComment.(reactions := newComment.reactions + [row.reaction.value]);
        }
        assert newComment == Entry(row, ReactionList(row));
        commentsMap := commentsMap[row.commentId := newComment];
      }
    }
    assert rows[..|rows|] == rows;
  }

  /**
   * The map-to-slice loop at the end of GetCommentsAndReactionsByDraftId:
   * every entry of the map exactly once, in no particular order.
   */
  method MapEntries(m: map<int, CommentWithReactions>) returns (result: seq<CommentWithReactions>)
    requires forall k | k in m :: m[k].id == k
    ensures (set r | r in result :: r.id) == m.Keys
    ensures forall r | r in result :: r == m[r.id]
    ensures forall a, b | 0 <= a < b < |result| :: result[a].id != result[b].id
  {
    result := [];
    var pending := m.Keys;
    while pending != {}
      invariant pending <= m.Keys
      invariant (set r | r in result :: r.id) == m.Keys - pending
      invariant forall r | r in result :: r.id in m && r == m[r.id]
      invariant forall a, b | 0 <= a < b < |result| :: result[a].id != result[b].id
      decreases pending
    {
      NoMemberMeansEmpty(pending);
      var k :| k in pending;
      ghost var before := result;
      result := result + [m[k]];
      pending := pending - {k};
      assert forall r :: r in result <==> r in before || r == m[k];
      assert (set r | r in result :: r.id) == (set r | r in before :: r.id) + {k};
    }
  }

  /** A set without members is the empty set; this is what lets a key be picked from a non-empty one. */
  lemma NoMemberMeansEmpty(s: set<int>)
    ensures (forall x :: x !in s) ==> s == {}
  {
    if forall x :: x !in s {
      assert s == {};
    }
  }
}
