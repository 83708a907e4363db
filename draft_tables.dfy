/**
 * The store of pkg/database/document_draft_db.go reduced to four in-memory
 * tables. This module holds the pure specification: the state, the
 * invariants the store keeps, the effect of every write as a function of the
 * old state, and the selection and ordering rules of the read queries. The
 * class in store.dfy is proved to follow these functions.
 */
module DraftTables {
  import opened Wrappers
  import opened Models

  /**
   * The four tables in insertion (row id) order, and for each table the id
   * its next insert receives (INTEGER PRIMARY KEY AUTOINCREMENT: ids start
   * at 1 and are never reused).
   */
  datatype Tables = Tables(
    documents: seq<Document>, drafts: seq<Draft>, comments: seq<Comment>, reactions: seq<ReactionRow>,
    nextDocumentId: int, nextDraftId: int, nextCommentId: int, nextReactionId: int)

  /** A freshly created database. */
  const EMPTY := Tables([], [], [], [], 1, 1, 1, 1)

  // ---------------------------------------------------------------------
  // Row ids

  ghost predicate DocumentIds(docs: seq<Document>, next: int)
  {
    && 1 <= next
    && (forall i, j | 0 <= i < j < |docs| :: docs[i].id < docs[j].id)
    && (forall i | 0 <= i < |docs| :: 1 <= docs[i].id < next)
  }

  ghost predicate DraftIds(drafts: seq<Draft>, next: int)
  {
    && 1 <= next
    && AscendingIds(drafts)
    && (forall i | 0 <= i < |drafts| :: 1 <= drafts[i].id < next)
  }

  ghost predicate AscendingIds(drafts: seq<Draft>)
  {
    forall i, j | 0 <= i < j < |drafts| :: drafts[i].id < drafts[j].id
  }

  ghost predicate CommentIds(comments: seq<Comment>, next: int)
  {
    && 1 <= next
    && (forall i, j | 0 <= i < j < |comments| :: comments[i].id < comments[j].id)
    && (forall i | 0 <= i < |comments| :: 1 <= comments[i].id < next)
  }

  ghost predicate ReactionIds(reactions: seq<ReactionRow>, next: int)
  {
    && 1 <= next
    && (forall i, j | 0 <= i < j < |reactions| :: reactions[i].id < reactions[j].id)
    && (forall i | 0 <= i < |reactions| :: 1 <= reactions[i].id < next)
  }

  // ---------------------------------------------------------------------
  // Versioning

  /** The drafts of one document, in insertion order. */
  function DraftsOf(drafts: seq<Draft>, documentId: int): (r: seq<Draft>)
    ensures forall d :: d in r <==> d in drafts && d.documentId == documentId
  {
    if drafts == [] then []
    else
      var last := drafts[|drafts| - 1];
      DraftsOf(drafts[..|drafts| - 1], documentId) + (if last.documentId == documentId then [last] else [])
  }

  /** The drafts carry the versions 1, 2, ..., in order. */
  ghost predicate NumberedFromOne(ds: seq<Draft>)
  {
    forall k | 0 <= k < |ds| :: ds[k].versionNumber == k + 1
  }

  ghost predicate HasDocument(docs: seq<Document>, id: int)
  {
    exists i | 0 <= i < |docs| :: docs[i].id == id
  }

  /** Document names are unique. */
  ghost predicate NamesUnique(docs: seq<Document>)
  {
    forall i, j | 0 <= i < j < |docs| :: docs[i].name != docs[j].name
  }

  /** A document's latest version is the number of its drafts, and its drafts are numbered 1..latest version. */
  ghost predicate VersionsCounted(docs: seq<Document>, drafts: seq<Draft>)
  {
    forall i | 0 <= i < |docs| ::
      docs[i].latestVersion == |DraftsOf(drafts, docs[i].id)| && NumberedFromOne(DraftsOf(drafts, docs[i].id))
  }

  /** Every draft belongs to a stored document. */
  ghost predicate DraftsOwned(docs: seq<Document>, drafts: seq<Draft>)
  {
    forall j | 0 <= j < |drafts| :: HasDocument(docs, drafts[j].documentId)
  }

  /** Auto-versioning: the three facts above together. */
  ghost predicate Versioned(docs: seq<Document>, drafts: seq<Draft>)
  {
    NamesUnique(docs) && VersionsCounted(docs, drafts) && DraftsOwned(docs, drafts)
  }

  /** The invariant of the store. */
  ghost predicate Valid(t: Tables)
  {
    && DocumentIds(t.documents, t.nextDocumentId)
    && DraftIds(t.drafts, t.nextDraftId)
    && CommentIds(t.comments, t.nextCommentId)
    && ReactionIds(t.reactions, t.nextReactionId)
    && Versioned(t.documents, t.drafts)
  }

  lemma EmptyValid()
    ensures Valid(EMPTY)
  {
  }

  // ---------------------------------------------------------------------
  // Single-row lookups

  /** The WHERE clause of the two single-document lookups: by name or by id. */
  datatype DocumentKey = ByName(name: string) | ById(id: int)

  predicate KeyMatches(d: Document, key: DocumentKey)
  {
    match key
    case ByName(name) => d.name == name
    case ById(id) => d.id == id
  }

  /** The row QueryRow reads: the first row the key selects, or None when there is none. */
  function FirstMatch(docs: seq<Document>, key: DocumentKey): (r: Option<nat>)
    ensures r.Some? ==> r.value < |docs| && KeyMatches(docs[r.value], key)
    ensures r.Some? ==> forall j | 0 <= j < r.value :: !KeyMatches(docs[j], key)
    ensures r.None? ==> forall j | 0 <= j < |docs| :: !KeyMatches(docs[j], key)
  {
    if docs == [] then None
    else if KeyMatches(docs[0], key) then Some(0)
    else match FirstMatch(docs[1..], key)
      case None => None
      case Some(i) => Some(i + 1)
  }

  // ---------------------------------------------------------------------
  // Writes

  /** UPDATE documents SET LatestVersion = version WHERE Name = name. */
  function SetVersionByName(docs: seq<Document>, name: string, version: int): seq<Document>
  {
    seq(|docs|, i requires 0 <= i < |docs| =>
      if docs[i].name == name then docs[i].(latestVersion := version) else docs[i])
  }

  /**
   * createDocument: the first document with the name gets its version raised
   * by one (written back to every row of that name), or a new document is
   * inserted at version 1. Also yields the document the draft is filed under.
   */
  function ApplyCreateDocument(t: Tables, name: string, now: Timestamp): (r: (Tables, Document))
    ensures r.1.name == name && r.1 in r.0.documents
    ensures |r.0.documents| == |t.documents| || r.0.documents == t.documents + [r.1]
    ensures r.0.drafts == t.drafts && r.0.nextDraftId == t.nextDraftId
    ensures r.0.comments == t.comments && r.0.reactions == t.reactions
  {
    match FirstMatch(t.documents, ByName(name))
    case Some(i) =>
      var doc := t.documents[i].(latestVersion := t.documents[i].latestVersion + 1);
      var docs := SetVersionByName(t.documents, name, doc.latestVersion);
      assert docs[i] == doc;
      (t.(documents := docs), doc)
    case None =>
      var doc := Document(t.nextDocumentId, name, 1, now);
      (t.(documents := t.documents + [doc], nextDocumentId := t.nextDocumentId + 1), doc)
  }

  /** CreateDraft: createDocument, then a draft stamped with the document's new version. */
  function ApplyCreateDraft(t: Tables, name: string, content: string, now: Timestamp): (r: Tables)
    ensures |r.drafts| == |t.drafts| + 1 && r.drafts[..|t.drafts|] == t.drafts
    ensures r.drafts[|t.drafts|].content == content && r.drafts[|t.drafts|].id == t.nextDraftId
    ensures HasDocument(r.documents, r.drafts[|t.drafts|].documentId)
    ensures r.comments == t.comments && r.reactions == t.reactions
  {
    var (t1, doc) := ApplyCreateDocument(t, name, now);
    t1.(drafts := t1.drafts + [Draft(t1.nextDraftId, doc.id, content, doc.latestVersion, now)],
        nextDraftId := t1.nextDraftId + 1)
  }

  /** AddCommentToDraft: the comment row under a fresh id (the id and time in the request are not used). */
  function ApplyAddComment(t: Tables, comment: Comment, now: Timestamp): (Tables, int)
  {
    var row := Comment(t.nextCommentId, comment.draftId, comment.userId, comment.text, comment.parentCommentId, now);
    (t.(comments := t.comments + [row], nextCommentId := t.nextCommentId + 1), t.nextCommentId)
  }

  /** AddReactionToComment: the reaction's Id field is written to the CommentId column. */
  function ApplyAddReaction(t: Tables, reaction: Reaction, now: Timestamp): Tables
  {
    var row := ReactionRow(t.nextReactionId, reaction.id, reaction.userId, reaction.emoji, now);
    t.(reactions := t.reactions + [row], nextReactionId := t.nextReactionId + 1)
  }

  // ---------------------------------------------------------------------
  // What the writes promise

  lemma DraftsOfAppend(drafts: seq<Draft>, d: Draft, id: int)
    ensures DraftsOf(drafts + [d], id) == DraftsOf(drafts, id) + (if d.documentId == id then [d] else [])
  {
    assert (drafts + [d])[..|drafts|] == drafts;
  }

  lemma {:induction false} DraftsOfAbsent(drafts: seq<Draft>, id: int)
    requires forall j | 0 <= j < |drafts| :: drafts[j].documentId != id
    ensures DraftsOf(drafts, id) == []
  {
    if drafts != [] {
      DraftsOfAbsent(drafts[..|drafts| - 1], id);
    }
  }

  /** The documents table lists ids in ascending order, each document's version being its draft count. */
  lemma DocumentsListed(t: Tables)
    requires Valid(t)
    ensures forall a, b | 0 <= a < b < |t.documents| :: t.documents[a].id < t.documents[b].id
    ensures forall d | d in t.documents :: d.latestVersion == |DraftsOf(t.drafts, d.id)|
  {
    assert VersionsCounted(t.documents, t.drafts);
    forall d | d in t.documents
      ensures d.latestVersion == |DraftsOf(t.drafts, d.id)|
    {
      var k :| 0 <= k < |t.documents| && t.documents[k] == d;
    }
  }

  /** No draft belongs to the id the next document will receive. */
  lemma NoDraftsOfFreshId(t: Tables)
    requires Valid(t)
    ensures DraftsOf(t.drafts, t.nextDocumentId) == []
  {
    forall j | 0 <= j < |t.drafts|
      ensures t.drafts[j].documentId != t.nextDocumentId
    {
      assert HasDocument(t.documents, t.drafts[j].documentId);
    }
    DraftsOfAbsent(t.drafts, t.nextDocumentId);
  }

  /**
   * CreateDraft under a name some document has: that document's version
   * goes up by exactly one, no document row is added and no other document
   * changes; the new draft is filed under it with the raised version.
   */
  lemma {:induction false} CreateDraftExisting(t: Tables, name: string, content: string, now: Timestamp, i: int)
    requires Valid(t)
    requires 0 <= i < |t.documents| && t.documents[i].name == name
    ensures var t' := ApplyCreateDraft(t, name, content, now);
      && t'.documents == t.documents[i := t.documents[i].(latestVersion := t.documents[i].latestVersion + 1)]
      && t'.nextDocumentId == t.nextDocumentId
      && t'.drafts == t.drafts + [Draft(t.nextDraftId, t.documents[i].id, content, t.documents[i].latestVersion + 1, now)]
      && t'.nextDraftId == t.nextDraftId + 1
      && t'.comments == t.comments && t'.reactions == t.reactions
      && t'.nextCommentId == t.nextCommentId && t'.nextReactionId == t.nextReactionId
  {
    var k := FirstMatch(t.documents, ByName(name)).value;
    assert k == i by {
      assert NamesUnique(t.documents);
      assert t.documents[k].name == t.documents[i].name;
    }
    SetVersionOfUniqueName(t.documents, i, t.documents[i].latestVersion + 1);
  }

  /** With unique names, the UPDATE by name touches exactly one row. */
  lemma SetVersionOfUniqueName(docs: seq<Document>, i: int, version: int)
    requires NamesUnique(docs) && 0 <= i < |docs|
    ensures SetVersionByName(docs, docs[i].name, version) == docs[i := docs[i].(latestVersion := version)]
  {
  }

  /**
   * CreateDraft under a name no document has: exactly one document is
   * appended, at version 1, with an id above every existing id, and the new
   * draft is filed under it as version 1.
   */
  lemma CreateDraftNew(t: Tables, name: string, content: string, now: Timestamp)
    requires Valid(t)
    requires forall j | 0 <= j < |t.documents| :: t.documents[j].name != name
    ensures var t' := ApplyCreateDraft(t, name, content, now);
      && t'.documents == t.documents + [Document(t.nextDocumentId, name, 1, now)]
      && (forall j | 0 <= j < |t.documents| :: t.documents[j].id < t.nextDocumentId)
      && t'.nextDocumentId == t.nextDocumentId + 1
      && t'.drafts == t.drafts + [Draft(t.nextDraftId, t.nextDocumentId, content, 1, now)]
      && t'.nextDraftId == t.nextDraftId + 1
      && t'.comments == t.comments && t'.reactions == t.reactions
      && t'.nextCommentId == t.nextCommentId && t'.nextReactionId == t.nextReactionId
  {
  }

  /** Raising one document's version together with appending its next draft keeps the versioning invariant. */
  lemma VersionedAfterBump(docs: seq<Document>, drafts: seq<Draft>, i: int, nd: Draft)
    requires Versioned(docs, drafts)
    requires forall a, b | 0 <= a < b < |docs| :: docs[a].id < docs[b].id
    requires 0 <= i < |docs| && nd.documentId == docs[i].id && nd.versionNumber == docs[i].latestVersion + 1
    ensures Versioned(docs[i := docs[i].(latestVersion := docs[i].latestVersion + 1)], drafts + [nd])
  {
    var docs' := docs[i := docs[i].(latestVersion := docs[i].latestVersion + 1)];
    assert NamesUnique(docs') by {
      forall a, b | 0 <= a < b < |docs'|
        ensures docs'[a].name != docs'[b].name
      {
        assert docs'[a].name == docs[a].name && docs'[b].name == docs[b].name;
      }
    }
    CountedAfterBump(docs, drafts, i, nd);
    OwnedAfterBump(docs, drafts, i, nd);
  }

  lemma CountedAfterBump(docs: seq<Document>, drafts: seq<Draft>, i: int, nd: Draft)
    requires VersionsCounted(docs, drafts)
    requires forall a, b | 0 <= a < b < |docs| :: docs[a].id < docs[b].id
    requires 0 <= i < |docs| && nd.documentId == docs[i].id && nd.versionNumber == docs[i].latestVersion + 1
    ensures VersionsCounted(docs[i := docs[i].(latestVersion := docs[i].latestVersion + 1)], drafts + [nd])
  {
    var docs' := docs[i := docs[i].(latestVersion := docs[i].latestVersion + 1)];
    var drafts' := drafts + [nd];
    forall j | 0 <= j < |docs'|
      ensures docs'[j].latestVersion == |DraftsOf(drafts', docs'[j].id)|
      ensures NumberedFromOne(DraftsOf(drafts', docs'[j].id))
    {
      DraftsOfAppend(drafts, nd, docs'[j].id);
      if j != i {
        assert docs[j].id != docs[i].id;
      }
    }
  }

  lemma OwnedAfterBump(docs: seq<Document>, drafts: seq<Draft>, i: int, nd: Draft)
    requires DraftsOwned(docs, drafts)
    requires 0 <= i < |docs| && nd.documentId == docs[i].id
    ensures DraftsOwned(docs[i := docs[i].(latestVersion := docs[i].latestVersion + 1)], drafts + [nd])
  {
    var docs' := docs[i := docs[i].(latestVersion := docs[i].latestVersion + 1)];
    var drafts' := drafts + [nd];
    forall j | 0 <= j < |drafts'|
      ensures HasDocument(docs', drafts'[j].documentId)
    {
      if j < |drafts| {
        var k :| 0 <= k < |docs| && docs[k].id == drafts[j].documentId;
        assert docs'[k].id == docs[k].id;
      } else {
        assert docs'[i].id == drafts'[j].documentId;
      }
    }
  }

  /** Inserting a document at version 1 together with its first draft keeps the versioning invariant. */
  lemma VersionedAfterInsert(docs: seq<Document>, drafts: seq<Draft>, doc: Document, nd: Draft)
    requires Versioned(docs, drafts)
    requires forall a | 0 <= a < |docs| :: docs[a].name != doc.name && docs[a].id != doc.id
    requires DraftsOf(drafts, doc.id) == []
    requires doc.latestVersion == 1 && nd.documentId == doc.id && nd.versionNumber == 1
    ensures Versioned(docs + [doc], drafts + [nd])
  {
    var docs' := docs + [doc];
    assert NamesUnique(docs') by {
      forall a, b | 0 <= a < b < |docs'|
        ensures docs'[a].name != docs'[b].name
      {
        assert docs'[a] == docs[a];
      }
    }
    CountedAfterInsert(docs, drafts, doc, nd);
    OwnedAfterInsert(docs, drafts, doc, nd);
  }

  lemma CountedAfterInsert(docs: seq<Document>, drafts: seq<Draft>, doc: Document, nd: Draft)
    requires VersionsCounted(docs, drafts)
    requires forall a | 0 <= a < |docs| :: docs[a].id != doc.id
    requires DraftsOf(drafts, doc.id) == []
    requires doc.latestVersion == 1 && nd.documentId == doc.id && nd.versionNumber == 1
    ensures VersionsCounted(docs + [doc], drafts + [nd])
  {
    var docs' := docs + [doc];
    var drafts' := drafts + [nd];
    forall j | 0 <= j < |docs'|
      ensures docs'[j].latestVersion == |DraftsOf(drafts', docs'[j].id)|
      ensures NumberedFromOne(DraftsOf(drafts', docs'[j].id))
    {
      DraftsOfAppend(drafts, nd, docs'[j].id);
      if j < |docs| {
        assert docs'[j] == docs[j];
        assert DraftsOf(drafts', docs[j].id) == DraftsOf(drafts, docs[j].id);
      } else {
        assert docs'[j] == doc;
        assert DraftsOf(drafts', doc.id) == [nd];
      }
    }
  }

  lemma OwnedAfterInsert(docs: seq<Document>, drafts: seq<Draft>, doc: Document, nd: Draft)
    requires DraftsOwned(docs, drafts)
    requires nd.documentId == doc.id
    ensures DraftsOwned(docs + [doc], drafts + [nd])
  {
    var docs' := docs + [doc];
    var drafts' := drafts + [nd];
    forall j | 0 <= j < |drafts'|
      ensures HasDocument(docs', drafts'[j].documentId)
    {
      if j < |drafts| {
        var k :| 0 <= k < |docs| && docs[k].id == drafts[j].documentId;
        assert docs'[k] == docs[k];
      } else {
        assert docs'[|docs|].id == drafts'[j].documentId;
      }
    }
  }

  /** Reading back by id the row just inserted under a fresh id finds that row. */
  lemma FirstMatchAppended(docs: seq<Document>, doc: Document)
    requires forall a | 0 <= a < |docs| :: docs[a].id != doc.id
    ensures FirstMatch(docs + [doc], ById(doc.id)) == Some(|docs|)
  {
    var all := docs + [doc];
    assert all[|docs|].id == doc.id;
    assert forall a | 0 <= a < |docs| :: all[a].id != doc.id;
  }

  /** CreateDraft keeps every invariant of the store. */
  lemma CreateDraftPreservesValid(t: Tables, name: string, content: string, now: Timestamp)
    requires Valid(t)
    ensures Valid(ApplyCreateDraft(t, name, content, now))
  {
    var t' := ApplyCreateDraft(t, name, content, now);
    match FirstMatch(t.documents, ByName(name))
    case Some(i) =>
      CreateDraftExisting(t, name, content, now, i);
      ValidAfterBump(t, t', i, content, now);
    case None =>
      CreateDraftNew(t, name, content, now);
      ValidAfterInsert(t, t', name, content, now);
  }

  lemma ValidAfterBump(t: Tables, t': Tables, i: int, content: string, now: Timestamp)
    requires Valid(t)
    requires 0 <= i < |t.documents|
    requires t'.documents == t.documents[i := t.documents[i].(latestVersion := t.documents[i].latestVersion + 1)]
    requires t'.nextDocumentId == t.nextDocumentId
    requires t'.drafts == t.drafts + [Draft(t.nextDraftId, t.documents[i].id, content, t.documents[i].latestVersion + 1, now)]
    requires t'.nextDraftId == t.nextDraftId + 1
    requires t'.comments == t.comments && t'.reactions == t.reactions
    requires t'.nextCommentId == t.nextCommentId && t'.nextReactionId == t.nextReactionId
    ensures Valid(t')
  {
    var nd := Draft(t.nextDraftId, t.documents[i].id, content, t.documents[i].latestVersion + 1, now);
    assert DocumentIds(t'.documents, t'.nextDocumentId) by {
      assert forall a | 0 <= a < |t.documents| :: t'.documents[a].id == t.documents[a].id;
    }
    DraftIdsAfterAppend(t.drafts, t.nextDraftId, nd);
    VersionedAfterBump(t.documents, t.drafts, i, nd);
  }

  lemma ValidAfterInsert(t: Tables, t': Tables, name: string, content: string, now: Timestamp)
    requires Valid(t)
    requires forall j | 0 <= j < |t.documents| :: t.documents[j].name != name
    requires t'.documents == t.documents + [Document(t.nextDocumentId, name, 1, now)]
    requires t'.nextDocumentId == t.nextDocumentId + 1
    requires t'.drafts == t.drafts + [Draft(t.nextDraftId, t.nextDocumentId, content, 1, now)]
    requires t'.nextDraftId == t.nextDraftId + 1
    requires t'.comments == t.comments && t'.reactions == t.reactions
    requires t'.nextCommentId == t.nextCommentId && t'.nextReactionId == t.nextReactionId
    ensures Valid(t')
  {
    var doc := Document(t.nextDocumentId, name, 1, now);
    var nd := Draft(t.nextDraftId, t.nextDocumentId, content, 1, now);
    DocumentIdsAfterAppend(t.documents, t.nextDocumentId, doc);
    DraftIdsAfterAppend(t.drafts, t.nextDraftId, nd);
    NoDraftsOfFreshId(t);
    VersionedAfterInsert(t.documents, t.drafts, doc, nd);
  }

  lemma DocumentIdsAfterAppend(docs: seq<Document>, next: int, doc: Document)
    requires DocumentIds(docs, next) && doc.id == next
    ensures DocumentIds(docs + [doc], next + 1)
    ensures forall a | 0 <= a < |docs| :: docs[a].id != doc.id
  {
  }

  lemma DraftIdsAfterAppend(drafts: seq<Draft>, next: int, nd: Draft)
    requires DraftIds(drafts, next) && nd.id == next
    ensures DraftIds(drafts + [nd], next + 1)
  {
  }

  /** k successive CreateDraft calls under one name. */
  function CreateAll(t: Tables, name: string, contents: seq<string>, now: Timestamp): Tables
  {
    if contents == [] then t
    else ApplyCreateDraft(CreateAll(t, name, contents[..|contents| - 1], now), name, contents[|contents| - 1], now)
  }

  /**
   * Starting from an empty database, k >= 1 creates under one name give
   * exactly one document, with that name and latest version k, and k drafts
   * under it carrying versions 1..k and the contents in submission order.
   */
  lemma {:induction false} CreateAllFromEmpty(name: string, contents: seq<string>, now: Timestamp)
    requires contents != []
    ensures var t := CreateAll(EMPTY, name, contents, now);
      && t.documents == [Document(1, name, |contents|, now)]
      && |t.drafts| == |contents|
      && (forall k | 0 <= k < |contents| :: t.drafts[k] == Draft(k + 1, 1, contents[k], k + 1, now))
      && t.nextDocumentId == 2 && t.nextDraftId == |contents| + 1
  {
    var n := |contents|;
    if n > 1 {
      var prefix := contents[..n - 1];
      CreateAllFromEmpty(name, prefix, now);
      var t0 := CreateAll(EMPTY, name, prefix, now);
      assert FirstMatch(t0.documents, ByName(name)) == Some(0);
      var t := CreateAll(EMPTY, name, contents, now);
      assert t == ApplyCreateDraft(t0, name, contents[n - 1], now);
      assert t.documents == [Document(1, name, n, now)];
      forall k | 0 <= k < n
        ensures t.drafts[k] == Draft(k + 1, 1, contents[k], k + 1, now)
      {
        if k < n - 1 {
          assert t.drafts[k] == t0.drafts[k];
          assert prefix[k] == contents[k];
        }
      }
    }
  }

  /** The store keeps every invariant across k creates from an empty database. */
  lemma {:induction false} CreateAllValid(t: Tables, name: string, contents: seq<string>, now: Timestamp)
    requires Valid(t)
    ensures Valid(CreateAll(t, name, contents, now))
  {
    if contents != [] {
      CreateAllValid(t, name, contents[..|contents| - 1], now);
      CreateDraftPreservesValid(CreateAll(t, name, contents[..|contents| - 1], now), name, contents[|contents| - 1], now);
    }
  }

  /** AddCommentToDraft keeps every invariant and returns an id above every existing comment id. */
  lemma AddCommentPreservesValid(t: Tables, comment: Comment, now: Timestamp)
    requires Valid(t)
    ensures Valid(ApplyAddComment(t, comment, now).0)
    ensures forall c | c in t.comments :: c.id < ApplyAddComment(t, comment, now).1
  {
  }

  /** AddReactionToComment keeps every invariant; the stored row points at the comment named by the reaction's Id. */
  lemma AddReactionPreservesValid(t: Tables, reaction: Reaction, now: Timestamp)
    requires Valid(t)
    ensures var t' := ApplyAddReaction(t, reaction, now);
      && Valid(t')
      && t'.reactions[|t.reactions|].commentId == reaction.id
      && forall r | r in t.reactions :: r.id < t'.reactions[|t.reactions|].id
  {
  }
}
