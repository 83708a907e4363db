/**
 * GetCommentsAndReactionsByDraftId (pkg/database/document_draft_db.go): a
 * left outer join of a draft's comments on their reactions, folded into one
 * CommentWithReactions per comment id. The fold is specified here for any
 * row stream; JoinRows gives the stream the join produces from the tables.
 */
module CommentsFold {
  import opened Wrappers
  import opened Models

  /** One row of the join: the comment's columns and the reaction's, which are all NULL when the comment has none. */
  datatype JoinRow = JoinRow(
    commentId: int, userId: int, text: string, parentCommentId: Option<int>,
    createdAt: Timestamp, reaction: Option<Reaction>)

  /** The result entry built from a row's comment columns. */
  function Entry(row: JoinRow, reactions: seq<Reaction>): CommentWithReactions
  {
    CommentWithReactions(row.commentId, row.userId, row.text, row.parentCommentId, row.createdAt, reactions)
  }

  /** The row's reaction as a list: empty when the reaction columns are NULL. */
  function ReactionList(row: JoinRow): seq<Reaction>
  {
    if row.reaction.Some? then [row.reaction.value] else []
  }

  /**
   * One iteration of the fold: a comment id seen before gets the row's
   * reaction appended; a new comment id gets an entry from this row.
   */
  function FoldStep(m: map<int, CommentWithReactions>, row: JoinRow): (r: map<int, CommentWithReactions>)
    ensures r.Keys == m.Keys + {row.commentId}
  {
    if row.commentId in m then
      if row.reaction.Some? then
        m[row.commentId := m[row.commentId].(reactions := m[row.commentId].reactions + [row.reaction.value])]
      else m
    else
      m[row.commentId := Entry(row, ReactionList(row))]
  }

  /** The map the fold holds after consuming rows, in arrival order. */
  function Fold(rows: seq<JoinRow>): (m: map<int, CommentWithReactions>)
    ensures forall k | k in m :: m[k].id == k
  {
    if rows == [] then map[]
    else FoldStep(Fold(rows[..|rows| - 1]), rows[|rows| - 1])
  }

  /** The distinct comment ids of the row stream. */
  ghost function CommentIdsIn(rows: seq<JoinRow>): set<int>
  {
    set r | r in rows :: r.commentId
  }

  /** The non-NULL reactions of the rows of comment k, in arrival order. */
  function ReactionsFor(rows: seq<JoinRow>, k: int): seq<Reaction>
  {
    if rows == [] then []
    else
      var last := rows[|rows| - 1];
      ReactionsFor(rows[..|rows| - 1], k) + (if last.commentId == k then ReactionList(last) else [])
  }

  lemma {:induction false} ReactionsForAbsent(rows: seq<JoinRow>, k: int)
    requires forall j | 0 <= j < |rows| :: rows[j].commentId != k
    ensures ReactionsFor(rows, k) == []
  {
    if rows != [] {
      ReactionsForAbsent(rows[..|rows| - 1], k);
    }
  }

  lemma {:induction false} ReactionsForConcat(a: seq<JoinRow>, b: seq<JoinRow>, k: int)
    ensures ReactionsFor(a + b, k) == ReactionsFor(a, k) + ReactionsFor(b, k)
  {
    if b == [] {
      assert a + b == a;
    } else {
      var b' := b[..|b| - 1];
      assert (a + b)[..|a + b| - 1] == a + b';
      assert (a + b)[|a + b| - 1] == b[|b| - 1];
      ReactionsForConcat(a, b', k);
    }
  }

  /** The fold yields exactly one entry per distinct comment id of the stream. */
  lemma {:induction false} FoldKeys(rows: seq<JoinRow>)
    ensures Fold(rows).Keys == CommentIdsIn(rows)
  {
    if rows != [] {
      var prefix := rows[..|rows| - 1];
      FoldKeys(prefix);
      assert rows == prefix + [rows[|rows| - 1]];
    }
  }

  /** Each entry's reactions are the non-NULL reactions of its rows, in arrival order. */
  lemma {:induction false} FoldReactions(rows: seq<JoinRow>, k: int)
    requires k in Fold(rows)
    ensures Fold(rows)[k].reactions == ReactionsFor(rows, k)
  {
    var prefix := rows[..|rows| - 1];
    var last := rows[|rows| - 1];
    if k in Fold(prefix) {
      FoldReactions(prefix, k);
    } else {
      FoldKeys(prefix);
      forall j | 0 <= j < |prefix|
        ensures prefix[j].commentId != k
      {
        assert prefix[j] in prefix;
      }
      ReactionsForAbsent(prefix, k);
    }
  }

  /** Each entry's comment fields come from the first row with its id. */
  lemma {:induction false} FoldFirstRow(rows: seq<JoinRow>, i: int)
    requires 0 <= i < |rows|
    requires forall j | 0 <= j < i :: rows[j].commentId != rows[i].commentId
    ensures rows[i].commentId in Fold(rows)
    ensures Fold(rows)[rows[i].commentId] == Entry(rows[i], ReactionsFor(rows, rows[i].commentId))
  {
    var k := rows[i].commentId;
    var prefix := rows[..|rows| - 1];
    var last := rows[|rows| - 1];
    if i < |rows| - 1 {
      FoldFirstRow(prefix, i);
      assert k in Fold(rows);
    } else {
      FoldKeys(prefix);
      assert k !in CommentIdsIn(prefix);
    }
    FoldReactions(rows, k);
  }

  /** A comment none of whose rows carries a reaction (a single NULL row, say) gets an empty list. */
  lemma NoReactionsGiveEmptyList(rows: seq<JoinRow>, k: int)
    requires k in Fold(rows)
    requires forall j | 0 <= j < |rows| && rows[j].commentId == k :: rows[j].reaction.None?
    ensures Fold(rows)[k].reactions == []
  {
    FoldReactions(rows, k);
    ReactionsForNone(rows, k);
  }

  lemma {:induction false} ReactionsForNone(rows: seq<JoinRow>, k: int)
    requires forall j | 0 <= j < |rows| && rows[j].commentId == k :: rows[j].reaction.None?
    ensures ReactionsFor(rows, k) == []
  {
    if rows != [] {
      ReactionsForNone(rows[..|rows| - 1], k);
    }
  }

  // ---------------------------------------------------------------------
  // The rows the join produces

  /** The reaction columns of a reactions row. */
  function ReactionOf(r: ReactionRow): Reaction
  {
    Reaction(r.id, r.userId, r.emoji, r.createdAt)
  }

  /** The reactions stored for comment k, in table order. */
  function ReactionsOf(reactions: seq<ReactionRow>, k: int): seq<Reaction>
  {
    if reactions == [] then []
    else
      var last := reactions[|reactions| - 1];
      ReactionsOf(reactions[..|reactions| - 1], k) + (if last.commentId == k then [ReactionOf(last)] else [])
  }

  /** The comment's columns paired with a reaction's (or with NULLs). */
  function RowOf(c: Comment, reaction: Option<Reaction>): JoinRow
  {
    JoinRow(c.id, c.userId, c.text, c.parentCommentId, c.createdAt, reaction)
  }

  /** One row per reaction of the comment. */
  function RowsWith(c: Comment, rs: seq<Reaction>): seq<JoinRow>
  {
    if rs == [] then []
    else RowsWith(c, rs[..|rs| - 1]) + [RowOf(c, Some(rs[|rs| - 1]))]
  }

  /** LEFT JOIN: one row per reaction, or a single row of NULL reaction columns. */
  function CommentRows(c: Comment, reactions: seq<ReactionRow>): seq<JoinRow>
  {
    var rs := ReactionsOf(reactions, c.id);
    if rs == [] then [RowOf(c, None)] else RowsWith(c, rs)
  }

  /** The rows of the join for one draft, comment by comment in table order. */
  function JoinRows(comments: seq<Comment>, reactions: seq<ReactionRow>, draftId: int): seq<JoinRow>
  {
    if comments == [] then []
    else
      var last := comments[|comments| - 1];
      JoinRows(comments[..|comments| - 1], reactions, draftId)
      + (if last.draftId == draftId then CommentRows(last, reactions) else [])
  }

  lemma {:induction false} RowsWithFacts(c: Comment, rs: seq<Reaction>)
    ensures |RowsWith(c, rs)| == |rs|
    ensures forall j | 0 <= j < |rs| :: RowsWith(c, rs)[j] == RowOf(c, Some(rs[j]))
    ensures ReactionsFor(RowsWith(c, rs), c.id) == rs
  {
    if rs != [] {
      var init := rs[..|rs| - 1];
      var x := rs[|rs| - 1];
      RowsWithFacts(c, init);
      var rows := RowsWith(c, rs);
      assert rows == RowsWith(c, init) + [RowOf(c, Some(x))];
      assert rows[..|rows| - 1] == RowsWith(c, init);
      assert ReactionsFor(rows, c.id) == rs by {
        assert ReactionsFor(rows, c.id) == ReactionsFor(RowsWith(c, init), c.id) + [x];
        assert rs == init + [x];
      }
      forall j | 0 <= j < |rs|
        ensures rows[j] == RowOf(c, Some(rs[j]))
      {
        if j < |init| {
          assert rows[j] == RowsWith(c, init)[j];
          assert rs[j] == init[j];
        }
      }
    }
  }

  /** The rows of one comment all carry its columns, and their reactions are its stored reactions. */
  lemma CommentRowsFacts(c: Comment, reactions: seq<ReactionRow>)
    ensures CommentRows(c, reactions) != []
    ensures forall r | r in CommentRows(c, reactions) :: r == RowOf(c, r.reaction)
    ensures ReactionsFor(CommentRows(c, reactions), c.id) == ReactionsOf(reactions, c.id)
  {
    var rs := ReactionsOf(reactions, c.id);
    if rs != [] {
      RowsWithFacts(c, rs);
    } else {
      assert ReactionsFor([RowOf(c, None)], c.id) == ReactionsFor([], c.id) + [];
    }
  }

  ghost predicate UniqueIds(comments: seq<Comment>)
  {
    forall i, j | 0 <= i < j < |comments| :: comments[i].id != comments[j].id
  }

  lemma CommentIdsInConcat(a: seq<JoinRow>, b: seq<JoinRow>)
    ensures CommentIdsIn(a + b) == CommentIdsIn(a) + CommentIdsIn(b)
  {
    forall k | k in CommentIdsIn(a + b)
      ensures k in CommentIdsIn(a) + CommentIdsIn(b)
    {
      var r :| r in a + b && r.commentId == k;
    }
    forall k | k in CommentIdsIn(a) + CommentIdsIn(b)
      ensures k in CommentIdsIn(a + b)
    {
      if k in CommentIdsIn(a) {
        var r :| r in a && r.commentId == k;
        assert r in a + b;
      } else {
        var r :| r in b && r.commentId == k;
        assert r in a + b;
      }
    }
  }

  /** The join has no rows exactly when no comment belongs to the draft. */
  lemma {:induction false} JoinRowsEmpty(comments: seq<Comment>, reactions: seq<ReactionRow>, draftId: int)
    ensures JoinRows(comments, reactions, draftId) == [] <==> forall c | c in comments :: c.draftId != draftId
  {
    if comments != [] {
      var prefix := comments[..|comments| - 1];
      var last := comments[|comments| - 1];
      JoinRowsEmpty(prefix, reactions, draftId);
      assert comments == prefix + [last];
      if last.draftId == draftId {
        CommentRowsFacts(last, reactions);
      }
    }
  }

  /** Every row of the join comes from a comment of the draft, with that comment's columns. */
  lemma {:induction false} JoinRowsFrom(comments: seq<Comment>, reactions: seq<ReactionRow>, draftId: int)
    ensures forall r | r in JoinRows(comments, reactions, draftId) ::
      exists c :: c in comments && c.draftId == draftId && r == RowOf(c, r.reaction)
  {
    if comments != [] {
      var prefix := comments[..|comments| - 1];
      var last := comments[|comments| - 1];
      JoinRowsFrom(prefix, reactions, draftId);
      CommentRowsFacts(last, reactions);
      var head := JoinRows(prefix, reactions, draftId);
      var tail := if last.draftId == draftId then CommentRows(last, reactions) else [];
      assert JoinRows(comments, reactions, draftId) == head + tail;
      forall r: JoinRow | r in head + tail
        ensures exists c :: c in comments && c.draftId == draftId && r == RowOf(c, r.reaction)
      {
        if r in head {
          var c :| c in prefix && c.draftId == draftId && r == RowOf(c, r.reaction);
          assert c in comments;
        } else {
          assert r in tail;
          assert last in comments;
        }
      }
    }
  }

  /** The comment ids of the join are the ids of the draft's comments. */
  lemma {:induction false} JoinIds(comments: seq<Comment>, reactions: seq<ReactionRow>, draftId: int)
    ensures CommentIdsIn(JoinRows(comments, reactions, draftId)) == DraftCommentIds(comments, draftId)
  {
    if comments != [] {
      var prefix := comments[..|comments| - 1];
      var last := comments[|comments| - 1];
      JoinIds(prefix, reactions, draftId);
      var head := JoinRows(prefix, reactions, draftId);
      var tail := if last.draftId == draftId then CommentRows(last, reactions) else [];
      CommentIdsInConcat(head, tail);
      if last.draftId == draftId {
        CommentRowIds(last, reactions);
      }
      DraftCommentIdsSnoc(prefix, last, draftId);
      assert comments == prefix + [last];
    }
  }

  /** The ids of the comments of one draft. */
  ghost function DraftCommentIds(comments: seq<Comment>, draftId: int): set<int>
  {
    set c | c in comments && c.draftId == draftId :: c.id
  }

  lemma DraftCommentIdsSnoc(prefix: seq<Comment>, last: Comment, draftId: int)
    ensures DraftCommentIds(prefix + [last], draftId)
      == DraftCommentIds(prefix, draftId) + (if last.draftId == draftId then {last.id} else {})
  {
    var all := prefix + [last];
    forall k | k in DraftCommentIds(all, draftId)
      ensures k in DraftCommentIds(prefix, draftId) || (last.draftId == draftId && k == last.id)
    {
      var c :| c in all && c.draftId == draftId && c.id == k;
      if c != last {
        assert c in prefix;
      }
    }
    forall k | k in DraftCommentIds(prefix, draftId)
      ensures k in DraftCommentIds(all, draftId)
    {
      var c :| c in prefix && c.draftId == draftId && c.id == k;
      assert c in all;
    }
    if last.draftId == draftId {
      assert last in all;
    }
  }

  /** Every row of one comment's join carries that comment's id. */
  lemma CommentRowIds(c: Comment, reactions: seq<ReactionRow>)
    ensures CommentIdsIn(CommentRows(c, reactions)) == {c.id}
  {
    CommentRowsFacts(c, reactions);
    var rows := CommentRows(c, reactions);
    assert rows[0] in rows;
  }

  /** The join has no row for a comment id that no comment of the draft has. */
  lemma JoinRowsAbsent(comments: seq<Comment>, reactions: seq<ReactionRow>, draftId: int, k: int)
    requires forall c | c in comments :: c.id != k
    ensures forall j | 0 <= j < |JoinRows(comments, reactions, draftId)| :: JoinRows(comments, reactions, draftId)[j].commentId != k
  {
    JoinIds(comments, reactions, draftId);
    var rows := JoinRows(comments, reactions, draftId);
    forall j | 0 <= j < |rows|
      ensures rows[j].commentId != k
    {
      assert rows[j].commentId in CommentIdsIn(rows);
    }
  }

  /** The rows of a comment of the draft carry exactly its stored reactions. */
  lemma {:induction false} JoinReactions(comments: seq<Comment>, reactions: seq<ReactionRow>, draftId: int, c: Comment)
    requires UniqueIds(comments)
    requires c in comments && c.draftId == draftId
    ensures ReactionsFor(JoinRows(comments, reactions, draftId), c.id) == ReactionsOf(reactions, c.id)
  {
    var n := |comments|;
    var prefix := comments[..n - 1];
    var last := comments[n - 1];
    var head := JoinRows(prefix, reactions, draftId);
    var tail := if last.draftId == draftId then CommentRows(last, reactions) else [];
    assert JoinRows(comments, reactions, draftId) == head + tail;
    ReactionsForConcat(head, tail, c.id);
    UniquePrefix(comments);
    if c == last {
      CommentRowsFacts(last, reactions);
      JoinRowsAbsent(prefix, reactions, draftId, c.id);
      ReactionsForAbsent(head, c.id);
    } else {
      assert comments == prefix + [last];
      assert c in prefix;
      JoinReactions(prefix, reactions, draftId, c);
      TailAbsent(last, reactions, draftId, c.id);
    }
  }

  /** Dropping the last comment keeps ids distinct, and no remaining comment shares the last one's id. */
  lemma UniquePrefix(comments: seq<Comment>)
    requires UniqueIds(comments) && comments != []
    ensures UniqueIds(comments[..|comments| - 1])
    ensures forall c | c in comments[..|comments| - 1] :: c.id != comments[|comments| - 1].id
  {
    var prefix := comments[..|comments| - 1];
    forall i, j | 0 <= i < j < |prefix|
      ensures prefix[i].id != prefix[j].id
    {
      assert prefix[i] == comments[i] && prefix[j] == comments[j];
    }
    forall c | c in prefix
      ensures c.id != comments[|comments| - 1].id
    {
      var b :| 0 <= b < |prefix| && prefix[b] == c;
      assert comments[b] == c;
    }
  }

  lemma TailAbsent(last: Comment, reactions: seq<ReactionRow>, draftId: int, k: int)
    requires last.id != k
    ensures ReactionsFor(if last.draftId == draftId then CommentRows(last, reactions) else [], k) == []
  {
    var tail := if last.draftId == draftId then CommentRows(last, reactions) else [];
    CommentRowsFacts(last, reactions);
    forall j | 0 <= j < |tail|
      ensures tail[j].commentId != k
    {
      assert tail[j] in CommentRows(last, reactions);
    }
    ReactionsForAbsent(tail, k);
  }

  /** Some row of the stream is the first with comment id k. */
  lemma FirstRowExists(rows: seq<JoinRow>, k: int)
    requires k in CommentIdsIn(rows)
    ensures exists i :: 0 <= i < |rows| && rows[i].commentId == k && forall j | 0 <= j < i :: rows[j].commentId != k
  {
    var r :| r in rows && r.commentId == k;
    var i :| 0 <= i < |rows| && rows[i] == r;
    FirstRowAtOrBefore(rows, k, i);
  }

  lemma {:induction false} FirstRowAtOrBefore(rows: seq<JoinRow>, k: int, i: int)
    requires 0 <= i < |rows| && rows[i].commentId == k
    ensures exists m :: 0 <= m <= i && rows[m].commentId == k && forall j | 0 <= j < m :: rows[j].commentId != k
    decreases i
  {
    if exists j :: 0 <= j < i && rows[j].commentId == k {
      var j :| 0 <= j < i && rows[j].commentId == k;
      FirstRowAtOrBefore(rows, k, j);
    }
  }

  /**
   * The fold of the join: one entry per comment of the draft, carrying the
   * comment's own fields and exactly its stored reactions in table order.
   */
  lemma JoinFold(comments: seq<Comment>, reactions: seq<ReactionRow>, draftId: int)
    requires UniqueIds(comments)
    ensures Fold(JoinRows(comments, reactions, draftId)).Keys == set c | c in comments && c.draftId == draftId :: c.id
    ensures forall c | c in comments && c.draftId == draftId ::
      Fold(JoinRows(comments, reactions, draftId))[c.id]
      == CommentWithReactions(c.id, c.userId, c.text, c.parentCommentId, c.createdAt, ReactionsOf(reactions, c.id))
  {
    var rows := JoinRows(comments, reactions, draftId);
    JoinRowsFrom(comments, reactions, draftId);
    JoinIds(comments, reactions, draftId);
    FoldKeys(rows);
    forall c | c in comments && c.draftId == draftId
      ensures Fold(rows)[c.id]
        == CommentWithReactions(c.id, c.userId, c.text, c.parentCommentId, c.createdAt, ReactionsOf(reactions, c.id))
    {
      assert c.id in CommentIdsIn(rows);
      FirstRowExists(rows, c.id);
      var i :| 0 <= i < |rows| && rows[i].commentId == c.id && forall j | 0 <= j < i :: rows[j].commentId != c.id;
      FoldFirstRow(rows, i);
      JoinReactions(comments, reactions, draftId, c);
      assert rows[i] in rows;
      var c' :| c' in comments && c'.draftId == draftId && rows[i] == RowOf(c', rows[i].reaction);
      var a :| 0 <= a < |comments| && comments[a] == c;
      var b :| 0 <= b < |comments| && comments[b] == c';
      assert comments[a].id == comments[b].id;
    }
  }
}
