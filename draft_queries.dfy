/**
 * The selection and ordering rules of the read queries of
 * pkg/database/document_draft_db.go, as functions over the drafts table.
 */
module DraftQueries {
  import opened Models
  import opened DraftTables

  // ---------------------------------------------------------------------
  // GetLatestDrafts

  /**
   * The correlated subquery of GetLatestDrafts: how many drafts of the same
   * document as d have a larger id.
   */
  function CountNewer(table: seq<Draft>, d: Draft): (r: nat)
    ensures r <= |DraftsOf(table, d.documentId)|
    ensures (forall j | 0 <= j < |table| :: table[j].documentId != d.documentId || table[j].id <= d.id) ==> r == 0
  {
    if table == [] then 0
    else
      var last := table[|table| - 1];
      CountNewer(table[..|table| - 1], d) + (if last.documentId == d.documentId && last.id > d.id then 1 else 0)
  }

  /** The WHERE clause: a positive limit keeps the limit newest drafts of each document; any other limit keeps all. */
  predicate InLatest(table: seq<Draft>, d: Draft, limit: int)
  {
    limit <= 0 || CountNewer(table, d) < limit
  }

  /** The rows of `rows` that the WHERE clause keeps, judged against the whole table. */
  function LatestRows(rows: seq<Draft>, table: seq<Draft>, limit: int): (r: seq<Draft>)
    ensures forall d :: d in r <==> d in rows && InLatest(table, d, limit)
  {
    if rows == [] then []
    else
      var last := rows[|rows| - 1];
      LatestRows(rows[..|rows| - 1], table, limit) + (if InLatest(table, last, limit) then [last] else [])
  }

  /** ORDER BY VersionNumber DESC. */
  ghost predicate ByVersionDesc(s: seq<Draft>)
  {
    forall i, j | 0 <= i < j < |s| :: s[i].versionNumber >= s[j].versionNumber
  }

  /** Places d after every row of at least its version: how the ordered result grows by one row. */
  function OrderedInsert(s: seq<Draft>, d: Draft): (r: seq<Draft>)
    requires ByVersionDesc(s)
    ensures ByVersionDesc(r)
    ensures multiset(r) == multiset(s) + multiset{d}
    ensures forall x | x in r :: x in s || x == d
  {
    if s == [] || s[0].versionNumber < d.versionNumber then
      HeadIsHighest(s);
      ConsByVersionDesc(d, s);
      [d] + s
    else
      var rest := OrderedInsert(s[1..], d);
      HeadIsHighest(s);
      ConsByVersionDesc(s[0], rest);
      assert s == [s[0]] + s[1..];
      [s[0]] + rest
  }

  lemma HeadIsHighest(s: seq<Draft>)
    requires ByVersionDesc(s)
    ensures forall x | x in s :: x.versionNumber <= s[0].versionNumber
  {
  }

  lemma ConsByVersionDesc(h: Draft, s: seq<Draft>)
    requires ByVersionDesc(s)
    requires forall x | x in s :: x.versionNumber <= h.versionNumber
    ensures ByVersionDesc([h] + s)
  {
    var r := [h] + s;
    forall i, j | 0 <= i < j < |r|
      ensures r[i].versionNumber >= r[j].versionNumber
    {
      assert r[j] == s[j - 1];
      if i > 0 {
        assert r[i] == s[i - 1];
      }
    }
  }

  /** A draft has no newer sibling exactly when no draft of its document has a larger id. */
  lemma {:induction false} NoneNewerIsNewest(table: seq<Draft>, d: Draft)
    ensures CountNewer(table, d) == 0 <==> forall e | e in table && e.documentId == d.documentId :: e.id <= d.id
  {
    if table != [] {
      var prefix := table[..|table| - 1];
      NoneNewerIsNewest(prefix, d);
      assert table == prefix + [table[|table| - 1]];
    }
  }

  /** A limit of zero or less keeps every draft, in table order. */
  lemma {:induction false} NoLimitKeepsAll(rows: seq<Draft>, table: seq<Draft>, limit: int)
    requires limit <= 0
    ensures LatestRows(rows, table, limit) == rows
  {
    if rows != [] {
      NoLimitKeepsAll(rows[..|rows| - 1], table, limit);
      assert rows == rows[..|rows| - 1] + [rows[|rows| - 1]];
    }
  }

  /** Every document that has drafts has a draft with no newer sibling: the one with the largest id. */
  lemma {:induction false} HeadExists(table: seq<Draft>, documentId: int, e: Draft)
    requires AscendingIds(table)
    requires e in table && e.documentId == documentId
    ensures exists d :: d in table && d.documentId == documentId && CountNewer(table, d) == 0
  {
    var n := |table|;
    var last := table[n - 1];
    var prefix := table[..n - 1];
    assert table == prefix + [last];
    if last.documentId == documentId {
      forall x | x in table && x.documentId == documentId
        ensures x.id <= last.id
      {
        var k :| 0 <= k < n && table[k] == x;
        assert k == n - 1 || table[k].id < table[n - 1].id;
      }
      NoneNewerIsNewest(table, last);
    } else {
      assert e in prefix;
      HeadExists(prefix, documentId, e);
      var d :| d in prefix && d.documentId == documentId && CountNewer(prefix, d) == 0;
      assert CountNewer(table, d) == CountNewer(prefix, d);
    }
  }

  /** At most one draft of a document has no newer sibling. */
  lemma HeadUnique(table: seq<Draft>, d1: Draft, d2: Draft)
    requires AscendingIds(table)
    requires d1 in table && d2 in table && d1.documentId == d2.documentId
    requires CountNewer(table, d1) == 0 && CountNewer(table, d2) == 0
    ensures d1 == d2
  {
    NoneNewerIsNewest(table, d1);
    NoneNewerIsNewest(table, d2);
    var i :| 0 <= i < |table| && table[i] == d1;
    var j :| 0 <= j < |table| && table[j] == d2;
    assert table[i].id == table[j].id;
  }

  /**
   * With limit 1 the query yields exactly one draft per document that has
   * drafts, and that draft is the one with the largest id.
   */
  lemma OneHeadPerDocument(table: seq<Draft>, e: Draft)
    requires AscendingIds(table)
    requires e in table
    ensures exists d :: d in LatestRows(table, table, 1) && d.documentId == e.documentId
    ensures forall d | d in LatestRows(table, table, 1) && d.documentId == e.documentId ::
      forall x | x in table && x.documentId == e.documentId :: x.id <= d.id
    ensures forall d1, d2 | d1 in LatestRows(table, table, 1) && d2 in LatestRows(table, table, 1) ::
      d1.documentId == d2.documentId ==> d1 == d2
  {
    HeadExists(table, e.documentId, e);
    forall d | d in LatestRows(table, table, 1) && d.documentId == e.documentId
      ensures forall x | x in table && x.documentId == e.documentId :: x.id <= d.id
    {
      NoneNewerIsNewest(table, d);
    }
    forall d1, d2 | d1 in LatestRows(table, table, 1) && d2 in LatestRows(table, table, 1) && d1.documentId == d2.documentId
      ensures d1 == d2
    {
      HeadUnique(table, d1, d2);
    }
  }

  /** The draft CreateDraft has just added is the newest of its document, so the default listing shows it. */
  lemma CreatedDraftIsListed(t: Tables, name: string, content: string, now: Timestamp)
    requires Valid(t)
    ensures var t' := ApplyCreateDraft(t, name, content, now);
      && |t'.drafts| == |t.drafts| + 1
      && var d := t'.drafts[|t.drafts|];
      && d.content == content
      && d in LatestRows(t'.drafts, t'.drafts, 1)
  {
    var t' := ApplyCreateDraft(t, name, content, now);
    var d := t'.drafts[|t.drafts|];
    assert t'.drafts == t.drafts + [d];
    forall x | x in t'.drafts && x.documentId == d.documentId
      ensures x.id <= d.id
    {
      if x != d {
        assert x in t.drafts;
      }
    }
    NoneNewerIsNewest(t'.drafts, d);
  }

  // ---------------------------------------------------------------------
  // SearchDrafts

  /** content LIKE '%' || query || '%', read as plain containment: query starts at some position of content. */
  predicate Like(content: string, query: string)
    ensures Like(content, query) ==> |query| <= |content|
  {
    query <= content || (content != [] && Like(content[1..], query))
  }

  ghost predicate IsSubstring(query: string, s: string)
  {
    exists i, j | 0 <= i <= j <= |s| :: s[i..j] == query
  }

  /** A match of the pattern yields a position where the query occurs. */
  lemma {:induction false} LikeHasSubstring(content: string, query: string)
    requires Like(content, query)
    ensures IsSubstring(query, content)
  {
    if query <= content {
      assert content[0..|query|] == query;
    } else {
      var tail := content[1..];
      LikeHasSubstring(tail, query);
      var i, j :| 0 <= i <= j <= |tail| && tail[i..j] == query;
      assert content[i + 1..j + 1] == tail[i..j] by {
        forall k | 0 <= k < j - i
          ensures content[i + 1..j + 1][k] == tail[i..j][k]
        {
          assert tail[i + k] == content[i + k + 1];
        }
      }
    }
  }

  /** An occurrence of the query at positions i..j makes the pattern match. */
  lemma {:induction false} SubstringIsLike(content: string, query: string, i: int, j: int)
    requires 0 <= i <= j <= |content| && content[i..j] == query
    ensures Like(content, query)
    decreases i
  {
    if i == 0 {
      assert query == content[..j];
    } else {
      var tail := content[1..];
      assert tail[i - 1..j - 1] == content[i..j];
      SubstringIsLike(tail, query, i - 1, j - 1);
    }
  }

  /** The pattern matches exactly the contents that hold the query as a substring. */
  lemma LikeIsSubstring(content: string, query: string)
    ensures Like(content, query) <==> IsSubstring(query, content)
  {
    if Like(content, query) {
      LikeHasSubstring(content, query);
    }
    if IsSubstring(query, content) {
      var i, j :| 0 <= i <= j <= |content| && content[i..j] == query;
      SubstringIsLike(content, query, i, j);
    }
  }

  /**
   * The search of cmd/main_test.go: "custodia bank" is found in
   * "Content about custodia bank" and not in "Content about API testing",
   * which has no 'k' where the query's last letter would fall.
   */
  lemma SearchExample()
    ensures IsSubstring("custodia bank", "Content about custodia bank")
    ensures !IsSubstring("custodia bank", "Content about API testing")
  {
    var lead, query := "Content about ", "custodia bank";
    var content := lead + query;
    assert content == "Content about custodia bank";
    assert content[|lead|..|content|] == query;
    var other := "Content about API testing";
    assert forall m | 0 <= m < |other| :: other[m] != 'k';
    forall i, j | 0 <= i <= j <= |other|
      ensures other[i..j] != query
    {
      if j - i == |query| {
        assert other[i..j][12] == other[i + 12];
      }
    }
  }

  /**
   * WHERE Content LIKE ... ORDER BY Id DESC over rows stored in ascending id
   * order: the matching rows, the last stored first.
   */
  function SearchRows(rows: seq<Draft>, query: string): (r: seq<Draft>)
    ensures |r| <= |rows|
    ensures forall d | d in r :: d in rows
  {
    if rows == [] then []
    else SearchRows(rows[1..], query) + (if Like(rows[0].content, query) then [rows[0]] else [])
  }

  /** The search returns exactly the rows whose content holds the query. */
  lemma {:induction false} SearchRowsMembers(rows: seq<Draft>, query: string)
    ensures forall d :: d in SearchRows(rows, query) <==> d in rows && IsSubstring(query, d.content)
  {
    if rows != [] {
      SearchRowsMembers(rows[1..], query);
      LikeIsSubstring(rows[0].content, query);
      assert rows == [rows[0]] + rows[1..];
    }
  }

  ghost predicate IdsDescending(rows: seq<Draft>)
  {
    forall a, b | 0 <= a < b < |rows| :: rows[a].id > rows[b].id
  }

  /** Over a table in ascending id order, the search lists ids strictly descending. */
  lemma {:induction false} SearchRowsDescending(rows: seq<Draft>, query: string)
    requires AscendingIds(rows)
    ensures IdsDescending(SearchRows(rows, query))
  {
    if rows != [] {
      var tail := rows[1..];
      assert AscendingIds(tail) by {
        forall i, j | 0 <= i < j < |tail|
          ensures tail[i].id < tail[j].id
        {
          assert tail[i] == rows[i + 1] && tail[j] == rows[j + 1];
        }
      }
      SearchRowsDescending(tail, query);
      var found := SearchRows(tail, query);
      forall d | d in found
        ensures d.id > rows[0].id
      {
        var k :| 0 <= k < |tail| && tail[k] == d;
        assert d == rows[k + 1];
      }
      if Like(rows[0].content, query) {
        DescendingSnoc(found, rows[0]);
      }
    }
  }

  lemma DescendingSnoc(found: seq<Draft>, x: Draft)
    requires IdsDescending(found)
    requires forall d | d in found :: d.id > x.id
    ensures IdsDescending(found + [x])
  {
    var r := found + [x];
    forall a, b | 0 <= a < b < |r|
      ensures r[a].id > r[b].id
    {
      assert r[a] == found[a];
      if b < |found| {
        assert r[b] == found[b];
      }
    }
  }
}
