# Document comment API: a Dafny model of the draft store and the request checks

The service keeps versioned documents. Posting a draft under a document
name either creates the document at version 1 or bumps its latest version,
and files the draft under that version number. Clients list the newest
drafts of every document, search drafts by content, comment on drafts,
react to comments with emojis, and read a draft's comments with their
reactions folded in.

This project models two parts of the service:

- **The store** (`pkg/database/document_draft_db.go`). The four SQLite
  tables are sequences of rows, plus one AUTOINCREMENT counter per table.
  - `DraftTables` gives each write its effect on the tables as a pure
    function. It also gives the invariant those writes keep: ids are
    ascending and fresh, document names are unique, each document's
    latest version equals its number of drafts, and those drafts are
    numbered 1..n.
  - `DraftQueries` gives the selection and ordering rules of the two draft
    queries.
  - `CommentsFold` models the LEFT JOIN of comments with reactions, and
    the fold that turns its rows into one entry per comment.
  - `DraftStore.SQLite` is a class with those tables as fields. Its
    methods follow the Go code step by step; where a query's work is done
    by SQLite itself (the `ORDER BY` of GetLatestDrafts, the reverse id
    order of SearchDrafts), a loop stands for the engine. Each method is
    proved to have the effect the specifying functions describe.
- **The handlers** (`pkg/api/handlers.go`). `Emoji` holds the emoji
  allow-list. `Handlers` models each handler's checks, up to its one call
  into the store, as a function. The result is either an error status
  with a message, or the store call with its arguments. `strconv.Atoi` is
  modelled with Go's rules for base-10 parsing into an int64.

Modules:

| file | module | contents |
|---|---|---|
| wrappers.dfy | Wrappers | `Option` |
| models.dfy | Models | the records of `pkg/database/models.go` and `pkg/common/common_models.go` |
| emoji.dfy | Emoji | the code-point allow-list |
| draft_tables.dfy | DraftTables | tables, invariant, write effects |
| draft_queries.dfy | DraftQueries | latest-drafts and search rules |
| comments_fold.dfy | CommentsFold | join rows and the fold |
| store.dfy | DraftStore | the `SQLite` class |
| handlers.dfy | Handlers | Atoi and the handler decisions |

## Model

| member | source | states |
|---|---|---|
| DraftStore.SQLite.constructor | pkg/database/init.go:30-64 | A new store has four empty tables, every id counter at 1, and satisfies the table invariant. |
| DraftStore.SQLite.GetDocumentById | pkg/database/document_draft_db.go:45-57 | Returns a stored document carrying the requested id. Returns None exactly when no row has that id. |
| DraftStore.SQLite.GetDocumentByName | pkg/database/document_draft_db.go:60-72 | Returns a stored document with the requested name. Returns None exactly when no row has that name. |
| DraftStore.SQLite.IncrementDocumentVersion | pkg/database/document_draft_db.go:38-42 | The UPDATE sets the given version on every row with the document's name. No other row or table changes. |
| DraftStore.SQLite.CreateDocument | pkg/database/document_draft_db.go:10-35 | If the name exists: bumps the first such document's version by one and returns the bumped record. Otherwise: inserts the name at version 1 under the next id, reads it back by id, and returns the inserted row. |
| DraftStore.SQLite.CreateDraft | pkg/database/document_draft_db.go:75-94 | The tables become `ApplyCreateDraft` of the old tables. The table invariant still holds afterwards. |
| DraftStore.SQLite.GetLatestDrafts | pkg/database/document_draft_db.go:97-138 | The result holds exactly the drafts that pass the limit rule, each as often as it is stored. It is ordered by version number, highest first. The tables do not change. |
| DraftStore.SQLite.SearchDrafts | pkg/database/document_draft_db.go:141-169 | The result holds exactly the drafts whose content contains the query. Ids are strictly descending. The tables do not change. |
| DraftStore.SQLite.GetAllDocumentsLatestVersions | pkg/database/document_draft_db.go:172-194 | Every document exactly once, in ascending id order. Each document's latest version equals its number of drafts. |
| DraftStore.SQLite.AddCommentToDraft | pkg/database/document_draft_db.go:197-210 | Appends the comment under the next comment id and returns that id, which is above every earlier comment id. The invariant holds afterwards. |
| DraftStore.SQLite.AddReactionToComment | pkg/database/document_draft_db.go:290-294 | Appends a reaction row whose comment column holds the reaction's Id field, under a fresh id. The invariant holds afterwards. |
| DraftStore.SQLite.GetCommentsAndReactionsByDraftId | pkg/database/document_draft_db.go:213-287 | One entry per comment of the draft, with distinct ids and no other entries. Each entry carries its comment's fields and exactly that comment's stored reactions, in table order. |
| DraftStore.FoldRows | pkg/database/document_draft_db.go:228-274 | The rows loop builds exactly the map Fold specifies, whose keys and entries FoldKeys, FoldReactions and FoldFirstRow describe. |
| DraftStore.MapEntries | pkg/database/document_draft_db.go:276-280 | Lists every entry of the map exactly once, each under its own key. |
| DraftTables.EmptyValid | pkg/database/init.go:30-64 | The empty database satisfies the table invariant. |
| DraftTables.DraftsOf | pkg/database/document_draft_db.go:104-108 | A draft belongs to the selection exactly when it is stored under the given document id. |
| DraftQueries.CountNewer | pkg/database/document_draft_db.go:104-108 | The correlated COUNT(*) of same-document drafts with a larger id: never more than that document's drafts, and 0 when no such draft exists. |
| DraftQueries.InLatest | pkg/database/document_draft_db.go:99-116 | The limit rule. A limit above 0 keeps a draft when fewer than `limit` drafts of its document have a larger id (the WHERE at 104-108). Any other limit keeps every draft (the select-all branch). NoLimitKeepsAll and OneHeadPerDocument state its consequences. |
| DraftTables.FirstMatch | pkg/database/document_draft_db.go:45-72 | The WHERE clause of GetDocumentById and GetDocumentByName (by id or by name): gives the index of the first row the key selects, with no earlier row selected; None only when no row is selected. |
| DraftTables.ApplyCreateDocument | pkg/database/document_draft_db.go:10-35 | The document returned carries the requested name and is a row of the new documents table. The table either keeps its length (a version bump) or gains exactly the returned document at its end. Drafts, comments, reactions and the draft counter do not change. |
| DraftTables.ApplyCreateDraft | pkg/database/document_draft_db.go:75-94 | Exactly one draft is appended, under the next draft id, carrying the posted content and filed under a document present in the new documents table. Comments and reactions do not change. |
| DraftTables.SetVersionByName | pkg/database/document_draft_db.go:38-42 | The `UPDATE documents SET LatestVersion = ? WHERE Name = ?`: every row with the name gets the new version, and every other row is kept as it was. The definition states this directly. The single-row effect under unique names is SetVersionOfUniqueName. |
| DraftTables.ApplyAddComment | pkg/database/document_draft_db.go:197-210 | The INSERT into comments: one row is appended under the next comment id, holding the request's draft, user, text and parent, stamped with the current time. That id is returned, and the counter goes up by one. Its effect on the invariant is AddCommentPreservesValid. |
| DraftTables.ApplyAddReaction | pkg/database/document_draft_db.go:290-294 | The INSERT into reactions: one row is appended under the next reaction id, holding the reaction's Id field as its CommentId, plus its user and emoji, stamped with the current time. Its effect on the invariant is AddReactionPreservesValid. |
| DraftTables.DraftsOfAppend | pkg/database/document_draft_db.go:87-88 | Inserting a draft extends its own document's drafts by that draft and leaves every other document's drafts as they were. |
| DraftTables.DraftsOfAbsent | pkg/database/document_draft_db.go:87-88 | A document id that no draft references has no drafts. |
| DraftTables.DocumentsListed | pkg/database/document_draft_db.go:172-194 | In a valid store the documents table is in ascending id order, which is the `ORDER BY Id` of the listing. Each document's latest version is its number of drafts. |
| DraftTables.NoDraftsOfFreshId | pkg/database/document_draft_db.go:24-34 | The id the next new document receives has no drafts yet. |
| DraftTables.CreateDraftExisting | pkg/database/document_draft_db.go:11-22 | For an existing name: that document's latest version goes up by one, and the appended draft carries the bumped version. No document is added, the draft counter goes up by one, and the comment and reaction tables and their counters do not change. |
| DraftTables.CreateDraftNew | pkg/database/document_draft_db.go:24-34 | For a new name: a document with a fresh id is appended at version 1, and draft version 1 is appended under it. The comment and reaction tables and their counters do not change. |
| DraftTables.SetVersionOfUniqueName | pkg/database/document_draft_db.go:38-42 | When names are unique, the UPDATE by name changes exactly one row: the one with that name gets the new version. |
| DraftTables.VersionedAfterBump | pkg/database/document_draft_db.go:17-18 | Bumping a document and adding its next-numbered draft keeps names unique, version equal to draft count, and drafts numbered 1..n. |
| DraftTables.VersionedAfterInsert | pkg/database/document_draft_db.go:24-25 | Inserting a new document with its first draft keeps the same three facts. |
| DraftTables.CreateDraftPreservesValid | pkg/database/document_draft_db.go:75-94 | CreateDraft keeps the whole table invariant. |
| DraftTables.CreateAllFromEmpty | pkg/database/document_draft_db.go:75-94 | k drafts under one name, starting from an empty store, give one document with id 1 at version k. Draft i has id i and version i. |
| DraftTables.CreateAllValid | pkg/database/document_draft_db.go:75-94 | Any number of CreateDraft calls under one name keep the invariant. |
| DraftTables.AddCommentPreservesValid | pkg/database/document_draft_db.go:197-210 | Adding a comment keeps the invariant. The returned id exceeds every existing comment id. |
| DraftTables.AddReactionPreservesValid | pkg/database/document_draft_db.go:290-294 | Adding a reaction keeps the invariant. The new row's comment column is the reaction's Id field, and its own id is fresh. |
| DraftQueries.LatestRows | pkg/database/document_draft_db.go:99-116 | A row is kept exactly when it passes the limit rule against the whole table. |
| DraftQueries.Like | pkg/database/document_draft_db.go:145-148 | `Content LIKE '%query%'` read as containment. A match needs a content at least as long as the query; the equivalence with substring occurrence is LikeIsSubstring. |
| DraftQueries.OrderedInsert | pkg/database/document_draft_db.go:109 | Inserting into a list sorted by version (highest first) keeps it sorted, and adds exactly that one draft. |
| DraftQueries.NoneNewerIsNewest | pkg/database/document_draft_db.go:104-108 | No newer draft of the same document exists exactly when the draft has the highest id among its document's drafts. |
| DraftQueries.NoLimitKeepsAll | pkg/database/document_draft_db.go:110-116 | A limit of zero or below selects every draft. |
| DraftQueries.HeadExists | pkg/database/document_draft_db.go:99-109 | Every document that has drafts has a draft with no newer sibling. |
| DraftQueries.HeadUnique | pkg/database/document_draft_db.go:99-109 | Two drafts of one document that both have no newer sibling are the same draft. |
| DraftQueries.OneHeadPerDocument | pkg/database/document_draft_db.go:99-109 | With limit 1, every document that has drafts contributes exactly one draft, its highest-id one. |
| DraftQueries.CreatedDraftIsListed | pkg/database/document_draft_db.go:75-109 | A draft just created carries the posted content, and the limit-1 listing shows it. |
| DraftQueries.LikeHasSubstring | pkg/database/document_draft_db.go:145-148 | When the pattern matches, the query occurs in the content at some position. |
| DraftQueries.SubstringIsLike | pkg/database/document_draft_db.go:145-148 | When the query occurs in the content at some position, the pattern matches. |
| DraftQueries.LikeIsSubstring | pkg/database/document_draft_db.go:145-148 | The pattern matches exactly when the query is a substring of the content. |
| DraftQueries.SearchExample | pkg/database/document_draft_db.go:145-148 | "custodia bank" is found in "Content about custodia bank" and is not found in "Content about API testing", the two contents of the search test in `cmd/main_test.go`. |
| DraftQueries.SearchRows | pkg/database/document_draft_db.go:142-146 | The search's rows never outnumber the table's. |
| DraftQueries.SearchRowsMembers | pkg/database/document_draft_db.go:145 | The search returns exactly the drafts whose content contains the query. |
| DraftQueries.SearchRowsDescending | pkg/database/document_draft_db.go:146 | Over a table in ascending id order, the search lists ids strictly descending. |
| CommentsFold.Fold | pkg/database/document_draft_db.go:228-274 | Every entry is stored under its own comment id. |
| CommentsFold.FoldStep | pkg/database/document_draft_db.go:247-273 | One pass of the loop: the map's keys become the old keys plus the row's comment id. A known id gets the row's non-NULL reaction appended; an unknown id gets an entry built from the row. What the entries hold after the whole loop is FoldReactions and FoldFirstRow. |
| CommentsFold.ReactionsForAbsent | pkg/database/document_draft_db.go:247-273 | A comment id that appears in no row has no reactions. |
| CommentsFold.ReactionsForConcat | pkg/database/document_draft_db.go:229 | A comment's reactions from two blocks of rows are those of the first block followed by those of the second. |
| CommentsFold.FoldKeys | pkg/database/document_draft_db.go:247-273 | The map holds one key per distinct comment id among the rows, and no other key. |
| CommentsFold.FoldReactions | pkg/database/document_draft_db.go:248-254 | A comment's reaction list holds the non-NULL reactions of its rows, in arrival order. |
| CommentsFold.FoldFirstRow | pkg/database/document_draft_db.go:255-273 | A comment's id, user, text, parent and time come from the first row with its id. |
| CommentsFold.NoReactionsGiveEmptyList | pkg/database/document_draft_db.go:263 | A comment whose rows all have NULL reactions gets an empty reaction list. |
| CommentsFold.ReactionsForNone | pkg/database/document_draft_db.go:265 | Rows with NULL reaction columns contribute no reactions. |
| CommentsFold.RowsWithFacts | pkg/database/document_draft_db.go:214-220 | A comment joined with n reactions gives n rows, one per reaction in order. |
| CommentsFold.CommentRowsFacts | pkg/database/document_draft_db.go:218 | The LEFT JOIN gives every comment at least one row. Each row repeats the comment's columns, and the rows carry exactly the comment's stored reactions. |
| CommentsFold.CommentRows | pkg/database/document_draft_db.go:218 | The LEFT JOIN for one comment: one row per reaction matched by `ON c.Id = r.CommentId`, or a single row with NULL reaction columns when none matches. CommentRowsFacts states what the rows carry. |
| CommentsFold.ReactionsOf | pkg/database/document_draft_db.go:218 | The reactions that `ON c.Id = r.CommentId` matches for comment k, in table order. |
| CommentsFold.JoinRows | pkg/database/document_draft_db.go:214-220 | The LEFT JOIN restricted to the draft, comment by comment in table order, each comment contributing its CommentRows. What the rows carry is JoinIds, JoinRowsFrom and JoinReactions. |
| CommentsFold.JoinRowsEmpty | pkg/database/document_draft_db.go:214-220 | The join has no rows exactly when no comment belongs to the draft. |
| CommentsFold.CommentIdsInConcat | pkg/database/document_draft_db.go:229 | The comment ids of two blocks of rows are the union of each block's ids. |
| CommentsFold.JoinRowsFrom | pkg/database/document_draft_db.go:217-219 | Every joined row comes from a comment of the requested draft. |
| CommentsFold.JoinIds | pkg/database/document_draft_db.go:219 | The joined rows carry exactly the ids of the draft's comments. |
| CommentsFold.JoinRowsAbsent | pkg/database/document_draft_db.go:217-219 | An id that no comment has appears in no joined row. |
| CommentsFold.JoinReactions | pkg/database/document_draft_db.go:218 | Over comments with distinct ids, a comment's reactions in the joined rows are exactly its stored reactions. |
| CommentsFold.TailAbsent | pkg/database/document_draft_db.go:218 | One comment's joined rows add nothing to the reactions of a different id. |
| CommentsFold.FirstRowExists | pkg/database/document_draft_db.go:247 | Every comment id among the rows has a first row. |
| CommentsFold.JoinFold | pkg/database/document_draft_db.go:213-274 | Folding the joined rows gives one entry per comment of the draft. Each entry holds the comment's fields and exactly its stored reactions. |
| Emoji.IsOnlySupportedEmojis | pkg/api/handlers.go:166-173 | The loop answers true exactly when every code point is allowed. |
| Emoji.IsSupportedEmoji | pkg/api/handlers.go:175-184 | The eight closed code-point ranges. Every allowed code point lies between U+2600 and U+1F9FF. |
| Emoji.SupportedBlocks | pkg/api/handlers.go:175-184 | The eight ranges merge into six disjoint blocks. A code point is allowed exactly when it lies in one of those blocks. |
| Emoji.NothingBelowMiscSymbols | pkg/api/handlers.go:176-183 | No code point below U+2600 is allowed. |
| Emoji.InvalidUtf8Rejected | pkg/api/handlers.go:166-173 | U+FFFD, which Go substitutes for undecodable bytes, is rejected. |
| Emoji.EmptyAccepted | pkg/api/handlers.go:166-173 | The empty string is accepted. |
| Emoji.ConcatAccepted | pkg/api/handlers.go:166-173 | A concatenation is accepted exactly when both of its parts are accepted. |
| Emoji.SubstringAccepted | pkg/api/handlers.go:166-173 | Every substring of an accepted string is accepted. |
| Emoji.LowCodePointRejected | pkg/api/handlers.go:166-183 | A string containing any code point below U+2600, ASCII included, is rejected. |
| Emoji.Examples | pkg/api/handlers.go:175-184 | U+1F44D is accepted and "A" is rejected. |
| Handlers.Atoi | pkg/api/handlers.go:38 | Every parsed value is inside the int64 range. A success needs at least one character after an optional sign, and everything after the sign must be a digit. |
| Handlers.Itoa | pkg/api/handlers.go:38 | Not code of the service: the decimal printer used to state the round trip of the `strconv.Atoi` call at this line. Produces a non-empty digit string with no leading zero. |
| Handlers.ItoaValue | pkg/api/handlers.go:38 | Not code of the service: the digits the round-trip printer Itoa writes have the value n, so AtoiItoa is about n itself. |
| Handlers.AtoiItoa | pkg/api/handlers.go:38 | Parsing the decimal form of n gives back n, for every n from 0 to the largest int64. |
| Handlers.AtoiNegative | pkg/api/handlers.go:111 | A leading '-' gives the negated value, down to the smallest int64. |
| Handlers.AtoiRejects | pkg/api/handlers.go:134 | A non-digit after the optional sign is an error. So are the empty string and a lone sign. |
| Handlers.AtoiOutOfRange | pkg/api/handlers.go:38 | One past the largest int64 is an error, not a wrapped value. |
| Handlers.AddDraft | pkg/api/handlers.go:13-31 | An undecodable body is a 400 carrying the decoder's text. Otherwise only the name and the content reach CreateDraft, and success answers 200. |
| Handlers.GetMostRecentDrafts | pkg/api/handlers.go:33-53 | Rejects exactly a non-empty limit that does not parse, with 400 "Invalid limit parameter". Otherwise the store gets 1 when the limit is absent, and the parsed number when it is present. |
| Handlers.SearchDraftsHandler | pkg/api/handlers.go:55-70 | Rejects exactly the empty text, with 400. Any other text reaches the store unchanged. |
| Handlers.AddComment | pkg/api/handlers.go:83-102 | Rejects exactly an undecodable body, with 400 "Invalid request body". Otherwise the decoded comment reaches the store, and success answers 201. |
| Handlers.GetCommentsAndReactions | pkg/api/handlers.go:104-125 | Rejects exactly a draftId that does not parse: the empty one with "draftId query parameter is required", any other with "Invalid draftId". Otherwise the store gets the parsed id. |
| Handlers.AddReaction | pkg/api/handlers.go:127-164 | The store is called exactly when the path id is present and parses, the body decodes, and the emoji passes the allow-list. Every rejection is a 400. The stored reaction's key is the path id, and the body's id and time are dropped. |
| Handlers.DefaultListingIsNewestPerDocument | pkg/api/handlers.go:34-45 | With no limit parameter, a draft is listed exactly when it has the highest id among its document's drafts. |
| Handlers.LimitParameterRoundTrip | pkg/api/handlers.go:34-45 | A limit written in decimal reaches the store as that number. |
| Handlers.NegativeLimitListsAll | pkg/api/handlers.go:36-45 | A negative limit is accepted, and the store then lists every draft. |
| Handlers.NonNumericLimitRejected | pkg/api/handlers.go:36-42 | A limit with a non-digit character anywhere except a leading '+' or '-' never reaches the store and is answered with 400. |
| Handlers.DraftIdRoundTrip | pkg/api/handlers.go:105-117 | A draft id written in decimal is the one the store is asked about. |
| Handlers.LowCodePointEmojiRejected | pkg/api/handlers.go:146-149 | An emoji with any code point below U+2600 is rejected and never stored. Once the path id parses, the message is "Invalid emoji". |
| Handlers.ReactionKeyFromPath | pkg/api/handlers.go:134-157 | With a valid emoji, the stored reaction's key is the path id. Two bodies that differ only in their id and time give the same store call. |

## Left out

- SQL and the driver are replaced by sequences of rows:
  - Store errors (a failed Exec, Query or Scan, a rows.Err) cannot happen in-memory, so the `err` branches and the 500 responses are not modelled.
  - Because nothing fails, CreateDraft's use of the connection pool rather than its transaction for createDocument does not show.
- The LIKE pattern is read as exact, case-sensitive containment. SQLite's ASCII case folding and the `%` and `_` wildcards inside the query text are not modelled.
- Ordering:
  - Comments are joined in table order rather than by `ORDER BY c.CreatedAt DESC`.
  - Each comment's reactions are taken in reaction-table order, where SQLite leaves the join order unspecified.
  - The Go map's iteration order is modelled as an arbitrary choice: the entries' set is specified, their order is not.
- Ties in version number are broken by table order in GetLatestDrafts. SQL does not fix the order of ties.
- Go returns a nil slice for an empty result, which JSON encodes as `null`; the model returns an empty sequence.
- Time:
  - `time.Now()` becomes a `now` parameter, and timestamps are opaque values.
  - CreateDraft reads the clock twice when it inserts a new document (`pkg/database/document_draft_db.go:25` and `:88`), and once when it bumps an existing one. The model uses one value for both reads.
- Integer width: ids and version numbers are unbounded integers, so int64 overflow of the counters is not modelled. The parsing in Atoi does model the int64 range.
- JSON decoding becomes a `Decoded` value (the record, or the decoder's error text). UTF-8 decoding of the emoji field is modelled only as a sequence of code points.
- Routing (`mux.Vars`) becomes an optional path variable. Response writing is not modelled.
- getDocumentsLatestVersions makes no decision before its store call, so it has no handler model.
- Concurrency, opening the database file and routing setup are not modelled. The schema in `pkg/database/init.go` appears only as the four empty tables the constructor starts from. `pkg/api/init.go` is not part of this model.
- DraftStore.SQLite.GetLatestDrafts: the doc comment at `pkg/database/document_draft_db.go:96` speaks only of a `limit` of 0 as returning every draft. The `limit > 0` test at line 99 sends a negative limit down the same select-all branch, and the model follows the code (NoLimitKeepsAll, Handlers.NegativeLimitListsAll).
- DraftStore.SQLite.GetDocumentByName: when several rows share a name, the model returns the first in id order. SQLite's QueryRow gives no order. CreateDraft keeps names unique, so this case does not arise for stores built by the model.
