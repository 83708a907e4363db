/**
 * The request handlers of pkg/api/handlers.go up to the point where they
 * call the store: each handler is a function from the request's parsed
 * parameters to an Outcome, either an error response or exactly one store
 * call. strconv.Atoi, which the handlers use to read integers, is modelled
 * with Go's rules for base-10 int parsing.
 */
module Handlers {
  import opened Wrappers
  import opened Models
  import opened Emoji
  import opened DraftQueries

  // ---------------------------------------------------------------------
  // strconv.Atoi

  const MAX_INT64: int := 0x7FFF_FFFF_FFFF_FFFF
  const MIN_INT64: int := -0x8000_0000_0000_0000

  predicate IsDigit(c: char)
  {
    '0' <= c <= '9'
  }

  predicate AllDigits(s: string)
  {
    forall i | 0 <= i < |s| :: IsDigit(s[i])
  }

  /** The value of a string of decimal digits, most significant first. */
  function DigitsValue(s: string): nat
    requires AllDigits(s)
  {
    if s == [] then 0
    else DigitsValue(s[..|s| - 1]) * 10 + (s[|s| - 1] as int - '0' as int)
  }

  /**
   * strconv.Atoi on a 64-bit platform: an optional '+' or '-', then one or
   * more ASCII digits, with a value inside the int64 range. Anything else is
   * an error, here None.
   */
  function Atoi(s: string): (r: Option<int>)
    ensures r.Some? ==> MIN_INT64 <= r.value <= MAX_INT64
    ensures r.Some? ==> s != [] && |s| > (if s[0] == '+' || s[0] == '-' then 1 else 0)
    ensures r.Some? ==> s != [] && AllDigits(s[if s[0] == '+' || s[0] == '-' then 1 else 0..])
  {
    var signed := |s| > 0 && (s[0] == '+' || s[0] == '-');
    var digits := if signed then s[1..] else s;
    if digits == [] || !AllDigits(digits) then None
    else
      var v: int := if signed && s[0] == '-' then -(DigitsValue(digits) as int) else DigitsValue(digits);
      if MIN_INT64 <= v <= MAX_INT64 then Some(v) else None
  }

  /** The decimal representation of a natural number, without sign or leading zeros. */
  function Itoa(n: nat): (s: string)
    ensures s != [] && AllDigits(s)
    ensures s[0] != '0' || n == 0
  {
    var digit := ['0' + ((n % 10) as char)];
    if n < 10 then digit else Itoa(n / 10) + digit
  }

  lemma {:induction false} ItoaValue(n: nat)
    ensures DigitsValue(Itoa(n)) == n
  {
    if n >= 10 {
      ItoaValue(n / 10);
      var s := Itoa(n);
      assert s[..|s| - 1] == Itoa(n / 10);
    }
  }

  /** Atoi reads back what Itoa writes, over the whole non-negative int64 range. */
  lemma AtoiItoa(n: nat)
    requires n <= MAX_INT64
    ensures Atoi(Itoa(n)) == Some(n)
  {
    ItoaValue(n);
  }

  /** A leading '-' negates, down to the most negative int64. */
  lemma AtoiNegative(n: nat)
    requires n <= -MIN_INT64
    ensures Atoi("-" + Itoa(n)) == Some(-(n as int))
  {
    ItoaValue(n);
    assert ("-" + Itoa(n))[1..] == Itoa(n);
  }

  /** Empty strings, lone signs and strings with a non-digit after the sign are errors. */
  lemma AtoiRejects(s: string, k: int)
    requires 0 <= k < |s| && !IsDigit(s[k]) && (k > 0 || (s[0] != '+' && s[0] != '-'))
    ensures Atoi(s) == None
    ensures Atoi("") == None && Atoi("+") == None && Atoi("-") == None
  {
    var signed := s[0] == '+' || s[0] == '-';
    var start := if signed then 1 else 0;
    assert (if signed then s[1..] else s)[k - start] == s[k];
  }

  /** One past the int64 range is an error, not a wrapped value. */
  lemma AtoiOutOfRange()
    ensures Atoi(Itoa(MAX_INT64 + 1)) == None
  {
    ItoaValue(MAX_INT64 + 1);
  }

  // ---------------------------------------------------------------------
  // Outcomes

  const STATUS_OK := 200
  const STATUS_CREATED := 201
  const STATUS_BAD_REQUEST := 400

  /** A JSON request body after decoding: the value, or the decoder's error text. */
  datatype Decoded<T> = Decoded(value: T) | DecodeError(text: string)

  /** The one store call a handler makes once its checks pass. */
  datatype StoreCall =
    | CreateDraft(draft: DraftInput)
    | GetLatestDrafts(limit: int)
    | SearchDrafts(query: string)
    | AddCommentToDraft(comment: Comment)
    | GetCommentsAndReactionsByDraftId(draftId: int)
    | AddReactionToComment(reaction: Reaction)

  /**
   * What a handler does with a request: answer with an error status and
   * message without touching the store, or make one store call and answer
   * with the success status when that call succeeds.
   */
  datatype Outcome =
    | Reject(status: int, message: string)
    | Invoke(call: StoreCall, successStatus: int)

  // ---------------------------------------------------------------------
  // Handlers

  /** addDraft: only the name and the content of the body reach the store. */
  function AddDraft(body: Decoded<DraftInput>): (o: Outcome)
    ensures o.Reject? <==> body.DecodeError?
    ensures o.Reject? ==> o == Reject(STATUS_BAD_REQUEST, body.text)
    ensures o.Invoke? ==>
      && o.successStatus == STATUS_OK && o.call.CreateDraft?
      && o.call.draft.name == body.value.name && o.call.draft.content == body.value.content
      && o.call.draft.versionNumber == 0
  {
    match body
    case DecodeError(text) => Reject(STATUS_BAD_REQUEST, text)
    case Decoded(draft) => Invoke(CreateDraft(DraftInput(draft.name, draft.content, 0)), STATUS_OK)
  }

  /**
   * getMostRecentDrafts: an absent limit means 1, an unparsable one is a
   * 400 and the store is not called; otherwise the parsed limit goes to
   * the store as is.
   */
  function GetMostRecentDrafts(limitParam: string): (o: Outcome)
    ensures o.Reject? <==> limitParam != "" && Atoi(limitParam).None?
    ensures o.Reject? ==> o == Reject(STATUS_BAD_REQUEST, "Invalid limit parameter")
    ensures o.Invoke? ==>
      && o.successStatus == STATUS_OK && o.call.GetLatestDrafts?
      && o.call.limit == (if limitParam == "" then 1 else Atoi(limitParam).value)
  {
    if limitParam == "" then Invoke(GetLatestDrafts(1), STATUS_OK)
    else
      match Atoi(limitParam)
      case None => Reject(STATUS_BAD_REQUEST, "Invalid limit parameter")
      case Some(limit) => Invoke(GetLatestDrafts(limit), STATUS_OK)
  }

  /** searchDrafts: an empty text is a 400; any other text goes to the store unchanged. */
  function SearchDraftsHandler(text: string): (o: Outcome)
    ensures o.Reject? <==> text == ""
    ensures o.Reject? ==> o == Reject(STATUS_BAD_REQUEST, "text parameter is required")
    ensures o.Invoke? ==> o == Invoke(SearchDrafts(text), STATUS_OK)
  {
    if text == "" then Reject(STATUS_BAD_REQUEST, "text parameter is required")
    else Invoke(SearchDrafts(text), STATUS_OK)
  }

  /** addComment: an undecodable body is a 400; a decoded one goes to the store whole. */
  function AddComment(body: Decoded<Comment>): (o: Outcome)
    ensures o.Reject? <==> body.DecodeError?
    ensures o.Reject? ==> o == Reject(STATUS_BAD_REQUEST, "Invalid request body")
    ensures o.Invoke? ==> o == Invoke(AddCommentToDraft(body.value), STATUS_CREATED)
  {
    match body
    case DecodeError(_) => Reject(STATUS_BAD_REQUEST, "Invalid request body")
    case Decoded(comment) => Invoke(AddCommentToDraft(comment), STATUS_CREATED)
  }

  /**
   * getCommentsAndReactions: a missing or unparsable draftId is a 400 and
   * the store is not called; otherwise the store gets the parsed id.
   */
  function GetCommentsAndReactions(draftIdParam: string): (o: Outcome)
    ensures o.Reject? <==> Atoi(draftIdParam).None?
    ensures o.Reject? ==>
      && o.status == STATUS_BAD_REQUEST
      && o.message == (if draftIdParam == "" then "draftId query parameter is required" else "Invalid draftId")
    ensures o.Invoke? ==> o == Invoke(GetCommentsAndReactionsByDraftId(Atoi(draftIdParam).value), STATUS_OK)
  {
    if draftIdParam == "" then Reject(STATUS_BAD_REQUEST, "draftId query parameter is required")
    else
      match Atoi(draftIdParam)
      case None => Reject(STATUS_BAD_REQUEST, "Invalid draftId")
      case Some(draftId) => Invoke(GetCommentsAndReactionsByDraftId(draftId), STATUS_OK)
  }

  /**
   * addReaction: the checks run in order (path variable present, path
   * variable an integer, body decodable, emoji allowed), the first failure
   * is a 400 and the store is not called. The stored reaction takes its
   * comment key from the path and only the emoji and the user from the
   * body; the body's id and time are dropped.
   */
  function AddReaction(commentIdVar: Option<string>, body: Decoded<Reaction>): (o: Outcome)
    ensures o.Invoke? <==>
      && commentIdVar.Some? && Atoi(commentIdVar.value).Some?
      && body.Decoded? && OnlySupportedEmojis(body.value.emoji)
    ensures o.Reject? ==> o.status == STATUS_BAD_REQUEST
    ensures o.Invoke? ==>
      && o.successStatus == STATUS_CREATED
      && o.call == AddReactionToComment(
        Reaction(Atoi(commentIdVar.value).value, body.value.userId, body.value.emoji, ZERO_TIME))
  {
    match commentIdVar
    case None => Reject(STATUS_BAD_REQUEST, "Comment ID is required")
    case Some(commentIdText) =>
      match Atoi(commentIdText)
      case None => Reject(STATUS_BAD_REQUEST, "Invalid Comment ID")
      case Some(commentId) =>
        match body
        case DecodeError(_) => Reject(STATUS_BAD_REQUEST, "Invalid request body")
        case Decoded(newReaction) =>
          if !OnlySupportedEmojis(newReaction.emoji) then Reject(STATUS_BAD_REQUEST, "Invalid emoji")
          else Invoke(AddReactionToComment(Reaction(commentId, newReaction.userId, newReaction.emoji, ZERO_TIME)), STATUS_CREATED)
  }

  // ---------------------------------------------------------------------
  // Properties across handlers, parsing and the store's rules

  /**
   * Without a limit parameter the listing keeps, of each document, exactly
   * the draft no other draft of that document outranks by id.
   */
  lemma DefaultListingIsNewestPerDocument(table: seq<Draft>, d: Draft)
    ensures GetMostRecentDrafts("") == Invoke(GetLatestDrafts(1), STATUS_OK)
    ensures InLatest(table, d, GetMostRecentDrafts("").call.limit)
      <==> forall e | e in table && e.documentId == d.documentId :: e.id <= d.id
  {
    NoneNewerIsNewest(table, d);
  }

  /** A limit written as a decimal number reaches the store as that number. */
  lemma LimitParameterRoundTrip(n: nat)
    requires n <= MAX_INT64
    ensures GetMostRecentDrafts(Itoa(n)) == Invoke(GetLatestDrafts(n), STATUS_OK)
  {
    AtoiItoa(n);
  }

  /** A negative limit is accepted, and the store then lists every draft. */
  lemma NegativeLimitListsAll(n: nat, table: seq<Draft>)
    requires n <= -MIN_INT64
    ensures GetMostRecentDrafts("-" + Itoa(n)) == Invoke(GetLatestDrafts(-(n as int)), STATUS_OK)
    ensures LatestRows(table, table, -(n as int)) == table
  {
    AtoiNegative(n);
    NoLimitKeepsAll(table, table, -(n as int));
  }

  /** A non-numeric limit never reaches the store. */
  lemma NonNumericLimitRejected(limitParam: string, k: int)
    requires 0 <= k < |limitParam| && !IsDigit(limitParam[k])
    requires k > 0 || (limitParam[0] != '+' && limitParam[0] != '-')
    ensures GetMostRecentDrafts(limitParam) == Reject(STATUS_BAD_REQUEST, "Invalid limit parameter")
  {
    AtoiRejects(limitParam, k);
  }

  /** The draft id written in the query string is the one the store is asked about. */
  lemma DraftIdRoundTrip(n: nat)
    requires n <= MAX_INT64
    ensures GetCommentsAndReactions(Itoa(n)) == Invoke(GetCommentsAndReactionsByDraftId(n), STATUS_OK)
  {
    AtoiItoa(n);
  }

  /**
   * An emoji with a code point below U+2600, ASCII included, is a 400 and
   * is never stored, whatever the path and the rest of the body.
   */
  lemma LowCodePointEmojiRejected(commentIdVar: Option<string>, body: Reaction, k: int)
    requires 0 <= k < |body.emoji| && (body.emoji[k] as int) < 0x2600
    ensures AddReaction(commentIdVar, Decoded(body)).Reject?
    ensures commentIdVar.Some? && Atoi(commentIdVar.value).Some? ==>
      AddReaction(commentIdVar, Decoded(body)) == Reject(STATUS_BAD_REQUEST, "Invalid emoji")
  {
    LowCodePointRejected(body.emoji, k);
  }

  /**
   * The comment key of a stored reaction is the path's comment id; two
   * bodies that differ only in their id and time give the same store call.
   */
  lemma ReactionKeyFromPath(n: nat, body1: Reaction, body2: Reaction)
    requires n <= MAX_INT64
    requires body1.userId == body2.userId && body1.emoji == body2.emoji
    requires OnlySupportedEmojis(body1.emoji)
    ensures AddReaction(Some(Itoa(n)), Decoded(body1)) == AddReaction(Some(Itoa(n)), Decoded(body2))
    ensures AddReaction(Some(Itoa(n)), Decoded(body1))
      == Invoke(AddReactionToComment(Reaction(n, body1.userId, body1.emoji, ZERO_TIME)), STATUS_CREATED)
  {
    AtoiItoa(n);
  }
}
