/**
  The two read-only handlers, as functions of the store's collections, and
  what they promise: `get_conversations` lists a user's conversations, most
  recently updated first, and `list_messages` returns one page of a
  conversation's history, oldest first.
*/
module Queries {
  import opened Wrappers
  import opened ObjectIds
  import opened Sequences
  import opened Store

  /** The `limit` a message page has when the request gives none. */
  const DefaultLimit: int := 50

  /** Sort key of `updated_at`: a conversation without one ranks below every timestamp. */
  function UpdatedRank(c: ConversationDoc): int {
    match c.updatedAt
    case None => -1
    case Some(t) => t
  }

  /** The query `{"participant_ids": userId}`: matching conversations in store order. */
  function ConversationsOf(cs: seq<ConversationDoc>, userId: string): (r: seq<ConversationDoc>)
    ensures forall c :: c in r <==> c in cs && userId in c.conv.participantIds
    ensures |r| <= |cs|
  {
    if cs == [] then []
    else (if userId in cs[0].conv.participantIds then [cs[0]] else []) + ConversationsOf(cs[1..], userId)
  }

  /** `get_conversations`: the user's conversations sorted by `updated_at`, descending. */
  function GetConversations(cs: seq<ConversationDoc>, userId: string): (r: seq<ConversationDoc>)
    ensures multiset(r) == multiset(ConversationsOf(cs, userId))
    ensures forall c :: c in r <==> c in cs && userId in c.conv.participantIds
    ensures SortedDesc(r, UpdatedRank)
  {
    var r := SortDesc(ConversationsOf(cs, userId), UpdatedRank);
    SortDescPermutes(ConversationsOf(cs, userId), UpdatedRank);
    SortDescSorted(ConversationsOf(cs, userId), UpdatedRank);
    assert forall c :: c in r <==> c in multiset(r);
    r
  }

  /** Newest first, and conversations that never had a message come last. */
  lemma GetConversationsOrder(cs: seq<ConversationDoc>, userId: string, i: nat, j: nat)
    requires i < j < |GetConversations(cs, userId)|
    ensures var r := GetConversations(cs, userId);
      r[j].updatedAt.Some? ==> r[i].updatedAt.Some? && r[i].updatedAt.value >= r[j].updatedAt.value
  {
    var r := GetConversations(cs, userId);
    assert UpdatedRank(r[i]) >= UpdatedRank(r[j]);
  }

  /** The message filter of one page: the conversation, and below the cursor if there is one. */
  predicate Selected(m: MessageDoc, conversationId: string, bound: Option<nat>) {
    m.msg.conversationId == conversationId && (bound.None? || m.id < bound.value)
  }

  /** The messages the page's filter matches, in store order. */
  function MessagesOf(ms: seq<MessageDoc>, conversationId: string, bound: Option<nat>): (r: seq<MessageDoc>)
    ensures |r| <= |ms|
  {
    if ms == [] then []
    else (if Selected(ms[0], conversationId, bound) then [ms[0]] else []) + MessagesOf(ms[1..], conversationId, bound)
  }

  /** The filter keeps exactly the stored messages that match it. */
  lemma {:induction false} MessagesOfMembers(ms: seq<MessageDoc>, conversationId: string, bound: Option<nat>)
    ensures forall m :: m in MessagesOf(ms, conversationId, bound) <==> m in ms && Selected(m, conversationId, bound)
  {
    if ms != [] {
      assert ms == [ms[0]] + ms[1..];
      MessagesOfMembers(ms[1..], conversationId, bound);
    }
  }

  /** When the filter matches no message, it returns nothing. */
  lemma {:induction false} MessagesOfNone(ms: seq<MessageDoc>, conversationId: string, bound: Option<nat>)
    requires forall i :: 0 <= i < |ms| ==> !Selected(ms[i], conversationId, bound)
    ensures MessagesOf(ms, conversationId, bound) == []
  {
    if ms != [] {
      MessagesOfNone(ms[1..], conversationId, bound);
    }
  }

  /**
    The `before` cursor of a page: it applies only when it is present, non-empty
    and decodes; a cursor that does not decode is dropped without an error.
  */
  function CursorBound(before: Option<string>): (r: Option<nat>)
    ensures before.Some? ==> r == DecodeId(before.value)
    ensures before.None? ==> r.None?
  {
    if before.Some? && before.value != "" then DecodeId(before.value) else None
  }

  /** How many documents `.limit(limit)` lets through out of `n`: 0 is no limit, a negative limit counts as its magnitude. */
  function PageSize(limit: int, n: nat): (k: nat)
    ensures k <= n
    ensures limit == 0 ==> k == n
    ensures limit != 0 ==> k == if n < Abs(limit) then n else Abs(limit)
  {
    if limit == 0 then n
    else if n < Abs(limit) then n
    else Abs(limit)
  }

  function Abs(x: int): nat {
    if x < 0 then -x else x
  }

  /**
    `list_messages`: filter by conversation (and cursor), sort by identifier
    descending, keep the first `limit`, and reverse into ascending order.
  */
  function ListMessages(ms: seq<MessageDoc>, conversationId: string, limit: int, before: Option<string>): (r: seq<MessageDoc>)
    ensures |r| == PageSize(limit, |MessagesOf(ms, conversationId, CursorBound(before))|)
    ensures forall i :: 0 <= i < |r| ==> r[i] in ms && r[i].msg.conversationId == conversationId
    ensures forall i :: 0 <= i < |r| ==> CursorBound(before).Some? ==> r[i].id < CursorBound(before).value
    ensures forall i, j :: 0 <= i < j < |r| ==> r[i].id <= r[j].id
  {
    var filtered := MessagesOf(ms, conversationId, CursorBound(before));
    var n := PageSize(limit, |filtered|);
    MessagesOfMembers(ms, conversationId, CursorBound(before));
    TopReversed(filtered, MessageId, n);
    Reverse(SortDesc(filtered, MessageId)[..n])
  }

  /**
    `list_messages` for a request without `limit`: the default limit of 50
    applies, so the page is the first 50 of the sorted filter, or all of it
    when fewer match.
  */
  function ListMessagesDefault(ms: seq<MessageDoc>, conversationId: string, before: Option<string>): (r: seq<MessageDoc>)
    ensures var f := MessagesOf(ms, conversationId, CursorBound(before));
      |r| == if |f| < 50 then |f| else 50
    ensures forall i :: 0 <= i < |r| ==> r[i] in ms && r[i].msg.conversationId == conversationId
    ensures forall i, j :: 0 <= i < j < |r| ==> r[i].id <= r[j].id
  {
    ListMessages(ms, conversationId, DefaultLimit, before)
  }

  lemma {:induction false} MessagesOfAscending(ms: seq<MessageDoc>, conversationId: string, bound: Option<nat>)
    requires StrictlyAscending(ms, MessageId)
    ensures StrictlyAscending(MessagesOf(ms, conversationId, bound), MessageId)
  {
    if ms != [] {
      var tail := ms[1..];
      assert StrictlyAscending(tail, MessageId);
      MessagesOfAscending(tail, conversationId, bound);
      MessagesOfMembers(tail, conversationId, bound);
      var rest := MessagesOf(tail, conversationId, bound);
      assert forall y :: y in tail ==> ms[0].id < y.id by {
        forall y | y in tail ensures ms[0].id < y.id {
          var i :| 0 <= i < |tail| && tail[i] == y;
          assert tail[i] == ms[i + 1];
        }
      }
      if Selected(ms[0], conversationId, bound) {
        PrependSmallest(ms[0], rest, MessageId);
      }
    }
  }

  /** The page's filter distributes over the concatenation of two runs of messages. */
  lemma {:induction false} MessagesOfConcat(xs: seq<MessageDoc>, ys: seq<MessageDoc>, conversationId: string, bound: Option<nat>)
    ensures MessagesOf(xs + ys, conversationId, bound)
         == MessagesOf(xs, conversationId, bound) + MessagesOf(ys, conversationId, bound)
  {
    if xs == [] {
      assert xs + ys == ys;
    } else {
      var zs := xs + ys;
      var head := if Selected(xs[0], conversationId, bound) then [xs[0]] else [];
      assert zs[0] == xs[0];
      assert zs[1..] == xs[1..] + ys;
      assert MessagesOf(zs, conversationId, bound) == head + MessagesOf(zs[1..], conversationId, bound);
      assert MessagesOf(xs, conversationId, bound) == head + MessagesOf(xs[1..], conversationId, bound);
      MessagesOfConcat(xs[1..], ys, conversationId, bound);
    }
  }

  /** When the filter keeps every message, it returns the messages as they are. */
  lemma {:induction false} MessagesOfAll(ms: seq<MessageDoc>, conversationId: string, bound: Option<nat>)
    requires forall i :: 0 <= i < |ms| ==> Selected(ms[i], conversationId, bound)
    ensures MessagesOf(ms, conversationId, bound) == ms
  {
    if ms != [] {
      MessagesOfAll(ms[1..], conversationId, bound);
    }
  }

  /**
    In a store whose message identifiers ascend, a page is exactly the
    newest `limit` messages that match its filter, oldest first.
  */
  lemma ListMessagesIsNewestSuffix(ms: seq<MessageDoc>, conversationId: string, limit: int, before: Option<string>)
    requires StrictlyAscending(ms, MessageId)
    ensures var f := MessagesOf(ms, conversationId, CursorBound(before));
      ListMessages(ms, conversationId, limit, before) == f[|f| - PageSize(limit, |f|)..]
  {
    var f := MessagesOf(ms, conversationId, CursorBound(before));
    MessagesOfAscending(ms, conversationId, CursorBound(before));
    SortDescOfAscending(f, MessageId);
    ReversedPrefix(f, PageSize(limit, |f|));
  }

  /**
    A page ascends strictly, and every matching message left off the page is
    older than every message on it.
  */
  lemma PageHoldsNewest(ms: seq<MessageDoc>, conversationId: string, limit: int, before: Option<string>)
    requires StrictlyAscending(ms, MessageId)
    ensures var r := ListMessages(ms, conversationId, limit, before);
      && StrictlyAscending(r, MessageId)
      && forall m, x :: m in ms && Selected(m, conversationId, CursorBound(before)) && m !in r && x in r ==> m.id < x.id
  {
    var f := MessagesOf(ms, conversationId, CursorBound(before));
    ListMessagesIsNewestSuffix(ms, conversationId, limit, before);
    MessagesOfAscending(ms, conversationId, CursorBound(before));
    MessagesOfMembers(ms, conversationId, CursorBound(before));
    SuffixHoldsLargest(f, MessageId, |f| - PageSize(limit, |f|));
  }

  /** A cursor above every identifier filters out nothing. */
  lemma {:induction false} BoundAboveAll(ms: seq<MessageDoc>, conversationId: string, b: nat)
    requires forall i :: 0 <= i < |ms| ==> ms[i].id < b
    ensures MessagesOf(ms, conversationId, Some(b)) == MessagesOf(ms, conversationId, None)
  {
    if ms != [] {
      BoundAboveAll(ms[1..], conversationId, b);
    }
  }

  /**
    In a store whose identifiers ascend, the cursor of the message at position
    `k` selects exactly the conversation's messages stored before it.
  */
  lemma CursorSelectsEarlier(ms: seq<MessageDoc>, conversationId: string, k: nat)
    requires StrictlyAscending(ms, MessageId) && k < |ms|
    ensures MessagesOf(ms, conversationId, Some(ms[k].id)) == MessagesOf(ms[..k], conversationId, None)
  {
    var bound := Some(ms[k].id);
    var front, back := ms[..k], ms[k..];
    assert ms == front + back;
    forall i | 0 <= i < |front| ensures front[i].id < ms[k].id {
      assert front[i] == ms[i];
    }
    forall i | 0 <= i < |back| ensures !Selected(back[i], conversationId, bound) {
      assert back[i] == ms[k + i];
      assert i > 0 ==> MessageId(ms[k]) < MessageId(ms[k + i]);
    }
    MessagesOfConcat(front, back, conversationId, bound);
    BoundAboveAll(front, conversationId, ms[k].id);
    MessagesOfNone(back, conversationId, bound);
  }

  /** A cursor that does not decode gives the same page as no cursor. */
  lemma MalformedCursorIgnored(ms: seq<MessageDoc>, conversationId: string, limit: int, before: string)
    requires DecodeId(before).None?
    ensures ListMessages(ms, conversationId, limit, Some(before)) == ListMessages(ms, conversationId, limit, None)
  {
  }

  /** A message just appended to its conversation ends that conversation's first page. */
  lemma NewestMessageLast(ms: seq<MessageDoc>, m: MessageDoc, limit: int)
    requires StrictlyAscending(ms + [m], MessageId)
    ensures var r := ListMessages(ms + [m], m.msg.conversationId, limit, None);
      |r| > 0 && r[|r| - 1] == m
  {
    var cid := m.msg.conversationId;
    MessagesOfConcat(ms, [m], cid, None);
    assert [m][1..] == [];
    ListMessagesIsNewestSuffix(ms + [m], cid, limit, None);
  }
}
