/**
  Handlers called one after another on the same store: what a client can
  rely on from the handlers' contracts alone.
*/
module Scenarios {
  import opened Wrappers
  import opened ObjectIds
  import opened Schemas
  import opened Sequences
  import opened Store
  import opened Queries

  /** Starting a conversation twice, in either order of the pair, yields the same conversation. */
  method StartConversationTwice(s: ChatStore, a: string, b: string)
    returns (first: Result<ConversationDoc>, second: Result<ConversationDoc>)
    requires s.Valid() && a != b
    modifies s
    ensures s.Valid()
    ensures first.Ok? && second == first
    ensures |s.conversations| <= |old(s.conversations)| + 1
  {
    first := s.StartConversation(a, b);
    IndexOfPairSymmetric(s.conversations, a, b);
    second := s.StartConversation(b, a);
  }

  /** A message that was accepted is the last one on its conversation's first page. */
  method SendThenList(s: ChatStore, conversationId: string, senderId: string, text: string, now: nat, limit: int)
    returns (sent: Result<MessageDoc>, page: seq<MessageDoc>)
    requires s.Valid()
    modifies s
    ensures s.Valid()
    ensures page == ListMessages(s.messages, conversationId, limit, None)
    ensures sent.Ok? ==> |page| > 0 && page[|page| - 1] == sent.value
  {
    ghost var before := s.messages;
    sent := s.SendMessage(conversationId, senderId, text, now);
    page := ListMessages(s.messages, conversationId, limit, None);
    if sent.Ok? {
      NewestMessageLast(before, sent.value, limit);
    }
  }

  function SampleMessage(id: nat, conversationId: string): MessageDoc {
    MessageDoc(id, Message(conversationId, "sender", "hello", true, false))
  }

  /** Messages with identifiers 1 to 5, in insertion order, all in one conversation. */
  function SampleThread(conversationId: string): (ms: seq<MessageDoc>)
    ensures |ms| == 5 && forall i :: 0 <= i < 5 ==> ms[i] == SampleMessage(i + 1, conversationId)
  {
    [SampleMessage(1, conversationId), SampleMessage(2, conversationId), SampleMessage(3, conversationId),
     SampleMessage(4, conversationId), SampleMessage(5, conversationId)]
  }

  /** With five messages, a page of two is the newest two. */
  lemma LatestPageExample(conversationId: string)
    ensures var ms := SampleThread(conversationId);
      ListMessages(ms, conversationId, 2, None) == [ms[3], ms[4]]
  {
    var ms := SampleThread(conversationId);
    assert forall i :: 0 <= i < |ms| ==> Selected(ms[i], conversationId, None);
    MessagesOfAll(ms, conversationId, None);
    assert PageSize(2, |ms|) == 2;
    ListMessagesIsNewestSuffix(ms, conversationId, 2, None);
    assert ms[|ms| - 2..] == [ms[3], ms[4]];
  }

  /** With five messages, the page of two before the fourth is the second and third. */
  lemma OlderPageExample(conversationId: string, cursor: string)
    requires cursor == EncodeId(4)
    ensures var ms := SampleThread(conversationId);
      ListMessages(ms, conversationId, 2, Some(cursor)) == [ms[1], ms[2]]
  {
    var ms := SampleThread(conversationId);
    CursorOfFourth(cursor);
    assert StrictlyAscending(ms, MessageId);
    CursorSelectsEarlier(ms, conversationId, 3);
    var front := ms[..3];
    assert front == [ms[0], ms[1], ms[2]];
    MessagesOfAll(front, conversationId, None);
    ListMessagesIsNewestSuffix(ms, conversationId, 2, Some(cursor));
    assert front[1..] == [ms[1], ms[2]];
  }

  /** The text of identifier 4, as a cursor, bounds the page by 4. */
  lemma CursorOfFourth(cursor: string)
    requires cursor == EncodeId(4)
    ensures CursorBound(Some(cursor)) == Some(4)
  {
    Pow16Grows(Width);
    EncodeDecode(4);
  }

  /** The identifier text with its last digit in upper case, as a client might send it. */
  function UpperCaseLast(s: string): string
    requires s != []
  {
    var c := s[|s| - 1];
    s[..|s| - 1] + [if 'a' <= c <= 'f' then (c as int - 'a' as int + 'A' as int) as char else c]
  }

  /** An identifier whose last digit is a letter has a second, upper-case spelling that decodes to it. */
  lemma UpperCaseAlias(n: nat)
    requires n < IdSpace && n % 16 >= 10
    ensures DecodeId(UpperCaseLast(EncodeId(n))) == Some(n)
    ensures UpperCaseLast(EncodeId(n)) != EncodeId(n)
  {
    EncodeDecode(n);
    var s := EncodeId(n);
    assert s == PaddedHex(n / 16, Width - 1) + [HexDigit(n % 16)];
    ReplaceLastDigit(s, UpperCaseLast(s)[|s| - 1]);
    assert UpperCaseLast(s)[|s| - 1] != s[|s| - 1];
  }

  /**
    Decoding ignores letter case, so `send_message` accepts a conversation's
    identifier in another case and stores that text on the message; the
    conversation's page, requested by the identifier's own text, matches
    the stored text exactly and does not show the message.
  */
  lemma CaseVariantNotListed(n: nat, m: MessageDoc, limit: int)
    requires n < IdSpace && n % 16 >= 10
    requires m.msg.conversationId == UpperCaseLast(EncodeId(n))
    ensures DecodeId(m.msg.conversationId) == Some(n)
    ensures m.msg.conversationId != EncodeId(n)
    ensures ListMessages([m], EncodeId(n), limit, None) == []
  {
    UpperCaseAlias(n);
    MessagesOfNone([m], EncodeId(n), None);
  }
}
