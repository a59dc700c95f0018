/**
  The chat backend's state and its three writing handlers. The document store
  is an object holding the three collections as sequences, in insertion
  order, and the counter from which fresh identifiers are drawn; every handler
  runs as one atomic step on it.
*/
module Store {
  import opened Wrappers
  import opened ObjectIds
  import opened Schemas
  import opened Sequences
  import opened Documents

  /** The body of a create-user request; `avatar_color` may be sent as null. */
  datatype CreateUserRequest = CreateUserRequest(username: string, avatarColor: Option<string>)

  /** Stored records: the fields a handler inserted and the identifier the store gave them. */
  datatype UserDoc = UserDoc(id: nat, username: string, avatarColor: Option<string>)

  datatype ConversationDoc = ConversationDoc(id: nat, conv: Conversation, updatedAt: Option<nat>)

  datatype MessageDoc = MessageDoc(id: nat, msg: Message)

  /**
    Why a handler did not complete: an HTTP error it raised itself, or an
    `InvalidId` raised while decoding an identifier that nothing catches,
    which the framework reports as a server error.
  */
  datatype Error =
    | HttpException(statusCode: nat, detail: string)
    | InvalidId(input: string)

  datatype Result<T> = Ok(value: T) | Err(error: Error)

  const SelfConversation: Error := HttpException(400, "Cannot start conversation with self")
  const ConversationNotFound: Error := HttpException(404, "Conversation not found")
  const SenderNotInConversation: Error := HttpException(403, "Sender not in conversation")

  /** The request model's own default for `avatar_color`. */
  const RequestDefaultAvatarColor: string := "#6366F1"

  /** A request body whose `avatar_color` was left out: it gets the user schema's default colour. */
  function DefaultCreateUserRequest(username: string): (req: CreateUserRequest)
    ensures req.username == username
    ensures req.avatarColor == Some(DefaultAvatarColor)
  {
    CreateUserRequest(username, Some(RequestDefaultAvatarColor))
  }

  function UserId(u: UserDoc): int { u.id }
  function ConversationId(c: ConversationDoc): int { c.id }
  function MessageId(m: MessageDoc): int { m.id }

  /** The conversation matches `{"participant_ids": {"$all": [a, b]}}`. */
  predicate HasPair(c: ConversationDoc, a: string, b: string) {
    a in c.conv.participantIds && b in c.conv.participantIds
  }

  /** Where `find_one` by participants stops: the first conversation holding both `a` and `b`. */
  function IndexOfPair(cs: seq<ConversationDoc>, a: string, b: string): (r: Option<nat>)
    ensures r.Some? ==> r.value < |cs| && HasPair(cs[r.value], a, b)
    ensures r.Some? ==> forall i :: 0 <= i < r.value ==> !HasPair(cs[i], a, b)
    ensures r.None? ==> forall i :: 0 <= i < |cs| ==> !HasPair(cs[i], a, b)
  {
    if cs == [] then None
    else if HasPair(cs[0], a, b) then Some(0)
    else match IndexOfPair(cs[1..], a, b)
      case None => None
      case Some(k) => Some(k + 1)
  }

  /** Where `find_one` by `_id` stops: the first conversation with identifier `id`. */
  function IndexOfId(cs: seq<ConversationDoc>, id: nat): (r: Option<nat>)
    ensures r.Some? ==> r.value < |cs| && cs[r.value].id == id
    ensures r.Some? ==> forall i :: 0 <= i < r.value ==> cs[i].id != id
    ensures r.None? ==> forall i :: 0 <= i < |cs| ==> cs[i].id != id
  {
    if cs == [] then None
    else if cs[0].id == id then Some(0)
    else match IndexOfId(cs[1..], id)
      case None => None
      case Some(k) => Some(k + 1)
  }

  /** The `$all` lookup does not depend on the order of the two participants. */
  lemma {:induction false} IndexOfPairSymmetric(cs: seq<ConversationDoc>, a: string, b: string)
    ensures IndexOfPair(cs, a, b) == IndexOfPair(cs, b, a)
  {
    if cs != [] && !HasPair(cs[0], a, b) {
      IndexOfPairSymmetric(cs[1..], a, b);
    }
  }

  /** Appending a conversation for a pair nobody has yet makes it the pair's match. */
  lemma {:induction false} IndexOfPairAppend(cs: seq<ConversationDoc>, c: ConversationDoc, a: string, b: string)
    requires IndexOfPair(cs, a, b).None?
    requires HasPair(c, a, b)
    ensures IndexOfPair(cs + [c], a, b) == Some(|cs|)
  {
    if cs != [] {
      assert (cs + [c])[1..] == cs[1..] + [c];
      IndexOfPairAppend(cs[1..], c, a, b);
    }
  }

  /** A conversation between two different participants. */
  predicate IsPair(c: ConversationDoc) {
    ValidConversation(c.conv) && c.conv.participantIds[0] != c.conv.participantIds[1]
  }

  /** For any two different users, at most one conversation holds both. */
  ghost predicate PairUnique(cs: seq<ConversationDoc>) {
    forall i, j, x, y :: 0 <= i < j < |cs| && x != y && HasPair(cs[i], x, y) ==> !HasPair(cs[j], x, y)
  }

  /** The conversation as `send_message` leaves it. */
  function WithLastMessage(c: ConversationDoc, text: string, now: nat): (u: ConversationDoc)
    ensures u.id == c.id && u.conv.participantIds == c.conv.participantIds
    ensures u.conv.lastMessagePreview == Some(text) && u.updatedAt == Some(now)
  {
    c.(conv := c.conv.(lastMessagePreview := Some(text)), updatedAt := Some(now))
  }

  /** The stored document a user record is read back as. */
  function UserDocument(u: UserDoc): Document
  {
    map["_id" := ObjectIdValue(u.id), "username" := Text(u.username),
        "avatar_color" := OptionalText(u.avatarColor)]
  }

  /** The stored document a conversation is read back as; `updated_at` is absent until the first message. */
  function ConversationDocument(c: ConversationDoc): Document
  {
    var d := map["_id" := ObjectIdValue(c.id), "participant_ids" := TextList(c.conv.participantIds),
                 "last_message_preview" := OptionalText(c.conv.lastMessagePreview)];
    match c.updatedAt
    case None => d
    case Some(t) => d["updated_at" := DateTime(t)]
  }

  /** The stored document a message is read back as. */
  function MessageDocument(m: MessageDoc): Document
  {
    map["_id" := ObjectIdValue(m.id), "conversation_id" := Text(m.msg.conversationId),
        "sender_id" := Text(m.msg.senderId), "text" := Text(m.msg.text),
        "delivered" := Bool(m.msg.delivered), "read" := Bool(m.msg.read)]
  }

  /**
    What holds of the store between handlers: identifiers ascend in each
    collection and are below the counter, every conversation is between two
    different participants, and no two conversations share a pair.
  */
  ghost predicate StoreInvariant(users: seq<UserDoc>, conversations: seq<ConversationDoc>, messages: seq<MessageDoc>, nextId: nat) {
    && AllBelow(users, UserId, nextId) && StrictlyAscending(users, UserId)
    && AllBelow(conversations, ConversationId, nextId) && StrictlyAscending(conversations, ConversationId)
    && AllBelow(messages, MessageId, nextId) && StrictlyAscending(messages, MessageId)
    && (forall i :: 0 <= i < |conversations| ==> IsPair(conversations[i]))
    && PairUnique(conversations)
  }

  lemma InvariantAfterUser(users: seq<UserDoc>, cs: seq<ConversationDoc>, ms: seq<MessageDoc>, nextId: nat, u: UserDoc)
    requires StoreInvariant(users, cs, ms, nextId)
    requires u.id == nextId
    ensures StoreInvariant(users + [u], cs, ms, nextId + 1)
  {
    AppendAbove(users, u, UserId, nextId);
  }

  lemma InvariantAfterConversation(users: seq<UserDoc>, cs: seq<ConversationDoc>, ms: seq<MessageDoc>, nextId: nat, a: string, b: string)
    requires StoreInvariant(users, cs, ms, nextId)
    requires a != b && IndexOfPair(cs, a, b).None?
    ensures StoreInvariant(users, cs + [ConversationDoc(nextId, NewConversation([a, b]), None)], ms, nextId + 1)
  {
    var c := ConversationDoc(nextId, NewConversation([a, b]), None);
    var cs' := cs + [c];
    AppendAbove(cs, c, ConversationId, nextId);
    assert forall i :: 0 <= i < |cs| ==> cs'[i] == cs[i];
    forall i, j, x, y | 0 <= i < j < |cs'| && x != y && HasPair(cs'[i], x, y)
      ensures !HasPair(cs'[j], x, y)
    {
      assert cs'[i] == cs[i];
    }
  }

  lemma InvariantAfterMessage(users: seq<UserDoc>, cs: seq<ConversationDoc>, ms: seq<MessageDoc>, nextId: nat,
                              k: nat, m: MessageDoc, text: string, now: nat)
    requires StoreInvariant(users, cs, ms, nextId)
    requires k < |cs| && m.id == nextId
    ensures StoreInvariant(users, cs[k := WithLastMessage(cs[k], text, now)], ms + [m], nextId + 1)
  {
    var cs' := cs[k := WithLastMessage(cs[k], text, now)];
    AppendAbove(ms, m, MessageId, nextId);
    assert forall i :: 0 <= i < |cs| ==> cs'[i].id == cs[i].id && cs'[i].conv.participantIds == cs[i].conv.participantIds;
    assert forall i, x, y :: 0 <= i < |cs| ==> (HasPair(cs'[i], x, y) <==> HasPair(cs[i], x, y));
    assert StrictlyAscending(cs', ConversationId);
    assert AllBelow(users, UserId, nextId + 1) && AllBelow(cs', ConversationId, nextId + 1);
  }

  /** Identifiers ascend, so the lookup by identifier finds each conversation where it is. */
  lemma IndexOfIdAt(cs: seq<ConversationDoc>, k: nat)
    requires StrictlyAscending(cs, ConversationId) && k < |cs|
    ensures IndexOfId(cs, cs[k].id) == Some(k)
  {
  }

  function OptionalText(v: Option<string>): Value {
    match v case None => Null case Some(t) => Text(t)
  }

  /** The response for a user: its fields, with its identifier's text under `id`. */
  method UserResponse(u: UserDoc) returns (d: Document)
    ensures d.Keys == {"id", "username", "avatar_color"}
    ensures d["id"] == Text(EncodeId(u.id))
    ensures d["username"] == Text(u.username) && d["avatar_color"] == OptionalText(u.avatarColor)
  {
    var r := ToStrId(Some(UserDocument(u)));
    d := r.value;
  }

  /** The response for a conversation: `updated_at`, once set, is sent as ISO 8601 text. */
  method ConversationResponse(c: ConversationDoc) returns (d: Document)
    ensures d.Keys == {"id", "participant_ids", "last_message_preview"} + (if c.updatedAt.Some? then {"updated_at"} else {})
    ensures d["id"] == Text(EncodeId(c.id))
    ensures d["participant_ids"] == TextList(c.conv.participantIds)
    ensures d["last_message_preview"] == OptionalText(c.conv.lastMessagePreview)
    ensures c.updatedAt.Some? ==> d["updated_at"] == IsoText(c.updatedAt.value)
  {
    var r := ToStrId(Some(ConversationDocument(c)));
    d := r.value;
  }

  /** The response for a message. */
  method MessageResponse(m: MessageDoc) returns (d: Document)
    ensures d.Keys == {"id", "conversation_id", "sender_id", "text", "delivered", "read"}
    ensures d["id"] == Text(EncodeId(m.id))
    ensures d["conversation_id"] == Text(m.msg.conversationId) && d["sender_id"] == Text(m.msg.senderId)
    ensures d["text"] == Text(m.msg.text)
    ensures d["delivered"] == Bool(m.msg.delivered) && d["read"] == Bool(m.msg.read)
  {
    var doc := MessageDocument(m);
    assert doc.Keys == {"_id", "conversation_id", "sender_id", "text", "delivered", "read"};
    var r := ToStrId(Some(doc));
    d := r.value;
    assert doc.Keys - {"_id"} + {"id"} == {"id", "conversation_id", "sender_id", "text", "delivered", "read"};
  }

  class ChatStore {
    var users: seq<UserDoc>
    var conversations: seq<ConversationDoc>
    var messages: seq<MessageDoc>
    /** Every identifier handed out so far is below `nextId`. */
    var nextId: nat

    ghost predicate Valid()
      reads this
    {
      StoreInvariant(users, conversations, messages, nextId)
    }

    constructor ()
      ensures Valid()
      ensures users == [] && conversations == [] && messages == [] && nextId == 0
    {
      users, conversations, messages, nextId := [], [], [], 0;
    }

    /** `create_user`: stores the request's fields under a fresh identifier and returns the stored user. */
    method CreateUser(req: CreateUserRequest) returns (u: UserDoc)
      requires Valid()
      modifies this
      ensures Valid()
      ensures u == UserDoc(old(nextId), req.username, req.avatarColor)
      ensures users == old(users) + [u]
      ensures conversations == old(conversations) && messages == old(messages)
      ensures nextId == old(nextId) + 1
    {
      u := UserDoc(nextId, req.username, req.avatarColor);
      InvariantAfterUser(users, conversations, messages, nextId, u);
      users := users + [u];
      nextId := nextId + 1;
    }

    /** `list_users`: every stored user, each once; callers may not rely on the order. */
    function ListUsers(): (r: seq<UserDoc>)
      reads this
      ensures multiset(r) == multiset(users)
    {
      users
    }

    /**
      `start_conversation`: refuses a conversation with oneself; otherwise returns
      the first conversation holding both users, or creates one for them.
    */
    method StartConversation(a: string, b: string) returns (r: Result<ConversationDoc>)
      requires Valid()
      modifies this
      ensures Valid()
      ensures a == b ==> r == Err(SelfConversation) && unchanged(this)
      ensures a != b && IndexOfPair(old(conversations), a, b).Some? ==>
        && r == Ok(old(conversations)[IndexOfPair(old(conversations), a, b).value])
        && unchanged(this)
      ensures a != b && IndexOfPair(old(conversations), a, b).None? ==>
        && r == Ok(ConversationDoc(old(nextId), NewConversation([a, b]), None))
        && conversations == old(conversations) + [r.value]
        && users == old(users) && messages == old(messages)
        && nextId == old(nextId) + 1
      ensures r.Ok? ==> var k := IndexOfPair(conversations, a, b); k.Some? && conversations[k.value] == r.value
      ensures r.Ok? ==> var k := IndexOfId(conversations, r.value.id); k.Some? && conversations[k.value] == r.value
    {
      if a == b {
        return Err(SelfConversation);
      }
      var existing := IndexOfPair(conversations, a, b);
      if existing.Some? {
        IndexOfIdAt(conversations, existing.value);
        return Ok(conversations[existing.value]);
      }
      var c := ConversationDoc(nextId, NewConversation([a, b]), None);
      InvariantAfterConversation(users, conversations, messages, nextId, a, b);
      IndexOfPairAppend(conversations, c, a, b);
      conversations := conversations + [c];
      nextId := nextId + 1;
      r := Ok(c);
      IndexOfIdAt(conversations, |conversations| - 1);
    }

    /**
      `send_message`: decodes the conversation identifier (a malformed one raises),
      requires the conversation to exist and the sender to be one of its
      participants, then stores a delivered, unread message and records its text
      and the current time on the conversation.
    */
    method SendMessage(conversationId: string, senderId: string, text: string, now: nat) returns (r: Result<MessageDoc>)
      requires Valid()
      modifies this
      ensures Valid()
      ensures DecodeId(conversationId).None? ==> r == Err(InvalidId(conversationId)) && unchanged(this)
      ensures DecodeId(conversationId).Some? && IndexOfId(old(conversations), DecodeId(conversationId).value).None? ==>
        r == Err(ConversationNotFound) && unchanged(this)
      ensures DecodeId(conversationId).Some? && IndexOfId(old(conversations), DecodeId(conversationId).value).Some? ==>
        var k := IndexOfId(old(conversations), DecodeId(conversationId).value).value;
        if senderId !in old(conversations)[k].conv.participantIds then
          r == Err(SenderNotInConversation) && unchanged(this)
        else
          && r == Ok(MessageDoc(old(nextId), NewMessage(conversationId, senderId, text).(delivered := true)))
          && messages == old(messages) + [r.value]
          && conversations == old(conversations)[k := WithLastMessage(old(conversations)[k], text, now)]
          && users == old(users)
          && nextId == old(nextId) + 1
    {
      var oid := DecodeId(conversationId);
      if oid.None? {
        return Err(InvalidId(conversationId));
      }
      var found := IndexOfId(conversations, oid.value);
      if found.None? {
        return Err(ConversationNotFound);
      }
      var k := found.value;
      if senderId !in conversations[k].conv.participantIds {
        return Err(SenderNotInConversation);
      }
      var m := MessageDoc(nextId, NewMessage(conversationId, senderId, text).(delivered := true));
      InvariantAfterMessage(users, conversations, messages, nextId, k, m, text, now);
      messages := messages + [m];
      nextId := nextId + 1;
      conversations := conversations[k := WithLastMessage(conversations[k], text, now)];
      r := Ok(m);
    }
  }
}
