/**
  The three stored entities and their field constraints: a chat user, a
  one-to-one conversation and a message. Each schema's constraints are a
  validity predicate; each schema's defaults are a constructor function.
*/
module Schemas {
  import opened Wrappers

  const UsernameMinLength: nat := 2
  const UsernameMaxLength: nat := 24
  const DefaultAvatarColor: string := "#6366F1"
  const ParticipantCount: nat := 2
  const TextMinLength: nat := 1
  const TextMaxLength: nat := 4000

  datatype ChatUser = ChatUser(username: string, avatarColor: string)

  datatype Conversation = Conversation(participantIds: seq<string>, lastMessagePreview: Option<string>)

  datatype Message = Message(conversationId: string, senderId: string, text: string, delivered: bool, read: bool)

  predicate ValidChatUser(u: ChatUser) {
    UsernameMinLength <= |u.username| <= UsernameMaxLength
  }

  predicate ValidConversation(c: Conversation) {
    |c.participantIds| == ParticipantCount
  }

  predicate ValidMessage(m: Message) {
    TextMinLength <= |m.text| <= TextMaxLength
  }

  /** A user built from its one required field. */
  function NewChatUser(username: string): (u: ChatUser)
    ensures u.username == username
    ensures u.avatarColor == DefaultAvatarColor
    ensures ValidChatUser(u) <==> 2 <= |username| <= 24
  {
    ChatUser(username, DefaultAvatarColor)
  }

  /** A conversation built from its one required field: no preview yet. */
  function NewConversation(participantIds: seq<string>): (c: Conversation)
    ensures c.participantIds == participantIds
    ensures c.lastMessagePreview == None
    ensures ValidConversation(c) <==> |participantIds| == 2
  {
    Conversation(participantIds, None)
  }

  /** A message built from its required fields: neither delivered nor read. */
  function NewMessage(conversationId: string, senderId: string, text: string): (m: Message)
    ensures m.conversationId == conversationId && m.senderId == senderId && m.text == text
    ensures !m.delivered && !m.read
    ensures ValidMessage(m) <==> 1 <= |text| <= 4000
  {
    Message(conversationId, senderId, text, false, false)
  }
}
