# One-to-one chat backend, modelled in Dafny

This project models the request handlers of a small chat backend and the
entities they store. Users are created. A conversation is started between two
users, and there is at most one conversation per pair. Messages are sent by
participants only. A conversation's history is read in pages, oldest first,
going back with a `before` cursor.

The document store is a `ChatStore` object. It holds the three collections
(users, conversations, messages) as sequences in insertion order. It also
holds the counter from which fresh identifiers are drawn. Each handler is one
atomic step on that object:

- `create_user`, `start_conversation` and `send_message` are methods that
  update the store in place.
- `get_conversations` and `list_messages` are read-only queries. They are
  functions of the store's collections: `GetConversations(store.conversations, …)`
  and `ListMessages(store.messages, …)`.
- `to_str_id`, the response normaliser, is a loop over a document's fields.

Modules, one per part of the program:

- `ObjectIds`: identifiers as natural numbers. `EncodeId` gives their 24-digit
  lower-case hexadecimal text. `DecodeId` is the partial inverse and accepts
  exactly 24 hexadecimal digits of either case.
- `Schemas`: the `ChatUser`, `Conversation` and `Message` schemas, their field
  constraints as validity predicates and their defaults as constructors.
- `Documents`: field maps and `ToStrId`.
- `Sequences`: the descending sort, reversal and ascending order that the
  queries use.
- `Store`: records, errors, lookups and the class with the writing handlers.
- `Queries`: the two read-only handlers and the pagination lemmas.
- `Scenarios`: handlers called in sequence, and worked pagination examples.

Inputs the model does not compute are parameters. `send_message` takes the
current time as a natural number `now`. The store draws identifiers from its
counter, so a later identifier is always a larger number.

Behaviour of the code that the model keeps as written:

- `main.py` never uses `schemas.py`. Its request models carry no length
  constraints. So `create_user` stores a username of any length, and
  `send_message` stores a text of any length. The validity predicates in
  `Schemas` are the schemas' constraints, and no handler enforces them.
- In a create-user request, `avatar_color` defaults to `#6366F1` but may be
  sent as null. The stored user's colour is therefore an `Option`.
- `send_message` decodes the conversation identifier outside any `try`
  (main.py:121). A malformed identifier raises `InvalidId`. That becomes a
  server error, not a 404. Only the `before` cursor of `list_messages` is
  decoded tolerantly (main.py:143-147).
- A message stores the conversation identifier text exactly as the client
  sent it. `list_messages` matches that text exactly, but decoding ignores
  letter case. A message sent with an upper-case spelling of the identifier
  is therefore not listed under the identifier's own text
  (`Scenarios.CaseVariantNotListed`).
- The schema's default for `Message.delivered` is false. `send_message` sets it
  to true explicitly.

## Model

| member | source | states |
|---|---|---|
| `Documents.ToStrId` | main.py:23-33 | an absent or empty document comes back unchanged; otherwise `_id` is gone, `id` holds the identifier's text, every other field keeps its value except that datetimes become ISO 8601 text, and no datetime is left |
| `Store.DefaultCreateUserRequest` | main.py:36-38 | a create-user request without `avatar_color` carries the same default colour as the user schema |
| `Store.ChatStore.CreateUser` | main.py:82-87 | exactly one user is appended, with the request's fields and a fresh identifier larger than all earlier ones; nothing else changes; the store invariant is kept |
| `Store.ChatStore.ListUsers` | main.py:89-92 | every stored user is returned, each as often as stored, in no promised order |
| `Store.IndexOfPair` | main.py:102 | the lookup finds the first conversation whose participants contain both users, and finds nothing exactly when no conversation contains both |
| `Store.IndexOfPairSymmetric` | main.py:102 | the `$all` lookup gives the same answer for (a, b) and (b, a) |
| `Store.IndexOfPairAppend` | main.py:105-110 | after a conversation for an unmatched pair is appended, the lookup finds that new conversation |
| `Store.ChatStore.StartConversation` | main.py:95-110 | a == b gives the 400 error and leaves the store unchanged; an existing conversation holding both users is returned and nothing is inserted; otherwise exactly one conversation `[a, b]` with no preview and no `updated_at` is appended and returned; the result is what the pair lookup and the lookup by identifier then find; at most one conversation per pair of distinct users is kept as an invariant |
| `Store.InvariantAfterUser` | main.py:82-87 | appending a user under the next identifier keeps the store invariant: identifiers ascend and stay below the counter |
| `Store.InvariantAfterConversation` | main.py:95-110 | appending a conversation for two different users that no conversation holds yet keeps the invariant, including at most one conversation per pair |
| `Store.InvariantAfterMessage` | main.py:118-138 | appending a message under the next identifier and updating one conversation's preview and timestamp keeps the invariant |
| `Store.IndexOfIdAt` | main.py:121 | because identifiers ascend, the lookup by a conversation's identifier finds that conversation |
| `Store.IndexOfId` | main.py:121 | the lookup by identifier finds the first conversation with that identifier, or nothing when none has it |
| `Store.WithLastMessage` | main.py:135 | the updated conversation keeps its identifier and participants and records the text as preview and `now` as `updated_at` |
| `Store.ChatStore.SendMessage` | main.py:118-138 | an undecodable identifier raises `InvalidId`, an unknown conversation gives 404, and a sender outside the participants gives 403; in all three cases the store is unchanged; on success exactly one message is appended, carrying the given conversation text, sender and text, with `delivered` true and `read` false; only the target conversation changes, gaining that preview and timestamp |
| `Store.UserResponse` | main.py:87 | the user response has exactly `id`, `username` and `avatar_color`, with `id` the identifier's text |
| `Store.ConversationResponse` | main.py:104-110 | the conversation response has `id`, participants and preview, plus `updated_at` as ISO 8601 text exactly when it is set |
| `Store.MessageResponse` | main.py:137-138 | the message response has `id` and the five stored message fields unchanged |
| `Queries.ConversationsOf` | main.py:114 | the participant filter keeps exactly the conversations whose participants include the user |
| `Queries.GetConversations` | main.py:112-115 | the result is a permutation of the user's conversations, and contains exactly those whose participants include the user, sorted by `updated_at` descending with a missing `updated_at` ranked lowest |
| `Queries.GetConversationsOrder` | main.py:114 | newer conversations come first, and conversations that never had a message come after all others |
| `Queries.MessagesOfMembers` | main.py:142-147 | the filter keeps exactly the messages of the conversation text that lie below the cursor, when there is one |
| `Queries.CursorBound` | main.py:143-147 | a present cursor bounds the page exactly when it decodes; an absent cursor does not bound it |
| `Queries.PageSize` | main.py:148 | `.limit(0)` keeps every document; any other limit keeps at most its magnitude |
| `Queries.ListMessages` | main.py:140-150 | the page holds as many messages as the limit lets through out of the filtered ones; each belongs to the conversation text and lies below a decoded cursor; the page is ascending by identifier |
| `Queries.ListMessagesIsNewestSuffix` | main.py:148-150 | when identifiers ascend in the store, the page is exactly the newest `limit` filtered messages, oldest first |
| `Queries.PageHoldsNewest` | main.py:148-150 | the page ascends strictly, and every filtered message left off the page is older than every message on it |
| `Queries.CursorSelectsEarlier` | main.py:142-147 | in a store with ascending identifiers, the cursor of the message at a position selects exactly the conversation's messages stored before that position |
| `Queries.ListMessagesDefault` | main.py:141-150 | a request without `limit` gets a page of at most 50 messages (all of them when fewer match), each of the conversation and stored, in ascending identifier order |
| `Queries.MalformedCursorIgnored` | main.py:143-147 | a cursor that does not decode gives the same page as no cursor |
| `Queries.NewestMessageLast` | main.py:140-150 | a message just appended to its conversation is the last message of that conversation's first page |
| `Sequences.SortDescSorted` | main.py:148 | the sort's result is ordered by the key, descending |
| `Sequences.SortDescPermutes` | main.py:148 | the sort's result is a permutation of its input |
| `Sequences.SortDescOfAscending` | main.py:148 | sorting strictly ascending identifiers in descending order is reversal |
| `Sequences.Reverse` | main.py:150 | the reversal holds the input's elements in the opposite order |
| `ObjectIds.DecodeId` | main.py:145 | decoding succeeds exactly on 24 hexadecimal digits, and then gives an identifier below 2^96 |
| `ObjectIds.EncodeDecode` | main.py:28 | every identifier below 2^96 has 24-digit text that decodes back to it |
| `ObjectIds.EncodeInjective` | main.py:28 | distinct identifiers below 2^96 have distinct texts |
| `Schemas.NewChatUser` | schemas.py:15-16 | a new user gets the colour `#6366F1` and is valid exactly when its username has 2 to 24 characters |
| `Schemas.NewConversation` | schemas.py:23-24 | a new conversation has no preview and is valid exactly when it has two participant identifiers |
| `Schemas.NewMessage` | schemas.py:31-35 | a new message is neither delivered nor read, and is valid exactly when its text has 1 to 4000 characters |
| `Scenarios.StartConversationTwice` | main.py:95-110 | starting a conversation for (a, b) and then for (b, a) returns the same conversation both times, and adds at most one |
| `Scenarios.SendThenList` | main.py:118-150 | after a message is accepted, it is the last message of its conversation's first page |
| `Scenarios.LatestPageExample` | main.py:140-150 | of five messages in one conversation, a page of two is the fourth and fifth |
| `Scenarios.OlderPageExample` | main.py:140-150 | of five messages, the page of two before the fourth message is the second and third |
| `Scenarios.UpperCaseAlias` | main.py:121 | an identifier whose last digit is a letter has an upper-case spelling that differs from its text and decodes to the same identifier |
| `Scenarios.CaseVariantNotListed` | main.py:121-150 | an identifier spelled with an upper-case digit decodes like its own text but differs from it, so a message stored under it is not on the conversation's page |

## Left out

- The `/` and `/test` endpoints (main.py:49-79) are left out. They report liveness and store connectivity, read environment variables and contain no chat logic.
- FastAPI routing, CORS middleware, request-body validation and the uvicorn start-up (main.py:11-19, 152-155) are left out. An `HTTPException` is modelled as an error value carrying its status code and detail.
- `database.py` (`db`, `create_document`, `get_documents`) is not part of this model. The store class stores exactly the fields that main.py passes, plus a fresh identifier. Store and connection failures are not modelled.
- The ObjectId byte layout and its generation from time, randomness and a counter are not modelled. Identifiers come from an unbounded counter instead. The 24-digit round trip is proved below 2^96, the number of ObjectIds. Above that, `EncodeId` writes more digits.
- `ToStrId`: requires `_id` to hold an ObjectId. The store always puts one there. `str()` of other kinds of value is not modelled.
- `datetime.utcnow()` and `isoformat()` are not modelled. The time is the parameter `now`, and ISO 8601 text is a symbolic value.
- `Store.ChatStore.SendMessage`: does not promise that `updated_at` never moves backwards, because `now` is a parameter and the clock's monotonicity is not modelled.
- Concurrency is left out: the race between lookup and insert in `start_conversation`, and the non-atomic insert–update pair in `send_message`. Each handler is one atomic step.
- `Queries.GetConversations`: the store's order among conversations with equal `updated_at` is unspecified. The model's sort keeps store order for those.
- `Queries.PageSize`: the single-batch size cap that pymongo applies to a negative limit is not modelled.
- The store's natural order is taken to be insertion order. This is the order `find_one` scans and `list_users` returns.
