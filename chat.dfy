/** The general channel and the private channels: building a message from the input box,
    pushing it into its channel, and the oldest-first view each channel snapshot is shown as. */
module Chat {
  import opened Wrappers
  import opened Text
  import opened Sorting
  import opened Identity

  /** A message of the general channel (`type: "general"`) or of a private channel. */
  datatype ChatMessage =
    | General(author: string, authorCode: string, text: string, timestamp: int)
    | Private(sender: string, senderCode: string, receiver: string, text: string,
              timestamp: int, chatId: string)

  /** The message `sendGeneralMessage` pushes, or `None` when the trimmed text is empty
      (the page then returns without writing). */
  function NewGeneralMessage(user: User, rawText: string, now: int): (r: Option<ChatMessage>)
    ensures r.None? <==> AllSpace(rawText)
    ensures r.Some? ==>
      && r.value.General?
      && r.value.author == user.name && r.value.authorCode == user.code
      && r.value.text == Trim(rawText) && r.value.text != [] && r.value.timestamp == now
  {
    var text := Trim(rawText);
    if text == [] then None else Some(General(user.name, user.code, text, now))
  }

  /** The message `sendPrivateMessage` pushes into channel `chatId` for the player named
      `receiverName`, or `None` when the trimmed text is empty. */
  function NewPrivateMessage(user: User, chatId: string, receiverName: string, rawText: string, now: int)
    : (r: Option<ChatMessage>)
    ensures r.None? <==> AllSpace(rawText)
    ensures r.Some? ==>
      && r.value.Private?
      && r.value.sender == user.name && r.value.senderCode == user.code
      && r.value.receiver == receiverName && r.value.chatId == chatId
      && r.value.text == Trim(rawText) && r.value.text != [] && r.value.timestamp == now
  {
    var text := Trim(rawText);
    if text == [] then None else Some(Private(user.name, user.code, receiverName, text, now, chatId))
  }

  /** The sort key of a channel view: earlier timestamps first. */
  function OldestFirst(m: ChatMessage): int {
    m.timestamp
  }

  /** `Object.values(messages).sort((a, b) => a.timestamp - b.timestamp)`: what a channel's
      subscription shows for one snapshot, general or private alike. */
  function MessageView(values: seq<ChatMessage>): seq<ChatMessage> {
    SortBy(values, OldestFirst)
  }

  /** The view holds exactly the snapshot's messages, oldest first, and messages with equal
      timestamps stay in snapshot order. */
  lemma MessageViewOrdered(values: seq<ChatMessage>)
    ensures var r := MessageView(values);
      && multiset(r) == multiset(values)
      && (forall i, j :: 0 <= i < j < |r| ==> r[i].timestamp <= r[j].timestamp)
      && (forall t :: WithKey(r, OldestFirst, t) == WithKey(values, OldestFirst, t))
  {
    var r := MessageView(values);
    SortByCorrect(values, OldestFirst);
    forall t ensures WithKey(r, OldestFirst, t) == WithKey(values, OldestFirst, t) {
      SortByStable(values, OldestFirst, t);
    }
  }

  /** The messages of one private channel; a channel nobody has written to reads as empty. */
  function Channel(chats: map<string, map<string, ChatMessage>>, chatId: string): map<string, ChatMessage> {
    if chatId in chats then chats[chatId] else map[]
  }

  /** `generalChat` and `privateChats/<chatId>` as one client writes them. */
  class ChatStore {
    var generalChat: map<string, ChatMessage>
    var privateChats: map<string, map<string, ChatMessage>>

    constructor (general: map<string, ChatMessage>, chats: map<string, map<string, ChatMessage>>)
      ensures generalChat == general && privateChats == chats
    {
      generalChat := general;
      privateChats := chats;
    }

    /** `sendGeneralMessage`: pushes the message under the store-assigned `key`; an empty
        trimmed text writes nothing. */
    method SendGeneral(user: User, rawText: string, key: string, now: int) returns (sent: Option<ChatMessage>)
      modifies this
      ensures sent == NewGeneralMessage(user, rawText, now)
      ensures sent.None? <==> AllSpace(rawText)
      ensures generalChat == if sent.Some? then old(generalChat)[key := sent.value] else old(generalChat)
      ensures privateChats == old(privateChats)
    {
      sent := NewGeneralMessage(user, rawText, now);
      if sent.Some? {
        generalChat := generalChat[key := sent.value];
      }
    }

    /** `sendPrivateMessage`: pushes the message into channel `chatId` under `key`; an empty
        trimmed text writes nothing, and no other channel changes. */
    method SendPrivate(user: User, chatId: string, receiverName: string, rawText: string, key: string, now: int)
      returns (sent: Option<ChatMessage>)
      modifies this
      ensures sent == NewPrivateMessage(user, chatId, receiverName, rawText, now)
      ensures sent.None? <==> AllSpace(rawText)
      ensures privateChats == if sent.Some?
        then old(privateChats)[chatId := Channel(old(privateChats), chatId)[key := sent.value]]
        else old(privateChats)
      ensures forall c :: c != chatId ==> Channel(privateChats, c) == Channel(old(privateChats), c)
      ensures generalChat == old(generalChat)
    {
      sent := NewPrivateMessage(user, chatId, receiverName, rawText, now);
      if sent.Some? {
        privateChats := privateChats[chatId := Channel(privateChats, chatId)[key := sent.value]];
      }
    }
  }
}
