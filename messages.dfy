/** The message record and the append-only message store (Message.py). */
module Messages {
  import opened Common
  import opened Content

  /** One cleaned conversation turn. */
  datatype Message = Message(
    messageId: string,
    conversationId: string,
    conversationTitle: string,
    parent: Option<string>,
    children: seq<string>,
    author: string,
    parts: seq<Fragment>)

  /** `Message(id, conversation_id, title, author, parts=[], parent=None, children=[])`. */
  function NewMessage(id: string, conversationId: string, title: string, author: string,
                      parts: seq<Fragment> := [], parent: Option<string> := None,
                      children: seq<string> := []): (m: Message)
    ensures m.messageId == id && m.conversationId == conversationId && m.conversationTitle == title
    ensures m.author == author && m.parts == parts && m.parent == parent && m.children == children
  {
    Message(id, conversationId, title, parent, children, author, parts)
  }

  /**
   * Position of the first message whose id is `id`, or `|ms|` when there is none.
   */
  function FirstMatch(ms: seq<Message>, id: string): nat {
    if ms == [] then 0
    else if ms[0].messageId == id then 0
    else 1 + FirstMatch(ms[1..], id)
  }

  /** The first match: no earlier message has the id, and the one found (if any) does. */
  lemma {:induction false} FirstMatchSpec(ms: seq<Message>, id: string)
    ensures FirstMatch(ms, id) <= |ms|
    ensures forall j :: 0 <= j < FirstMatch(ms, id) ==> ms[j].messageId != id
    ensures FirstMatch(ms, id) < |ms| ==> ms[FirstMatch(ms, id)].messageId == id
  {
    if ms != [] && ms[0].messageId != id {
      FirstMatchSpec(ms[1..], id);
      forall j | 1 <= j < FirstMatch(ms, id) ensures ms[j].messageId != id {
        assert ms[j] == ms[1..][j - 1];
      }
    }
  }

  /** The position characterised by the first-match property is the one `FirstMatch` returns. */
  lemma {:induction false} FirstMatchAt(ms: seq<Message>, id: string, i: nat)
    requires i <= |ms|
    requires forall j :: 0 <= j < i ==> ms[j].messageId != id
    requires i < |ms| ==> ms[i].messageId == id
    ensures FirstMatch(ms, id) == i
  {
    if ms != [] && ms[0].messageId != id {
      forall j | 0 <= j < i - 1 ensures ms[1..][j].messageId != id {
        assert ms[1..][j] == ms[j + 1];
      }
      FirstMatchAt(ms[1..], id, i - 1);
    }
  }

  /** The first message in insertion order with id `id`, if any. */
  function FindById(ms: seq<Message>, id: string): (r: Option<Message>)
  {
    var k := FirstMatch(ms, id);
    if k < |ms| then Some(ms[k]) else None
  }

  /** The messages of one conversation, in insertion order. */
  function InConversation(ms: seq<Message>, conversationId: string): (r: seq<Message>)
    ensures |r| <= |ms|
    ensures forall m :: m in r <==> m in ms && m.conversationId == conversationId
  {
    if ms == [] then []
    else
      var rest := InConversation(ms[..|ms| - 1], conversationId);
      var last := ms[|ms| - 1];
      assert ms == ms[..|ms| - 1] + [last];
      if last.conversationId == conversationId then rest + [last] else rest
  }

  /** Lookup by id: `Some` exactly when some stored message has that id, and then the first one. */
  lemma FindByIdSpec(ms: seq<Message>, id: string)
    ensures FindById(ms, id).None? <==> forall m :: m in ms ==> m.messageId != id
    ensures FindById(ms, id).Some? ==>
      exists i :: 0 <= i < |ms| && ms[i] == FindById(ms, id).value && ms[i].messageId == id &&
        forall j :: 0 <= j < i ==> ms[j].messageId != id
  {
    FirstMatchSpec(ms, id);
    var k := FirstMatch(ms, id);
    if k == |ms| {
      forall m | m in ms ensures m.messageId != id {
        var i :| 0 <= i < |ms| && ms[i] == m;
      }
    }
  }

  /** Appending never changes a lookup that already succeeds; a failing one falls through to the new part. */
  lemma {:induction false} FindByIdAppend(a: seq<Message>, b: seq<Message>, id: string)
    ensures FindById(a + b, id) == if FindById(a, id).Some? then FindById(a, id) else FindById(b, id)
  {
    if a == [] {
      assert a + b == b;
    } else {
      assert (a + b)[1..] == a[1..] + b;
      FindByIdAppend(a[1..], b, id);
    }
  }

  /** Filtering by conversation distributes over concatenation, so it keeps insertion order. */
  lemma {:induction false} InConversationAppend(a: seq<Message>, b: seq<Message>, conversationId: string)
    ensures InConversation(a + b, conversationId) == InConversation(a, conversationId) + InConversation(b, conversationId)
    decreases |b|
  {
    if b == [] {
      assert a + b == a;
    } else {
      var b' := b[..|b| - 1];
      assert (a + b)[..|a + b| - 1] == a + b';
      InConversationAppend(a, b', conversationId);
    }
  }

  /**
   * The message store: an append-only list of messages owned by this instance.
   */
  class MessageManager {
    var messages: seq<Message>

    constructor (messages: seq<Message> := [])
      ensures this.messages == messages
    {
      this.messages := messages;
    }

    method AddMessage(message: Message)
      modifies this
      ensures messages == old(messages) + [message]
    {
      messages := messages + [message];
    }

    method AddMessages(newMessages: seq<Message>)
      modifies this
      ensures messages == old(messages) + newMessages
      ensures |messages| == |old(messages)| + |newMessages|
    {
      messages := messages + newMessages;
    }

    method GetMessageById(id: string) returns (r: Option<Message>)
      ensures r == FindById(messages, id)
      ensures r.None? <==> forall m :: m in messages ==> m.messageId != id
      ensures r.Some? ==> r.value.messageId == id && r.value in messages
    {
      for i := 0 to |messages|
        invariant forall j :: 0 <= j < i ==> messages[j].messageId != id
      {
        if messages[i].messageId == id {
          FirstMatchAt(messages, id, i);
          return Some(messages[i]);
        }
      }
      FirstMatchAt(messages, id, |messages|);
      return None;
    }

    method GetMessagesByConversationId(conversationId: string) returns (r: seq<Message>)
      ensures r == InConversation(messages, conversationId)
      ensures forall m :: m in r <==> m in messages && m.conversationId == conversationId
    {
      r := [];
      for i := 0 to |messages|
        invariant r == InConversation(messages[..i], conversationId)
      {
        assert messages[..i + 1][..i] == messages[..i];
        if messages[i].conversationId == conversationId {
          r := r + [messages[i]];
        }
      }
      assert messages[..|messages|] == messages;
    }

    method GetAllMessages() returns (r: seq<Message>)
      ensures r == messages
    {
      return messages;
    }
  }
}
