/**
 * The script's driver: load the first conversations into the message
 * manager, then walk every stored message and, for each assistant reply,
 * build the text embedded for the (user question, reply) pair and the
 * embedder input `prepare_vector` produces for it.
 */
module Pipeline {
  import opened Common
  import opened Content
  import opened Messages
  import opened Words
  import opened Chunking
  import opened Pairing
  import opened Conversations

  /** How many conversations of the export the script loads. */
  const ConversationLimit: nat := 30

  /** `conversations[:30]`. */
  function Batch(convs: seq<Conversation>): (b: seq<Conversation>)
    ensures |b| == if |convs| <= ConversationLimit then |convs| else ConversationLimit
    ensures b == convs[..|b|]
  {
    if |convs| <= ConversationLimit then convs else convs[..ConversationLimit]
  }

  /** What `getConversationMessages` returns for a conversation whose walk stops. */
  ghost function ConversationResult(conv: Conversation): Result<seq<Message>, Error>
    requires ParentChainEnds(conv)
  {
    var n: nat :| Terminates(conv, n);
    Linearise(conv, n)
  }

  /**
   * Every walk the loading loop starts stops: the walks of the conversations
   * up to and including the first one that raises. Later conversations are
   * never walked, so nothing is asked of them.
   */
  ghost predicate EndsUntilFailure(convs: seq<Conversation>)
    decreases |convs|
  {
    convs != [] ==>
      && ParentChainEnds(convs[0])
      && (ConversationResult(convs[0]).Ok? ==> EndsUntilFailure(convs[1..]))
  }

  /**
   * The loading loop: the messages added to the manager before the first
   * conversation that raises, and that conversation's error (an uncaught
   * exception ends the script there).
   */
  ghost function Loaded(convs: seq<Conversation>): (r: (seq<Message>, Option<Error>))
    requires EndsUntilFailure(convs)
    ensures forall m :: m in r.0 ==> m.parts != [] && m.author != "system"
    decreases |convs|
  {
    if convs == [] then ([], None)
    else
      match ConversationResult(convs[0])
      case Err(e) => ([], Some(e))
      case Ok(ms) => var rest := Loaded(convs[1..]); (ms + rest.0, rest.1)
  }

  /** The first `k` conversations are walked and none of them raises. */
  ghost predicate LoadsUpTo(convs: seq<Conversation>, k: nat)
    requires k <= |convs|
  {
    forall i :: 0 <= i < k ==> ParentChainEnds(convs[i]) && ConversationResult(convs[i]).Ok?
  }

  /**
   * Loading fails exactly when some walked conversation raises, and the error
   * is that of the first one; otherwise every conversation is walked without
   * error.
   */
  lemma {:induction false} LoadedSpec(convs: seq<Conversation>)
    requires EndsUntilFailure(convs)
    ensures Loaded(convs).1.None? <==> LoadsUpTo(convs, |convs|)
    ensures Loaded(convs).1.Some? ==> exists k :: && 0 <= k < |convs| && LoadsUpTo(convs, k)
                                                  && ParentChainEnds(convs[k])
                                                  && ConversationResult(convs[k]) == Err(Loaded(convs).1.value)
    decreases |convs|
  {
    if convs != [] && ConversationResult(convs[0]).Ok? {
      var tail := convs[1..];
      LoadedSpec(tail);
      LoadsUpToCons(convs);
      if Loaded(convs).1.Some? {
        var k :| && 0 <= k < |tail| && LoadsUpTo(tail, k) && ParentChainEnds(tail[k])
                 && ConversationResult(tail[k]) == Err(Loaded(tail).1.value);
        assert tail[k] == convs[k + 1];
      }
    } else if convs != [] {
      assert LoadsUpTo(convs, 0);
    }
  }

  /** The first conversation loads and the next `k` do, exactly when the first `k + 1` do. */
  lemma LoadsUpToCons(convs: seq<Conversation>)
    requires convs != [] && ParentChainEnds(convs[0]) && ConversationResult(convs[0]).Ok?
    ensures forall k :: 0 <= k <= |convs| - 1 ==> (LoadsUpTo(convs[1..], k) <==> LoadsUpTo(convs, k + 1))
  {
    forall k | 0 <= k <= |convs| - 1 ensures LoadsUpTo(convs[1..], k) <==> LoadsUpTo(convs, k + 1) {
      if LoadsUpTo(convs[1..], k) {
        forall i | 0 <= i < k + 1 ensures ParentChainEnds(convs[i]) && ConversationResult(convs[i]).Ok? {
          if i > 0 {
            assert convs[i] == convs[1..][i - 1];
          }
        }
      }
      if LoadsUpTo(convs, k + 1) {
        forall i | 0 <= i < k ensures ParentChainEnds(convs[1..][i]) && ConversationResult(convs[1..][i]).Ok? {
          assert convs[1..][i] == convs[i + 1];
        }
      }
    }
  }

  /**
   * The loading loop: each loaded conversation's messages are appended to the
   * manager in order; the first conversation that raises stops the loop.
   */
  method LoadConversations(manager: MessageManager, convs: seq<Conversation>) returns (failure: Option<Error>)
    requires EndsUntilFailure(Batch(convs))
    modifies manager
    ensures manager.messages == old(manager.messages) + Loaded(Batch(convs)).0
    ensures failure == Loaded(Batch(convs)).1
  {
    var batch := Batch(convs);
    ghost var added: seq<Message> := [];
    ghost var loaded := Loaded(batch);
    var i := 0;
    assert batch[i..] == batch;
    assert [] + loaded.0 == loaded.0;
    while i < |batch|
      invariant 0 <= i <= |batch|
      invariant manager.messages == old(manager.messages) + added
      invariant EndsUntilFailure(batch[i..]) && loaded == (added + Loaded(batch[i..]).0, Loaded(batch[i..]).1)
      decreases |batch| - i
    {
      NextWalkEnds(batch, i);
      var r := GetConversationMessages(batch[i]);
      LoadAdvance(batch, i, old(manager.messages), added, loaded, r);
      if r.Err? {
        return Some(r.error);
      }
      manager.AddMessages(r.value);
      added := added + r.value;
      i := i + 1;
    }
    assert Loaded(batch[i..]) == ([], None);
    assert added + [] == added;
    failure := None;
  }

  /** The next conversation the loading loop walks has a walk that stops. */
  lemma NextWalkEnds(batch: seq<Conversation>, i: nat)
    requires i < |batch| && EndsUntilFailure(batch[i..])
    ensures ParentChainEnds(batch[i])
  {
    assert batch[i..][0] == batch[i];
  }

  /** The loading loop's invariant after conversation `i`: the loop stops with its error, or moves on with its messages added. */
  lemma LoadAdvance(batch: seq<Conversation>, i: nat, before: seq<Message>, added: seq<Message>,
                    loaded: (seq<Message>, Option<Error>), r: Result<seq<Message>, Error>)
    requires i < |batch| && EndsUntilFailure(batch[i..])
    requires loaded == (added + Loaded(batch[i..]).0, Loaded(batch[i..]).1)
    requires forall n :: Terminates(batch[i], n) ==> r == Linearise(batch[i], n)
    ensures r.Err? ==> loaded == (added, Some(r.error))
    ensures r.Ok? ==> EndsUntilFailure(batch[i + 1..])
    ensures r.Ok? ==> loaded == ((added + r.value) + Loaded(batch[i + 1..]).0, Loaded(batch[i + 1..]).1)
    ensures r.Ok? ==> (before + added) + r.value == before + (added + r.value)
  {
    var rest := batch[i..];
    assert rest[0] == batch[i];
    LoadedStep(rest, r);
    if r.Err? {
      assert added + [] == added;
    } else {
      assert rest[1..] == batch[i + 1..];
      assert added + (r.value + Loaded(rest[1..]).0) == (added + r.value) + Loaded(rest[1..]).0;
    }
  }

  /** One step of the loading loop: the first conversation's outcome, then the rest. */
  lemma LoadedStep(convs: seq<Conversation>, r: Result<seq<Message>, Error>)
    requires convs != [] && EndsUntilFailure(convs)
    requires forall n :: Terminates(convs[0], n) ==> r == Linearise(convs[0], n)
    ensures r.Ok? ==> EndsUntilFailure(convs[1..])
    ensures r.Err? ==> Loaded(convs) == ([], Some(r.error))
    ensures r.Ok? ==> Loaded(convs) == (r.value + Loaded(convs[1..]).0, Loaded(convs[1..]).1)
  {
    var n: nat :| Terminates(convs[0], n) && ConversationResult(convs[0]) == Linearise(convs[0], n);
    assert r == ConversationResult(convs[0]);
  }

  /**
   * One `vectorManager.addVectors` call: the user message found for the
   * reply (or none), the reply, the paired text and the embedder input for it.
   * The vectors themselves are not part of this model.
   */
  datatype Entry = Entry(parent: Option<Message>, reply: Message, text: string, input: EmbeddingInput)

  /** The value `get_parent_user` returns when it returns. */
  function ParentOf(l: Lookup): (p: Option<Message>)
    ensures p.Some? <==> l.Found?
    ensures p.Some? ==> p.value == l.message
  {
    if l.Found? then Some(l.message) else None
  }

  /**
   * The loop body for one stored message: non-assistant messages, a
   * RecursionError in `get_parent_user` (caught and reported) and an empty
   * pair text produce no entry.
   */
  function EntryFor(store: seq<Message>, msg: Message, tokens: string -> nat, depth: nat): (e: Option<Entry>)
    ensures e.None? <==>
      || msg.author != ChatGpt
      || ParentUser(store, msg.parent, depth) == Diverged
      || (MessageText(Some(msg)) == "" && MessageText(ParentOf(ParentUser(store, msg.parent, depth))) == "")
    ensures e.Some? ==>
      && e.value.reply == msg
      && e.value.text != ""
      && e.value.parent == ParentOf(ParentUser(store, msg.parent, depth))
      && Split(e.value.text) == Split(MessageText(e.value.parent)) + Split(MessageText(Some(msg)))
      && (e.value.parent.Some? ==> e.value.parent.value in store && !IsSkipped(e.value.parent.value.author))
      && (tokens(e.value.text) <= MaxTokens <==> e.value.input == Whole(e.value.text))
      && e.value.text == PairText(e.value.parent, msg)
      && e.value.input == EmbeddingInputFor(e.value.text, tokens)
  {
    if msg.author != ChatGpt then None
    else
      var lookup := ParentUser(store, msg.parent, depth);
      if lookup.Diverged? then None
      else
        var parent := ParentOf(lookup);
        var text := PairText(parent, msg);
        if text == "" then None
        else Some(Entry(parent, msg, text, EmbeddingInputFor(text, tokens)))
  }

  /** The entries the loop records for `msgs`, in order. */
  function Pairs(store: seq<Message>, msgs: seq<Message>, tokens: string -> nat, depth: nat): (es: seq<Entry>)
    ensures |es| <= |msgs|
  {
    if msgs == [] then []
    else
      var last := msgs[|msgs| - 1];
      Pairs(store, msgs[..|msgs| - 1], tokens, depth) + (if EntryFor(store, last, tokens, depth).Some? then [EntryFor(store, last, tokens, depth).value] else [])
  }

  /**
   * Every recorded entry pairs an assistant reply from the walked messages
   * with a non-empty text that starts with the user text (when there is one)
   * and ends with the reply text.
   */
  lemma {:induction false} PairsSound(store: seq<Message>, msgs: seq<Message>, tokens: string -> nat, depth: nat)
    ensures forall e :: e in Pairs(store, msgs, tokens, depth) ==>
      && e.reply in msgs
      && e.reply.author == ChatGpt
      && e.text != ""
      && e.text == PairText(e.parent, e.reply)
      && EntryFor(store, e.reply, tokens, depth) == Some(e)
  {
    if msgs != [] {
      var init := msgs[..|msgs| - 1];
      PairsSound(store, init, tokens, depth);
      forall e | e in Pairs(store, msgs, tokens, depth)
        ensures e.reply in msgs && e.reply.author == ChatGpt && e.text != ""
        ensures e.text == PairText(e.parent, e.reply) && EntryFor(store, e.reply, tokens, depth) == Some(e)
      {
        if e in Pairs(store, init, tokens, depth) {
          assert e.reply in init;
        } else {
          assert e == EntryFor(store, msgs[|msgs| - 1], tokens, depth).value;
        }
      }
    }
  }

  /** Every walked assistant reply whose lookup returns and whose pair text is non-empty is recorded. */
  lemma {:induction false} PairsComplete(store: seq<Message>, msgs: seq<Message>, tokens: string -> nat, depth: nat, m: Message)
    requires m in msgs
    requires EntryFor(store, m, tokens, depth).Some?
    ensures EntryFor(store, m, tokens, depth).value in Pairs(store, msgs, tokens, depth)
  {
    var init, last := msgs[..|msgs| - 1], msgs[|msgs| - 1];
    PairsSnoc(store, msgs, tokens, depth);
    if m != last {
      var i :| 0 <= i < |msgs| && msgs[i] == m;
      assert init[i] == m;
      PairsComplete(store, init, tokens, depth, m);
    }
  }

  /** The entries of a non-empty walk: those of all but its last message, then the last one's entry, if any. */
  lemma PairsSnoc(store: seq<Message>, msgs: seq<Message>, tokens: string -> nat, depth: nat)
    requires msgs != []
    ensures var last := msgs[|msgs| - 1];
      Pairs(store, msgs, tokens, depth) ==
        Pairs(store, msgs[..|msgs| - 1], tokens, depth) +
        (if EntryFor(store, last, tokens, depth).Some? then [EntryFor(store, last, tokens, depth).value] else [])
  {
  }

  /** Entries of a longer walk extend those of its prefix. */
  lemma {:induction false} PairsAppend(store: seq<Message>, xs: seq<Message>, ys: seq<Message>, tokens: string -> nat, depth: nat)
    ensures Pairs(store, xs + ys, tokens, depth) == Pairs(store, xs, tokens, depth) + Pairs(store, ys, tokens, depth)
    decreases |ys|
  {
    if ys == [] {
      assert xs + ys == xs;
    } else {
      var init := ys[..|ys| - 1];
      assert (xs + ys)[..|xs + ys| - 1] == xs + init;
      PairsAppend(store, xs, init, tokens, depth);
    }
  }

  /**
   * With a recursion limit above the number of stored messages, an assistant
   * reply with text is lost only when its parent chain runs into a cycle of
   * assistant-like messages.
   */
  lemma ReplyKeptUnlessCycle(store: seq<Message>, msgs: seq<Message>, tokens: string -> nat, depth: nat, m: Message)
    requires depth > |store|
    requires m in msgs && m.author == ChatGpt && MessageText(Some(m)) != ""
    requires m.parent.None? || forall ids :: ClosedSkipSet(store, ids) ==> m.parent.value !in ids
    ensures exists e :: e in Pairs(store, msgs, tokens, depth) && e.reply == m
  {
    ParentUserDivergesIffCycle(store, m.parent, depth);
    PairsComplete(store, msgs, tokens, depth, m);
  }

  /**
   * The pairing loop: for every stored message in order, the assistant replies
   * are paired with their user message and handed to `prepare_vector`.
   */
  method PairReplies(manager: MessageManager, tokens: string -> nat, depth: nat) returns (entries: seq<Entry>)
    ensures entries == Pairs(manager.messages, manager.messages, tokens, depth)
  {
    var all := manager.GetAllMessages();
    entries := [];
    for i := 0 to |all|
      invariant entries == Pairs(all, all[..i], tokens, depth)
    {
      var msg := all[i];
      assert all[..i + 1][..i] == all[..i];
      if msg.author != ChatGpt {
        continue;
      }
      var lookup := GetParentUser(manager, msg.parent, depth);
      if lookup.Diverged? {
        continue;
      }
      var parent := ParentOf(lookup);
      var text := MessageText(Some(msg));
      if parent.Some? && |MessageText(parent)| > 0 {
        text := MessageText(parent) + "\n" + text;
      }
      assert text == PairText(parent, msg);
      if text != "" {
        var input := PrepareVector(text, tokens);
        entries := entries + [Entry(parent, msg, text, input)];
      }
    }
    assert all[..|all|] == all;
  }

  /**
   * The whole script on a fresh manager: load the first conversations, then
   * pair the replies; an error while loading ends the run with no entries.
   */
  method Run(convs: seq<Conversation>, tokens: string -> nat, depth: nat) returns (entries: seq<Entry>, failure: Option<Error>)
    requires EndsUntilFailure(Batch(convs))
    ensures failure == Loaded(Batch(convs)).1
    ensures failure.Some? ==> entries == []
    ensures failure.None? ==> entries == Pairs(Loaded(Batch(convs)).0, Loaded(Batch(convs)).0, tokens, depth)
  {
    var manager := new MessageManager();
    ghost var loaded := Loaded(Batch(convs));
    failure := LoadConversations(manager, convs);
    if failure.Some? {
      return [], failure;
    }
    assert manager.messages == loaded.0;
    entries := PairReplies(manager, tokens, depth);
  }

  /**
   * A two-turn conversation: the root user message `question` and the
   * assistant reply `answer` as the current node.
   */
  function Greeting(question: string, answer: string): Conversation {
    Conversation(Some("c"), Some("Greeting"), NodeId("reply"), map[
      "root" := Node(Some("root"), Some(RawMessage("user", false, Some(RawContent("text", [JStr(question)])))), None, Some(["reply"])),
      "reply" := Node(Some("reply"), Some(RawMessage("assistant", false, Some(RawContent("text", [JStr(answer)])))), Some("root"), Some([]))])
  }

  function GreetingUser(question: string): Message {
    Message("root", "c", "Greeting", None, ["reply"], "user", [Text(question)])
  }

  function GreetingReply(answer: string): Message {
    Message("reply", "c", "Greeting", Some("root"), [], ChatGpt, [Text(answer)])
  }

  lemma ClassifySingleText(s: string)
    requires s != ""
    ensures ClassifyParts([JStr(s)]) == Ok([Text(s)])
  {
    assert [JStr(s)][..0] == [];
    assert ClassifyPart(JStr(s)) == Ok([Text(s)]);
    var e: seq<Fragment> := [];
    assert e + [Text(s)] == [Text(s)];
  }

  /** The walk from the reply visits the reply, then the root, and stops at the root's null parent. */
  lemma GreetingEmits(question: string, answer: string)
    requires question != "" && answer != ""
    ensures Terminates(Greeting(question, answer), 3)
    ensures Emitted(Greeting(question, answer), Some("reply"), 3) == Ok([GreetingReply(answer), GreetingUser(question)])
  {
    var conv := Greeting(question, answer);
    var user, reply := GreetingUser(question), GreetingReply(answer);
    ClassifySingleText(question);
    ClassifySingleText(answer);
    assert NodeMessage(conv, conv.mapping["root"]) == Ok(Some(user));
    assert NodeMessage(conv, conv.mapping["reply"]) == Ok(Some(reply));
    assert EndsWithin(conv.mapping, Some("reply"), 3);
    assert Emitted(conv, None, 1) == Ok([]);
    assert Emitted(conv, Some("root"), 2) == Ok([user] + []);
    assert [user] + [] == [user];
    assert Emitted(conv, Some("reply"), 3) == Prepend([reply], Emitted(conv, Some("root"), 2));
    assert [reply] + [user] == [reply, user];
  }

  /** Loading the two-turn conversation yields the user message, then the reply. */
  lemma GreetingLoads(question: string, answer: string)
    requires question != "" && answer != ""
    ensures EndsUntilFailure([Greeting(question, answer)])
    ensures Loaded([Greeting(question, answer)]) == ([GreetingUser(question), GreetingReply(answer)], None)
  {
    var conv := Greeting(question, answer);
    var user, reply := GreetingUser(question), GreetingReply(answer);
    GreetingEmits(question, answer);
    assert Reverse([reply, user]) == [user, reply];
    assert Linearise(conv, 3) == Ok([user, reply]);
    assert ConversationResult(conv) == Ok([user, reply]) by {
      var n: nat :| Terminates(conv, n) && ConversationResult(conv) == Linearise(conv, n);
      LineariseFuel(conv, n, 3);
    }
    assert [conv][1..] == [];
    assert Loaded([conv]) == ([user, reply] + [], None);
    assert [user, reply] + [] == [user, reply];
  }

  /** The reply's context lookup finds the user message one level up. */
  lemma GreetingContext(question: string, answer: string, depth: nat)
    requires depth >= 1
    ensures ParentUser([GreetingUser(question), GreetingReply(answer)], GreetingReply(answer).parent, depth) == Found(GreetingUser(question))
  {
    assert FindById([GreetingUser(question), GreetingReply(answer)], "root") == Some(GreetingUser(question));
  }

  /** The user message yields no entry; the reply yields one whose text is the question, a newline and the answer. */
  lemma GreetingEntries(question: string, answer: string, tokens: string -> nat, depth: nat)
    requires question != "" && depth >= 1
    ensures var store := [GreetingUser(question), GreetingReply(answer)];
      var text := question + "\n" + answer;
      && EntryFor(store, GreetingUser(question), tokens, depth) == None
      && EntryFor(store, GreetingReply(answer), tokens, depth) ==
           Some(Entry(Some(GreetingUser(question)), GreetingReply(answer), text, EmbeddingInputFor(text, tokens)))
  {
    var user, reply := GreetingUser(question), GreetingReply(answer);
    assert TextParts([Text(question)]) == [question];
    assert TextParts([Text(answer)]) == [answer];
    assert MessageText(Some(user)) == question;
    assert MessageText(Some(reply)) == answer;
    GreetingContext(question, answer, depth);
  }

  /**
   * Pairing the loaded messages records one entry: the reply, with the user
   * message as context and the text `question + "\n" + answer`.
   */
  lemma GreetingPairs(question: string, answer: string, tokens: string -> nat, depth: nat)
    requires question != "" && depth >= 1
    ensures var store := [GreetingUser(question), GreetingReply(answer)];
      var text := question + "\n" + answer;
      Pairs(store, store, tokens, depth) == [Entry(Some(GreetingUser(question)), GreetingReply(answer), text, EmbeddingInputFor(text, tokens))]
  {
    var user, reply := GreetingUser(question), GreetingReply(answer);
    var store := [user, reply];
    GreetingEntries(question, answer, tokens, depth);
    assert store[..1] == [user];
    assert [user][..0] == [];
    assert Pairs(store, [user], tokens, depth) == [];
  }

  /** A conversation whose only node is its own parent and whose one part is a number. */
  function SelfParented(): Conversation {
    Conversation(None, None, NodeId("a"), map[
      "a" := Node(Some("a"), Some(RawMessage("user", false, Some(RawContent("text", [JNum(1)])))), Some("a"), None)])
  }

  /** A conversation whose only node is its own parent and carries no message. */
  function MessagelessCycle(): Conversation {
    Conversation(None, None, NodeId("a"), map["a" := Node(Some("a"), None, Some("a"), None)])
  }

  /** The walk of the self-parented node raises on its first visit (`.get` on a number), so it stops. */
  lemma SelfParentedRaises()
    ensures Terminates(SelfParented(), 0)
    ensures Linearise(SelfParented(), 0) == Err(AttributeError)
  {
    var parts := [JNum(1)];
    assert parts[..0] == [];
    assert ClassifyParts(parts) == Err(AttributeError);
  }

  /** The walk of the message-less cycle never stops: no step bound suffices. */
  lemma {:induction false} MessagelessCycleLoops(n: nat)
    ensures !EndsWithin(MessagelessCycle().mapping, Some("a"), n)
  {
    if n > 0 {
      MessagelessCycleLoops(n - 1);
    }
  }

  /**
   * Loading stops at the first conversation that raises: a cyclic conversation
   * after it is never walked, so the batch still loads, with that error.
   */
  lemma FailureStopsLoading()
    ensures !ParentChainEnds(MessagelessCycle())
    ensures EndsUntilFailure([SelfParented(), MessagelessCycle()])
    ensures Loaded([SelfParented(), MessagelessCycle()]) == ([], Some(AttributeError))
  {
    forall n: nat ensures !Terminates(MessagelessCycle(), n) {
      MessagelessCycleLoops(n);
    }
    SelfParentedRaises();
    assert ConversationResult(SelfParented()) == Err(AttributeError) by {
      var n: nat :| Terminates(SelfParented(), n) && ConversationResult(SelfParented()) == Linearise(SelfParented(), n);
      LineariseFuel(SelfParented(), n, 0);
    }
  }
}
