# Conversation-archive message pairing, modelled in Dafny

This project models the message-preparation pass of a tool that turns a
ChatGPT conversation export into embedding vectors. It covers these steps:

- Each conversation's tree of nodes is walked from its `current_node` leaf
  up to the root.
- Every node that carries a usable message is cleaned into a `Message`
  record. The author is normalised to "ChatGPT" / "Custom user info" and the
  raw content parts are sorted into text, transcript and asset fragments.
- The messages are stored in a `MessageManager`.
- For every assistant reply, the walk goes up the stored `parent` links to
  the user message the reply answers. The two texts are joined with a
  newline, and the result is handed to `prepare_vector`. That function
  embeds the text whole, or first cuts it into greedy chunks of words when
  it has more than 400 tokens.

Modules:

| file | module | models |
|---|---|---|
| `common.dfy` | `Common` | `Option` and `Result` |
| `content.dfy` | `Content` | JSON values as loaded by `json.load`, Python truthiness, `dict.get`, and message fragments (`{"text": …}`, `{"transcript": …}`, `{"asset": …}`) |
| `messages.dfy` | `Messages` | `Message` and the `MessageManager` class |
| `words.dfy` | `Words` | `str.split()` with no argument and `sep.join` |
| `chunking.dfy` | `Chunking` | `chunk_text` and the decision in `prepare_vector` |
| `conversations.dfy` | `Conversations` | `getConversationMessages` |
| `pairing.dfy` | `Pairing` | `get_message_text`, `get_parent_user` and the paired text |
| `pipeline.dfy` | `Pipeline` | the script's two top-level loops |

Modelling choices:

- **Tokenizer.** It is a parameter `tokens: string -> nat`. Every theorem
  holds for any tokenizer.
- **Recursion limit.** `get_parent_user` recurses without a guard, so a
  parameter `depth` stands for the recursion limit. Running out of it is
  the outcome `Diverged`, which is the `RecursionError` that the per-message
  `except` at `worker.py:137` catches.
- **Walk termination.** The walk in `getConversationMessages` has no cycle
  guard either. Its methods require that the parent chain from
  `current_node` ends, and the walk's functions take the number of steps
  that chain needs.

How the source behaves at its edges, which the model follows:

- A missing `current_node` is looked up in `mapping` as the key `{}`, which raises
  `TypeError: unhashable type`. A parent id with no mapping entry raises
  `KeyError`, and a content part that cannot be classified raises as well.
  Nothing catches these around the loading loop, so the run ends at the
  first conversation that raises, and later conversations are never walked.
- A cycle of assistant-like messages makes the context lookup raise
  `RecursionError`. The per-message `except` catches it and the reply is
  dropped.
- A cycle in the node tree that the walk reaches without passing a raising
  node makes `getConversationMessages` loop forever. The model requires the
  walks that the loading loop starts to stop.

## Model

| member | source | states |
|---|---|---|
| Messages.NewMessage | Message.py:11-18 | the record stores each constructor argument in the matching field; parts, parent and children default to empty / none |
| Messages.FirstMatchSpec | Message.py:37-40 | the scan stops at the first message with the id: no earlier message has it, and the message where it stops does (or it runs off the end) |
| Messages.FirstMatchAt | Message.py:37-40 | any position with that first-match property is the one the scan stops at |
| Messages.FindByIdSpec | Message.py:37-40 | the lookup finds nothing exactly when no stored message has the id; otherwise it returns the first message with that id |
| Messages.FindByIdAppend | Message.py:37-40 | after appending, a lookup returns the earlier match when there is one (first match wins, later duplicates are shadowed) |
| Messages.InConversationAppend | Message.py:42-47 | filtering by conversation distributes over concatenation, so order is preserved |
| Messages.MessageManager.constructor | Message.py:28-29 | the manager starts with the given list (empty by default) |
| Messages.MessageManager.AddMessage | Message.py:31-32 | the new list is the old list with the message appended |
| Messages.MessageManager.AddMessages | Message.py:34-35 | the new list is the old list extended by the given messages, in order |
| Messages.MessageManager.GetMessageById | Message.py:37-40 | returns none exactly when no stored message has the id, and otherwise a stored message with that id, namely the first one |
| Messages.MessageManager.GetMessagesByConversationId | Message.py:42-47 | returns, in store order, exactly the stored messages of that conversation |
| Messages.MessageManager.GetAllMessages | Message.py:49-50 | returns the stored list itself |
| Words.WordLength | worker.py:17 | the length of the leading run of non-whitespace characters: all of them are non-space and the next character is whitespace |
| Words.SplitJoinWords | worker.py:17 | splitting words joined by single spaces gives back the same words (words are non-empty and whitespace-free) |
| Words.SplitAtSpace | worker.py:17 | splitting at any whitespace character splits the two sides independently |
| Words.Split | worker.py:17 | every word is a non-empty run of non-whitespace characters |
| Words.Join | worker.py:22-26 | the join of a non-empty list starts with that list's first element |
| Words.JoinAppend | worker.py:32 | joining two non-empty lists in a row puts exactly one separator between their joins |
| Words.JoinEmpty | worker.py:32 | a join with a non-empty separator is empty exactly when there is nothing to join, or a single empty string |
| Chunking.GroupsCount | worker.py:16-27 | there are no groups exactly when there is no pending word and no word left; there are at most as many groups as pending and remaining words |
| Chunking.ChunksOf | worker.py:16-27 | there are no chunks exactly when the text has no words, and never more chunks than words |
| Chunking.GroupsAreGreedy | worker.py:16-27 | the loop's grouping covers the words in order with non-empty groups; every strict prefix of a group stays under the threshold; every group but the last reaches it |
| Chunking.GreedyChunkingIsUnique | worker.py:20-26 | there is only one grouping with the threshold property, so the loop's result is fully determined by that property |
| Chunking.ChunksOfSpec | worker.py:16-27 | the chunks, split again, give back exactly the words of the text; there are no chunks exactly when the text has no words; no chunk is empty; every chunk but the last has at least max_tokens tokens; the chunking is the greedy one |
| Chunking.ChunkText | worker.py:16-27 | the loop computes the greedy chunking of the text's words and keeps every word in order |
| Chunking.EmbeddingInputFor | worker.py:43-50 | the text is embedded whole exactly when it has at most MAX_TOKENS (400) tokens; otherwise it is embedded as its greedy chunks |
| Chunking.PrepareVector | worker.py:43-50 | returns the embedder input for the text, and when it chunks, the text is over the limit and the chunks hold its words |
| Conversations.NormaliseAuthor | worker.py:68-72 | "assistant" and "tool" become "ChatGPT", a flagged "system" becomes "Custom user info", and every other role is returned unchanged; a kept message is never authored "system" |
| Conversations.NormaliseAuthorIdempotent | worker.py:68-72 | normalising a normalised author changes nothing |
| Conversations.AssetsOf | worker.py:93-94 | every frame pointer becomes one asset fragment, in order |
| Conversations.ClassifyPart | worker.py:76-94 | a non-empty string part becomes one text fragment and an empty one is dropped; an audio transcription becomes one transcript fragment of its text; an audio, image or video asset pointer becomes one asset fragment of the whole part; a real-time part becomes its audio pointer and its video pointer (each only when truthy) followed by one asset per frame; any other content type gives nothing; the part raises exactly in the cases listed by PartRaises (not a string or object, a transcription without text, a missing content_type, unindexable frames) |
| Conversations.ClassifyPartsRaises | worker.py:75-94 | the parts of a node raise exactly when one of them raises |
| Conversations.ClassifyPartsFirstError | worker.py:75-94 | when the parts raise, the error is that of a raising part with no raising part before it |
| Conversations.AppendResultAssociative | worker.py:75-92 | combining the per-part outcomes is associative, with the first exception winning |
| Conversations.ClassifyPartsAppend | worker.py:75-92 | classifying a list of parts is classifying each part in turn and concatenating, stopping at the first exception |
| Conversations.ClassifiedTextsNonEmpty | worker.py:76-78 | every text fragment of a classified message is non-empty and is one of the raw string parts |
| Conversations.ClassifyContent | worker.py:75-92 | the parts loop computes the part-by-part classification |
| Conversations.NodeMessage | worker.py:56-105 | a node yields a message exactly when it passes the message/content/parts/role filter, has a textual content type and has at least one fragment; it raises exactly when classification raises; the message has the node's id, parent and children, the conversation's id and title, the normalised author (never "system") and non-empty parts |
| Conversations.Chain | worker.py:54-106 | the ids visited have mapping entries and are linked by their parent fields; only the last one can be a node whose parts raise |
| Conversations.ChainShape | worker.py:54-106 | the chain is empty exactly when the start id is null or unmapped, and then the walk stops there; otherwise its last node either raises, and the walk stops at it, or has the stopping point as its parent |
| Conversations.Emitted | worker.py:55-106 | every message the walk emits has parts and is not authored "system" |
| Conversations.Reverse | worker.py:107 | element i of the result is element n-1-i of the input |
| Conversations.EmittedFuel | worker.py:55-106 | the walk's outcome does not depend on the step bound used to define it |
| Conversations.Linearise | worker.py:52-108 | a missing current_node raises the unhashable-key error, a null one gives no messages, and every returned message has parts and is not authored "system" |
| Conversations.LineariseFuel | worker.py:52-108 | the same, for the whole conversation |
| Conversations.EmittedAlongChain | worker.py:55-106 | the walk succeeds exactly when the chain ends at a null parent and no visited node raises, and then it yields the kept messages of the chain in leaf-to-root order; it stops at the first node that raises |
| Conversations.KeptFromChain | worker.py:95-105 | every kept message is the message built from one node of the chain |
| Conversations.LineariseSpec | worker.py:52-108 | no current_node raises the unhashable-key error; a null current_node gives no messages; otherwise the result is the chain's kept messages root-first, each with non-empty parts, not authored "system", built from a chain node and keeping that node's parent |
| Conversations.WalkStep | worker.py:95-106 | one loop step keeps the invariant: the visited node's message, if any, is appended to those already emitted and the walk continues from its parent with one step fewer |
| Conversations.WalkFails | worker.py:54-92 | a missing id or a raising node met by the loop makes the whole conversation raise that error |
| Conversations.GetConversationMessages | worker.py:52-108 | the loop computes the walk just described, for every conversation whose walk stops (at a null parent, a missing id or a raising node) |
| Pairing.TextParts | worker.py:32 | a string is listed exactly when it is the text of a text fragment; one text fragment gives its text and one other fragment gives nothing |
| Pairing.TextPartsAppend | worker.py:32 | the texts of two fragment lists in a row are the first list's texts followed by the second's, so order and repetition are kept |
| Pairing.MessageText | worker.py:29-33 | no message gives the empty string; a message gives its text fragments joined by newlines |
| Pairing.MessageTextAppend | worker.py:29-33 | when the parts split into two pieces that both hold text, the text is the first piece's text, a newline, then the second piece's |
| Pairing.MessageTextEmpty | worker.py:29-33 | a message whose text fragments are non-empty has empty text exactly when it has no text fragment |
| Pairing.ParentUser | worker.py:35-41 | a returned message is a stored message whose author is neither "ChatGPT" nor "Custom user info" |
| Pairing.GetParentUser | worker.py:35-41 | the recursion, one manager lookup per level, computes that lookup |
| Pairing.ParentUserSkipStep | worker.py:39-40 | passing one assistant-like message costs one recursion level and continues from its parent |
| Pairing.ParentUserAlongChain | worker.py:39-40 | passing k skipped messages is the same lookup started k hops higher with k fewer levels |
| Pairing.SkipsUpToStep | worker.py:39-40 | the first k+1 ids hold skipped messages exactly when the first does and the next k from its parent do |
| Pairing.ParentUserDiverges | worker.py:35-41 | the lookup runs out of recursion exactly when each of the first depth ids on the chain holds an assistant-like message |
| Pairing.ParentUserStops | worker.py:35-41 | when the lookup returns, it returns the message at the first chain position that is not skipped, or none when that id is not stored |
| Pairing.ParentUserDeeper | worker.py:35-41 | a lookup that returns under one recursion limit returns the same under any larger one |
| Pairing.ParentUserOnCycle | worker.py:35-41 | on a closed set of assistant-like messages linked by parents, the lookup raises RecursionError whatever the limit |
| Pairing.LongWalkHasCycle | worker.py:35-41 | a chain that passes more skipped messages than the store holds enters a closed cycle |
| Pairing.ParentUserDivergesIffCycle | worker.py:35-41 | with a recursion limit above the store size, the lookup raises exactly when the chain runs into a cycle of assistant-like messages |
| Pairing.PairText | worker.py:128-131 | with context text, the pair text is that text, a newline and the reply text; without it, the reply text alone; so it is empty exactly when both texts are, and its words are the user text's words followed by the reply's |
| Pipeline.Batch | worker.py:120 | the first 30 conversations, or all of them when there are fewer |
| Pipeline.Loaded | worker.py:120-122 | every message loading adds has parts and is not authored "system" |
| Pipeline.LoadedSpec | worker.py:120-122 | loading fails exactly when some walked conversation raises, and the error is that of the first one, all before it having loaded |
| Pipeline.LoadsUpToCons | worker.py:120-122 | the first conversation and the next k load exactly when the first k+1 do |
| Pipeline.LoadAdvance | worker.py:120-122 | after one conversation, loading either stops with that conversation's error and nothing more added, or continues with its messages appended after those already added |
| Pipeline.LoadConversations | worker.py:120-122 | the manager ends with its old messages followed by each conversation's messages, up to the first conversation that raises, whose error is returned |
| Pipeline.SelfParentedRaises | worker.py:52-92 | a node that is its own parent and whose one part is a number raises AttributeError on its first visit, so its walk stops |
| Pipeline.MessagelessCycleLoops | worker.py:54-106 | a node that is its own parent and carries no message is walked forever: no step bound suffices |
| Pipeline.FailureStopsLoading | worker.py:120-122 | a batch of a raising conversation followed by a cyclic one loads: the error of the first is returned and the second is never walked |
| Pipeline.EntryFor | worker.py:125-138 | a message yields no entry exactly when it is not authored "ChatGPT", its context lookup raises, or both texts are empty; an entry holds the reply, the context (a stored user-like message or none), a non-empty text that is the pair text of the context and the reply, whose words are the context's then the reply's, and the embedder input for that text: the whole text when it is within the token limit, its greedy chunks otherwise |
| Pipeline.Pairs | worker.py:124-138 | at most one entry per walked message |
| Pipeline.PairsSnoc | worker.py:124-138 | the entries of a walk are those of all its messages but the last, followed by the last message's entry if it has one |
| Pipeline.PairsSound | worker.py:124-138 | every entry's reply is one of the walked messages, authored "ChatGPT", with a non-empty text that is the paired text |
| Pipeline.PairsComplete | worker.py:124-138 | every walked message that yields an entry has its entry recorded |
| Pipeline.PairsAppend | worker.py:124-138 | the entries for a concatenation are the entries for each part, in order |
| Pipeline.ReplyKeptUnlessCycle | worker.py:124-138 | with a recursion limit above the store size, an assistant reply with text is recorded unless its parent chain runs into a cycle of assistant-like messages |
| Pipeline.PairReplies | worker.py:124-138 | the loop over the stored messages records exactly the entries above, in store order |
| Pipeline.GreetingLoads | worker.py:52-108 | a conversation of a root user question and an assistant answer as the current node loads as those two messages, question first |
| Pipeline.GreetingPairs | worker.py:124-138 | pairing those two messages records one entry: the answer, with the question's message as context and the text question + newline + answer |
| Pipeline.Run | worker.py:110-138 | on a fresh manager: an error while loading ends the run with that error and no entries; otherwise the entries are those for the loaded messages |

## Left out

- The embedding model, `np.mean` over chunk vectors and the vectors themselves: an entry records the embedder input (whole text or chunks) instead. This is floating-point work in a foreign library.
- The tokenizer's vocabulary: token counts come from a parameter, so every result holds for any tokenizer.
- Reading the export file, writing the output JSON, and every `print`: these are I/O.
- `VectorsManager`, `MessageVectors` and the `graphs`/`cluster` code: they are outside the modelled core. An entry stands for one `addVectors` call.
- Pipeline.LoadConversations: requires that every walk the loop starts stops, that is, each conversation up to the first one that raises. Its walk must reach a null parent, a missing id or a raising node. The source has no cycle guard and never returns on a cycle it reaches otherwise.
- Pipeline.Run: same precondition and same reason.
- Conversations.GetConversationMessages: requires that its walk stops, for the same reason.
- Pairing.ParentUser: the recursion limit is a parameter `depth` rather than the interpreter's stack size. The cost of frames below the script is not modelled.
- The shared mutable default lists of `Message.__init__` and `MessageManager.__init__` are not modelled: the model holds values, so aliasing between managers is not captured. The script builds a single manager.
- The key `parent` is taken to be present on every visited node, and `mapping` on every conversation. The `KeyError` the source raises when either is missing is not modelled, because the model's node and conversation records always carry them.
- The keys `author.role`, `metadata` and `content_type` are taken to be present, with the right types, wherever a node passes the message filter. Their absence (a `KeyError`) is not modelled.
- `content.parts` is taken to be a list, and a missing or null `parts` is represented as `[]`. The source also accepts other values: a non-empty string `parts` is classified one character at a time, and a non-empty object `parts` raises `KeyError(0)`. Neither path is modelled.
- Null node ids, and null ids on stored messages, are not modelled: `id` defaults to `""` only when the key is missing.
- A null `conversation_id`, `title` or `children` value is not modelled: in the source it becomes Python `None` on the message, while the model only has the missing key, which becomes `""` or `[]`.
- Join: its own contract states only that a join starts with the first element. Where the separators go is stated by JoinAppend, and when a join is empty by JoinEmpty.
- Conversations.Linearise: states the unhashable-key error only in one direction (a missing current_node gives it), not that no other input does.
- JSON numbers are modelled as integers, because no modelled decision depends on a number's value beyond its truthiness.
