/**
 * Pairing an assistant reply with the user message it answers: the text of a
 * message (`get_message_text`), the walk up the stored `parent` links
 * (`get_parent_user`) and the text that is embedded for the pair.
 */
module Pairing {
  import opened Common
  import opened Content
  import opened Messages
  import opened Words
  import Conversations

  /** The strings of the text fragments, in part order (transcripts and assets have no `text`). */
  function TextParts(parts: seq<Fragment>): (texts: seq<string>)
    ensures |texts| <= |parts|
    ensures forall t :: t in texts <==> Text(t) in parts
    ensures |parts| == 1 && parts[0].Text? ==> texts == [parts[0].text]
    ensures |parts| == 1 && !parts[0].Text? ==> texts == []
  {
    if parts == [] then []
    else (if parts[0].Text? then [parts[0].text] else []) + TextParts(parts[1..])
  }

  /**
   * The text fragments of `a + b` are those of `a` followed by those of `b`:
   * with the single-fragment cases this fixes their order and repetition.
   */
  lemma {:induction false} TextPartsAppend(a: seq<Fragment>, b: seq<Fragment>)
    ensures TextParts(a + b) == TextParts(a) + TextParts(b)
    decreases |a|
  {
    if a == [] {
      assert a + b == b;
    } else {
      assert (a + b)[1..] == a[1..] + b;
      TextPartsAppend(a[1..], b);
    }
  }

  /** `get_message_text`: the text fragments joined by newlines; `""` for no message. */
  function MessageText(m: Option<Message>): (text: string)
    ensures m.None? ==> text == ""
    ensures m.Some? ==> text == Join("\n", TextParts(m.value.parts))
  {
    match m
    case None => ""
    case Some(msg) => Join("\n", TextParts(msg.parts))
  }

  /**
   * The text of a message whose parts split into two pieces that both hold
   * text is the first piece's text, a newline, and the second piece's text.
   */
  lemma MessageTextAppend(m: Message, a: seq<Fragment>, b: seq<Fragment>)
    requires m.parts == a + b && TextParts(a) != [] && TextParts(b) != []
    ensures MessageText(Some(m)) == MessageText(Some(m.(parts := a))) + "\n" + MessageText(Some(m.(parts := b)))
  {
    TextPartsAppend(a, b);
    JoinAppend("\n", TextParts(a), TextParts(b));
  }

  /**
   * A message whose text fragments are non-empty (every message the walk
   * builds) has empty text exactly when it has no text fragment.
   */
  lemma MessageTextEmpty(m: Message)
    requires forall f :: f in m.parts && f.Text? ==> f.text != ""
    ensures MessageText(Some(m)) == "" <==> forall f :: f in m.parts ==> !f.Text?
  {
    var texts := TextParts(m.parts);
    JoinEmpty("\n", texts);
    if texts != [] {
      assert texts[0] in texts;
      assert Text(texts[0]) in m.parts;
    }
    if exists f :: f in m.parts && f.Text? {
      var f :| f in m.parts && f.Text?;
      assert f.text in texts;
    }
  }

  /** Authors that `get_parent_user` walks past. */
  predicate IsSkipped(author: string) {
    author == Conversations.CustomUserInfo || author == Conversations.ChatGpt
  }

  /** The store lookup `getMessageByID(id)`; `None` for a `None` id, which no message has. */
  function Resolve(store: seq<Message>, id: Option<string>): Option<Message> {
    if id.None? then None else FindById(store, id.value)
  }

  /** `id` resolves to a message that `get_parent_user` walks past. */
  predicate Skips(store: seq<Message>, id: Option<string>) {
    Resolve(store, id).Some? && IsSkipped(Resolve(store, id).value.author)
  }

  /** The id the walk moves to from `id`: the parent of a skipped message. */
  function Hop(store: seq<Message>, id: Option<string>): Option<string> {
    if Skips(store, id) then Resolve(store, id).value.parent else None
  }

  /** The id reached after `k` hops from `id`. */
  function Nth(store: seq<Message>, id: Option<string>, k: nat): Option<string>
    decreases k
  {
    if k == 0 then id else Nth(store, Hop(store, id), k - 1)
  }

  /** The outcome of `get_parent_user`: a message, `None`, or a RecursionError. */
  datatype Lookup = Found(message: Message) | NotFound | Diverged

  /**
   * `get_parent_user(id)` when at most `depth` nested calls fit under the
   * interpreter's recursion limit: the first message up the chain whose author
   * is neither "ChatGPT" nor "Custom user info"; `NotFound` when an id on the
   * way has no stored message; `Diverged` when the calls run out.
   */
  function ParentUser(store: seq<Message>, id: Option<string>, depth: nat): (r: Lookup)
    ensures r.Found? ==> r.message in store && !IsSkipped(r.message.author)
    decreases depth
  {
    if depth == 0 then Diverged
    else
      match Resolve(store, id)
      case None => NotFound
      case Some(m) => if IsSkipped(m.author) then ParentUser(store, m.parent, depth - 1) else Found(m)
  }

  /**
   * `get_parent_user` as the source runs it: one `getMessageByID` call on the
   * manager per level, recursing on the parent of a skipped message.
   */
  method GetParentUser(manager: MessageManager, id: Option<string>, depth: nat) returns (r: Lookup)
    ensures r == ParentUser(manager.messages, id, depth)
    decreases depth
  {
    if depth == 0 {
      return Diverged;
    }
    var msg: Option<Message> := None;
    if id.Some? {
      msg := manager.GetMessageById(id.value);
    }
    if msg.None? {
      return NotFound;
    }
    if IsSkipped(msg.value.author) {
      r := GetParentUser(manager, msg.value.parent, depth - 1);
    } else {
      r := Found(msg.value);
    }
  }

  /** Passing one skipped message costs one level and continues from its parent. */
  lemma ParentUserSkipStep(store: seq<Message>, id: Option<string>, depth: nat)
    requires depth > 0 && Skips(store, id)
    ensures ParentUser(store, id, depth) == ParentUser(store, Hop(store, id), depth - 1)
  {
  }

  /** Up to `k` hops that all pass skipped messages, the walk is the walk from the `k`-th id. */
  lemma {:induction false} ParentUserAlongChain(store: seq<Message>, id: Option<string>, depth: nat, k: nat)
    requires k <= depth
    requires SkipsUpTo(store, id, k)
    ensures ParentUser(store, id, depth) == ParentUser(store, Nth(store, id, k), depth - k)
    decreases k
  {
    if k > 0 {
      SkipsUpToStep(store, id, k - 1);
      ParentUserSkipStep(store, id, depth);
      ParentUserAlongChain(store, Hop(store, id), depth - 1, k - 1);
      assert Nth(store, id, k) == Nth(store, Hop(store, id), k - 1);
    }
  }

  /** The first `k` ids along the chain from `id` all hold skipped messages. */
  ghost predicate SkipsUpTo(store: seq<Message>, id: Option<string>, k: nat) {
    forall j :: 0 <= j < k ==> Skips(store, Nth(store, id, j))
  }

  lemma SkipsUpToStep(store: seq<Message>, id: Option<string>, k: nat)
    ensures SkipsUpTo(store, id, k + 1) <==> Skips(store, id) && SkipsUpTo(store, Hop(store, id), k)
  {
    assert Nth(store, id, 0) == id;
    forall j | 0 <= j < k ensures Nth(store, id, j + 1) == Nth(store, Hop(store, id), j) { }
    if Skips(store, id) && SkipsUpTo(store, Hop(store, id), k) {
      forall j | 0 <= j < k + 1 ensures Skips(store, Nth(store, id, j)) {
        if j > 0 {
          assert Nth(store, id, j) == Nth(store, Hop(store, id), j - 1);
        }
      }
    }
  }

  /** `get_parent_user` raises exactly when the first `depth` ids of the chain all hold skipped messages. */
  lemma {:induction false} ParentUserDiverges(store: seq<Message>, id: Option<string>, depth: nat)
    ensures ParentUser(store, id, depth) == Diverged <==> SkipsUpTo(store, id, depth)
    decreases depth
  {
    if depth > 0 {
      ParentUserDiverges(store, Hop(store, id), depth - 1);
      SkipsUpToStep(store, id, depth - 1);
    }
  }

  /**
   * When `get_parent_user` returns, it stops at the first id of the chain that
   * does not hold a skipped message: with that id's message, or `NotFound`
   * when the id has no stored message.
   */
  lemma {:induction false} ParentUserStops(store: seq<Message>, id: Option<string>, depth: nat)
    requires ParentUser(store, id, depth) != Diverged
    ensures exists k ::
      && 0 <= k < depth && SkipsUpTo(store, id, k) && !Skips(store, Nth(store, id, k))
      && ParentUser(store, id, depth) ==
           (if Resolve(store, Nth(store, id, k)).None? then NotFound else Found(Resolve(store, Nth(store, id, k)).value))
    decreases depth
  {
    var next := Hop(store, id);
    if !Skips(store, id) {
      assert Nth(store, id, 0) == id;
      assert SkipsUpTo(store, id, 0);
    } else {
      assert ParentUser(store, id, depth) == ParentUser(store, next, depth - 1);
      ParentUserStops(store, next, depth - 1);
      var k :| 0 <= k < depth - 1 && SkipsUpTo(store, next, k) && !Skips(store, Nth(store, next, k)) &&
        ParentUser(store, next, depth - 1) ==
          (if Resolve(store, Nth(store, next, k)).None? then NotFound else Found(Resolve(store, Nth(store, next, k)).value));
      SkipsUpToStep(store, id, k);
      assert Nth(store, id, k + 1) == Nth(store, next, k);
    }
  }

  /** A larger recursion limit changes nothing once `get_parent_user` returns without raising. */
  lemma {:induction false} ParentUserDeeper(store: seq<Message>, id: Option<string>, depth: nat, depth': nat)
    requires depth <= depth'
    requires ParentUser(store, id, depth) != Diverged
    ensures ParentUser(store, id, depth') == ParentUser(store, id, depth)
    decreases depth
  {
    match Resolve(store, id)
    case None =>
    case Some(m) =>
      if IsSkipped(m.author) {
        ParentUserDeeper(store, m.parent, depth - 1, depth' - 1);
      }
  }

  /**
   * A set of ids that each hold a skipped message whose parent is again in the
   * set: a cycle of assistant-like messages, possibly with a lead-in.
   */
  ghost predicate ClosedSkipSet(store: seq<Message>, ids: set<string>) {
    forall x :: x in ids ==> Skips(store, Some(x)) && Hop(store, Some(x)).Some? && Hop(store, Some(x)).value in ids
  }

  /** On such a cycle `get_parent_user` raises RecursionError, whatever the recursion limit. */
  lemma {:induction false} ParentUserOnCycle(store: seq<Message>, ids: set<string>, id: string, depth: nat)
    requires ClosedSkipSet(store, ids)
    requires id in ids
    ensures ParentUser(store, Some(id), depth) == Diverged
    decreases depth
  {
    if depth > 0 {
      assert Skips(store, Some(id)) && Hop(store, Some(id)).Some? && Hop(store, Some(id)).value in ids;
      ParentUserSkipStep(store, Some(id), depth);
      ParentUserOnCycle(store, ids, Hop(store, Some(id)).value, depth - 1);
    }
  }

  /** Among more than `bound` numbers below `bound`, two are equal. */
  lemma {:induction false} Pigeonhole(xs: seq<int>, bound: nat)
    requires forall i :: 0 <= i < |xs| ==> 0 <= xs[i] < bound
    requires |xs| > bound
    ensures exists i, j :: 0 <= i < j < |xs| && xs[i] == xs[j]
    decreases bound
  {
    var n := |xs|;
    var x := xs[n - 1];
    if !exists i :: 0 <= i < n - 1 && xs[i] == x {
      var ys := seq(n - 1, i requires 0 <= i < n - 1 => if xs[i] < x then xs[i] else xs[i] - 1);
      Pigeonhole(ys, bound - 1);
      var i, j :| 0 <= i < j < |ys| && ys[i] == ys[j];
      assert xs[i] == xs[j];
    }
  }

  lemma NthNext(store: seq<Message>, id: Option<string>, k: nat)
    ensures Nth(store, id, k + 1) == Hop(store, Nth(store, id, k))
    decreases k
  {
    if k > 0 {
      NthNext(store, Hop(store, id), k - 1);
    }
  }

  /** Two ids that resolve to the same stored position are the same id. */
  lemma SamePositionSameId(store: seq<Message>, x: Option<string>, y: Option<string>)
    requires Skips(store, x) && Skips(store, y)
    requires FirstMatch(store, x.value) == FirstMatch(store, y.value)
    ensures x == y
  {
    FirstMatchSpec(store, x.value);
    FirstMatchSpec(store, y.value);
    assert store[FirstMatch(store, x.value)].messageId == x.value;
    assert store[FirstMatch(store, y.value)].messageId == y.value;
  }

  /** The first `j` ids of the chain from `id`. */
  ghost function ChainPrefix(store: seq<Message>, id: Option<string>, j: nat): set<string> {
    set k | 0 <= k < j :: Nth(store, id, k).GetOr("")
  }

  /** If the chain comes back to its `i`-th id after `j` skipped steps, its first `j` ids form a cycle. */
  lemma LassoIsClosed(store: seq<Message>, id: Option<string>, i: nat, j: nat)
    requires i < j && SkipsUpTo(store, id, j)
    requires Nth(store, id, i) == Nth(store, id, j)
    ensures ClosedSkipSet(store, ChainPrefix(store, id, j))
  {
    var ids := ChainPrefix(store, id, j);
    forall x | x in ids ensures Skips(store, Some(x)) && Hop(store, Some(x)).Some? && Hop(store, Some(x)).value in ids {
      var k := ChainPrefixIndex(store, id, j, x);
      var next := if k + 1 == j then i else k + 1;
      SkipsAt(store, id, j, k);
      SkipsAt(store, id, j, next);
      LassoMember(store, id, i, j, k, next, x);
    }
  }

  lemma LassoMember(store: seq<Message>, id: Option<string>, i: nat, j: nat, k: nat, next: nat, x: string)
    requires i < j && k < j && next == (if k + 1 == j then i else k + 1)
    requires Nth(store, id, i) == Nth(store, id, j)
    requires x == Nth(store, id, k).GetOr("")
    requires Skips(store, Nth(store, id, k)) && Skips(store, Nth(store, id, next))
    ensures Skips(store, Some(x)) && Hop(store, Some(x)).Some? && Hop(store, Some(x)).value in ChainPrefix(store, id, j)
  {
    NthWrap(store, id, i, j, k, next);
    ChainPrefixHas(store, id, j, next);
    HopInto(store, Nth(store, id, k), Nth(store, id, next), ChainPrefix(store, id, j));
  }

  /** The hop from position `k` lands on position `k + 1`, which is position `i` again when `k + 1 == j`. */
  lemma NthWrap(store: seq<Message>, id: Option<string>, i: nat, j: nat, k: nat, next: nat)
    requires next == (if k + 1 == j then i else k + 1)
    requires Nth(store, id, i) == Nth(store, id, j)
    ensures Hop(store, Nth(store, id, k)) == Nth(store, id, next)
  {
    NthNext(store, id, k);
  }

  lemma ChainPrefixHas(store: seq<Message>, id: Option<string>, j: nat, m: nat)
    requires m < j
    ensures Nth(store, id, m).GetOr("") in ChainPrefix(store, id, j)
  {
  }

  lemma ChainPrefixIndex(store: seq<Message>, id: Option<string>, j: nat, x: string) returns (k: nat)
    requires x in ChainPrefix(store, id, j)
    ensures k < j && x == Nth(store, id, k).GetOr("")
  {
    k :| 0 <= k < j && x == Nth(store, id, k).GetOr("");
  }

  lemma SkipsAt(store: seq<Message>, id: Option<string>, j: nat, k: nat)
    requires SkipsUpTo(store, id, j) && k < j
    ensures Skips(store, Nth(store, id, k))
  {
  }

  /** A skipped id whose hop lands on a skipped id of `ids` is itself closed into `ids`. */
  lemma HopInto(store: seq<Message>, a: Option<string>, b: Option<string>, ids: set<string>)
    requires Skips(store, a) && Skips(store, b) && Hop(store, a) == b && b.GetOr("") in ids
    ensures a.Some? && Skips(store, Some(a.value)) && Hop(store, Some(a.value)).Some? && Hop(store, Some(a.value)).value in ids
  {
  }

  /** A chain that passes more skipped messages than the store holds runs into a cycle. */
  lemma LongWalkHasCycle(store: seq<Message>, id: Option<string>)
    requires SkipsUpTo(store, id, |store| + 1)
    ensures id.Some? && exists ids :: ClosedSkipSet(store, ids) && id.value in ids
  {
    var n := |store| + 1;
    var xs := seq(n, k requires 0 <= k < n => FirstMatch(store, Nth(store, id, k).GetOr("")));
    forall k | 0 <= k < n ensures 0 <= xs[k] < |store| {
      assert Skips(store, Nth(store, id, k));
    }
    Pigeonhole(xs, |store|);
    var i, j :| 0 <= i < j < n && xs[i] == xs[j];
    assert Skips(store, Nth(store, id, i)) && Skips(store, Nth(store, id, j));
    SamePositionSameId(store, Nth(store, id, i), Nth(store, id, j));
    assert SkipsUpTo(store, id, j);
    LassoIsClosed(store, id, i, j);
    assert Skips(store, Nth(store, id, 0));
    assert Nth(store, id, 0).GetOr("") in ChainPrefix(store, id, j);
  }

  /**
   * With a recursion limit above the number of stored messages,
   * `get_parent_user` raises exactly when the chain from `id` runs into a cycle
   * of assistant-like messages.
   */
  lemma ParentUserDivergesIffCycle(store: seq<Message>, id: Option<string>, depth: nat)
    requires depth > |store|
    ensures ParentUser(store, id, depth) == Diverged <==>
      id.Some? && exists ids :: ClosedSkipSet(store, ids) && id.value in ids
  {
    ParentUserDiverges(store, id, depth);
    if ParentUser(store, id, depth) == Diverged {
      assert SkipsUpTo(store, id, |store| + 1);
      LongWalkHasCycle(store, id);
    } else if id.Some? && exists ids :: ClosedSkipSet(store, ids) && id.value in ids {
      var ids :| ClosedSkipSet(store, ids) && id.value in ids;
      ParentUserOnCycle(store, ids, id.value, depth);
    }
  }

  /**
   * The text embedded for a reply: the context's text, a newline and the
   * reply's text when the context message has text; the reply's text otherwise.
   */
  function PairText(context: Option<Message>, reply: Message): (text: string)
    ensures text == "" <==> MessageText(context) == "" && MessageText(Some(reply)) == ""
    ensures Split(text) == Split(MessageText(context)) + Split(MessageText(Some(reply)))
    ensures |MessageText(Some(reply))| <= |text| && text[|text| - |MessageText(Some(reply))|..] == MessageText(Some(reply))
    ensures MessageText(context) != "" ==>
      |MessageText(context)| < |text| && text[..|MessageText(context)| + 1] == MessageText(context) + "\n"
    ensures MessageText(context) != "" ==> text == MessageText(context) + "\n" + MessageText(Some(reply))
    ensures MessageText(context) == "" ==> text == MessageText(Some(reply))
  {
    var contextText, replyText := MessageText(context), MessageText(Some(reply));
    if context.Some? && |contextText| > 0 then
      SplitAtSpace(contextText, '\n', replyText);
      assert contextText + "\n" + replyText == contextText + ['\n'] + replyText;
      contextText + "\n" + replyText
    else
      assert Split(contextText) == [];
      assert [] + Split(replyText) == Split(replyText);
      replyText
  }
}
