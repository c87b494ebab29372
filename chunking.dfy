/**
 * Token-bounded chunking of long texts (`chunk_text`) and the decision whether a
 * text is embedded whole or chunk by chunk (`prepare_vector`). The tokenizer is a
 * parameter `tokens` that gives the number of tokens of a string.
 */
module Chunking {
  import opened Words

  /** MAX_TOKENS: the embedder's input limit, and the default chunk threshold. */
  const MaxTokens: int := 400

  /** The concatenation of a sequence of word groups. */
  function Flatten(gs: seq<seq<string>>): seq<string> {
    if gs == [] then [] else gs[0] + Flatten(gs[1..])
  }

  /** Each group joined into the chunk text `" ".join(group)`. */
  function JoinEach(gs: seq<seq<string>>): (chunks: seq<string>)
    ensures |chunks| == |gs|
  {
    seq(|gs|, i requires 0 <= i < |gs| => JoinWords(gs[i]))
  }

  /** The words of each chunk. */
  function SplitEach(chunks: seq<string>): (gs: seq<seq<string>>)
    ensures |gs| == |chunks|
  {
    seq(|chunks|, i requires 0 <= i < |chunks| => Split(chunks[i]))
  }

  /**
   * The groups `chunk_text` closes when it runs over `words` with `current` as
   * the pending buffer: a word is appended, and the buffer is closed as soon as
   * its joined text has at least `maxTokens` tokens; a non-empty trailing buffer
   * is the last group.
   */
  function Groups(words: seq<string>, current: seq<string>, tokens: string -> nat, maxTokens: int)
    : seq<seq<string>>
    decreases |words|
  {
    if words == [] then
      if current == [] then [] else [current]
    else
      var buffer := current + [words[0]];
      if tokens(JoinWords(buffer)) >= maxTokens then
        [buffer] + Groups(words[1..], [], tokens, maxTokens)
      else
        Groups(words[1..], buffer, tokens, maxTokens)
  }

  /** The chunks `chunk_text(text, tokenizer, maxTokens)` returns. */
  /**
   * There are no groups exactly when there is neither a pending word nor a
   * word left, and never more groups than words.
   */
  lemma {:induction false} GroupsCount(words: seq<string>, current: seq<string>, tokens: string -> nat, maxTokens: int)
    ensures var gs := Groups(words, current, tokens, maxTokens);
      && (gs == [] <==> current == [] && words == [])
      && |gs| <= |current| + |words|
    decreases |words|
  {
    if words != [] {
      var buffer := current + [words[0]];
      if tokens(JoinWords(buffer)) >= maxTokens {
        GroupsCount(words[1..], [], tokens, maxTokens);
      } else {
        GroupsCount(words[1..], buffer, tokens, maxTokens);
      }
    }
  }

  function ChunksOf(text: string, tokens: string -> nat, maxTokens: int): (chunks: seq<string>)
    ensures chunks == [] <==> Split(text) == []
    ensures |chunks| <= |Split(text)|
  {
    GroupsCount(Split(text), [], tokens, maxTokens);
    JoinEach(Groups(Split(text), [], tokens, maxTokens))
  }

  /** Every non-empty prefix of the pending buffer stays under the threshold. */
  ghost predicate Open(current: seq<string>, tokens: string -> nat, maxTokens: int) {
    forall k :: 0 < k <= |current| ==> tokens(JoinWords(current[..k])) < maxTokens
  }

  /**
   * The threshold rule stated without the loop: the groups cover `words` in
   * order, none is empty, every strict non-empty prefix of a group is under the
   * threshold, and every group but the last reaches it.
   */
  ghost predicate IsGreedyChunking(words: seq<string>, gs: seq<seq<string>>, tokens: string -> nat, maxTokens: int) {
    && Flatten(gs) == words
    && (forall i :: 0 <= i < |gs| ==> gs[i] != [])
    && (forall i, k :: 0 <= i < |gs| && 0 < k < |gs[i]| ==> tokens(JoinWords(gs[i][..k])) < maxTokens)
    && (forall i :: 0 <= i < |gs| - 1 ==> tokens(JoinWords(gs[i])) >= maxTokens)
  }

  /** The loop's grouping obeys the threshold rule, starting from any open buffer. */
  lemma {:induction false} GroupsAreGreedy(words: seq<string>, current: seq<string>, tokens: string -> nat, maxTokens: int)
    requires Open(current, tokens, maxTokens)
    ensures IsGreedyChunking(current + words, Groups(words, current, tokens, maxTokens), tokens, maxTokens)
    decreases |words|
  {
    var gs := Groups(words, current, tokens, maxTokens);
    if words == [] {
      assert current + words == current;
      if current != [] {
        assert Flatten(gs) == current + Flatten([]);
      }
    } else {
      var w, rest := words[0], words[1..];
      var buffer := current + [w];
      assert current + words == buffer + rest;
      assert forall k :: 0 < k <= |current| ==> buffer[..k] == current[..k];
      if tokens(JoinWords(buffer)) >= maxTokens {
        var tail := Groups(rest, [], tokens, maxTokens);
        GroupsAreGreedy(rest, [], tokens, maxTokens);
        assert [] + rest == rest;
        assert gs == [buffer] + tail;
        assert gs[0] == buffer && gs[1..] == tail;
        forall i, k | 0 <= i < |gs| && 0 < k < |gs[i]|
          ensures tokens(JoinWords(gs[i][..k])) < maxTokens
        {
          if i > 0 {
            assert gs[i] == tail[i - 1];
          }
        }
        forall i | 0 <= i < |gs| - 1
          ensures tokens(JoinWords(gs[i])) >= maxTokens
        {
          if i > 0 {
            assert gs[i] == tail[i - 1];
          }
        }
      } else {
        assert buffer[..|buffer|] == buffer;
        GroupsAreGreedy(rest, buffer, tokens, maxTokens);
      }
    }
  }

  /** Dropping the first group of a greedy chunking leaves a greedy chunking of the remaining words. */
  lemma GreedyTail(words: seq<string>, gs: seq<seq<string>>, tokens: string -> nat, maxTokens: int)
    requires IsGreedyChunking(words, gs, tokens, maxTokens)
    requires gs != []
    ensures |gs[0]| <= |words| && words[..|gs[0]|] == gs[0]
    ensures forall m :: 0 < m < |gs[0]| ==> tokens(JoinWords(words[..m])) < maxTokens
    ensures IsGreedyChunking(words[|gs[0]|..], gs[1..], tokens, maxTokens)
  {
    forall m | 0 < m < |gs[0]| ensures tokens(JoinWords(words[..m])) < maxTokens {
      assert words[..m] == gs[0][..m];
    }
    assert words == gs[0] + Flatten(gs[1..]);
    assert words[|gs[0]|..] == Flatten(gs[1..]);
    forall i, k | 0 <= i < |gs[1..]| && 0 < k < |gs[1..][i]|
      ensures tokens(JoinWords(gs[1..][i][..k])) < maxTokens
    {
      assert gs[1..][i] == gs[i + 1];
    }
    forall i | 0 <= i < |gs[1..]| - 1
      ensures tokens(JoinWords(gs[1..][i])) >= maxTokens
    {
      assert gs[1..][i] == gs[i + 1];
    }
  }

  lemma FirstGroupNotShorter(words: seq<string>, g1: seq<seq<string>>, g2: seq<seq<string>>, tokens: string -> nat, maxTokens: int)
    requires IsGreedyChunking(words, g1, tokens, maxTokens)
    requires IsGreedyChunking(words, g2, tokens, maxTokens)
    requires g1 != [] && g2 != []
    ensures |g1[0]| >= |g2[0]|
  {
    GreedyTail(words, g1, tokens, maxTokens);
    GreedyTail(words, g2, tokens, maxTokens);
    var a := g1[0];
    if |g1| == 1 {
      assert Flatten(g1[1..]) == [];
      assert words == a + Flatten(g1[1..]);
    } else {
      assert tokens(JoinWords(words[..|a|])) >= maxTokens;
    }
  }

  lemma FlattenEmpty(gs: seq<seq<string>>)
    requires forall i :: 0 <= i < |gs| ==> gs[i] != []
    ensures Flatten(gs) == [] <==> gs == []
  {
    if gs != [] {
      assert |Flatten(gs)| >= |gs[0]|;
    }
  }

  /** The threshold rule determines the chunking: there is exactly one greedy grouping of a word list. */
  lemma {:induction false} GreedyChunkingIsUnique(words: seq<string>, g1: seq<seq<string>>, g2: seq<seq<string>>, tokens: string -> nat, maxTokens: int)
    requires IsGreedyChunking(words, g1, tokens, maxTokens)
    requires IsGreedyChunking(words, g2, tokens, maxTokens)
    ensures g1 == g2
    decreases |words|
  {
    if g1 == [] || g2 == [] {
      FlattenEmpty(g1);
      FlattenEmpty(g2);
    } else {
      FirstGroupNotShorter(words, g1, g2, tokens, maxTokens);
      FirstGroupNotShorter(words, g2, g1, tokens, maxTokens);
      GreedyTail(words, g1, tokens, maxTokens);
      GreedyTail(words, g2, tokens, maxTokens);
      assert g1[0] == g2[0];
      GreedyChunkingIsUnique(words[|g1[0]|..], g1[1..], g2[1..], tokens, maxTokens);
      assert g1 == [g1[0]] + g1[1..] && g2 == [g2[0]] + g2[1..];
    }
  }

  /** Every word of a flattened list of words lies in one of the groups, and is a word. */
  lemma {:induction false} GroupsHoldWords(gs: seq<seq<string>>)
    requires forall i :: 0 <= i < |Flatten(gs)| ==> IsWord(Flatten(gs)[i])
    ensures forall i, j :: 0 <= i < |gs| && 0 <= j < |gs[i]| ==> IsWord(gs[i][j])
  {
    if gs != [] {
      var f := Flatten(gs);
      assert f == gs[0] + Flatten(gs[1..]);
      assert forall j :: 0 <= j < |gs[0]| ==> gs[0][j] == f[j];
      assert forall j :: 0 <= j < |Flatten(gs[1..])| ==> Flatten(gs[1..])[j] == f[|gs[0]| + j];
      GroupsHoldWords(gs[1..]);
      forall i, j | 0 <= i < |gs| && 0 <= j < |gs[i]| ensures IsWord(gs[i][j]) {
        if i > 0 {
          assert gs[i] == gs[1..][i - 1];
        }
      }
    }
  }

  /** Re-splitting chunks made from groups of words gives the groups back. */
  lemma SplitJoinEach(gs: seq<seq<string>>)
    requires forall i, j :: 0 <= i < |gs| && 0 <= j < |gs[i]| ==> IsWord(gs[i][j])
    ensures SplitEach(JoinEach(gs)) == gs
  {
    forall i | 0 <= i < |gs| ensures SplitEach(JoinEach(gs))[i] == gs[i] {
      SplitJoinWords(gs[i]);
    }
  }

  /**
   * What `chunk_text` promises of its result: no word is lost, duplicated or
   * reordered; no chunk is empty; there are no chunks exactly when there are no
   * words; every chunk but the last reaches the threshold; and every strict
   * word-prefix of a chunk is under it. The chunking is the only one with these
   * properties.
   */
  lemma ChunksOfSpec(text: string, tokens: string -> nat, maxTokens: int)
    ensures var chunks := ChunksOf(text, tokens, maxTokens);
      && Flatten(SplitEach(chunks)) == Split(text)
      && (chunks == [] <==> Split(text) == [])
      && (forall i :: 0 <= i < |chunks| ==> chunks[i] != "")
      && (forall i :: 0 <= i < |chunks| - 1 ==> tokens(chunks[i]) >= maxTokens)
      && (forall i, k :: 0 <= i < |chunks| && 0 < k < |Split(chunks[i])| ==>
            tokens(JoinWords(Split(chunks[i])[..k])) < maxTokens)
      && IsGreedyChunking(Split(text), SplitEach(chunks), tokens, maxTokens)
  {
    var words := Split(text);
    var gs := Groups(words, [], tokens, maxTokens);
    GroupsAreGreedy(words, [], tokens, maxTokens);
    assert [] + words == words;
    GroupsHoldWords(gs);
    SplitJoinEach(gs);
    var chunks := ChunksOf(text, tokens, maxTokens);
    assert SplitEach(chunks) == gs;
    forall i | 0 <= i < |chunks| ensures chunks[i] != "" {
      assert Split(chunks[i]) == gs[i] != [];
      assert Split("") == [];
    }
    if words != [] {
      assert gs != [];
    }
  }

  /**
   * `chunk_text`: split on whitespace, append word by word, close a chunk once
   * its token count reaches `maxTokens`, and keep a non-empty trailing chunk.
   */
  method ChunkText(text: string, tokens: string -> nat, maxTokens: int := MaxTokens) returns (chunks: seq<string>)
    ensures chunks == ChunksOf(text, tokens, maxTokens)
    ensures Flatten(SplitEach(chunks)) == Split(text)
    ensures chunks == [] <==> Split(text) == []
    ensures forall i :: 0 <= i < |chunks| ==> chunks[i] != ""
    ensures forall i :: 0 <= i < |chunks| - 1 ==> tokens(chunks[i]) >= maxTokens
  {
    var words := Split(text);
    chunks := [];
    var current: seq<string> := [];
    ghost var closed: seq<seq<string>> := [];
    for i := 0 to |words|
      invariant closed + Groups(words[i..], current, tokens, maxTokens) == Groups(words, [], tokens, maxTokens)
      invariant chunks == JoinEach(closed)
    {
      assert words[i..][0] == words[i] && words[i..][1..] == words[i + 1..];
      current := current + [words[i]];
      if tokens(JoinWords(current)) >= maxTokens {
        chunks := chunks + [JoinWords(current)];
        closed := closed + [current];
        current := [];
      }
    }
    if current != [] {
      chunks := chunks + [JoinWords(current)];
      closed := closed + [current];
    }
    assert closed == Groups(words, [], tokens, maxTokens);
    ChunksOfSpec(text, tokens, maxTokens);
  }

  /** What is handed to the embedder: the whole text, or its chunks (whose embeddings are averaged). */
  datatype EmbeddingInput = Whole(text: string) | Chunked(chunks: seq<string>)

  /** `prepare_vector`'s decision: chunk only when the text has strictly more than MAX_TOKENS tokens. */
  function EmbeddingInputFor(text: string, tokens: string -> nat): (e: EmbeddingInput)
    ensures e.Whole? <==> tokens(text) <= MaxTokens
    ensures e.Whole? ==> e.text == text
    ensures e.Chunked? ==> e.chunks == ChunksOf(text, tokens, MaxTokens)
  {
    if tokens(text) > MaxTokens then Chunked(ChunksOf(text, tokens, MaxTokens)) else Whole(text)
  }

  /** `prepare_vector` up to the embedding call: the embedder input for `text`. */
  method PrepareVector(text: string, tokens: string -> nat) returns (input: EmbeddingInput)
    ensures input == EmbeddingInputFor(text, tokens)
    ensures input.Chunked? ==> tokens(text) > MaxTokens && Flatten(SplitEach(input.chunks)) == Split(text)
  {
    var tokenCount := tokens(text);
    if tokenCount > MaxTokens {
      var chunks := ChunkText(text, tokens);
      input := Chunked(chunks);
    } else {
      input := Whole(text);
    }
  }
}
