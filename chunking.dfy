/**
 * `chunk_text`: greedy packing of a text's words into chunks of roughly `chunk_size` characters.
 *
 * A chunk's running size counts every word's length plus one for its space.  A chunk's first
 * word is always taken; each further word is taken while the running size stays within
 * `chunk_size`.  The reference definition below packs chunk by chunk (`Groups`); the method
 * `ChunkText` does it word by word, as the source's loop does, and is proved to agree.
 */
module Chunking {
  import opened Text

  /** The default `chunk_size`, used by `find_relevant_chunks`. */
  const DefaultChunkSize := 500

  /** The running size of a chunk: each word's length plus one. */
  function Size(words: seq<string>): nat {
    if words == [] then 0 else |words[0]| + 1 + Size(words[1..])
  }

  /** A chunk the source can build: one word of any length, or words whose running size is within the limit. */
  predicate Fits(words: seq<string>, chunkSize: int) {
    |words| <= 1 || Size(words) <= chunkSize
  }

  /** How many leading words fit, one after another, into `budget`. */
  function Fitting(words: seq<string>, budget: int): (n: nat)
    ensures n <= |words|
  {
    if words == [] || |words[0]| + 1 > budget then 0
    else 1 + Fitting(words[1..], budget - (|words[0]| + 1))
  }

  /** The number of words in the first chunk: its first word, then as many as fit after it. */
  function FirstChunkLength(words: seq<string>, chunkSize: int): (n: nat)
    requires words != []
    ensures 1 <= n <= |words|
  {
    1 + Fitting(words[1..], chunkSize - (|words[0]| + 1))
  }

  /** The words of each chunk, in order. */
  function Groups(words: seq<string>, chunkSize: int): seq<seq<string>>
    decreases |words|
  {
    if words == [] then []
    else
      var n := FirstChunkLength(words, chunkSize);
      [words[..n]] + Groups(words[n..], chunkSize)
  }

  function JoinEach(groups: seq<seq<string>>): seq<string> {
    seq(|groups|, k requires 0 <= k < |groups| => Join(groups[k], " "))
  }

  /** What `chunk_text(text, chunk_size)` returns. */
  function Chunks(text: string, chunkSize: int): seq<string> {
    JoinEach(Groups(Split(text), chunkSize))
  }

  function Flatten(groups: seq<seq<string>>): seq<string> {
    if groups == [] then [] else groups[0] + Flatten(groups[1..])
  }

  /** All the words of a list of chunks, chunk after chunk. */
  function WordsOf(chunks: seq<string>): seq<string> {
    Flatten(seq(|chunks|, k requires 0 <= k < |chunks| => Split(chunks[k])))
  }

  /** A string whose only whitespace characters are plain spaces. */
  predicate SingleSpaced(s: string) {
    forall i :: 0 <= i < |s| ==> s[i] == ' ' || !IsSpace(s[i])
  }

  // ---------------------------------------------------------------------------
  // The loop of `chunk_text`

  /** The source's loop: accumulate words while the running size fits, emit the chunk when the next word would overflow. */
  method ChunkText(text: string, chunkSize: int) returns (chunks: seq<string>)
    ensures chunks == Chunks(text, chunkSize)
  {
    var words := Split(text);
    chunks := [];
    var currentChunk: seq<string> := [];
    var currentSize := 0;
    ghost var groups: seq<seq<string>> := [];
    assert currentChunk + words[0..] == words;

    for i := 0 to |words|
      invariant currentSize == Size(currentChunk)
      invariant Fits(currentChunk, chunkSize)
      invariant chunks == JoinEach(groups)
      invariant groups + Groups(currentChunk + words[i..], chunkSize) == Groups(words, chunkSize)
    {
      var word := words[i];
      var wordSize := |word| + 1;
      SliceCons(words, i);
      if currentSize + wordSize > chunkSize && currentChunk != [] {
        CloseStep(groups, currentChunk, word, words[i + 1..], chunkSize);
        JoinEachSnoc(groups, currentChunk);
        chunks := chunks + [Join(currentChunk, " ")];
        groups := groups + [currentChunk];
        currentChunk := [word];
        currentSize := wordSize;
      } else {
        ExtendStep(currentChunk, word, words[i + 1..], chunkSize);
        currentChunk := currentChunk + [word];
        currentSize := currentSize + wordSize;
      }
    }

    assert currentChunk + words[|words|..] == currentChunk;
    if currentChunk != [] {
      OnlyChunk(currentChunk, chunkSize);
      JoinEachSnoc(groups, currentChunk);
      chunks := chunks + [Join(currentChunk, " ")];
      groups := groups + [currentChunk];
    }
  }

  lemma SliceCons(s: seq<string>, i: nat)
    requires i < |s|
    ensures s[i..] == [s[i]] + s[i + 1..]
  {
  }

  /** Emitting the chunk in progress when the next word overflows it keeps the packing. */
  lemma CloseStep(groups: seq<seq<string>>, current: seq<string>, word: string, rest: seq<string>, chunkSize: int)
    requires current != [] && Fits(current, chunkSize)
    requires Size(current) + |word| + 1 > chunkSize
    ensures groups + Groups(current + ([word] + rest), chunkSize) == (groups + [current]) + Groups([word] + rest, chunkSize)
  {
    CloseBefore(current, [word] + rest, chunkSize);
  }

  /** Adding a word that fits (or the first word) to the chunk in progress keeps the packing. */
  lemma ExtendStep(current: seq<string>, word: string, rest: seq<string>, chunkSize: int)
    requires Fits(current, chunkSize)
    requires current == [] || Size(current) + |word| + 1 <= chunkSize
    ensures current + ([word] + rest) == (current + [word]) + rest
    ensures Size(current + [word]) == Size(current) + |word| + 1
    ensures Fits(current + [word], chunkSize)
  {
    SizeAppend(current, [word]);
  }

  // ---------------------------------------------------------------------------
  // Facts about sizes and fitting

  lemma JoinEachSnoc(groups: seq<seq<string>>, group: seq<string>)
    ensures JoinEach(groups + [group]) == JoinEach(groups) + [Join(group, " ")]
  {
  }

  lemma {:induction false} SizeAppend(a: seq<string>, b: seq<string>)
    ensures Size(a + b) == Size(a) + Size(b)
  {
    if a == [] {
      assert a + b == b;
    } else {
      assert (a + b)[1..] == a[1..] + b;
      SizeAppend(a[1..], b);
    }
  }

  /** Words that fit the budget are all taken, then fitting continues with what is left of it. */
  lemma {:induction false} FittingAppend(p: seq<string>, q: seq<string>, budget: int)
    requires p == [] || Size(p) <= budget
    ensures Fitting(p + q, budget) == |p| + Fitting(q, budget - Size(p))
  {
    if p == [] {
      assert p + q == q;
    } else {
      assert (p + q)[0] == p[0];
      assert (p + q)[1..] == p[1..] + q;
      FittingAppend(p[1..], q, budget - (|p[0]| + 1));
    }
  }

  /** The taken words fit the budget, and the next word would not have. */
  lemma {:induction false} FittingBounds(words: seq<string>, budget: int)
    ensures var n := Fitting(words, budget);
      && (n == 0 || Size(words[..n]) <= budget)
      && (n < |words| ==> Size(words[..n]) + |words[n]| + 1 > budget)
  {
    if words != [] && |words[0]| + 1 <= budget {
      var b := budget - (|words[0]| + 1);
      FittingBounds(words[1..], b);
      var n := Fitting(words, budget);
      assert words[..n][0] == words[0];
      assert words[..n][1..] == words[1..][..n - 1];
      if n < |words| {
        assert words[n] == words[1..][n - 1];
      }
    }
  }

  /** When a fitting chunk is followed by a word that overflows it, the first chunk is exactly that chunk. */
  lemma FirstChunkClosed(current: seq<string>, rest: seq<string>, chunkSize: int)
    requires current != [] && Fits(current, chunkSize)
    requires rest != [] && Size(current) + |rest[0]| + 1 > chunkSize
    ensures FirstChunkLength(current + rest, chunkSize) == |current|
  {
    FittingAfter(current, rest, chunkSize);
    TailAppend(current, rest);
  }

  /** After the first word of a fitting chunk, exactly the rest of that chunk fits before an overflowing word. */
  lemma FittingAfter(current: seq<string>, rest: seq<string>, chunkSize: int)
    requires current != [] && Fits(current, chunkSize)
    requires rest != [] && Size(current) + |rest[0]| + 1 > chunkSize
    ensures Fitting(current[1..] + rest, chunkSize - (|current[0]| + 1)) == |current| - 1
  {
    var tail := current[1..];
    var b := chunkSize - (|current[0]| + 1);
    assert Size(current) == |current[0]| + 1 + Size(tail);
    assert Fitting(rest, b - Size(tail)) == 0;
    FittingAppend(tail, rest, b);
  }

  /** A chunk in progress that fits, followed by a word that overflows it, is emitted whole. */
  lemma CloseBefore(current: seq<string>, rest: seq<string>, chunkSize: int)
    requires current != [] && Fits(current, chunkSize)
    requires rest != [] && Size(current) + |rest[0]| + 1 > chunkSize
    ensures Groups(current + rest, chunkSize) == [current] + Groups(rest, chunkSize)
  {
    var words := current + rest;
    FirstChunkClosed(current, rest, chunkSize);
    assert words[..|current|] == current && words[|current|..] == rest;
  }

  /** A fitting chunk is packed as one chunk. */
  lemma OnlyChunk(current: seq<string>, chunkSize: int)
    requires current != [] && Fits(current, chunkSize)
    ensures Groups(current, chunkSize) == [current]
  {
    var b := chunkSize - (|current[0]| + 1);
    assert current[1..] + [] == current[1..];
    FittingAppend(current[1..], [], b);
    assert current[..|current|] == current;
  }

  // ---------------------------------------------------------------------------
  // Facts about the packing

  /** The first chunk's words fit, and when words remain, the next one would overflow it. */
  lemma FirstChunk(words: seq<string>, chunkSize: int)
    requires words != []
    ensures var n := FirstChunkLength(words, chunkSize);
      && Fits(words[..n], chunkSize)
      && (n < |words| ==> Size(words[..n]) + |words[n]| + 1 > chunkSize)
  {
    var b := chunkSize - (|words[0]| + 1);
    var t := words[1..];
    FittingBounds(t, b);
    var n := FirstChunkLength(words, chunkSize);
    assert words[..n][0] == words[0];
    assert words[..n][1..] == t[..n - 1];
    if n < |words| {
      assert words[n] == t[n - 1];
    }
  }

  lemma GroupsHead(words: seq<string>, chunkSize: int)
    requires words != []
    ensures Groups(words, chunkSize) != [] && Groups(words, chunkSize)[0][0] == words[0]
  {
    var n := FirstChunkLength(words, chunkSize);
    assert Groups(words, chunkSize)[0] == words[..n];
  }

  /** The first chunk's words, then the chunks of the words after them. */
  lemma GroupsUnfold(words: seq<string>, chunkSize: int)
    requires words != []
    ensures var n := FirstChunkLength(words, chunkSize);
      && Groups(words, chunkSize) == [words[..n]] + Groups(words[n..], chunkSize)
      && Groups(words, chunkSize)[0] == words[..n]
      && Groups(words, chunkSize)[1..] == Groups(words[n..], chunkSize)
  {
  }

  lemma FlattenCons(group: seq<string>, groups: seq<seq<string>>)
    ensures Flatten([group] + groups) == group + Flatten(groups)
  {
    assert ([group] + groups)[1..] == groups;
  }

  lemma {:induction false} GroupsFlatten(words: seq<string>, chunkSize: int)
    ensures Flatten(Groups(words, chunkSize)) == words
    decreases |words|
  {
    if words != [] {
      var n := FirstChunkLength(words, chunkSize);
      GroupsUnfold(words, chunkSize);
      GroupsFlatten(words[n..], chunkSize);
      FlattenCons(words[..n], Groups(words[n..], chunkSize));
      assert words[..n] + words[n..] == words;
    }
  }

  lemma {:induction false} GroupsFit(words: seq<string>, chunkSize: int)
    ensures forall k :: 0 <= k < |Groups(words, chunkSize)| ==>
      Groups(words, chunkSize)[k] != [] && Fits(Groups(words, chunkSize)[k], chunkSize)
    decreases |words|
  {
    if words != [] {
      var n := FirstChunkLength(words, chunkSize);
      FirstChunk(words, chunkSize);
      GroupsUnfold(words, chunkSize);
      GroupsFit(words[n..], chunkSize);
      var groups, rest := Groups(words, chunkSize), Groups(words[n..], chunkSize);
      forall k | 1 <= k < |groups| ensures groups[k] == rest[k - 1] {
        assert groups[k] == groups[1..][k - 1];
      }
    }
  }

  lemma {:induction false} GroupsOverflow(words: seq<string>, chunkSize: int)
    ensures forall k :: 0 <= k < |Groups(words, chunkSize)| ==> Groups(words, chunkSize)[k] != []
    ensures forall k :: 0 <= k < |Groups(words, chunkSize)| - 1 ==>
      Size(Groups(words, chunkSize)[k]) + |Groups(words, chunkSize)[k + 1][0]| + 1 > chunkSize
    decreases |words|
  {
    GroupsFit(words, chunkSize);
    if words != [] {
      var n := FirstChunkLength(words, chunkSize);
      FirstChunk(words, chunkSize);
      GroupsUnfold(words, chunkSize);
      GroupsOverflow(words[n..], chunkSize);
      var groups, rest := Groups(words, chunkSize), Groups(words[n..], chunkSize);
      if n < |words| {
        GroupsHead(words[n..], chunkSize);
        assert groups[1] == rest[0];
      }
      forall k | 1 <= k < |groups| ensures groups[k] == rest[k - 1] {
        assert groups[k] == groups[1..][k - 1];
      }
    }
  }

  lemma {:induction false} GroupsMembers(words: seq<string>, chunkSize: int)
    ensures forall k, w :: 0 <= k < |Groups(words, chunkSize)| && w in Groups(words, chunkSize)[k] ==> w in words
    decreases |words|
  {
    if words != [] {
      var n := FirstChunkLength(words, chunkSize);
      GroupsUnfold(words, chunkSize);
      GroupsMembers(words[n..], chunkSize);
      var groups, rest := Groups(words, chunkSize), Groups(words[n..], chunkSize);
      forall k, w | 0 <= k < |groups| && w in groups[k] ensures w in words {
        if k == 0 {
          assert w in words[..n];
        } else {
          assert groups[k] == groups[1..][k - 1];
          assert w in words[n..];
        }
      }
    }
  }

  lemma GroupsValid(words: seq<string>, chunkSize: int)
    ensures var groups := Groups(words, chunkSize);
      && Flatten(groups) == words
      && (forall k :: 0 <= k < |groups| ==> groups[k] != [] && Fits(groups[k], chunkSize))
      && (forall k :: 0 <= k < |groups| - 1 ==> Size(groups[k]) + |groups[k + 1][0]| + 1 > chunkSize)
      && (forall k, w :: 0 <= k < |groups| && w in groups[k] ==> w in words)
  {
    GroupsFlatten(words, chunkSize);
    GroupsFit(words, chunkSize);
    GroupsOverflow(words, chunkSize);
    GroupsMembers(words, chunkSize);
  }

  lemma {:induction false} JoinSize(group: seq<string>)
    requires group != []
    ensures |Join(group, " ")| == Size(group) - 1
  {
    if |group| > 1 {
      JoinSize(group[1..]);
    }
  }

  lemma {:induction false} JoinFlatten(groups: seq<seq<string>>)
    requires forall k :: 0 <= k < |groups| ==> groups[k] != []
    ensures Join(JoinEach(groups), " ") == Join(Flatten(groups), " ")
  {
    if |groups| == 1 {
      assert Flatten(groups) == groups[0] + [];
      assert groups[0] + [] == groups[0];
    } else if |groups| > 1 {
      JoinFlatten(groups[1..]);
      assert JoinEach(groups)[1..] == JoinEach(groups[1..]);
      assert Flatten(groups[1..]) != [] by {
        assert Flatten(groups[1..]) == groups[1] + Flatten(groups[2..]);
      }
      JoinAppend(groups[0], Flatten(groups[1..]), " ");
    }
  }

  /** Each chunk in terms of the words packed into it. */
  lemma ChunkAt(text: string, chunkSize: int, k: nat)
    requires k < |Chunks(text, chunkSize)|
    ensures var groups := Groups(Split(text), chunkSize);
      var c := Chunks(text, chunkSize)[k];
      && k < |groups|
      && groups[k] != [] && Fits(groups[k], chunkSize)
      && Split(c) == groups[k]
      && |c| == Size(groups[k]) - 1
      && c == Join(groups[k], " ")
  {
    var words := Split(text);
    var groups := Groups(words, chunkSize);
    GroupsValid(words, chunkSize);
    forall i | 0 <= i < |groups[k]| ensures IsWord(groups[k][i]) {
      assert groups[k][i] in words;
    }
    SplitJoin(groups[k]);
    JoinSize(groups[k]);
  }

  // ---------------------------------------------------------------------------
  // What `chunk_text` promises

  /** No word is lost, duplicated, reordered, split or merged: the chunks' words are the text's words. */
  lemma ChunksKeepWords(text: string, chunkSize: int)
    ensures WordsOf(Chunks(text, chunkSize)) == Split(text)
    ensures Join(Chunks(text, chunkSize), " ") == Join(Split(text), " ")
  {
    var words := Split(text);
    var groups := Groups(words, chunkSize);
    var chunks := Chunks(text, chunkSize);
    GroupsValid(words, chunkSize);
    forall k | 0 <= k < |chunks| ensures Split(chunks[k]) == groups[k] {
      ChunkAt(text, chunkSize, k);
    }
    assert seq(|chunks|, k requires 0 <= k < |chunks| => Split(chunks[k])) == groups;
    JoinFlatten(groups);
  }

  /** Every chunk is non-empty and is its own words joined by single spaces. */
  lemma ChunksWellFormed(text: string, chunkSize: int)
    ensures forall k :: 0 <= k < |Chunks(text, chunkSize)| ==>
      var c := Chunks(text, chunkSize)[k];
      |c| > 0 && Split(c) != [] && c == Join(Split(c), " ") && SingleSpaced(c)
  {
    var chunks := Chunks(text, chunkSize);
    forall k | 0 <= k < |chunks|
      ensures |chunks[k]| > 0 && Split(chunks[k]) != [] && chunks[k] == Join(Split(chunks[k]), " ") && SingleSpaced(chunks[k])
    {
      ChunkAt(text, chunkSize, k);
      var g := Groups(Split(text), chunkSize)[k];
      if |g| == 1 {
        assert |chunks[k]| == |g[0]|;
      } else {
        assert |chunks[k]| == Size(g) - 1 == |g[0]| + Size(g[1..]);
      }
      JoinWordsSpacing(Split(chunks[k]));
    }
  }

  /** Empty or whitespace-only text, and only such text, yields no chunks. */
  lemma ChunksEmpty(text: string, chunkSize: int)
    ensures Chunks(text, chunkSize) == [] <==> forall i :: 0 <= i < |text| ==> IsSpace(text[i])
  {
    SplitAllSpace(text);
    var words := Split(text);
    if words != [] {
      assert |Groups(words, chunkSize)| > 0;
    }
  }

  /** A chunk of two or more words is at most `chunk_size - 1` characters long. */
  lemma ChunkSizeBound(text: string, chunkSize: int)
    ensures forall k :: 0 <= k < |Chunks(text, chunkSize)| && |Split(Chunks(text, chunkSize)[k])| >= 2 ==>
      |Chunks(text, chunkSize)[k]| <= chunkSize - 1
  {
    var chunks := Chunks(text, chunkSize);
    forall k | 0 <= k < |chunks| && |Split(chunks[k])| >= 2 ensures |chunks[k]| <= chunkSize - 1 {
      ChunkAt(text, chunkSize, k);
    }
  }

  /** Packing is greedy: a chunk's running size plus the next chunk's first word and its space exceeds `chunk_size`. */
  lemma ChunksGreedy(text: string, chunkSize: int)
    ensures forall k :: 1 <= k < |Chunks(text, chunkSize)| ==>
      Split(Chunks(text, chunkSize)[k]) != [] &&
      (|Chunks(text, chunkSize)[k - 1]| + 1) + |Split(Chunks(text, chunkSize)[k])[0]| + 1 > chunkSize
  {
    var words := Split(text);
    var chunks := Chunks(text, chunkSize);
    GroupsValid(words, chunkSize);
    forall k | 1 <= k < |chunks|
      ensures Split(chunks[k]) != [] && (|chunks[k - 1]| + 1) + |Split(chunks[k])[0]| + 1 > chunkSize
    {
      ChunkAt(text, chunkSize, k - 1);
      ChunkAt(text, chunkSize, k);
    }
  }

  /** A chunk of `chunk_size` characters or more is a single word of the text. */
  lemma LongChunkIsWord(text: string, chunkSize: int)
    ensures forall k :: 0 <= k < |Chunks(text, chunkSize)| && |Chunks(text, chunkSize)[k]| >= chunkSize ==>
      Split(Chunks(text, chunkSize)[k]) == [Chunks(text, chunkSize)[k]] && Chunks(text, chunkSize)[k] in Split(text)
  {
    var words := Split(text);
    var chunks := Chunks(text, chunkSize);
    GroupsValid(words, chunkSize);
    forall k | 0 <= k < |chunks| && |chunks[k]| >= chunkSize
      ensures Split(chunks[k]) == [chunks[k]] && chunks[k] in words
    {
      ChunkAt(text, chunkSize, k);
      var g := Groups(words, chunkSize)[k];
      assert |g| == 1;
      assert chunks[k] == g[0];
      assert g[0] in g;
    }
  }

  /** When no word of the text is longer than `limit`, no chunk is longer than `chunk_size - 1` or `limit`. */
  lemma ChunksWithin(text: string, chunkSize: int, limit: int)
    requires forall i :: 0 <= i < |Split(text)| ==> |Split(text)[i]| <= limit
    ensures forall k :: 0 <= k < |Chunks(text, chunkSize)| ==>
      |Chunks(text, chunkSize)[k]| <= chunkSize - 1 || |Chunks(text, chunkSize)[k]| <= limit
  {
    LongChunkIsWord(text, chunkSize);
  }

  /** A list of one chunk holds that chunk's words, and joins to the chunk itself. */
  lemma SingleChunk(chunks: seq<string>)
    ensures |chunks| == 1 ==> WordsOf(chunks) == Split(chunks[0]) && Join(chunks, " ") == chunks[0]
  {
    if |chunks| == 1 {
      var split := seq(|chunks|, k requires 0 <= k < |chunks| => Split(chunks[k]));
      assert split == [Split(chunks[0])];
      assert Flatten(split) == split[0] + Flatten(split[1..]);
      assert split[1..] == [];
    }
  }

  /**
   * A text of two or more words that, joined by single spaces, reach `chunk_size` characters is
   * cut into at least two chunks.
   */
  lemma ChunksSeveral(text: string, chunkSize: int)
    requires |Split(text)| >= 2
    requires |Join(Split(text), " ")| >= chunkSize
    ensures |Chunks(text, chunkSize)| >= 2
  {
    var chunks := Chunks(text, chunkSize);
    ChunksKeepWords(text, chunkSize);
    SplitAllSpace(text);
    ChunksEmpty(text, chunkSize);
    ChunkSizeBound(text, chunkSize);
    SingleChunk(chunks);
  }
}
