/**
 `chunk_text` from preprocess.py (repeated verbatim in
 textgraphai/utils/enhanced_preprocess.py): the words of a text in
 consecutive groups of at most `chunk_size`, each group joined by single
 spaces.
 */
module Chunking {
  import opened Wrappers
  import opened Words
  import Preprocess

  /** The default `chunk_size` of `chunk_text` and its callers. */
  const DefaultChunkSize: int := 600

  /** The error `range(0, n, 0)` raises: a step of zero. */
  datatype RangeError = ZeroStep

  /** The number of steps `range(0, total, size)` takes for a positive size. */
  function CeilDiv(total: nat, size: nat): nat
    requires size > 0
  {
    (total + size - 1) / size
  }

  lemma MulMono(p: int, q: int, size: int)
    requires size > 0 && p <= q
    ensures p * size <= q * size
  {
    assert q * size - p * size == (q - p) * size;
  }

  lemma MulCancelLt(p: int, q: int, size: int)
    requires size > 0 && p * size < q * size
    ensures p < q
  {
    if q <= p {
      MulMono(q, p, size);
    }
  }

  /** Integer division is the unique quotient. */
  lemma DivUnique(x: int, size: int, a: int)
    requires size > 0 && a * size <= x < a * size + size
    ensures x / size == a
  {
    var d := x / size;
    assert d * size <= x < d * size + size;
    assert d * size + size == (d + 1) * size && a * size + size == (a + 1) * size;
    MulCancelLt(d, a + 1, size);
    MulCancelLt(a, d + 1, size);
  }

  lemma CeilDivOne(total: nat, size: nat)
    requires 0 < total <= size
    ensures CeilDiv(total, size) == 1
  {
    DivUnique(total + size - 1, size, 1);
  }

  lemma CeilDivStep(total: nat, size: nat)
    requires size > 0
    ensures CeilDiv(total + size, size) == 1 + CeilDiv(total, size)
  {
    var q := total + size - 1;
    var d := q / size;
    assert d * size <= q < d * size + size;
    assert d * size + size == (d + 1) * size;
    DivUnique(q + size, size, d + 1);
  }

  /**
   The groups `words[i:i+size]` for `i` in `range(0, len(words), size)`:
   consecutive, non-empty, at most `size` long, all full but the last, and
   together exactly `words`.
   */
  function ChunkWords<T>(words: seq<T>, size: nat): (chunks: seq<seq<T>>)
    requires size > 0
    ensures forall k :: 0 <= k < |chunks| ==> 0 < |chunks[k]| <= size
    ensures forall k :: 0 <= k < |chunks| - 1 ==> |chunks[k]| == size
    ensures Concat(chunks) == words
    decreases |words|
  {
    if |words| == 0 then []
    else if |words| <= size then
      assert Concat([words]) == words + Concat([]);
      [words]
    else
      var rest := ChunkWords(words[size..], size);
      var chunks := [words[..size]] + rest;
      assert chunks[1..] == rest;
      assert words == words[..size] + words[size..];
      chunks
  }

  /** There are as many groups as `range(0, len(words), size)` has steps. */
  lemma {:induction false} ChunkWordsCount<T>(words: seq<T>, size: nat)
    requires size > 0
    ensures |ChunkWords(words, size)| == CeilDiv(|words|, size)
    decreases |words|
  {
    if |words| == 0 {
      DivUnique(size - 1, size, 0);
    } else if |words| <= size {
      CeilDivOne(|words|, size);
    } else {
      var rest := words[size..];
      assert |ChunkWords(words, size)| == 1 + |ChunkWords(rest, size)|;
      ChunkWordsCount(rest, size);
      CeilDivStep(|rest|, size);
    }
  }

  /** Each group of words joined by single spaces. */
  function JoinEach(chunks: seq<seq<string>>): (r: seq<string>)
    ensures |r| == |chunks|
    ensures forall k :: 0 <= k < |chunks| ==> r[k] == Join(chunks[k])
  {
    if chunks == [] then []
    else JoinEach(chunks[..|chunks| - 1]) + [Join(chunks[|chunks| - 1])]
  }

  /**
   `list(chunk_text(text, size))`. A zero `size` makes `range` raise; a
   negative one makes it empty.
   */
  function ChunkText(text: string, size: int): (r: Result<seq<string>, RangeError>)
    ensures r.Failure? <==> size == 0
    ensures size < 0 ==> r == Success([])
    ensures size > 0 ==> r.Success? && |r.value| == CeilDiv(|Split(text)|, size)
  {
    if size == 0 then Failure(ZeroStep)
    else if size < 0 then Success([])
    else
      ChunkWordsCount(Split(text), size);
      Success(JoinEach(ChunkWords(Split(text), size)))
  }

  /** The words of each chunk, in order. */
  function WordsOfEach(chunks: seq<string>): (r: seq<seq<string>>)
    ensures |r| == |chunks|
  {
    seq(|chunks|, k requires 0 <= k < |chunks| => Split(chunks[k]))
  }

  /**
   Splitting each chunk gives back its group of words, so the chunks'
   words, concatenated in order, are exactly the words of the text.
   */
  lemma {:induction false} ChunkTextWords(text: string, size: int)
    requires size > 0
    ensures ChunkText(text, size).Success?
    ensures WordsOfEach(ChunkText(text, size).value) == ChunkWords(Split(text), size)
    ensures Concat(WordsOfEach(ChunkText(text, size).value)) == Split(text)
  {
    var groups := ChunkWords(Split(text), size);
    var chunks := ChunkText(text, size).value;
    forall k | 0 <= k < |groups|
      ensures Split(chunks[k]) == groups[k]
    {
      GroupWords(Split(text), groups, k);
      SplitJoin(groups[k]);
    }
    assert WordsOfEach(chunks) == groups;
  }

  /** Every group of a grouping of words holds only words. */
  lemma {:induction false} WordsInGroups(groups: seq<seq<string>>)
    requires AllWords(Concat(groups))
    ensures forall k :: 0 <= k < |groups| ==> AllWords(groups[k])
    decreases |groups|
  {
    if groups != [] {
      var h, t := groups[0], Concat(groups[1..]);
      assert Concat(groups) == h + t;
      assert forall i :: 0 <= i < |h| ==> h[i] == (h + t)[i];
      assert forall i :: 0 <= i < |t| ==> t[i] == (h + t)[|h| + i];
      WordsInGroups(groups[1..]);
      assert forall k :: 1 <= k < |groups| ==> groups[k] == groups[1..][k - 1];
    }
  }

  /** A group cut from a sequence of words holds only words. */
  lemma GroupWords(words: seq<string>, groups: seq<seq<string>>, k: nat)
    requires AllWords(words)
    requires Concat(groups) == words
    requires k < |groups|
    ensures AllWords(groups[k])
  {
    WordsInGroups(groups);
  }

  /**
   Every chunk holds between one and `size` words, every chunk but the last
   holds exactly `size`, and each is its words separated by single spaces.
   */
  lemma ChunkTextShape(text: string, size: int, k: int)
    requires size > 0
    requires 0 <= k < |ChunkText(text, size).value|
    ensures 1 <= |Split(ChunkText(text, size).value[k])| <= size
    ensures k < |ChunkText(text, size).value| - 1 ==> |Split(ChunkText(text, size).value[k])| == size
    ensures SingleSpaced(ChunkText(text, size).value[k])
  {
    var groups := ChunkWords(Split(text), size);
    ChunkTextWords(text, size);
    assert WordsOfEach(ChunkText(text, size).value)[k] == groups[k];
    GroupWords(Split(text), groups, k);
    JoinSingleSpaced(groups[k]);
  }

  /**
   The chunks depend only on the words: cleaning a text without brackets
   first does not move a single chunk boundary.
   */
  lemma ChunkAfterClean(text: string, size: int)
    requires '[' !in text
    ensures ChunkText(Preprocess.CleanText(text), size) == ChunkText(text, size)
  {
    assert Split(Preprocess.CleanText(text)) == Split(text);
  }

  /** Text that is empty after cleaning yields no chunks rather than an error. */
  lemma BlankTextNoChunks(text: string, size: int)
    requires AllSpace(text)
    requires size != 0
    ensures ChunkText(Preprocess.CleanText(text), size) == Success([])
  {
  }

  /** One step of the generator: the group at `i` followed by the groups after it. */
  lemma ChunkWordsStep<T>(words: seq<T>, i: nat, size: nat)
    requires size > 0 && i < |words|
    ensures ChunkWords(words[i..], size)
         == [words[i..Min(i + size, |words|)]] + ChunkWords(words[Min(i + size, |words|)..], size)
  {
    var tail := words[i..];
    var end := Min(i + size, |words|);
    if |tail| <= size {
      assert tail == words[i..end];
      assert words[end..] == [];
    } else {
      assert tail[..size] == words[i..end] && tail[size..] == words[end..];
    }
  }

  /** The loop invariant of `ChunkTextLoop` survives one step. */
  lemma ChunkLoopStep(words: seq<string>, size: nat, groups: seq<seq<string>>, i: nat)
    requires size > 0 && i < |words|
    requires groups + ChunkWords(words[i..], size) == ChunkWords(words, size)
    ensures var end := Min(i + size, |words|);
      (groups + [words[i..end]]) + ChunkWords(words[end..], size) == ChunkWords(words, size)
  {
    ChunkWordsStep(words, i, size);
  }

  lemma JoinEachAppend(groups: seq<seq<string>>, group: seq<string>)
    ensures JoinEach(groups + [group]) == JoinEach(groups) + [Join(group)]
  {
    assert (groups + [group])[..|groups|] == groups;
  }

  /**
   The generator loop of `chunk_text`, with `i` running over
   `range(0, len(words), size)` and each slice clamped to the end of the list.
   */
  method ChunkTextLoop(text: string, size: int) returns (r: Result<seq<string>, RangeError>)
    ensures r == ChunkText(text, size)
  {
    if size == 0 {
      return Failure(ZeroStep);
    } else if size < 0 {
      return Success([]);
    }
    var chunks := JoinGroupsLoop(Split(text), size);
    return Success(chunks);
  }

  /**
   The loop of `chunk_text` over a word list: each slice joined by single
   spaces. The index is clamped at the end of the list rather than stepping
   past it; the loop stops at the same iteration either way.
   */
  method JoinGroupsLoop(words: seq<string>, size: nat) returns (chunks: seq<string>)
    requires size > 0
    ensures chunks == JoinEach(ChunkWords(words, size))
  {
    chunks := [];
    ghost var groups: seq<seq<string>> := [];
    var i := 0;
    assert words[0..] == words;
    while i < |words|
      invariant 0 <= i <= |words|
      invariant groups + ChunkWords(words[i..], size) == ChunkWords(words, size)
      invariant chunks == JoinEach(groups)
      decreases |words| - i
    {
      var end := Min(i + size, |words|);
      var group := words[i..end];
      ChunkLoopStep(words, size, groups, i);
      JoinEachAppend(groups, group);
      groups := groups + [group];
      chunks := chunks + [Join(group)];
      i := if end == |words| then end else i + size;
    }
    assert words[i..] == [];
  }

  function Min(a: int, b: int): int
  {
    if a < b then a else b
  }

  /** With the default size, a text of at most 600 words is a single chunk: its words joined by single spaces. */
  lemma DefaultSizeSingleChunk(text: string)
    requires 0 < |Split(text)| <= DefaultChunkSize
    ensures ChunkText(text, DefaultChunkSize) == Success([Join(Split(text))])
  {
    var words := Split(text);
    assert ChunkWords(words, 600) == [words];
    assert JoinEach([words]) == [Join(words)];
    assert ChunkText(text, 600) == Success(JoinEach(ChunkWords(words, 600)));
  }

  /** Three words in chunks of two: one full chunk, then the remainder. */
  lemma ChunkTextExample()
    ensures ChunkText("a  b\tc", 2) == Success(["a b", "c"])
  {
    SplitExample();
    GroupExample();
    var joined := JoinEach([["a", "b"], ["c"]]);
    assert joined[0] == "a b" && joined[1] == "c";
    assert joined == ["a b", "c"];
  }

  lemma SplitExample()
    ensures Split("a  b\tc") == ["a", "b", "c"]
  {
    SplitTailExample();
    WordsFromSpace(' ', "b\tc", []);
    WordsFromSpace(' ', " b\tc", "a");
    WordsFromLetter('a', "  b\tc", []);
    assert "a  b\tc" == ['a'] + ([' '] + ([' '] + "b\tc"));
    assert [] + ['a'] == "a";
  }

  lemma SplitTailExample()
    ensures WordsFrom("b\tc", []) == ["b", "c"]
  {
    WordsFromLetter('c', "", []);
    WordsFromSpace('\t', "c", "b");
    WordsFromLetter('b', "\tc", []);
    assert "b\tc" == ['b'] + (['\t'] + (['c'] + ""));
    assert [] + ['b'] == "b" && [] + ['c'] == "c";
  }

  lemma GroupExample()
    ensures ChunkWords(["a", "b", "c"], 2) == [["a", "b"], ["c"]]
    ensures Join(["a", "b"]) == "a b" && Join(["c"]) == "c"
  {
    var words := ["a", "b", "c"];
    assert words[2..] == ["c"] && words[..2] == ["a", "b"];
    assert ["a", "b"][1..] == ["b"];
  }
}
