/**
 * The chunk builder of utils/chunking.py: a sentence splitter for the regex
 * `([.!?]+\s+)`, the overlap suffix that seeds each new chunk, and the greedy
 * packer that turns an essay into citation-tagged chunks.
 */
module Chunking {
  import opened Wrappers
  import opened Text

  /** An essay as the loader hands it over. */
  datatype Essay = Essay(textId: string, title: string, url: string, filename: string, content: string)

  /** A chunk record; `embedding` stays empty until the embedding stage fills it. */
  datatype Chunk = Chunk(
    text: string,
    essayTitle: string,
    essayFilename: string,
    essayUrl: string,
    textId: string,
    chunkIndex: int,
    startPos: int,
    endPos: int,
    embedding: seq<real>)

  // ---------------------------------------------------------------------------
  // Sentence splitting
  // ---------------------------------------------------------------------------

  /** `e` ends in a run of `[.!?]` followed by a run of whitespace that reaches its end. */
  ghost predicate EndsWithBreak(e: string) {
    exists j :: 0 < j < |e| && IsTerminal(e[j - 1]) && Blank(e[j..])
  }

  /**
   * The end of the match of `[.!?]+\s+` that starts at `i`, if one does.
   * Both runs are greedy, so the match takes the whole run of punctuation and
   * the whole run of whitespace after it.
   */
  function BreakAt(s: string, i: nat): (r: Option<nat>)
    requires i <= |s|
    ensures r.Some? ==> i + 2 <= r.value <= |s|
  {
    if i < |s| && IsTerminal(s[i]) then
      var j := TerminalRunEnd(s, i);
      if j < |s| && IsSpace(s[j]) then Some(SpaceRunEnd(s, j)) else None
    else None
  }

  /** A match found at `i` ends in whitespace, and the text goes on with a non-space. */
  lemma BreakAtSpec(s: string, i: nat)
    requires i <= |s|
    ensures var r := BreakAt(s, i);
      r.Some? ==> (r.value < |s| ==> !IsSpace(s[r.value])) && EndsWithBreak(s[..r.value])
  {
    if i < |s| && IsTerminal(s[i]) {
      var j := TerminalRunEnd(s, i);
      if j < |s| && IsSpace(s[j]) {
        var k := SpaceRunEnd(s, j);
        SpaceRunEndSpec(s, j);
        TerminalRunEndSpec(s, i);
        assert s[..k][j..] == s[j..k];
        assert s[..k][j - 1] == s[j - 1];
      }
    }
  }

  /** The end of the leftmost sentence break at or after `i`, as `re.split` finds it. */
  function FirstBreak(s: string, i: nat): (r: Option<nat>)
    requires i <= |s|
    ensures r.Some? ==> i + 2 <= r.value <= |s|
    decreases |s| - i
  {
    if i == |s| then None
    else match BreakAt(s, i)
      case Some(k) => Some(k)
      case None => FirstBreak(s, i + 1)
  }

  /** The break found is a match of the pattern, and no match is missed when none is found. */
  lemma {:induction false} FirstBreakSpec(s: string, i: nat)
    requires i <= |s|
    ensures var r := FirstBreak(s, i);
      && (r.Some? ==> r.value < |s| ==> !IsSpace(s[r.value]))
      && (r.Some? ==> EndsWithBreak(s[..r.value]))
      && (r.Some? ==> exists p :: i <= p <= |s| && BreakAt(s, p) == r)
      && (r.None? ==> forall p :: i <= p <= |s| ==> BreakAt(s, p).None?)
    decreases |s| - i
  {
    if i < |s| {
      BreakAtSpec(s, i);
      if BreakAt(s, i).None? {
        FirstBreakSpec(s, i + 1);
      }
    }
  }

  /** The text holds no `[.!?]+\s+` at all. */
  predicate NoBreak(s: string) {
    forall p :: 0 <= p <= |s| ==> BreakAt(s, p).None?
  }

  /** Every match of `[.!?]+\s+` inside `e` runs to its end: `e` is never cut before it ends. */
  predicate WholeSentence(e: string) {
    forall i :: 0 <= i < |e| && BreakAt(e, i).Some? ==> BreakAt(e, i).value == |e|
  }

  /** Where the leftmost break found from `i` starts, with no match before it. */
  lemma {:induction false} FirstBreakAt(s: string, i: nat) returns (p: nat)
    requires i <= |s| && FirstBreak(s, i).Some?
    ensures i <= p < |s| && BreakAt(s, p) == FirstBreak(s, i)
    ensures forall q :: i <= q < p ==> BreakAt(s, q).None?
    decreases |s| - i
  {
    if BreakAt(s, i).Some? {
      p := i;
    } else {
      p := FirstBreakAt(s, i + 1);
    }
  }

  /** Before the first match, the first sentence holds no match either. */
  lemma BreakBeforeFirst(s: string, p: nat, k: nat, i: nat)
    requires i < p < k <= |s| && BreakAt(s, p) == Some(k)
    requires forall q :: 0 <= q < p ==> BreakAt(s, q).None?
    ensures BreakAt(s[..k], i).None?
  {
    assert s[..k][i] == s[i];
    if IsTerminal(s[i]) {
      var j := TerminalRunEnd(s, i);
      TerminalRunShared(s, i);
      TerminalRunEndSpec(s, i);
      assert BreakAt(s, i).None?;
      var jp := TerminalRunEnd(s, p);
      assert p <= j ==> jp == j;
      assert j < p;
      TerminalRunEndPrefix(s, i, k);
      assert s[..k][j] == s[j];
    }
  }

  /** From the first match on, the first sentence matches only up to its end. */
  lemma BreakInFirst(s: string, p: nat, k: nat, i: nat)
    requires p <= i < k <= |s| && BreakAt(s, p) == Some(k)
    ensures BreakAt(s[..k], i) == if i < TerminalRunEnd(s, p) then Some(k) else None
  {
    var e := s[..k];
    var jp := TerminalRunEnd(s, p);
    TerminalRunShared(s, p);
    SpaceRunEndSpec(s, jp);
    assert e[i] == s[i];
    if i < jp {
      TerminalRunEndPrefix(s, i, k);
      SpaceRunEndPrefix(s, jp, k);
      assert e[jp] == s[jp];
    } else {
      assert IsSpace(s[i]);
    }
  }

  /** The first sentence is whole: its only match is the one that ends it. */
  lemma FirstSentenceWhole(text: string, k: nat)
    requires FirstBreak(text, 0) == Some(k)
    ensures k <= |text| && WholeSentence(text[..k])
  {
    var p := FirstBreakAt(text, 0);
    forall i | 0 <= i < k && BreakAt(text[..k], i).Some? ensures BreakAt(text[..k], i).value == k {
      if i < p {
        BreakBeforeFirst(text, p, k, i);
      } else {
        BreakInFirst(text, p, k, i);
      }
    }
  }

  /**
   * `split_into_sentences`: cut after every match of `[.!?]+\s+`, keep the
   * separator on the piece before it, and drop blank pieces.
   */
  function SplitIntoSentences(text: string): seq<string>
    decreases |text|
  {
    FirstBreakSpec(text, 0);
    match FirstBreak(text, 0)
    case None => if Blank(text) then [] else [text]
    case Some(k) => [text[..k]] + SplitIntoSentences(text[k..])
  }

  /**
   * The sentences are exactly the text cut after each break: nothing at all
   * for blank text, otherwise pieces that concatenate back to the text, none
   * blank, every piece but the last ending in a break, no piece holding a
   * break before its end, and every piece but the first starting with a
   * non-space; text without a break is one piece.
   */
  lemma {:induction false} SplitSpec(text: string)
    ensures var r := SplitIntoSentences(text);
      && (Blank(text) <==> r == [])
      && (!Blank(text) ==> Concat(r) == text)
      && (forall j :: 0 <= j < |r| ==> !Blank(r[j]))
      && (forall j :: 0 <= j < |r| - 1 ==> EndsWithBreak(r[j]))
      && (forall j :: 0 <= j < |r| ==> WholeSentence(r[j]))
      && (forall j :: 0 < j < |r| ==> r[j] != [] && !IsSpace(r[j][0]))
      && (NoBreak(text) && !Blank(text) ==> r == [text])
    decreases |text|
  {
    FirstBreakSpec(text, 0);
    match FirstBreak(text, 0)
    case None =>
      assert Concat([text]) == text + Concat([]);
    case Some(k) =>
      var rest := SplitIntoSentences(text[k..]);
      SplitSpec(text[k..]);
      SplitStep(text, k, rest);
      FirstSentenceWhole(text, k);
      var r := [text[..k]] + rest;
      forall j | 0 < j < |r| ensures WholeSentence(r[j]) {
        assert r[j] == rest[j - 1];
      }
  }

  /** One step of the splitter: the first sentence up to the first break, then the rest. */
  lemma SplitStep(text: string, k: nat, rest: seq<string>)
    requires 2 <= k <= |text|
    requires k < |text| ==> !IsSpace(text[k])
    requires EndsWithBreak(text[..k])
    requires FirstBreak(text, 0) == Some(k)
    requires Blank(text[k..]) <==> rest == []
    requires !Blank(text[k..]) ==> Concat(rest) == text[k..]
    requires forall j :: 0 <= j < |rest| ==> !Blank(rest[j])
    requires forall j :: 0 <= j < |rest| - 1 ==> EndsWithBreak(rest[j])
    requires forall j :: 0 < j < |rest| ==> rest[j] != [] && !IsSpace(rest[j][0])
    ensures var r := [text[..k]] + rest;
      && !Blank(text) && !NoBreak(text)
      && Concat(r) == text
      && (forall j :: 0 <= j < |r| ==> !Blank(r[j]))
      && (forall j :: 0 <= j < |r| - 1 ==> EndsWithBreak(r[j]))
      && (forall j :: 0 < j < |r| ==> r[j] != [] && !IsSpace(r[j][0]))
  {
    var r := [text[..k]] + rest;
    FirstBreakSpec(text, 0);
    FirstSentenceNonBlank(text, k);
    SplitConcat(text, k, rest);
    forall i | 0 <= i < |r| ensures !Blank(r[i]) {
      if i > 0 { assert r[i] == rest[i - 1]; }
    }
    forall i | 0 <= i < |r| - 1 ensures EndsWithBreak(r[i]) {
      if i > 0 { assert r[i] == rest[i - 1]; }
    }
    forall i | 0 < i < |r| ensures r[i] != [] && !IsSpace(r[i][0]) {
      assert r[i] == rest[i - 1];
      if i == 1 {
        assert !Blank(text[k..]) && k < |text|;
        assert rest[0] != [];
        assert Concat(rest)[0] == rest[0][0];
        assert text[k..][0] == text[k];
      }
    }
  }

  lemma FirstSentenceNonBlank(text: string, k: nat)
    requires k <= |text| && EndsWithBreak(text[..k])
    ensures !Blank(text[..k]) && !Blank(text)
  {
    var j :| 0 < j < |text[..k]| && IsTerminal(text[..k][j - 1]) && Blank(text[..k][j..]);
    assert !IsSpace(text[..k][j - 1]);
    assert !IsSpace(text[j - 1]);
  }

  lemma SplitConcat(text: string, k: nat, rest: seq<string>)
    requires k <= |text|
    requires k < |text| ==> !IsSpace(text[k])
    requires Blank(text[k..]) <==> rest == []
    requires !Blank(text[k..]) ==> Concat(rest) == text[k..]
    ensures Concat([text[..k]] + rest) == text
  {
    assert ([text[..k]] + rest)[1..] == rest;
    if k == |text| {
      assert text[k..] == [];
    } else {
      assert !Blank(text[k..]) by { assert text[k..][0] == text[k]; }
      assert text[..k] + text[k..] == text;
    }
  }

  // ---------------------------------------------------------------------------
  // Overlap text
  // ---------------------------------------------------------------------------

  /** Start index of Python's slice `text[-k:]` on a string of length `n`, for any integer `k`. */
  function NegativeSliceStart(n: nat, k: int): (i: nat)
    ensures i <= n
    ensures 0 < k <= n ==> i == n - k
    ensures k > n ==> i == 0
    ensures k == 0 ==> i == 0
    ensures k < 0 ==> i == (if -k <= n then -k else n)
  {
    if k > 0 then (if k <= n then n - k else 0)
    else if -k <= n then -k
    else n
  }

  /** Index of the first space in `text` at or after `from`, or `|text|` when there is none. */
  function SpaceFrom(text: string, from: nat): (p: nat)
    requires from <= |text|
    ensures from <= p <= |text|
    decreases |text| - from
  {
    if from == |text| || text[from] == ' ' then from else SpaceFrom(text, from + 1)
  }

  /** `SpaceFrom` finds the first space at or after `from`, or reports the end of the text. */
  lemma {:induction false} SpaceFromSpec(text: string, from: nat)
    requires from <= |text|
    ensures var p := SpaceFrom(text, from);
      && (p < |text| ==> text[p] == ' ')
      && (forall i :: from <= i < p ==> text[i] != ' ')
    decreases |text| - from
  {
    if from < |text| && text[from] != ' ' {
      SpaceFromSpec(text, from + 1);
    }
  }

  /**
   * `get_overlap_text`: the last `overlapSize` characters, cut back to the
   * first space in them when that space is not their first character.
   * `raw.find(' ')` on the tail `raw = text[start..]` is the first space at or
   * after `start`, counted from `start`.
   */
  function OverlapText(text: string, overlapSize: int): string {
    if |text| <= overlapSize then text
    else
      var start := NegativeSliceStart(|text|, overlapSize);
      var p := SpaceFrom(text, start);
      if start < p < |text| then text[p..] else text[start..]
  }

  /**
   * The overlap is a suffix of the text: the whole text when it is short,
   * otherwise at most `overlapSize` characters, shortened exactly when the
   * last `overlapSize` characters hold a space after their first one, and
   * then starting at the first such space.
   */
  lemma OverlapTextSpec(text: string, overlapSize: int)
    ensures var r := OverlapText(text, overlapSize);
      && |r| <= |text| && r == text[|text| - |r|..]
      && (|text| <= overlapSize ==> r == text)
      && (0 < overlapSize < |text| ==> |r| <= overlapSize)
      && (0 < overlapSize < |text| ==>
           (|r| == overlapSize <==>
             (text[|text| - overlapSize] == ' ' || forall i :: |text| - overlapSize <= i < |text| ==> text[i] != ' ')))
      && (0 < overlapSize < |text| && |r| < overlapSize ==>
           0 < |r| && r[0] == ' ' && forall i :: |text| - overlapSize <= i < |text| - |r| ==> text[i] != ' ')
  {
    if |text| > overlapSize {
      var start := NegativeSliceStart(|text|, overlapSize);
      SpaceFromSpec(text, start);
    }
  }

  // ---------------------------------------------------------------------------
  // Chunk records and the greedy packer
  // ---------------------------------------------------------------------------

  /** `create_chunk`: a chunk that copies the essay's citation fields. */
  function CreateChunk(text: string, essay: Essay, chunkIndex: int, startPos: int, endPos: int): Chunk {
    Chunk(text, essay.title, essay.filename, essay.url, essay.textId, chunkIndex, startPos, endPos, [])
  }

  /**
   * One raw buffer of the packer: the overlap text it was seeded with,
   * followed by the sentences appended to it.
   */
  datatype Buffer = Buffer(overlap: string, sentences: seq<string>) {
    function Raw(): string {
      overlap + Concat(sentences)
    }
  }

  /** All sentences of the buffers, in order, without the overlap seeds. */
  function Flatten(bufs: seq<Buffer>): seq<string> {
    if bufs == [] then [] else Flatten(bufs[..|bufs| - 1]) + bufs[|bufs| - 1].sentences
  }

  /** The buffers' text with each overlap seed dropped. */
  function FreshText(bufs: seq<Buffer>): string {
    if bufs == [] then [] else FreshText(bufs[..|bufs| - 1]) + Concat(bufs[|bufs| - 1].sentences)
  }

  /** While a buffer grows, every sentence it takes in after the first fits the budget (or the buffer was empty). */
  ghost predicate Fits(b: Buffer, chunkSize: int) {
    forall m :: 0 < m < |b.sentences| ==>
      var before := b.overlap + Concat(b.sentences[..m]);
      before == [] || |before| + |b.sentences[m]| <= chunkSize
  }

  /** `next` was opened because `prev` was non-empty and its next sentence overflowed the budget. */
  ghost predicate Closes(prev: Buffer, next: Buffer, chunkSize: int, overlap: int)
    requires next.sentences != []
  {
    && prev.Raw() != []
    && |prev.Raw()| + |next.sentences[0]| > chunkSize
    && next.overlap == OverlapText(prev.Raw(), overlap)
  }

  /** Buffer `b` may follow the buffers `before` in the packer's output. */
  ghost predicate Follows(before: seq<Buffer>, b: Buffer, chunkSize: int, overlap: int) {
    && b.sentences != []
    && Fits(b, chunkSize)
    && (before == [] ==> b.overlap == [])
    && (before != [] ==> Closes(before[|before| - 1], b, chunkSize, overlap))
  }

  /** The buffers are exactly those the greedy packer builds, each following the ones before it. */
  ghost predicate Packed(bufs: seq<Buffer>, chunkSize: int, overlap: int)
    decreases |bufs|
  {
    bufs == [] ||
    (Packed(bufs[..|bufs| - 1], chunkSize, overlap) && Follows(bufs[..|bufs| - 1], bufs[|bufs| - 1], chunkSize, overlap))
  }

  /**
   * Where the packer places buffer `j`: it starts at 0 and each later buffer
   * starts one opening sentence further on (the overlap seed is not counted).
   */
  function StartOf(bufs: seq<Buffer>, j: nat): int
    requires j < |bufs|
  {
    if j == 0 then 0
    else StartOf(bufs, j - 1) + (if bufs[j].sentences == [] then 0 else |bufs[j].sentences[0]|)
  }

  /** The chunk the packer emits for buffer `j`: stripped, numbered `j`, placed at `StartOf(bufs, j)` and spanning the raw buffer. */
  function ChunkFor(bufs: seq<Buffer>, j: nat, essay: Essay): Chunk
    requires j < |bufs|
  {
    var start := StartOf(bufs, j);
    CreateChunk(Strip(bufs[j].Raw()), essay, j, start, start + |bufs[j].Raw()|)
  }

  /** The chunks are emitted one per buffer, in order. */
  ghost predicate ChunksOf(chunks: seq<Chunk>, bufs: seq<Buffer>, essay: Essay)
    decreases |chunks|
  {
    && |chunks| == |bufs|
    && (chunks != [] ==>
          && ChunksOf(chunks[..|chunks| - 1], bufs[..|bufs| - 1], essay)
          && chunks[|chunks| - 1] == ChunkFor(bufs, |bufs| - 1, essay))
  }

  /** The packer's variables between two sentences: the chunks so far, the open text and where it starts. */
  datatype Packer = Packer(chunks: seq<Chunk>, current: string, currentPos: int)

  /** One turn of the packer's loop: close the open text on an overflowing sentence, or append the sentence. */
  function PackStep(p: Packer, sentence: string, essay: Essay, chunkSize: int, overlap: int): Packer {
    if |p.current| + |sentence| > chunkSize && p.current != "" then
      var chunk := CreateChunk(Strip(p.current), essay, |p.chunks|, p.currentPos, p.currentPos + |p.current|);
      var overlapText := OverlapText(p.current, overlap);
      var current := overlapText + sentence;
      Packer(p.chunks + [chunk], current, p.currentPos + |current| - |overlapText|)
    else
      Packer(p.chunks, p.current + sentence, p.currentPos)
  }

  /** The packer after the sentences `ss`, one turn each. */
  function Pack(ss: seq<string>, essay: Essay, chunkSize: int, overlap: int): Packer
    decreases |ss|
  {
    if ss == [] then Packer([], "", 0)
    else PackStep(Pack(ss[..|ss| - 1], essay, chunkSize, overlap), ss[|ss| - 1], essay, chunkSize, overlap)
  }

  /** After the loop the open text becomes the last chunk unless it is blank. */
  function Flush(p: Packer, essay: Essay): seq<Chunk> {
    if Strip(p.current) != "" then
      p.chunks + [CreateChunk(Strip(p.current), essay, |p.chunks|, p.currentPos, p.currentPos + |p.current|)]
    else p.chunks
  }

  /** `chunk_text` as a function of its inputs. */
  function ChunksOfEssay(essay: Essay, chunkSize: int, overlap: int): seq<Chunk> {
    Flush(Pack(SplitIntoSentences(essay.content), essay, chunkSize, overlap), essay)
  }

  /** One turn of the packer on its buffers: close the open buffer and seed a new one, or extend it. */
  ghost function BufferStep(closed: seq<Buffer>, open: Buffer, s: string, chunkSize: int, overlap: int): (seq<Buffer>, Buffer) {
    if |open.Raw()| + |s| > chunkSize && open.Raw() != "" then
      (closed + [open], Buffer(OverlapText(open.Raw(), overlap), [s]))
    else
      (closed, Buffer(open.overlap, open.sentences + [s]))
  }

  /** The closed buffers and the open one after the sentences `ss`, following the packer's turns. */
  ghost function PackBuffers(ss: seq<string>, chunkSize: int, overlap: int): (seq<Buffer>, Buffer)
    decreases |ss|
  {
    if ss == [] then ([], Buffer("", []))
    else
      var (closed, open) := PackBuffers(ss[..|ss| - 1], chunkSize, overlap);
      BufferStep(closed, open, ss[|ss| - 1], chunkSize, overlap)
  }

  /** The raw buffers behind the chunks of `chunk_text`. */
  ghost function BuffersOfEssay(essay: Essay, chunkSize: int, overlap: int): seq<Buffer> {
    var (closed, open) := PackBuffers(SplitIntoSentences(essay.content), chunkSize, overlap);
    if Strip(open.Raw()) != "" then closed + [open] else closed
  }

  /**
   * `chunk_text`: pack the essay's sentences greedily into buffers of at most
   * `chunkSize` characters (a sentence is never cut), seed each new buffer
   * with the overlap text of the one just closed, and emit one chunk per
   * buffer. What the chunks satisfy is `ChunkTextCorrect`.
   */
  method ChunkText(essay: Essay, chunkSize: int, overlap: int) returns (chunks: seq<Chunk>)
    ensures chunks == ChunksOfEssay(essay, chunkSize, overlap)
  {
    var sentences := SplitIntoSentences(essay.content);
    var current, currentPos, chunkIndex;
    chunks, current, currentPos, chunkIndex := PackSentences(sentences, essay, chunkSize, overlap);
    if Strip(current) != "" {
      var chunk := CreateChunk(Strip(current), essay, chunkIndex, currentPos, currentPos + |current|);
      chunks := chunks + [chunk];
    }
  }

  /**
   * One turn of the loop of `chunk_text`, on the loop's own variables
   * (`chunk_index` included). `PackStep` is its specification on `Packer`
   * values, which the lemmas about the packer are stated with; this method
   * is the step the loop runs.
   */
  method PackSentence(chunks: seq<Chunk>, current: string, currentPos: int, chunkIndex: int,
                      sentence: string, essay: Essay, chunkSize: int, overlap: int)
    returns (chunks': seq<Chunk>, current': string, currentPos': int, chunkIndex': int)
    requires chunkIndex == |chunks|
    ensures Packer(chunks', current', currentPos') == PackStep(Packer(chunks, current, currentPos), sentence, essay, chunkSize, overlap)
    ensures chunkIndex' == |chunks'|
  {
    if |current| + |sentence| > chunkSize && current != "" {
      var chunk := CreateChunk(Strip(current), essay, chunkIndex, currentPos, currentPos + |current|);
      chunks' := chunks + [chunk];
      chunkIndex' := chunkIndex + 1;
      var overlapText := OverlapText(current, overlap);
      current' := overlapText + sentence;
      currentPos' := currentPos + |current'| - |overlapText|;
    } else {
      chunks', current', currentPos', chunkIndex' := chunks, current + sentence, currentPos, chunkIndex;
    }
  }

  /**
   * The loop of `chunk_text`: the chunks closed so far, the open buffer, its
   * start position and the next chunk index after every sentence.
   */
  method PackSentences(sentences: seq<string>, essay: Essay, chunkSize: int, overlap: int)
    returns (chunks: seq<Chunk>, current: string, currentPos: int, chunkIndex: int)
    ensures var p := Pack(sentences, essay, chunkSize, overlap);
      p.chunks == chunks && p.current == current && p.currentPos == currentPos
    ensures chunkIndex == |chunks|
  {
    chunks := [];
    current := "";
    currentPos := 0;
    chunkIndex := 0;
    ghost var p := Packer([], "", 0);
    for i := 0 to |sentences|
      invariant chunkIndex == |chunks|
      invariant p == Pack(sentences[..i], essay, chunkSize, overlap)
      invariant p == Packer(chunks, current, currentPos)
    {
      PackOneMore(sentences, i, essay, chunkSize, overlap);
      p := PackStep(p, sentences[i], essay, chunkSize, overlap);
      chunks, current, currentPos, chunkIndex := PackSentence(chunks, current, currentPos, chunkIndex, sentences[i], essay, chunkSize, overlap);
    }
    assert sentences[..|sentences|] == sentences;
  }

  /**
   * What the packer promises: its buffers hold the essay's sentences in
   * order, each was packed greedily and seeded with its predecessor's
   * overlap, the chunks are those buffers stripped and numbered, and no
   * chunk is empty.
   */
  lemma ChunkTextCorrect(essay: Essay, chunkSize: int, overlap: int)
    ensures var chunks := ChunksOfEssay(essay, chunkSize, overlap);
            var bufs := BuffersOfEssay(essay, chunkSize, overlap);
            && Flatten(bufs) == SplitIntoSentences(essay.content)
            && Packed(bufs, chunkSize, overlap)
            && ChunksOf(chunks, bufs, essay)
            && (forall j :: 0 <= j < |chunks| ==> chunks[j].chunkIndex == j && chunks[j].text != [])
            && (chunks == [] <==> Blank(essay.content))
            && (!Blank(essay.content) ==> FreshText(bufs) == essay.content)
  {
    var sentences := SplitIntoSentences(essay.content);
    PackAll(essay, chunkSize, overlap, sentences);
    var (closed, open) := PackBuffers(sentences, chunkSize, overlap);
    Finish(essay, chunkSize, overlap, sentences, Pack(sentences, essay, chunkSize, overlap), closed, open);
  }

  /** After all the sentences, the packer and its buffers are in step. */
  lemma PackAll(essay: Essay, chunkSize: int, overlap: int, sentences: seq<string>)
    ensures var p := Pack(sentences, essay, chunkSize, overlap);
            var (closed, open) := PackBuffers(sentences, chunkSize, overlap);
            Progress(essay, chunkSize, overlap, sentences, |sentences|, p.chunks, p.current, p.currentPos, closed, open)
  {
    PackProgress(essay, chunkSize, overlap, sentences, |sentences|);
    assert sentences[..|sentences|] == sentences;
  }

  /** The end of `chunk_text`: the open buffer becomes the last chunk unless it is blank. */
  lemma Finish(essay: Essay, chunkSize: int, overlap: int, sentences: seq<string>, p: Packer, closed: seq<Buffer>, open: Buffer)
    requires sentences == SplitIntoSentences(essay.content)
    requires Progress(essay, chunkSize, overlap, sentences, |sentences|, p.chunks, p.current, p.currentPos, closed, open)
    ensures var chunks := Flush(p, essay);
            var bufs := if Strip(open.Raw()) != "" then closed + [open] else closed;
            && Flatten(bufs) == SplitIntoSentences(essay.content)
            && Packed(bufs, chunkSize, overlap)
            && ChunksOf(chunks, bufs, essay)
            && (forall j :: 0 <= j < |chunks| ==> chunks[j].chunkIndex == j && chunks[j].text != [])
            && (chunks == [] <==> Blank(essay.content))
            && (!Blank(essay.content) ==> FreshText(bufs) == essay.content)
  {
    SplitSpec(essay.content);
    assert sentences[..|sentences|] == sentences;
    Conclude(essay, chunkSize, overlap, sentences, p, closed, open);
  }

  /** The end of the loop, from the packer's state after the last sentence. */
  lemma Conclude(essay: Essay, chunkSize: int, overlap: int, sentences: seq<string>, p: Packer, closed: seq<Buffer>, open: Buffer)
    requires Blank(essay.content) <==> sentences == []
    requires !Blank(essay.content) ==> Concat(sentences) == essay.content
    requires forall k :: 0 <= k < |sentences| ==> !Blank(sentences[k])
    requires Flatten(closed) + open.sentences == sentences
    requires sentences == [] ==> closed == [] && open == Buffer("", [])
    requires p.current == open.Raw() && p.currentPos == StartOf(closed + [open], |closed|)
    requires Packed(closed, chunkSize, overlap) && (sentences != [] ==> Follows(closed, open, chunkSize, overlap))
    requires ChunksOf(p.chunks, closed, essay)
    ensures var chunks := Flush(p, essay);
            var bufs := if Strip(open.Raw()) != "" then closed + [open] else closed;
            && Flatten(bufs) == sentences
            && Packed(bufs, chunkSize, overlap)
            && ChunksOf(chunks, bufs, essay)
            && (forall j :: 0 <= j < |chunks| ==> chunks[j].chunkIndex == j && chunks[j].text != [])
            && (chunks == [] <==> Blank(essay.content))
            && (!Blank(essay.content) ==> FreshText(bufs) == essay.content)
  {
    StripSpec(p.current);
    if Strip(p.current) != "" {
      FinishWithChunk(essay, chunkSize, overlap, sentences, p.chunks, p.current, p.currentPos, closed, open);
    } else {
      FinishWithoutChunk(essay, chunkSize, overlap, sentences, p.chunks, p.current, closed, open);
    }
  }

  /** Packing one more sentence is one more turn of the packer. */
  lemma PackOneMore(ss: seq<string>, i: nat, essay: Essay, chunkSize: int, overlap: int)
    requires i < |ss|
    ensures Pack(ss[..i + 1], essay, chunkSize, overlap) == PackStep(Pack(ss[..i], essay, chunkSize, overlap), ss[i], essay, chunkSize, overlap)
  {
    assert ss[..i + 1][..i] == ss[..i];
  }

  /** After every prefix of the sentences, the packer and its buffers are in step. */
  lemma {:induction false} PackProgress(essay: Essay, chunkSize: int, overlap: int, sentences: seq<string>, i: nat)
    requires i <= |sentences|
    ensures var p := Pack(sentences[..i], essay, chunkSize, overlap);
            var (closed, open) := PackBuffers(sentences[..i], chunkSize, overlap);
            Progress(essay, chunkSize, overlap, sentences, i, p.chunks, p.current, p.currentPos, closed, open)
  {
    if i == 0 {
      assert sentences[..0] == [];
    } else {
      var k := i - 1;
      PackProgress(essay, chunkSize, overlap, sentences, k);
      var p := Pack(sentences[..k], essay, chunkSize, overlap);
      var (closed, open) := PackBuffers(sentences[..k], chunkSize, overlap);
      StepProgress(essay, chunkSize, overlap, sentences, k, p, closed, open);
      PackOneMore(sentences, k, essay, chunkSize, overlap);
      BuffersOneMore(sentences, k, chunkSize, overlap);
    }
  }

  /** Buffering one more sentence is one more close-or-extend step. */
  lemma BuffersOneMore(ss: seq<string>, i: nat, chunkSize: int, overlap: int)
    requires i < |ss|
    ensures var (closed, open) := PackBuffers(ss[..i], chunkSize, overlap);
            PackBuffers(ss[..i + 1], chunkSize, overlap) == BufferStep(closed, open, ss[i], chunkSize, overlap)
  {
    assert ss[..i + 1][..i] == ss[..i];
  }

  /** One turn of the packer and of its buffers keeps them in step. */
  lemma StepProgress(essay: Essay, chunkSize: int, overlap: int, sentences: seq<string>, i: nat,
                     p: Packer, closed: seq<Buffer>, open: Buffer)
    requires i < |sentences|
    requires Progress(essay, chunkSize, overlap, sentences, i, p.chunks, p.current, p.currentPos, closed, open)
    ensures var q := PackStep(p, sentences[i], essay, chunkSize, overlap);
            var (closed', open') := BufferStep(closed, open, sentences[i], chunkSize, overlap);
            Progress(essay, chunkSize, overlap, sentences, i + 1, q.chunks, q.current, q.currentPos, closed', open')
  {
    if |p.current| + |sentences[i]| > chunkSize && p.current != "" {
      CloseStep(essay, chunkSize, overlap, sentences, i, p.chunks, p.current, p.currentPos, closed, open);
    } else {
      GrowStep(essay, chunkSize, overlap, sentences, i, p.chunks, p.current, p.currentPos, closed, open);
    }
  }

  /**
   * What `ChunkText` knows after `i` sentences: the emitted chunks are those
   * of the closed buffers, `current` is the raw text of the open buffer, and
   * `currentPos` is where the open buffer starts.
   */
  ghost predicate Progress(essay: Essay, chunkSize: int, overlap: int, sentences: seq<string>, i: nat,
                           chunks: seq<Chunk>, current: string, currentPos: int, closed: seq<Buffer>, open: Buffer)
  {
    && i <= |sentences|
    && current == open.Raw()
    && Flatten(closed) + open.sentences == sentences[..i]
    && (i == 0 ==> closed == [] && open == Buffer("", []))
    && Packed(closed, chunkSize, overlap)
    && (i > 0 ==> Follows(closed, open, chunkSize, overlap))
    && ChunksOf(chunks, closed, essay)
    && currentPos == StartOf(closed + [open], |closed|)
  }

  /** The step that closes the open buffer on an overflowing sentence and opens a seeded one. */
  lemma CloseStep(essay: Essay, chunkSize: int, overlap: int, sentences: seq<string>, i: nat,
                  chunks: seq<Chunk>, current: string, currentPos: int, closed: seq<Buffer>, open: Buffer)
    requires Progress(essay, chunkSize, overlap, sentences, i, chunks, current, currentPos, closed, open)
    requires i < |sentences| && |current| + |sentences[i]| > chunkSize && current != ""
    ensures var ov := OverlapText(current, overlap);
            Progress(essay, chunkSize, overlap, sentences, i + 1,
                     chunks + [CreateChunk(Strip(current), essay, |chunks|, currentPos, currentPos + |current|)],
                     ov + sentences[i], currentPos + |ov + sentences[i]| - |ov|,
                     closed + [open], Buffer(ov, [sentences[i]]))
  {
    var s := sentences[i];
    var ov := OverlapText(current, overlap);
    var next := Buffer(ov, [s]);
    var chunk := CreateChunk(Strip(current), essay, |chunks|, currentPos, currentPos + |current|);
    var closed' := closed + [open];
    TakeOneMore(sentences, i);
    assert open.sentences != [];
    FlattenSnoc(closed, open);
    assert Flatten(closed') + next.sentences == sentences[..i + 1];
    ChunksSnoc(chunks, closed, open, chunk, essay);
    PackedSnoc(closed, open, chunkSize, overlap);
    SeededFollows(closed, open, s, chunkSize, overlap);
    assert next.Raw() == ov + s;
    StartOfNext(closed, open, next);
    assert currentPos + |ov + s| - |ov| == StartOf(closed' + [next], |closed'|);
  }

  /** The step that appends a sentence to the open buffer. */
  lemma GrowStep(essay: Essay, chunkSize: int, overlap: int, sentences: seq<string>, i: nat,
                 chunks: seq<Chunk>, current: string, currentPos: int, closed: seq<Buffer>, open: Buffer)
    requires Progress(essay, chunkSize, overlap, sentences, i, chunks, current, currentPos, closed, open)
    requires i < |sentences| && !(|current| + |sentences[i]| > chunkSize && current != "")
    ensures Progress(essay, chunkSize, overlap, sentences, i + 1, chunks, current + sentences[i], currentPos,
                     closed, Buffer(open.overlap, open.sentences + [sentences[i]]))
  {
    var s := sentences[i];
    TakeOneMore(sentences, i);
    ExtendStep(closed, open, s, chunkSize, overlap);
    StartOfGrow(closed, open, s);
    if open.sentences == [] && closed != [] {
      assert false;
    }
  }

  /** The end of the loop when the open buffer is not blank and becomes the last chunk. */
  lemma FinishWithChunk(essay: Essay, chunkSize: int, overlap: int, sentences: seq<string>,
                        chunks: seq<Chunk>, current: string, currentPos: int, closed: seq<Buffer>, open: Buffer)
    requires !Blank(essay.content) && Concat(sentences) == essay.content
    requires forall k :: 0 <= k < |sentences| ==> !Blank(sentences[k])
    requires Flatten(closed) + open.sentences == sentences
    requires current == open.Raw() && currentPos == StartOf(closed + [open], |closed|)
    requires Packed(closed, chunkSize, overlap) && Follows(closed, open, chunkSize, overlap)
    requires ChunksOf(chunks, closed, essay)
    ensures var all := chunks + [CreateChunk(Strip(current), essay, |chunks|, currentPos, currentPos + |current|)];
            var bufs := closed + [open];
            && Flatten(bufs) == sentences
            && Packed(bufs, chunkSize, overlap)
            && ChunksOf(all, bufs, essay)
            && (forall j :: 0 <= j < |all| ==> all[j].chunkIndex == j && all[j].text != [])
            && FreshText(bufs) == essay.content
  {
    var chunk := CreateChunk(Strip(current), essay, |chunks|, currentPos, currentPos + |current|);
    assert chunk == ChunkFor(closed + [open], |closed|, essay);
    Seal(chunks, closed, open, chunk, essay, chunkSize, overlap);
    FreshTextFlatten(closed + [open]);
  }

  /** Closing the open buffer as the last chunk keeps buffers packed, chunks in step and numbered. */
  lemma Seal(chunks: seq<Chunk>, closed: seq<Buffer>, open: Buffer, chunk: Chunk, essay: Essay, chunkSize: int, overlap: int)
    requires Packed(closed, chunkSize, overlap) && Follows(closed, open, chunkSize, overlap)
    requires ChunksOf(chunks, closed, essay) && chunk == ChunkFor(closed + [open], |closed|, essay)
    requires forall k :: 0 <= k < |Flatten(closed) + open.sentences| ==> !Blank((Flatten(closed) + open.sentences)[k])
    ensures Flatten(closed + [open]) == Flatten(closed) + open.sentences
    ensures Packed(closed + [open], chunkSize, overlap)
    ensures ChunksOf(chunks + [chunk], closed + [open], essay)
    ensures forall j :: 0 <= j < |chunks| + 1 ==> (chunks + [chunk])[j].chunkIndex == j && (chunks + [chunk])[j].text != []
  {
    ChunksSnoc(chunks, closed, open, chunk, essay);
    PackedSnoc(closed, open, chunkSize, overlap);
    FlattenSnoc(closed, open);
    Numbered(chunks + [chunk], closed + [open], essay, chunkSize, overlap);
  }

  /** Chunks emitted one per packed buffer of non-blank sentences are numbered in order and none is empty. */
  lemma Numbered(chunks: seq<Chunk>, bufs: seq<Buffer>, essay: Essay, chunkSize: int, overlap: int)
    requires ChunksOf(chunks, bufs, essay) && Packed(bufs, chunkSize, overlap)
    requires forall k :: 0 <= k < |Flatten(bufs)| ==> !Blank(Flatten(bufs)[k])
    ensures forall j :: 0 <= j < |chunks| ==> chunks[j].chunkIndex == j && chunks[j].text != []
  {
    ChunksOfAt(chunks, bufs, essay);
    PackedNonBlank(bufs, chunkSize, overlap);
    forall j | 0 <= j < |chunks| ensures chunks[j].chunkIndex == j && chunks[j].text != [] {
      StripSpec(bufs[j].Raw());
    }
  }

  /** The end of the loop when the open buffer is blank (or was never opened) and is dropped. */
  lemma FinishWithoutChunk(essay: Essay, chunkSize: int, overlap: int, sentences: seq<string>,
                           chunks: seq<Chunk>, current: string, closed: seq<Buffer>, open: Buffer)
    requires Blank(essay.content) <==> sentences == []
    requires forall k :: 0 <= k < |sentences| ==> !Blank(sentences[k])
    requires Flatten(closed) + open.sentences == sentences
    requires sentences == [] ==> closed == [] && open == Buffer("", [])
    requires current == open.Raw() && Blank(current)
    requires sentences != [] ==> Follows(closed, open, chunkSize, overlap)
    requires ChunksOf(chunks, closed, essay)
    ensures sentences == [] && chunks == [] && closed == []
  {
    if sentences != [] {
      assert sentences[..|sentences|] == sentences;
      OpenedNonBlank(closed, open, sentences, |sentences|);
      assert false;
    }
  }



  // ---------------------------------------------------------------------------
  // Lemmas behind ChunkText
  // ---------------------------------------------------------------------------

  lemma TakeOneMore(xs: seq<string>, i: nat)
    requires i < |xs|
    ensures xs[..i + 1] == xs[..i] + [xs[i]]
  {
  }

  lemma FlattenSnoc(bufs: seq<Buffer>, b: Buffer)
    ensures Flatten(bufs + [b]) == Flatten(bufs) + b.sentences
  {
    assert (bufs + [b])[..|bufs|] == bufs;
  }

  lemma {:induction false} FreshTextFlatten(bufs: seq<Buffer>)
    ensures FreshText(bufs) == Concat(Flatten(bufs))
  {
    if bufs != [] {
      var init := bufs[..|bufs| - 1];
      FreshTextFlatten(init);
      ConcatAppend(Flatten(init), bufs[|bufs| - 1].sentences);
    }
  }

  /** The open buffer holds a sentence and so is not blank. */
  lemma OpenedNonBlank(closed: seq<Buffer>, open: Buffer, sentences: seq<string>, i: nat)
    requires i <= |sentences|
    requires forall j :: 0 <= j < |sentences| ==> !Blank(sentences[j])
    requires Flatten(closed) + open.sentences == sentences[..i]
    requires open.sentences != []
    ensures !Blank(open.Raw())
  {
    var k := |Flatten(closed)|;
    assert open.sentences[0] == sentences[..i][k] == sentences[k];
    assert Concat(open.sentences) == open.sentences[0] + Concat(open.sentences[1..]);
    BlankConcat(open.sentences[0], Concat(open.sentences[1..]));
    BlankConcat(open.overlap, Concat(open.sentences));
  }

  /** Appending a sentence that fits (or any sentence to the empty first buffer) keeps the open buffer well-formed. */
  lemma ExtendStep(closed: seq<Buffer>, open: Buffer, s: string, chunkSize: int, overlap: int)
    requires (open == Buffer("", []) && closed == []) || Follows(closed, open, chunkSize, overlap)
    requires open.Raw() == [] || |open.Raw()| + |s| <= chunkSize
    ensures Follows(closed, Buffer(open.overlap, open.sentences + [s]), chunkSize, overlap)
    ensures Buffer(open.overlap, open.sentences + [s]).Raw() == open.Raw() + s
  {
    var grown := Buffer(open.overlap, open.sentences + [s]);
    var n := |open.sentences|;
    ConcatSnoc(open.sentences, s);
    forall m | 0 < m < |grown.sentences|
      ensures var before := grown.overlap + Concat(grown.sentences[..m]);
              before == [] || |before| + |grown.sentences[m]| <= chunkSize
    {
      if m < n {
        assert grown.sentences[..m] == open.sentences[..m];
        assert grown.sentences[m] == open.sentences[m];
      } else {
        assert grown.sentences[..m] == open.sentences;
        assert grown.sentences[m] == s;
      }
    }
    if open.sentences != [] {
      assert grown.sentences[0] == open.sentences[0];
    }
  }

  /** A buffer that follows the packed ones extends them. */
  lemma PackedSnoc(closed: seq<Buffer>, b: Buffer, chunkSize: int, overlap: int)
    requires Packed(closed, chunkSize, overlap) && Follows(closed, b, chunkSize, overlap)
    ensures Packed(closed + [b], chunkSize, overlap)
  {
    assert (closed + [b])[..|closed|] == closed;
  }

  /** The buffer opened on an overflowing sentence, seeded with the overlap text, follows the one it closes. */
  lemma SeededFollows(closed: seq<Buffer>, open: Buffer, s: string, chunkSize: int, overlap: int)
    requires open.Raw() != [] && |open.Raw()| + |s| > chunkSize
    ensures Follows(closed + [open], Buffer(OverlapText(open.Raw(), overlap), [s]), chunkSize, overlap)
    ensures Buffer(OverlapText(open.Raw(), overlap), [s]).Raw() == OverlapText(open.Raw(), overlap) + s
  {
    assert Concat([s]) == s + Concat([]);
  }

  /** Every buffer of the packer holds a sentence, so none is blank. */
  lemma {:induction false} PackedNonBlank(bufs: seq<Buffer>, chunkSize: int, overlap: int)
    requires Packed(bufs, chunkSize, overlap)
    requires forall k :: 0 <= k < |Flatten(bufs)| ==> !Blank(Flatten(bufs)[k])
    ensures forall j :: 0 <= j < |bufs| ==> !Blank(bufs[j].Raw())
  {
    if bufs != [] {
      var n := |bufs| - 1;
      var init, last := bufs[..n], bufs[n];
      assert init + [last] == bufs;
      FlattenSnoc(init, last);
      LastNonBlank(init, last);
      PackedNonBlank(init, chunkSize, overlap);
      forall j | 0 <= j < |bufs| ensures !Blank(bufs[j].Raw()) {
        if j < n {
          assert bufs[j] == init[j];
        }
      }
    }
  }

  /** When all sentences are non-blank, so are those of the earlier buffers and the last buffer itself. */
  lemma LastNonBlank(init: seq<Buffer>, last: Buffer)
    requires last.sentences != []
    requires forall k :: 0 <= k < |Flatten(init) + last.sentences| ==> !Blank((Flatten(init) + last.sentences)[k])
    ensures forall k :: 0 <= k < |Flatten(init)| ==> !Blank(Flatten(init)[k])
    ensures !Blank(last.Raw())
  {
    var all := Flatten(init) + last.sentences;
    forall k | 0 <= k < |Flatten(init)| ensures !Blank(Flatten(init)[k]) {
      assert Flatten(init)[k] == all[k];
    }
    assert all[..|all|] == all;
    OpenedNonBlank(init, last, all, |all|);
  }


  /** Emitting the chunk of the open buffer keeps chunks and buffers in step. */
  lemma ChunksSnoc(chunks: seq<Chunk>, closed: seq<Buffer>, open: Buffer, chunk: Chunk, essay: Essay)
    requires ChunksOf(chunks, closed, essay)
    requires chunk == ChunkFor(closed + [open], |closed|, essay)
    ensures ChunksOf(chunks + [chunk], closed + [open], essay)
  {
    assert (chunks + [chunk])[..|chunks|] == chunks;
    assert (closed + [open])[..|closed|] == closed;
  }

  /** Chunk `j` is the chunk of buffer `j`, for every `j`. */
  lemma {:induction false} ChunksOfAt(chunks: seq<Chunk>, bufs: seq<Buffer>, essay: Essay)
    requires ChunksOf(chunks, bufs, essay)
    ensures |chunks| == |bufs|
    ensures forall j :: 0 <= j < |chunks| ==> chunks[j] == ChunkFor(bufs, j, essay)
  {
    if chunks != [] {
      var n := |chunks| - 1;
      ChunksOfAt(chunks[..n], bufs[..n], essay);
      assert bufs[..n] + [bufs[n]] == bufs;
      forall j | 0 <= j < n ensures chunks[j] == ChunkFor(bufs, j, essay) {
        assert chunks[..n][j] == chunks[j];
        ChunkForPrefix(bufs[..n], bufs[n], j, essay);
      }
    }
  }

  /** Appending a buffer does not change the chunks of the ones before it. */
  lemma ChunkForPrefix(bufs: seq<Buffer>, b: Buffer, j: nat, essay: Essay)
    requires j < |bufs|
    ensures ChunkFor(bufs + [b], j, essay) == ChunkFor(bufs, j, essay)
  {
    StartOfPrefix(bufs, b, j);
    assert (bufs + [b])[j] == bufs[j];
  }

  /** Appending a buffer does not move the ones before it. */
  lemma {:induction false} StartOfPrefix(bufs: seq<Buffer>, b: Buffer, j: nat)
    requires j < |bufs|
    ensures StartOf(bufs + [b], j) == StartOf(bufs, j)
  {
    if j > 0 {
      StartOfPrefix(bufs, b, j - 1);
      assert (bufs + [b])[j] == bufs[j];
    }
  }

  /** Growing the open buffer keeps its start. */
  lemma StartOfGrow(closed: seq<Buffer>, open: Buffer, s: string)
    ensures StartOf(closed + [Buffer(open.overlap, open.sentences + [s])], |closed|)
         == StartOf(closed + [open], |closed|) + (if open.sentences == [] && closed != [] then |s| else 0)
  {
    var grown := Buffer(open.overlap, open.sentences + [s]);
    var n := |closed|;
    if n > 0 {
      assert (closed + [open])[n] == open && (closed + [grown])[n] == grown;
      assert StartOf(closed + [open], n - 1) == StartOf(closed, n - 1) by {
        StartOfPrefix(closed, open, n - 1);
      }
      assert StartOf(closed + [grown], n - 1) == StartOf(closed, n - 1) by {
        StartOfPrefix(closed, grown, n - 1);
      }
      assert grown.sentences[0] == if open.sentences == [] then s else open.sentences[0];
    }
  }

  /** The buffer opened by a close starts one opening sentence after the one closed. */
  lemma StartOfNext(closed: seq<Buffer>, open: Buffer, next: Buffer)
    requires next.sentences != []
    ensures StartOf(closed + [open] + [next], |closed| + 1) == StartOf(closed + [open], |closed|) + |next.sentences[0]|
  {
    StartOfPrefix(closed + [open], next, |closed|);
  }
}
