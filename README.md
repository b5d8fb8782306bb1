# Chunking, vector index, pause processor and relevance filter

A Dafny model of the four self-contained parts of a retrieval-augmented
question-answering pipeline over Paul Graham's essays:

- **Chunking** (`chunking.dfy`): the sentence splitter for the regex
  `([.!?]+\s+)`, the overlap suffix `get_overlap_text`, `create_chunk`, and
  the greedy packer `chunk_text` with its `current_chunk` / `current_pos` /
  `chunk_index` bookkeeping, modelled as a method with a loop proved equal to
  a packing function, and that function proved lossless, greedy, numbered and
  correctly placed.
- **VectorDb** (`vector_db.dfy`): `SimpleVectorIndex` as a class with the
  fields `embeddings`, `metadata` and `dimension`; `add_embeddings`, `search`
  (a scoring loop and an annotation loop), `save` / `load` over a file store,
  and the three module-level wrappers. Insertion and search are specified by
  functions of the index state; save and load by an encoder and a decoder
  proved to be inverse.
- **PauseProcessor** (`pause_processor.dfy`): `split_sentences` for the regex
  `([.!?]+)`, the counting stages (light, moderate) as loops, the regex
  rewrites of the regular, frequent and maximum stages as one `re.sub`
  scanner over a small pattern language, `add_pauses`, `remove_pauses` and
  `get_pause_scale_description`.
- **Relevance** (`validate_relevance.dfy`): the keyword screen of
  `validate_question_relevance`, the reply parsing of
  `llm_validate_relevance` (the fenced YAML block, the `relevant:` line and
  the `decline_message:` line), and `get_suggested_questions`. The language
  model is a function from prompt to reply, `None` standing for a call that
  raised.
- **Text** (`text.dfy`) holds the Python string operations the four share:
  `strip`, ASCII `lower`, `in`, `find`, `split` and `join`, with their
  properties (for example `sep.join(s.split(sep)) == s`). **Wrappers**
  (`wrappers.dfy`) holds `Option`, `Result` and `Outcome`.

## Model

| member | source | states |
|---|---|---|
| Chunking.BreakAtSpec | utils/chunking.py:71 | a match of `[.!?]+\s+` at `i` takes the whole punctuation run and the whole whitespace run after it, and ends in a break |
| Chunking.FirstBreakSpec | utils/chunking.py:71 | the scanner finds the leftmost match of `[.!?]+\s+`, and none exists when it reports none |
| Chunking.FirstSentenceWhole | utils/chunking.py:71-80 | the first sentence holds no break before the one that ends it |
| Chunking.SplitSpec | utils/chunking.py:60-88 | blank text gives `[]`; otherwise the sentences concatenate back to the text, none is blank, all but the last end in a break, none holds a break before its end (so the text is cut at every break), all but the first start with a non-space, and text without a break is `[text]` |
| Chunking.NegativeSliceStart | utils/chunking.py:105 | start of Python's `text[-k:]` for any integer `k`: `n - k` for `0 < k <= n`, 0 for `k > n` or `k == 0`, and `min(-k, n)` for `k < 0` |
| Chunking.SpaceFromSpec | utils/chunking.py:106 | `find(' ')` finds the first space from the start of the tail, or none |
| Chunking.OverlapTextSpec | utils/chunking.py:90-111 | the overlap is a suffix of the text, the whole text when short, at most `overlap_size` long, cut back exactly when the tail holds a space after its first character, and then starting at that space |
| Chunking.PackSentence | utils/chunking.py:27-45 | one loop turn: close the non-empty buffer on an overflowing sentence and seed the next one with the overlap, or append |
| Chunking.PackSentences | utils/chunking.py:22-45 | the loop leaves exactly the chunks, open buffer and position of the packing function, with `chunk_index == len(chunks)` |
| Chunking.ChunkText | utils/chunking.py:4-58 | `chunk_text` returns the chunks of the packing function, including the flushed last buffer |
| Chunking.ChunkTextCorrect | utils/chunking.py:16-58 | the buffers hold the sentences in order, each packed greedily and seeded with its predecessor's overlap; chunk `j` is buffer `j` stripped, numbered `j`, placed by the `current_pos` rule, never empty; blank content gives no chunks; dropping the overlap seeds gives the content back |
| VectorDb.Put | utils/vector_db.py:88-89 | dict assignment: the key maps to the new value and every other key keeps its value |
| VectorDb.Annotated | utils/vector_db.py:87-89 | a hit is the stored record with `similarity_score` and `rank` set and every other field unchanged |
| VectorDb.AddedSpec | utils/vector_db.py:26-45 | a length mismatch changes nothing and raises; empty lists change nothing; a non-empty call fixes the dimension even when it then raises; a failing call appends nothing; a passing call appends both lists |
| VectorDb.AddedConsistent | utils/vector_db.py:18-45 | insertion keeps the two lists parallel and every stored vector of the index's dimension |
| VectorDb.Similarities | utils/vector_db.py:72-79 | one score per stored vector |
| VectorDb.RankingSpec | utils/vector_db.py:82 | `argsort(...)[::-1]` lists every index once, by non-increasing score |
| VectorDb.TakeCount | utils/vector_db.py:82 | length of Python's slice `[:top_k]` for any integer `top_k`: `min(top_k, n)` when `top_k >= 0`, `max(n + top_k, 0)` when it is negative |
| VectorDb.TopIndicesSpec | utils/vector_db.py:82 | the kept indices are distinct, ranked by non-increasing score, and none left out scores above one kept |
| VectorDb.AnnotateSpec | utils/vector_db.py:85-92 | hit `k` is the record of the `k`-th kept index with its score and rank `k + 1` |
| VectorDb.AnnotateFailed | utils/vector_db.py:86-87 | once a missing record has raised, later indices do not matter |
| VectorDb.SearchRejects | utils/vector_db.py:58-68 | an empty index answers `[]` for any query; a query of the wrong length or of norm zero raises |
| VectorDb.SearchFinds | utils/vector_db.py:71-92 | a search past its checks returns `min(top_k, N)` hits for distinct records, ranked 1, 2, ... by non-increasing score, a zero vector scoring 0.0, none left out scoring above one kept |
| VectorDb.ScoreAll | utils/vector_db.py:72-79 | the scoring loop computes the score list |
| VectorDb.AnnotateAll | utils/vector_db.py:85-92 | the result loop builds the annotated hits |
| VectorDb.ListRoundTrip | utils/vector_db.py:104-111 | a list written item by item reads back, whatever follows it |
| VectorDb.PrefixedRoundTrip | utils/vector_db.py:104-111 | a length-prefixed list reads back, whatever follows it |
| VectorDb.DecodeEncode | utils/vector_db.py:104-133 | loading what was saved gives back the same embeddings, metadata and dimension |
| VectorDb.VectorIndex.constructor | utils/vector_db.py:13-16 | a new index holds no vectors, no records and no dimension |
| VectorDb.VectorIndex.AddEmbeddings | utils/vector_db.py:18-45 | the new state and the outcome are those of the insertion function on the old state |
| VectorDb.VectorIndex.Search | utils/vector_db.py:47-92 | the result is the search function of the index state |
| VectorDb.VectorIndex.Save | utils/vector_db.py:94-111 | the store maps the path to the encoded state, which decodes to the state |
| VectorDb.VectorIndex.Load | utils/vector_db.py:113-135 | a missing path raises `FileNotFoundError`, unreadable contents fail; otherwise a fresh index holding exactly what was saved |
| VectorDb.CreateVectorIndex | utils/vector_db.py:137-150 | an empty index plus one insertion: it fails exactly when that insertion raises, and is consistent otherwise |
| VectorDb.LoadVectorIndex | utils/vector_db.py:152-163 | a missing path raises `FileNotFoundError`, unreadable contents fail; otherwise the loaded index, holding exactly what was saved, paired with its own metadata list |
| VectorDb.SearchVectorIndex | utils/vector_db.py:165-177 | the index's own search |
| VectorDb.SaveLoadSearch | utils/vector_db.py:94-135 | a saved and reloaded index answers every search as the original |
| PauseProcessor.ReSplitConcat | utils/pause_processor.py:122 | the pieces of `re.split(r'([.!?]+)', text)` concatenate back to the text |
| PauseProcessor.SplitSentences | utils/pause_processor.py:119-137 | the rejoin loop computes the sentences |
| PauseProcessor.SentencesNone | utils/pause_processor.py:122-137 | text without `[.!?]` is one sentence, or none when blank |
| PauseProcessor.SentencesSome | utils/pause_processor.py:122-137 | the first sentence ends with the first run of `[.!?]` |
| PauseProcessor.SentencesSpec | utils/pause_processor.py:119-137 | the sentences cover the text up to a blank remainder without `[.!?]`; none is blank; all but the last end with `[.!?]`, which only trails each sentence |
| PauseProcessor.WholeText | utils/pause_processor.py:119-137 | text ending with `[.!?]` is exactly the concatenation of its sentences |
| PauseProcessor.PhaseMod | utils/pause_processor.py:51 | the loop's counter is `(i + 1) % every` |
| PauseProcessor.MarkEvery | utils/pause_processor.py:47-54 | the loop appends each sentence and the mark after every `every`-th one but the last |
| PauseProcessor.MarkedGroups | utils/pause_processor.py:49-54 | that text is the groups of `every` sentences joined by the mark |
| PauseProcessor.GroupsConcat | utils/pause_processor.py:49-54 | the groups glued together are the sentences glued together |
| PauseProcessor.GroupCount | utils/pause_processor.py:51 | there are `1 + (n - 1) / every` groups, so one mark fewer |
| PauseProcessor.AddLightPauses | utils/pause_processor.py:44-54 | the method computes the light stage |
| PauseProcessor.LightSpec | utils/pause_processor.py:44-54 | `" <pause>"` after sentences 3, 6, ... but not the last; removing the marks gives the sentences, which cover the text |
| PauseProcessor.AddModeratePauses | utils/pause_processor.py:56-71 | the method computes the moderate stage |
| PauseProcessor.ModerateSpec | utils/pause_processor.py:58-69 | `" Hmm."` after sentences 2, 4, ... but not the last, then only insertions: the result is no shorter, and deleting every "<pause> " and then every "Well, " gives the `" Hmm."` text back |
| PauseProcessor.InsertAvoids | utils/pause_processor.py:68-115 | an inserting rewrite brings in no character that neither the text nor its marker holds |
| PauseProcessor.FirstWordSpec | utils/pause_processor.py:78 | an alternation takes the first alternative that fits |
| PauseProcessor.NextDotSpec | utils/pause_processor.py:68 | `[^.]*\.` ends at the next dot |
| PauseProcessor.MatchAtSpec | utils/pause_processor.py:68-115 | each pattern matches at a position exactly when a prefix there is in its language, taking such a prefix (the longest for `\s+`) |
| PauseProcessor.NoMatchUnchanged | utils/pause_processor.py:68 | `re.sub` with no match anywhere changes nothing |
| PauseProcessor.LiteralSub | utils/pause_processor.py:98 | replacing a literal is `r.join(s.split(p))`: every occurrence, left to right |
| PauseProcessor.InsertUndone | utils/pause_processor.py:68-115 | an inserting rewrite only adds its marker: deleting the marker gives the text back |
| PauseProcessor.SubLengthens | utils/pause_processor.py:73-117 | a rewrite whose replacement is never shorter never shortens the text |
| PauseProcessor.Untouched | utils/pause_processor.py:73-117 | text without the character a pattern starts with is left as it is |
| PauseProcessor.LaterStagesLengthen | utils/pause_processor.py:73-117 | the regular, frequent and maximum stages never shorten the text |
| PauseProcessor.LaterStagesQuiet | utils/pause_processor.py:73-117 | text without `.`, `?` and `,` passes those stages unchanged |
| PauseProcessor.LaterScalesLonger | utils/pause_processor.py:20-42 | from scale 2 on, scale `n + 1` never gives shorter text than scale `n` |
| PauseProcessor.SqueezeSpec | utils/pause_processor.py:143 | `re.sub(r'\s+', ' ', s)` turns each whitespace run into one plain space: the words (`s.split()`) stay the same, no two spaces are adjacent, and every other character stays in order |
| PauseProcessor.RemovePausesSpec | utils/pause_processor.py:139-145 | the markers are cut out as split and join would, and the result is `" ".join(cut.split())` for that cut text: single-spaced, with no space at either end, and every other character in order |
| PauseProcessor.AddPauses | utils/pause_processor.py:3-42 | a scale outside 0..5 raises; scale 0 is the text; scale `s` applies the stages 1..`s` in order |
| PauseProcessor.ScaleTwoLonger | utils/pause_processor.py:56-71 | a three-sentence text ending with `[.!?]` gets strictly longer at scale 2 |
| PauseProcessor.PauseScaleDescription | utils/pause_processor.py:147-157 | `"Invalid scale"` exactly outside 0..5, the table's entry inside |
| Text.StripSpec | utils/chunking.py:31 | `strip()` removes exactly the leading and trailing whitespace |
| Text.WordsClean | utils/pause_processor.py:143-144 | the words of `split()` are nonempty and hold no whitespace |
| Text.WordsBlankPrefix | utils/pause_processor.py:143-144 | leading whitespace does not change `split()` |
| Text.WordsBlankSuffix | utils/pause_processor.py:143-144 | trailing whitespace does not change `split()` |
| PauseProcessor.SpacedJoin | utils/pause_processor.py:143-144 | single-spaced text with no space at either end is `" ".join` of its own words |
| Text.FindSpec | utils/validate_relevance.py:82 | `find` returns the first occurrence at or after the start, or none exists |
| Text.SplitJoin | utils/validate_relevance.py:90 | `sep.join(s.split(sep)) == s` |
| Text.SplitPieces | utils/validate_relevance.py:90 | no piece contains the separator, and there is more than one piece exactly when the text contains it |
| Text.SplitHead | utils/validate_relevance.py:90 | the first piece runs up to the first separator; the rest are the pieces after it |
| Text.SecondPiece | utils/validate_relevance.py:90 | `split(sep)[1]` runs from the first separator to the next one, or to the end |
| Text.LineEnd | utils/validate_relevance.py:90 | `split("\n")[0]` runs to the first newline, or to the end |
| Relevance.FirstContained | utils/validate_relevance.py:36-43 | the first keyword in list order that occurs in the text, or none occurs |
| Relevance.Screen | utils/validate_relevance.py:33-46 | declined with the first irrelevant keyword's message; any irrelevant keyword declines, even beside a relevant one; otherwise a relevant keyword accepts; otherwise the model decides |
| Relevance.ValidateQuestionRelevance | utils/validate_relevance.py:4-46 | an accepted question carries no message |
| Relevance.HelpfulDeclined | utils/validate_relevance.py:30-38 | keywords match as raw substrings: "helpful" contains "help" and is declined |
| Relevance.FixQuestionDeclined | utils/validate_relevance.py:135 | "How do I fix my computer?" is declined |
| Relevance.LlmValidateRelevance | utils/validate_relevance.py:48-106 | a call that raised accepts; a decline needs a reply; an accepted question carries no message |
| Relevance.YamlBlockSpec | utils/validate_relevance.py:82-87 | the block exists exactly when a fence follows the first "```yaml", and is the stripped text up to the first such fence |
| Relevance.ReadReply | utils/validate_relevance.py:82-101 | no block accepts; an acceptance is `(True, "")`; a decline carries the block's decline message |
| Relevance.FieldLine | utils/validate_relevance.py:90 | `split(key)[1].split("\n")[0]` is the rest of the line after the first key, up to a second key |
| Relevance.ReadReplyNoKey | utils/validate_relevance.py:90-106 | a block without "relevant:" accepts: `split("relevant:")[1]` raises and the handler accepts |
| Relevance.ReadReplyLine | utils/validate_relevance.py:90-99 | relevant exactly when "true" occurs in the rest of the line after the first "relevant:"; otherwise declined with the block's message |
| Relevance.FirstLineWith | utils/validate_relevance.py:97 | the first line holding the key, or none holds it |
| Relevance.DeclineIn | utils/validate_relevance.py:96-101 | no line holding "decline_message:" gives the fixed fallback |
| Relevance.DeclineInLine | utils/validate_relevance.py:97-98 | otherwise the message is the stripped text after the key on the first line holding it |
| Relevance.GetSuggestedQuestions | utils/validate_relevance.py:108-126 | ten questions, each ending with '?' |

## Left out

- Regular expressions are not interpreted: each regex the core uses is a
  hand-written scanner whose matching rule (leftmost, greedy runs, first
  alternative, non-overlapping scan) is stated by a lemma.
- `[A-Z]` and `lower()` are ASCII only: `lower()` leaves every character
  outside `A`-`Z` as it is. `\s` and `strip()` use the full `str.isspace`
  set.
- Default arguments (`chunk_size=500`, `chunk_overlap=100`, `top_k=5`,
  `pause_scale=2`) are not modelled: every operation takes them as explicit
  parameters.
- PauseProcessor.ModerateSpec: the round trip back to the `" Hmm."` text is
  stated only when that text holds no `W` and no `<` at all. This is a
  sufficient condition chosen because it is simple to prove, and it is much
  stronger than needed: it leaves out every essay with a capital `W`
  ("What", "We"). The condition that is really needed is narrower: the
  essay must not already hold "Well, " or "<pause> ", since deleting the
  markers would delete those too. That narrower condition is not proved.
- PauseProcessor.MatchAtSpec: the `[A-Z][^.]*word[^.]*\.` patterns are
  modelled for words without a `.` in them, which covers every word the
  stages use.
- PauseProcessor.LightSpec: the light stage drops a blank remainder after
  the last `[.!?]` run, as the code does; the model follows the code, not
  the "every 3rd sentence ending" wording.
- Relevance.ReadReplyLine: the segment read for "true" also ends at a second
  "relevant:" on the same line, because `split("relevant:")[1]` stops there.
- The language model and the embedding service are left out; the model's
  reply is a function argument, and a call that raises is `None`.
- `print` calls, `os.makedirs` and the pickle byte format are left out;
  save and load use a token format of their own over a map from paths to
  contents.
- Float32 conversion, `np.linalg.norm` and `np.dot` are left out: the
  cosine similarity is a function argument, and only the zero-vector case
  is modelled.
- VectorDb.RankingSpec: the order among equal scores is not promised, since
  `argsort(...)[::-1]` does not fix it; the model keeps the lower index
  first.
- The `__main__` demonstrations are left out, except one: "How do I fix
  my computer?", declined for "fix" (Relevance.FixQuestionDeclined). Four
  other demo questions are accepted by a relevant keyword ("startup ideas",
  "programming language", "scale a business", "good writing"). They are not
  stated, because each would need a proof that none of the irrelevant
  keywords occurs in that exact question. The flu question goes to the
  model. Relevance.HelpfulDeclined is not a demo: it is an extra example
  showing that keywords match as raw substrings.
