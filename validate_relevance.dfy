/**
 * The relevance filter in front of the question-answering pipeline: keyword
 * lists decide the obvious cases, and a language model, consulted through a
 * YAML-formatted reply, decides the rest.
 */
module Relevance {
  import opened Wrappers
  import opened Text

  /** Topics that pass at once when one of them occurs in the question. */
  const RelevantKeywords: seq<string> := [
    "startup", "startups", "entrepreneur", "entrepreneurship", "founder", "founders",
    "programming", "coding", "software", "development", "technology", "tech",
    "business", "company", "venture", "investment", "investor",
    "essay", "writing", "communication", "education", "learning",
    "hacker", "hackers", "lisp", "arc", "y combinator", "ycombinator",
    "innovation", "growth", "scale", "scaling", "productivity"
  ]

  /** Topics that are declined at once, checked before the relevant ones. */
  const IrrelevantKeywords: seq<string> := [
    "medical", "health", "doctor", "medicine", "treatment", "diagnosis",
    "legal", "law", "lawyer", "attorney", "lawsuit", "court",
    "personal", "private", "family", "relationship", "dating",
    "current", "news", "politics", "political", "election", "government",
    "support", "help", "fix", "troubleshoot", "install", "download"
  ]

  /** The verdict: whether the question is relevant, and the message to decline it with. */
  type Verdict = (bool, string)

  const Accepted: Verdict := (true, "")

  /** The message for a question naming the irrelevant topic `keyword`. */
  function DeclineMessage(keyword: string): string {
    DeclineHead + keyword + DeclineTail
  }

  const DeclineHead := "I focus on topics like startups, programming, and essays rather than "
  const DeclineTail := "-related questions. Try asking about entrepreneurship, technology, or writing instead."

  /** The message used when the model declines without giving one. */
  const FallbackDecline :=
    "I focus on topics like startups, programming, and essays. Could you ask about one of those areas instead?"

  /** The index of the first keyword, from `k` on, that occurs in `s`. */
  function FirstContained(s: string, keywords: seq<string>, k: nat): (r: Option<nat>)
    requires k <= |keywords|
    ensures r.Some? ==> k <= r.value < |keywords| && Contains(s, keywords[r.value])
    ensures r.Some? ==> forall j :: k <= j < r.value ==> !Contains(s, keywords[j])
    ensures r.None? ==> forall j :: k <= j < |keywords| ==> !Contains(s, keywords[j])
    decreases |keywords| - k
  {
    if k == |keywords| then None
    else if Contains(s, keywords[k]) then Some(k)
    else FirstContained(s, keywords, k + 1)
  }

  /** Some keyword of `keywords` occurs in `s`. */
  predicate NamesAny(s: string, keywords: seq<string>) {
    exists k :: 0 <= k < |keywords| && Contains(s, keywords[k])
  }

  /** `keywords[i]` is the first keyword, in list order, that occurs in `s`. */
  predicate FirstNamed(s: string, keywords: seq<string>, i: nat) {
    i < |keywords| && Contains(s, keywords[i])
      && forall j :: 0 <= j < i ==> !Contains(s, keywords[j])
  }

  /**
   * The keyword screen on the lowercased question `s`: declined for the first
   * irrelevant keyword, accepted for any relevant one, and `otherwise` when
   * neither list names it. An irrelevant keyword wins over a relevant one.
   */
  function Screen(s: string, irrelevant: seq<string>, relevant: seq<string>, otherwise: Verdict): (r: Verdict)
    ensures forall i: nat :: FirstNamed(s, irrelevant, i) ==> r == (false, DeclineMessage(irrelevant[i]))
    ensures NamesAny(s, irrelevant) ==> !r.0
    ensures !NamesAny(s, irrelevant) && NamesAny(s, relevant) ==> r == Accepted
    ensures !NamesAny(s, irrelevant) && !NamesAny(s, relevant) ==> r == otherwise
  {
    match FirstContained(s, irrelevant, 0)
    case Some(i) => (false, DeclineMessage(irrelevant[i]))
    case None =>
      match FirstContained(s, relevant, 0)
      case Some(k) => assert Contains(s, relevant[k]); Accepted
      case None => otherwise
  }

  /**
   * `validate_question_relevance`: the keyword screen on the lowercased
   * question, with the model consulted when neither list names it. `llm`
   * stands for `call_llm`; `None` is a call that raised. An accepted question
   * carries no message.
   */
  function ValidateQuestionRelevance(question: string, llm: string -> Option<string>): (r: Verdict)
    ensures r.0 ==> r.1 == ""
  {
    Screen(Lower(question), IrrelevantKeywords, RelevantKeywords, LlmValidateRelevance(question, llm))
  }

  /**
   * Keywords match as raw substrings: a question containing "helpful" holds
   * "help" and is declined whatever the model would say.
   */
  lemma HelpfulDeclined(question: string, llm: string -> Option<string>)
    requires Contains(Lower(question), "helpful")
    ensures !ValidateQuestionRelevance(question, llm).0
  {
    var low := Lower(question);
    var i: nat :| i + 7 <= |low| && OccursAt(low, "helpful", i);
    assert low[i..i + 4] == low[i..i + 7][..4];
    assert IrrelevantKeywords[24] == "help";
    assert OccursAt(low, IrrelevantKeywords[24], i);
  }

  /** "How do I fix my computer?" is declined: it holds "fix". */
  lemma FixQuestionDeclined(llm: string -> Option<string>)
    ensures !ValidateQuestionRelevance("How do I fix my computer?", llm).0
  {
    var low := Lower("How do I fix my computer?");
    assert low[9..12] == "fix";
    assert IrrelevantKeywords[25] == "fix";
    assert OccursAt(low, IrrelevantKeywords[25], 9);
  }

  /** The text of the prompt before and after the quoted question. */
  const PromptHead :=
    "\nYou are helping filter questions for a Paul Graham chatbot. Paul Graham is known for:\n"
      + "- Startups and entrepreneurship\n- Programming (especially Lisp)\n- Essays and writing\n"
      + "- Y Combinator and investing\n- Technology and innovation\n- Education and learning\n"
      + "- Productivity and decision-making\n\nQuestion: \""
  const PromptTail :=
    "\"\n\nIs this question relevant to Paul Graham's expertise? Respond in this format:\n\n"
      + "```yaml\nrelevant: true/false\nreason: brief explanation\n"
      + "decline_message: polite message if not relevant (or empty if relevant)\n```"

  /** The prompt sent to the model, with the question quoted in it. */
  function Prompt(question: string): string {
    PromptHead + question + PromptTail
  }


  /**
   * `llm_validate_relevance`: the model's reply read as YAML; a call that
   * raised, like every other error on this path, counts as relevant.
   */
  function LlmValidateRelevance(question: string, llm: string -> Option<string>): (r: Verdict)
    ensures llm(Prompt(question)).None? ==> r == Accepted
    ensures !r.0 ==> llm(Prompt(question)).Some?
    ensures r.0 ==> r.1 == ""
  {
    match llm(Prompt(question))
    case None => Accepted
    case Some(response) => ReadReply(response)
  }

  const Fence := "```"
  const YamlFence := "```yaml"
  const RelevantKey := "relevant:"

  /**
   * Group 1 of `re.search(r'```yaml\s*(.*?)\s*```', response, re.DOTALL)`:
   * after the first "```yaml", the text up to the next "```" without the
   * whitespace around it. The lazy group stops at the first closing fence,
   * and the two `\s*` take all the whitespace next to it.
   */
  function YamlBlock(response: string): Option<string> {
    match Find(response, YamlFence, 0)
    case None => None
    case Some(p) =>
      match Find(response, Fence, p + |YamlFence|)
      case None => None
      case Some(f) => Some(Strip(response[p + |YamlFence|..f]))
  }

  /**
   * The YAML block is found exactly when a "```" follows the first
   * "```yaml", and it is what lies between them, stripped.
   */
  lemma YamlBlockSpec(response: string)
    ensures YamlBlock(response).Some? <==>
      exists p: nat, f: nat :: p + |YamlFence| <= f
        && OccursAt(response, YamlFence, p) && OccursAt(response, Fence, f)
    ensures YamlBlock(response).Some? ==>
      exists p: nat, f: nat :: p + |YamlFence| <= f
        && OccursAt(response, YamlFence, p) && OccursAt(response, Fence, f)
        && (forall q: nat :: q < p ==> !OccursAt(response, YamlFence, q))
        && (forall g :: p + |YamlFence| <= g < f ==> !OccursAt(response, Fence, g))
        && YamlBlock(response) == Some(Strip(response[p + |YamlFence|..f]))
  {
    FindSpec(response, YamlFence, 0);
    match Find(response, YamlFence, 0)
    case None =>
    case Some(p) =>
      FindSpec(response, Fence, p + |YamlFence|);
      if YamlBlock(response).None? {
        forall p': nat, f: nat | p' + |YamlFence| <= f && OccursAt(response, YamlFence, p')
          ensures !OccursAt(response, Fence, f)
        {
          assert p <= p';
        }
      }
  }

  /**
   * The reply read: no block means relevant; no "relevant:" in the block is
   * the `IndexError` the outer handler turns into relevant; otherwise
   * relevant exactly when "true" occurs in the rest of that line.
   */
  function ReadReply(response: string): (r: Verdict)
    ensures YamlBlock(response).None? ==> r == Accepted
    ensures r.0 ==> r == Accepted
    ensures !r.0 ==> YamlBlock(response).Some? && r.1 == DeclineIn(YamlBlock(response).value)
  {
    match YamlBlock(response)
    case None => Accepted
    case Some(block) =>
      var pieces := Split(Lower(block), RelevantKey);
      if |pieces| < 2 then Accepted
      else if Contains(Split(pieces[1], "\n")[0], "true") then Accepted
      else (false, DeclineIn(block))
  }

  /** The index of the first line, from `k` on, that contains `key`. */
  function FirstLineWith(lines: seq<string>, key: string, k: nat): (r: Option<nat>)
    requires k <= |lines|
    ensures r.Some? ==> k <= r.value < |lines| && Contains(lines[r.value], key)
    ensures r.Some? ==> forall j :: k <= j < r.value ==> !Contains(lines[j], key)
    ensures r.None? ==> forall j :: k <= j < |lines| ==> !Contains(lines[j], key)
    decreases |lines| - k
  {
    if k == |lines| then None
    else if Contains(lines[k], key) then Some(k)
    else FirstLineWith(lines, key, k + 1)
  }

  const DeclineKey := "decline_message:"

  /** `lines[i]` is the first of `lines` that contains `key`. */
  predicate FirstLine(lines: seq<string>, key: string, i: nat) {
    i < |lines| && Contains(lines[i], key)
      && forall j :: 0 <= j < i ==> !Contains(lines[j], key)
  }

  /**
   * The decline message: on the first line holding "decline_message:", the
   * stripped text after it (up to a second one, as `split(...)[1]` reads);
   * the fallback when no line holds it.
   */
  function DeclineIn(block: string): (r: string)
    ensures (forall j :: 0 <= j < |Split(block, "\n")| ==> !Contains(Split(block, "\n")[j], DeclineKey)) ==>
      r == FallbackDecline
  {
    var lines := Split(block, "\n");
    match FirstLineWith(lines, DeclineKey, 0)
    case None => FallbackDecline
    case Some(i) =>
      SplitPieces(lines[i], DeclineKey);
      Strip(Split(lines[i], DeclineKey)[1])
  }

  /**
   * In `s`, the first `key` is at `p` and the next one at `q`, or `q` is
   * the end of `s` when there is no other.
   */
  predicate KeySpan(s: string, key: string, p: nat, q: nat) {
    && p + |key| <= q <= |s|
    && OccursAt(s, key, p) && (forall k :: 0 <= k < p ==> !OccursAt(s, key, k))
    && (forall k :: p + |key| <= k < q ==> !OccursAt(s, key, k))
    && (q == |s| || OccursAt(s, key, q))
  }

  /**
   * `KeySpan(s, key, p, q)`, and the line that follows the first `key` ends
   * at `e`: the first newline after it, or `q` when none comes first.
   */
  predicate FieldSpan(s: string, key: string, p: nat, q: nat, e: nat) {
    && KeySpan(s, key, p, q)
    && p + |key| <= e <= q
    && (forall k :: p + |key| <= k < e ==> s[k] != '\n')
    && (e == q || s[e] == '\n')
  }

  /** `s.split(key)[1].split("\n")[0]` is the rest of the line after the first `key`. */
  lemma FieldLine(s: string, key: string, p: nat, q: nat, e: nat)
    requires key != [] && FieldSpan(s, key, p, q, e)
    ensures |Split(s, key)| > 1 && Split(Split(s, key)[1], "\n")[0] == s[p + |key|..e]
  {
    var a := p + |key|;
    SecondPiece(s, key, p, q);
    var piece := Split(s, key)[1];
    assert piece == s[a..q];
    LineEnd(s, a, e, q);
    assert Split(piece, "\n")[0] == s[a..e];
  }

  /**
   * A block without "relevant:" reads as relevant (the `IndexError` of
   * `split(...)[1]`, caught by the outer handler).
   */
  lemma ReadReplyNoKey(response: string)
    requires YamlBlock(response).Some?
    requires !Contains(Lower(YamlBlock(response).value), RelevantKey)
    ensures ReadReply(response) == Accepted
  {
    SplitPieces(Lower(YamlBlock(response).value), RelevantKey);
  }

  /**
   * With "relevant:" in the lowercased block, the reply is relevant exactly
   * when "true" occurs in the rest of the line after its first occurrence
   * (up to a second "relevant:"), and is otherwise declined with the
   * message the block gives.
   */
  lemma ReadReplyLine(response: string, block: string, p: nat, q: nat, e: nat)
    requires YamlBlock(response) == Some(block)
    requires FieldSpan(Lower(block), RelevantKey, p, q, e)
    ensures ReadReply(response) ==
      if Contains(Lower(block)[p + |RelevantKey|..e], "true") then Accepted
      else (false, DeclineIn(block))
  {
    FieldLine(Lower(block), RelevantKey, p, q, e);
  }

  /**
   * When the `i`th line is the first to hold "decline_message:", first at
   * `d` and next at `g` (or `g` is its end), the message is the stripped
   * text between them.
   */
  lemma DeclineInLine(block: string, i: nat, d: nat, g: nat)
    requires FirstLine(Split(block, "\n"), DeclineKey, i)
    requires KeySpan(Split(block, "\n")[i], DeclineKey, d, g)
    ensures DeclineIn(block) == Strip(Split(block, "\n")[i][d + |DeclineKey|..g])
  {
    var lines := Split(block, "\n");
    assert FirstLineWith(lines, DeclineKey, 0) == Some(i);
    SecondPiece(lines[i], DeclineKey, d, g);
  }

  /** The ten questions offered to the user as examples. */
  const SuggestedQuestions: seq<string> := [
    "How do I come up with good startup ideas?",
    "What makes a successful founder?",
    "How should early-stage startups approach growth?",
    "What programming languages should I learn?",
    "How do I write better essays?",
    "What should I look for when choosing co-founders?",
    "How do I know if my startup idea is worth pursuing?",
    "What mistakes do first-time entrepreneurs make?",
    "How important is technical skill for startup founders?",
    "What advice would you give to someone learning to program?"
  ]

  function GetSuggestedQuestions(): (qs: seq<string>)
    ensures |qs| == 10
    ensures forall k :: 0 <= k < |qs| ==> qs[k] != [] && qs[k][|qs[k]| - 1] == '?'
  {
    SuggestedQuestions
  }
}
