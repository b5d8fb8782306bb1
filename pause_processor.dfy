/**
 * The pause processor: speech-style pause markers and fillers inserted into
 * an answer before it is read out, at a scale from 0 (none) to 5 (maximum).
 */
module PauseProcessor {
  import opened Wrappers
  import opened Text

  // ---------------------------------------------------------------------
  // Sentence splitting: `re.split(r'([.!?]+)', text)` and the rejoin loop.
  // ---------------------------------------------------------------------

  /** The first sentence-ending character at or after `i`. */
  function FirstTerminal(s: string, i: nat): (r: Option<nat>)
    requires i <= |s|
    ensures r.Some? ==> i <= r.value < |s| && IsTerminal(s[r.value])
    ensures r.Some? ==> forall k :: i <= k < r.value ==> !IsTerminal(s[k])
    ensures r.None? ==> forall k :: i <= k < |s| ==> !IsTerminal(s[k])
    decreases |s| - i
  {
    if i == |s| then None
    else if IsTerminal(s[i]) then Some(i)
    else FirstTerminal(s, i + 1)
  }

  /**
   * `re.split(r'([.!?]+)', text)`: the text between the runs of `[.!?]`,
   * with each (captured) run kept in between.
   */
  function ReSplit(text: string): (parts: seq<string>)
    ensures |parts| % 2 == 1
    decreases |text|
  {
    match FirstTerminal(text, 0)
    case None => [text]
    case Some(i) =>
      var j := TerminalRunEnd(text, i + 1);
      [text[..i], text[i..j]] + ReSplit(text[j..])
  }

  /** The pieces of `ReSplit` concatenate back to the text. */
  lemma {:induction false} ReSplitConcat(text: string)
    ensures Concat(ReSplit(text)) == text
    decreases |text|
  {
    match FirstTerminal(text, 0)
    case None =>
      assert Concat([text]) == text + Concat([]);
    case Some(i) =>
      var j := TerminalRunEnd(text, i + 1);
      var a, b, c := text[..i], text[i..j], text[j..];
      ReSplitConcat(c);
      var rest := ReSplit(c);
      assert ReSplit(text) == [a, b] + rest;
      ConcatAppend([a, b], rest);
      ConcatPair(a, b);
      Slices3(text, i, j);
  }

  lemma Slices3(s: string, i: nat, j: nat)
    requires i <= j <= |s|
    ensures s == s[..i] + s[i..j] + s[j..]
    ensures s == s[..i] + (s[i..j] + s[j..])
  {
  }

  lemma ConcatPair(a: string, b: string)
    ensures Concat([a, b]) == a + b
  {
    assert [a, b][1..] == [b];
    assert Concat([b]) == b + Concat([]);
  }

  /**
   * What the rejoin loop keeps of the pieces: each piece glued to the run
   * after it, blank results dropped, and a final unpaired piece kept when it
   * is not blank.
   */
  function Rejoined(parts: seq<string>): seq<string>
    decreases |parts|
  {
    if |parts| < 2 then
      (if |parts| == 1 && !Blank(parts[0]) then [parts[0]] else [])
    else
      (if Blank(parts[0] + parts[1]) then [] else [parts[0] + parts[1]]) + Rejoined(parts[2..])
  }

  /** The sentences of `text`, as `split_sentences` returns them. */
  function Sentences(text: string): seq<string> {
    Rejoined(ReSplit(text))
  }

  /** `split_sentences`: split with the regex, then rejoin the pieces in pairs. */
  method SplitSentences(text: string) returns (result: seq<string>)
    ensures result == Sentences(text)
  {
    var sentences := ReSplit(text);
    result := [];
    var i := 0;
    while i < |sentences| - 1
      invariant 0 <= i <= |sentences| && i % 2 == 0
      invariant result + Rejoined(sentences[i..]) == Rejoined(sentences)
    {
      var sentence := sentences[i];
      if i + 1 < |sentences| {
        sentence := sentence + sentences[i + 1];
      }
      assert sentences[i..][2..] == sentences[i + 2..];
      if !Blank(sentence) {
        result := result + [sentence];
      }
      i := i + 2;
    }
    if |sentences| % 2 == 1 && !Blank(sentences[|sentences| - 1]) {
      result := result + [sentences[|sentences| - 1]];
    }
  }

  /** Without `[.!?]` the whole text is one sentence, or none when it is blank. */
  lemma SentencesNone(text: string)
    requires FirstTerminal(text, 0).None?
    ensures Sentences(text) == if Blank(text) then [] else [text]
  {
    assert ReSplit(text) == [text];
  }

  /** Otherwise the first sentence runs to the end of the first run of `[.!?]`. */
  lemma SentencesSome(text: string, i: nat, j: nat)
    requires FirstTerminal(text, 0) == Some(i) && j == TerminalRunEnd(text, i + 1)
    ensures Sentences(text) == [text[..j]] + Sentences(text[j..])
  {
    var rest := ReSplit(text[j..]);
    var parts := [text[..i], text[i..j]] + rest;
    assert ReSplit(text) == parts;
    assert parts[2..] == rest;
    var head := parts[0] + parts[1];
    assert head == text[..j];
    assert !Blank(head) by {
      assert head[i] == text[i];
      assert !IsSpace(head[i]);
    }
    assert Rejoined(parts) == [head] + Rejoined(rest);
  }

  /** A sentence's `[.!?]` characters, if any, all come at its end. */
  ghost predicate TerminalsTrail(x: string) {
    forall a, b :: 0 <= a < b < |x| && IsTerminal(x[a]) ==> IsTerminal(x[b])
  }

  /**
   * `ss` covers `text` up to a remainder that is blank and has no `[.!?]`.
   */
  ghost predicate Covers(text: string, ss: seq<string>) {
    var n := |Concat(ss)|;
    && n <= |text| && Concat(ss) == text[..n]
    && Blank(text[n..]) && (forall k :: n <= k < |text| ==> !IsTerminal(text[k]))
  }

  /**
   * No sentence is blank, each one's punctuation trails it, every sentence
   * but the last ends with punctuation and every one after the first starts
   * without.
   */
  ghost predicate WellCut(ss: seq<string>) {
    && (forall m :: 0 <= m < |ss| ==> !Blank(ss[m]) && TerminalsTrail(ss[m]))
    && (forall m :: 0 <= m < |ss| - 1 ==> IsTerminal(ss[m][|ss[m]| - 1]))
    && (forall m :: 0 < m < |ss| ==> !IsTerminal(ss[m][0]))
  }

  /**
   * The sentences are the text cut after each maximal run of `[.!?]`, with
   * a blank remainder dropped.
   */
  lemma {:induction false} SentencesSpec(text: string)
    ensures Covers(text, Sentences(text)) && WellCut(Sentences(text))
    decreases |text|
  {
    match FirstTerminal(text, 0)
    case None =>
      SentencesNone(text);
      SentencesWhole(text, Sentences(text));
    case Some(i) =>
      var j := TerminalRunEnd(text, i + 1);
      SentencesSome(text, i, j);
      SentencesSpec(text[j..]);
      TerminalRunEndSpec(text, i + 1);
      SentencesCut(text, i, j, Sentences(text[j..]), Sentences(text));
  }

  /** Without `[.!?]` the text is one sentence, or none when blank. */
  lemma SentencesWhole(text: string, ss: seq<string>)
    requires forall k :: 0 <= k < |text| ==> !IsTerminal(text[k])
    requires ss == if Blank(text) then [] else [text]
    ensures Covers(text, ss) && WellCut(ss)
  {
    if !Blank(text) {
      assert Concat([text]) == text + Concat([]);
    }
  }

  /** The inductive step of `SentencesSpec`. */
  lemma SentencesCut(text: string, i: nat, j: nat, rest: seq<string>, ss: seq<string>)
    requires FirstTerminal(text, 0) == Some(i) && i < j <= |text|
    requires forall k :: i <= k < j ==> IsTerminal(text[k])
    requires j < |text| ==> !IsTerminal(text[j])
    requires Covers(text[j..], rest) && WellCut(rest)
    requires ss == [text[..j]] + rest
    ensures Covers(text, ss) && WellCut(ss)
  {
    CoversCons(text, j, rest);
    HeadCut(text, i, j);
    if rest != [] {
      assert !Blank(rest[0]);
      FirstChar(text[j..], rest);
      assert text[j..][0] == text[j];
    }
    WellCutCons(text[..j], rest);
  }

  /** A cut after the first run of `[.!?]` extends the cover. */
  lemma CoversCons(text: string, j: nat, rest: seq<string>)
    requires j <= |text| && Covers(text[j..], rest)
    ensures Covers(text, [text[..j]] + rest)
  {
    var ss := [text[..j]] + rest;
    var r := |Concat(rest)|;
    assert ss[1..] == rest;
    assert Concat(ss) == text[..j] + Concat(rest);
    assert text[..j + r] == text[..j] + text[j..][..r];
    assert text[j + r..] == text[j..][r..];
    forall k | j + r <= k < |text| ensures !IsTerminal(text[k]) {
      assert text[k] == text[j..][k - j];
    }
  }

  /** The first sentence is the text up to the end of its first `[.!?]` run. */
  lemma HeadCut(text: string, i: nat, j: nat)
    requires FirstTerminal(text, 0) == Some(i) && i < j <= |text|
    requires forall k :: i <= k < j ==> IsTerminal(text[k])
    ensures var head := text[..j];
      !Blank(head) && TerminalsTrail(head) && IsTerminal(head[|head| - 1])
  {
    var head := text[..j];
    assert head[i] == text[i];
  }

  /** The first character of what is covered is the text's first character. */
  lemma FirstChar(text: string, ss: seq<string>)
    requires Covers(text, ss) && ss != [] && ss[0] != []
    ensures text != [] && ss[0][0] == text[0]
  {
    assert Concat(ss) == ss[0] + Concat(ss[1..]);
    assert Concat(ss)[0] == text[..|Concat(ss)|][0];
  }

  /** A well-shaped sentence in front of well-cut sentences. */
  lemma WellCutCons(head: string, rest: seq<string>)
    requires WellCut(rest)
    requires !Blank(head) && TerminalsTrail(head) && IsTerminal(head[|head| - 1])
    requires rest != [] ==> !IsTerminal(rest[0][0])
    ensures WellCut([head] + rest)
  {
    var ss := [head] + rest;
    forall m | 0 < m < |ss|
      ensures !Blank(ss[m]) && TerminalsTrail(ss[m]) && !IsTerminal(ss[m][0])
      ensures m < |ss| - 1 ==> IsTerminal(ss[m][|ss[m]| - 1])
    {
      assert ss[m] == rest[m - 1];
    }
  }

  // ---------------------------------------------------------------------
  // A mark after every `every`-th sentence but the last.
  // ---------------------------------------------------------------------

  /** `n % every`, counted down by whole groups. */
  function Phase(n: nat, every: nat): nat
    requires every > 0
  {
    if n < every then n else Phase(n - every, every)
  }

  lemma {:induction false} PhaseMod(n: nat, every: nat)
    requires every > 0
    ensures Phase(n, every) == n % every
  {
    if n < every {
      ModSmall(n, every);
    } else {
      PhaseMod(n - every, every);
      ModShift(n - every, every);
    }
  }

  /** What the loop appends for sentence `i`: the sentence, then the mark when due. */
  function Item(ss: seq<string>, every: nat, mark: string, i: nat): seq<string>
    requires every > 0 && i < |ss|
  {
    if Phase(i + 1, every) == 0 && i < |ss| - 1 then [ss[i], mark] else [ss[i]]
  }

  /** The pieces the loop has gathered after its first `n` turns. */
  function Woven(ss: seq<string>, every: nat, mark: string, n: nat): seq<string>
    requires every > 0 && n <= |ss|
  {
    if n == 0 then [] else Woven(ss, every, mark, n - 1) + Item(ss, every, mark, n - 1)
  }

  /** The text the loop produces. */
  function Marked(ss: seq<string>, every: nat, mark: string): string
    requires every > 0
  {
    Concat(Woven(ss, every, mark, |ss|))
  }

  /**
   * The body of `add_light_pauses` and of the first half of
   * `add_moderate_pauses`: the sentences in order, with `mark` appended
   * after every `every`-th one unless it is the last.
   */
  method MarkEvery(ss: seq<string>, every: nat, mark: string) returns (text: string)
    requires every > 0
    ensures text == Marked(ss, every, mark)
  {
    var result := [];
    for i := 0 to |ss|
      invariant result == Woven(ss, every, mark, i)
    {
      PhaseMod(i + 1, every);
      result := result + [ss[i]];
      if (i + 1) % every == 0 && i < |ss| - 1 {
        result := result + [mark];
      }
    }
    text := Concat(result);
  }

  /**
   * The sentences in consecutive groups of `every`, each group glued
   * together; only the last group may be shorter.
   */
  function Groups(ss: seq<string>, every: nat): (gs: seq<string>)
    requires every > 0
    ensures gs != []
    decreases |ss|
  {
    if |ss| <= every then [Concat(ss)]
    else [Concat(ss[..every])] + Groups(ss[every..], every)
  }

  /**
   * The loop's text is the groups joined by the mark: a mark after sentences
   * `every`, `2 * every`, ... and never after the last sentence.
   */
  lemma {:induction false} MarkedGroups(ss: seq<string>, every: nat, mark: string)
    requires every > 0
    ensures Marked(ss, every, mark) == Join(Groups(ss, every), mark)
    decreases |ss|
  {
    if |ss| <= every {
      NoMarks(ss, every, mark, |ss|);
      assert ss[..|ss|] == ss;
    } else {
      var rest := ss[every..];
      WovenShift(ss, every, mark, |ss| - every);
      FirstGroup(ss, every, mark);
      MarkedGroups(rest, every, mark);
      ConcatAppend(Woven(ss, every, mark, every), Woven(rest, every, mark, |rest|));
      var gs := [Concat(ss[..every])] + Groups(rest, every);
      assert gs[1..] == Groups(rest, every);
    }
  }

  /** The mark never falls due within the first group of a short list. */
  lemma {:induction false} NoMarks(ss: seq<string>, every: nat, mark: string, n: nat)
    requires every > 0 && n <= |ss| && (n < every || |ss| <= every)
    ensures Concat(Woven(ss, every, mark, n)) == Concat(ss[..n])
  {
    if n > 0 {
      var last := ss[n - 1];
      var init := Woven(ss, every, mark, n - 1);
      assert ss[..n] == ss[..n - 1] + [last];
      calc {
        Concat(Woven(ss, every, mark, n));
        { assert Item(ss, every, mark, n - 1) == [last]; }
        Concat(init + [last]);
        { ConcatSnoc(init, last); NoMarks(ss, every, mark, n - 1); }
        Concat(ss[..n - 1]) + last;
        { ConcatSnoc(ss[..n - 1], last); }
        Concat(ss[..n]);
      }
    }
  }

  /** With more to come, the first group is followed by the mark. */
  lemma FirstGroup(ss: seq<string>, every: nat, mark: string)
    requires 0 < every < |ss|
    ensures Concat(Woven(ss, every, mark, every)) == Concat(ss[..every]) + mark
  {
    var last := ss[every - 1];
    var init := Woven(ss, every, mark, every - 1);
    var front := Concat(ss[..every - 1]);
    NoMarks(ss, every, mark, every - 1);
    assert Phase(every, every) == 0;
    assert ss[..every] == ss[..every - 1] + [last];
    calc {
      Concat(Woven(ss, every, mark, every));
      { assert Woven(ss, every, mark, every) == init + [last, mark]; }
      Concat(init + [last, mark]);
      { ConcatAppend(init, [last, mark]); ConcatPair(last, mark); }
      front + (last + mark);
      (front + last) + mark;
      { ConcatSnoc(ss[..every - 1], last); }
      Concat(ss[..every]) + mark;
    }
  }

  /** After the first group the loop behaves as on the remaining sentences. */
  lemma {:induction false} WovenShift(ss: seq<string>, every: nat, mark: string, k: nat)
    requires 0 < every < |ss| && k <= |ss| - every
    ensures Woven(ss, every, mark, every + k)
      == Woven(ss, every, mark, every) + Woven(ss[every..], every, mark, k)
  {
    if k > 0 {
      var rest := ss[every..];
      WovenShift(ss, every, mark, k - 1);
      ItemShift(ss, every, mark, k - 1);
      var a, b, c := Woven(ss, every, mark, every), Woven(rest, every, mark, k - 1), Item(rest, every, mark, k - 1);
      WovenStep(rest, every, mark, k);
      WovenStep(ss, every, mark, every + k);
      PiecesAssoc(a, b, c);
    }
  }

  lemma WovenStep(ss: seq<string>, every: nat, mark: string, n: nat)
    requires every > 0 && 0 < n <= |ss|
    ensures Woven(ss, every, mark, n) == Woven(ss, every, mark, n - 1) + Item(ss, every, mark, n - 1)
  {
  }

  lemma PiecesAssoc(a: seq<string>, b: seq<string>, c: seq<string>)
    ensures (a + b) + c == a + (b + c)
  {
  }

  lemma ItemShift(ss: seq<string>, every: nat, mark: string, k: nat)
    requires 0 < every < |ss| && k < |ss| - every
    ensures Item(ss, every, mark, every + k) == Item(ss[every..], every, mark, k)
  {
    assert Phase(every + k + 1, every) == Phase(k + 1, every);
    assert ss[every + k] == ss[every..][k];
  }

  /** Taking the marks out again leaves the sentences as they were. */
  lemma {:induction false} GroupsConcat(ss: seq<string>, every: nat)
    requires every > 0
    ensures Join(Groups(ss, every), "") == Concat(ss)
    decreases |ss|
  {
    JoinEmpty(Groups(ss, every));
    if |ss| > every {
      var rest := ss[every..];
      GroupsConcat(rest, every);
      JoinEmpty(Groups(rest, every));
      var gs := [Concat(ss[..every])] + Groups(rest, every);
      assert gs[1..] == Groups(rest, every);
      assert ss == ss[..every] + rest;
      ConcatAppend(ss[..every], rest);
    }
  }

  /** There are `1 + (|ss| - 1) / every` groups, so one mark fewer. */
  lemma {:induction false} GroupCount(ss: seq<string>, every: nat)
    requires every > 0 && ss != []
    ensures |Groups(ss, every)| == 1 + (|ss| - 1) / every
    decreases |ss|
  {
    if |ss| > every {
      var rest := ss[every..];
      GroupCount(rest, every);
      DivStep(|ss| - 1, every);
    } else {
      ModSmall(|ss| - 1, every);
      DivModUnique(|ss| - 1, every, 0, |ss| - 1);
    }
  }

  // Euclidean division facts the mark schedule needs.

  lemma MulSign(b: int, d: int)
    requires b > 0
    ensures d >= 1 ==> b * d >= b
    ensures d <= -1 ==> b * d <= -b
    decreases if d < 0 then -d else d
  {
    if d > 1 {
      MulSign(b, d - 1);
      assert b * d == b * (d - 1) + b;
    } else if d < -1 {
      MulSign(b, d + 1);
      assert b * d == b * (d + 1) - b;
    }
  }

  /** Quotient and remainder are the only ones with `0 <= r < b`. */
  lemma DivModUnique(a: int, b: int, q: int, r: int)
    requires b > 0 && 0 <= r < b && a == b * q + r
    ensures a / b == q && a % b == r
  {
    var q0, r0 := a / b, a % b;
    MulSign(b, q - q0);
    assert b * (q - q0) == r0 - r;
  }

  lemma ModSmall(n: int, b: int)
    requires 0 <= n < b
    ensures n % b == n
  {
    DivModUnique(n, b, 0, n);
  }

  lemma ModShift(k: int, b: int)
    requires b > 0
    ensures (b + k) % b == k % b
  {
    var q, r := k / b, k % b;
    assert b * (q + 1) == b * q + b;
    DivModUnique(b + k, b, q + 1, r);
  }

  lemma DivStep(a: int, b: int)
    requires 0 < b <= a
    ensures a / b == (a - b) / b + 1
  {
    var q, r := (a - b) / b, (a - b) % b;
    assert b * (q + 1) == b * q + b;
    DivModUnique(a, b, q + 1, r);
  }

  // ---------------------------------------------------------------------
  // `re.sub` with the handful of pattern shapes the stages use.
  // ---------------------------------------------------------------------

  /**
   * The patterns of the stages:
   *   Literal(p, r)        `p` replaced by `r` (`\? `, `<pause>`, `<long_pause>`);
   *   Follow(lead, ws, m)  `lead(w1|w2|...)`, with `m` put after `lead`;
   *   Capital(m)           `\.(\s+[A-Z])`, with `m` put after the dot;
   *   Mentions(w, m)       `\. ([A-Z][^.]*w[^.]*\.)`, with `m` put after ". ";
   *   Squeeze              `\s+` replaced by one space.
   */
  datatype Rule =
    | Literal(pattern: string, replacement: string)
    | Follow(lead: string, words: seq<string>, mark: string)
    | Capital(mark: string)
    | Mentions(word: string, mark: string)
    | Squeeze

  /** The rules that only insert their mark into what they match. */
  predicate Inserts(rule: Rule) {
    rule.Follow? || rule.Capital? || rule.Mentions?
  }

  /** Where an inserting rule puts its mark inside the match. */
  function Cut(rule: Rule): nat {
    match rule
    case Follow(lead, _, _) => |lead|
    case Capital(_) => 1
    case Mentions(_, _) => 2
    case _ => 0
  }

  /** The first alternative `w`, from `k` on, such that `lead + w` starts `s`. */
  function FirstWord(s: string, lead: string, words: seq<string>, k: nat): (r: Option<nat>)
    requires k <= |words|
    ensures r.Some? ==> k <= r.value < |words| && OccursAt(s, lead + words[r.value], 0)
    decreases |words| - k
  {
    if k == |words| then None
    else if OccursAt(s, lead + words[k], 0) then Some(k)
    else FirstWord(s, lead, words, k + 1)
  }

  lemma {:induction false} FirstWordSpec(s: string, lead: string, words: seq<string>, k: nat)
    requires k <= |words|
    ensures var r := FirstWord(s, lead, words, k);
      && (r.Some? ==> OccursAt(s, lead + words[r.value], 0))
      && (r.Some? ==> forall w :: k <= w < r.value ==> !OccursAt(s, lead + words[w], 0))
      && (r.None? ==> forall w :: k <= w < |words| ==> !OccursAt(s, lead + words[w], 0))
    decreases |words| - k
  {
    if k < |words| && !OccursAt(s, lead + words[k], 0) {
      FirstWordSpec(s, lead, words, k + 1);
    }
  }

  /** The first `.` at or after `i`. */
  function NextDot(s: string, i: nat): (r: Option<nat>)
    requires i <= |s|
    ensures r.Some? ==> i <= r.value < |s|
    decreases |s| - i
  {
    if i == |s| then None
    else if s[i] == '.' then Some(i)
    else NextDot(s, i + 1)
  }

  lemma {:induction false} NextDotSpec(s: string, i: nat)
    requires i <= |s|
    ensures var r := NextDot(s, i);
      && (r.Some? ==> s[r.value] == '.')
      && (r.Some? ==> forall k :: i <= k < r.value ==> s[k] != '.')
    decreases |s| - i
  {
    if i < |s| && s[i] != '.' {
      NextDotSpec(s, i + 1);
    }
  }

  /** The length of the match of `rule` at the start of `s`, if it matches there. */
  function MatchAt(rule: Rule, s: string): (r: Option<nat>)
    ensures r.Some? ==> 0 < r.value <= |s| && Cut(rule) <= r.value
  {
    match rule
    case Literal(p, _) => LiteralMatch(p, s)
    case Follow(lead, words, _) => FollowMatch(lead, words, s)
    case Capital(_) => CapitalMatch(s)
    case Mentions(word, _) => MentionsMatch(word, s)
    case Squeeze => SpaceMatch(s)
  }

  function LiteralMatch(p: string, s: string): (r: Option<nat>)
    ensures r.Some? ==> 0 < r.value <= |s|
  {
    if p != [] && OccursAt(s, p, 0) then Some(|p|) else None
  }

  function FollowMatch(lead: string, words: seq<string>, s: string): (r: Option<nat>)
    ensures r.Some? ==> |lead| <= r.value <= |s| && 0 < r.value
  {
    if lead == [] then None
    else match FirstWord(s, lead, words, 0)
      case Some(w) => Some(|lead + words[w]|)
      case None => None
  }

  function CapitalMatch(s: string): (r: Option<nat>)
    ensures r.Some? ==> 1 <= r.value <= |s|
  {
    if s != [] && s[0] == '.' then
      var e := SpaceRunEnd(s, 1);
      if 1 < e < |s| && IsUpper(s[e]) then Some(e + 1) else None
    else None
  }

  function MentionsMatch(word: string, s: string): (r: Option<nat>)
    ensures r.Some? ==> 2 <= r.value <= |s|
  {
    if |s| >= 3 && s[0] == '.' && s[1] == ' ' && IsUpper(s[2]) then
      match NextDot(s, 3)
      case Some(q) => if Find(s[3..q], word, 0).Some? then Some(q + 1) else None
      case None => None
    else None
  }

  function SpaceMatch(s: string): (r: Option<nat>)
    ensures r.Some? ==> 0 < r.value <= |s|
  {
    if s != [] && IsSpace(s[0]) then Some(SpaceRunEnd(s, 0)) else None
  }

  /** What a match `m` is replaced by. */
  function Replacement(rule: Rule, m: string): string
    requires Cut(rule) <= |m|
  {
    match rule
    case Literal(_, r) => r
    case Squeeze => " "
    case _ => m[..Cut(rule)] + rule.mark + m[Cut(rule)..]
  }

  /** `re.sub`: every leftmost non-overlapping match, scanning left to right, replaced. */
  function Sub(rule: Rule, s: string): string
    decreases |s|
  {
    if s == [] then []
    else match MatchAt(rule, s)
      case None => [s[0]] + Sub(rule, s[1..])
      case Some(e) => Replacement(rule, s[..e]) + Sub(rule, s[e..])
  }

  /**
   * The text the pattern of `rule` matches, written as the regex reads:
   * a literal, the lead and one alternative, a dot then whitespace then a
   * capital, a dot-space-capital sentence naming the word up to its first
   * dot, or a run of whitespace.
   */
  ghost predicate Lang(rule: Rule, m: string) {
    match rule
    case Literal(p, _) => p != [] && m == p
    case Follow(lead, words, _) =>
      lead != [] && exists w :: 0 <= w < |words| && m == lead + words[w]
    case Capital(_) =>
      && |m| >= 3 && m[0] == '.' && IsUpper(m[|m| - 1])
      && forall k :: 1 <= k < |m| - 1 ==> IsSpace(m[k])
    case Mentions(word, _) =>
      && |m| >= 4 && m[0] == '.' && m[1] == ' ' && IsUpper(m[2]) && m[|m| - 1] == '.'
      && (forall k :: 3 <= k < |m| - 1 ==> m[k] != '.')
      && Contains(m[3..|m| - 1], word)
    case Squeeze => m != [] && Blank(m)
  }

  /**
   * A rule matches at the start of `s` exactly when some prefix of `s` is in
   * its language, and the match it takes is such a prefix; for `\s+` it is
   * the longest one, for an alternation the first alternative that fits.
   */
  lemma MatchAtSpec(rule: Rule, s: string)
    ensures MatchAt(rule, s).Some? <==> exists e :: 0 <= e <= |s| && Lang(rule, s[..e])
    ensures MatchAt(rule, s).Some? ==> Lang(rule, s[..MatchAt(rule, s).value])
    ensures rule.Squeeze? && MatchAt(rule, s).Some? ==>
      var e := MatchAt(rule, s).value; e < |s| ==> !IsSpace(s[e])
    ensures rule.Follow? && MatchAt(rule, s).Some? ==>
      var w := FirstWord(s, rule.lead, rule.words, 0).value;
      forall v :: 0 <= v < w ==> !OccursAt(s, rule.lead + rule.words[v], 0)
  {
    if rule.Follow? {
      FirstWordSpec(s, rule.lead, rule.words, 0);
    }
    if MatchAt(rule, s).Some? {
      MatchInLang(rule, s);
    }
    forall e | 0 <= e <= |s| && Lang(rule, s[..e])
      ensures MatchAt(rule, s).Some?
    {
      LangMatches(rule, s, e);
    }
  }

  /** The match taken is in the language. */
  lemma MatchInLang(rule: Rule, s: string)
    requires MatchAt(rule, s).Some?
    ensures Lang(rule, s[..MatchAt(rule, s).value])
    ensures rule.Squeeze? ==> var e := MatchAt(rule, s).value; e < |s| ==> !IsSpace(s[e])
  {
    var e := MatchAt(rule, s).value;
    var m := s[..e];
    match rule
    case Literal(p, _) =>
    case Follow(lead, words, _) =>
      FirstWordSpec(s, lead, words, 0);
      var w := FirstWord(s, lead, words, 0).value;
      assert m == lead + words[w];
    case Capital(_) =>
      SpaceRunEndSpec(s, 1);
      assert m[|m| - 1] == s[e - 1];
      forall k | 1 <= k < |m| - 1 ensures IsSpace(m[k]) {
        assert m[k] == s[k];
      }
    case Mentions(word, _) =>
      NextDotSpec(s, 3);
      var q := NextDot(s, 3).value;
      FindContains(s[3..q], word);
      assert m[3..|m| - 1] == s[3..q];
      forall k | 3 <= k < |m| - 1 ensures m[k] != '.' {
        assert m[k] == s[k];
      }
    case Squeeze =>
      SpaceRunEndSpec(s, 0);
      forall k | 0 <= k < |m| ensures IsSpace(m[k]) {
        assert m[k] == s[k];
      }
  }

  /** A prefix in the language means the rule matches. */
  lemma LangMatches(rule: Rule, s: string, e: nat)
    requires e <= |s| && Lang(rule, s[..e])
    ensures MatchAt(rule, s).Some?
  {
    var m := s[..e];
    match rule
    case Literal(p, _) =>
      assert OccursAt(s, p, 0);
    case Follow(lead, words, _) =>
      var w :| 0 <= w < |words| && m == lead + words[w];
      assert OccursAt(s, lead + words[w], 0);
      FirstWordSpec(s, lead, words, 0);
    case Capital(_) =>
      forall k | 1 <= k < e - 1 ensures IsSpace(s[k]) {
        assert s[k] == m[k];
      }
      assert s[e - 1] == m[|m| - 1];
      RunEndAt(s, 1, e - 1);
    case Mentions(word, _) =>
      forall k | 3 <= k < e - 1 ensures s[k] != '.' {
        assert s[k] == m[k];
      }
      assert s[e - 1] == m[|m| - 1];
      DotAt(s, 3, e - 1);
      assert m[3..|m| - 1] == s[3..e - 1];
      FindContains(s[3..e - 1], word);
    case Squeeze =>
      assert IsSpace(m[0]);
  }

  /** A whitespace run that stops at a non-space ends there. */
  lemma {:induction false} RunEndAt(s: string, i: nat, j: nat)
    requires i <= j < |s| && !IsSpace(s[j])
    requires forall k :: i <= k < j ==> IsSpace(s[k])
    ensures SpaceRunEnd(s, i) == j
    decreases j - i
  {
    if i < j {
      RunEndAt(s, i + 1, j);
    }
  }

  /** A dot with none before it from `i` on is the next dot. */
  lemma {:induction false} DotAt(s: string, i: nat, j: nat)
    requires i <= j < |s| && s[j] == '.'
    requires forall k :: i <= k < j ==> s[k] != '.'
    ensures NextDot(s, i) == Some(j)
    decreases j - i
  {
    if i < j {
      DotAt(s, i + 1, j);
    }
  }

  /** Where nothing matches, `re.sub` changes nothing. */
  lemma {:induction false} NoMatchUnchanged(rule: Rule, s: string)
    requires forall k :: 0 <= k < |s| ==> MatchAt(rule, s[k..]).None?
    ensures Sub(rule, s) == s
    decreases |s|
  {
    if s != [] {
      var t := s[1..];
      assert MatchAt(rule, s[0..]).None? && s[0..] == s;
      forall k | 0 <= k < |t| ensures MatchAt(rule, t[k..]).None? {
        assert t[k..] == s[k + 1..];
      }
      NoMatchUnchanged(rule, t);
    }
  }

  /** A literal matches at `k` of `s` exactly when it occurs there. */
  lemma LiteralAt(p: string, r: string, s: string, k: nat)
    requires p != [] && k <= |s|
    ensures MatchAt(Literal(p, r), s[k..]).Some? <==> OccursAt(s, p, k)
  {
    if OccursAt(s, p, k) {
      assert s[k..][..|p|] == s[k..k + |p|];
    }
    if OccursAt(s[k..], p, 0) {
      assert s[k..][..|p|] == s[k..k + |p|];
    }
  }

  /** Text before the first occurrence of a literal is copied unchanged. */
  lemma {:induction false} LiteralSkip(p: string, r: string, s: string, i: nat)
    requires p != [] && i <= |s|
    requires forall k :: 0 <= k < i ==> !OccursAt(s, p, k)
    ensures Sub(Literal(p, r), s) == s[..i] + Sub(Literal(p, r), s[i..])
    decreases i
  {
    if i > 0 {
      var t := s[1..];
      LiteralAt(p, r, s, 0);
      assert s[0..] == s;
      assert Sub(Literal(p, r), s) == [s[0]] + Sub(Literal(p, r), t);
      forall k | 0 <= k < i - 1 ensures !OccursAt(t, p, k) {
        OccursShift(s, p, k);
      }
      LiteralSkip(p, r, t, i - 1);
      assert t[..i - 1] == s[1..i];
      assert t[i - 1..] == s[i..];
      var rest := Sub(Literal(p, r), s[i..]);
      assert Sub(Literal(p, r), t) == s[1..i] + rest;
      assert s[..i] == [s[0]] + s[1..i];
      assert [s[0]] + (s[1..i] + rest) == s[..i] + rest;
    }
  }

  /**
   * Replacing a literal is `r.join(s.split(p))`: the text between the
   * occurrences of `p`, found left to right, joined by `r`.
   */
  lemma {:induction false} LiteralSub(p: string, r: string, s: string)
    requires p != []
    ensures Sub(Literal(p, r), s) == Join(Split(s, p), r)
    decreases |s|
  {
    if s != [] {
      LiteralAt(p, r, s, 0);
      assert s[0..] == s;
      if OccursAt(s, p, 0) {
        var tail := Split(s[|p|..], p);
        LiteralSub(p, r, s[|p|..]);
        assert s[..|p|] == p;
        assert ([[]] + tail)[1..] == tail;
      } else {
        LiteralSub(p, r, s[1..]);
        JoinHead(s[0], Split(s[1..], p), r);
      }
    }
  }

  /** Deleting `mark` skips over text that cannot start it. */
  lemma DeleteSkip(mark: string, a: string, b: string)
    requires mark != [] && forall k :: 0 <= k < |a| ==> a[k] != mark[0]
    ensures Sub(Literal(mark, ""), a + b) == a + Sub(Literal(mark, ""), b)
  {
    var rule := Literal(mark, "");
    var s := a + b;
    forall k | 0 <= k < |a| ensures !OccursAt(s, mark, k) {
      if k + |mark| <= |s| {
        assert s[k..k + |mark|][0] == a[k];
      }
    }
    LiteralSkip(mark, "", s, |a|);
    assert s[..|a|] == a;
    assert s[|a|..] == b;
  }

  /** Deleting `mark` removes it where it starts the text. */
  lemma DeleteHead(mark: string, b: string)
    requires mark != []
    ensures Sub(Literal(mark, ""), mark + b) == Sub(Literal(mark, ""), b)
  {
    var s := mark + b;
    assert s[..|mark|] == mark;
    assert s[|mark|..] == b;
  }

  /**
   * An inserting rule changes nothing but its marks: for text that does not
   * contain the mark's first character, deleting the mark gives the text back.
   */
  lemma {:induction false} InsertUndone(rule: Rule, s: string)
    requires Inserts(rule) && rule.mark != []
    requires forall k :: 0 <= k < |s| ==> s[k] != rule.mark[0]
    ensures Sub(Literal(rule.mark, ""), Sub(rule, s)) == s
    decreases |s|
  {
    if s != [] {
      match MatchAt(rule, s)
      case None =>
        InsertUndone(rule, s[1..]);
        UndoCopied(rule, s);
      case Some(e) =>
        InsertUndone(rule, s[e..]);
        SubAtMatch(rule, s, e);
        UndoInserted(rule, s, e);
    }
  }

  /** An inserting rule brings in no character that neither the text nor its mark holds. */
  lemma {:induction false} InsertAvoids(rule: Rule, s: string, c: char)
    requires Inserts(rule) && c !in s && c !in rule.mark
    ensures c !in Sub(rule, s)
    decreases |s|
  {
    if s != [] {
      var m := MatchAt(rule, s);
      if m.None? {
        InsertAvoids(rule, s[1..], c);
        AvoidsSlice(s, c, 0, 1);
        assert Sub(rule, s) == s[..1] + Sub(rule, s[1..]);
      } else {
        var e := m.value;
        InsertAvoids(rule, s[e..], c);
        SubAtMatch(rule, s, e);
        ReplacementShape(rule, s, e);
        AvoidsSlice(s, c, 0, Cut(rule));
        AvoidsSlice(s, c, Cut(rule), e);
      }
    }
  }

  /** A slice holds only characters of the text. */
  lemma AvoidsSlice(s: string, c: char, i: nat, j: nat)
    requires i <= j <= |s| && c !in s
    ensures c !in s[i..j]
  {
  }

  /** The step of `InsertUndone` where the first character is copied. */
  lemma UndoCopied(rule: Rule, s: string)
    requires Inserts(rule) && rule.mark != [] && s != [] && s[0] != rule.mark[0]
    requires MatchAt(rule, s).None?
    requires Sub(Literal(rule.mark, ""), Sub(rule, s[1..])) == s[1..]
    ensures Sub(Literal(rule.mark, ""), Sub(rule, s)) == s
  {
    DeleteSkip(rule.mark, [s[0]], Sub(rule, s[1..]));
  }

  /** The step of `InsertUndone` where the mark is put into a match. */
  lemma UndoInserted(rule: Rule, s: string, e: nat)
    requires Inserts(rule) && rule.mark != []
    requires forall k :: 0 <= k < |s| ==> s[k] != rule.mark[0]
    requires Cut(rule) <= e <= |s|
    requires Sub(rule, s) == Replacement(rule, s[..e]) + Sub(rule, s[e..])
    requires Sub(Literal(rule.mark, ""), Sub(rule, s[e..])) == s[e..]
    ensures Sub(Literal(rule.mark, ""), Sub(rule, s)) == s
  {
    var c, mark := Cut(rule), rule.mark;
    var a, b, t := s[..c], s[c..e], s[e..];
    var x, y := Replacement(rule, s[..e]), Sub(rule, t);
    var del := Literal(mark, "");
    ReplacementShape(rule, s, e);
    AvoidsSlices(s, mark[0], c, e);
    UndoPieces(mark, a, b, y, t);
    calc {
      Sub(del, Sub(rule, s));
      Sub(del, x + y);
      { Associate(a, mark, b, y); }
      Sub(del, a + (mark + (b + y)));
      a + (b + t);
      { Slices3(s, c, e); }
      s;
    }
  }

  /** Text avoiding a character has slices avoiding it. */
  lemma AvoidsSlices(s: string, ch: char, i: nat, j: nat)
    requires i <= j <= |s|
    requires forall k :: 0 <= k < |s| ==> s[k] != ch
    ensures forall k :: 0 <= k < |s[..i]| ==> s[..i][k] != ch
    ensures forall k :: 0 <= k < |s[i..j]| ==> s[i..j][k] != ch
  {
  }

  lemma Associate(a: string, b: string, c: string, d: string)
    ensures a + b + c + d == a + (b + (c + d))
  {
  }

  /** An inserting rule puts its mark at the cut of the match. */
  lemma ReplacementShape(rule: Rule, s: string, e: nat)
    requires Inserts(rule) && Cut(rule) <= e <= |s|
    ensures Replacement(rule, s[..e]) == s[..Cut(rule)] + rule.mark + s[Cut(rule)..e]
  {
    var c, m := Cut(rule), s[..e];
    assert m[..c] == s[..c] && m[c..] == s[c..e];
  }

  /** `re.sub` at a match: its replacement, then the scan goes on after it. */
  lemma SubAtMatch(rule: Rule, s: string, e: nat)
    requires s != [] && MatchAt(rule, s) == Some(e)
    ensures Sub(rule, s) == Replacement(rule, s[..e]) + Sub(rule, s[e..])
  {
  }

  /** Deleting the mark from copied text with one mark inside. */
  lemma UndoPieces(mark: string, a: string, b: string, y: string, t: string)
    requires mark != []
    requires forall k :: 0 <= k < |a| ==> a[k] != mark[0]
    requires forall k :: 0 <= k < |b| ==> b[k] != mark[0]
    requires Sub(Literal(mark, ""), y) == t
    ensures Sub(Literal(mark, ""), a + (mark + (b + y))) == a + (b + t)
  {
    DeleteSkip(mark, a, mark + (b + y));
    DeleteHead(mark, b + y);
    DeleteSkip(mark, b, y);
  }

  /** The rules whose replacement is never shorter than what it replaces. */
  predicate Grows(rule: Rule) {
    Inserts(rule) || (rule.Literal? && |rule.pattern| <= |rule.replacement|)
  }

  /** A rule whose replacements are never shorter never shortens the text. */
  lemma {:induction false} SubLengthens(rule: Rule, s: string)
    requires Grows(rule)
    ensures |Sub(rule, s)| >= |s|
    decreases |s|
  {
    if s != [] {
      match MatchAt(rule, s)
      case None =>
        SubLengthens(rule, s[1..]);
      case Some(e) =>
        SubLengthens(rule, s[e..]);
    }
  }

  /** The character every match of `rule` starts with. */
  predicate Opens(rule: Rule, c: char) {
    match rule
    case Literal(p, _) => p != [] && c == p[0]
    case Follow(lead, _, _) => lead != [] && c == lead[0]
    case Capital(_) => c == '.'
    case Mentions(_, _) => c == '.'
    case Squeeze => IsSpace(c)
  }

  lemma MatchStart(rule: Rule, s: string)
    ensures MatchAt(rule, s).Some? ==> s != [] && Opens(rule, s[0])
  {
    if MatchAt(rule, s).Some? && rule.Follow? {
      var w := FirstWord(s, rule.lead, rule.words, 0).value;
      assert s[0] == (rule.lead + rule.words[w])[0];
    }
  }

  /** Text without the character a rule's matches start with is left as it is. */
  lemma Untouched(rule: Rule, s: string)
    requires forall k :: 0 <= k < |s| ==> !Opens(rule, s[k])
    ensures Sub(rule, s) == s
  {
    forall k | 0 <= k < |s| ensures MatchAt(rule, s[k..]).None? {
      MatchStart(rule, s[k..]);
      assert s[k..][0] == s[k];
    }
    NoMatchUnchanged(rule, s);
  }

  // Whitespace squeezing and `remove_pauses`.

  /** Every whitespace character is a plain space and none follows another. */
  ghost predicate SingleSpaced(x: string) {
    && (forall k :: 0 <= k < |x| && IsSpace(x[k]) ==> x[k] == ' ')
    && (forall k :: 0 <= k < |x| - 1 && IsSpace(x[k]) ==> !IsSpace(x[k + 1]))
  }

  /** The text with its whitespace taken out. */
  function NonSpace(x: string): string {
    if x == [] then [] else (if IsSpace(x[0]) then [] else [x[0]]) + NonSpace(x[1..])
  }

  lemma {:induction false} NonSpaceAppend(a: string, b: string)
    ensures NonSpace(a + b) == NonSpace(a) + NonSpace(b)
  {
    if a != [] {
      assert (a + b)[1..] == a[1..] + b;
      NonSpaceAppend(a[1..], b);
    } else {
      assert a + b == b;
    }
  }

  lemma {:induction false} NonSpaceBlank(a: string)
    requires Blank(a)
    ensures NonSpace(a) == []
  {
    if a != [] {
      NonSpaceBlank(a[1..]);
    }
  }

  /**
   * `re.sub(r'\s+', ' ', s)` turns every run of whitespace into one plain
   * space: the words of `s.split()` stay as they are, the result is
   * single-spaced, keeps everything else in order, and starts with a space
   * exactly when `s` does.
   */
  lemma {:induction false} SqueezeSpec(s: string)
    ensures var out := Sub(Squeeze, s);
      && Words(out) == Words(s)
      && SingleSpaced(out) && NonSpace(out) == NonSpace(s)
      && (out == [] <==> s == [])
      && (out != [] ==> (IsSpace(out[0]) <==> IsSpace(s[0])))
    decreases |s|
  {
    if s != [] {
      match MatchAt(Squeeze, s)
      case None =>
        var t := s[1..];
        var rest := Sub(Squeeze, t);
        SqueezeSpec(t);
        SingleSpacedCons(s[0], rest);
        assert s == [s[0]] + t;
        NonSpaceAppend([s[0]], t);
        NonSpaceAppend([s[0]], rest);
        var out := [s[0]] + rest;
        assert out[1..] == rest;
        if t != [] {
          assert out[1] == rest[0] && s[1] == t[0];
        }
      case Some(e) =>
        var t := s[e..];
        var rest := Sub(Squeeze, t);
        MatchInLang(Squeeze, s);
        SqueezeSpec(t);
        if t != [] {
          assert t[0] == s[e];
        }
        SingleSpacedCons(' ', rest);
        assert s == s[..e] + t;
        NonSpaceAppend(s[..e], t);
        NonSpaceBlank(s[..e]);
        NonSpaceAppend(" ", rest);
        WordsBlankPrefix(s[..e], t);
        WordsBlankPrefix(" ", rest);
    }
  }

  lemma SingleSpacedCons(c: char, x: string)
    requires SingleSpaced(x) && (IsSpace(c) ==> c == ' ' && (x != [] ==> !IsSpace(x[0])))
    ensures SingleSpaced([c] + x)
  {
    var y := [c] + x;
    forall k | 1 <= k < |y| ensures y[k] == x[k - 1] {
    }
  }

  /**
   * `remove_pauses`: every `<pause>` and then every `<long_pause>` cut out,
   * whitespace runs squeezed to one space, and the ends stripped.
   */
  function RemovePauses(text: string): string {
    var noPauses := Sub(Literal("<pause>", ""), text);
    var noLongPauses := Sub(Literal("<long_pause>", ""), noPauses);
    Strip(Sub(Squeeze, noLongPauses))
  }

  /**
   * The markers are cut out as `split` and `join` would, and what is left is
   * the words of the cut text joined by single spaces,
   * `" ".join(cut.split())`: single-spaced, not starting or ending with a
   * space, and holding every other character of the cut text in order.
   */
  lemma RemovePausesSpec(text: string)
    ensures var cut := Join(Split(Join(Split(text, "<pause>"), ""), "<long_pause>"), "");
      var r := RemovePauses(text);
      && r == Join(Words(cut), " ")
      && SingleSpaced(r)
      && (r != [] ==> !IsSpace(r[0]) && !IsSpace(r[|r| - 1]))
      && NonSpace(r) == NonSpace(cut)
  {
    var c1 := Sub(Literal("<pause>", ""), text);
    LiteralSub("<pause>", "", text);
    var c2 := Sub(Literal("<long_pause>", ""), c1);
    LiteralSub("<long_pause>", "", c1);
    var q := Sub(Squeeze, c2);
    SqueezeSpec(c2);
    var r := Strip(q);
    StripSpec(q);
    StrippedClean(q, r);
    SpacedJoin(r);
  }

  /** Stripping keeps a text single-spaced and drops only whitespace, so its words stay. */
  lemma StrippedClean(q: string, r: string)
    requires StrippedOf(q, r) && SingleSpaced(q)
    ensures SingleSpaced(r) && NonSpace(r) == NonSpace(q) && Words(r) == Words(q)
  {
    var a, b :| 0 <= a <= b <= |q| && r == q[a..b] && SpacesOutside(q, a, b);
    SliceSingleSpaced(q, a, b);
    NonSpaceInside(q, a, b);
    WordsInside(q, a, b);
  }

  /** Only whitespace lies outside `q[a..b]`, so it has the words of `q`. */
  lemma WordsInside(q: string, a: nat, b: nat)
    requires a <= b <= |q| && SpacesOutside(q, a, b)
    ensures Words(q[a..b]) == Words(q)
  {
    var front, r, back := q[..a], q[a..b], q[b..];
    Slices3(q, a, b);
    BlankOutside(q, a, b);
    WordsBlankSuffix(front + r, back);
    WordsBlankPrefix(front, r);
  }

  /** A single-spaced text with no space at either end is its words joined by one space. */
  lemma {:induction false} SpacedJoin(x: string)
    requires SingleSpaced(x) && (x != [] ==> !IsSpace(x[0]) && !IsSpace(x[|x| - 1]))
    ensures x == Join(Words(x), " ")
    decreases |x|
  {
    if |x| > 1 {
      if IsSpace(x[1]) {
        var z := x[2..];
        assert |x| > 2 && x[1] == ' ' && !IsSpace(x[2]);
        SliceSingleSpaced(x, 2, |x|);
        assert z[0] == x[2] && z[|z| - 1] == x[|x| - 1];
        SpacedJoin(z);
        JoinAfterSpace(x, z);
      } else {
        var y := x[1..];
        SliceSingleSpaced(x, 1, |x|);
        assert y[0] == x[1] && y[|y| - 1] == x[|x| - 1];
        SpacedJoin(y);
        JoinHead(x[0], Words(y), " ");
        assert x == [x[0]] + y;
      }
    }
  }

  /** A word of one character, a space, then words joined by spaces. */
  lemma JoinAfterSpace(x: string, z: string)
    requires |x| > 2 && !IsSpace(x[0]) && x[1] == ' ' && z == x[2..] && !IsSpace(z[0])
    requires z == Join(Words(z), " ")
    ensures x == Join(Words(x), " ")
  {
    var y := x[1..];
    assert y[1..] == z;
    var w := Words(z);
    assert Words(y) == w;
    assert Words(x) == [[x[0]]] + w;
    assert ([[x[0]]] + w)[1..] == w;
    assert x == [x[0]] + " " + z;
  }

  lemma SliceSingleSpaced(q: string, a: nat, b: nat)
    requires a <= b <= |q| && SingleSpaced(q)
    ensures SingleSpaced(q[a..b])
  {
    var r := q[a..b];
    forall k | 0 <= k < |r| ensures r[k] == q[a + k] {
    }
  }

  /** Only whitespace lies outside `q[a..b]`, so it keeps all of the rest. */
  lemma NonSpaceInside(q: string, a: nat, b: nat)
    requires a <= b <= |q| && SpacesOutside(q, a, b)
    ensures NonSpace(q[a..b]) == NonSpace(q)
  {
    var front, r, back := q[..a], q[a..b], q[b..];
    Slices3(q, a, b);
    BlankOutside(q, a, b);
    NonSpaceBlank(front);
    NonSpaceBlank(back);
    NonSpaceAppend(front + r, back);
    NonSpaceAppend(front, r);
    assert NonSpace(q) == NonSpace(front + r) + [];
    assert NonSpace(front + r) == [] + NonSpace(r);
  }

  /** What lies outside `q[a..b]` is blank. */
  lemma BlankOutside(q: string, a: nat, b: nat)
    requires a <= b <= |q| && SpacesOutside(q, a, b)
    ensures Blank(q[..a]) && Blank(q[b..])
  {
    forall k | 0 <= k < a ensures IsSpace(q[..a][k]) {
      assert q[..a][k] == q[k];
    }
    forall k | 0 <= k < |q| - b ensures IsSpace(q[b..][k]) {
      assert q[b..][k] == q[b + k];
    }
  }

  // ---------------------------------------------------------------------
  // The five stages and `add_pauses`.
  // ---------------------------------------------------------------------

  /** `add_light_pauses`: `" <pause>"` after every third sentence but the last. */
  function LightPauses(text: string): string {
    Marked(Sentences(text), 3, " <pause>")
  }

  method AddLightPauses(text: string) returns (r: string)
    ensures r == LightPauses(text)
  {
    var sentences := SplitSentences(text);
    r := MarkEvery(sentences, 3, " <pause>");
  }

  /**
   * The light stage puts `" <pause>"` between groups of three sentences,
   * one mark fewer than there are groups; taking the marks out leaves the
   * sentences glued together, which is the text up to a blank remainder
   * without `[.!?]`.
   */
  lemma LightSpec(text: string)
    ensures var ss := Sentences(text);
      var gs := Groups(ss, 3);
      && LightPauses(text) == Join(gs, " <pause>")
      && Join(gs, "") == Concat(ss)
      && (ss != [] ==> |gs| == 1 + (|ss| - 1) / 3)
      && Covers(text, ss)
  {
    var ss := Sentences(text);
    MarkedGroups(ss, 3, " <pause>");
    GroupsConcat(ss, 3);
    if ss != [] {
      GroupCount(ss, 3);
    }
    SentencesSpec(text);
  }

  /** The rules of `add_moderate_pauses` after its loop. */
  const Thinks := Mentions("think", "Well, ")
  const Importants := Mentions("important", "<pause> ")

  /**
   * `add_moderate_pauses`: `" Hmm."` after every second sentence but the
   * last, then `"Well, "` before sentences naming "think" and `"<pause> "`
   * before sentences naming "important".
   */
  function ModeratePauses(text: string): string {
    var hmms := Marked(Sentences(text), 2, " Hmm.");
    var wells := Sub(Thinks, hmms);
    Sub(Importants, wells)
  }

  method AddModeratePauses(text: string) returns (r: string)
    ensures r == ModeratePauses(text)
  {
    var sentences := SplitSentences(text);
    var enhanced := MarkEvery(sentences, 2, " Hmm.");
    enhanced := Sub(Thinks, enhanced);
    enhanced := Sub(Importants, enhanced);
    r := enhanced;
  }

  /**
   * The moderate stage starts from the sentences joined by `" Hmm."` in
   * groups of two and only inserts after that: when that text holds no `W`
   * and no `<`, deleting every `"<pause> "` and then every `"Well, "` gives
   * it back.
   */
  lemma ModerateSpec(text: string)
    ensures var ss := Sentences(text);
      var hmms := Join(Groups(ss, 2), " Hmm.");
      && Marked(ss, 2, " Hmm.") == hmms
      && |ModeratePauses(text)| >= |hmms|
      && ('W' !in hmms && '<' !in hmms ==>
            Sub(Literal("Well, ", ""), Sub(Literal("<pause> ", ""), ModeratePauses(text))) == hmms)
  {
    var ss := Sentences(text);
    var hmms := Marked(ss, 2, " Hmm.");
    MarkedGroups(ss, 2, " Hmm.");
    var wells := Sub(Thinks, hmms);
    SubLengthens(Thinks, hmms);
    SubLengthens(Importants, wells);
    if 'W' !in hmms && '<' !in hmms {
      InsertUndone(Thinks, hmms);
      InsertAvoids(Thinks, hmms, '<');
      InsertUndone(Importants, wells);
    }
  }

  /** The rules of `add_regular_pauses`, in order. */
  const Transitions := Follow(". ", ["But", "However", "So", "Now", "Actually"], "<pause> ")
  const Becauses := Mentions("because", "Hmm, ")
  const KeyPoints := Follow(". ", ["The key", "The important", "What matters"], "<pause> ")

  function RegularPauses(text: string): string {
    Sub(KeyPoints, Sub(Becauses, Sub(Transitions, text)))
  }

  /** The rules of `add_frequent_pauses`, in order. */
  const Endings := Capital(" <pause>")
  const Insights := Mentions("insight", "Hmm, ")
  const Believes := Mentions("believe", "You see, ")
  const Questions := Literal("? ", "? <pause> ")

  function FrequentPauses(text: string): string {
    Sub(Questions, Sub(Believes, Sub(Insights, Sub(Endings, text))))
  }

  /** The rules of `add_maximum_pauses`, in order. */
  const LongEndings := Capital(" <long_pause>")
  const Wonders := Literal("? ", "? Hmm, well, ")
  const Startups := Mentions("startup", "Hmm, hmm, ")
  const Founders := Mentions("founder", "Well, you see, ")
  const Clauses := Follow(", ", ["and", "but", "so"], "<pause> ")

  function MaximumPauses(text: string): string {
    Sub(Clauses, Sub(Founders, Sub(Startups, Sub(Wonders, Sub(LongEndings, text)))))
  }

  /** The regular, frequent and maximum stages only ever add text. */
  lemma LaterStagesLengthen(text: string)
    ensures |RegularPauses(text)| >= |text|
    ensures |FrequentPauses(text)| >= |text|
    ensures |MaximumPauses(text)| >= |text|
  {
    SubLengthens(Transitions, text);
    SubLengthens(Becauses, Sub(Transitions, text));
    SubLengthens(KeyPoints, Sub(Becauses, Sub(Transitions, text)));
    var f1 := Sub(Endings, text);
    var f2 := Sub(Insights, f1);
    var f3 := Sub(Believes, f2);
    SubLengthens(Endings, text);
    SubLengthens(Insights, f1);
    SubLengthens(Believes, f2);
    SubLengthens(Questions, f3);
    var m1 := Sub(LongEndings, text);
    var m2 := Sub(Wonders, m1);
    var m3 := Sub(Startups, m2);
    var m4 := Sub(Founders, m3);
    SubLengthens(LongEndings, text);
    SubLengthens(Wonders, m1);
    SubLengthens(Startups, m2);
    SubLengthens(Founders, m3);
    SubLengthens(Clauses, m4);
  }

  /**
   * Every rule of the regular, frequent and maximum stages starts at a `.`,
   * a `?` or a `,`: text without them passes through those stages unchanged.
   */
  lemma LaterStagesQuiet(text: string)
    requires forall k :: 0 <= k < |text| ==> text[k] != '.' && text[k] != '?' && text[k] != ','
    ensures RegularPauses(text) == text
    ensures FrequentPauses(text) == text
    ensures MaximumPauses(text) == text
  {
    Untouched(Transitions, text);
    Untouched(Becauses, text);
    Untouched(KeyPoints, text);
    Untouched(Endings, text);
    Untouched(Insights, text);
    Untouched(Believes, text);
    Untouched(Questions, text);
    Untouched(LongEndings, text);
    Untouched(Wonders, text);
    Untouched(Startups, text);
    Untouched(Founders, text);
    Untouched(Clauses, text);
  }

  /** Stage `n` of the pipeline, 1 (light) to 5 (maximum). */
  function Stage(n: nat, text: string): string
    requires 1 <= n <= 5
  {
    match n
    case 1 => LightPauses(text)
    case 2 => ModeratePauses(text)
    case 3 => RegularPauses(text)
    case 4 => FrequentPauses(text)
    case 5 => MaximumPauses(text)
  }

  /** Stages 1 to `n`, each applied to what the one before produced. */
  function Staged(text: string, n: nat): string
    requires n <= 5
  {
    if n == 0 then text else Stage(n, Staged(text, n - 1))
  }

  /**
   * From scale 2 on, the next scale never gives shorter text: the regular,
   * frequent and maximum stages only add to what the scale below produced.
   */
  lemma LaterScalesLonger(text: string, n: nat)
    requires 2 <= n < 5
    ensures |Staged(text, n + 1)| >= |Staged(text, n)|
  {
    var before := Staged(text, n);
    StageLengthens(n + 1, before);
    assert Staged(text, n + 1) == Stage(n + 1, before);
  }

  lemma StageLengthens(n: nat, text: string)
    requires 3 <= n <= 5
    ensures |Stage(n, text)| >= |text|
  {
    LaterStagesLengthen(text);
    var r := Stage(n, text);
    if n == 3 {
      assert r == RegularPauses(text);
    } else if n == 4 {
      assert r == FrequentPauses(text);
    } else {
      assert r == MaximumPauses(text);
    }
  }

  const ScaleError := "Pause scale must be between 0 and 5"

  /**
   * `add_pauses`: the `ValueError` for a scale outside 0..5, the text as it
   * is at 0, and otherwise the stages up to the scale applied in turn.
   */
  method AddPauses(text: string, pauseScale: int) returns (r: Result<string, string>)
    ensures pauseScale < 0 || pauseScale > 5 ==> r == Failure(ScaleError)
    ensures 0 <= pauseScale <= 5 ==> r == Success(Staged(text, pauseScale))
  {
    if pauseScale < 0 || pauseScale > 5 {
      return Failure(ScaleError);
    }
    if pauseScale == 0 {
      return Success(text);
    }
    var enhanced := text;
    ghost var done: nat := 0;
    if pauseScale >= 1 {
      enhanced := AddLightPauses(enhanced);
      assert enhanced == Staged(text, 1);
      done := 1;
    }
    if pauseScale >= 2 {
      enhanced := AddModeratePauses(enhanced);
      assert enhanced == Staged(text, 2);
      done := 2;
    }
    if pauseScale >= 3 {
      enhanced := RegularPauses(enhanced);
      assert enhanced == Staged(text, 3);
      done := 3;
    }
    if pauseScale >= 4 {
      enhanced := FrequentPauses(enhanced);
      assert enhanced == Staged(text, 4);
      done := 4;
    }
    if pauseScale >= 5 {
      enhanced := MaximumPauses(enhanced);
      assert enhanced == Staged(text, 5);
      done := 5;
    }
    assert done == pauseScale;
    return Success(enhanced);
  }

  /**
   * A text of three sentences that ends with `[.!?]` gets longer at scale 2:
   * the light stage leaves it as it is and the moderate stage adds `" Hmm."`
   * after the second sentence.
   */
  lemma ScaleTwoLonger(text: string)
    requires |Sentences(text)| == 3
    requires text != [] && IsTerminal(text[|text| - 1])
    ensures |Staged(text, 2)| > |text|
  {
    var ss := Sentences(text);
    WholeText(text);
    LightSpec(text);
    var light := Groups(ss, 3);
    assert light == [Concat(ss)];
    assert Staged(text, 1) == text;
    ModerateSpec(text);
    var pairs := Groups(ss, 2);
    assert pairs == [Concat(ss[..2])] + Groups(ss[2..], 2);
    assert Groups(ss[2..], 2) == [Concat(ss[2..])];
    assert pairs[1..] == [Concat(ss[2..])];
    assert Join(pairs, " Hmm.") == Concat(ss[..2]) + " Hmm." + Concat(ss[2..]);
    assert ss == ss[..2] + ss[2..];
    ConcatAppend(ss[..2], ss[2..]);
  }

  /** Text that ends with `[.!?]` leaves no remainder: its sentences are all of it. */
  lemma WholeText(text: string)
    requires text != [] && IsTerminal(text[|text| - 1])
    ensures Concat(Sentences(text)) == text
  {
    SentencesSpec(text);
    var n := |Concat(Sentences(text))|;
    assert n == |text|;
    assert text[..|text|] == text;
  }

  /** `get_pause_scale_description`'s table. */
  const Descriptions: map<int, string> := map[
    0 := "No pauses added",
    1 := "Light pauses (every 3rd sentence ending)",
    2 := "Moderate pauses (every 2nd sentence ending) - DEFAULT",
    3 := "Regular pauses (most sentence endings)",
    4 := "Frequent pauses (all sentence endings)",
    5 := "Maximum pauses (multiple 'hmm's + longer pauses)"
  ]

  /** `descriptions.get(scale, "Invalid scale")`. */
  function PauseScaleDescription(scale: int): (r: string)
    ensures r == "Invalid scale" <==> !(0 <= scale <= 5)
    ensures 0 <= scale <= 5 ==> r == Descriptions[scale]
  {
    if scale in Descriptions then Descriptions[scale] else "Invalid scale"
  }
}
