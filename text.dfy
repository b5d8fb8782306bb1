/** Character classes and string helpers that the Python core gets from `str` and `re`. */
module Text {
  import opened Wrappers

  /** Python's `str.isspace()`, which is also what `\s` and `str.strip()` use on text. */
  predicate IsSpace(c: char) {
    c == ' ' || ('\t' <= c <= '\r') || ('\U{1C}' <= c <= '\U{1F}')
    || c == '\U{85}' || c == '\U{A0}' || c == '\U{1680}'
    || ('\U{2000}' <= c <= '\U{200A}') || c == '\U{2028}' || c == '\U{2029}'
    || c == '\U{202F}' || c == '\U{205F}' || c == '\U{3000}'
  }

  /** The sentence-ending characters `.`, `!` and `?` of the class `[.!?]`. */
  predicate IsTerminal(c: char) {
    c == '.' || c == '!' || c == '?'
  }

  /** The regex class `[A-Z]`. */
  predicate IsUpper(c: char) {
    'A' <= c <= 'Z'
  }

  /** True when `str.strip()` would leave nothing. */
  predicate Blank(s: string) {
    forall i :: 0 <= i < |s| ==> IsSpace(s[i])
  }

  /** End of the maximal run of whitespace that starts at `i`. */
  function SpaceRunEnd(s: string, i: nat): (j: nat)
    requires i <= |s|
    ensures i <= j <= |s|
    decreases |s| - i
  {
    if i < |s| && IsSpace(s[i]) then SpaceRunEnd(s, i + 1) else i
  }

  /** The run is all whitespace and cannot be extended. */
  lemma {:induction false} SpaceRunEndSpec(s: string, i: nat)
    requires i <= |s|
    ensures forall k :: i <= k < SpaceRunEnd(s, i) ==> IsSpace(s[k])
    ensures SpaceRunEnd(s, i) < |s| ==> !IsSpace(s[SpaceRunEnd(s, i)])
    decreases |s| - i
  {
    if i < |s| && IsSpace(s[i]) {
      SpaceRunEndSpec(s, i + 1);
    }
  }

  /** End of the maximal run of `[.!?]` characters that starts at `i`. */
  function TerminalRunEnd(s: string, i: nat): (j: nat)
    requires i <= |s|
    ensures i <= j <= |s|
    decreases |s| - i
  {
    if i < |s| && IsTerminal(s[i]) then TerminalRunEnd(s, i + 1) else i
  }

  /** The run is all `[.!?]` and cannot be extended. */
  lemma {:induction false} TerminalRunEndSpec(s: string, i: nat)
    requires i <= |s|
    ensures forall k :: i <= k < TerminalRunEnd(s, i) ==> IsTerminal(s[k])
    ensures TerminalRunEnd(s, i) < |s| ==> !IsTerminal(s[TerminalRunEnd(s, i)])
    decreases |s| - i
  {
    if i < |s| && IsTerminal(s[i]) {
      TerminalRunEndSpec(s, i + 1);
    }
  }

  /** Every position inside a run of `[.!?]` sees the same run end. */
  lemma {:induction false} TerminalRunShared(s: string, i: nat)
    requires i <= |s|
    ensures forall q :: i <= q <= TerminalRunEnd(s, i) ==> TerminalRunEnd(s, q) == TerminalRunEnd(s, i)
    decreases |s| - i
  {
    if i < |s| && IsTerminal(s[i]) {
      TerminalRunShared(s, i + 1);
    }
  }

  /** On a prefix `s[..n]` the run of `[.!?]` is the run of `s`, cut at `n`. */
  lemma {:induction false} TerminalRunEndPrefix(s: string, i: nat, n: nat)
    requires i <= n <= |s|
    ensures TerminalRunEnd(s[..n], i) == if TerminalRunEnd(s, i) < n then TerminalRunEnd(s, i) else n
    decreases n - i
  {
    if i < n {
      assert s[..n][i] == s[i];
      if IsTerminal(s[i]) {
        TerminalRunEndPrefix(s, i + 1, n);
      }
    }
  }

  /** On a prefix `s[..n]` the run of whitespace is the run of `s`, cut at `n`. */
  lemma {:induction false} SpaceRunEndPrefix(s: string, i: nat, n: nat)
    requires i <= n <= |s|
    ensures SpaceRunEnd(s[..n], i) == if SpaceRunEnd(s, i) < n then SpaceRunEnd(s, i) else n
    decreases n - i
  {
    if i < n {
      assert s[..n][i] == s[i];
      if IsSpace(s[i]) {
        SpaceRunEndPrefix(s, i + 1, n);
      }
    }
  }

  /** Python's `str.strip()`: drop leading and trailing whitespace. */
  function Strip(s: string): string
    decreases |s|
  {
    if s != [] && IsSpace(s[0]) then Strip(s[1..])
    else if s != [] && IsSpace(s[|s| - 1]) then Strip(s[..|s| - 1])
    else s
  }

  /**
   * `r` is what `strip()` leaves of `s`: nothing exactly when `s` is blank,
   * otherwise a slice `s[a..b]` that starts and ends with a non-space, with
   * only whitespace before `a` and from `b` on.
   */
  ghost predicate StrippedOf(s: string, r: string) {
    && (Blank(s) <==> r == [])
    && (r != [] ==> !IsSpace(r[0]) && !IsSpace(r[|r| - 1]))
    && exists a, b :: 0 <= a <= b <= |s| && r == s[a..b] && SpacesOutside(s, a, b)
  }

  /** Everything before `a` and from `b` on is whitespace. */
  ghost predicate SpacesOutside(s: string, a: nat, b: nat)
    requires a <= b <= |s|
  {
    forall k :: 0 <= k < |s| && !(a <= k < b) ==> IsSpace(s[k])
  }

  lemma {:induction false} StripSpec(s: string)
    ensures StrippedOf(s, Strip(s))
    decreases |s|
  {
    if s != [] && IsSpace(s[0]) {
      StripSpec(s[1..]);
      StripFront(s, Strip(s[1..]));
    } else if s != [] && IsSpace(s[|s| - 1]) {
      StripSpec(s[..|s| - 1]);
      StripBack(s, Strip(s[..|s| - 1]));
    } else {
      assert s == s[0..|s|];
      assert SpacesOutside(s, 0, |s|);
    }
  }

  /** Cutting a leading space does not change what `strip()` leaves. */
  lemma StripFront(s: string, r: string)
    requires s != [] && IsSpace(s[0]) && StrippedOf(s[1..], r)
    ensures StrippedOf(s, r)
  {
    var t := s[1..];
    var a, b :| 0 <= a <= b <= |t| && r == t[a..b] && SpacesOutside(t, a, b);
    SpacesOutsideFront(s, a, b);
    SliceOfSuffix(s, 1, a, b);
    BlankFront(s);
  }

  lemma SpacesOutsideFront(s: string, a: nat, b: nat)
    requires s != [] && IsSpace(s[0]) && a <= b <= |s| - 1 && SpacesOutside(s[1..], a, b)
    ensures SpacesOutside(s, a + 1, b + 1)
  {
    forall k | 0 <= k < |s| && !(a + 1 <= k < b + 1)
      ensures IsSpace(s[k])
    {
      if k > 0 {
        assert s[k] == s[1..][k - 1];
      }
    }
  }

  lemma BlankFront(s: string)
    requires s != [] && IsSpace(s[0])
    ensures Blank(s) <==> Blank(s[1..])
  {
    if Blank(s[1..]) {
      forall k | 0 <= k < |s|
        ensures IsSpace(s[k])
      {
        if k > 0 {
          assert s[k] == s[1..][k - 1];
        }
      }
    }
  }

  lemma SliceOfSuffix(s: string, k: nat, a: nat, b: nat)
    requires k <= |s| && a <= b <= |s| - k
    ensures s[k..][a..b] == s[k + a..k + b]
  {
  }

  lemma SliceOfPrefix(s: string, k: nat, a: nat, b: nat)
    requires a <= b <= k <= |s|
    ensures s[..k][a..b] == s[a..b]
  {
  }

  /** Cutting a trailing space does not change what `strip()` leaves. */
  lemma StripBack(s: string, r: string)
    requires s != [] && IsSpace(s[|s| - 1]) && StrippedOf(s[..|s| - 1], r)
    ensures StrippedOf(s, r)
  {
    var t := s[..|s| - 1];
    var a, b :| 0 <= a <= b <= |t| && r == t[a..b] && SpacesOutside(t, a, b);
    SpacesOutsideBack(s, a, b);
    SliceOfPrefix(s, |s| - 1, a, b);
    BlankBack(s);
  }

  lemma SpacesOutsideBack(s: string, a: nat, b: nat)
    requires s != [] && IsSpace(s[|s| - 1]) && a <= b <= |s| - 1 && SpacesOutside(s[..|s| - 1], a, b)
    ensures SpacesOutside(s, a, b)
  {
    forall k | 0 <= k < |s| && !(a <= k < b)
      ensures IsSpace(s[k])
    {
      if k < |s| - 1 {
        assert s[k] == s[..|s| - 1][k];
      }
    }
  }

  lemma BlankBack(s: string)
    requires s != [] && IsSpace(s[|s| - 1])
    ensures Blank(s) <==> Blank(s[..|s| - 1])
  {
    if Blank(s[..|s| - 1]) {
      forall k | 0 <= k < |s|
        ensures IsSpace(s[k])
      {
        if k < |s| - 1 {
          assert s[k] == s[..|s| - 1][k];
        }
      }
    }
  }

  /** ASCII lower-casing of one character. */
  function LowerChar(c: char): char {
    if 'A' <= c <= 'Z' then (c as int + 32) as char else c
  }

  /** `str.lower()`, restricted to ASCII letters. */
  function Lower(s: string): (r: string)
    ensures |r| == |s|
    ensures forall i :: 0 <= i < |s| ==> r[i] == LowerChar(s[i])
  {
    seq(|s|, i requires 0 <= i < |s| => LowerChar(s[i]))
  }

  /** `sub` occurs in `s` starting at index `i`. */
  predicate OccursAt(s: string, sub: string, i: nat) {
    i + |sub| <= |s| && s[i..i + |sub|] == sub
  }

  /** Python's `sub in s`. */
  predicate Contains(s: string, sub: string) {
    exists i: nat :: i + |sub| <= |s| && OccursAt(s, sub, i)
  }

  /** Python's `s.find(sub, from)`: the first occurrence at or after `from`. */
  function Find(s: string, sub: string, from: nat): (r: Option<nat>)
    requires from <= |s|
    ensures r.Some? ==> from <= r.value && OccursAt(s, sub, r.value)
    decreases |s| - from
  {
    if OccursAt(s, sub, from) then Some(from)
    else if from + |sub| >= |s| then None
    else Find(s, sub, from + 1)
  }

  /** `find` gives the first occurrence, and none means there is none. */
  lemma {:induction false} FindSpec(s: string, sub: string, from: nat)
    requires from <= |s|
    ensures Find(s, sub, from).Some? ==>
      forall i :: from <= i < Find(s, sub, from).value ==> !OccursAt(s, sub, i)
    ensures Find(s, sub, from).None? ==> forall i :: from <= i ==> !OccursAt(s, sub, i)
    decreases |s| - from
  {
    if !OccursAt(s, sub, from) && from + |sub| < |s| {
      FindSpec(s, sub, from + 1);
    }
  }

  lemma FindContains(s: string, sub: string)
    ensures Find(s, sub, 0).Some? <==> Contains(s, sub)
  {
    FindSpec(s, sub, 0);
    if Contains(s, sub) {
      var i: nat :| i + |sub| <= |s| && OccursAt(s, sub, i);
      assert !Find(s, sub, 0).None?;
    }
  }

  /**
   * Python's `s.split(sep)`: the pieces between the occurrences of `sep`,
   * found left to right, read one character at a time.
   */
  function Split(s: string, sep: string): (parts: seq<string>)
    requires sep != []
    ensures parts != []
    decreases |s|
  {
    if OccursAt(s, sep, 0) then [[]] + Split(s[|sep|..], sep)
    else if s == [] then [[]]
    else
      var rest := Split(s[1..], sep);
      [[s[0]] + rest[0]] + rest[1..]
  }

  /** Python's `sep.join(parts)`. */
  function Join(parts: seq<string>, sep: string): string
    decreases |parts|
  {
    if parts == [] then []
    else if |parts| == 1 then parts[0]
    else parts[0] + sep + Join(parts[1..], sep)
  }

  /** A character put before the first piece comes first in the joined text. */
  lemma JoinHead(c: char, parts: seq<string>, sep: string)
    requires parts != []
    ensures Join([[c] + parts[0]] + parts[1..], sep) == [c] + Join(parts, sep)
  {
    var q := [[c] + parts[0]] + parts[1..];
    assert q[1..] == parts[1..];
  }

  /** Joining the pieces of `s.split(sep)` with `sep` gives `s` back. */
  lemma {:induction false} SplitJoin(s: string, sep: string)
    requires sep != []
    ensures Join(Split(s, sep), sep) == s
    decreases |s|
  {
    if OccursAt(s, sep, 0) {
      var tail := Split(s[|sep|..], sep);
      SplitJoin(s[|sep|..], sep);
      assert ([[]] + tail)[1..] == tail;
      assert s == sep + s[|sep|..];
    } else if s != [] {
      SplitJoin(s[1..], sep);
      JoinHead(s[0], Split(s[1..], sep), sep);
    }
  }

  /**
   * The first piece of `s.split(sep)` is `s` up to the first occurrence of
   * `sep`, or all of `s` when there is none; the other pieces are those of
   * the text after that occurrence.
   */
  lemma {:induction false} SplitHead(s: string, sep: string)
    requires sep != []
    ensures var parts := Split(s, sep);
      var h := parts[0];
      && |h| <= |s| && h == s[..|h|]
      && (forall k :: 0 <= k < |h| ==> !OccursAt(s, sep, k))
      && (|parts| == 1 ==> h == s)
      && (|parts| > 1 ==> OccursAt(s, sep, |h|) && parts[1..] == Split(s[|h| + |sep|..], sep))
    decreases |s|
  {
    var parts := Split(s, sep);
    if OccursAt(s, sep, 0) {
      assert parts == [[]] + Split(s[|sep|..], sep);
    } else if s != [] {
      var t := s[1..];
      var rest := Split(t, sep);
      SplitHead(t, sep);
      assert parts == [[s[0]] + rest[0]] + rest[1..];
      var h := parts[0];
      forall k | 0 < k < |h| ensures !OccursAt(s, sep, k) {
        OccursShift(s, sep, k - 1);
      }
      if |parts| > 1 {
        OccursShift(s, sep, |rest[0]|);
        assert t[|rest[0]| + |sep|..] == s[|h| + |sep|..];
      }
    }
  }

  /** The first piece ends where `sep` first occurs, or at the end of `s`. */
  lemma PieceEnd(s: string, sep: string, e: nat)
    requires sep != [] && e <= |s|
    requires forall k :: 0 <= k < e ==> !OccursAt(s, sep, k)
    requires e == |s| || OccursAt(s, sep, e)
    ensures Split(s, sep)[0] == s[..e]
    ensures e < |s| ==> |Split(s, sep)| > 1 && Split(s, sep)[1..] == Split(s[e + |sep|..], sep)
  {
    SplitHead(s, sep);
    var parts := Split(s, sep);
    var n := |parts[0]|;
    assert e <= n by {
      if |parts| > 1 {
        assert OccursAt(s, sep, n);
      }
    }
    assert n <= e by {
      if e < |s| {
        assert OccursAt(s, sep, e);
      }
    }
  }

  /** An occurrence in `s[a..]` is one in `s`, `a` places further on. */
  lemma OccursDrop(s: string, sub: string, a: nat, k: nat)
    requires a <= |s|
    ensures OccursAt(s[a..], sub, k) <==> OccursAt(s, sub, a + k)
  {
    if a + k + |sub| <= |s| {
      assert s[a..][k..k + |sub|] == s[a + k..a + k + |sub|];
    }
  }

  /**
   * `s[a..q].split("\n")[0]` runs from `a` up to the first newline, at `e`,
   * or to `q` when there is none.
   */
  lemma LineEnd(s: string, a: nat, e: nat, q: nat)
    requires a <= e <= q <= |s|
    requires forall k :: a <= k < e ==> s[k] != '\n'
    requires e == q || s[e] == '\n'
    ensures Split(s[a..q], "\n")[0] == s[a..e]
  {
    var t := s[a..q];
    forall k | 0 <= k < e - a ensures !OccursAt(t, "\n", k) {
      assert t[k..k + 1][0] == s[a + k];
    }
    if e < q {
      assert t[e - a..e - a + 1] == [s[e]];
    }
    PieceEnd(t, "\n", e - a);
    assert t[..e - a] == s[a..e];
  }

  /** The first piece of `s[a..]` ends where `sep` first occurs from `a` on. */
  lemma PieceFrom(s: string, sep: string, a: nat, g: nat)
    requires sep != [] && a <= g <= |s|
    requires forall k :: a <= k < g ==> !OccursAt(s, sep, k)
    requires g == |s| || OccursAt(s, sep, g)
    ensures Split(s[a..], sep)[0] == s[a..g]
  {
    var rest := s[a..];
    forall k | 0 <= k < g - a ensures !OccursAt(rest, sep, k) {
      OccursDrop(s, sep, a, k);
    }
    OccursDrop(s, sep, a, g - a);
    PieceEnd(rest, sep, g - a);
  }

  /**
   * `s.split(sep)[1]` is the text between the first occurrence of `sep`, at
   * `p`, and the next one, at `g`, or the end of `s` when there is none.
   */
  lemma SecondPiece(s: string, sep: string, p: nat, g: nat)
    requires sep != [] && p + |sep| <= g <= |s|
    requires OccursAt(s, sep, p) && forall k :: 0 <= k < p ==> !OccursAt(s, sep, k)
    requires forall k :: p + |sep| <= k < g ==> !OccursAt(s, sep, k)
    requires g == |s| || OccursAt(s, sep, g)
    ensures |Split(s, sep)| > 1 && Split(s, sep)[1] == s[p + |sep|..g]
  {
    PieceEnd(s, sep, p);
    PieceFrom(s, sep, p + |sep|, g);
    var parts := Split(s, sep);
    assert parts[1] == parts[1..][0];
  }

  /**
   * No piece of `s.split(sep)` contains `sep`, and there is more than one
   * piece exactly when `sep` occurs in `s`.
   */
  lemma {:induction false} SplitPieces(s: string, sep: string)
    requires sep != []
    ensures var parts := Split(s, sep);
      && (forall k :: 0 <= k < |parts| ==> !Contains(parts[k], sep))
      && (|parts| > 1 <==> Contains(s, sep))
    decreases |s|
  {
    var parts := Split(s, sep);
    if OccursAt(s, sep, 0) {
      var tail := Split(s[|sep|..], sep);
      SplitPieces(s[|sep|..], sep);
      assert parts == [[]] + tail;
      assert forall k :: 1 <= k < |parts| ==> parts[k] == tail[k - 1];
      assert !Contains(parts[0], sep);
      assert Contains(s, sep) by {
        assert OccursAt(s, sep, 0);
      }
    } else if s != [] {
      var rest := Split(s[1..], sep);
      SplitPieces(s[1..], sep);
      SplitHead(s[1..], sep);
      assert parts == [[s[0]] + rest[0]] + rest[1..];
      assert forall k :: 1 <= k < |parts| ==> parts[k] == rest[k];
      FirstPieceClean(s, sep, rest[0]);
      ContainsTail(s, sep);
    }
  }

  /** A prefix of `s` not containing `sep` after its first character, with no `sep` at 0, has none. */
  lemma FirstPieceClean(s: string, sep: string, r: string)
    requires sep != [] && s != [] && !OccursAt(s, sep, 0)
    requires |r| < |s| && r == s[1..][..|r|] && !Contains(r, sep)
    ensures !Contains([s[0]] + r, sep)
  {
    var w := [s[0]] + r;
    assert w == s[..|w|];
    forall k: nat | k + |sep| <= |w| ensures !OccursAt(w, sep, k) {
      if k == 0 {
        assert w[..|sep|] == s[..|sep|];
      } else {
        assert !OccursAt(r, sep, k - 1);
        assert w[k..k + |sep|] == r[k - 1..k - 1 + |sep|];
      }
    }
  }

  /** Where `sep` does not start `s`, it occurs in `s` exactly when it occurs in the tail. */
  lemma ContainsTail(s: string, sep: string)
    requires sep != [] && s != [] && !OccursAt(s, sep, 0)
    ensures Contains(s, sep) <==> Contains(s[1..], sep)
  {
    if Contains(s, sep) {
      var i: nat :| i + |sep| <= |s| && OccursAt(s, sep, i);
      OccursShift(s, sep, i - 1);
      assert OccursAt(s[1..], sep, i - 1);
    }
    if Contains(s[1..], sep) {
      var i: nat :| i + |sep| <= |s| - 1 && OccursAt(s[1..], sep, i);
      OccursShift(s, sep, i);
    }
  }

  /** An occurrence in the tail of `s` is one in `s`, a place further on. */
  lemma OccursShift(s: string, p: string, k: nat)
    requires s != []
    ensures OccursAt(s[1..], p, k) <==> OccursAt(s, p, k + 1)
  {
    if k + |p| <= |s| - 1 {
      assert s[1..][k..k + |p|] == s[k + 1..k + 1 + |p|];
    }
  }

  /** Before the first occurrence there is none. */
  lemma NoEarlierOccurrence(s: string, sep: string, i: nat)
    requires sep != []
    requires i <= |s| && forall k :: 0 <= k < i ==> !OccursAt(s, sep, k)
    ensures !Contains(s[..i], sep)
  {
    forall k: nat | k + |sep| <= i ensures !OccursAt(s[..i], sep, k) {
      assert !OccursAt(s, sep, k);
      assert s[..i][k..k + |sep|] == s[k..k + |sep|];
    }
  }

  /** Joining with the empty separator is concatenation. */
  lemma {:induction false} JoinEmpty(parts: seq<string>)
    ensures Join(parts, "") == Concat(parts)
    decreases |parts|
  {
    if |parts| == 1 {
      assert Concat(parts) == parts[0] + Concat([]);
    } else if parts != [] {
      JoinEmpty(parts[1..]);
    }
  }

  /** Concatenation of a list of strings, Python's `"".join(parts)`. */
  function Concat(parts: seq<string>): string {
    if parts == [] then [] else parts[0] + Concat(parts[1..])
  }

  lemma {:induction false} ConcatAppend(a: seq<string>, b: seq<string>)
    ensures Concat(a + b) == Concat(a) + Concat(b)
  {
    if a == [] {
      assert a + b == b;
    } else {
      assert (a + b)[1..] == a[1..] + b;
      ConcatAppend(a[1..], b);
    }
  }

  lemma ConcatSnoc(a: seq<string>, x: string)
    ensures Concat(a + [x]) == Concat(a) + x
  {
    ConcatAppend(a, [x]);
    assert Concat([x]) == x + Concat([]);
  }

  lemma BlankConcat(a: string, b: string)
    ensures Blank(a + b) <==> Blank(a) && Blank(b)
  {
    if Blank(a + b) {
      forall i | 0 <= i < |a| ensures IsSpace(a[i]) {
        assert a[i] == (a + b)[i];
      }
      forall i | 0 <= i < |b| ensures IsSpace(b[i]) {
        assert b[i] == (a + b)[|a| + i];
      }
    }
  }

  /**
   * Python's `str.split()` with no argument: the maximal runs of
   * non-whitespace characters, in order. A non-space character either ends
   * its word (before whitespace or the end) or starts the first word of
   * what follows.
   */
  function Words(x: string): (r: seq<string>)
    ensures x != [] && !IsSpace(x[0]) ==> r != []
    decreases |x|
  {
    if x == [] then []
    else if IsSpace(x[0]) then Words(x[1..])
    else if |x| == 1 || IsSpace(x[1]) then [[x[0]]] + Words(x[1..])
    else var w := Words(x[1..]); [[x[0]] + w[0]] + w[1..]
  }

  /** Every word is non-empty and holds no whitespace. */
  lemma {:induction false} WordsClean(x: string)
    ensures forall j :: 0 <= j < |Words(x)| ==> Words(x)[j] != []
    ensures forall j, k :: 0 <= j < |Words(x)| && 0 <= k < |Words(x)[j]| ==> !IsSpace(Words(x)[j][k])
    decreases |x|
  {
    if x != [] {
      WordsClean(x[1..]);
      if !IsSpace(x[0]) && |x| > 1 && !IsSpace(x[1]) {
        var w := Words(x[1..]);
        var r := Words(x);
        assert r == [[x[0]] + w[0]] + w[1..];
        forall j, k | 0 <= j < |r| && 0 <= k < |r[j]| ensures !IsSpace(r[j][k]) {
          if j == 0 {
            if k > 0 {
              assert r[0][k] == w[0][k - 1];
            }
          } else {
            assert r[j] == w[j];
          }
        }
      }
    }
  }

  /** Leading whitespace does not change the words. */
  lemma {:induction false} WordsBlankPrefix(a: string, t: string)
    requires Blank(a)
    ensures Words(a + t) == Words(t)
    decreases |a|
  {
    if a != [] {
      assert (a + t)[1..] == a[1..] + t;
      WordsBlankPrefix(a[1..], t);
    } else {
      assert a + t == t;
    }
  }

  /** Trailing whitespace does not change the words. */
  lemma {:induction false} WordsBlankSuffix(t: string, b: string)
    requires Blank(b)
    ensures Words(t + b) == Words(t)
    decreases |t|
  {
    if t == [] {
      assert t + b == b + [];
      WordsBlankPrefix(b, []);
    } else {
      var x := t + b;
      assert x[1..] == t[1..] + b;
      WordsBlankSuffix(t[1..], b);
      if |t| == 1 {
        assert x[1..] == b;
        WordsBlankPrefix(b, []);
        assert b + [] == b;
      } else {
        assert x[1] == t[1];
      }
    }
  }
}
