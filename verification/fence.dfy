/** The non-global replace `s.replace(/```[\s\S]*?\n([\s\S]*?)```/, '$1')`
    that strips the first fenced code block of the provider's reply.

    The pattern, as an ECMAScript regular expression, matches an opening
    "```", the shortest run of arbitrary characters up to a line feed (the
    info string, as in CommonMark fenced code blocks), the shortest body
    up to the next "```", and that closing "```". The match is replaced
    by the body alone. */
module Fence {
  import opened Wrappers

  const Backticks: string := "```"
  const LineFeed: string := "\n"

  /** `pat` occurs in `s` starting at index `j`. */
  predicate Occurs(s: string, pat: string, j: int) {
    0 <= j && j + |pat| <= |s| && s[j..j + |pat|] == pat
  }

  /** The first occurrence of `pat` in `s` at or after `from`. */
  function IndexOf(s: string, pat: string, from: nat): (r: Option<nat>)
    ensures r.Some? ==> from <= r.value && Occurs(s, pat, r.value)
    ensures r.Some? ==> forall j :: from <= j < r.value ==> !Occurs(s, pat, j)
    ensures r.None? ==> forall j :: from <= j ==> !Occurs(s, pat, j)
    decreases |s| - from
  {
    if from + |pat| > |s| then None
    else if s[from..from + |pat|] == pat then Some(from)
    else IndexOf(s, pat, from + 1)
  }

  /** Positions of a match: the opening backticks, the line feed ending the
      info string, and the closing backticks. */
  datatype Span = Span(open: nat, lineFeed: nat, close: nat)

  /** Reading the pattern from `i` with the info string ending at the line
      feed `n` and the body ending at the backticks at `c` succeeds. */
  predicate MatchAt(s: string, i: int, n: int, c: int) {
    && Occurs(s, Backticks, i)
    && i + |Backticks| <= n && Occurs(s, LineFeed, n)
    && n + 1 <= c && Occurs(s, Backticks, c)
  }

  /** Some body can close a match that opens at `i` and ends its info
      string at `n`. */
  ghost predicate MatchableWith(s: string, i: int, n: int) {
    exists c :: MatchAt(s, i, n, c)
  }

  /** Some match opens at `i`. */
  ghost predicate Matchable(s: string, i: int) {
    exists n :: MatchableWith(s, i, n)
  }

  /** The match the regular expression engine reports: the leftmost start
      that can match at all; from there the shortest info string that still
      lets the rest match (lazy `[\s\S]*?`); then the shortest body (lazy
      `([\s\S]*?)`). */
  ghost predicate RegexMatch(s: string, i: int, n: int, c: int) {
    && MatchAt(s, i, n, c)
    && (forall i' :: 0 <= i' < i ==> !Matchable(s, i'))
    && (forall n' :: i + |Backticks| <= n' < n ==> !MatchableWith(s, i, n'))
    && (forall c' :: n + 1 <= c' < c ==> !MatchAt(s, i, n, c'))
  }

  /** There is at most one regular expression match. */
  lemma RegexMatchUnique(s: string, i: int, n: int, c: int, i2: int, n2: int, c2: int)
    requires RegexMatch(s, i, n, c) && RegexMatch(s, i2, n2, c2)
    ensures i == i2 && n == n2 && c == c2
  {
    assert MatchableWith(s, i, n) && MatchableWith(s, i2, n2);
    assert Matchable(s, i) && Matchable(s, i2);
    if i < i2 || i2 < i { assert false; }
    if n < n2 || n2 < n { assert false; }
  }

  /** The engine anchored at an opening "```" at `i`: it first extends the
      info string to the nearest line feed, then the body to the nearest
      "```". Backtracking to a later line feed cannot help, since any
      "```" after that line feed also follows the nearest one. */
  function MatchFrom(s: string, i: nat): (m: Option<Span>)
    requires Occurs(s, Backticks, i)
    ensures m.Some? ==> m.value.open == i && MatchAt(s, i, m.value.lineFeed, m.value.close)
    ensures m.Some? ==> forall n' :: i + |Backticks| <= n' < m.value.lineFeed ==> !MatchableWith(s, i, n')
    ensures m.Some? ==> forall c' :: m.value.lineFeed + 1 <= c' < m.value.close ==> !MatchAt(s, i, m.value.lineFeed, c')
    ensures m.None? <==> !Matchable(s, i)
  {
    match IndexOf(s, LineFeed, i + |Backticks|)
    case None =>
      NoLineFeedNoMatch(s, i);
      None
    case Some(n) =>
      match IndexOf(s, Backticks, n + 1)
      case None =>
        NoCloseNoMatch(s, i, n);
        None
      case Some(c) =>
        assert MatchAt(s, i, n, c) && MatchableWith(s, i, n);
        Some(Span(i, n, c))
  }

  lemma NoLineFeedNoMatch(s: string, i: nat)
    requires forall j :: i + |Backticks| <= j ==> !Occurs(s, LineFeed, j)
    ensures !Matchable(s, i)
  {
  }

  lemma NoCloseNoMatch(s: string, i: nat, n: nat)
    requires forall j :: i + |Backticks| <= j < n ==> !Occurs(s, LineFeed, j)
    requires forall j :: n + 1 <= j ==> !Occurs(s, Backticks, j)
    ensures !Matchable(s, i)
  {
  }

  /** The engine's scan: try each "```" at or after `from` in turn, moving
      on to the next one when the match anchored there fails. */
  function SearchFrom(s: string, from: nat): (m: Option<Span>)
    ensures m.Some? ==> from <= m.value.open && MatchAt(s, m.value.open, m.value.lineFeed, m.value.close)
    ensures m.Some? ==> forall i' :: from <= i' < m.value.open ==> !Matchable(s, i')
    ensures m.Some? ==> forall n' :: m.value.open + |Backticks| <= n' < m.value.lineFeed ==> !MatchableWith(s, m.value.open, n')
    ensures m.Some? ==> forall c' :: m.value.lineFeed + 1 <= c' < m.value.close ==> !MatchAt(s, m.value.open, m.value.lineFeed, c')
    ensures m.None? ==> forall i' :: from <= i' ==> !Matchable(s, i')
    decreases |s| - from
  {
    match IndexOf(s, Backticks, from)
    case None =>
      NotOpenedNoMatch(s, from, |s|);
      None
    case Some(i) =>
      NotOpenedNoMatch(s, from, i);
      match MatchFrom(s, i)
      case Some(m) => Some(m)
      case None => SearchFrom(s, i + 1)
  }

  lemma NotOpenedNoMatch(s: string, from: nat, to: int)
    requires forall j :: from <= j < to ==> !Occurs(s, Backticks, j)
    ensures forall j :: from <= j < to ==> !Matchable(s, j)
  {
  }

  /** The first match of the pattern in `s`, if any. */
  function FirstMatch(s: string): (m: Option<Span>)
    ensures m.Some? ==> RegexMatch(s, m.value.open, m.value.lineFeed, m.value.close)
    ensures m.None? <==> forall i :: 0 <= i ==> !Matchable(s, i)
  {
    SearchFrom(s, 0)
  }

  /** `s.replace(/```[\s\S]*?\n([\s\S]*?)```/, '$1')`: the first match is
      replaced by its captured body; text before and after it is kept. */
  function StripFirstFence(s: string): (r: string)
    ensures forall i, n, c :: RegexMatch(s, i, n, c) ==>
              0 <= i <= n < c && c + |Backticks| <= |s| &&
              r == s[..i] + s[n + 1..c] + s[c + |Backticks|..]
    ensures (forall i :: 0 <= i ==> !Matchable(s, i)) ==> r == s
  {
    match FirstMatch(s)
    case None => s
    case Some(m) =>
      OnlyRegexMatch(s, m);
      s[..m.open] + s[m.lineFeed + 1..m.close] + s[m.close + |Backticks|..]
  }

  lemma OnlyRegexMatch(s: string, m: Span)
    requires RegexMatch(s, m.open, m.lineFeed, m.close)
    ensures m.open <= m.lineFeed < m.close && m.close + |Backticks| <= |s|
    ensures forall i, n, c :: RegexMatch(s, i, n, c) ==>
              0 <= i <= n < c && c + |Backticks| <= |s| &&
              s[..i] + s[n + 1..c] + s[c + |Backticks|..]
              == s[..m.open] + s[m.lineFeed + 1..m.close] + s[m.close + |Backticks|..]
  {
    forall i, n, c | RegexMatch(s, i, n, c) ensures i == m.open && n == m.lineFeed && c == m.close {
      RegexMatchUnique(s, m.open, m.lineFeed, m.close, i, n, c);
    }
  }

  /** No "```" occurs anywhere in `t`. */
  predicate NoBackticks(t: string) {
    forall j :: 0 <= j < |t| ==> !Occurs(t, Backticks, j)
  }

  /** Any "```" before a place where a match can open can itself open a
      match: every line feed and closing "```" usable from the later
      position is usable from the earlier one. */
  lemma EarlierBackticksMatchable(s: string, i: nat, j: nat)
    requires Occurs(s, Backticks, i) && i <= j && Matchable(s, j)
    ensures Matchable(s, i)
  {
    var n :| MatchableWith(s, j, n);
    var c :| MatchAt(s, j, n, c);
    assert MatchAt(s, i, n, c);
    assert MatchableWith(s, i, n);
  }

  /** The match, if any, always opens at the first "```" of the string:
      when that one cannot open a match, the replace changes nothing. */
  lemma RegexMatchOpensAtFirstBackticks(s: string, i: int, n: int, c: int)
    requires RegexMatch(s, i, n, c)
    ensures IndexOf(s, Backticks, 0) == Some(i)
  {
    var first := IndexOf(s, Backticks, 0);
    assert MatchableWith(s, i, n);
    if first.None? {
      assert false;
    }
    var f := first.value;
    if f < i {
      EarlierBackticksMatchable(s, f, i);
      assert false;
    }
    if i < f {
      assert false;
    }
  }

  /** The discarded info string holds no line feed, and the kept body holds
      no "```": both lazy quantifiers stop at the first opportunity. */
  lemma RegexMatchIsShortest(s: string, i: int, n: int, c: int)
    requires RegexMatch(s, i, n, c)
    ensures forall j :: i + |Backticks| <= j < n ==> !Occurs(s, LineFeed, j)
    ensures forall j :: n + 1 <= j < c ==> !Occurs(s, Backticks, j)
  {
    forall j | i + |Backticks| <= j < n ensures !Occurs(s, LineFeed, j) {
      if Occurs(s, LineFeed, j) {
        assert MatchAt(s, i, j, c);
        assert MatchableWith(s, i, j);
        assert false;
      }
    }
    forall j | n + 1 <= j < c ensures !Occurs(s, Backticks, j) {
      assert !MatchAt(s, i, n, j);
    }
  }

  /** The replace is the identity exactly when the pattern does not match;
      a match always shortens the string by at least the two fences. */
  lemma StripIdentityIffNoMatch(s: string)
    ensures StripFirstFence(s) == s <==> forall i :: 0 <= i ==> !Matchable(s, i)
  {
    match FirstMatch(s)
    case None =>
    case Some(Span(i, n, c)) =>
      assert |StripFirstFence(s)| <= |s| - 2 * |Backticks|;
  }

  /** Without any "```" the replace changes nothing. */
  lemma StripWithoutBackticks(s: string)
    requires NoBackticks(s)
    ensures StripFirstFence(s) == s
  {
    forall i | 0 <= i ensures !Matchable(s, i) {
      NotOpenedNoMatch(s, i, i + 1);
    }
  }

  /** `s` has no "```" starting before index `to`. */
  lemma NoBackticksBefore(s: string, t: string, to: nat)
    requires NoBackticks(t) && to + 2 <= |t| && |t| <= |s| && s[..|t|] == t
    ensures forall j :: 0 <= j < to ==> !Occurs(s, Backticks, j)
  {
    forall j | 0 <= j < to ensures !Occurs(s, Backticks, j) {
      assert s[j..j + 3] == t[j..j + 3];
      assert !Occurs(t, Backticks, j);
    }
  }

  /** `pre`, then a fenced block with info string `info` and body `body`,
      then `post`. */
  function Fenced(pre: string, info: string, body: string, post: string): string {
    pre + Backticks + info + LineFeed + body + Backticks + post
  }

  /** Where the parts of `Fenced(pre, info, body, post)` sit. */
  lemma FencedLayout(pre: string, info: string, body: string, post: string)
    ensures var s, i := Fenced(pre, info, body, post), |pre|;
            var n := i + 3 + |info|;
            var c := n + 1 + |body|;
            && c + 3 <= |s|
            && s[..i] == pre && s[i + 3..n] == info && s[n + 1..c] == body
            && s[c + 3..] == post && s[..c + 2] == pre + Backticks + info + LineFeed + body + "``"
            && MatchAt(s, i, n, c)
  {
    var s, i := Fenced(pre, info, body, post), |pre|;
    var n := i + 3 + |info|;
    var c := n + 1 + |body|;
    assert s[i..i + 3] == Backticks;
    assert s[n..n + 1] == LineFeed;
    assert s[c..c + 3] == Backticks;
  }

  /** No match can open inside `pre` when `pre + "``"` holds no "```". */
  lemma FencedLeftmost(pre: string, info: string, body: string, post: string)
    requires NoBackticks(pre + "``")
    ensures forall i' :: 0 <= i' < |pre| ==> !Matchable(Fenced(pre, info, body, post), i')
  {
    var s := Fenced(pre, info, body, post);
    FencedLayout(pre, info, body, post);
    assert s[..|pre| + 2] == pre + "``";
    NoBackticksBefore(s, pre + "``", |pre|);
    NotOpenedNoMatch(s, 0, |pre|);
  }

  /** The info string ends at the line feed after `info`. */
  lemma FencedLazyInfo(pre: string, info: string, body: string, post: string)
    requires '\n' !in info
    ensures var s, i := Fenced(pre, info, body, post), |pre|;
            forall n' :: i + 3 <= n' < i + 3 + |info| ==> !MatchableWith(s, i, n')
  {
    var s, i := Fenced(pre, info, body, post), |pre|;
    FencedLayout(pre, info, body, post);
    forall n' | i + 3 <= n' < i + 3 + |info| ensures !Occurs(s, LineFeed, n') {
      assert s[n'] == s[i + 3..i + 3 + |info|][n' - i - 3];
    }
  }

  /** The body ends at the first "```" after `body`. */
  lemma FencedLazyBody(pre: string, info: string, body: string, post: string)
    requires NoBackticks(body + "``")
    ensures var s, i := Fenced(pre, info, body, post), |pre|;
            var n := i + 3 + |info|;
            forall c' :: n + 1 <= c' < n + 1 + |body| ==> !Occurs(s, Backticks, c')
  {
    var s, i := Fenced(pre, info, body, post), |pre|;
    var n := i + 3 + |info|;
    FencedLayout(pre, info, body, post);
    var t := s[n + 1..];
    assert t[..|body| + 2] == body + "``";
    NoBackticksBefore(t, body + "``", |body|);
    forall c' | n + 1 <= c' < n + 1 + |body| ensures !Occurs(s, Backticks, c') {
      assert !Occurs(t, Backticks, c' - n - 1);
      assert s[c'..c' + 3] == t[c' - n - 1..c' - n + 2];
    }
  }

  /** The regular expression matches the fenced block of
      `Fenced(pre, info, body, post)`. */
  lemma FencedRegexMatch(pre: string, info: string, body: string, post: string)
    requires NoBackticks(pre + "``")
    requires '\n' !in info
    requires NoBackticks(body + "``")
    ensures var n := |pre| + 3 + |info|;
            RegexMatch(Fenced(pre, info, body, post), |pre|, n, n + 1 + |body|)
  {
    FencedLayout(pre, info, body, post);
    FencedLeftmost(pre, info, body, post);
    FencedLazyInfo(pre, info, body, post);
    FencedLazyBody(pre, info, body, post);
  }

  /** A well-formed first fenced block is replaced by its body, with the
      text before the opening fence and everything after the closing fence
      (a second fenced block included) kept verbatim. `pre` must not end in
      a backtick and `body` must not contain or end in one, which the
      conditions on `pre + "``"` and `body + "``"` express. */
  lemma StripFencedBlock(pre: string, info: string, body: string, post: string)
    requires NoBackticks(pre + "``")
    requires '\n' !in info
    requires NoBackticks(body + "``")
    ensures StripFirstFence(Fenced(pre, info, body, post)) == pre + body + post
  {
    FencedLayout(pre, info, body, post);
    FencedRegexMatch(pre, info, body, post);
  }
}
