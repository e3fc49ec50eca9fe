/**
 * The two fixed regular expressions of the parser, hand-coded: the
 * daemon-tag test the classifier applies to a whole line, and the
 * mod_security rule pattern the ModSecurity extractor looks for in its
 * reason field. Each matcher is proved equal to a reference reading of
 * its pattern.
 */
module Patterns {
  import opened Wrappers
  import opened PhpStrings

  // ---------------------------------------------------------------------
  // The classifier's daemon-tag pattern  (\([sshd|cpanel|ftpd|pop3d|imapd|htaccess]+\))
  // ---------------------------------------------------------------------

  /**
   * The bracket expression of the classifier's pattern. Although it lists
   * daemon names separated by `|`, it is a character class: it stands for
   * any one of these characters, `|` included.
   */
  const TagClass: Str := "sshd|cpanel|ftpd|pop3d|imapd|htaccess"

  predicate InTagClass(c: char) {
    c in TagClass
  }

  /** The length of the run of class characters that starts at `i`. */
  function ClassRun(s: Str, i: nat): (n: nat)
    requires i <= |s|
    ensures i + n <= |s|
    ensures forall k :: i <= k < i + n ==> InTagClass(s[k])
    ensures i + n < |s| ==> !InTagClass(s[i + n])
    decreases |s| - i
  {
    if i < |s| && InTagClass(s[i]) then 1 + ClassRun(s, i + 1) else 0
  }

  /**
   * Reference reading of the pattern: an opening parenthesis at `i`, a
   * closing one at `j`, and at least one class character, all of them
   * class characters, in between.
   */
  predicate TagGroup(s: Str, i: int, j: int) {
    0 <= i && i + 2 <= j < |s| && s[i] == '(' && s[j] == ')'
    && forall k :: i < k < j ==> InTagClass(s[k])
  }

  /**
   * The matcher's test at one start position: after `(`, the greedy run
   * of class characters must be non-empty and followed by `)`.
   */
  predicate TagAt(s: Str, i: nat) {
    i < |s| && s[i] == '(' &&
    var n := ClassRun(s, i + 1);
    n >= 1 && i + 1 + n < |s| && s[i + 1 + n] == ')'
  }

  /** Whether a match starts at `i` or later. */
  function FindTag(s: Str, i: nat): (found: bool)
    requires i <= |s|
    ensures found <==> exists k :: i <= k < |s| && TagAt(s, k)
    decreases |s| - i
  {
    i < |s| && (TagAt(s, i) || FindTag(s, i + 1))
  }

  /** ')' is not one of the class characters, so a run of them stops at it. */
  lemma CloserNotInClass()
    ensures !InTagClass(')')
  {
  }

  /** A match found by the scanner is a tag group, and every tag group is found. */
  lemma TagAtIffGroup(s: Str, i: nat)
    ensures TagAt(s, i) <==> exists j :: TagGroup(s, i, j)
  {
    if TagAt(s, i) {
      var n := ClassRun(s, i + 1);
      assert TagGroup(s, i, i + 1 + n);
    }
    if j :| TagGroup(s, i, j) {
      GroupIsRun(s, i, j);
    }
  }

  /** The class characters of a tag group are exactly the greedy run after its '('. */
  lemma GroupIsRun(s: Str, i: nat, j: int)
    requires TagGroup(s, i, j)
    ensures ClassRun(s, i + 1) == j - i - 1 && TagAt(s, i)
  {
    CloserNotInClass();
    var n := ClassRun(s, i + 1);
    assert i + 1 + n == j;
  }

  /** Scanning from the start finds a match exactly when the line holds a tag group. */
  lemma FindTagIffGroup(s: Str)
    ensures FindTag(s, 0) <==> exists i, j :: TagGroup(s, i, j)
  {
    if FindTag(s, 0) {
      var k :| 0 <= k < |s| && TagAt(s, k);
      TagAtIffGroup(s, k);
    }
    if i, j :| TagGroup(s, i, j) {
      TagAtIffGroup(s, i);
      assert TagAt(s, i);
    }
  }

  /** preg_match of the classifier's daemon-tag pattern on a whole line. */
  function HasLoginTag(s: Str): (b: bool)
    ensures b <==> exists i, j :: TagGroup(s, i, j)
  {
    FindTagIffGroup(s);
    FindTag(s, 0)
  }

  /**
   * Any non-empty word over the class letters, parenthesised, matches:
   * "(hello)" and "(test)" are login-failure tags just as "(sshd)" is.
   */
  lemma ClassWordMatches(w: Str)
    requires |w| >= 1 && forall k :: 0 <= k < |w| ==> InTagClass(w[k])
    ensures HasLoginTag("(" + w + ")")
  {
    var s := "(" + w + ")";
    forall k | 0 < k < |w| + 1
      ensures InTagClass(s[k])
    {
      assert s[k] == w[k - 1];
    }
    assert TagGroup(s, 0, |w| + 1);
  }

  /** Every letter of "hello" is a class character. */
  lemma HelloLetters()
    ensures forall k :: 0 <= k < 5 ==> InTagClass("hello"[k])
  {
    assert TagClass[2] == 'h' && TagClass[9] == 'e' && TagClass[10] == 'l' && TagClass[18] == 'o';
  }

  /** "(hello)" names no daemon, yet it is taken for a login-failure tag. */
  lemma HelloIsALoginTag()
    ensures HasLoginTag("(hello)")
  {
    HelloLetters();
    ClassWordMatches("hello");
    assert "(" + "hello" + ")" == "(hello)";
  }

  // ---------------------------------------------------------------------
  // The mod_security rule pattern  (mod_security)\s(\(id:\d{2,9})\)+\s(triggered)
  // ---------------------------------------------------------------------

  /** `\s` of a PCRE pattern without the u modifier. */
  predicate IsRegexSpace(c: char) {
    c == ' ' || c == '\t' || c == '\n' || c == '\U{B}' || c == '\U{C}' || c == '\r'
  }

  /** One match of the rule pattern, by its variable parts. */
  datatype RuleMatch = RuleMatch(space1: char, id: Str, closers: nat, space2: char)

  predicate WellFormedMatch(m: RuleMatch) {
    IsRegexSpace(m.space1) && IsRegexSpace(m.space2)
    && 2 <= |m.id| <= 9 && AllDigits(m.id) && m.closers >= 1
  }

  /** The text a match covers, which preg_match reports as $matches[0]. */
  function MatchText(m: RuleMatch): Str {
    "mod_security" + ([m.space1] + ("(id:" + (m.id + (Repeat(')', m.closers) + ([m.space2] + "triggered")))))
  }

  /**
   * Reference reading of the pattern: the parts of `m` appear in `s` one
   * after the other from position `p` on.
   */
  predicate PatternAt(s: Str, p: nat, m: RuleMatch) {
    var q := p + 17;
    var t := q + |m.id| + m.closers;
    && t + 10 <= |s|
    && s[p..p + 12] == "mod_security"
    && s[p + 12] == m.space1
    && s[p + 13..q] == "(id:"
    && s[q..q + |m.id|] == m.id
    && (forall k :: q + |m.id| <= k < t ==> s[k] == ')')
    && s[t] == m.space2
    && s[t + 1..t + 10] == "triggered"
  }

  /** Where the pattern's parts appear, the text preg_match reports is the slice they cover. */
  lemma MatchTextAt(s: Str, p: nat, m: RuleMatch)
    requires PatternAt(s, p, m)
    ensures p + |MatchText(m)| <= |s| && s[p..p + |MatchText(m)|] == MatchText(m)
  {
    var q := p + 17;
    var e := q + |m.id| + m.closers + 10;
    var x3 := m.id + (Repeat(')', m.closers) + ([m.space2] + "triggered"));
    MatchTailAt(s, p, m);
    assert s[p + 13..e] == "(id:" + x3 by {
      SliceConcat(s, p + 13, q, e);
    }
    assert s[p + 12..e] == [m.space1] + ("(id:" + x3) by {
      SliceConcat(s, p + 12, p + 13, e);
    }
    assert s[p..e] == "mod_security" + ([m.space1] + ("(id:" + x3)) by {
      SliceConcat(s, p, p + 12, e);
    }
  }

  /** The part of a match from its digits on is the slice it covers. */
  lemma MatchTailAt(s: Str, p: nat, m: RuleMatch)
    requires PatternAt(s, p, m)
    ensures var q := p + 17; var e := q + |m.id| + m.closers + 10;
      s[q..e] == m.id + (Repeat(')', m.closers) + ([m.space2] + "triggered"))
  {
    var n := |m.id|;
    var c := m.closers;
    var q := p + 17;
    var t := q + n + c;
    var e := t + 10;
    var x5 := [m.space2] + "triggered";
    assert s[t..e] == x5 by {
      SliceConcat(s, t, t + 1, e);
    }
    assert s[q + n..e] == Repeat(')', c) + x5 by {
      assert s[q + n..t] == Repeat(')', c);
      SliceConcat(s, q + n, t, e);
    }
    SliceConcat(s, q, q + n, e);
  }

  /** A slice is the concatenation of its two halves. */
  lemma SliceConcat(s: Str, a: nat, b: nat, c: nat)
    requires a <= b <= c <= |s|
    ensures s[a..c] == s[a..b] + s[b..c]
  {
  }

  /** The text before the digits of a match at `p`. */
  predicate RuleHeadAt(s: Str, p: nat) {
    p + 17 <= |s| && s[p..p + 12] == "mod_security" && IsRegexSpace(s[p + 12]) && s[p + 13..p + 17] == "(id:"
  }

  /** The text after the closers of a match, which end at `t`. */
  predicate RuleTailAt(s: Str, t: nat) {
    t + 10 <= |s| && IsRegexSpace(s[t]) && s[t + 1..t + 10] == "triggered"
  }

  /**
   * The match of the rule pattern that starts at `p`, if there is one.
   * `\d{2,9}` is greedy and must be followed by `)`, so it takes the
   * whole run of digits; `\)+` must be followed by white space, so it
   * takes the whole run of closers: no backtracking can succeed where
   * this fails.
   */
  function RuleMatchAt(s: Str, p: nat): Option<RuleMatch>
  {
    if !RuleHeadAt(s, p) then
      None
    else
      var q := p + 17;
      var n := DigitRun(s, q);
      var c := CharRun(s, q + n, ')');
      if n < 2 || n > 9 || c < 1 || !RuleTailAt(s, q + n + c) then
        None
      else
        Some(RuleMatch(s[p + 12], s[q..q + n], c, s[q + n + c]))
  }

  /** What the matcher reports is a match: its parts appear in `s` from `p` on. */
  lemma RuleMatchAtSound(s: Str, p: nat)
    ensures RuleMatchAt(s, p).Some? ==> WellFormedMatch(RuleMatchAt(s, p).value) && PatternAt(s, p, RuleMatchAt(s, p).value)
  {
  }

  /** The matcher misses nothing: wherever the pattern's parts appear, RuleMatchAt reports exactly that match. */
  lemma RuleMatchAtComplete(s: Str, p: nat, m: RuleMatch)
    requires WellFormedMatch(m) && PatternAt(s, p, m)
    ensures RuleMatchAt(s, p) == Some(m)
  {
    var n := |m.id|;
    var c := m.closers;
    var q := p + 17;
    assert RuleHeadAt(s, p);
    assert DigitRun(s, q) == n by {
      assert s[q + n] == ')';
      forall k | q <= k < q + n
        ensures IsDigit(s[k])
      {
        assert s[k] == m.id[k - q];
      }
    }
    assert CharRun(s, q + n, ')') == c;
    assert RuleTailAt(s, q + n + c);
  }

  /** The first present entry of `xs` at index `p` or later, with its index. */
  function FirstPresent<T>(xs: seq<Option<T>>, p: nat): (r: Option<(nat, T)>)
    requires p <= |xs|
    ensures r.Some? ==> p <= r.value.0 < |xs| && xs[r.value.0] == Some(r.value.1)
    ensures r.Some? ==> forall q :: p <= q < r.value.0 ==> xs[q].None?
    ensures r.None? ==> forall q :: p <= q < |xs| ==> xs[q].None?
    decreases |xs| - p
  {
    if p == |xs| then None
    else match xs[p]
      case Some(m) => Some((p, m))
      case None => FirstPresent(xs, p + 1)
  }

  /**
   * preg_match of the rule pattern: the leftmost start position at which
   * the pattern matches, with the match.
   */
  function FirstRuleMatch(s: Str): (r: Option<(nat, RuleMatch)>)
    ensures r.Some? ==> r.value.0 <= |s| && RuleMatchAt(s, r.value.0) == Some(r.value.1)
    ensures r.Some? ==> forall q :: 0 <= q < r.value.0 ==> RuleMatchAt(s, q).None?
    ensures r.None? ==> forall q :: 0 <= q <= |s| ==> RuleMatchAt(s, q).None?
  {
    var hits := seq(|s| + 1, (q: int) requires 0 <= q <= |s| => RuleMatchAt(s, q));
    assert forall q :: 0 <= q <= |s| ==> hits[q] == RuleMatchAt(s, q);
    FirstPresent(hits, 0)
  }

  /**
   * $matches[0] after preg_match of the rule pattern: the text of the
   * leftmost match, None when there is none. It is the text the parts of
   * that match spell out.
   */
  function RuleMatchText(s: Str): (r: Option<Str>)
    ensures FirstRuleMatch(s).None? ==> r.None?
    ensures FirstRuleMatch(s).Some? ==> r == Some(MatchText(FirstRuleMatch(s).value.1))
  {
    match FirstRuleMatch(s)
    case None => None
    case Some((at, m)) =>
      RuleMatchAtSound(s, at);
      MatchTextAt(s, at, m);
      Some(s[at..at + |MatchText(m)|])
  }
}
