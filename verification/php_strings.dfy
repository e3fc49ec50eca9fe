/**
 * The PHP string builtins the parser is built from, over `seq<char>`:
 * empty(), trim()/rtrim(), strpos()/strstr(), explode()/implode(),
 * str_replace() and the (int) cast of a string. Each is stated by what it
 * returns, and the lemmas give the inverse or reference definition that
 * pins it down.
 */
module PhpStrings {
  import opened Wrappers

  type Str = seq<char>

  /** PHP's empty() on a string: true for "" and also for "0". */
  predicate IsPhpEmpty(s: Str) {
    s == "" || s == "0"
  }

  // ---------------------------------------------------------------------
  // trim() and rtrim()
  // ---------------------------------------------------------------------

  /** The characters trim() and rtrim() strip when given no character list. */
  predicate IsTrimChar(c: char) {
    c == ' ' || c == '\t' || c == '\n' || c == '\r' || c == '\0' || c == '\U{B}'
  }

  /** No trim character at either end. */
  predicate IsTrimmed(s: Str) {
    |s| == 0 || (!IsTrimChar(s[0]) && !IsTrimChar(s[|s| - 1]))
  }

  /** The length of the run of trim characters that starts at `i`. */
  function TrimRun(s: Str, i: nat): (n: nat)
    requires i <= |s|
    ensures i + n <= |s|
    ensures forall k :: i <= k < i + n ==> IsTrimChar(s[k])
    ensures i + n < |s| ==> !IsTrimChar(s[i + n])
    decreases |s| - i
  {
    if i < |s| && IsTrimChar(s[i]) then 1 + TrimRun(s, i + 1) else 0
  }

  /** Where the run of trim characters that ends at `j` (and does not reach below `lo`) starts. */
  function TrailStart(s: Str, lo: nat, j: nat): (b: nat)
    requires lo <= j <= |s|
    ensures lo <= b <= j
    ensures forall k :: b <= k < j ==> IsTrimChar(s[k])
    ensures b > lo ==> !IsTrimChar(s[b - 1])
    decreases j
  {
    if j > lo && IsTrimChar(s[j - 1]) then TrailStart(s, lo, j - 1) else j
  }

  /** rtrim(): drops the trailing trim characters, and only those. */
  function RTrim(s: Str): (r: Str)
    ensures r <= s
    ensures forall k :: |r| <= k < |s| ==> IsTrimChar(s[k])
    ensures |r| > 0 ==> !IsTrimChar(r[|r| - 1])
  {
    s[..TrailStart(s, 0, |s|)]
  }

  /** trim(): drops the leading and the trailing trim characters. */
  function Trim(s: Str): (r: Str)
    ensures IsTrimmed(r)
    ensures |r| <= |s|
  {
    var a := TrimRun(s, 0);
    s[a..TrailStart(s, a, |s|)]
  }

  /** What trim() returns is an infix of its argument with only trim characters around it. */
  lemma TrimIsInfix(s: Str) returns (i: nat)
    ensures i + |Trim(s)| <= |s| && Trim(s) == s[i..i + |Trim(s)|]
    ensures forall k :: 0 <= k < i ==> IsTrimChar(s[k])
    ensures forall k :: i + |Trim(s)| <= k < |s| ==> IsTrimChar(s[k])
  {
    i := TrimRun(s, 0);
  }

  /**
   * trim() is characterised by that shape: any trimmed infix with only
   * trim characters around it is the value of trim().
   */
  lemma {:induction false} TrimUnique(s: Str, i: nat, j: nat)
    requires i <= j <= |s|
    requires forall k :: 0 <= k < i ==> IsTrimChar(s[k])
    requires forall k :: j <= k < |s| ==> IsTrimChar(s[k])
    requires IsTrimmed(s[i..j])
    ensures Trim(s) == s[i..j]
  {
    var a := TrimRun(s, 0);
    var b := TrailStart(s, a, |s|);
    if i < j {
      assert s[i] == s[i..j][0];
      assert s[j - 1] == s[i..j][j - i - 1];
      assert a == i;
      assert b == j;
    } else {
      assert a == |s|;
    }
  }

  /** Trim characters around an infix of a prefix, followed by more trim characters, surround it in the whole. */
  lemma SurroundedInWhole(s: Str, n: nat, a: nat, b: nat)
    requires a <= b <= n <= |s|
    requires forall k :: n <= k < |s| ==> IsTrimChar(s[k])
    requires forall k :: 0 <= k < a ==> IsTrimChar(s[..n][k])
    requires forall k :: b <= k < n ==> IsTrimChar(s[..n][k])
    ensures forall k :: 0 <= k < a ==> IsTrimChar(s[k])
    ensures forall k :: b <= k < |s| ==> IsTrimChar(s[k])
    ensures s[..n][a..b] == s[a..b]
  {
    forall k | 0 <= k < a
      ensures IsTrimChar(s[k])
    {
      assert s[k] == s[..n][k];
    }
    forall k | b <= k < |s|
      ensures IsTrimChar(s[k])
    {
      if k < n { assert s[k] == s[..n][k]; }
    }
  }

  /** The source writes trim(rtrim($x)); the inner rtrim() changes nothing. */
  lemma TrimAfterRTrim(s: Str)
    ensures Trim(RTrim(s)) == Trim(s)
  {
    var m := RTrim(s);
    var a := TrimIsInfix(m);
    var t := Trim(m);
    var b := a + |t|;
    assert t == s[a..b] && IsTrimmed(s[a..b])
      && (forall k :: 0 <= k < a ==> IsTrimChar(s[k]))
      && (forall k :: b <= k < |s| ==> IsTrimChar(s[k])) by {
      assert m == s[..|m|];
      SurroundedInWhole(s, |m|, a, b);
    }
    TrimUnique(s, a, b);
  }

  /** A string that is already trimmed is its own trim(). */
  lemma TrimOfTrimmed(s: Str)
    requires IsTrimmed(s)
    ensures Trim(s) == s
  {
    TrimUnique(s, 0, |s|);
  }

  /** trim() of a string that starts with a non-trim character keeps that character first. */
  lemma TrimKeepsFirst(s: Str)
    requires |s| > 0 && !IsTrimChar(s[0])
    ensures |Trim(s)| > 0 && Trim(s)[0] == s[0]
  {
    var a := TrimIsInfix(s);
    if |Trim(s)| > 0 {
      assert Trim(s)[0] == s[a];
    }
  }

  // ---------------------------------------------------------------------
  // strpos() and strstr()
  // ---------------------------------------------------------------------

  /** `pat` occurs in `s` starting at index `i`. */
  predicate OccursAt(s: Str, pat: Str, i: int) {
    0 <= i && i + |pat| <= |s| && s[i..i + |pat|] == pat
  }

  /** `pat` occurs in `s` at `i` and nowhere before `i`. */
  predicate FirstOccurrence(s: Str, pat: Str, i: int) {
    OccursAt(s, pat, i) && forall k :: 0 <= k < i ==> !OccursAt(s, pat, k)
  }

  /**
   * strpos($s, $pat, $offset): the first occurrence at or after `offset`,
   * None for PHP's false. An offset past the end yields None, as
   * strpos() does in PHP 5 and 7.
   */
  function FindFrom(s: Str, pat: Str, offset: nat): (r: Option<nat>)
    ensures r.Some? ==> offset <= r.value && OccursAt(s, pat, r.value)
    ensures r.Some? ==> forall k :: offset <= k < r.value ==> !OccursAt(s, pat, k)
    ensures r.None? ==> forall k :: offset <= k ==> !OccursAt(s, pat, k)
    decreases |s| - offset
  {
    if offset + |pat| > |s| then None
    else if s[offset..offset + |pat|] == pat then Some(offset)
    else FindFrom(s, pat, offset + 1)
  }

  /** strpos($s, $pat). */
  function IndexOf(s: Str, pat: Str): (r: Option<nat>)
    ensures r.Some? ==> FirstOccurrence(s, pat, r.value)
    ensures r.None? ==> forall k :: !OccursAt(s, pat, k)
  {
    FindFrom(s, pat, 0)
  }

  /** strstr($s, $pat) !== false. */
  function Contains(s: Str, pat: Str): (b: bool)
    ensures b <==> exists i :: OccursAt(s, pat, i)
  {
    IndexOf(s, pat).Some?
  }

  /** strstr($s, $pat): the suffix from the first occurrence on, None for false. */
  function StrStr(s: Str, pat: Str): (r: Option<Str>)
    ensures r.None? <==> !Contains(s, pat)
    ensures r.Some? ==> pat <= r.value && |r.value| <= |s| && r.value == s[|s| - |r.value|..]
    ensures r.Some? ==> exists i :: FirstOccurrence(s, pat, i) && r.value == s[i..]
  {
    match IndexOf(s, pat)
    case None => None
    case Some(i) => Some(s[i..])
  }

  /** Nothing before the first occurrence contains the pattern. */
  lemma PrefixBeforeFirst(s: Str, pat: Str, i: nat)
    requires |pat| > 0 && FirstOccurrence(s, pat, i)
    ensures !Contains(s[..i], pat)
  {
    if Contains(s[..i], pat) {
      var j :| OccursAt(s[..i], pat, j);
      assert s[..i][j..j + |pat|] == s[j..j + |pat|];
      assert OccursAt(s, pat, j);
    }
  }

  // ---------------------------------------------------------------------
  // explode() and implode()
  // ---------------------------------------------------------------------

  /**
   * explode($delim, $s): the pieces between successive non-overlapping
   * occurrences of `delim`, found left to right. There is always at least
   * one piece, and there are two or more exactly when `delim` occurs.
   */
  function Explode(s: Str, delim: Str): (r: seq<Str>)
    requires |delim| > 0
    ensures |r| >= 1
    ensures |r| >= 2 <==> Contains(s, delim)
    ensures forall k :: 0 <= k < |r| ==> !Contains(r[k], delim)
    decreases |s|
  {
    match IndexOf(s, delim)
    case None => [s]
    case Some(i) =>
      PrefixBeforeFirst(s, delim, i);
      [s[..i]] + Explode(s[i + |delim|..], delim)
  }

  /** implode($glue, $parts). */
  function Implode(parts: seq<Str>, glue: Str): Str
  {
    if |parts| == 0 then []
    else if |parts| == 1 then parts[0]
    else parts[0] + glue + Implode(parts[1..], glue)
  }

  /** The first piece explode() returns is the text before the first delimiter. */
  lemma ExplodeFirstPiece(s: Str, delim: Str, i: nat)
    requires |delim| > 0 && FirstOccurrence(s, delim, i)
    ensures Explode(s, delim)[0] == s[..i]
  {
  }

  /** explode() at the first occurrence: the text before it, then the pieces of the text after it. */
  lemma ExplodeAtFirst(s: Str, delim: Str, i: nat)
    requires |delim| > 0 && FirstOccurrence(s, delim, i)
    ensures Explode(s, delim) == [s[..i]] + Explode(s[i + |delim|..], delim)
  {
  }

  /** implode() of two or more pieces. */
  lemma ImplodeCons(head: Str, tail: seq<Str>, glue: Str)
    requires |tail| >= 1
    ensures Implode([head] + tail, glue) == head + glue + Implode(tail, glue)
  {
    assert ([head] + tail)[1..] == tail;
  }

  /** A string is the text before an occurrence, the occurrence, and the text after it. */
  lemma SplitAtOccurrence(s: Str, pat: Str, i: nat)
    requires OccursAt(s, pat, i)
    ensures s == s[..i] + pat + s[i + |pat|..]
  {
    assert s == s[..i] + s[i..i + |pat|] + s[i + |pat|..];
  }

  /** Gluing the pieces back together with the delimiter gives the input back. */
  lemma {:induction false} ImplodeExplode(s: Str, delim: Str)
    requires |delim| > 0
    ensures Implode(Explode(s, delim), delim) == s
    decreases |s|
  {
    match IndexOf(s, delim)
    case None =>
    case Some(i) =>
      var rest := s[i + |delim|..];
      ExplodeAtFirst(s, delim, i);
      ImplodeExplode(rest, delim);
      ImplodeCons(s[..i], Explode(rest, delim), delim);
      SplitAtOccurrence(s, delim, i);
  }

  /** A text without the pattern's first character does not contain the pattern. */
  lemma NoLeadCharNoOccurrence(p: Str, pat: Str)
    requires |pat| > 0
    requires forall c :: 0 <= c < |p| ==> p[c] != pat[0]
    ensures !Contains(p, pat)
  {
    forall j | 0 <= j && j + |pat| <= |p|
      ensures !OccursAt(p, pat, j)
    {
      assert p[j..j + |pat|][0] == p[j];
    }
  }

  /**
   * The converse round trip: pieces that do not contain the delimiter's
   * first character come back out of explode() unchanged.
   */
  lemma {:induction false} ExplodeImplode(parts: seq<Str>, delim: Str)
    requires |delim| > 0 && |parts| >= 1
    requires forall k, c :: 0 <= k < |parts| && 0 <= c < |parts[k]| ==> parts[k][c] != delim[0]
    ensures Explode(Implode(parts, delim), delim) == parts
    decreases |parts|
  {
    var p := parts[0];
    if |parts| == 1 {
      NoLeadCharNoOccurrence(p, delim);
    } else {
      var rest := parts[1..];
      var tailText := Implode(rest, delim);
      var s := p + delim + tailText;
      assert Implode(parts, delim) == s;
      forall k | 0 <= k < |p|
        ensures !OccursAt(s, delim, k)
      {
        assert s[k] == p[k];
        if k + |delim| <= |s| {
          assert s[k..k + |delim|][0] == s[k];
        }
      }
      assert s[|p|..|p| + |delim|] == delim;
      assert FirstOccurrence(s, delim, |p|);
      assert IndexOf(s, delim) == Some(|p|);
      assert s[..|p|] == p;
      assert s[|p| + |delim|..] == tailText;
      ExplodeImplode(rest, delim);
      assert parts == [p] + rest;
    }
  }

  // ---------------------------------------------------------------------
  // str_replace()
  // ---------------------------------------------------------------------

  /**
   * str_replace($search, $replace, $subject) for one non-empty search
   * string: occurrences are found left to right, do not overlap, and the
   * replacement text is not searched again.
   */
  function StrReplace(subject: Str, search: Str, replace: Str): Str
    requires |search| > 0
    decreases |subject|
  {
    if |subject| < |search| then subject
    else if subject[..|search|] == search then replace + StrReplace(subject[|search|..], search, replace)
    else [subject[0]] + StrReplace(subject[1..], search, replace)
  }

  /** A prefix free of the search string's first character passes through str_replace() untouched. */
  lemma {:induction false} StrReplaceSkips(a: Str, b: Str, search: Str, replace: Str)
    requires |search| > 0 && search[0] !in a
    ensures StrReplace(a + b, search, replace) == a + StrReplace(b, search, replace)
    decreases |a|
  {
    if |a| > 0 {
      var s := a + b;
      if |s| < |search| {
        assert |b| < |search|;
      } else {
        assert s[..|search|][0] == a[0];
        assert s[1..] == a[1..] + b;
        StrReplaceSkips(a[1..], b, search, replace);
        assert a == [a[0]] + a[1..];
      }
    } else {
      assert a + b == b;
    }
  }

  /** An occurrence at i is an occurrence at the front of the suffix from i. */
  lemma OccursAtSuffix(s: Str, pat: Str, i: nat)
    requires OccursAt(s, pat, i)
    ensures OccursAt(s[i..], pat, 0) && s[i..][|pat|..] == s[i + |pat|..]
  {
    assert s[i..][..|pat|] == s[i..i + |pat|];
  }

  /** An occurrence at the front is replaced and the scan resumes after it. */
  lemma StrReplaceHit(search: Str, b: Str, replace: Str)
    requires |search| > 0
    ensures StrReplace(search + b, search, replace) == replace + StrReplace(b, search, replace)
  {
    var s := search + b;
    assert s[..|search|] == search;
    assert s[|search|..] == b;
  }

  /** A text free of the search string's first character is left as it is. */
  lemma StrReplaceUntouched(a: Str, search: Str, replace: Str)
    requires |search| > 0 && search[0] !in a
    ensures StrReplace(a, search, replace) == a
  {
    StrReplaceSkips(a, [], search, replace);
    assert a + [] == a;
  }

  /** Replacing one character by nothing removes every copy of it. */
  lemma {:induction false} StrReplaceRemoves(s: Str, c: char)
    ensures c !in StrReplace(s, [c], [])
    decreases |s|
  {
    if |s| >= 1 {
      StrReplaceRemoves(s[1..], c);
      if s[..1] == [c] {
        assert StrReplace(s, [c], []) == [] + StrReplace(s[1..], [c], []);
      } else {
        assert s[..1] == [s[0]];
        assert StrReplace(s, [c], []) == [s[0]] + StrReplace(s[1..], [c], []);
      }
    }
  }

  /** A text in which the search string occurs nowhere is left as it is. */
  lemma {:induction false} StrReplaceNoOccurrence(s: Str, search: Str, replace: Str)
    requires |search| > 0 && !Contains(s, search)
    ensures StrReplace(s, search, replace) == s
    decreases |s|
  {
    if |s| >= |search| {
      assert !OccursAt(s, search, 0);
      forall k | OccursAt(s[1..], search, k)
        ensures false
      {
        assert s[1..][k..k + |search|] == s[k + 1..k + 1 + |search|];
        assert OccursAt(s, search, k + 1);
      }
      StrReplaceNoOccurrence(s[1..], search, replace);
      assert s == [s[0]] + s[1..];
    }
  }

  /** Without an occurrence at the front, str_replace() copies the first character and goes on. */
  lemma StrReplaceMiss(s: Str, search: Str, replace: Str)
    requires |search| > 0 && |s| >= |search| && !OccursAt(s, search, 0)
    ensures StrReplace(s, search, replace) == [s[0]] + StrReplace(s[1..], search, replace)
  {
  }

  /** An occurrence at the front is replaced and the scan resumes after it. */
  lemma StrReplaceAtFront(s: Str, search: Str, replace: Str)
    requires |search| > 0 && OccursAt(s, search, 0)
    ensures StrReplace(s, search, replace) == replace + StrReplace(s[|search|..], search, replace)
  {
  }

  /** No occurrence starts in the tail's first n - 1 positions when none starts in the first n. */
  lemma NoEarlyOccurrenceInTail(s: Str, pat: Str, n: nat)
    requires 0 < n <= |s|
    requires forall k :: 0 <= k < n ==> !OccursAt(s, pat, k)
    ensures forall k :: 0 <= k < n - 1 ==> !OccursAt(s[1..], pat, k)
  {
    forall k | 0 <= k < n - 1
      ensures !OccursAt(s[1..], pat, k)
    {
      if k + |pat| <= |s| - 1 {
        assert s[1..][k..k + |pat|] == s[k + 1..k + 1 + |pat|];
        assert !OccursAt(s, pat, k + 1);
      }
    }
  }

  /** A text shorter than the search string is left as it is, and so is each of its suffixes. */
  lemma StrReplaceShort(s: Str, n: nat, search: Str, replace: Str)
    requires |search| > 0 && n <= |s| < |search|
    ensures StrReplace(s, search, replace) == s[..n] + StrReplace(s[n..], search, replace)
  {
    assert s[..n] + s[n..] == s;
  }

  /** One step of the clear prefix: the first character is copied and the tail goes on from n - 1. */
  lemma ClearPrefixStep(s: Str, n: nat, search: Str, replace: Str)
    requires |search| > 0 && 0 < n <= |s| && |s| >= |search| && !OccursAt(s, search, 0)
    requires StrReplace(s[1..], search, replace) == s[1..][..n - 1] + StrReplace(s[1..][n - 1..], search, replace)
    ensures StrReplace(s, search, replace) == s[..n] + StrReplace(s[n..], search, replace)
  {
    StrReplaceMiss(s, search, replace);
    assert s[1..][n - 1..] == s[n..];
    assert [s[0]] + s[1..][..n - 1] == s[..n];
  }

  /** A prefix in which no occurrence starts passes through str_replace() untouched. */
  lemma {:induction false} StrReplaceClearPrefix(s: Str, n: nat, search: Str, replace: Str)
    requires |search| > 0 && n <= |s|
    requires forall k :: 0 <= k < n ==> !OccursAt(s, search, k)
    ensures StrReplace(s, search, replace) == s[..n] + StrReplace(s[n..], search, replace)
    decreases n
  {
    if n == 0 {
      assert s[..0] + s[0..] == s;
    } else if |s| < |search| {
      StrReplaceShort(s, n, search, replace);
    } else {
      NoEarlyOccurrenceInTail(s, search, n);
      StrReplaceClearPrefix(s[1..], n - 1, search, replace);
      ClearPrefixStep(s, n, search, replace);
    }
  }

  /** str_replace() copies the text before the first occurrence, replaces it, and goes on after it. */
  lemma ReplaceUpToFirst(s: Str, search: Str, replace: Str, i: nat)
    requires |search| > 0 && FirstOccurrence(s, search, i)
    ensures StrReplace(s, search, replace) == s[..i] + replace + StrReplace(s[i + |search|..], search, replace)
  {
    StrReplaceClearPrefix(s, i, search, replace);
    OccursAtSuffix(s, search, i);
    StrReplaceAtFront(s[i..], search, replace);
  }

  /**
   * str_replace() is explode() followed by implode() with the
   * replacement as glue: the reference definition of a left-to-right,
   * non-overlapping replacement.
   */
  lemma {:induction false} StrReplaceIsImplodeExplode(s: Str, search: Str, replace: Str)
    requires |search| > 0
    ensures StrReplace(s, search, replace) == Implode(Explode(s, search), replace)
    decreases |s|
  {
    match IndexOf(s, search)
    case None =>
      StrReplaceNoOccurrence(s, search, replace);
    case Some(i) =>
      var rest := s[i + |search|..];
      ExplodeAtFirst(s, search, i);
      ReplaceUpToFirst(s, search, replace, i);
      StrReplaceIsImplodeExplode(rest, search, replace);
      ImplodeCons(s[..i], Explode(rest, search), replace);
  }

  /** `n` copies of one character. */
  function Repeat(c: char, n: nat): (r: Str)
    ensures |r| == n && forall k :: 0 <= k < n ==> r[k] == c
  {
    if n == 0 then [] else [c] + Repeat(c, n - 1)
  }

  /** Removing a character deletes a whole run of it at the front. */
  lemma {:induction false} StrReplaceDropsRun(c: char, n: nat, b: Str)
    ensures StrReplace(Repeat(c, n) + b, [c], []) == StrReplace(b, [c], [])
    decreases n
  {
    if n > 0 {
      var x := Repeat(c, n - 1) + b;
      assert Repeat(c, n) == [c] + Repeat(c, n - 1);
      assert Repeat(c, n) + b == [c] + x;
      StrReplaceHit([c], x, []);
      assert StrReplace([c] + x, [c], []) == StrReplace(x, [c], []);
      StrReplaceDropsRun(c, n - 1, b);
    } else {
      assert Repeat(c, n) + b == b;
    }
  }

  // ---------------------------------------------------------------------
  // Character runs and the (int) cast
  // ---------------------------------------------------------------------

  predicate IsDigit(c: char) {
    '0' <= c <= '9'
  }

  predicate AllDigits(s: Str) {
    forall k :: 0 <= k < |s| ==> IsDigit(s[k])
  }

  /** The white space PHP skips in front of a leading-numeric string. */
  predicate IsNumericLeadSpace(c: char) {
    c == ' ' || c == '\t' || c == '\n' || c == '\r' || c == '\U{B}' || c == '\U{C}'
  }

  /** The length of the run of leading white space that starts at `i`. */
  function SpaceRun(s: Str, i: nat): (n: nat)
    requires i <= |s|
    ensures i + n <= |s|
    ensures forall k :: i <= k < i + n ==> IsNumericLeadSpace(s[k])
    ensures i + n < |s| ==> !IsNumericLeadSpace(s[i + n])
    decreases |s| - i
  {
    if i < |s| && IsNumericLeadSpace(s[i]) then 1 + SpaceRun(s, i + 1) else 0
  }

  /** The length of the run of decimal digits that starts at `i`. */
  function DigitRun(s: Str, i: nat): (n: nat)
    requires i <= |s|
    ensures i + n <= |s|
    ensures forall k :: i <= k < i + n ==> IsDigit(s[k])
    ensures i + n < |s| ==> !IsDigit(s[i + n])
    decreases |s| - i
  {
    if i < |s| && IsDigit(s[i]) then 1 + DigitRun(s, i + 1) else 0
  }

  /** The length of the run of copies of `c` that starts at `i`. */
  function CharRun(s: Str, i: nat, c: char): (n: nat)
    requires i <= |s|
    ensures i + n <= |s|
    ensures forall k :: i <= k < i + n ==> s[k] == c
    ensures i + n < |s| ==> s[i + n] != c
    decreases |s| - i
  {
    if i < |s| && s[i] == c then 1 + CharRun(s, i + 1, c) else 0
  }

  /** The value of a string of decimal digits. */
  function DigitsValue(ds: Str): nat
    requires AllDigits(ds)
  {
    if |ds| == 0 then 0 else 10 * DigitsValue(ds[..|ds| - 1]) + (ds[|ds| - 1] as int - '0' as int)
  }

  /**
   * The (int) cast of a string: leading white space is skipped, an
   * optional sign is read, then the run of decimal digits; a string with
   * no leading digits is 0.
   */
  function IntCast(s: Str): int
  {
    CastFrom(s, SpaceRun(s, 0))
  }

  /** The value of the run of digits that starts at `i`. */
  function DigitsAt(s: Str, i: nat): nat
    requires i <= |s|
  {
    DigitsValue(s[i..i + DigitRun(s, i)])
  }

  /** The cast once the leading white space, up to `i`, is skipped: an optional sign, then digits. */
  function CastFrom(s: Str, i: nat): int
    requires i <= |s|
  {
    if i < |s| && s[i] == '-' then -(DigitsAt(s, i + 1) as int)
    else if i < |s| && s[i] == '+' then DigitsAt(s, i + 1)
    else DigitsAt(s, i)
  }

  /** The decimal rendering of a natural number, without leading zeros. */
  function DecimalDigits(n: nat): (r: Str)
    ensures |r| >= 1 && AllDigits(r)
    ensures n >= 10 ==> r[0] != '0'
  {
    if n < 10 then [('0' as int + n) as char]
    else DecimalDigits(n / 10) + [('0' as int + n % 10) as char]
  }

  /** Reading the digits back gives the number. */
  lemma {:induction false} DigitsValueOfDecimal(n: nat)
    ensures DigitsValue(DecimalDigits(n)) == n
  {
    var ds := DecimalDigits(n);
    if n >= 10 {
      DigitsValueOfDecimal(n / 10);
      assert ds[..|ds| - 1] == DecimalDigits(n / 10);
    }
  }

  /** A run of digits is read whole by DigitRun. */
  lemma DigitRunIsWhole(s: Str, i: nat)
    requires i <= |s| && AllDigits(s[i..])
    ensures DigitRun(s, i) == |s| - i
  {
    var n := DigitRun(s, i);
  }

  /** An unsigned run of digits is cast to its value. */
  lemma IntCastOfDigits(ds: Str)
    requires |ds| > 0 && AllDigits(ds)
    ensures IntCast(ds) == DigitsValue(ds)
  {
    assert !IsNumericLeadSpace(ds[0]) && ds[0] != '-' && ds[0] != '+' by {
      assert IsDigit(ds[0]);
    }
    var i := SpaceRun(ds, 0);
    assert i == 0;
    DigitRunIsWhole(ds, 0);
    assert ds[0..|ds|] == ds;
  }

  /** A minus sign followed by digits is cast to the negated value. */
  lemma IntCastOfNegative(ds: Str)
    requires AllDigits(ds)
    ensures IntCast("-" + ds) == -(DigitsValue(ds) as int)
  {
    var neg := "-" + ds;
    assert SpaceRun(neg, 0) == 0 by {
      assert !IsNumericLeadSpace(neg[0]);
    }
    assert neg[1..] == ds;
    DigitRunIsWhole(neg, 1);
    assert neg[1..1 + |ds|] == ds;
  }

  /** All of `s` is leading white space. */
  predicate AllLeadSpace(s: Str) {
    forall k :: 0 <= k < |s| ==> IsNumericLeadSpace(s[k])
  }

  /** SpaceRun stops at the first character that is not leading white space. */
  lemma SpaceRunStops(s: Str, n: nat)
    requires n <= |s| && AllLeadSpace(s[..n]) && (n < |s| ==> !IsNumericLeadSpace(s[n]))
    ensures SpaceRun(s, 0) == n
  {
    forall k | 0 <= k < n
      ensures IsNumericLeadSpace(s[k])
    {
      assert s[..n][k] == s[k];
    }
  }

  /** DigitRun stops at the first character that is not a digit. */
  lemma DigitRunStops(s: Str, i: nat, n: nat)
    requires i + n <= |s| && AllDigits(s[i..i + n]) && (i + n < |s| ==> !IsDigit(s[i + n]))
    ensures DigitRun(s, i) == n
  {
    forall k | i <= k < i + n
      ensures IsDigit(s[k])
    {
      assert s[i..i + n][k - i] == s[k];
    }
  }

  /** The digit run that starts at j is `ds` when `ds` is followed by a non-digit or the end. */
  lemma DigitsAtRun(s: Str, j: nat, ds: Str)
    requires AllDigits(ds) && j + |ds| <= |s| && s[j..j + |ds|] == ds
    requires j + |ds| < |s| ==> !IsDigit(s[j + |ds|])
    ensures DigitsAt(s, j) == DigitsValue(ds)
  {
    DigitRunStops(s, j, |ds|);
  }

  /** White space, digits and a tail that does not go on with a digit. */
  lemma UnsignedPrefixParts(ws: Str, ds: Str, tl: Str)
    requires AllLeadSpace(ws) && AllDigits(ds) && |ds| > 0
    requires |tl| == 0 || !IsDigit(tl[0])
    ensures var s := ws + ds + tl;
      && SpaceRun(s, 0) == |ws| && IsDigit(s[|ws|]) && DigitsAt(s, |ws|) == DigitsValue(ds)
  {
    var s := ws + ds + tl;
    var i := |ws|;
    assert s[..i] == ws;
    assert s[i] == ds[0] && IsDigit(ds[0]);
    SpaceRunStops(s, i);
    assert s[i..i + |ds|] == ds;
    assert i + |ds| < |s| ==> s[i + |ds|] == tl[0];
    DigitsAtRun(s, i, ds);
  }

  /** White space, a sign, digits and a tail that does not go on with a digit. */
  lemma SignedPrefixParts(ws: Str, c: char, ds: Str, tl: Str)
    requires AllLeadSpace(ws) && AllDigits(ds) && (c == '-' || c == '+')
    requires |tl| == 0 || !IsDigit(tl[0])
    ensures var s := ws + [c] + ds + tl;
      && SpaceRun(s, 0) == |ws| && s[|ws|] == c && DigitsAt(s, |ws| + 1) == DigitsValue(ds)
  {
    var s := ws + [c] + ds + tl;
    var i := |ws|;
    assert s[..i] == ws;
    assert s[i] == c;
    SpaceRunStops(s, i);
    assert s[i + 1..i + 1 + |ds|] == ds;
    assert i + 1 + |ds| < |s| ==> s[i + 1 + |ds|] == tl[0];
    DigitsAtRun(s, i + 1, ds);
  }

  /** The cast of white space, digits and any tail that does not go on with a digit. */
  lemma IntCastOfUnsignedPrefix(ws: Str, ds: Str, tl: Str)
    requires AllLeadSpace(ws) && AllDigits(ds) && |ds| > 0
    requires |tl| == 0 || !IsDigit(tl[0])
    ensures IntCast(ws + ds + tl) == DigitsValue(ds)
  {
    var s := ws + ds + tl;
    UnsignedPrefixParts(ws, ds, tl);
    assert s[|ws|] != '-' && s[|ws|] != '+';
  }

  /** The cast of white space, a sign, digits and any tail that does not go on with a digit. */
  lemma IntCastOfSignedPrefix(ws: Str, c: char, ds: Str, tl: Str)
    requires AllLeadSpace(ws) && AllDigits(ds) && (c == '-' || c == '+')
    requires |tl| == 0 || !IsDigit(tl[0])
    ensures IntCast(ws + [c] + ds + tl) == if c == '-' then -(DigitsValue(ds) as int) else DigitsValue(ds)
  {
    SignedPrefixParts(ws, c, ds, tl);
  }

  /** A string with neither a sign nor a digit after its leading white space is cast to 0. */
  lemma IntCastOfNonNumeric(ws: Str, tl: Str)
    requires AllLeadSpace(ws)
    requires |tl| == 0 || (!IsDigit(tl[0]) && !IsNumericLeadSpace(tl[0]) && tl[0] != '-' && tl[0] != '+')
    ensures IntCast(ws + tl) == 0
  {
    var s := ws + tl;
    var i := |ws|;
    assert s[..i] == ws;
    assert i < |s| ==> s[i] == tl[0];
    SpaceRunStops(s, i);
    DigitRunStops(s, i, 0);
    assert s[i..i] == [];
  }

  /** The (int) cast inverts the decimal rendering, for either sign. */
  lemma IntCastOfDecimal(n: nat)
    ensures IntCast(DecimalDigits(n)) == n
    ensures IntCast("-" + DecimalDigits(n)) == -(n as int)
  {
    DigitsValueOfDecimal(n);
    IntCastOfDigits(DecimalDigits(n));
    IntCastOfNegative(DecimalDigits(n));
  }
}
