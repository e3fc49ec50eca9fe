/**
 * Properties of the whole pipeline that relate several calls: the
 * sanitiser as a line filter and its idempotence, what parse() sees and
 * when it fails, the record-per-recognised-line correspondence, and the
 * field-level promises of the extractors.
 */
module CSFProperties {
  import opened Wrappers
  import opened PhpStrings
  import opened Patterns
  import opened CSFParser

  // ---------------------------------------------------------------------
  // The sanitiser
  // ---------------------------------------------------------------------

  /** The sanitiser's loop works line by line: on two runs of lines it is the two outputs concatenated. */
  lemma {:induction false} CleanWithAppend(clean: Str -> Str, keep: Str -> bool, a: seq<Str>, b: seq<Str>)
    ensures CleanWith(clean, keep, a + b) == CleanWith(clean, keep, a) + CleanWith(clean, keep, b)
    decreases |a|
  {
    if |a| == 0 {
      assert a + b == b;
    } else {
      assert (a + b)[0] == a[0];
      assert (a + b)[1..] == a[1..] + b;
      CleanWithAppend(clean, keep, a[1..], b);
    }
  }

  /**
   * The sanitiser is a line-by-line filter: cleaning two runs of lines is
   * cleaning each and concatenating, and one line becomes its trim() when
   * the trimmed line passes the filters and nothing otherwise. Together
   * these say the output is exactly the trimmed kept lines, in their
   * original order.
   */
  lemma CleanLinesIsFilter(a: seq<Str>, b: seq<Str>, line: Str)
    ensures CleanLines(a + b) == CleanLines(a) + CleanLines(b)
    ensures KeepLine(Trim(line)) ==> CleanLines([line]) == [Trim(line)]
    ensures !KeepLine(Trim(line)) ==> CleanLines([line]) == []
  {
    CleanWithAppend(TrimBoth, KeepLine, a, b);
    assert [line][1..] == [];
  }

  /** Lines that the clean-up leaves alone and the filter keeps come through unchanged. */
  lemma {:induction false} CleanWithOfClean(clean: Str -> Str, keep: Str -> bool, lines: seq<Str>)
    requires forall k :: 0 <= k < |lines| ==> keep(lines[k]) && clean(lines[k]) == lines[k]
    ensures CleanWith(clean, keep, lines) == lines
    decreases |lines|
  {
    if |lines| > 0 {
      CleanWithOfClean(clean, keep, lines[1..]);
      assert lines == [lines[0]] + lines[1..];
    }
  }

  /** Lines that are already clean come through the sanitiser unchanged. */
  lemma CleanLinesOfClean(lines: seq<Str>)
    requires forall k :: 0 <= k < |lines| ==> KeepLine(lines[k]) && IsTrimmed(lines[k])
    ensures CleanLines(lines) == lines
  {
    forall k | 0 <= k < |lines|
      ensures TrimBoth(lines[k]) == lines[k]
    {
      TrimOfTrimmed(lines[k]);
    }
    CleanWithOfClean(TrimBoth, KeepLine, lines);
  }

  /** Cleaning twice is cleaning once. */
  lemma CleanLinesIdempotent(lines: seq<Str>)
    ensures CleanLines(CleanLines(lines)) == CleanLines(lines)
  {
    CleanLinesOfClean(CleanLines(lines));
  }

  /** A line without a newline. */
  predicate NoNewline(s: Str) {
    '\n' !in s
  }

  /** trim() only removes characters. */
  lemma TrimLacks(s: Str, c: char)
    requires c !in s
    ensures c !in Trim(s)
  {
    var i := TrimIsInfix(s);
    forall k | 0 <= k < |Trim(s)|
      ensures Trim(s)[k] != c
    {
      assert Trim(s)[k] == s[i + k];
    }
  }

  /** A text that does not contain the one-character pattern [c] lacks c. */
  lemma NotContainsLacks(s: Str, c: char)
    requires !Contains(s, [c])
    ensures c !in s
  {
    forall k | 0 <= k < |s|
      ensures s[k] != c
    {
      assert s[k] == c ==> OccursAt(s, [c], k);
    }
  }

  /** The kept lines of a body: what sanitizeLogData joins together. */
  function KeptLines(raw: Str): (r: seq<Str>)
    ensures forall k :: 0 <= k < |r| ==> KeepLine(r[k]) && IsTrimmed(r[k]) && NoNewline(r[k])
  {
    var pieces := Explode(raw, "\n");
    forall k | 0 <= k < |pieces|
      ensures NoNewline(pieces[k])
    {
      NotContainsLacks(pieces[k], '\n');
    }
    forall x | NoNewline(x)
      ensures NoNewline(TrimBoth(x))
    {
      TrimLacks(x, '\n');
    }
    CleanWithEstablishes(TrimBoth, KeepLine, NoNewline, NoNewline, pieces);
    CleanLines(pieces)
  }

  /**
   * processLines() splits the sanitised body back into exactly the kept
   * lines, and the body is empty() exactly when no line was kept.
   */
  lemma SanitizedLines(raw: Str)
    ensures IsPhpEmpty(SanitizeLogData(raw)) <==> |KeptLines(raw)| == 0
    ensures |KeptLines(raw)| > 0 ==> Explode(SanitizeLogData(raw), "\n") == KeptLines(raw)
  {
    var kept := KeptLines(raw);
    if |kept| > 0 {
      ExplodeImplode(kept, "\n");
      if |kept| == 1 {
        assert SanitizeLogData(raw) == kept[0];
      } else {
        assert SanitizeLogData(raw) == kept[0] + "\n" + Implode(kept[1..], "\n");
      }
    }
  }

  /** Sanitising an already sanitised body changes nothing. */
  lemma SanitizeIdempotent(raw: Str)
    ensures SanitizeLogData(SanitizeLogData(raw)) == SanitizeLogData(raw)
  {
    var kept := KeptLines(raw);
    SanitizedLines(raw);
    if |kept| > 0 {
      CleanLinesOfClean(kept);
    } else {
      assert SanitizeLogData(raw) == "";
      assert Explode("", "\n") == [""];
      assert CleanLines([""]) == [];
    }
  }

  // ---------------------------------------------------------------------
  // parse() as a whole
  // ---------------------------------------------------------------------

  /**
   * parse() fails with "empty string received" exactly when no line
   * survives sanitising, and otherwise processes exactly the kept lines.
   */
  lemma ParseSeesKeptLines(p: Parser, env: Environment)
    ensures Parse(p, env) == Failure(NothingToParse) <==> |KeptLines(p.raw)| == 0
    ensures |KeptLines(p.raw)| > 0 ==> Parse(p, env) == ProcessAll(p, env, KeptLines(p.raw))
  {
    SanitizedLines(p.raw);
  }

  /** A body of nothing but blank lines and '#' comments cannot be parsed. */
  lemma CommentsOnlyFails(p: Parser, env: Environment)
    requires forall k :: 0 <= k < |Explode(p.raw, "\n")| ==>
      var line := Trim(Explode(p.raw, "\n")[k]);
      line == "" || line[0] == '#'
    ensures Parse(p, env) == Failure(NothingToParse)
  {
    var pieces := Explode(p.raw, "\n");
    NoneKept(TrimBoth, KeepLine, pieces);
    ParseSeesKeptLines(p, env);
  }

  /** Lines the filter rejects after clean-up leave nothing. */
  lemma {:induction false} NoneKept(clean: Str -> Str, keep: Str -> bool, lines: seq<Str>)
    requires forall k :: 0 <= k < |lines| ==> !keep(clean(lines[k]))
    ensures CleanWith(clean, keep, lines) == []
    decreases |lines|
  {
    if |lines| > 0 {
      NoneKept(clean, keep, lines[1..]);
    }
  }

  /** The lines for which `keep` holds, in their order. */
  function Filter(keep: Str -> bool, lines: seq<Str>): (r: seq<Str>)
    ensures |r| <= |lines|
    ensures forall k :: 0 <= k < |r| ==> keep(r[k]) && r[k] in lines
    decreases |lines|
  {
    if |lines| == 0 then []
    else (if keep(lines[0]) then [lines[0]] else []) + Filter(keep, lines[1..])
  }

  /**
   * When every step succeeds and gives a record exactly for the lines
   * `keep` selects, the loop yields one record per selected line, in
   * order, each the one its line's step gave.
   */
  lemma {:induction false} RecordsFollowKept(step: Step, keep: Str -> bool, lines: seq<Str>)
    requires forall k :: 0 <= k < |lines| ==> step(lines[k]).Success?
    requires forall k :: 0 <= k < |lines| ==> (step(lines[k]).value.Some? <==> keep(lines[k]))
    ensures ProcessWith(step, lines).Success?
    ensures |ProcessWith(step, lines).value| == |Filter(keep, lines)|
    ensures forall j :: 0 <= j < |Filter(keep, lines)| ==>
      step(Filter(keep, lines)[j]) == Success(Some(ProcessWith(step, lines).value[j]))
    decreases |lines|
  {
    if |lines| > 0 {
      var tail := lines[1..];
      assert forall k :: 0 <= k < |tail| ==> tail[k] == lines[k + 1];
      RecordsFollowKept(step, keep, tail);
    }
  }

  /** A line processLines() hands to an extractor. */
  predicate IsRecognized(line: Str) {
    Classify(line) != Unrecognized
  }

  /** The lines processLines() hands to an extractor. */
  function Recognized(lines: seq<Str>): seq<Str> {
    Filter(IsRecognized, lines)
  }

  /**
   * On success there is one record per recognised line, in line order,
   * and each is what that line's extractor returns.
   */
  lemma RecordsFollowLines(p: Parser, env: Environment, lines: seq<Str>)
    requires ProcessAll(p, env, lines).Success?
    ensures |ProcessAll(p, env, lines).value| == |Recognized(lines)|
    ensures forall j :: 0 <= j < |Recognized(lines)| ==>
      ParseLine(p, env, Recognized(lines)[j]) == Success(Some(ProcessAll(p, env, lines).value[j]))
  {
    var step: Step := line => ParseLine(p, env, line);
    RecordsFollowKept(step, IsRecognized, lines);
  }

  /**
   * Every record of a successful parse() comes from a kept line: its ip is
   * the trimmed text before that line's first '#', and its host is null
   * when the lookup is off.
   */
  lemma RecordsOfParse(p: Parser, env: Environment)
    ensures Parse(p, env).Success? ==> forall j :: 0 <= j < |Parse(p, env).value| ==>
      exists k :: 0 <= k < |KeptLines(p.raw)| && IpOfLine(KeptLines(p.raw)[k], Parse(p, env).value[j].ip)
    ensures Parse(p, env).Success? && !p.hostnameCheck ==>
      forall j :: 0 <= j < |Parse(p, env).value| ==> Parse(p, env).value[j].host.None?
  {
    if Parse(p, env).Success? {
      var kept := KeptLines(p.raw);
      ParseSeesKeptLines(p, env);
      var out := Parse(p, env).value;
      assert |kept| > 0;
      RecordsFollowLines(p, env, kept);
      forall j | 0 <= j < |out|
        ensures exists k :: 0 <= k < |kept| && IpOfLine(kept[k], out[j].ip)
        ensures !p.hostnameCheck ==> out[j].host.None?
      {
        var line := Recognized(kept)[j];
        assert ParseLine(p, env, line) == Success(Some(out[j]));
        assert line in kept;
        var k :| 0 <= k < |kept| && kept[k] == line;
      }
    }
  }

  // ---------------------------------------------------------------------
  // Fields of the records
  // ---------------------------------------------------------------------

  /**
   * parseModSecurity() in terms of its pieces: it fails with the error of
   * the first split that finds no delimiter, or of a date the parser
   * rejects, and otherwise its record holds the address before '#', the
   * rewritten rule of the second ": " piece, the count in front of the
   * first " - " of the third piece and the date after it.
   */
  lemma ModSecurityRecord(p: Parser, env: Environment, line: Str, s1: seq<Str>, s2: seq<Str>, s3: seq<Str>)
    ensures SplitString(line, "#").Failure? ==>
      ParseModSecurity(p, env, line) == Failure(MissingDelimiter("#", line))
    ensures SplitString(line, "#") == Success(s1) && SplitString(s1[1], ": ").Failure? ==>
      ParseModSecurity(p, env, line) == Failure(MissingDelimiter(": ", s1[1]))
    ensures (&& SplitString(line, "#") == Success(s1)
             && SplitString(s1[1], ": ") == Success(s2)
             && SplitString(At(s2, 2), " - ").Failure?) ==>
      ParseModSecurity(p, env, line) == Failure(MissingDelimiter(" - ", At(s2, 2)))
    ensures (&& SplitString(line, "#") == Success(s1)
             && SplitString(s1[1], ": ") == Success(s2)
             && SplitString(At(s2, 2), " - ") == Success(s3)) ==>
      var date := env.parseDate(s3[1], p.timeZone);
      ParseModSecurity(p, env, line) ==
        if date.None? then Failure(BadDate(s3[1]))
        else Success(Entry(s1[0], LookupHost(p.hostnameCheck, env, s1[0]), Some(ModSecReason(s2[1])),
                           CountField(s3[0]), date.value))
  {
  }

  /**
   * parseLoginFailure() in terms of its pieces: the same failures as
   * parseModSecurity(), and a record whose reason is the text between the
   * first ')' and the next " from" of the second ": " piece.
   */
  lemma LoginFailureRecord(p: Parser, env: Environment, line: Str, s1: seq<Str>, s2: seq<Str>, s3: seq<Str>)
    ensures SplitString(line, "#").Failure? ==>
      ParseLoginFailure(p, env, line) == Failure(MissingDelimiter("#", line))
    ensures SplitString(line, "#") == Success(s1) && SplitString(s1[1], ": ").Failure? ==>
      ParseLoginFailure(p, env, line) == Failure(MissingDelimiter(": ", s1[1]))
    ensures (&& SplitString(line, "#") == Success(s1)
             && SplitString(s1[1], ": ") == Success(s2)
             && SplitString(At(s2, 2), " - ").Failure?) ==>
      ParseLoginFailure(p, env, line) == Failure(MissingDelimiter(" - ", At(s2, 2)))
    ensures (&& SplitString(line, "#") == Success(s1)
             && SplitString(s1[1], ": ") == Success(s2)
             && SplitString(At(s2, 2), " - ") == Success(s3)) ==>
      var date := env.parseDate(s3[1], p.timeZone);
      ParseLoginFailure(p, env, line) ==
        if date.None? then Failure(BadDate(s3[1]))
        else Success(Entry(s1[0], LookupHost(p.hostnameCheck, env, s1[0]), FindTextBetween(s2[1], ")", " from"),
                           CountField(s3[0]), date.value))
  {
  }

  /**
   * parseManualEntry() in terms of its pieces: it fails on a missing '#'
   * or " - ", or a rejected date, and otherwise its record holds the
   * address, the text before " - " unless it says "Manually denied:", the
   * count 1 and the date after " - ".
   */
  lemma ManualEntryRecord(p: Parser, env: Environment, line: Str, s1: seq<Str>, s2: seq<Str>)
    ensures SplitString(line, "#").Failure? ==>
      ParseManualEntry(p, env, line) == Failure(MissingDelimiter("#", line))
    ensures SplitString(line, "#") == Success(s1) && SplitString(s1[1], " - ").Failure? ==>
      ParseManualEntry(p, env, line) == Failure(MissingDelimiter(" - ", s1[1]))
    ensures SplitString(line, "#") == Success(s1) && SplitString(s1[1], " - ") == Success(s2) ==>
      var date := env.parseDate(s2[1], p.timeZone);
      ParseManualEntry(p, env, line) ==
        if date.None? then Failure(BadDate(s2[1]))
        else Success(Entry(s1[0], LookupHost(env.isIpv4(s1[0]) && p.hostnameCheck, env, s1[0]),
                           if Contains(s2[0], "Manually denied:") then None else Some(s2[0]),
                           1, date.value))
  {
  }

  /**
   * The count of a ModSecurity or login-failure record whose third ": "
   * piece starts "N in the" is N.
   */
  lemma RecordCount(p: Parser, env: Environment, line: Str, s1: seq<Str>, s2: seq<Str>, s3: seq<Str>, n: nat, rest: Str)
    ensures (&& SplitString(line, "#") == Success(s1)
             && SplitString(s1[1], ": ") == Success(s2)
             && SplitString(At(s2, 2), " - ") == Success(s3)
             && s3[0] == DecimalDigits(n) + CountMarker + rest) ==>
      && (ParseModSecurity(p, env, line).Success? ==> ParseModSecurity(p, env, line).value.count == n)
      && (ParseLoginFailure(p, env, line).Success? ==> ParseLoginFailure(p, env, line).value.count == n)
  {
    if (&& SplitString(line, "#") == Success(s1)
        && SplitString(s1[1], ": ") == Success(s2)
        && SplitString(At(s2, 2), " - ") == Success(s3)
        && s3[0] == DecimalDigits(n) + CountMarker + rest)
    {
      CountOfTrimmed(s3[0], n, rest);
      ModSecurityRecord(p, env, line, s1, s2, s3);
      LoginFailureRecord(p, env, line, s1, s2, s3);
    }
  }

  /** A trimmed segment "N in the..." has count N. */
  lemma CountOfTrimmed(s: Str, n: nat, rest: Str)
    requires IsTrimmed(s) && s == DecimalDigits(n) + CountMarker + rest
    ensures CountField(s) == n
  {
    assert |rest| > 0 ==> s[|s| - 1] == rest[|rest| - 1];
    CountOfDecimal(n, rest);
  }

  /** The ip of a record from a kept line is never empty: it starts where the line starts. */
  lemma IpOfKeptLine(line: Str, ip: Str)
    requires KeepLine(line) && IsTrimmed(line) && IpOfLine(line, ip)
    ensures |ip| > 0 && ip[0] == line[0]
  {
    var i :| FirstOccurrence(line, "#", i) && ip == Trim(line[..i]);
    assert i > 0 by {
      assert line[i..i + 1] == "#";
      assert line[i] == '#';
    }
    TrimKeepsFirst(line[..i]);
  }

  /** Two first occurrences of one pattern are the same. */
  lemma FirstOccurrenceUnique(s: Str, pat: Str, i: int, j: int)
    requires FirstOccurrence(s, pat, i) && FirstOccurrence(s, pat, j)
    ensures i == j
  {
  }

  /** After a run of digits, the first " in the" is the one right behind them. */
  lemma MarkerAfterDigits(ds: Str, rest: Str)
    requires AllDigits(ds)
    ensures FirstOccurrence(ds + CountMarker + rest, CountMarker, |ds|)
  {
    var s := ds + CountMarker + rest;
    assert s[|ds|..|ds| + |CountMarker|] == CountMarker;
    forall k | 0 <= k < |ds|
      ensures !OccursAt(s, CountMarker, k)
    {
      assert s[k] == ds[k];
      if k + |CountMarker| <= |s| {
        assert s[k..k + |CountMarker|][0] == s[k];
      }
    }
  }

  /** A count segment that starts with a digit and does not end in white space is already trimmed. */
  lemma CountSegmentTrimmed(ds: Str, rest: Str)
    requires |ds| > 0 && AllDigits(ds)
    requires |rest| == 0 || !IsTrimChar(rest[|rest| - 1])
    ensures IsTrimmed(ds + CountMarker + rest)
  {
    var s := ds + CountMarker + rest;
    assert s[0] == ds[0];
    if |rest| == 0 {
      assert s[|s| - 1] == 'e';
    } else {
      assert s[|s| - 1] == rest[|rest| - 1];
    }
  }

  /** A count written in decimal in front of " in the" is read back. */
  lemma CountOfDecimal(n: nat, rest: Str)
    requires |rest| == 0 || !IsTrimChar(rest[|rest| - 1])
    ensures CountField(DecimalDigits(n) + CountMarker + rest) == n
  {
    var ds := DecimalDigits(n);
    var s := ds + CountMarker + rest;
    CountSegmentTrimmed(ds, rest);
    TrimOfTrimmed(s);
    MarkerAfterDigits(ds, rest);
    assert Contains(s, CountMarker);
    var i :| FirstOccurrence(s, CountMarker, i) && CountField(s) == IntCast(s[..i]);
    FirstOccurrenceUnique(s, CountMarker, i, |ds|);
    assert s[..|ds|] == ds;
    IntCastOfDecimal(n);
  }

  /** A manual entry's reason is the text before " - ", nulled when it says "Manually denied:". */
  lemma ManualReason(p: Parser, env: Environment, line: Str)
    ensures ParseManualEntry(p, env, line).Success? ==>
      && SplitString(line, "#").Success?
      && SplitString(SplitString(line, "#").value[1], " - ").Success?
      && var text := SplitString(SplitString(line, "#").value[1], " - ").value[0];
        && (ParseManualEntry(p, env, line).value.reason.None? <==> Contains(text, "Manually denied:"))
        && (ParseManualEntry(p, env, line).value.reason.Some? ==> ParseManualEntry(p, env, line).value.reason.value == text)
  {
  }

  /**
   * Without a third ": " piece the ModSecurity and login-failure extractors
   * fail: the undefined $split2[2] reads as "", which has no " - ".
   */
  lemma MissingThirdField(p: Parser, env: Environment, line: Str)
    ensures (&& SplitString(line, "#").Success?
             && var split2 := SplitString(SplitString(line, "#").value[1], ": ");
               split2.Success? && |split2.value| == 2) ==>
      && ParseModSecurity(p, env, line) == Failure(MissingDelimiter(" - ", ""))
      && ParseLoginFailure(p, env, line) == Failure(MissingDelimiter(" - ", ""))
  {
    if SplitString(line, "#").Success? {
      var s1 := SplitString(line, "#").value;
      var split2 := SplitString(s1[1], ": ");
      if split2.Success? && |split2.value| == 2 {
        assert At(split2.value, 2) == "";
        assert !Contains("", " - ");
        ModSecurityRecord(p, env, line, s1, split2.value, []);
        LoginFailureRecord(p, env, line, s1, split2.value, []);
      }
    }
  }

  /**
   * The start check of findTextBetween() is dead: without any ')' the
   * start position is 1, so the text is taken from the second byte on
   * and the first one is silently dropped (each `char` is one byte).
   */
  lemma MissingStartTagSkipsFirst(c: char, w: Str, rest: Str)
    requires c != ')' && ')' !in w && ')' !in rest && ' ' !in w
    ensures FindTextBetween([c] + w + " from" + rest, ")", " from") == Some(Trim(w))
  {
    var s := [c] + w + " from" + rest;
    var e := 1 + |w|;
    assert forall k :: 0 <= k < |s| ==> s[k] != ')' by {
      forall k | 0 <= k < |s|
        ensures s[k] != ')'
      {
        if k == 0 {
        } else if k < e {
          assert s[k] == w[k - 1];
        } else if k < e + 5 {
          assert s[k] == " from"[k - e];
        } else {
          assert s[k] == rest[k - e - 5];
        }
      }
    }
    NoLeadCharNoOccurrence(s, ")");
    assert StartPosition(s, ")") == 1;
    assert OccursAt(s, " from", e) by {
      assert s[e..e + 5] == " from";
    }
    forall k | 1 <= k < e
      ensures !OccursAt(s, " from", k)
    {
      assert s[k] == w[k - 1];
      if k + 5 <= |s| {
        assert s[k..k + 5][0] == s[k];
      }
    }
    assert s[1..e] == w;
  }
}
