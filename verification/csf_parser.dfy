/**
 * The CSFParser pipeline: a raw lfd/csf deny log body is sanitised into
 * lines, each line is classified as a ModSecurity block, a login-failure
 * block or a manual entry, and the matching extractor turns it into a
 * record. Every PHP exception becomes a `Failure`; the date parser and the
 * DNS functions are parameters.
 */
module CSFParser {
  import opened Wrappers
  import opened PhpStrings
  import opened Patterns

  /** The exceptions the parser throws, by cause. */
  datatype Error =
    | EmptyInput                                     // the constructor got "" or "0"
    | NothingToParse                                 // no line survived sanitising
    | MissingDelimiter(delimiter: Str, subject: Str) // splitString found no delimiter
    | BadDate(fragment: Str)                         // the date parser rejected a fragment

  /** One parsed record; None stands for PHP's null. */
  datatype Entry = Entry(ip: Str, host: Option<Str>, reason: Option<Str>, count: int, date: Str)

  /** A constructed parser: the raw log body and its settings. */
  datatype Parser = Parser(raw: Str, hostnameCheck: bool, timeZone: Str)

  const DefaultTimeZone: Str := "America/New_York"

  /**
   * What the parser calls but cannot see: gethostbyaddr(), whether ip2long()
   * accepts an address, and Carbon's parse-then-format of a date in a time
   * zone (None where Carbon throws).
   */
  datatype Environment = Environment(
    reverseLookup: Str -> Str,
    isIpv4: Str -> bool,
    parseDate: (Str, Str) -> Option<Str>)

  /** The constructor: an empty() log body is rejected. */
  function NewParser(raw: Str, hostnameCheck: bool): (r: Result<Parser, Error>)
    ensures r.Failure? <==> raw == "" || raw == "0"
    ensures r.Failure? ==> r.error == EmptyInput
    ensures r.Success? ==> r.value.raw == raw && r.value.hostnameCheck == hostnameCheck
    ensures r.Success? ==> r.value.timeZone == DefaultTimeZone
  {
    if IsPhpEmpty(raw) then Failure(EmptyInput) else Success(Parser(raw, hostnameCheck, DefaultTimeZone))
  }

  /** setTimeZone(): the same parser with another zone for date parsing. */
  function SetTimeZone(p: Parser, zone: Str): (q: Parser)
    ensures q.timeZone == zone && q.raw == p.raw && q.hostnameCheck == p.hostnameCheck
  {
    p.(timeZone := zone)
  }

  // ---------------------------------------------------------------------
  // Sanitising
  // ---------------------------------------------------------------------

  /** trim(rtrim($x)), the source's way of trimming. */
  function TrimBoth(s: Str): (r: Str)
    ensures r == Trim(s)
  {
    TrimAfterRTrim(s);
    Trim(RTrim(s))
  }

  /** A trimmed line is kept unless empty() holds for it or it starts with '#'. */
  predicate KeepLine(line: Str) {
    !IsPhpEmpty(line) && line[0] != '#'
  }

  /** The loop of sanitizeLogData for a given clean-up of a line and filter of the cleaned lines. */
  function CleanWith(clean: Str -> Str, keep: Str -> bool, lines: seq<Str>): (r: seq<Str>)
    ensures |r| <= |lines|
    ensures forall k :: 0 <= k < |r| ==> keep(r[k])
    decreases |lines|
  {
    if |lines| == 0 then []
    else
      var line := clean(lines[0]);
      (if keep(line) then [line] else []) + CleanWith(clean, keep, lines[1..])
  }

  /** What the clean-up guarantees of lines that satisfy `pre`, holds of every output line. */
  lemma {:induction false} CleanWithEstablishes(clean: Str -> Str, keep: Str -> bool, pre: Str -> bool, post: Str -> bool, lines: seq<Str>)
    requires forall x :: pre(x) ==> post(clean(x))
    requires forall k :: 0 <= k < |lines| ==> pre(lines[k])
    ensures forall k :: 0 <= k < |CleanWith(clean, keep, lines)| ==> post(CleanWith(clean, keep, lines)[k])
    decreases |lines|
  {
    if |lines| > 0 {
      CleanWithEstablishes(clean, keep, pre, post, lines[1..]);
    }
  }

  /** The loop of sanitizeLogData over the exploded lines: trim, then filter. */
  function CleanLines(lines: seq<Str>): (r: seq<Str>)
    ensures |r| <= |lines|
    ensures forall k :: 0 <= k < |r| ==> KeepLine(r[k]) && IsTrimmed(r[k])
  {
    CleanWithEstablishes(TrimBoth, KeepLine, (x: Str) => true, IsTrimmed, lines);
    CleanWith(TrimBoth, KeepLine, lines)
  }

  /** sanitizeLogData(): the kept lines of the body, joined by newlines. */
  function SanitizeLogData(raw: Str): Str {
    Implode(CleanLines(Explode(raw, "\n")), "\n")
  }

  // ---------------------------------------------------------------------
  // splitString
  // ---------------------------------------------------------------------

  /** trim(rtrim()) of every piece. */
  function TrimPieces(pieces: seq<Str>): (r: seq<Str>)
    ensures |r| == |pieces| && forall k :: 0 <= k < |r| ==> r[k] == Trim(pieces[k])
  {
    seq(|pieces|, k requires 0 <= k < |pieces| => TrimBoth(pieces[k]))
  }

  /**
   * splitString(): explode() then trim every piece. The guard is PHP's
   * loose `!strstr(...)`, which also rejects a suffix equal to "0"; that
   * can only happen when the delimiter is "0" itself.
   */
  function SplitString(s: Str, delim: Str): (r: Result<seq<Str>, Error>)
    requires |delim| > 0
    ensures delim != "0" ==> (r.Failure? <==> !Contains(s, delim))
    ensures r.Failure? ==> r.error == MissingDelimiter(delim, s)
    ensures r.Success? ==> |r.value| >= 2 && |r.value| == |Explode(s, delim)|
    ensures r.Success? ==> forall k :: 0 <= k < |r.value| ==> r.value[k] == Trim(Explode(s, delim)[k])
  {
    match StrStr(s, delim)
    case None => Failure(MissingDelimiter(delim, s))
    case Some(suffix) =>
      if IsPhpEmpty(suffix) then Failure(MissingDelimiter(delim, s))
      else Success(TrimPieces(Explode(s, delim)))
  }

  /** $pieces[$i], with PHP's null for an undefined index read as "". */
  function At(pieces: seq<Str>, i: nat): (r: Str)
    ensures i < |pieces| ==> r == pieces[i]
    ensures i >= |pieces| ==> r == ""
  {
    if i < |pieces| then pieces[i] else ""
  }

  // ---------------------------------------------------------------------
  // findTextBetween
  // ---------------------------------------------------------------------

  /**
   * strpos($s, $startTag) + strlen($startTag): just past the first start
   * tag, or |startTag| when the tag is absent, since false counts as 0.
   */
  function StartPosition(s: Str, startTag: Str): (p: nat)
    ensures Contains(s, startTag) ==> exists i :: FirstOccurrence(s, startTag, i) && p == i + |startTag|
    ensures !Contains(s, startTag) ==> p == |startTag|
  {
    match IndexOf(s, startTag)
    case None => |startTag|
    case Some(i) => i + |startTag|
  }

  /**
   * findTextBetween(): the trimmed text from the start position up to the
   * first end tag at or after it; null when there is no such end tag. The
   * start position is never false, so only the end tag can make it null.
   */
  function FindTextBetween(s: Str, startTag: Str, endTag: Str): (r: Option<Str>)
    ensures r.None? <==> forall k :: StartPosition(s, startTag) <= k ==> !OccursAt(s, endTag, k)
    ensures r.Some? ==> exists e ::
      && StartPosition(s, startTag) <= e && OccursAt(s, endTag, e)
      && (forall k :: StartPosition(s, startTag) <= k < e ==> !OccursAt(s, endTag, k))
      && r.value == Trim(s[StartPosition(s, startTag)..e])
  {
    var start := StartPosition(s, startTag);
    match FindFrom(s, endTag, start)
    case None => None
    case Some(e) => Some(TrimBoth(s[start..e]))
  }

  // ---------------------------------------------------------------------
  // The fields the extractors share
  // ---------------------------------------------------------------------

  /** The marker after the count in "N in the last S secs". */
  const CountMarker: Str := " in the"

  /**
   * The count of an extractor: the (int) cast of the trimmed segment's
   * prefix before the first " in the". Without the marker, strpos() is
   * false, substr($x, 0, false) is "", and the cast gives 0.
   */
  function CountField(segment: Str): (n: int)
    ensures !Contains(Trim(segment), CountMarker) ==> n == 0
    ensures Contains(Trim(segment), CountMarker) ==> exists i ::
      FirstOccurrence(Trim(segment), CountMarker, i) && n == IntCast(Trim(segment)[..i])
  {
    var text := TrimBoth(segment);
    match IndexOf(text, CountMarker)
    case None => IntCast("")
    case Some(i) => IntCast(text[..i])
  }

  /**
   * The ModSecurity reason: the pattern's match with "(id:" turned into
   * "rule id:" and every ')' removed. With no match, $matches[0] is null
   * and str_replace() makes it "".
   */
  function ModSecReason(text: Str): Str {
    var matched := match RuleMatchText(text) case None => "" case Some(t) => t;
    StrReplace(StrReplace(matched, "(id:", "rule id:"), ")", "")
  }

  /** No parenthesis of either kind in `s`. */
  predicate NoParens(s: Str) {
    '(' !in s && ')' !in s
  }

  /** The words of a match carry no parenthesis. */
  lemma WordsHaveNoParens(m: RuleMatch)
    requires WellFormedMatch(m)
    ensures NoParens("mod_security" + [m.space1]) && NoParens("rule id:")
    ensures NoParens(m.id) && NoParens([m.space2] + "triggered")
  {
    assert forall k :: 0 <= k < |m.id| ==> IsDigit(m.id[k]);
  }

  /** The first str_replace() turns the one "(id:" of a match into "rule id:". */
  lemma FirstReplace(m: RuleMatch)
    requires WellFormedMatch(m)
    ensures StrReplace(MatchText(m), "(id:", "rule id:")
      == ("mod_security" + [m.space1]) + ("rule id:" + (m.id + (Repeat(')', m.closers) + ([m.space2] + "triggered"))))
  {
    var head := "mod_security" + [m.space1];
    var afterTag := m.id + (Repeat(')', m.closers) + ([m.space2] + "triggered"));
    WordsHaveNoParens(m);
    assert MatchText(m) == head + ("(id:" + afterTag);
    StrReplaceSkips(head, "(id:" + afterTag, "(id:", "rule id:");
    StrReplaceHit("(id:", afterTag, "rule id:");
    StrReplaceUntouched(afterTag, "(id:", "rule id:");
  }

  /** The second str_replace() drops the run of ')' and keeps the rest. */
  lemma SecondReplace(front: Str, n: nat, tl: Str)
    requires NoParens(front) && NoParens(tl)
    ensures StrReplace(front + (Repeat(')', n) + tl), ")", "") == front + tl
  {
    StrReplaceSkips(front, Repeat(')', n) + tl, ")", "");
    StrReplaceDropsRun(')', n, tl);
    StrReplaceUntouched(tl, ")", "");
  }

  /** The reason a well-formed match turns into: its parts with "rule id:" in place of "(id:" and no ')'. */
  lemma ReasonOfMatch(m: RuleMatch)
    requires WellFormedMatch(m)
    ensures StrReplace(StrReplace(MatchText(m), "(id:", "rule id:"), ")", "")
      == "mod_security" + [m.space1] + "rule id:" + m.id + [m.space2] + "triggered"
  {
    var head := "mod_security" + [m.space1];
    var tl := [m.space2] + "triggered";
    var run := Repeat(')', m.closers);
    FirstReplace(m);
    var front := head + "rule id:" + m.id;
    assert head + ("rule id:" + (m.id + (run + tl))) == front + (run + tl);
    WordsHaveNoParens(m);
    SecondReplace(front, m.closers, tl);
  }

  /**
   * The ModSecurity reason is "" without a match, and otherwise the
   * match's words with "rule id:" before the digits; either way it holds
   * no parenthesis, so neither ')' nor "(id:" survives.
   */
  lemma ModSecReasonShape(text: Str)
    ensures FirstRuleMatch(text).None? ==> ModSecReason(text) == ""
    ensures FirstRuleMatch(text).Some? ==>
      var m := FirstRuleMatch(text).value.1;
      ModSecReason(text) == "mod_security" + [m.space1] + "rule id:" + m.id + [m.space2] + "triggered"
    ensures ')' !in ModSecReason(text) && '(' !in ModSecReason(text)
  {
    match FirstRuleMatch(text)
    case None =>
    case Some((at, m)) =>
      RuleMatchAtSound(text, at);
      ReasonOfMatch(m);
      WordsHaveNoParens(m);
  }

  /**
   * The host of a record: gethostbyaddr() when the lookup is on, and null
   * when the lookup is off or gives the address back.
   */
  function LookupHost(lookup: bool, env: Environment, ip: Str): (h: Option<Str>)
    ensures !lookup ==> h.None?
    ensures h.Some? ==> h.value == env.reverseLookup(ip) && h.value != ip
    ensures lookup && env.reverseLookup(ip) != ip ==> h.Some?
  {
    if !lookup then None
    else
      var name := env.reverseLookup(ip);
      if name != ip then Some(name) else None
  }

  /** Carbon::parse($fragment, $zone)->toDateTimeString(); an exception when it cannot parse. */
  function ParseDate(env: Environment, fragment: Str, zone: Str): (r: Result<Str, Error>)
    ensures r.Failure? <==> env.parseDate(fragment, zone).None?
    ensures r.Failure? ==> r.error == BadDate(fragment)
    ensures r.Success? ==> Some(r.value) == env.parseDate(fragment, zone)
  {
    match env.parseDate(fragment, zone)
    case None => Failure(BadDate(fragment))
    case Some(d) => Success(d)
  }

  /** The address of a record: the trimmed text before the first '#'. */
  ghost predicate IpOfLine(line: Str, ip: Str) {
    exists i :: FirstOccurrence(line, "#", i) && ip == Trim(line[..i])
  }

  /** The errors an extractor can raise. */
  predicate ExtractorError(e: Error) {
    e.MissingDelimiter? || e.BadDate?
  }

  // ---------------------------------------------------------------------
  // The three extractors
  // ---------------------------------------------------------------------

  /** parseModSecurity(). */
  function ParseModSecurity(p: Parser, env: Environment, line: Str): (r: Result<Entry, Error>)
    ensures r.Failure? ==> ExtractorError(r.error)
    ensures r.Success? ==> IpOfLine(line, r.value.ip)
    ensures r.Success? ==> r.value.host == LookupHost(p.hostnameCheck, env, r.value.ip)
    ensures r.Success? ==> r.value.reason.Some? && NoParens(r.value.reason.value)
  {
    var split1 :- SplitString(line, "#");
    var ip := split1[0];
    var host := LookupHost(p.hostnameCheck, env, ip);
    var split2 :- SplitString(split1[1], ": ");
    var reason := ModSecReason(split2[1]);
    var split3 :- SplitString(At(split2, 2), " - ");
    var count := CountField(split3[0]);
    var date :- ParseDate(env, split3[1], p.timeZone);
    IpOfSplit(line);
    ModSecReasonShape(split2[1]);
    Success(Entry(ip, host, Some(reason), count, date))
  }

  /** parseLoginFailure(). */
  function ParseLoginFailure(p: Parser, env: Environment, line: Str): (r: Result<Entry, Error>)
    ensures r.Failure? ==> ExtractorError(r.error)
    ensures r.Success? ==> IpOfLine(line, r.value.ip)
    ensures r.Success? ==> r.value.host == LookupHost(p.hostnameCheck, env, r.value.ip)
  {
    var split1 :- SplitString(line, "#");
    var ip := split1[0];
    var host := LookupHost(p.hostnameCheck, env, ip);
    var split2 :- SplitString(split1[1], ": ");
    var reason := FindTextBetween(split2[1], ")", " from");
    var split3 :- SplitString(At(split2, 2), " - ");
    var count := CountField(split3[0]);
    var date :- ParseDate(env, split3[1], p.timeZone);
    IpOfSplit(line);
    Success(Entry(ip, host, reason, count, date))
  }

  /** parseManualEntry(): the count is always 1. */
  function ParseManualEntry(p: Parser, env: Environment, line: Str): (r: Result<Entry, Error>)
    ensures r.Failure? ==> ExtractorError(r.error)
    ensures r.Success? ==> IpOfLine(line, r.value.ip)
    ensures r.Success? ==> r.value.host == LookupHost(env.isIpv4(r.value.ip) && p.hostnameCheck, env, r.value.ip)
    ensures r.Success? ==> r.value.count == 1
  {
    var split1 :- SplitString(line, "#");
    var ip := split1[0];
    var host := LookupHost(env.isIpv4(ip) && p.hostnameCheck, env, ip);
    var split2 :- SplitString(split1[1], " - ");
    var reason := if Contains(split2[0], "Manually denied:") then None else Some(split2[0]);
    var date :- ParseDate(env, split2[1], p.timeZone);
    IpOfSplit(line);
    Success(Entry(ip, host, reason, 1, date))
  }

  /** When a line splits on '#', its first piece is the address of IpOfLine. */
  lemma IpOfSplit(line: Str)
    requires SplitString(line, "#").Success?
    ensures IpOfLine(line, SplitString(line, "#").value[0])
  {
    var i := IndexOf(line, "#").value;
    ExplodeFirstPiece(line, "#", i);
  }

  // ---------------------------------------------------------------------
  // Dispatch
  // ---------------------------------------------------------------------

  /** Which extractor processLines() hands a line to, if any. */
  datatype LineKind = ModSecurityLine | LoginFailureLine | ManualEntryLine | Unrecognized

  /** isModSecurity(). */
  predicate IsModSecurity(line: Str) {
    Contains(line, "mod_security")
  }

  /** isManualEntry(). */
  predicate IsManualEntry(line: Str) {
    Contains(line, "Manually denied") || !Contains(line, "lfd")
  }

  /**
   * The dispatch of processLines(), tested in order: mod_security first,
   * then the daemon-tag pattern, then the manual-entry test.
   */
  function Classify(line: Str): (k: LineKind)
    ensures k == ModSecurityLine <==> exists i :: OccursAt(line, "mod_security", i)
    ensures k == LoginFailureLine <==> !IsModSecurity(line) && exists i, j :: TagGroup(line, i, j)
    ensures k == ManualEntryLine <==>
      !IsModSecurity(line) && !HasLoginTag(line) && IsManualEntry(line)
  {
    if IsModSecurity(line) then ModSecurityLine
    else if HasLoginTag(line) then LoginFailureLine
    else if IsManualEntry(line) then ManualEntryLine
    else Unrecognized
  }

  /** An extractor's outcome as the outcome of one line: its record, or its error. */
  function AsRecord(x: Result<Entry, Error>): Result<Option<Entry>, Error> {
    match x
    case Success(e) => Success(Some(e))
    case Failure(err) => Failure(err)
  }

  /**
   * One line of processLines(): its record, or None when it is skipped.
   * A recognised line gets exactly what the extractor of its kind returns.
   */
  function ParseLine(p: Parser, env: Environment, line: Str): (r: Result<Option<Entry>, Error>)
    ensures Classify(line) == ModSecurityLine ==> r == AsRecord(ParseModSecurity(p, env, line))
    ensures Classify(line) == LoginFailureLine ==> r == AsRecord(ParseLoginFailure(p, env, line))
    ensures Classify(line) == ManualEntryLine ==> r == AsRecord(ParseManualEntry(p, env, line))
    ensures Classify(line) == Unrecognized ==> r == Success(None)
    ensures r.Success? ==> (r.value.None? <==> Classify(line) == Unrecognized)
    ensures r.Failure? ==> ExtractorError(r.error)
    ensures r.Success? && r.value.Some? ==> IpOfLine(line, r.value.value.ip)
    ensures r.Success? && r.value.Some? && !p.hostnameCheck ==> r.value.value.host.None?
  {
    match Classify(line)
    case ModSecurityLine =>
      var e :- ParseModSecurity(p, env, line);
      Success(Some(e))
    case LoginFailureLine =>
      var e :- ParseLoginFailure(p, env, line);
      Success(Some(e))
    case ManualEntryLine =>
      var e :- ParseManualEntry(p, env, line);
      Success(Some(e))
    case Unrecognized => Success(None)
  }

  /** The step of processLines() for one line. */
  type Step = Str -> Result<Option<Entry>, Error>

  /**
   * The loop of processLines() for a given per-line step: the records in
   * line order; the first line whose step fails aborts the loop with its
   * error, and every line before it went through.
   */
  function ProcessWith(step: Step, lines: seq<Str>): (r: Result<seq<Entry>, Error>)
    ensures r.Success? <==> forall k :: 0 <= k < |lines| ==> step(lines[k]).Success?
    ensures r.Success? ==> |r.value| <= |lines|
    ensures r.Failure? ==> exists k :: (0 <= k < |lines| && step(lines[k]) == Failure(r.error)
      && forall j :: 0 <= j < k ==> step(lines[j]).Success?)
    decreases |lines|
  {
    if |lines| == 0 then Success([])
    else
      var first :- step(lines[0]);
      var rest :- ProcessWith(step, lines[1..]);
      Success((match first case None => [] case Some(e) => [e]) + rest)
  }

  /** The loop of processLines() with the parser's own dispatch. */
  function ProcessAll(p: Parser, env: Environment, lines: seq<Str>): (r: Result<seq<Entry>, Error>)
    ensures r.Success? <==> forall k :: 0 <= k < |lines| ==> ParseLine(p, env, lines[k]).Success?
    ensures r.Success? ==> |r.value| <= |lines|
    ensures r.Failure? ==> ExtractorError(r.error)
  {
    ProcessWith(line => ParseLine(p, env, line), lines)
  }

  /** processLines() over the sanitised body. */
  function ProcessLines(p: Parser, env: Environment, clean: Str): (r: Result<seq<Entry>, Error>)
    ensures r == Failure(NothingToParse) <==> IsPhpEmpty(clean)
  {
    if IsPhpEmpty(clean) then Failure(NothingToParse)
    else ProcessAll(p, env, Explode(clean, "\n"))
  }

  /** parse(): sanitise, then process the lines. */
  function Parse(p: Parser, env: Environment): Result<seq<Entry>, Error> {
    ProcessLines(p, env, SanitizeLogData(p.raw))
  }
}
