# CSFParser in Dafny

This project models `LithiumDev\CSFParser\CSFParser`, a small PHP class. It
turns the text of a ConfigServer Firewall / lfd deny log into records of
the form `ip`, `host`, `reason`, `count`, `date`. The pipeline has four
stages:

- The constructor rejects an `empty()` log body.
- `sanitizeLogData` splits the body on newlines. It trims every line and
  drops blank lines, lines equal to `"0"` and `#` comments.
- `processLines` fails on an empty cleaned body. It sends each line to one
  of three extractors, or drops it:
  - ModSecurity: the line contains `mod_security`;
  - login failure: the line matches the daemon-tag pattern;
  - manual entry: the line contains `Manually denied`, or does not contain
    `lfd`.
- Each extractor cuts its line with `splitString`, which is `explode()`
  followed by `trim()`. It then reads the reason, the count and the date
  from the pieces.

Strings are `seq<char>`, and each `char` stands for one byte of the PHP
string: PHP's string functions count and cut bytes, and so does the model.
Every delimiter, trim character and pattern character the class uses is
ASCII, so one byte is one character there. Every PHP exception is a
`Failure` of the `Result` type. Each PHP builtin the class relies on is
written out in Dafny:

- `trim`, `rtrim`;
- `strpos` (with and without an offset), `strstr`;
- `explode`, `implode`;
- `str_replace`;
- the `(int)` cast;
- `empty()`.

Each builtin is pinned down by its inverse or by a reference definition.
`str_replace()`, for one, is proved equal to `explode()` followed by
`implode()` with the replacement as glue. The `(int)` cast is pinned down
on every string that starts, after white space, with an optional sign and
digits: its value is the value of those digits, whatever text follows.
It is also pinned down on a string with neither a sign nor a digit there:
its value is 0.
The two regular expressions are hand-coded matchers, each proved equal to a
reference reading of its pattern.

Some things the class calls cannot be seen from it. They are fields of an
`Environment` value:

- reverse DNS (`gethostbyaddr`);
- the `ip2long` validity test;
- Carbon's parse-and-format of a date in a time zone. It returns `None`
  where Carbon throws.

Files:

- `wrappers.dfy`: `Option` and `Result`.
- `php_strings.dfy`: the PHP string builtins.
- `patterns.dfy`: the two fixed regular expressions.
- `csf_parser.dfy`: the class itself.
- `csf_properties.dfy`: lemmas that relate several calls.

Where the code does less or more than its names and the log format
suggest, the model follows the code:

- **Daemon tag.** The pattern `\([sshd|cpanel|ftpd|pop3d|imapd|htaccess]+\)`
  is a character class, not a list of daemon names. Any parenthesised word
  over the letters `s h d | c p a n e l f t o 3 i m` matches, so
  `(hello)` matches (`Patterns.HelloIsALoginTag`).
- **Count.** The count is not always at least 1. Without the
  `" in the"` marker it is 0, and a leading `-` makes it negative.
- **Reason.** The ModSecurity reason keeps the words around the id. It is
  `mod_security rule id:N triggered`, not `rule id:N`.
- **Reason piece.** The reason comes from the second `": "` piece and the
  count and date from the third, not the third alone. A line with only one
  `": "` after the `#` fails on the missing third piece
  (`CSFProperties.MissingThirdField`).
- **Constructor.** It also rejects the body `"0"`, because `empty("0")` is
  true.

## Model

| member | source | states |
|---|---|---|
| PhpStrings.Trim | src/LithiumDev/CSFParser/CSFParser.php:98 | trim() gives a string with no space, tab, newline, return, NUL or vertical tab at either end, no longer than its argument |
| PhpStrings.RTrim | src/LithiumDev/CSFParser/CSFParser.php:98 | rtrim() gives a prefix of its argument; what it cuts off is all white space, and what it keeps does not end in white space |
| PhpStrings.TrimIsInfix | src/LithiumDev/CSFParser/CSFParser.php:98 | trim() returns an infix of its argument with only trim characters before and after it |
| PhpStrings.TrimUnique | src/LithiumDev/CSFParser/CSFParser.php:98 | any trimmed infix with only trim characters around it is the value of trim(): the shape determines trim() |
| PhpStrings.TrimAfterRTrim | src/LithiumDev/CSFParser/CSFParser.php:98 | trim(rtrim(x)) equals trim(x), so the source's double trimming is plain trimming |
| PhpStrings.TrimOfTrimmed | src/LithiumDev/CSFParser/CSFParser.php:98 | a string with no white space at either end is its own trim() |
| PhpStrings.TrimKeepsFirst | src/LithiumDev/CSFParser/CSFParser.php:170 | trim() of a string that starts with a non-white character is non-empty and starts with that character |
| PhpStrings.FindFrom | src/LithiumDev/CSFParser/CSFParser.php:265 | strpos() with an offset finds the first occurrence at or after the offset, and returns false exactly when there is none there |
| PhpStrings.IndexOf | src/LithiumDev/CSFParser/CSFParser.php:181 | strpos() returns the first occurrence, or false when the pattern occurs nowhere |
| PhpStrings.Contains | src/LithiumDev/CSFParser/CSFParser.php:158 | `strstr() !== false` holds exactly when the pattern occurs somewhere |
| PhpStrings.StrStr | src/LithiumDev/CSFParser/CSFParser.php:205 | strstr() is false exactly when the pattern is absent, and otherwise the suffix of the subject from the pattern's first occurrence on |
| PhpStrings.Explode | src/LithiumDev/CSFParser/CSFParser.php:210 | explode() gives at least one piece, two or more exactly when the delimiter occurs, and no piece contains the delimiter |
| PhpStrings.ImplodeExplode | src/LithiumDev/CSFParser/CSFParser.php:210 | joining the pieces of explode() with the delimiter gives the input back |
| PhpStrings.ExplodeImplode | src/LithiumDev/CSFParser/CSFParser.php:113 | pieces free of the delimiter's first character, joined and exploded again, come back unchanged |
| PhpStrings.ExplodeAtFirst | src/LithiumDev/CSFParser/CSFParser.php:210 | explode() gives the text before the first delimiter, then the pieces of the text after it |
| PhpStrings.ExplodeFirstPiece | src/LithiumDev/CSFParser/CSFParser.php:169-170 | the first piece of explode() is the text before the first delimiter |
| PhpStrings.StrReplaceSkips | src/LithiumDev/CSFParser/CSFParser.php:175 | str_replace() passes a prefix without the search string's first character through unchanged |
| PhpStrings.StrReplaceHit | src/LithiumDev/CSFParser/CSFParser.php:175 | str_replace() replaces an occurrence at the front and resumes the scan after it, so the replacement is not searched |
| PhpStrings.StrReplaceUntouched | src/LithiumDev/CSFParser/CSFParser.php:175 | str_replace() leaves a text without the search string's first character as it is |
| PhpStrings.StrReplaceRemoves | src/LithiumDev/CSFParser/CSFParser.php:176 | replacing a character by "" leaves no copy of it |
| PhpStrings.StrReplaceDropsRun | src/LithiumDev/CSFParser/CSFParser.php:176 | removing ')' deletes a whole run of ')' at the front |
| PhpStrings.StrReplaceNoOccurrence | src/LithiumDev/CSFParser/CSFParser.php:175-176 | str_replace() leaves a text in which the search string does not occur as it is |
| PhpStrings.StrReplaceClearPrefix | src/LithiumDev/CSFParser/CSFParser.php:175-176 | str_replace() copies a prefix in which no occurrence of the search string starts, and goes on after it |
| PhpStrings.ReplaceUpToFirst | src/LithiumDev/CSFParser/CSFParser.php:175-176 | str_replace() copies the text before the first occurrence, puts the replacement in its place and carries on after it |
| PhpStrings.StrReplaceIsImplodeExplode | src/LithiumDev/CSFParser/CSFParser.php:175-176 | str_replace() equals explode() on the search string followed by implode() with the replacement, for every subject |
| PhpStrings.IntCastOfDigits | src/LithiumDev/CSFParser/CSFParser.php:190 | the (int) cast of a string of digits is the value of the digits |
| PhpStrings.IntCastOfNegative | src/LithiumDev/CSFParser/CSFParser.php:190 | the (int) cast of '-' followed by digits is the negated value |
| PhpStrings.IntCastOfUnsignedPrefix | src/LithiumDev/CSFParser/CSFParser.php:190 | the (int) cast of leading white space, digits and any text that does not go on with a digit is the value of the digits |
| PhpStrings.IntCastOfSignedPrefix | src/LithiumDev/CSFParser/CSFParser.php:190 | the (int) cast of leading white space, a '-' or '+', digits and any text that does not go on with a digit is the value of the digits, negated after '-' |
| PhpStrings.IntCastOfNonNumeric | src/LithiumDev/CSFParser/CSFParser.php:190 | a string whose first character after the leading white space is neither a sign nor a digit is cast to 0 |
| PhpStrings.IntCastOfDecimal | src/LithiumDev/CSFParser/CSFParser.php:190 | the (int) cast inverts decimal rendering, for either sign |
| PhpStrings.DigitsValueOfDecimal | src/LithiumDev/CSFParser/CSFParser.php:190 | reading back the decimal digits of n gives n |
| Patterns.FindTag | src/LithiumDev/CSFParser/CSFParser.php:136 | the scan from position i finds a match exactly when a tag starts at i or later |
| Patterns.TagAtIffGroup | src/LithiumDev/CSFParser/CSFParser.php:136 | the greedy matcher accepts at i exactly when a '(' at i, a ')' further on and only class characters (at least one) between them exist |
| Patterns.GroupIsRun | src/LithiumDev/CSFParser/CSFParser.php:136 | the class characters of a tag group are exactly the greedy run after its '(' |
| Patterns.FindTagIffGroup | src/LithiumDev/CSFParser/CSFParser.php:136 | scanning from the start finds a match exactly when the line holds a tag group |
| Patterns.HasLoginTag | src/LithiumDev/CSFParser/CSFParser.php:136 | preg_match of the daemon-tag pattern holds exactly when the line holds a parenthesised, non-empty run of class characters |
| Patterns.ClassWordMatches | src/LithiumDev/CSFParser/CSFParser.php:136 | any non-empty word over the class characters, parenthesised, is a login-failure tag |
| Patterns.HelloIsALoginTag | src/LithiumDev/CSFParser/CSFParser.php:136 | "(hello)", which names no daemon, is a login-failure tag |
| Patterns.MatchTextAt | src/LithiumDev/CSFParser/CSFParser.php:174-175 | where the pattern's parts appear, the text preg_match reports in $matches[0] is the slice they cover |
| Patterns.RuleMatchAtSound | src/LithiumDev/CSFParser/CSFParser.php:174 | what the matcher reports at p is a well-formed match (2 to 9 digits, at least one ')', white space on both sides) whose parts appear from p on |
| Patterns.RuleMatchAtComplete | src/LithiumDev/CSFParser/CSFParser.php:174 | wherever a well-formed match's parts appear, the matcher reports exactly that match: greedy digits and closers lose nothing to backtracking |
| Patterns.FirstRuleMatch | src/LithiumDev/CSFParser/CSFParser.php:174 | preg_match reports the leftmost position with a match, with that match, and reports none only when no position matches |
| Patterns.RuleMatchText | src/LithiumDev/CSFParser/CSFParser.php:174-175 | $matches[0] is null without a match, and otherwise the text spelled by the leftmost match's parts |
| CSFParser.NewParser | src/LithiumDev/CSFParser/CSFParser.php:53-62 | the constructor fails exactly for "" and "0", and otherwise keeps the body and the lookup flag with the New York time zone |
| CSFParser.SetTimeZone | src/LithiumDev/CSFParser/CSFParser.php:70-75 | setTimeZone() changes the zone and nothing else |
| CSFParser.TrimBoth | src/LithiumDev/CSFParser/CSFParser.php:98 | the source's trim(rtrim(x)) is trim(x) |
| CSFParser.CleanWith | src/LithiumDev/CSFParser/CSFParser.php:94-111 | the sanitising loop keeps no more lines than it gets, and every line it keeps passes the filter |
| CSFParser.CleanWithEstablishes | src/LithiumDev/CSFParser/CSFParser.php:96-110 | what the clean-up guarantees of every input line holds of every output line |
| CSFParser.CleanLines | src/LithiumDev/CSFParser/CSFParser.php:96-111 | every sanitised line is non-empty, is not "0", does not start with '#', and has no white space at either end |
| CSFParser.At | src/LithiumDev/CSFParser/CSFParser.php:178 | an index past the pieces reads as "" (PHP's undefined index gives null), and any other index gives that piece |
| CSFParser.TrimPieces | src/LithiumDev/CSFParser/CSFParser.php:211-214 | splitString trims every piece and keeps their number |
| CSFParser.SplitString | src/LithiumDev/CSFParser/CSFParser.php:202-217 | splitString fails (naming delimiter and subject) exactly when the delimiter is absent; otherwise it gives at least two pieces, each the trim of the matching explode() piece |
| CSFParser.StartPosition | src/LithiumDev/CSFParser/CSFParser.php:262 | the start position is just past the first start tag, or the tag's length when the tag is absent, never false |
| CSFParser.FindTextBetween | src/LithiumDev/CSFParser/CSFParser.php:260-275 | findTextBetween is null exactly when no end tag occurs at or after the start position; otherwise it is the trimmed text from the start position to the first such end tag |
| CSFParser.CountField | src/LithiumDev/CSFParser/CSFParser.php:180-182 | the count is the (int) cast of the trimmed segment's text before the first " in the", and 0 when the marker is absent |
| CSFParser.WordsHaveNoParens | src/LithiumDev/CSFParser/CSFParser.php:174 | the words, digits and white space of a match carry no parenthesis |
| CSFParser.FirstReplace | src/LithiumDev/CSFParser/CSFParser.php:175 | the first str_replace() turns the single "(id:" of a match into "rule id:" and changes nothing else |
| CSFParser.SecondReplace | src/LithiumDev/CSFParser/CSFParser.php:176 | the second str_replace() deletes the run of ')' and keeps the parenthesis-free text around it |
| CSFParser.ReasonOfMatch | src/LithiumDev/CSFParser/CSFParser.php:175-176 | a match's reason is "mod_security", its white space, "rule id:", its digits, its white space and "triggered" |
| CSFParser.ModSecReasonShape | src/LithiumDev/CSFParser/CSFParser.php:174-176 | the ModSecurity reason is "" without a match and the rewritten match otherwise; it never contains ')' or '(' and so never "(id:" |
| CSFParser.LookupHost | src/LithiumDev/CSFParser/CSFParser.php:171 | the host is null when the lookup is off or returns the address itself, and otherwise the looked-up name |
| CSFParser.ParseDate | src/LithiumDev/CSFParser/CSFParser.php:184 | date parsing fails (naming the fragment) exactly when the date parser rejects the fragment, and otherwise gives the parser's result |
| CSFParser.IpOfSplit | src/LithiumDev/CSFParser/CSFParser.php:169-170 | the first '#' piece of a line is the trimmed text before its first '#' |
| CSFParser.ParseModSecurity | src/LithiumDev/CSFParser/CSFParser.php:167-193 | a ModSecurity record's ip is the trimmed text before the first '#', its host is the lookup of that ip, and its reason is present and free of parentheses; it fails only on a missing delimiter or a bad date |
| CSFParser.ParseLoginFailure | src/LithiumDev/CSFParser/CSFParser.php:225-251 | a login-failure record's ip is the trimmed text before the first '#' and its host is the lookup of that ip; it fails only on a missing delimiter or a bad date |
| CSFParser.ParseManualEntry | src/LithiumDev/CSFParser/CSFParser.php:303-322 | a manual record's count is 1, its ip is the trimmed text before the first '#', and its host is looked up only for a valid IPv4 address with the lookup on |
| CSFParser.Classify | src/LithiumDev/CSFParser/CSFParser.php:132-143 | a line containing "mod_security" is ModSecurity whatever else it holds; otherwise a line with a tag group is a login failure; otherwise it is manual exactly when it contains "Manually denied" or lacks "lfd" |
| CSFParser.ParseLine | src/LithiumDev/CSFParser/CSFParser.php:130-144 | a recognised line gets exactly the record or the error of the extractor its kind selects, and an unrecognised line gives no record; a record's ip is the trimmed text before the line's first '#', and its host is null with the lookup off |
| CSFParser.ProcessWith | src/LithiumDev/CSFParser/CSFParser.php:130-144 | the loop succeeds exactly when every line does, gives at most one record per line, and on failure reports the error of the first failing line, all earlier lines having gone through |
| CSFParser.ProcessAll | src/LithiumDev/CSFParser/CSFParser.php:129-148 | processing succeeds exactly when every line parses, gives no more records than lines, and fails only with a delimiter or date error |
| CSFParser.ProcessLines | src/LithiumDev/CSFParser/CSFParser.php:124-127 | processLines fails with "empty string received" exactly when the cleaned body is empty() |
| CSFProperties.CleanWithAppend | src/LithiumDev/CSFParser/CSFParser.php:96-111 | the sanitising loop on two runs of lines is the two outputs concatenated |
| CSFProperties.CleanLinesIsFilter | src/LithiumDev/CSFParser/CSFParser.php:94-113 | the sanitiser is a line filter: it distributes over concatenation, and a single line becomes its trim() when that passes the filters and nothing otherwise; so the output is exactly the trimmed kept lines in order |
| CSFProperties.CleanWithOfClean | src/LithiumDev/CSFParser/CSFParser.php:96-111 | lines the clean-up leaves alone and the filter keeps come through the loop unchanged |
| CSFProperties.CleanLinesOfClean | src/LithiumDev/CSFParser/CSFParser.php:96-111 | already clean lines come through the sanitiser unchanged |
| CSFProperties.CleanLinesIdempotent | src/LithiumDev/CSFParser/CSFParser.php:96-111 | cleaning the lines twice is cleaning them once |
| CSFProperties.TrimLacks | src/LithiumDev/CSFParser/CSFParser.php:98 | trim() introduces no character |
| CSFProperties.NotContainsLacks | src/LithiumDev/CSFParser/CSFParser.php:94 | a text in which the one-character pattern does not occur lacks that character |
| CSFProperties.KeptLines | src/LithiumDev/CSFParser/CSFParser.php:94-111 | the kept lines of a body are kept by the filter, trimmed and free of newlines |
| CSFProperties.SanitizedLines | src/LithiumDev/CSFParser/CSFParser.php:113-129 | splitting the sanitised body on newlines gives back exactly the kept lines, and the body is empty() exactly when no line was kept |
| CSFProperties.SanitizeIdempotent | src/LithiumDev/CSFParser/CSFParser.php:92-114 | sanitising an already sanitised body changes nothing |
| CSFProperties.ParseSeesKeptLines | src/LithiumDev/CSFParser/CSFParser.php:80-87 | parse() fails with "empty string received" exactly when no line survives sanitising, and otherwise processes exactly the kept lines |
| CSFProperties.CommentsOnlyFails | src/LithiumDev/CSFParser/CSFParser.php:124-127 | a body of nothing but blank lines and '#' comments fails to parse |
| CSFProperties.NoneKept | src/LithiumDev/CSFParser/CSFParser.php:100-108 | lines the filter rejects after clean-up leave nothing |
| CSFProperties.Filter | src/LithiumDev/CSFParser/CSFParser.php:130-144 | the selected lines are no more than the lines, each satisfies the selection and is one of the lines |
| CSFProperties.RecordsFollowKept | src/LithiumDev/CSFParser/CSFParser.php:130-146 | when every step succeeds and yields a record exactly for the selected lines, the loop gives one record per selected line, in order, each the one its line's step gave |
| CSFProperties.RecordsFollowLines | src/LithiumDev/CSFParser/CSFParser.php:130-146 | on success there is one record per recognised line, in input order, each the one its extractor returns |
| CSFProperties.RecordsOfParse | src/LithiumDev/CSFParser/CSFParser.php:170-171 | every record of a successful parse() has as ip the trimmed text before the first '#' of a kept line, and a null host when the lookup is off |
| CSFProperties.IpOfKeptLine | src/LithiumDev/CSFParser/CSFParser.php:305-306 | the ip taken from a kept line is non-empty and starts with the line's first character |
| CSFProperties.MarkerAfterDigits | src/LithiumDev/CSFParser/CSFParser.php:181 | after a run of digits, the first " in the" is the one right behind them |
| CSFProperties.CountSegmentTrimmed | src/LithiumDev/CSFParser/CSFParser.php:180 | a count segment that starts with a digit and does not end in white space is unchanged by trim() |
| CSFProperties.CountOfDecimal | src/LithiumDev/CSFParser/CSFParser.php:180-190 | a count written in decimal before " in the" is read back as that number |
| CSFProperties.ModSecurityRecord | src/LithiumDev/CSFParser/CSFParser.php:167-193 | parseModSecurity() fails with the error of the first split that finds no delimiter or of a rejected date, and otherwise its record is the ip before '#', its lookup, the rewritten rule of the second ": " piece, the count of the first " - " piece of the third and the parsed date after it |
| CSFProperties.LoginFailureRecord | src/LithiumDev/CSFParser/CSFParser.php:225-251 | parseLoginFailure() fails exactly as parseModSecurity() does, and otherwise its reason is findTextBetween(second ": " piece, ")", " from"), with count and date from the third piece |
| CSFProperties.ManualEntryRecord | src/LithiumDev/CSFParser/CSFParser.php:303-322 | parseManualEntry() fails on a missing '#', a missing " - " or a rejected date, and otherwise its record is the ip, its lookup for a valid IPv4 address, the text before " - " unless it says "Manually denied:", count 1 and the date after " - " |
| CSFProperties.RecordCount | src/LithiumDev/CSFParser/CSFParser.php:178-190 | when the third ": " piece starts with a decimal N followed by " in the", a ModSecurity or login-failure record has count N |
| CSFProperties.ManualReason | src/LithiumDev/CSFParser/CSFParser.php:310-311 | a manual reason is null exactly when the text before " - " contains "Manually denied:", and is that text otherwise |
| CSFProperties.MissingThirdField | src/LithiumDev/CSFParser/CSFParser.php:173-178 | with only two ": " pieces, the ModSecurity and login-failure extractors fail: the undefined third piece reads as "", which has no " - " |
| CSFProperties.MissingStartTagSkipsFirst | src/LithiumDev/CSFParser/CSFParser.php:262-270 | with no ')' in the text, findTextBetween starts at byte 1, so the first byte is dropped (half of a multi-byte UTF-8 character, if it starts one): the check against false is dead |

Some members carry no contract of their own; the lemmas named here pin
them down:

- `CSFParser.SanitizeLogData` (lines 92-114): `CSFProperties.SanitizedLines`, `CSFProperties.SanitizeIdempotent`, `CSFProperties.CleanLinesIsFilter`.
- `CSFParser.Parse` (lines 80-87): `CSFProperties.ParseSeesKeptLines`, `CSFProperties.RecordsOfParse`.
- `CSFParser.KeepLine` (lines 100-108): `CSFProperties.CleanLinesIsFilter`.
- `CSFParser.IsModSecurity` and `CSFParser.IsManualEntry` (lines 156-159, 282-295): `CSFParser.Classify`.
- `CSFParser.ModSecReason` (lines 174-176): `CSFParser.ModSecReasonShape`.
- `Patterns.RuleMatchAt` (line 174): `Patterns.RuleMatchAtSound`, `Patterns.RuleMatchAtComplete`.
- `PhpStrings.StrReplace` (lines 175-176): `PhpStrings.StrReplaceIsImplodeExplode`.
- `PhpStrings.Implode` (line 113): `PhpStrings.ImplodeExplode`, `PhpStrings.ExplodeImplode`.
- `PhpStrings.IntCast` (line 190): `PhpStrings.IntCastOfUnsignedPrefix`, `PhpStrings.IntCastOfSignedPrefix`, `PhpStrings.IntCastOfNonNumeric`, `PhpStrings.IntCastOfDecimal`.
- `PhpStrings.IsPhpEmpty` (lines 100, 124): `CSFParser.NewParser`, `CSFParser.ProcessLines`.

## Left out

- Date parsing (Carbon::parse, toDateTimeString): timezone-aware free-form parsing belongs to an external library. It is the `parseDate` field of `Environment`, with `None` where Carbon throws.
- Reverse DNS (gethostbyaddr) and ip2long: these are I/O and PHP builtins. They are the `reverseLookup` and `isIpv4` fields of `Environment`. The case where gethostbyaddr returns false for a malformed address is not modelled.
- CSFParser.LookupHost: compares host and ip as strings. PHP's loose `!=` also treats two numeric strings with the same value as equal; that case is not modelled.
- The non-string check of the constructor (line 48): Dafny's types already make the body a string.
- PHP notices: reading the undefined `$matches[0]` (line 175) or `$split2[2]` (lines 178 and 236) raises a notice and yields null. The model follows PHP's default handling, where null then reads as "". Under an error handler that turns notices into exceptions, such a line would abort parse() instead; that is not modelled.
- Exception messages: each error carries its cause and the data its message would name. The text itself is not modelled.
- CSFParser.SplitString: its contract describes failure only for delimiters other than "0", because the body's loose test also rejects a match at the end when the delimiter is "0". The body models that test as written, and every call site passes "#", ": " or " - ".
- PhpStrings.IntCast: reads white space, an optional sign and a run of digits. Exponent and decimal forms, and overflow past PHP_INT_MAX, are not modelled.
- PhpStrings.FindFrom: an offset past the end gives false, as in PHP 7. PHP 8 throws a ValueError instead. The parser reaches this only when findTextBetween starts past the end of its text.
- The general regular-expression engine: only the two fixed patterns are modelled, each by a hand-written matcher.
- getParsedData and the object's mutable fields: parse() returns the records instead of storing them.
