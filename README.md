# goproxy4blockchain SQL text utilities, modelled in Dafny

goproxy4blockchain is a MySQL proxy. The proxy inspects every statement
it forwards, and this project models the code that does the inspecting:

- **Fingerprinting** (`utils/fingerprint.go`). `FingerPrint.GenerateFinger`
  reduces a statement to a fingerprint:
  - string literals become `'s'` and numbers become `1`;
  - `IN` lists become `IN(1)` / `IN('s')` or their first group, and `VALUES`
    lists become their first group;
  - comments are dropped, blanks collapse to one space, and MySQL hint markers
    are removed in a second pass.

  `getSQLCom` then tags the upper-cased fingerprint with the first matching
  entry of `sqlKeyWordList`. The scanners it relies on are modelled too:
  `toQuoteEnd`, `toHexEnd`, `toNumberEnd`, `toArgListEnd`, `toValueListEnd`,
  `toValueEnd` and `toCommentEnd`. So are the two text cleaners
  `removeQuote` and `removeSpace`.
- **Statement helpers** (`utils/string.go`):
  - newline removal and MySQL string escaping;
  - the leading comment, the next word, and the database of a `USE`;
  - bracketed prefixes;
  - the split of a multi-statement query;
  - the charset of `SET NAMES`;
  - master/slave routing and the audit filter;
  - the number helpers `ParseFirstInt`, `ParseComputeInt`, `ParseSeconds`,
    `ToPositive`, `IntReverse`, `IntToIP` and `GetDate`.
- **Process-list rows** (`utils/host.go`, `getConnAddr`): a tab-separated row
  gives a thread id, a user and a client host.
- **Caches** (`utils/cache.go`): `GenericCache` and the expiring
  `DummyCache`, as classes whose methods update their fields.

Go strings are byte strings, so text is `seq<Byte>`, where `Byte` is a
`char` below 256. Go's `int64` and `uint` wrap-around is written out
(`Decimal.Int64`, `Decimal.UInt64`, with `uint` taken as 64 bits).

Each loop of the source becomes a `method` with the loop. That method is
proved equal to a specification function, and lemmas state what the function
promises. A Go index past the end of a string (a run-time panic) is an
explicit failure (`None` or `ok == false`).

Modules, one per file, in dependency order:

- `ByteText`: string primitives.
- `Decimal`: digits and wrap-around.
- `TextEdit`.
- `QuoteScan`.
- `NumberScan`.
- `ListScan`.
- `SqlCom`.
- `Fingerprint`.
- `TextClean`.
- `Statement`.
- `NumberParse`.
- `SqlFilter`.
- `AuditFilter`.
- `Host`.
- `Cache`.

## Model

| member | source | states |
|---|---|---|
| ByteText.Upper | utils/string.go:342 | strings.ToUpper on ASCII: same length, each byte upper-cased on its own |
| ByteText.UpperAppend | utils/fingerprint.go:185 | upper-casing a concatenation upper-cases each part on its own |
| ByteText.EnglishLetterIsAsciiLetter | utils/fingerprint.go:595-597 | isEnglisthLetter holds exactly for the ASCII letters of the Latin-1 letter class, and exactly when the upper-cased byte is A-Z |
| ByteText.SkipSpaces | utils/fingerprint.go:326-328 | the space-skipping loop stops at SpaceEnd: the end of the maximal run of ' ' |
| ByteText.IndexByteIsFirst | utils/host.go:368 | strings.IndexByte gives the first occurrence; -1 means the byte is absent |
| ByteText.Index | utils/string.go:343 | strings.Index gives the leftmost occurrence, and -1 exactly when there is none |
| ByteText.SearchInOrder | utils/fingerprint.go:611-620 | the in-order keyword search ends at -1 or at a position between its start and the end of the text |
| ByteText.PlacedThenFound | utils/fingerprint.go:611-620 | whenever the keywords can be placed in order without overlap, the greedy search succeeds |
| ByteText.FoundThenPlaced | utils/fingerprint.go:611-620 | a successful greedy search gives such a placement |
| ByteText.SearchInOrderComplete | utils/fingerprint.go:611-620 | the greedy in-order keyword search succeeds exactly when the keywords can be placed in order without overlap |
| Decimal.Int64Horner | utils/string.go:173-176 | wrapping an int64 after each step of a decimal accumulation equals wrapping once at the end |
| Decimal.UInt64Horner | utils/string.go:455-456 | the same for uint arithmetic |
| Decimal.EighteenDigitsFit | utils/string.go:205-208 | eighteen digits always fit in an int64 |
| Decimal.FormatDecimal | utils/string.go:448-450 | "%d" of a natural number is a non-empty run of decimal digits |
| Decimal.FormatRoundTrip | utils/string.go:448-450 | "%d" output read back as digits gives the number |
| Decimal.FormatNoLeadingZero | utils/string.go:448-450 | "%d" writes no leading zero |
| TextEdit.RemoveNewLine | utils/string.go:58-79 | the buffer loop returns the input without its '\n' bytes |
| TextEdit.NoNewLineLeft | utils/string.go:58-79 | no newline is left |
| TextEdit.OnlyNewLinesDropped | utils/string.go:58-79 | every other byte keeps its count, and the length drops by the number of newlines |
| TextEdit.RemoveNewLineIdempotent | utils/string.go:58-79 | removing newlines twice is removing them once |
| TextEdit.EscapeString | utils/string.go:81-123 | the buffer loop returns the escaping of the input |
| TextEdit.CodesAreInverse | utils/string.go:86-117 | each escape code decodes back to its byte, and the backslash is always escaped |
| TextEdit.EscapeLength | utils/string.go:83 | the output is between one and two times the input length, so the 2n buffer suffices |
| TextEdit.EscapeRoundTrip | utils/string.go:81-123 | unescaping the output gives the input back |
| TextEdit.EscapedAt | utils/string.go:86-117 | each escaped input byte appears as a backslash and its code at the matching output position |
| TextEdit.NoControlBytesLeft | utils/string.go:81-123 | no NUL, newline, carriage return or Ctrl-Z is left in the output |
| QuoteScan.BitTestsAreComparisons | utils/fingerprint.go:228-229 | the masks b&0xE0==0xE0 and b&0x80==0x80 are the comparisons b>=0xE0 and b>=0x80 |
| QuoteScan.QuoteEnd | utils/fingerprint.go:206-247 | 1 for a short text or one without an opening quote; otherwise a length in [2, len] that ends at the opening delimiter unless unterminated |
| QuoteScan.ToQuoteEnd | utils/fingerprint.go:206-247 | the cursor loop with the charset flags computes QuoteEnd |
| QuoteScan.Latin1QuoteEnd | utils/fingerprint.go:226-246 | under LATIN1 the literal ends one past the first unescaped opening delimiter, or at the end |
| QuoteScan.AsciiQuoteEndIgnoresCharset | utils/fingerprint.go:226-246 | on ASCII text every charset gives the LATIN1 result |
| QuoteScan.OtherAfterUtf8IsUtf8 | utils/fingerprint.go:227-232 | an unknown charset that has seen a UTF-8 triple scans as UTF8 from then on |
| QuoteScan.OtherWithoutUtf8IsGbk | utils/fingerprint.go:233-240 | an unknown charset scans as GBK until it sees a UTF-8 triple |
| QuoteScan.GbkPairIsOneCharacter | utils/fingerprint.go:233-240 | under GBK a lead byte and a trail byte are consumed together |
| QuoteScan.Utf8LeadSwallowsTwo | utils/fingerprint.go:227-232 | under UTF8 a lead byte swallows the next two bytes |
| QuoteScan.GbkTrailBackslashDoesNotEscape | utils/fingerprint.go:233-240 | a backslash that is a GBK trail byte escapes nothing |
| QuoteScan.GbkTrailBacktickDoesNotClose | utils/fingerprint.go:233-241 | a backtick that is a GBK trail byte does not close a backtick literal |
| QuoteScan.Utf8SequenceHidesQuote | utils/fingerprint.go:227-232 | a quote inside a UTF-8 triple does not close the literal |
| NumberScan.HexRun | utils/fingerprint.go:249-268 | the longest prefix of hex digits |
| NumberScan.ToHexEnd | utils/fingerprint.go:249-268 | toHexEnd's loop computes HexRun |
| NumberScan.NumberEnd | utils/fingerprint.go:276-315 | 0 for empty text, else in [1, len]; a 0x prefix gives 2 plus the hex run |
| NumberScan.ToNumberEnd | utils/fingerprint.go:276-315 | the state-machine loop computes NumberEnd, the definition by literal shape |
| NumberScan.DecimalShape | utils/fingerprint.go:285-313 | after its first byte a decimal literal holds only digits, '.', e/E and '-', at most one '.', and an exponent marker only after the '.' |
| NumberScan.OneDigitNumber | utils/fingerprint.go:285-294 | a digit followed by a byte that cannot continue a number is one byte long |
| NumberScan.DigitsNumber | utils/fingerprint.go:285-294 | a run of digits that no digit, '.', x or X continues is a number of exactly that run |
| ListScan.CommentEnd | utils/fingerprint.go:496-508 | a text of at most 4 bytes is all comment; otherwise the comment ends right after the first star-slash found from index 1, or at the end |
| ListScan.ToCommentEnd | utils/fingerprint.go:496-508 | toCommentEnd's loop computes CommentEnd |
| ListScan.SlashStarSlashIsAComment | utils/fingerprint.go:502-505 | the opening star can also close the comment: "/*/" is a complete comment |
| ListScan.ValueEnd | utils/fingerprint.go:469-491 | after the spaces, a non-'(' ends the value there; a '(' runs to just past a ')', or to the end; which ')' it is, the first one outside literals, is stated by CloseParenIs and ValueEndOfGroup |
| ListScan.CloseParenIs | utils/fingerprint.go:479-485 | over bytes that are neither ')' nor a string delimiter, the search stops at the first ')' or at the end |
| ListShapes.CloseParenElems | utils/fingerprint.go:479-485 | the search for ')' walks over whole elements: a literal's body, whatever ')' it holds, is skipped |
| ListShapes.ValueEndOfGroup | utils/fingerprint.go:469-491 | after leading spaces a parenthesised group of elements ends exactly after the ')' that closes it |
| ListScan.ToValueEnd | utils/fingerprint.go:469-491 | toValueEnd's loops compute ValueEnd |
| ListScan.ArgListEnd | utils/fingerprint.go:320-373 | a GenericNone result covers only spaces and '('; any other kind covers a '(' |
| ListScan.ToArgListEnd | utils/fingerprint.go:320-373 | toArgListEnd's loops compute ArgListEnd |
| ListScan.ToArgTail | utils/fingerprint.go:355-367 | the continuation loop of toArgListEnd computes ArgTail |
| ListScan.ToListAfterParen | utils/fingerprint.go:330-372 | the part of toArgListEnd after the opening parenthesis computes ListAfterParen |
| ListScan.ArgListKind | utils/fingerprint.go:343-351 | the list kind is GenericInt exactly when the first element starts with a digit, and GenericString exactly when it starts with a quote |
| ListScan.IntegerArgList | utils/fingerprint.go:320-373 | " (1, 2) X" spans eight bytes as an integer list |
| ListScan.NumberPlaceholder | utils/fingerprint.go:84-91 | a number becomes "1", "1." or "."; it ends in '.' exactly when the number does, and starts with '1' unless it is a lone trailing dot |
| ListScan.FirstGroup | utils/fingerprint.go:381-421 | the first group ends at a ')' or the end and its copy holds only Normal bytes; what the copy is, is stated by FirstGroupOfElems |
| ListScan.FirstGroupCompact | utils/fingerprint.go:381-421 | the first group's copy holds no blank and only Normal bytes |
| ListShapes.ElemItem | utils/fingerprint.go:384-411 | one element of the first group: a literal gives 's', a digit run 1, a non-blank byte itself, and the bracket count stays 0 |
| ListShapes.FirstGroupElems | utils/fingerprint.go:381-421 | elements followed by ')' are copied element by element, and the scan resumes after the ')' |
| ListShapes.ChainCopy | utils/fingerprint.go:381-421 | the chained per-element results of the first-group loop add up to the elements' copies and the ')' |
| ListShapes.FirstGroupOfElems | utils/fingerprint.go:381-421 | a group of elements is copied with blanks dropped, each literal as 's' and each number as 1, and the scan resumes after its ')' |
| ListScan.SkipRepeats | utils/fingerprint.go:423-461 | skipping repeated groups moves only over separators first, stops only at the end or at a byte that is not a separator, and fails only when the text ends in a separator (the unchecked sql[k] at line 432) |
| ListShapes.SkipRepeatsOfGroups | utils/fingerprint.go:423-461 | every following run of separators and groups is skipped, up to the first byte that is not a separator |
| ListScan.SkipRepeatedGroups | utils/fingerprint.go:423-461 | the repeat loop of toValueListEnd succeeds exactly when SkipRepeats does, and stops where it does |
| ListScan.ValueListEnd | utils/fingerprint.go:375-464 | the output is Normal, has no tab, and its only space is a final one that stands for the skipped groups; its content is stated by ValueListAt |
| ListScan.ValueListEndNormal | utils/fingerprint.go:375-464 | the output is Normal and tab-free, and its only space is the final one |
| ListShapes.ValueListParts | utils/fingerprint.go:375-464 | the result is the first group's copy, plus one space exactly when the cursor moved past it, resuming where the skip stops |
| ListShapes.ValueListAt | utils/fingerprint.go:375-464 | on a list of groups the output is the first group's copy plus " " exactly when later groups were skipped, and the pass resumes after the last group |
| ListScan.ToValueListEnd | utils/fingerprint.go:375-464 | toValueListEnd's loops compute ValueListEnd and append to result |
| ListScan.FirstGroupIgnoresNesting | utils/fingerprint.go:384-419 | the bracket count restarts at every element, so "(1,(2),3)" gives the first group "(1,(1)" |
| ListScan.RepeatedGroupsCollapse | utils/fingerprint.go:423-461 | "(1),(2) x" gives "(1) " and resumes at x |
| ListScan.TrailingBlankFails | utils/fingerprint.go:425-432 | a list followed only by a blank makes the scan read past the end |
| SqlCom.KeyWordList | utils/fingerprint.go:26-56 | sqlKeyWordList holds its 23 entries, in the order they are tried |
| SqlCom.GetSqlCom | utils/fingerprint.go:602-628 | getSQLCom computes Classify |
| SqlCom.FirstMatchIn | utils/fingerprint.go:604-627 | the loop over the table gives the tag of the first matching entry |
| SqlCom.FirstMatchIsFirst | utils/fingerprint.go:602-628 | the result is SQLCOM_OTHER exactly when no entry matches, and otherwise the tag of the first entry that does |
| SqlCom.TagsAreNotOther | utils/fingerprint.go:26-56 | no table entry is tagged SQLCOM_OTHER |
| SqlCom.ClassifyIsFirstMatch | utils/fingerprint.go:602-628 | the first matching entry of sqlKeyWordList gives the tag |
| SqlCom.ClassifyOther | utils/fingerprint.go:627 | SQLCOM_OTHER exactly when no entry matches |
| SqlCom.MatchesInOrder | utils/fingerprint.go:610-624 | a multi-keyword entry matches exactly when its keywords can be placed in order without overlap |
| SqlCom.ShowProcessList | utils/fingerprint.go:26-56 | "SHOW PROCESSLIST" is tagged SQLCOM_SHOW_PROCESSLIST: the two-keyword entry outranks the SHOW prefix |
| SqlCom.ShowStatusWithoutEarlierKeys | utils/fingerprint.go:602-628 | a text matching the SHOW..STAT entry and lacking P, V, M and B is tagged SQLCOM_SHOW_STATUS |
| SqlCom.SelectTaggedAsShowStatus | utils/fingerprint.go:610-624 | keywords are found anywhere, so "SELECT SHOWN, STATE" is tagged SQLCOM_SHOW_STATUS |
| SqlCom.SelectTagged | utils/fingerprint.go:602-628 | a text that starts with SELECT and holds neither SHOW nor INSERT is tagged SQLCOM_SELECT |
| SqlCom.InsertTagged | utils/fingerprint.go:602-628 | a text that starts with INSERT and holds neither SHOW nor SELECT is tagged SQLCOM_INSERT |
| SqlCom.KeyNowhereNoMatch | utils/fingerprint.go:610-624 | an entry one of whose keywords does not occur in the text does not match |
| Fingerprint.TrimTo | utils/fingerprint.go:71-73 | trailing white space is dropped and nothing else |
| Fingerprint.MainStepIsGood | utils/fingerprint.go:76-145 | every case of the main loop appends Normal, single-spaced bytes; only a copied "/*!" sets the hint flag |
| Fingerprint.MainFrom | utils/fingerprint.go:75-146 | the main loop keeps what was written, keeps it Normal and single-spaced, and fails only on a text ending in a list separator |
| Fingerprint.HintFrom | utils/fingerprint.go:148-183 | the hint pass keeps the output prefix, never grows the text, and keeps it Normal and single-spaced |
| Fingerprint.Finger | utils/fingerprint.go:64-186 | a fingerprint holds no double quote, no tab, no digit other than 1 and no two adjacent spaces; it is missing only when the text ends in a list separator |
| Fingerprint.MainPass | utils/fingerprint.go:66-146 | the first loop of GenerateFinger, one case per call, computes MainFrom on the trimmed statement |
| Fingerprint.MainStepIn | utils/fingerprint.go:76-145 | each case appends exactly MainStep's piece and resumes at its position |
| Fingerprint.RemoveHints | utils/fingerprint.go:148-183 | the hint loop computes HintPass |
| Fingerprint.FingerPrint.GenerateFinger | utils/fingerprint.go:64-186 | sets Finger to the fingerprint and Sqltype to getSQLCom of its upper-cased text; the object is unchanged where the source would panic |
| Fingerprint.PlainStatementUnchanged | utils/fingerprint.go:135-145 | a statement with no literal, tab, comment, IN or VALUES, no leading space and no double space is its own fingerprint once trimmed |
| Fingerprint.CopiedRun | utils/fingerprint.go:135-145 | a run of bytes that start nothing, with no double space, is copied as it is |
| Fingerprint.LiteralSkipped | utils/fingerprint.go:77-79 | a simple string literal becomes 's' and the pass resumes after its closing quote |
| Fingerprint.DigitsSkipped | utils/fingerprint.go:80-91 | a digit run that nothing continues becomes 1 and the pass resumes after it |
| Fingerprint.ValuesSkipped | utils/fingerprint.go:114-119 | " VALUES" and a list of groups become VALUES, the first group's copy and one space when more groups follow |
| Fingerprint.LiteralErased | utils/fingerprint.go:64-146 | a statement of plain text around a simple string literal has the texts and 's' as its fingerprint, whatever the literal holds |
| Fingerprint.NumberThenLiteralErased | utils/fingerprint.go:64-146 | plain text, a digit run, plain text and a simple literal give the texts, 1 and 's' |
| Fingerprint.ValuesListErased | utils/fingerprint.go:64-146 | a statement ending in VALUES and a list of groups keeps only the first group (literals 's', numbers 1) and one space when rows follow, whatever the other rows hold |
| Fingerprint.StepErased | utils/fingerprint.go:75-146 | one case of the main loop between two runs of plain text: the fingerprint is the first text, what that case writes, and the second text |
| Fingerprint.CommentErased | utils/fingerprint.go:122-130 | a comment that is no hint, between plain text, disappears from the fingerprint together with everything it holds |
| Fingerprint.InListErased | utils/fingerprint.go:93-104 | IN and a list whose first element is a number or a string literal become IN(1) or IN('s') and one space, whatever the list holds and however long it is; the text after the list is copied |
| Fingerprint.InGroupListErased | utils/fingerprint.go:93-108 | IN and a list of groups whose first element is no literal become IN, the first group's copy and one space when more groups follow; the text after the list is copied |
| Fingerprint.HintFreeUnchanged | utils/fingerprint.go:148-183 | the hint pass leaves a single-spaced text with no hint opener as it is |
| Fingerprint.HintRemoved | utils/fingerprint.go:155-172 | the hint pass removes a hint's opener, its version digit and its closer, writes one space where the opener stood unless the output is empty or ends in a space, and keeps the text before, the hint's body and the text after |
| Fingerprint.SelectLiteralsErased | utils/fingerprint.go:64-186 | "select * from t where id=123 and name='bob'" gives "select * from t where id=1 and name='s'", tagged SQLCOM_SELECT |
| Fingerprint.InsertRowsShareFinger | utils/fingerprint.go:64-186 | inserts of two and three rows of numbers share the fingerprint "INSERT INTO t VALUES(1,1) ", tagged SQLCOM_INSERT |
| Fingerprint.HintMarkersRemoved | utils/fingerprint.go:155-172 | "/*!1 X */ Y" loses its markers and version digit: " X Y" |
| Fingerprint.TrailingBlankAfterValues | utils/fingerprint.go:112-117 | "a VALUES (1) " has no fingerprint: toValueListEnd reads past the end |
| Fingerprint.BlankBeforeInMatters | utils/fingerprint.go:94-113 | IN is recognised only after a space: "a IN (1)" gives "a IN(1) " but "a \tIN (1)" gives "a IN (1)" |
| Fingerprint.FingerNotIdempotent | utils/fingerprint.go:94-113 | "a IN (b),(c)" gives "a IN(b) ", and that text has no fingerprint of its own: the list scan reads past its end |
| TextClean.RemoveQuote | utils/fingerprint.go:546-587 | the loop with the sq/bq flags computes RemoveQuoteSpec |
| TextClean.QuoteFreeUnchanged | utils/fingerprint.go:577-579 | a statement without quotes is returned unchanged |
| TextClean.ClosedLiteralBecomesS | utils/fingerprint.go:559-576 | a closed literal whose body has no quote and no backslash becomes 's' |
| TextClean.NoDoubleQuoteLeft | utils/fingerprint.go:559-576 | no double quote survives |
| TextClean.EscapedQuoteStaysInside | utils/fingerprint.go:580-582 | a backslash-escaped quote does not close the literal |
| TextClean.RemoveSpace | utils/fingerprint.go:513-541 | the loop computes RemoveSpaceSpec |
| TextClean.RemoveSpaceKeepsSolid | utils/fingerprint.go:513-541 | the non-space bytes survive unchanged and in order |
| TextClean.RemoveSpaceSingleSpaced | utils/fingerprint.go:523-538 | no two adjacent white-space bytes remain, and every white-space byte after the first is ' ' |
| Statement.ToCommentEnd | utils/string.go:132-148 | the loop computes LeadingCommentEnd |
| Statement.CommentSkipped | utils/string.go:132-148 | 0 exactly when the query does not open with slash-star (or is under four bytes); otherwise the end of the first pair whose slash is at index 4 or later, or the end |
| Statement.EmptyCommentRunsToTheEnd | utils/string.go:139-145 | the empty comment at the start is not seen as closed |
| Statement.NextWord | utils/string.go:149-166 | the loop computes FirstWord |
| Statement.FirstWordShape | utils/string.go:149-166 | the word is empty exactly when the text is all white space, and is a word otherwise |
| Statement.FirstWordOf | utils/string.go:149-166 | white space, a word, then a non-word byte: that word comes back |
| Statement.ParseUsedDB | utils/string.go:247-261 | the loop computes UsedDB |
| Statement.UseNamesDatabase | utils/string.go:247-261 | blanks, USE in any case, a space and a word of two or more bytes (with what follows): the database is that word |
| Statement.ToBracketEnd | utils/string.go:300-314 | the loop computes BracketEnd |
| Statement.BracketedPrefix | utils/string.go:300-314 | blanks and "[w]" end right after the ']' |
| Statement.NoBracketSkipsBlanks | utils/string.go:300-314 | without a '[' only the blanks are skipped |
| Statement.CutFrom | utils/string.go:276-298 | either the whole text, or the prefix up to a ';' and the index after it |
| Statement.GetFirstSQL | utils/string.go:276-298 | the loop computes FirstStatement |
| Statement.PlainStatementCut | utils/string.go:276-298 | a statement of plain bytes followed by ';' is cut right there |
| Statement.PlainStatementWhole | utils/string.go:276-298 | a statement of plain bytes without a ';' is the whole text |
| Statement.QuotedSemicolonKept | utils/string.go:283-290 | a ';' inside a quoted literal does not end the statement |
| Statement.PartsCut | utils/string.go:276-298 | over plain bytes, escaped pairs and closed simple literals the cut lands on the first ';' after them |
| Statement.EscapedAndQuotedCut | utils/string.go:276-298 | a statement of plain bytes, backslash pairs and closed simple literals, followed by ';', is cut at that ';' |
| Statement.EscapedSemicolonKept | utils/string.go:283-286 | a backslash-escaped ';' does not end the statement |
| Statement.GetMultiSQL | utils/string.go:317-337 | the loop computes Pieces, whose statements are never empty |
| Statement.Pieces | utils/string.go:317-337 | the statements of a query are never empty |
| Statement.SplitJoinedStatements | utils/string.go:317-337 | splitting plain statements joined with ';', each ';' followed by any run of white space, gives the statements back in order: the white space after each ';' is skipped |
| Statement.EmptyStatementStops | utils/string.go:328-330 | an empty statement ends the split: what follows ";;" is dropped |
| NumberParse.ParseFirstInt | utils/string.go:197-211 | the loops compute FirstInt: the first digit run as an int64 |
| NumberParse.NoDigitIsZero | utils/string.go:197-211 | without a digit the result is 0 |
| NumberParse.ShortRunIsExact | utils/string.go:205-208 | a run of at most 18 digits is read without wrap-around |
| NumberParse.FirstIntOfFormat | utils/string.go:197-211 | a number printed with "%d" after digit-free text is read back |
| NumberParse.ParseComputeInt | utils/string.go:168-194 | the loop and switch compute ComputeInt |
| NumberParse.ComputeIntOfFormat | utils/string.go:168-194 | a printed number, at most one space and a suffix give the number times 2^30, 2^20, 2^10 or 1 |
| NumberParse.TwoSpacesDropSuffix | utils/string.go:177-180 | a second space hides the suffix |
| NumberParse.MinutesAndSeconds | utils/string.go:239-245 | "m:s" reads as m*60+s |
| NumberParse.NoColonIsFirstInt | utils/string.go:239-245 | without a colon, ParseSeconds is the first integer |
| NumberParse.ToPositiveOfDecimal | utils/string.go:461-467 | a printed n in [0, 2^32] becomes 2^32-n |
| NumberParse.NegativeBecomesUnsigned | utils/string.go:461-467 | the sign is not read, so "-n" becomes the unsigned 32-bit value of -n |
| NumberParse.ToPositiveTwice | utils/string.go:461-467 | applying ToPositive twice on [0, 2^32] gives the text back |
| NumberParse.IntReverseLoop | utils/string.go:452-459 | the loop computes IntReverse |
| NumberParse.RevAccIsReversedDigits | utils/string.go:452-459 | the loop's accumulator ends up in front of the reversed digits |
| NumberParse.TrailingZerosVanish | utils/string.go:452-459 | trailing zeros vanish: 10v reverses like v |
| NumberParse.ReverseTwice | utils/string.go:452-459 | reversing twice gives v back when v does not end in 0 and has at most 19 digits |
| NumberParse.ReversedFits | utils/string.go:452-459 | a number of at most 19 digits reverses without uint wrap-around |
| NumberParse.IntToIPRoundTrip | utils/string.go:448-450 | reading the dotted quad back gives v mod 2^32 |
| NumberParse.SplitJoin | utils/string.go:448-450 | splitting at the dots undoes the joining |
| NumberParse.GetDateRoundTrip | utils/string.go:45-51 | "YYYY-MM-DD..." gives eight bytes exactly when the dashes are in place, and putting them back gives the first ten bytes |
| SqlFilter.GetCharsetFromSQL | utils/string.go:339-361 | the loops compute CharsetOfSql |
| SqlFilter.SetNamesCharset | utils/string.go:339-361 | "SET NAMES c" gives c upper-cased, up to its first non-letter |
| SqlFilter.Utf8LosesItsDigit | utils/string.go:351-356 | "SET NAMES utf8" gives "UTF" |
| SqlFilter.CharsetShape | utils/string.go:339-361 | a charset comes only from a statement starting with SET, and is a byte followed by capitals |
| SqlFilter.CharsetStatementGoesToMaster | utils/string.go:339-373 | a statement that selects a charset goes to the master |
| SqlFilter.SetAutocommitNotOnMaster | utils/string.go:363-373 | "set autocommit=1" is not routed to the master |
| SqlFilter.IsSlaveNeed | utils/string.go:375-387 | true exactly when the statement is longer than, and starts with (any case), one of USE, SELECT, PREPARE, EXEC or SHOW |
| SqlFilter.SlaveNeedImpliesMasterNeed | utils/string.go:363-387 | a statement a slave may serve is also one IsMasterNeed accepts |
| AuditFilter.MatchEntry | utils/string.go:417-440 | one blacklist entry matches exactly as Listed says |
| AuditFilter.MatchKeywords | utils/string.go:422-435 | the keyword loop reaches the end exactly when the keywords follow in order |
| AuditFilter.IsAuditSql | utils/string.go:389-445 | the function as written computes Audit with the blacklist as spelled |
| AuditFilter.IsAuditSqlFixed | utils/string.go:389-445 | the corrected function computes Audit with the heartbeat keywords upper-cased |
| AuditFilter.IsAuditSqlWith | utils/string.go:389-445 | for any well-formed blacklist the function computes Audit |
| AuditFilter.ChainIsSearch | utils/string.go:422-435 | the keyword loop succeeds exactly when the greedy in-order search does |
| AuditFilter.ListedIsPlacement | utils/string.go:417-440 | an entry matches exactly when its first word starts the statement and its other keywords can be placed in order |
| AuditFilter.AlwaysAudited | utils/string.go:391-401 | short and long statements, and those with ';' (other than SELECT 1), are audited |
| AuditFilter.SelectOneNotAudited | utils/string.go:395-397 | "SELECT 1" in any case is never audited |
| AuditFilter.BlacklistedNotAudited | utils/string.go:416-442 | a matching entry keeps a 5-63 byte statement without ';' out of the log |
| AuditFilter.HeartbeatEntryNeverMatches | utils/string.go:407 | as written, the heartbeat SELECT entry never matches |
| AuditFilter.HeartbeatProbeAudited | utils/string.go:407 | as written, a heartbeat probe is audited |
| AuditFilter.HeartbeatProbeNotAudited | utils/string.go:407 | corrected, a SELECT mentioning FROM heartbeat WHERE (any case) is not audited |
| AuditFilter.HeartbeatProbeFixed | utils/string.go:407 | with the keywords upper-cased, the probe matches the heartbeat entry and is not audited |
| Host.GetConnAddr | utils/host.go:319-382 | the loops compute ConnAddrOf; no result means ("", nil) |
| Host.ReadUser | utils/host.go:342-356 | the user step reads the user field ("null" when empty) and stops at the next tab or the end |
| Host.ReadHost | utils/host.go:358-375 | the host step reads the host field without its ":port" ("null" when empty) |
| Host.FieldsAfterExactly | utils/host.go:342-381 | after the thread id, the row is accepted exactly when a tab follows the user field's first byte before the last byte |
| Host.UserFieldShape | utils/host.go:346-353 | the user field holds no tab |
| Host.HostFieldShape | utils/host.go:361-373 | the host field holds no tab, and a ':' only as its first byte |
| Host.AcceptedExactly | utils/host.go:325-381 | a row is accepted exactly when it has at least four bytes, starts with 1-9, and has a tab after the user field's start and before its last byte |
| Host.ThreadIdShape | utils/host.go:332-338 | the thread id is the maximal digit run at the start, with no leading zero |
| Host.AcceptedShape | utils/host.go:342-381 | the user and host are non-empty and tab-free, and the host holds ':' only as its first byte |
| Host.RowRoundTrip | utils/host.go:319-382 | thread id, tab, user, tab, host and nothing, a tab or a ":port" read back as those three fields |
| Host.EmptyFieldsAreNull | utils/host.go:346-362 | empty user and host fields come back as "null" |
| Host.RowWithoutHostRejected | utils/host.go:358-381 | a row that ends after the user field is rejected |
| Cache.NewGenericCache | utils/cache.go:67-77 | nil exactly for a size of zero or less; otherwise an empty cache |
| Cache.GenericCache.constructor | utils/cache.go:73-76 | an empty map with the given size |
| Cache.EvictAny | utils/cache.go:83-89 | a non-empty map loses exactly one of its keys; an empty one is unchanged |
| Cache.GenericCache.Add | utils/cache.go:79-96 | key maps to v afterwards. When the map is below size, size grows by one and nothing is evicted; otherwise one arbitrary key is evicted. With fewer entries than size it is a plain insert |
| Cache.GenericCache.Get | utils/cache.go:98-104 | the value stored under key, if any |
| Cache.GenericCache.Del | utils/cache.go:106-116 | a present key is removed and size drops by one; an absent key changes nothing |
| Cache.NewDummyCache | utils/cache.go:22-33 | nil exactly for a size of zero or less; otherwise an empty cache with the expiry time |
| Cache.DummyCache.constructor | utils/cache.go:28-32 | an empty map with the given size and expiry time |
| Cache.DummyCache.Add | utils/cache.go:35-52 | as GenericCache.Add, with the current time as the value |
| Cache.DummyCache.Get | utils/cache.go:54-65 | found exactly when present and not expired; an expired entry is removed and size drops by one |
| Cache.OverfullAsWritten | utils/cache.go:39-48 | a cache of size 1 holds two entries after two different additions |
| Cache.BoundedCache.Add | utils/cache.go:79-96 | with size as a fixed capacity, the entry count stays at most size |
| Cache.BoundedCache.constructor | utils/cache.go:73-76 | an empty cache of fixed capacity size |
| Cache.BoundedCache.Get | utils/cache.go:98-104 | the value stored under key, if any |
| Cache.BoundedCache.Del | utils/cache.go:106-116 | the key is removed and the entry count stays at most the capacity |
| Cache.BoundedAfterTwoAdds | utils/cache.go:83-92 | with size as a capacity, a cache of size 1 holds one entry after two additions |

## Behaviour of note

The model keeps each of these behaviours of the code:

- toValueListEnd's first-group loop resets its bracket count at every element (utils/fingerprint.go:384-419), so a nested group is cut at its first ')' that does not directly follow a '(' (`ListScan.FirstGroupIgnoresNesting`). The loop that skips the later groups does keep a depth count.
- The hint pass drops the `/*!` opener, its version digit and the closing star-slash, and keeps the text between them (utils/fingerprint.go:148-183; `Fingerprint.HintMarkersRemoved`).
- In a GBK literal the trail range 0x40-0xFE excludes `'` and `"`, so only a backtick or a backslash can be taken as a trail byte (`QuoteScan.GbkTrailBacktickDoesNotClose`, `QuoteScan.GbkTrailBackslashDoesNotEscape`).
- A statement that ends with a `VALUES` or `IN` list followed by a blank or a comma makes toValueListEnd index past the end of the text (utils/fingerprint.go:432; `ListScan.TrailingBlankFails`, `Fingerprint.TrailingBlankAfterValues`).
- The main loop recognises IN only directly after a space (utils/fingerprint.go:96), so the fingerprint depends on the kind of blank: "a IN (1)" becomes "a IN(1) ", while "a \tIN (1)" becomes "a IN (1)" (`Fingerprint.BlankBeforeInMatters`).
- The fingerprint is not idempotent: "a IN (b),(c)" becomes "a IN(b) ", and that text ends with a list followed by a blank, so fingerprinting it again reads past its end (`Fingerprint.FingerNotIdempotent`).

## Left out

- `RegGenerateFinger` and `removeArglist` (utils/fingerprint.go:191-201, 589-593) use Go's regexp package, which is not modelled. `removeQuote` is modelled even though only `RegGenerateFinger` calls it. `removeSpace` is modelled although nothing calls it.
- `ParseFirstFloat` (floating point), `RandStr` (randomness), `Md5Sum` (hashing), `toMatchEnd` (unused), and `ParseMySQLTime`, `ParseNoahTime` and `FormatTime` (time zones and the clock) are left out.
- utils/sqlparser.go and the rest of utils/host.go (process listing over the network, MySQL queries, /proc files) are not part of this model. Only `getConnAddr` is modelled.
- getConnAddr returns a fresh pointer to a MySQLConnAddr. The model returns the record as a value, so pointer identity is not captured.
- ByteText.Upper and ByteText.EqualFold fold ASCII letters only, one byte at a time. The code applies strings.ToUpper and strings.EqualFold to whole strings decoded as UTF-8 (utils/string.go:342, 395, 420; utils/fingerprint.go:185). Go also folds some letters above 0x7F onto ASCII letters, such as ſ (U+017F) to S and ı (U+0131) to I. ToUpper also maps lower-case letters above 0x7F to other non-ASCII bytes (Cyrillic р, D1 80, becomes Р, D0 A0), and it replaces invalid UTF-8 with U+FFFD. The model does none of this, so it differs from the code on such input:
  - "ſELECT 1" is not audited by the code but is audited by the model (`AuditFilter.IsAuditSql`);
  - "SHOW ſTATUS" matches the SHOW STATUS blacklist entry in the code but not in the model;
  - a fingerprint starting with "ſelect" is tagged SQLCOM_SELECT by the code and SQLCOM_OTHER by the model (`SqlCom.Classify`);
  - GetCharsetFromSQL takes the first byte after " NAMES " whatever it is, so "SET NAMES р" gives "\xD0" in the code and "\xD1" in the model (`SqlFilter.CharsetOfSql`).

  A comparison of a prefix against an ASCII keyword of the same byte length (utils/fingerprint.go:96, 114; utils/string.go:256, 381, 419) is exact: a rune above 0x7F takes at least two bytes, and Go folds runes one for one.
- unicode.IsSpace, IsLetter and IsDigit are applied to single bytes, as the source does with rune(b), and are modelled over Latin-1.
- Cache locks (sync.RWMutex) are left out, so concurrency is not modelled. That includes `DummyCache.Get` and `GenericCache.Del` deleting under a read lock (utils/cache.go:55-63, 107-115).
- The clock in DummyCache (time.Now().Unix()) is a parameter `now`.
- The key Go's map iteration evicts first is arbitrary. Cache.GenericCache.Add, Cache.DummyCache.Add and Cache.BoundedCache.Add state only that some existing key is evicted.
- Cache.GenericCache.Add: the size field is an unbounded integer, so Go's int overflow after 2^63 insertions is not modelled.
- A Go index past the end of a string becomes an explicit failure rather than a panic. This covers toValueListEnd reading sql[k] at utils/fingerprint.go:432 and GenerateFinger in turn.
- `FingerPrint.GenerateFinger` returns `ok` so that the panic case can be told apart. The source has no return value.

## Findings

| source | as written | input that shows it | evidently intended | confidence | as-written member | corrected member |
|---|---|---|---|---|---|---|
| utils/string.go:407 | the heartbeat entry's keyword "FROM heartbeat WHERE" is searched for in the upper-cased statement, so it can never be found | "SELECT ts FROM heartbeat WHERE id=1" is audited | heartbeat probes are not audited, so the keyword should be upper-case | not executed | AuditFilter.HeartbeatProbeAudited | AuditFilter.HeartbeatProbeNotAudited |
| utils/cache.go:39-48, 83-92 | every Add that does not evict increments size, so the map never reaches size and nothing is ever evicted | NewGenericCache(1), Add("a"), Add("b") leaves two entries | size is the capacity, and the cache holds at most size entries | not executed | Cache.OverfullAsWritten | Cache.BoundedCache.Add |
