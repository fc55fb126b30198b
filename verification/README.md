# A verified model of the parsing, joining and arithmetic core of xCAT

The project models six parts of xCAT in which a small piece of code carries a real algorithm, and proves what each of
them computes. Code that changes things step by step is modelled as classes and methods with loops; every such method
is tied to a specification function, and the lemmas say what that function means.

`dafny verify dfyconfig.toml` checks everything (Dafny 4.11).

## What is proved

**Log statistics (`dbstats.py`).** `LogReader` reads a file backwards in blocks and carries the cut first line of a
block into the next older one. The lines it delivers are the reverse of the file split at newlines, except that the
first line of the file is withheld when the length is a multiple of the block size. `XcatLogs` holds the two line
scanners. `CommandLog` writes the command log the way the daemon does, with any request, and proves that reading
returns every command once, newest first, wherever the blocks cut, exactly when the withheld line is not the date line
of the oldest record. `Analysis` is the streaming join with lazy readers, in-place record counters, truncation, filter
and exceptions; `LogJoin` proves that it attributes each trace to the first processed command that starts no later
than it. `Accounting` says what a record adds up in terms of the texts of its messages, and `LogStats` what is printed
for two logs in terms of their commands, seconds and messages alone.
`float`, `strptime`/`mktime` and `json.loads` are arbitrary functions, so the theorems hold for every one of them.

**Table rows.** `RowMerge` models the two loops that cut a row at commas and merge pieces in place by counting quotes.
For any cells `RowCells` proves when a rule gives them back, `RowEnds` on which rows each loop ends. The parity rule
recovers the cells of every row of section 2 of RFC 4180; the other rule does so exactly when no cell has both a comma
and a quote of its own. `TabRestore` models the
printer (quoting, gap filling, escaping) and proves for which cells saving and loading a row give its columns back.
`HexCodec` proves the hex codec and its way through a plain comma split, `HourBoxes` the schedule boxes that are
clicked, saved and loaded beside it.

**Node ranges, addresses and the wizard.** `NodeRange` models the recursive expansion with JavaScript's mixed string
and number loop; `RangeExpansion` proves that it enumerates a pattern in mixed radix. `IpRange` proves the end address
arithmetic with its string carry. `Wizard` is the next/back/cancel state machine: where every click leads, which pages
a platform has, and that every page before the current one passed its check.

**The proxy DHCP daemon.** `Reload` is the main loop interleaved with the signal handler and the writer of the file,
`NodeConfig` the chunked loader and the search, `ProxyReply` the option walk and the reply built in place, from the bytes
of a request as it is received to the fields and options of its answer.

**Monitoring and streamed responses.** `Monitor` proves what every row of the overview table is in terms of the node
list, that the table counts every node once, and that the order of the list does not matter; `LocationList` goes back
to the text of the list. `Response` proves what normalising removes and that the way a response is cut into chunks does
not matter.

## Where the code falls short of what it is for

The model keeps the code as it is. Each of these has its exact condition proved, and an input on which it fails.

- A log whose length is a multiple of the block size loses its first line (`CommandLog.ReadBackIsComplete`; input
  `CommandLog.OneFullBlock`).
- A request is read back without the white space around it and without what follows a newline in it
  (`CommandLog.RequestKeptIff`; input `CommandLog.NewlineLoses`).
- Scanning the last block again after the end can make up a command (`XcatLogs.RescanAfterEnd`; input
  `CommandLog.UpsideDown`); `process` calls only the trace reader again, where it cannot (`Analysis.Advance`).
- Both merge loops run forever on some rows (`RowEnds.NeverEnds`). The parity loop ends exactly on an even number of
  quotes (`RowEnds.ParityEndsOnRow`; input `RowEnds.OneQuoteRunsAway`), the loop of `configure.js` exactly when the
  pieces with one quote pair up (`RowEnds.OneThenTwoEndsIff`; inputs `RowEnds.QuotedCellRunsAway`, which is
  well-formed, and `RowEnds.LoneQuoteRunsAway`).
- The loop of `configure.js` fails on mixed cells (`RowCells.OneThenTwoOnRow`; input `RowCells.LoopsDiffer`).
- A saved row does not load as it was when a cell has both a comma and a quote of its own
  (`TabRestore.SaveThenLoadIff`), and may keep the loader going forever (`TabRestore.SavedRowEndsIff`; inputs
  `TabRestore.LoaderRunsAway`, `TabRestore.LoaderRunsAwayAtEnd`).
- Padding of node numbers supplies at most six zeros (`RangeExpansion.GroupTexts`; input `RangeExpansion.EightDigits`).
- The first comparison of a range is textual, so bounds of unequal width can give an empty range or a number that is out
  of it (`RangeExpansion.RangeIsNumericIff`; inputs `RangeExpansion.UnequalWidths`).
- A carry into the first octet appends digits to it (`IpRange.EndIsNumLater`; input `IpRange.CarryIsAppended`).
- A chunk that is "0" is dropped (`Response.ResponseIsWholeTextIff`; input `Response.ZeroIsDropped`).
- A CEC that is listed twice below frames has its lpars counted twice (`Monitor.Conservation`; input
  `Monitor.CecBelowTwoFrames`).
- A pad option is read as an option with a length, so that an odd number of pads hides the vendor class behind them
  (`ProxyReply.VendorClassBehindPads`; input `ProxyReply.OnePadUndefined`).
- A request whose vendor class is not found or not inside the buffer is read through a null pointer or past the buffer,
  and a path that is too long is written past the text buffers (`ProxyReply.Serve`, `ProxyReply.PadFreeIsAnswered`;
  input `ProxyReply.NoOptionsUndefined`).
- The comment in `tabRestore.php` (line 47) says that cells in quotes are changed; the code changes the others. The model
  follows the code.

## Model

| member | source | states |
|---|---|---|
| LogReader.Reader.constructor | xCAT-probe/scripts/dbstats.py:14-20 | a new reader will return exactly the items of the delivered lines, newest first |
| LogReader.Reader.ReadBlock | xCAT-probe/scripts/dbstats.py:38-60 | a block read moves lines from the unread part to the loaded block without losing, repeating or splitting any; at the start of the file nothing changes |
| LogReader.FullBlock | xCAT-probe/scripts/dbstats.py:49-58 | for any file, position, carried text and block size, the lines of a full block without its first, and the older text with that first line carried, are together the lines that were unread |
| LogReader.NextBlock | xCAT-probe/scripts/dbstats.py:42-58 | the same for both cases of the block read, the full block and the short last one, with the first line withheld when the position is a multiple of the block size |
| LogReader.Reader.ScanBlock | xCAT-probe/scripts/dbstats.py:91-106 | scanning a block from its end and trimming the used suffix takes exactly one item off what the reader still has, with the half-built record carried over when there is none |
| LogReader.Reader.GetNext | xCAT-probe/scripts/dbstats.py:62-72 | returns the first item still to come, None at the end, or the exception that scanning raises, across any number of blocks; the block left at the end holds no item if scanned in the state in which it was entered |
| LogReader.QuietScan | xCAT-probe/scripts/dbstats.py:91-106 | after scanning part of a block without an item, what is left is the scan of the remaining lines in the state reached |
| XcatLogs.RescanAfterEnd | xCAT-probe/scripts/dbstats.py:62-106 | scanning the last block once more after None gives a command exactly when the block has a date line, and a request and an elapsed time were carried into it or are in it |
| XcatLogs.TraceLineReads | xCAT-probe/scripts/dbstats.py:123-140 | any line with the tag, whatever stands before and behind it, gives its date and message; for a repeated message the second try drops the added bracket; any other failure is an exception |
| XcatLogs.UntaggedLinePassed | xCAT-probe/scripts/dbstats.py:124-126 | exactly the lines without the tag are passed over |
| XcatLogs.WrittenTraceLine | xCAT-probe/scripts/dbstats.py:114-145 | a line of 15 characters of date, anything without the tag, the tag, a blank and a text gives that date and the message of the text, or of the text without its last character if the line is marked as repeated and the text does not decode; everything else is a ValueError |
| XcatLogs.TracesOfLines | xCAT-probe/scripts/dbstats.py:123-145 | the traces of lines that all decode come out newest first, each once, other lines skipped |
| XcatLogs.LineRaisesIff | xCAT-probe/scripts/dbstats.py:91-101 | a command line raises an exception exactly when it is a time or date line without a blank, or its elapsed time is no number |
| CommandLog.RecordText | xCAT-server/sbin/xcatd:3085-3112 | the text of a printed record, line by line, for any request |
| CommandLog.TextOfLog | xCAT-server/sbin/xcatd:3085-3112 | the log is its records one after the other |
| CommandLog.RequestLineText | xCAT-probe/scripts/dbstats.py:94-96 | of any logged request, the first line is read back without white space around it and with commas turned into blanks |
| CommandLog.RequestKeptIff | xCAT-server/sbin/xcatd:3088-3107 | the request is read as it was logged, commas aside, exactly when it is one line without white space at its ends |
| CommandLog.NewlineLoses | xCAT-server/sbin/xcatd:3099-3102 | a request with a newline in it is not |
| CommandLog.ScanRecord | xCAT-probe/scripts/dbstats.py:91-105 | a whole record, whatever its untagged body lines and the lines of its request, is handed out once with its date, request and elapsed time and leaves nothing half-built |
| CommandLog.ReadBack | xCAT-server/sbin/xcatd:3085-3112 | for every log the daemon can write with untagged body lines, any requests and every block size, reading returns the logged commands, newest first, all but the oldest if its date line is withheld |
| CommandLog.ReadBackIsComplete | xCAT-probe/scripts/dbstats.py:53-58 | reading is complete exactly when the log length is no multiple of the block size or something stands before the first date line |
| CommandLog.OneFullBlock | xCAT-probe/scripts/dbstats.py:53-55 | of a log of one record that fills one block exactly nothing is read |
| CommandLog.UpsideDown | xCAT-probe/scripts/dbstats.py:62-64 | a block with the lines of a record in reverse gives nothing at first and a made-up command when it is scanned again |
| Analysis.StatRecord.constructor | xCAT-probe/scripts/dbstats.py:235-249 | a new record has the command's key and elapsed time and empty counters |
| Analysis.StatRecord.Stat | xCAT-probe/scripts/dbstats.py:166-210 | one message changes exactly the counter of its type and method prefix, or raises the exception for the field it lacks or the number it does not spell and changes nothing |
| Accounting.TallyIsText | xCAT-probe/scripts/dbstats.py:166-210 | a message is counted exactly when its elapsed time is a number with one character behind it, it has a type, and the method and table which that type needs; otherwise a ValueError for the number, else a KeyError |
| Accounting.FamilyIsPrefix | xCAT-probe/scripts/dbstats.py:172-176 | the three method prefixes exclude each other, so the order of the tests does not matter |
| Accounting.TimesAddUp | xCAT-probe/scripts/dbstats.py:171-184 | each of the six times is the sum of the elapsed times of the attributed messages with the type text "end_sql" or "end" and a method of that prefix |
| Accounting.TalliesAddUp | xCAT-probe/scripts/dbstats.py:185-210 | each table counter is the number of attributed messages with that type text, method prefix and table |
| Analysis.Advance | xCAT-probe/scripts/dbstats.py:230-234 | fetching the next trace loses none and leaves the reader at its end when there is none |
| Analysis.SkipLaterTraces | xCAT-probe/scripts/dbstats.py:233-234 | drops exactly the leading traces after the window, or raises what reading them raises |
| Analysis.CountTraces | xCAT-probe/scripts/dbstats.py:251-253 | counts exactly the leading traces in the window into the record and keeps the first older one for the next command, or stops with the exception of the first message that cannot be counted or read |
| Analysis.FillRecord | xCAT-probe/scripts/dbstats.py:229-253 | the row of one command and the traces left for older ones, or the exception |
| Analysis.JoinLogs | xCAT-probe/scripts/dbstats.py:223-259 | the loop over the two readers prints the rows of the functional run on what they hold, lazily, in order, up to the limit or the first exception |
| Analysis.Process | xCAT-probe/scripts/dbstats.py:212-260 | the printed rows and the exception for two log texts, with a limit that the filter switches off |
| LogJoin.OneWindow | xCAT-probe/scripts/dbstats.py:233-253 | dropping and counting for one window takes exactly the traces it owns and leaves all other windows theirs |
| LogJoin.JoinIsFirstMatch | xCAT-probe/scripts/dbstats.py:223-259 | for traces in non-increasing time order, each trace is counted for the first processed command that starts no later than it, exactly when it is no later than that command's end; the rows are printed in order, all of them exactly when every owned trace can be counted, otherwise those before the first command that owns one which cannot, with its exception |
| LogJoin.WindowsApartIff | xCAT-probe/scripts/dbstats.py:148-158 | each record holds exactly the traces inside its window, for all traces, exactly when every window ends before each earlier read one starts |
| LogJoin.LatestIsPrefix | xCAT-probe/scripts/dbstats.py:256-258 | a run limited to n prints the first n rows of the unlimited run for n at least 1, with no later exception, and is the unlimited run otherwise |
| LogStats.WindowIsTime | xCAT-probe/scripts/dbstats.py:148-158 | the window of a command goes from its start to one second after its elapsed time in whole seconds, the fraction cut towards zero |
| LogStats.StatisticsOfLogs | xCAT-probe/scripts/dbstats.py:212-260 | for a command log as the daemon writes it and a cluster log in time order, the rows name the commands in order and add up, by type and method prefix, the messages in the time of each that do not belong to a later command; the report ends before the first command with a message that cannot be counted, with the exception for it |
| LogStats.LimitOfLogs | xCAT-probe/scripts/dbstats.py:212-260 | a limit of at least 1 takes so many rows of the report, and none if there is a filter |
| LogStats.OneCommand | xCAT-probe/scripts/dbstats.py:148-260 | the row of a log with one command adds up exactly the traces from its start to one second after its elapsed time |
| RowMerge.MergeColumn | xCAT-UI/js/configure/configure.js:249-258 | merging one column in place yields the first cell of the pieces and leaves the columns before it and the pieces after it alone |
| RowMerge.CutRow | xCAT-UI/js/monitor/xcatmon.js:79-88 | the in-place loop over a row yields all merged cells with their quotes removed, on every row on which it ends |
| RowEnds.NeverEnds | xCAT-UI/js/configure/configure.js:252-257 | a merge that reaches the end of the row unfinished stays unfinished after any number of further turns |
| RowCells.RowCutIff | xCAT-UI/js/configure/configure.js:244-258 | for either rule and any cells at all, cutting the joined row gives exactly the cells back if and only if the rule starts on each of them with a comma, merges at each of its commas and stops at its end, and leaves each of the others alone |
| RowCells.RowShownIff | xCAT-UI/js/configure/configure.js:244-262 | the same condition decides whether the displayed cells are the written ones without quotes |
| RowEnds.OneThenTwoEndsIff | xCAT-UI/js/configure/configure.js:244-258 | on any row the loop ends exactly when, among the pieces with quotes from left to right, each one with a single quote is followed by another one with a single quote that closes it |
| RowEnds.CellsEndIff | xCAT-UI/js/configure/configure.js:244-258 | the same condition for a row of any cells, by the pieces of each cell |
| RowEnds.QuotedCellRunsAway | xCAT-server/lib/xcat/plugins/tabutils.pm:1316-1317 | the well-formed row of one quoted cell with a quote and a comma keeps the loop going forever |
| RowEnds.LoneQuoteRunsAway | xCAT-UI/js/configure/configure.js:250-258 | so does a single quote without any comma |
| RowEnds.ParityEndsOnRow | xCAT-UI/js/monitor/xcatmon.js:81-86 | the parity loop ends exactly on the rows with an even number of quotes |
| RowEnds.OneQuoteRunsAway | xCAT-UI/js/monitor/xcatmon.js:81-86 | a row with one quote keeps the parity loop going forever |
| RowCells.ParityOnRow | xCAT-UI/js/monitor/xcatmon.js:79-88 | on every row of plain cells and quoted cells with doubled quotes it recovers exactly the cells |
| RowCells.OneThenTwoExactIff | xCAT-UI/js/configure/configure.js:247-258 | the other loop recovers exactly the cells if and only if no cell has both a comma and a quote of its own |
| RowCells.OneThenTwoOnRow | xCAT-UI/js/configure/configure.js:244-262 | the two loops agree on a well-formed row under exactly that condition |
| RowCells.LoopsDiffer | xCAT-UI/js/configure/configure.js:244-262 | they differ on the row of one quoted cell with a comma and a quote |
| RowCells.DisplayedText | xCAT-UI/js/configure/configure.js:260-262 | the displayed value is the cell text exactly when the text has no quote |
| RowCells.CountByRemoval | xCAT-UI/js/configure/configure.js:513-515 | the length that removing a character takes away is the number of its occurrences |
| TabRestore.QuoteColumns | xCAT-UI/lib/tabRestore.php:46-52 | quotes every cell that is neither empty, nor "0", nor quoted already, in place, and keeps all keys |
| TabRestore.AlreadyQuotedIff | xCAT-UI/lib/tabRestore.php:48 | a cell is left alone as quoted exactly when it is one line in quotes with a newline at most behind it |
| TabRestore.KeySortSorts | xCAT-UI/lib/tabRestore.php:55 | sorting by key permutes the slots into strictly increasing keys |
| TabRestore.LastKeyTest | xCAT-UI/lib/tabRestore.php:57-58 | the last key equals the count minus one exactly when the keys are 0, 1, 2, ... |
| TabRestore.AddMissing | xCAT-UI/lib/tabRestore.php:59-63 | adds exactly the missing columns up to the last key, empty, and changes no other |
| TabRestore.FillGaps | xCAT-UI/lib/tabRestore.php:54-65 | the row becomes every column from 0 to the largest in order, missing ones empty, also for a row without columns |
| TabRestore.ColumnsAre | xCAT-UI/lib/tabRestore.php:55-68 | the columns of a row are its cells at their column numbers, the missing ones empty, up to the largest number |
| TabRestore.PrintRow | xCAT-UI/lib/tabRestore.php:45-72 | the printed text is the escaped join of the quoted columns, for columns posted in any order |
| TabRestore.EscapeLeavesNoQuotes | xCAT-UI/lib/tabRestore.php:70-74 | the printed text has no quote character of either kind |
| TabRestore.RowArrives | xCAT-UI/lib/tabRestore.php:67-73 | for any XML decoder that undoes the two entities and any cells without ampersands, the printed row arrives as the posted cells joined by commas, each in quotes if it is not empty, "0" or quoted already |
| TabRestore.DecodeIsDecoder | xCAT-UI/lib/tabRestore.php:68-73 | decoding the five predefined XML entities undoes the two that the script writes, so there is such a decoder |
| TabRestore.SaveThenLoadIff | xCAT-UI/js/configure/configure.js:244-262 | saving a row and loading it again ends and gives every column back without quotes, missing ones empty, exactly when no cell has both a comma and a quote between its outer quotes |
| TabRestore.SavedRowEndsIff | xCAT-UI/js/configure/configure.js:244-258 | on a saved row of any cells without ampersands the loader ends exactly when the pieces of the cells, in the quotes that they have or get, pair up where they have one quote |
| TabRestore.LoaderRunsAway | xCAT-UI/js/configure/configure.js:250-258 | a cell with its comma before its quote fails that condition, whatever cells follow |
| TabRestore.LoaderRunsAwayAtEnd | xCAT-UI/js/configure/configure.js:250-258 | a cell with its quote before its comma fails it at the end of a row |
| HexCodec.HexEncode | xCAT-UI/js/help/help.js:585-595 | the loop produces the mark and four digits for each code unit |
| HexCodec.MarkText | xCAT-UI/js/help/help.js:588 | the mark is "HexEncoded:" |
| HexCodec.EncodedText | xCAT-UI/js/help/help.js:585-595 | the text behind the mark is the four hexadecimal digits of every code unit in order |
| HexCodec.HexValueIs | xCAT-UI/js/help/help.js:569 | digits are read in upper and lower case |
| HexCodec.HexDecode | xCAT-UI/js/help/help.js:562-576 | the loop decodes the groups of four behind the mark and returns any other text unchanged |
| HexCodec.DecodeEncode | xCAT-UI/js/help/help.js:562-595 | decoding undoes encoding for every sequence of UTF-16 code units, surrogates included |
| HexCodec.RowDecodes | xCAT-UI/js/help/help.js:716-739 | a row of quoted encoded fields cut at every comma decodes to the original texts, whatever commas and quotes they hold |
| HourBoxes.Boxes.ClickEveryHour | xCAT-UI/js/help/help.js:535-542 | the box toggles; checking it checks all 24 hours, taking the check away changes no hour |
| HourBoxes.Boxes.ClickHour | xCAT-UI/js/help/help.js:604-610 | a click on an hour toggles that hour and no other, and taking a check away also takes it from "every hour" |
| HourBoxes.Boxes.Save | xCAT-UI/js/help/help.js:399-418 | both branches write the specified schedule text, and nothing is passed on when it is empty |
| HourBoxes.EveryHourText | xCAT-UI/js/help/help.js:403 | the fixed text is the numerals 0 to 23 with blanks between them |
| HourBoxes.Boxes.Load | xCAT-UI/js/help/help.js:846-869 | the two loops set the hours that the schedule names, and "every hour" if it names all |
| HourBoxes.ClicksStayConsistent | xCAT-UI/js/help/help.js:535-610 | in every run of clicks "every hour" is checked only while all 24 hours are |
| HourBoxes.SavedIsCheckedIff | xCAT-UI/js/help/help.js:399-412 | the saved text names exactly the checked hours if and only if "every hour" is checked only with all hours |
| HourBoxes.NothingSavedIff | xCAT-UI/js/help/help.js:412-418 | nothing is saved exactly when no box is checked |
| HourBoxes.SaveThenLoad | xCAT-UI/js/help/help.js:846-869 | after any clicks, nothing is saved exactly when no hour is checked; otherwise saving and loading restores the checked hours, with "every hour" checked exactly when all are |
| NodeRange.PaddedText | xCAT-UI/js/configure/discover.js:176-178 | a padded number has the wanted length or six digits more than before, whichever is less, and is the same number |
| NodeRange.ExpandGroup | xCAT-UI/js/configure/discover.js:174-184 | the loop with its recursive call collects the expansions of all substituted texts in order |
| NodeRange.ExpandNames | xCAT-UI/js/configure/discover.js:210-219 | the loop over two names with one prefix collects the prefixed numbers |
| NodeRange.ExpandNR | xCAT-UI/js/configure/discover.js:162-220 | terminates on every range whose bounds are digits or no numbers at all and computes the specified list of names, all fall-back cases included |
| NodeRange.GroupShrinks | xCAT-UI/js/configure/discover.js:168-181 | every recursive call has fewer closing brackets |
| RangeExpansion.StringLeIsValueLe | xCAT-UI/js/configure/discover.js:175 | the first, textual comparison agrees with the numeric one on digit strings of one width |
| RangeExpansion.GroupTexts | xCAT-UI/js/configure/discover.js:174-178 | a group of equal-width bounds yields the zero-padded numbers between them exactly when it is one number or six zeros suffice for the second |
| RangeExpansion.EightDigits | xCAT-UI/js/configure/discover.js:176-178 | the numbers 1 to 2 in eight digits do not |
| RangeExpansion.RangeIsNumericIff | xCAT-UI/js/configure/discover.js:174-178 | a range of any two digit strings yields the numbers from the first to the second exactly when the textual comparison of the two says the same as the numeric one |
| RangeExpansion.UnequalWidths | xCAT-UI/js/configure/discover.js:175 | "9-10" yields nothing and "10-9" something |
| RangeExpansion.NotANumberStops | xCAT-UI/js/configure/discover.js:175 | a range with a bound that is no number is its first bound or nothing |
| RangeExpansion.ExpandIsMixedRadix | xCAT-UI/js/configure/discover.js:162-185 | for any number of valid groups and plain literals the result is the list of names in mixed-radix order, last group fastest, as many as the product of the group sizes |
| RangeExpansion.NamesDistinct | xCAT-UI/js/configure/discover.js:162-185 | names at different positions differ |
| RangeExpansion.NotationsAgree | xCAT-UI/js/configure/discover.js:168-219 | "p lo - p hi" and "p[lo-hi]" expand alike for any non-empty prefix without digits, dashes and brackets and any digit strings, both to nothing exactly when lo is greater than hi as a string |
| RangeExpansion.NotationsDifferWithoutPrefix | xCAT-UI/js/configure/discover.js:193-197 | without a prefix the two notations never agree |
| RangeExpansion.OnePrefixNeeded | xCAT-UI/js/configure/discover.js:187-219 | a text with dashes and without brackets is the range of its first two pieces exactly when both are names with one prefix, and otherwise one name by itself |
| RangeExpansion.NoNames | xCAT-UI/js/configure/discover.js:165-172 | the empty text and a group without a dash stand for no names |
| IpRange.NumeralIsOctet | xCAT-UI/js/configure/discover.js:247 | the numeral of every number up to the bound is accepted by the octet expression |
| IpRange.OctetBound | xCAT-UI/js/configure/discover.js:247 | a part is accepted exactly when it is one or two digits, or three that spell a number from 100 to 255, or to 254 for the last part |
| IpRange.Ip2Decimal | xCAT-UI/js/configure/discover.js:257-270 | the shifting loop computes the 32-bit number of a valid address and 0 for any other text |
| IpRange.CalcEndIp | xCAT-UI/js/configure/discover.js:275-307 | for any text, the leftmost four numbers with dots between them are taken and the cascade of in-place updates computes the specified parts in all four cases; without such numbers there is an exception |
| IpRange.FindsFourNumbers | xCAT-UI/js/configure/discover.js:278-279 | four numbers of any size with dots between them are found behind any text without digits and before any text that does not start with one |
| IpRange.EndIsNumLater | xCAT-UI/js/configure/discover.js:282-306 | the end is num positions after the start in the script's numbering exactly when no carry reaches the first octet or that octet is 0, and without a carry the end of a valid address passes verifyIp |
| IpRange.CarryIsAppended | xCAT-UI/js/configure/discover.js:304-306 | one address after 1.255.255.254 the first octet is 11 |
| IpRange.RangeFits | xCAT-UI/js/configure/discover.js:282-306 | every end address that passes verifyIp lies at least num 32-bit addresses after the start, carry or not |
| IpRange.DynamicRangeEnd | xCAT-UI/js/custom/hmc.js:924-938 | the handler gives the computed end for four addresses per frame and CEC and one per lpar and HMC, or the empty text when the start or that end is not valid |
| IpRange.AddressesFor | xCAT-UI/js/custom/hmc.js:924-927 | four for every frame and CEC, one for every lpar and HMC |
| IpRange.RangeEndHasRoom | xCAT-UI/js/custom/hmc.js:924-938 | an end that is not empty is valid and leaves room for that many addresses, and is exactly so many positions after the start if and only if no carry reaches the first octet or that is 0; without a carry it is not empty |
| Wizard.DiscoverWizard.constructor | xCAT-UI/js/configure/discover.js:2-23 | the page starts with the two-step arrays on the first page |
| Wizard.DiscoverWizard.GetPlatform | xCAT-UI/js/configure/discover.js:349-369 | a platform with a plugin replaces all three arrays, any other choice changes nothing |
| Wizard.DiscoverWizard.ClickNext | xCAT-UI/js/configure/discover.js:74-82 | moves on exactly when the page's check, if it has one, succeeds |
| Wizard.DiscoverWizard.ClickBack | xCAT-UI/js/configure/discover.js:105-115 | moves back exactly when the page's function, if it has one, agrees; its input then counts as unchecked |
| Wizard.DiscoverWizard.ClickCancel | xCAT-UI/js/configure/discover.js:54-59 | returns to the first page, drops the input and keeps the arrays |
| Wizard.PluginsFit | xCAT-UI/js/custom/hmc.js:23-38 | the three step lists of each platform have one length and none of them contains the platform check |
| Wizard.ClickKeepsSafe | xCAT-UI/js/configure/discover.js:68-120 | every click on a button that is there keeps the arrays equally long, the current page valid and all earlier pages passed |
| Wizard.PagesBeforeAreChecked | xCAT-UI/js/configure/discover.js:17-120 | in every run, every page with a check before the current one passed it at a "next" click after which nothing was collected from it, cancelled, or replaced by another platform |
| Wizard.ClickLeadsTo | xCAT-UI/js/configure/discover.js:54-115 | in every run, "Back" leads to the page before and "Next" behind the first page to the page after exactly when the page has no check or its check agrees, otherwise the page stays; "Cancel" leads to the first page; none of them changes the arrays |
| Wizard.ThereAndBack | xCAT-UI/js/configure/discover.js:74-115 | in every run, "Next" and an agreed "Back" undo each other |
| Wizard.PowerPages | xCAT-UI/js/custom/hmc.js:23-38 | both Power platforms lead to the first of these nine pages, each with its title, function and check |
| Wizard.IdataplexPages | xCAT-UI/js/custom/ipmi.js:20-36 | iDataPlex leads to the first of these five pages |
| Wizard.NoPlatform | xCAT-UI/js/configure/discover.js:349-369 | any other choice changes nothing |
| Reload.NextKeepsInv | src/proxydhcp.c:28-62 | every step of the main loop, the handler and the file writer keeps the invariant |
| Reload.FlagClearMeansLoaded | src/proxydhcp.c:150-172 | in every interleaving, a clear flag outside the moment between clearing it and opening the file means that the loaded file is no older than the latest signal |
| Reload.NoLostReload | src/proxydhcp.c:150-175 | a request answered after a test that follows a signal is answered from a file opened no earlier than the file was at that signal |
| NodeConfig.Config.LoadCfg | src/proxydhcp.c:33-62 | the chunked loop loads every byte of the file and counts every complete record, for any chunk size, with at least one zero byte after them |
| NodeConfig.Config.GetWinPePath | src/proxydhcp.c:65-76 | finds the path of the first record with the name, without reading past the buffer, and nothing without a file |
| NodeConfig.SearchFindsFirst | src/proxydhcp.c:46-76 | for every written list of records, whole chunks of them included, and any incomplete record at the end, the search returns the path of the first record of the node |
| NodeConfig.SearchByOffset | src/proxydhcp.c:19-22 | records are 200 bytes with the path behind 50: the search gives the path of the first complete record with the name, if there is one |
| ProxyReply.FindVendorClass | src/proxydhcp.c:219-228 | the pointer loop ends where the specified walk stops, also where it leaves the buffer |
| ProxyReply.WalkFindsFirst | src/proxydhcp.c:219-228 | on any options without pads the walk stays inside them and stops at the first option 60, or at the end if there is none |
| ProxyReply.VendorClassBehindPads | src/proxydhcp.c:221-227 | behind any options without a vendor class and any number of pads, the walk finds the option 60 exactly when that number is even |
| ProxyReply.EvenPadsPassed | src/proxydhcp.c:221-227 | the walk passes all options without a vendor class that have an even number of pads in front, each its own |
| ProxyReply.OnePadUndefined | src/proxydhcp.c:221-232 | in the smallest packet, the same vendor class is answered on its own and missed behind one pad |
| ProxyReply.Serve | src/proxydhcp.c:174-269 | packets that are too short, no request or without the cookie are ignored and left as they were; any other is answered by the specified packet exactly when the walk finds the vendor class with its architecture digits inside the buffer and the texts for it fit their buffers, and meets a null pointer or leaves a buffer otherwise |
| ProxyReply.PadFreeIsAnswered | src/proxydhcp.c:218-238 | on options without pads, the architecture is found exactly when there is a vendor class that starts at least 22 bytes before the end of the buffer, and in one of at least 20 bytes it is the five bytes behind the first fifteen |
| ProxyReply.NoOptionsUndefined | src/proxydhcp.c:218-232 | a request of 320 bytes without options is not answered |
| ProxyReply.DecodeEncode | src/proxydhcp.c:219-228 | reading options by the daemon's type and length rule gives any encoded list back |
| ProxyReply.ReplyDecodes | src/proxydhcp.c:250-268 | for every path that fits, the rebuilt options decode to exactly message type 5, the server address and the NUL-terminated boot configuration path, and end within the first 320 bytes |
| ProxyReply.ReplyFields | src/proxydhcp.c:240-247 | the reply has operation 2, the server address and the NUL-terminated boot file in their fields |
| ProxyReply.ReplyKeeps | src/proxydhcp.c:240-268 | all other bytes, the cookie among them, are those of the request |
| ProxyReply.RequestIsAnswered | src/proxydhcp.c:174-269 | a request of at least 320 bytes as it is received, with pad-free options and a vendor class of at least 20 bytes, is answered exactly when the texts fit; the answer has operation 2, the server address, the path with "Boot/pxeboot.0" for the digits "00000" and "Boot/bootmgfw.efi" for "00007" and no boot file for others, and options 53, 54 and 252 with the path of "Boot/BCD" |
| ProxyReply.AnswerFields | src/proxydhcp.c:230-247 | the fixed fields of any answer, and the parts that are those of the request |
| ProxyReply.AnswerOptions | src/proxydhcp.c:248-268 | the options of any answer |
| Response.CutTail | xCAT-UI/lib/functions.php:115-120 | the printed piece and the kept tail are the text, the piece is empty or ends in ">", the tail has none |
| Response.ReadResponse | xCAT-UI/lib/functions.php:105-138 | the loop returns the normalised chunks in order; in flush mode the printed pieces and the tail always make up the text read so far, otherwise there are none |
| Response.GapRemoved | xCAT-UI/lib/functions.php:110 | a newline and any white space between ">" and "<" go, wherever they stand |
| Response.NormalIff | xCAT-UI/lib/functions.php:110 | no such gap is left, and a text is unchanged exactly when it has none |
| Response.NormalizeIsFromRight | xCAT-UI/lib/functions.php:110 | replacing leftmost matches is the same as deciding character by character from the right |
| Response.ChunksDoNotMatter | xCAT-UI/lib/functions.php:152-153 | normalising every chunk and again the wrapped whole is normalising the wrapped uncut text once, for every way of cutting it |
| Response.ResponseIsWholeTextIff | xCAT-UI/lib/functions.php:108-110 | the response is the normalised text that was sent exactly when no chunk is "0" |
| Response.ZeroIsDropped | xCAT-UI/lib/functions.php:108-110 | it is not for a text cut on both sides of the second digit of 10 |
| Monitor.GangliaMonitor.ExtractLocationData | xCAT-UI/js/monitor/gangliamon.js:243-324 | the parsing loop builds the hierarchy of its entries and forgets the previous one |
| LocationList.NodeIsEntry | xCAT-UI/js/monitor/gangliamon.js:260-321 | the text "name:type:parent" is read as that name under that parent for the seven types in any letter case, as an other node for any other type or without a parent |
| LocationList.ListIsEntries | xCAT-UI/js/monitor/gangliamon.js:256-323 | a text of such nodes is read as their entries in order |
| LocationList.EveryText | xCAT-UI/js/monitor/gangliamon.js:256-262 | every text is the text of such a list |
| LocationList.HashesFromText | xCAT-UI/js/monitor/gangliamon.js:243-324 | blades, rack nodes, CECs and lpars stand below their parents in the order of the list, all other nodes with the others, and there is a key for every parent and every frame |
| Monitor.GangliaMonitor.DrawOverview | xCAT-UI/js/monitor/gangliamon.js:900-939 | the five loops with the used-CEC marks produce the specified rows |
| Monitor.MonitorStatAgg | xCAT-UI/js/monitor/gangliamon.js:986-1002 | three counters are the numbers of nodes with the status text "NORMAL", "WARNING" and "ERROR", the fourth counts all others |
| Monitor.Conservation | xCAT-UI/js/monitor/gangliamon.js:892-950 | every column total of the table is the total over the listed lpars, blades, rack nodes and others if every CEC that is the parent of an lpar has one entry at most, and the number of nodes is right exactly then |
| Monitor.CecBelowTwoFrames | xCAT-UI/js/monitor/gangliamon.js:895-905 | the one lpar of a CEC below two frames is not counted once |
| Monitor.UniqueNamesConserve | xCAT-UI/js/monitor/gangliamon.js:243-324 | with unique names that holds for every list |
| Monitor.FrameIsSumOfCecs | xCAT-UI/js/monitor/gangliamon.js:940-979 | the drill-down has one row for every CEC of the frame in order, and the frame's row equals their sum in every column |
| Monitor.TableFromList | xCAT-UI/js/monitor/gangliamon.js:892-939 | for any list, type and name, the table has one such row exactly when the list makes one, and in every column that row adds up the entries of the list that belong to it: for a frame the lpars below the CECs that are listed below it |
| LocationList.TableFromText | xCAT-UI/js/monitor/gangliamon.js:243-939 | the same from the text of any list |
| LocationList.TableOrder | xCAT-UI/js/monitor/gangliamon.js:892-939 | the rows come as frames, CECs that are not listed below a frame, blade centers, racks and others, each type in the order in which its names come up in the list |
| Monitor.OrderDoesNotMatter | xCAT-UI/js/monitor/gangliamon.js:243-324 | reordering the list leaves the same rows in the table, frames, CECs, blades, racks and others, each with the same count in every column |

## Left out

- LogReader.Reader: the base class and the `_get_next` of its two subclasses are one class with the loop body as a parameter; the file is single-byte text without carriage returns that does not change while it is read.
- Analysis.Process: printing is a list of rows; the rounding to three digits, the CSV text and the floating-point error of the sums are not modelled, and elapsed times are real numbers.
- XcatLogs.TraceLineReads: the decoded message is a record of the fields that the script reads, each of them a text or absent; a message of another shape is not modelled.
- NodeRange.ExpandNR: numbers are exact beyond 2 to the 53rd, texts that are neither digits nor empty count as not a number (hexadecimal, fractions, exponents and blanks are not converted, nor is an upper bound "Infinity", on which the loop never ends), and the range is one line of text.
- IpRange.CalcEndIp: the count is a number that is not negative.
- TabRestore.SaveThenLoadIff: cells have no ampersand, which the XML library would take for an entity; the header line and the table name are plain joins.
- TabRestore.RowArrives: cells have no ampersand, as above.
- RowMerge.CutRow: takes rows on which the loop ends; RowEnds says which ones these are.
- ProxyReply.Serve: the host lookup and the receiving interface are parameters.
- NodeConfig.Config.LoadCfg: allocation succeeds and the buffer is a sequence, not memory that is freed and grown.
- LogStats.StatisticsOfLogs: the dates of the processed commands parse and their elapsed times are above -2 seconds, so that no window ends before it starts; all lines of the cluster log decode.
- Reload.NoLostReload: statements of `loadcfg` that share nothing with the handler are one step.
- Wizard.DiscoverWizard.ClickNext: what a check finds is an input; page contents, the input names and the requests that checks send are not modelled.
- Monitor.GangliaMonitor.DrawOverview: integer-like keys, which JavaScript enumerates first, keep their place in the list here; names are not those of inherited object properties.
- The XOR password codec: one operation undone by itself, around a library call.
- The end-of-transaction patterns, XML parsing and HTML output of `submit_request`.
- All page drawing, Ajax calls, sockets, cookies and timers.
