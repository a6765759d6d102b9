# LibSDB: text driver, proxy protocol and connection table

A Dafny model of the three parts of LibSDB that keep state of their own, with proofs of what they do.
`dafny verify dfyconfig.toml` checks the whole project.

## The text driver (`text_driver.c`)

Statements are strings, tables are flat files, and UPDATE and DELETE rewrite a file through a temporary one.
The model keeps the scanning loops as methods (`TextLexer`, `TextStatements`, `TextConstraint`, `TextHeader`),
a stream with a position and an end-of-file flag and a disk of named texts (`TextStream`), and the four statement
branches as methods on that disk (`TextDriver`). Each loop is proved against a description of its result, the
branches against what they do to the file texts, and file texts against tables (`TextTable`, `TextRefinement`).

`TextRefinement.Apply` is the exact effect of a statement on a table. `TextRuns.Intended` says, without it, what the
statement is meant to do, and the two are not always the same: the copy-back loop tests `feof` before it reads, so
when the temporary file is empty or ends in a newline it writes its stale buffer once more. UPDATE or DELETE on an empty table turns the header into a row;
DELETE of the last row doubles the last kept row, or brings the deleted last row back when no row is kept.
`TextRuns.GuardIsExact` and `TextRuns.FileIsIntendedUnderGuard` say exactly when this happens: never for SELECT and
INSERT, for UPDATE exactly on an empty table, for DELETE exactly when there is no last row that stays. Return codes
and callback rows are the intended ones in every case. Rows may have any number of fields, so an INSERT need not
give one value per column; the driver pads or cuts a row whenever it reads it.

What a constraint selects is stated on values alone, in dictionary order (`TextTable.ConstraintMeans`), and
`TextExamples` follows one query of each kind from text to file, character by character.

A keyword anywhere in the query selects the branch. `TextStatements.PrintThenParse` gives the exact consequence:
a printed statement is parsed back if and only if no earlier-tested keyword occurs in it, and is rejected otherwise.

`README.text` shows an example file without saying how it ends. `TextRefinement.TrailingNewlineIsSeen` states what
a newline at the end does: SELECT sees one empty row more, UPDATE and DELETE see the last line twice.

## The proxy protocol (`sdbd.c`, `sdbd_driver.c`)

`Wire` is the reply encoding and a byte-by-byte decoder, `Channels` the socket loops over channels that move
any number of bytes at a time, `Session` the client and the server as two processes with every interleaving of
their steps, and `Proxy` chains of proxies. The `README` describes the end of a reply as the number 0; the code
sends two bytes, the digit and a NUL, and the NUL is what ends the number for the client. In a persistent session
the server opens a connection but answers every query by url, not by the handle; the model does the same. No return
code crosses the wire, so a query that fails behind a proxy looks like one without rows (`Proxy.FailureIsHidden`).

## The connection table (`sdb.c`, `common.c`)

`Connections` keeps the driver table and the 100 slots in a class and logs which connections the drivers' open and
close functions make and end. `UrlValue` and `Common` are the parameter lookup and the comparisons it rests on.
The number of the call of sdb_open tells connections apart even when a driver returns the same pointer again.
The table leaks a connection that is opened while it is full, and closes a connection again when a closed handle
is closed. `Connections.AcquiredIsReleased` says that these two are all: every connection is released exactly once
if and only if neither of them happens anywhere in the run.

## Model

| member | source | states |
|---|---|---|
| TextLexer.Cherche | text_driver.c:55-79 | the text behind the leading keyword and one blank, and NULL exactly when the text does not start with them |
| TextLexer.GetValeurs | text_driver.c:125-154 | for every separator: splitting the blank-free text, cut or padded with empty strings to the requested count |
| TextLexer.SpacedFields | text_driver.c:125-154 | a list written with any blanks around its pieces has those pieces as fields, cut or filled up with "" |
| TextLexer.NbreChamps | text_driver.c:163-181 | the number of comma-separated pieces, at which splitting neither pads nor cuts |
| TextLexer.Enleve | text_driver.c:193-222 | the text up to the next quote of the kind that opens it; NULL without an opening or closing quote |
| TextLexer.UnquoteMeans | text_driver.c:193-222 | a value comes out if and only if it stands between two quotes of a kind it does not hold, at the front of the text |
| TextLexer.EnlevePar | text_driver.c:234-259 | the text between the parentheses after any blanks; NULL when one is missing |
| TextStatements.CutIsAvantThenCherche | text_driver.c:86-101 | avant followed by cherche always succeeds and splits the text around the first keyword between blanks |
| TextStatements.TraitSelect | text_driver.c:271-321 | the select parser computes the parse that printing is inverse to |
| TextStatements.TraitUpdate | text_driver.c:333-397 | the update parser does, with an error when some value is not quoted |
| TextStatements.SepareAffectations | text_driver.c:388-394 | all names and unquoted values of the assignments, or an error exactly when some value is not quoted |
| TextStatements.UpdateNeedsQuotes | text_driver.c:388-394 | an update is parsed if and only if every value starts with a quoted text; otherwise every branch rejects the query |
| TextStatements.TableNameCut | text_driver.c:303-318 | blanks around a table name and everything behind a comma are ignored |
| TextStatements.TraitInsert | text_driver.c:409-449 | the insert parser does |
| TextStatements.TraitDelete | text_driver.c:461-499 | the delete parser does |
| TextStatements.SelectRoundTrip | text_driver.c:271-321 | parsing a printed select gives back columns, table and constraint |
| TextStatements.UpdateRoundTrip | text_driver.c:333-397 | parsing a printed update gives back table, assignments and constraint |
| TextStatements.InsertRoundTrip | text_driver.c:409-449 | parsing a printed insert gives back table and values |
| TextStatements.DeleteRoundTrip | text_driver.c:461-499 | parsing a printed delete gives back table and constraint |
| TextStatements.PrintThenParse | text_driver.c:840-1027 | dispatch and parsing undo printing if and only if no earlier-tested keyword occurs in the statement; otherwise the query is rejected |
| TextConstraint.Recupere1 | text_driver.c:562-579 | the left side of a constraint |
| TextConstraint.Recupere2 | text_driver.c:588-606 | the operator of a constraint |
| TextConstraint.Recupere3 | text_driver.c:615-636 | the right side of a constraint |
| TextConstraint.ConstraintRoundTrip | text_driver.c:562-636 | the three extractors agree on where the operator lies, whatever blanks stand around the parts |
| TextConstraint.VerifContrainte | text_driver.c:647-718 | the two searching loops and ten tests amount to one comparison: last column of the name, column before literal, -1 for unknown columns and bad literals |
| TextConstraint.EvalLocal | text_driver.c:665-718 | the outcome depends only on the columns that the constraint names |
| TextConstraint.OperatorsPartition | text_driver.c:684-714 | exactly one of "<", "=", ">" holds, and "<=", ">=" are the unions |
| TextConstraint.OperatorsMirror | text_driver.c:699-714 | comparing two columns the other way round swaps "<" and ">", and "=" is equality of the values |
| TextConstraint.OperatorsChain | text_driver.c:699-714 | comparing columns is transitive: "<=" and "<=" give "<=", and "<" when either was strict |
| TextHeader.NbreEntete | text_driver.c:728-745 | the number of separators |
| TextHeader.TraitEntete | text_driver.c:753-806 | names and separator of a header, or which of the two ways it fails |
| TextHeader.HeaderRoundTrip | text_driver.c:965-967 | parsing the header that the rewrite loop prints gives back names and separator, and the count is their number |
| TextHeader.AcceptedHeaderReprints | text_driver.c:780-803 | every accepted header is reproduced byte for byte when it is rewritten |
| TextHeader.AcceptedAreHeaders | text_driver.c:753-806 | a header is accepted if and only if it is `{name}` and separator repeated, and its names and separator are the only ones |
| TextStream.Stream.Fscanf | text_driver.c:853 | one word per call; the flag is raised exactly when the call meets the end; without a word the buffer stays |
| TextStream.ReadWordMeans | text_driver.c:853 | the six white-space characters are skipped and end the word; of white space alone nothing is taken |
| TextStream.ReadsStep | text_driver.c:969-972 | the whole-file description of the read loops is what one read after the other gives |
| TextStream.ReadsPrefixed | text_driver.c:872-887 | a canonical table file is read line by line, nothing added and nothing lost |
| TextStream.ReadsTemporary | text_driver.c:969-972 | a temporary file is read exactly without a last newline; with one, the last line or the stale buffer comes once more |
| TextDriver.NumChamps | text_driver.c:536-553 | the last position of each name, or -1 |
| TextDriver.GetResult | text_driver.c:515-527 | the wanted columns in the wanted order |
| TextDriver.Modifie | text_driver.c:923-935 | the nested loops leave in each column the value of the last assignment to it, or the old value |
| TextDriver.CopyBack | text_driver.c:969-972 | the loop appends every buffer seen in the temporary file, the stale one included |
| TextDriver.ExecSelect | text_driver.c:847-889 | the SELECT branch calls back with the projections of the matching rows, in order, and counts them |
| TextDriver.UpdateRows | text_driver.c:919-955 | the first pass of UPDATE leaves the updated lines in the temporary file, no newline behind the last, and counts the matches |
| TextDriver.ExecUpdate | text_driver.c:902-977 | return code and complete file contents after UPDATE, the error exits with the temporary file left behind included |
| TextDriver.ExecInsert | text_driver.c:989-1020 | return code and complete file contents after INSERT |
| TextDriver.DeleteRows | text_driver.c:1048-1066 | the first pass of DELETE leaves the rows that do not match, a last newline exactly when the last row read was deleted |
| TextDriver.ExecDelete | text_driver.c:1031-1089 | return code and complete file contents after DELETE |
| TextDriver.Execute | text_driver.c:814-1093 | the driver on any defined query and any readable files |
| TextTable.FilterConserves | text_driver.c:1048-1060 | the rows are the order-preserving merge of the matching and the other rows |
| TextTable.CountsPartition | text_driver.c:872-881 | the rows for "<", "=" and ">" partition any list of rows; those for "<=" and ">=" are the order-preserving merges of the right pairs, and what ">" and "<" leave |
| TextTable.ConstraintMeans | text_driver.c:684-714 | in terms of values alone: a row is selected if and only if the column's last value stands before, at or behind the other value in dictionary order as the operator says, a column going before a literal |
| TextTable.BadConstraintSelectsNothing | text_driver.c:674-683 | an unknown left column, or a right side neither column nor quoted, selects no row |
| TextTable.AssignAllIdempotent | text_driver.c:919-955 | assigning twice is assigning once when the constraint names no assigned column |
| TextRefinement.CanonRead | text_driver.c:853-875 | a canonical file is read as its header and its lines |
| TextRefinement.RowRoundTrip | text_driver.c:936-938 | a printed row is one word and splits into the row cut or padded to the column count |
| TextRefinement.ApplyValid | text_driver.c:936-972 | whatever statement is applied, a printable table stays printable |
| TextRefinement.UpdateFile | text_driver.c:919-972 | both passes of UPDATE turn the file of a table into the file of the updated table, or of the header taken for a row |
| TextRefinement.DeleteFile | text_driver.c:1048-1083 | both passes of DELETE turn the file of a table into the file of the kept rows, with the exact stale row |
| TextRefinement.StatementRefines | text_driver.c:840-1093 | one statement on a canonical file: code, callback rows and file are those of the table, other files stay |
| TextRefinement.TrailingNewlineIsSeen | text_driver.c:872-875 | a newline at the end of the file adds an empty row for SELECT and the last line again for UPDATE and DELETE |
| TextRuns.GuardIsExact | text_driver.c:969-972 | against effects stated without the driver: code and callback rows are always the intended ones; the table is, if and only if it has a row (UPDATE) or a last row that stays (DELETE); otherwise exactly one stale row is added |
| TextRuns.FileIsIntendedUnderGuard | text_driver.c:1080-1083 | the same on the disk: the file is that of the intended table exactly under the guard |
| TextRuns.DeleteConserves | text_driver.c:1048-1089 | returned count plus rows after is rows before, plus one exactly when the guard fails |
| TextRuns.DeleteIsFinal | text_driver.c:1026-1089 | after a proper DELETE a SELECT with its constraint returns 0 and deleting again changes nothing |
| TextRuns.UpdateIsIdempotent | text_driver.c:895-977 | repeating an UPDATE whose constraint names no assigned column gives the same count and table |
| TextRuns.UpdateEffect | text_driver.c:919-955 | on the disk: the code is the number of matching rows, and a following "select *" shows number and order of rows kept, other rows as they were, and in matching rows exactly the named columns with the last value given |
| TextRuns.SelectStar | text_driver.c:847-889 | "select *" on a canonical file returns every row, with the last column of each name, and writes no file |
| TextRuns.InsertEffect | text_driver.c:989-1020 | on the disk: a following "select *" shows the old rows and behind them one row with the values between the quotes, cut or padded |
| TextRuns.NoTableFails | text_driver.c:847-862 | no file, or a file that does not start with a header: -1, no rows, and no file changes but the temporary one of UPDATE and DELETE |
| TextRuns.SelectPartition | text_driver.c:872-889 | on statements: the return codes for "<", "=", ">" add up to the number of rows, and "<=" and ">=" return exactly the order-preserving merges of the rows that the pairs return |
| TextRuns.QueryRefines | text_driver.c:814-1093 | one printed query on files that store a database, among any other files: the reply is the database's, the files store the new database, and all other files stay |
| TextRuns.RunRefines | text_driver.c:814-1093 | any sequence of statements: all replies and the final files are those of the database, and all other files stay |
| TextRuns.GuardedRunIsIntended | text_driver.c:814-1093 | when every statement meets its guard the whole run replies and stores what was intended, and all other files stay |
| TextExamples.SelectAtInput | text_driver.c:840-889 | a file and a query character by character: code, row and file |
| TextExamples.UpdateAtInput | text_driver.c:895-977 | the same for an update |
| TextExamples.InsertAtInput | text_driver.c:983-1020 | the same for an insert |
| TextExamples.DeleteAtInput | text_driver.c:1026-1089 | the stale row at an input: deleting the last of two rows leaves the first one twice |
| Decimal.ValueOfDec | sdbd_driver.c:85-98 | reading a printed number gives the number |
| Decimal.DecIsWritten | sdbd.c:72-80 | the digits of a printed number, as characters |
| Wire.DecodeColumn | sdbd_driver.c:266-277 | a column of any content is taken whole and only it |
| Wire.ReplyRoundTrip | sdbd.c:66-105 | decoding a reply followed by anything gives the rows sent, cell by cell, NULL as "" and rows without columns left out, and leaves the rest |
| Wire.CellsArrive | sdbd.c:72-83 | stated on cells: rows with columns arrive one by one, a value as it is and NULL as "" |
| Wire.ReplyLooks | sdbd.c:66-105 | a reply character by character: counts, sizes, values, and the end |
| Wire.ReplyIsPrefixFree | sdbd_driver.c:259-282 | no proper beginning of a reply is a whole reply |
| Channels.ReadData | sdbd_driver.c:38-48 | exactly the next n bytes, however the transport cuts them |
| Channels.WriteData | sdbd.c:34-41 | exactly the first n bytes are appended, however the transport cuts them |
| Channels.ReadNo | sdbd_driver.c:85-98 | the value of the digits, and the byte behind them is taken as well |
| Channels.DecodeReply | sdbd_driver.c:257-285 | rows, count and bytes left over are those of the byte-by-byte decoder |
| Channels.ReadColumns | sdbd_driver.c:266-277 | the loop over the columns of one row, through the cleared 4096-byte buffer |
| Channels.DbCallback | sdbd.c:66-85 | the encoding of one row is appended |
| Channels.SendReply | sdbd.c:98-104 | the encoding of all rows and the two-byte end marker are appended |
| Channels.Chomp | sdbd.c:55-64 | the text in the buffer ends in front of its first carriage return or newline |
| Session.StepKeepsInv | sdbd.c:87-139 | every step of client, server or transport keeps the session invariant |
| Session.SessionSafety | sdbd_driver.c:176-213 | in every reachable state the server's channel holds at most one message, the queries read are those sent, under the client's url, both channels are empty when the client may send, and every answer shows what the database said to its query |
| Session.NoDeadlock | sdbd.c:107-139 | until the client has closed or has all answers the server gives, some step is possible, whatever the codes |
| Session.StepsGetSmaller | sdbd_driver.c:257-282 | every step makes a measure of queries, phases and bytes smaller |
| Session.EveryRunEnds | sdbd_driver.c:176-286 | no run goes on for ever: every sequence of states and moves comes to a move that is not possible |
| Session.StuckMeansDone | sdbd_driver.c:235-286 | a run that cannot go on has delivered the answers of all queries up to and including the first whose code is -1, one answer on a short-lived connection, none when the server refused to open; each shows what the database said to its query |
| Session.ServedToFirstEnd | sdbd.c:133-137 | on return codes alone: the queries answered are all, or end with the first whose code is -1; one on a short-lived connection; none after a refusal |
| Proxy.AddressHasNoKey | sdbd_driver.c:115-129 | the first ":url=" is the one behind host and port, whatever the inner url contains |
| Proxy.OneHop | sdbd_driver.c:155-170 | one layer is stripped, the inner url is queried at the address, the answer is encoded and decoded |
| Proxy.ChainIsTransparent | sdb.c:133-170 | through any number of layers the driver of the innermost scheme is called with what follows the scheme, and the caller gets its rows that have columns cell by cell, NULL as ""; the code becomes their number, so the inner code comes through if and only if it is that number |
| Proxy.NativeQuery | sdb.c:160-169 | at its own address a url calls the first driver with the name of its scheme, with what follows the colon |
| Proxy.ChainIsOneQuery | sdb.c:133-170 | the same for any innermost url: a chain is the query at its last address |
| Proxy.FailsAtOnce | sdbd_driver.c:113-152 | -1 and no rows without a driver, without address and inner url, or when nothing answers |
| Proxy.FailureIsHidden | sdbd.c:98-104 | behind a proxy a failure becomes an empty answer with code 0 |
| Proxy.WrapLooks | sdbd_driver.c:113-129 | the url of one hop, character by character |
| Proxy.HopIsOneSession | sdbd_driver.c:235-286 | a session that cannot go on, in any interleaving and with any return code, has delivered the rows that the hop passes on |
| Common.StrCaseCmp | common.c:65-74 | zero if and only if the texts agree letter by letter up to the 26 pairs of letters; otherwise the sign is that of the first place where they differ |
| Common.StrNCaseCmp | common.c:76-87 | the same on the first n characters of both texts |
| UrlValue.SdbUrlValue | sdb.c:63-87 | for any key the value that scanning from segment to segment finds; for a key without colons the value of the first segment between colons that has it, letter case ignored |
| UrlValue.ScanFindsFirst | sdb.c:71-86 | for any key: the value, up to the next colon, at the first place at the front or behind a colon where the key is assigned, and NULL exactly when there is none |
| UrlValue.PrintedListLookup | sdb.c:63-87 | every value of a printed list with distinct keys is found under its key in any letter case |
| UrlValue.LookupNone | sdb.c:86 | no value is found exactly when no segment has the key |
| Connections.Library.Lookup | sdb.c:104-125 | the first driver whose name is the scheme, letter case ignored |
| Connections.SchemeInAnyCase | sdb.c:104-170 | in any mixture of cases a url is resolved to the first driver with the name of its scheme, which gets what follows the first colon |
| Connections.CapitalsFindDriver | common.c:65-74 | the same at an input: "TEXT:" calls the driver "text" |
| Connections.Library.Open | sdb.c:172-200 | complete effect of sdb_open, the connection lost on a full table included |
| Connections.Library.Close | sdb.c:202-220 | complete effect of sdb_close, on slots that are not open too |
| Connections.CloseCodes | sdb.c:202-220 | -1 and no change for a text with a colon, without leading digit or with the number of no slot; else, whatever follows the number, the driver's result, or 0 without connection or close function |
| Connections.Library.Query | sdb.c:133-170 | which driver is called with which connection and parameters |
| Connections.Library.Exit | sdb.c:222-233 | closing the open slots one after the other |
| Connections.StepKeepsInv | sdb.c:172-220 | a slot has a url exactly when it has an index, and the index is the decimal text of its number |
| Connections.HandlesAreDistinct | sdb.c:194-199 | in every reachable state two open slots have different handles |
| Connections.OpenTakesLeastSlot | sdb.c:187-199 | the handle is the number of the least free slot; there is none exactly when no slot is free |
| Connections.HandleResolves | sdb.c:145-158 | a colon-free text is accepted exactly when it is the decimal number of an open slot |
| Connections.HandleStandsForUrl | sdb.c:133-200 | while a handle is not closed, querying it calls the same driver with the same parameters as its url, whatever else is opened and closed |
| Connections.AcquiredIsReleased | sdb.c:172-233 | for any calls and exit: every connection is released exactly as often as it was acquired, that is once, if and only if no call made one on a full table and no call closed one again; acquired plus closed-again is released plus leaked in any case |
| Connections.LeakIsNeverReleased | sdb.c:172-193 | a connection made on a full table is acquired once, and no later calls nor exit release it |
| Connections.OpenOnFullTableLeaks | sdb.c:187-193 | the leak at an input: the 101st connection opened at once gets no handle and is never released, whatever is called later and by exit |
| Connections.ProperRunClosesAll | sdb.c:202-233 | with only open handles closed and no open on a full table every connection is closed exactly once by its driver and no slot stays open |
| Connections.ClosingTwiceReleasesTwice | sdb.c:211-212 | closing a handle twice hands its connection to the driver twice |

## Left out

- Sockets, fork, signals, name lookup, option parsing, debug output and the command-line clients: operating-system plumbing; channels and an address predicate stand for them.
- The other drivers: wrappers over libraries that are not part of the repository; a driver is a function from parameters and query to rows and a code.
- Heap and buffer sizes of the text driver: strings are sequences, so the model is about runs in which its allocations are large enough (several are smaller than their contents).
- Queries that make the text driver run past a string or follow a null pointer: a query that is a keyword and nothing more, an insert without a parenthesised list, a constraint without an operator, unknown columns in a select, unquoted insert values. `TextStatements.ParseDefined` and `TextDriver.ExecDefined` name them.
- Headers that end at their first closing brace, headers on which the parser calls exit, headers whose names contain the separator, and table files without any word: the driver then leaves its arrays, its buffer or the process, or parses a buffer it never filled.
- TextHeader.TraitEntete: a header that does not start with a brace is counted with a separator that was never set; the model gives the -1 that the driver then returns, and leaves out that the count runs past the text if the unset value is NUL.
- A table file with the name of the temporary file, NUL bytes in queries and files, and failures to create or reopen a file for writing.
- Session: end of file, dropped connections and messages of the client that arrive in pieces; a client message arrives whole, as the single reads of the server need, and url and query stay below the 1024 and 4096 bytes of its buffers.
- Proxy.ChainIsTransparent: the handles of the servers are left out, so a colon-free url inside a chain gives -1; all urls sent stay below 1024 bytes, as the server's buffer needs.
- Connections: the 20 places of the driver table and the initialisation order of the drivers; what an open function returns is a parameter of the call. `UrlValue.SdbUrlValue`: values are not limited to the 1024 bytes of the C buffer.
- Decimal.ValueOfDec: numbers are not bounded by the width of a C int; column widths are at most 4095 where the protocol uses them.
- sdb_chomp, sdb_integer and the allocation wrappers of common.c: the three modelled parts use none of the first two, and allocation never fails in the model.
