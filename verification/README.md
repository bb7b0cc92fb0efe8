# DbSaci, modelled and proved in Dafny

DbSaci speaks Oracle's TNS/TTC protocol to the client and runs the statements on
PostgreSQL or MariaDB. This project models the parts of it that carry state or
arithmetic and proves what they promise:

- **Transactions, savepoints and cursors** (`Postgres.dfy`, `Backend.dfy`,
  `Registry.dfy`, `StatementLog.dfy`, `Session.dfy`, `Accounting.dfy`, `OracleTransactions.dfy`,
  `SavepointSurvival.dfy`, `BrokenFetches.dfy`, `Streaming.dfy`). PostgreSQL is a
  committed database, a working database, a stack of named snapshots in which a name may be shadowed, and a status. The
  backend's command sequences, the streamed cursors, the statement registry and
  the session's cursor map are classes over it, each method proved equal to a
  closed form. On these forms: the exact condition under which every open cursor
  keeps exactly one wrapper savepoint, over every run; the exact condition under
  which a run is, in state and replies, that of an Oracle session that has no
  wrapper savepoints at all; what a client savepoint outlasts; what a fetch
  that breaks off undoes, told from the history of any session; and which statement a
  frame means, told from a log of those executed.
- **NUMBER and the other value codecs** (`OracleNumber.dfy`, `NumberDecoding.dfy`,
  `IntegerNumber.dfy`, `NumberOrder.dfy`, `NumberMeaning.dfy`, `DecimalNotation.dfy`,
  `PgNumeric.dfy`, `Floats.dfy`, `Intervals.dfy`). The notation that is accepted, the
  number that bytes denote, round trips, injectivity, the order of the encoded bytes
  with its one exception, and the whole way from PostgreSQL's base-10000 groups to
  NUMBER bytes and back, measured against real-number values.
- **Bind rewriting** (`Binds.dfy`, `Placeholders.dfy`, `Lexing.dfy`, `MariaDbValues.dfy`,
  `MariaDbBinds.dfy`, `MariaDbLexing.dfy`, `MariaDbRoutes.dfy`, `Substitution.dfy`).
  Which bind a placeholder means, and what quotes, comments, words and casts are, told
  without the lexers. Both lexers and both rewriters against one resolved statement:
  writing what the values sent stand for into the emitted text gives the interpolated
  text, and the two routes to MariaDB are compared exactly.
- **Framing** (`Buffer.dfy`, `Tns.dfy`, `AuthLists.dfy`). Compact integers, chunked
  fields, TNS headers, OCI packet splitting, and the two key/value lists of
  authentication.
- **The backtracking matcher** of the corpus tests (`Regex.dfy`), its parser exact for
  a grammar of spellings, its search sound and complete for a denotational semantics.

Integers are unbounded in the model; Rust's truncating division, the `i32` and
`u8` wrap-arounds and the `as` casts are written out where they matter
(`Common.dfy`). Exceptions and error returns are `Result` values.

## Assumptions of the session theorems

`OracleTransactions.Assumed` states what a client keeps to: DDL, savepoint commands and
COMMIT or ROLLBACK sent as statement text come only while no cursor is open (a COMMIT or
ROLLBACK call of the protocol may come at any time); a savepoint is never named
`dbsaci_statement`, and one that is rolled back to is live in Oracle's sense; RELEASE
SAVEPOINT, which Oracle does not have, is not sent; and a fetch that breaks off finds
nothing written since the innermost wrapper was set. Binds need not have a PostgreSQL form:
the wrapper that is left behind when they do not lies beneath those of the cursors, or among
the client's savepoints, where Oracle's side does not see it. A request keeps the relation
`OracleTransactions.Refines` and gives Oracle's reply if and only if it is an assumed one
(`OracleTransactions.RequestRefines`), and so for every run (`OracleTransactions.RunFollows`).

The balance of wrappers has a condition of its own, `SavepointAccounting.Harmless`, in which
binds do have to convert. `SavepointSurvival` and `BrokenFetches` assume neither: they hold
of every run that spares the savepoint, and of every run whatever.

## Where the code is not what one might expect

- A negative NUMBER gets the terminator 102 only while the encoding is shorter
  than 21 bytes including the exponent, so negatives of 20 pairs go without it
  as well as those of 21. Byte order is wrong exactly for a 20-pair negative that a
  21-pair one continues (`NumberOrder.EncodingOrder`); every negative of 39 digits
  with an odd point has such a continuation (`NumberOrder.ContinuedNegativesClash`).
- The small negatives -127 to -1 do not survive `write_sb2` and `read_sb2`
  (`TtcFields.TakePutSb2`).
- `encode_oracle_number_i64` keeps zero pairs that the decimal encoder trims,
  exactly for nonzero multiples of one hundred.
- Large-mode readers take a large frame whose length is a multiple of 65536, from
  524288 on, for a legacy one (`Tns.LargeModeReadsLargeFrames`).
- `begin_statement` precedes the conversion of binds, so an inconvertible bind
  leaves a wrapper savepoint behind (`SavepointAccounting.QueryBalances`). A client
  that keeps to the assumptions above notices only if a later fetch breaks and rolls back to it, or if one of its own
  savepoints bears the wrapper's name (`OracleTransactions.ReservedNameIsHidden`).
- PostgreSQL keeps an older savepoint of the same name, which Oracle does not; rolling back
  beneath the newer one brings it back (`OracleTransactions.HiddenSavepointComesBack`).
  ROLLBACK TO is Oracle's exactly if no cursor is open and the name is live in Oracle's
  sense (`OracleTransactions.RollbackToRefines`).
- A broken fetch rolls back to the innermost wrapper savepoint left, whichever cursor it
  or failed statement it was set for, and loses everything written since the request that
  set it
  (`BrokenFetches.BreakUndoesSince`); finishing one cursor takes the wrapper of a later one,
  so that this can be work from before the broken cursor was opened
  (`BrokenFetches.BrokenFetchLosesWork`).
- A colon before a word character always starts a placeholder: the lexers' look for a
  second colon never decides, so in `::name` that second colon starts one
  (`BindSyntax.PlaceholdersAreColonWords`, `BindSyntax.CastNamesAreBound`).
- MariaDB's native `?` text is told from PostgreSQL's by its bytes alone: with a dollar
  and a digit anywhere, even in a literal, as in `SELECT '$5', :a FROM dual`, it is not
  taken for native, its markers are copied and every value is dropped
  (`MariaDbRoutes.ValuesAreDropped`, `MariaDbRoutes.DollarInLiteral`).
- PostgreSQL's infinities, like its NaN, are read as "0" (`PgNumeric.NoGroupsReadAsZero`).
- An empty key in the thin authentication list does not read back: the value's length is
  taken for its text, or the bytes after the pair for its value
  (`AuthLists.PairReadsBackIffKeyed`).
- In the corpus matcher the anchor of a pattern whose last character is an
  escaped backslash is lost: the parser takes it for an escaped dollar
  (`RegexLite.ParseInvertsPrint`). `is_match` is complete even with an
  end anchor, because the first end `match_seq` finds is the longest.

## Model

| member | source | states |
|---|---|---|
| Postgres.Innermost | src/backend.rs:942-947 | a savepoint name means the last one set under it: everything above carries another name |
| Postgres.Client.BatchExecute | src/backend.rs:756-775 | a string of commands stops at the first failure, with the state that one left |
| Postgres.Client.Execute | src/backend.rs:809-832 | a prepared statement outside a batch: its effect and row count, or an aborted transaction |
| Postgres.Client.QueryRaw | src/backend.rs:615-664 | a query's stream is what the query makes of the working database |
| Backend.WrapperComesOff | src/backend.rs:916-968 | releasing the wrapper just set keeps the work and the older savepoints; rolling back to it restores state and savepoint stack exactly |
| Backend.BrokenWrapper | src/backend.rs:235-240 | a stream that breaks aborts its transaction, from which recovery restores working database and savepoint stack exactly as before the query, whatever it had done |
| Backend.PostgresBackend.BeginStatement | src/backend.rs:916-940 | one savepoint of the wrapper's name is pushed, or the call fails |
| Backend.PostgresBackend.FinishStatement | src/backend.rs:942-947 | the innermost wrapper and all above it are released |
| Backend.PostgresBackend.RecoverStatementError | src/backend.rs:949-968 | roll back to the innermost wrapper, then release it |
| Backend.PostgresBackend.ExecuteSimple | src/backend.rs:756-832 | every statement text: commit and rollback reopen the transaction, savepoint commands bypass the wrapper, and a failed DML leaves the server exactly as it was |
| Backend.PostgresBackend.ExecuteWrapped | src/backend.rs:809-832 | savepoint, run, release or recover amount to the statement alone; an inconvertible bind leaves the wrapper |
| Backend.PostgresBackend.ExecuteDdl | src/backend.rs:869-914 | earlier work is committed before the DDL and stays so; the DDL is committed or leaves nothing |
| Backend.PostgresBackend.OpenCursor | src/backend.rs:590-674 | an opened query keeps one wrapper; a query that fails to open leaves the server as it was |
| Backend.RowCursor.NextBatch | src/backend.rs:213-248 | a batch is full, or the last and short with the wrapper released, or broken with the innermost wrapper rolled back |
| Backend.RowCursor.Finish | src/backend.rs:252-258 | the wrapper is released once and only once |
| Backend.RowCursor.BreakOff | src/backend.rs:235-240 | a broken cursor is exhausted and holds no savepoint |
| Backend.PulledFrom | src/backend.rs:213-248 | a batch after m rows is the slice of the whole stream from m on, in each of the three outcomes |
| Backend.PostgresBackend.ExecuteReturning | src/backend.rs:838-864 | the exact row count and the exact transpose of the rows, or nothing done |
| Backend.PostgresBackend.Drain | src/backend.rs:848-863 | batches of 4096 add up to the whole stream, the last one detected whether short or empty |
| Backend.PostgresBackend.DrainBatch | src/backend.rs:848-861 | one turn of the RETURNING loop keeps the columns the transpose of the rows so far |
| Backend.PushRow | src/backend.rs:853-857 | each value of a row goes to the end of its own column |
| Backend.PushRows | src/backend.rs:852-858 | a batch of rows extends the transpose by that batch |
| Backend.ReturningIsDml | src/backend.rs:838-864 | a RETURNING statement does to the server what one DML statement does, so session theorems about DML carry over |
| Backend.ReturningHoldsValues | src/backend.rs:838-864 | RETURNING succeeds exactly if every row arrives, and then each column holds the rows' values in order |
| Backend.AbortedRefuses | src/backend.rs:756-832 | in an aborted transaction everything fails and changes nothing, but its end and a rollback to a savepoint that is there |
| CursorRegistry.SessionRegistry.Prepare | src/server.rs:1036-1213 | which statement a frame means, and the maps, current id and next id after it is noted |
| CursorRegistry.IdsCountUp | src/server.rs:981-985 | the ids handed out, up to the wrap of the 16-bit counter past 0, 1 and 2 |
| CursorRegistry.RunHolds | src/server.rs:1183-1213 | after any run the k-th distinct text has the k-th id, and while ids last the reverse map is the inverse |
| CursorRegistry.IdsAreInjective | src/server.rs:1190-1203 | ids are injective if and only if at most 65533 (OCI) or 65534 distinct texts were executed |
| CursorRegistry.IdsAreStable | src/server.rs:1190-1203 | a text keeps its id for the rest of the session |
| CursorRegistry.NamedIdFindsItsText | src/server.rs:1089-1113 | a frame naming the id a statement was answered with resolves to that statement ever after |
| StatementLog.RegistryKeepsLog | src/server.rs:1036-1213 | after any run the maps, the last statement and the current id are what a log of executions says |
| StatementLog.FramesMeanWhatTheLogSays | src/server.rs:1036-1150 | a frame without text means the statement it names, in OCI else the last with its sequence byte, else the last executed, and its own types win |
| StatementLog.CurrentIdIsTheTexts | src/server.rs:1183-1213 | a statement run or run again is answered under the id its text was first given |
| StatementLog.ReexecutionKeepsOthers | src/server.rs:1183-1189 | running a query again answers under its own id and leaves every other open cursor as it is |
| SessionLoop.Session.Handle | src/server.rs:986-1760 | each request takes registry, server, open cursors and reply where the closed form of the session says |
| SessionLoop.Session.Ask | src/server.rs:1460-1530 | a query replaces the cursor of its id, delivers a first batch and stays open only while more may come |
| SessionLoop.Session.Deliver | src/server.rs:1485-1530 | a cursor is kept exactly if its batch was full, and is released otherwise |
| SessionLoop.Session.FetchNext | src/server.rs:1614-1699 | the named or current cursor yields one clamped batch; an unknown one an empty last batch |
| SessionLoop.Session.Replace | src/server.rs:1461-1464 | only the cursor of the same id is finished |
| SessionLoop.Session.Drain | src/server.rs:1704-1706 | draining in any order of the map releases one wrapper per cursor |
| SessionLoop.Session.End | src/server.rs:1720-1760 | the protocol's COMMIT and ROLLBACK drain every cursor first |
| SessionLoop.Session.Perform | src/server.rs:1460-1575 | queries, DDL and other statements go their own ways |
| SavepointAccounting.CutLosesWrappers | src/backend.rs:942-947 | cutting the stack loses a wrapper exactly if the innermost one is cut |
| SavepointAccounting.DeliveryBalances | src/backend.rs:213-258 | however a batch ends, exactly one wrapper goes with the cursor |
| SavepointAccounting.QueryBalances | src/server.rs:1460-1530 | opening, replacing and failing queries keep the balance if and only if the binds convert |
| SavepointAccounting.RequestBalances | src/server.rs:1460-1760 | a request keeps one wrapper per open cursor if and only if it is harmless |
| SavepointAccounting.RunBalances | src/server.rs:986-1760 | a run is balanced throughout if and only if every request of it is harmless when it comes |
| SavepointAccounting.SessionBalances | src/server.rs:986-1760 | the same from login on |
| SavepointAccounting.CommitSavesTheWork | src/server.rs:1728-1740 | a drained commit saves the work if and only if there is a wrapper for every cursor |
| SavepointAccounting.RollbackBeneathCursorsAborts | src/backend.rs:792-808 | rolling back beneath an open cursor's wrapper makes finishing that cursor abort the transaction |
| SavepointAccounting.OpenCursorSwallowsSavepoint | src/backend.rs:776-808 | a client savepoint set over an open cursor is destroyed with the cursor |
| OracleTransactions.SavepointRefines | src/backend.rs:776-808 | SAVEPOINT moves a name in Oracle and shadows it in PostgreSQL, and the two still match, exactly if no cursor is open and the name is not the wrapper's |
| OracleTransactions.RollbackToRefines | src/backend.rs:796-808 | ROLLBACK TO leaves Oracle's snapshot, live savepoints and reply if and only if no cursor is open and the name is live in Oracle's sense |
| OracleTransactions.SimpleRefines | src/backend.rs:756-832 | every text statement keeps the relation and gives Oracle's reply if and only if it keeps to the assumptions; DML always does, whether its binds convert or not |
| OracleTransactions.QueryRefines | src/server.rs:1460-1530 | a query, whether its binds convert or not, whether it opens, fails, ends or breaks in its first batch, is Oracle's |
| OracleTransactions.FetchRefines | src/server.rs:1614-1699 | a fetch always replies as Oracle, and leaves Oracle's state if and only if its break loses no work |
| OracleTransactions.EndRefines | src/server.rs:1720-1760 | draining and committing or rolling back is Oracle's commit or rollback |
| OracleTransactions.DdlRefines | src/backend.rs:866-914 | DDL is Oracle's (commit before, commit after, a failure undoes only the DDL) if and only if no cursor is open |
| OracleTransactions.PlanRefines | src/server.rs:1460-1575 | the same for whatever a statement turns out to be |
| OracleTransactions.RequestRefines | src/server.rs:986-1760 | a request keeps the refinement and gives Oracle's reply if and only if it is an assumed one |
| OracleTransactions.SessionsStartRefined | src/server.rs:945-986 | a session refines Oracle from login on |
| OracleTransactions.RunFollows | src/server.rs:986-1760 | state and reply are Oracle's after every request of a run if and only if each is an assumed one when it comes |
| OracleTransactions.RunRefines | src/server.rs:986-1760 | over every assumed run, inconvertible binds included, the replies are Oracle's, and the transaction is open and usable at the end |
| SavepointSurvival.SavepointSurvives | src/backend.rs:776-808 | after any run that spares it, a ROLLBACK TO a savepoint set with no cursor open takes the server back to exactly where it was then: failures, aborted transactions, inconvertible binds, broken fetches that lose work, cursors finished or still open |
| SavepointSurvival.RequestHolds | src/server.rs:986-1760 | a request keeps the savepoint if and only if it neither ends the transaction, nor sets it again, nor cuts at or beneath it (or, where wrappers lie beneath it, takes one that an open cursor needs) |
| SavepointSurvival.RunHolds | src/server.rs:986-1760 | the savepoint is held throughout a run if and only if every request spares it when it comes |
| OracleTransactions.HiddenSavepointComesBack | src/backend.rs:796-808 | such a run: an older savepoint of the same name is rolled back to here, where Oracle fails |
| OracleTransactions.ReservedNameIsHidden | src/backend.rs:809-832 | why the wrapper's name is reserved: a wrapper left behind hides a savepoint of that name, and rolling back to it keeps work that Oracle undoes |
| BrokenFetches.WrappersHoldHistory | src/backend.rs:916-940 | after any run from a session without wrappers, each wrapper on the stack, left behind or not, holds the working database on which the request that set it was served, oldest first |
| BrokenFetches.BreakUndoesSince | src/backend.rs:235-240 | in any such session a broken fetch takes the server back to before the request that set the innermost wrapper left, or aborts the transaction if there is none |
| BrokenFetches.BreakFollows | src/backend.rs:235-240 | after an assumed run a broken fetch is Oracle's if and only if nothing was written since that request |
| BrokenFetches.BrokenFetchLosesWork | src/server.rs:1614-1699 | a run from login on in which a broken fetch loses two writes, one of them made before its own cursor was opened, and Oracle keeps both |
| Streaming.RowsArriveOnce | src/server.rs:1614-1699 | whatever else the session does meanwhile, a cursor hands out each row once and in order, and is closed exactly once more was asked for than arrives |
| Streaming.ResultArrivesOnce | src/server.rs:1460-1699 | the same counted from the query on: the first batch and every later fetch make up the result, each row once and in order |
| Streaming.OthersLeaveCursor | src/server.rs:1460-1464 | requests that name another cursor leave this one alone |
| Streaming.ClosedStaysClosed | src/server.rs:1680-1699 | fetching a closed cursor yields nothing |
| Streaming.FirstBatchSize | src/server.rs:1466-1477 | a query's reply holds two rows for OCI, else as many as prefetched, 100 if not said and 50000 at most, and the cursor stands after them or is gone |
| Streaming.FetchSize | src/server.rs:1614-1650 | a fetch holds the rows asked for, at least one and at most 500 or 50000, and 100 if they cannot be read |
| Streaming.ClosedFetch | src/server.rs:1680-1699 | a fetch of a cursor that is not open finds no rows and changes nothing |
| Streaming.MariaDbCursor.NextBatch | src/mariadb.rs:425-430 | the next rows up to the batch size, and the rest left |
| Streaming.MariaDbCursor.IsExhausted | src/mariadb.rs:422-424 | exhausted exactly if no row is left |
| Streaming.MariaDbBatchesJoin | src/mariadb.rs:411-434 | the batches join to exactly as many leading rows as were asked for |
| Streaming.CursorsAgree | src/backend.rs:213-248 | both cursors yield the same batches, PostgreSQL one empty batch more exactly if the sizes first add up to all rows |
| OracleNumber.EncodeOracleNumberDecimal | src/wire.rs:3880-3977 | every text: which error, or the encoding of the number it denotes; refused exactly beyond 40 digits or the point range -129 to 126 |
| OracleNumber.ScanNumber | src/wire.rs:3891-3911 | the digits and point read skip leading zeros on both sides of the point |
| OracleNumber.ScanExponent | src/wire.rs:3912-3930 | the exponent, its sign and its `i32` range, and what follows |
| OracleNumber.EncodePairs | src/wire.rs:3945-3976 | exponent byte, base-100 pairs aligned to an even point, complement and terminator |
| OracleNumber.WrapIsHarmless | src/wire.rs:3925-3940 | the `i32` sum of point and exponent can wrap only far outside the accepted range |
| Decimals.ParseInvertsRender | src/wire.rs:3880-3939 | parsing the plain text of a number gives that number |
| DecimalNotation.NotationIsRead | src/wire.rs:3880-3939 | whatever is written as sign, digits, point, digits and power of ten, some of them missing, with white space around it, is accepted as that number |
| DecimalNotation.AcceptsTheNotation | src/wire.rs:3880-3939 | nothing else is accepted, and only blank text is empty |
| DecimalNotation.PowersAreBounded | src/wire.rs:3912-3930 | a power without digits or beyond 31 bits is an invalid exponent, whatever follows it |
| DecimalNotation.NothingMayFollow | src/wire.rs:3931-3933 | a number followed by anything else is invalid |
| NumberDecoding.DecodeOracleNumber | src/wire.rs:1871-1942 | every byte string: which error, or the text of the number |
| NumberDecoding.DecodePairs | src/wire.rs:1889-1916 | pairs unpack to digits without the padding zeros, and an invalid pair fails |
| NumberDecoding.DecodeInvertsEncode | src/wire.rs:1871-1942 | every accepted number decodes to its canonical text, in at most the 22 bytes a column declares |
| NumberDecoding.EncodingIsInjective | src/wire.rs:3880-3977 | two accepted numbers share bytes only if equal |
| NumberMeaning.EncodingDenotes | src/wire.rs:3945-3976 | the bytes of a number denote it: biased exponent, base-100 digits plus one, or complemented to 101 |
| NumberMeaning.DecodingDenotes | src/wire.rs:1871-1942 | any bytes at all: an error exactly if empty, or if their pairs are no base-100 digits or say nothing but zero, else a text that denotes what the bytes do |
| NumberMeaning.AcceptedRange | src/wire.rs:3940-3944 | what has bytes is zero, and what has at most 40 digits and lies from ten to the -130 to below ten to the 126 |
| IntegerNumber.EncodeOracleNumberI64 | src/wire.rs:3848-3877 | the untrimmed pairs of the integer, terminated when negative |
| IntegerNumber.DecodeInvertsIntegerEncoding | src/wire.rs:3848-3877 | every i64 decodes to its decimal string |
| IntegerNumber.IntegerEncodingIsTrimmed | src/wire.rs:3848-3877 | its bytes are the decimal encoder's if and only if it is zero or no multiple of one hundred |
| IntegerNumber.IntTextParses | src/wire.rs:3848-3977 | the decimal string of an i64 parses to the number it is |
| NumberMeaning.IntegerEncodingDenotes | src/wire.rs:3848-3877 | the bytes of an i64 denote that integer |
| NumberOrder.MagnitudeFromPairs | src/wire.rs:3945-3972 | the pairs denote the number's value in base 100 |
| NumberOrder.EncodingOrder | src/wire.rs:3945-3976 | byte order is numeric order, except for a clash, where it is the reverse |
| NumberOrder.ContinuedNegativesClash | src/wire.rs:3945-3976 | every accepted negative of 39 digits with an odd point clashes with each one that continues it with a fortieth digit |
| NumberOrder.ClashExists | src/wire.rs:3945-3976 | one such pair, written out |
| NumberOrder.EncodingOrderForColumns | src/wire.rs:3750-3759 | up to 39 digits byte order is numeric order |
| PgNumeric.FromSql | src/backend.rs:2492-2569 | every payload, with any bytes after it and any scale word: too short, truncated, NaN as zero, or the text of the number its words and groups say |
| PgNumeric.ParsedInvertsPayload | src/backend.rs:2492-2525 | the payload of a value, with anything after it, is read as that value, and a negative scale as none |
| PgNumeric.NoGroupsReadAsZero | src/backend.rs:2526-2569 | a payload without groups, infinities included, is read as "0" |
| PgNumeric.DigitsHoldTheSum | src/backend.rs:2526-2549 | the integer and fraction digits denote exactly the sum of the base-10000 groups |
| PgNumeric.TextIsExact | src/backend.rs:2526-2569 | the text denotes that sum if and only if the scale is positive or no group after the point is nonzero |
| PgNumeric.NoScaleCutsFraction | src/backend.rs:2550-2568 | without a display scale the text is that of the groups before the point alone |
| PgNumeric.PaddedHolds | src/backend.rs:2526-2549 | a group is written in four digits that hold its number, and a malformed one in five |
| PgNumeric.ZeroTextOfZeros | src/backend.rs:2526-2569 | the text denotes zero if and only if every group the scale keeps is zero |
| PgNumeric.TextIsRendered | src/backend.rs:2550-2568 | the text is already canonical, except exactly for a negative sign before groups that are all zero as far as the scale keeps them |
| PgNumeric.PipelineIsExact | src/wire.rs:1871-1942 | groups to text to NUMBER to text gives the same text, except exactly for such a negative zero, and fails only where the encoder refuses |
| PgNumeric.NormalKeepsValue | src/wire.rs:3891-3939 | dropping leading and trailing zeros keeps the value |
| BinaryFloats.EncodeInPlace | src/backend.rs:2858-2884 | sign bit set or all bytes inverted, in place |
| BinaryFloats.DecodeInPlace | src/wire.rs:1792-1817 | the reverse, in place |
| BinaryFloats.CodecsAreInverse | src/backend.rs:2858-2884 | decoding inverts encoding on every bit pattern |
| BinaryFloats.ByteOrderIsNumericOrder | src/backend.rs:2858-2884 | unsigned byte order is the numeric order of binary32 and binary64 (sections 3.4 and 5.10 of IEEE 754-2008), -0 below +0 |
| BinaryFloats.SinglesAndDoublesSort | src/backend.rs:2858-2884 | the same at the two formats in use, with the bit patterns of their infinities |
| Intervals.EncodeDayToSecond | src/backend.rs:2436-2456 | fields fit their bytes, and recombine to the duration if and only if the carried days fit 32 bits |
| Intervals.EncodeYearToMonth | src/backend.rs:2424-2431 | the five bytes recombine to exactly the months |
| Intervals.PartsConserve | src/backend.rs:2437-2448 | truncating divisions split a duration of any sign without loss |
| BindRewriting.BindParameters | src/wire.rs:2185-2335 | the statement and values both styles emit, and exactly the placeholders that fail |
| BindRewriting.SubstituteBindValues | src/wire.rs:1944-2030 | the interpolated statement, failing on the same placeholders and on non-finite floats |
| BindRewriting.NumbersAreExact | src/wire.rs:2300-2319 | parameter numbers are exactly 1 to n, and two uses share one if and only if they are the same bind |
| BindRewriting.NumbersFollowFirstUse | src/wire.rs:2300-2319 | numbers are given in order of first use |
| PlaceholderMeaning.ResolvedAsMeant | src/wire.rs:2277-2299 | a statement resolves to exactly the pieces in which every placeholder is the bind it means: a numeral its position, a known name what it meant, a new name the least index above all before it |
| PlaceholderMeaning.FailsAsMeant | src/wire.rs:2277-2299 | and fails exactly at the first placeholder that is malformed or means a bind there is not |
| PlaceholderMeaning.NumeralsAreOrdinals | src/wire.rs:2277-2283 | a placeholder with the numeral n means the n-th bind |
| PlaceholderMeaning.NamesIgnoreCase | src/wire.rs:2284-2293 | two names mean one bind if and only if they agree but for case |
| PlaceholderMeaning.NewNamesCountOn | src/wire.rs:2284-2293 | a new name means an index above every one before it, zero or the next to one in use |
| PlaceholderMeaning.NamesBindInOrder | src/wire.rs:2284-2293 | without numerals the binds are meant in order of first use |
| BindRewriting.TimestampsKeepTheirType | src/wire.rs:2347-2369 | a timestamp literal is cast to the type its keyword names |
| BindRewriting.BindingRefinesInterpolation | src/wire.rs:1944-2335 | in the resolved statement of any source the number each bind is given stands for the literal that interpolation writes |
| Substitution.PostgresTextInterpolates | src/wire.rs:1944-2335 | replacing, in the emitted text, each numbered parameter with its casts by the literal of the value bound to it gives the interpolated text |
| Substitution.MariaDbTextInterpolates | src/wire.rs:1944-2345 | replacing, in the emitted text, the k-th marker by what the k-th value sent stands for gives the interpolated text, timestamps written as their plain time, and no value is left over |
| Substitution.ValueSpellsLiteral | src/mariadb.rs:1393-1431 | the value sent for a bind stands for the literal interpolation writes, NULL, TRUE and FALSE included |
| Substitution.TimestampsAreAsTheyCame | src/wire.rs:2031-2046 | a timestamp is interpolated as it came and sent as its plain time |
| Substitution.ValuesTellBindsApart | src/mariadb.rs:1393-1431 | only NULL is sent as NULL, and two binds of one kind are sent as one value only if equal, timestamps aside |
| BindSyntax.PlaceholdersAreColonWords | src/wire.rs:2269-2276 | a placeholder starts exactly at a colon before a word character |
| BindSyntax.CastNamesAreBound | src/wire.rs:2269-2276 | in `::name` the first colon is text and the second one starts a placeholder |
| BindRewriting.LexemesCoverSource | src/wire.rs:2231-2329 | nothing but placeholders is ever replaced |
| BindRewriting.ScanLexeme | src/wire.rs:2231-2276 | quotes, comments, quoted names and words are skipped whole |
| Lexing.QuotesHoldText | src/wire.rs:2232-2249 | quoted text ends exactly where a text in which the quote is doubled does, or at the end of the statement |
| Lexing.LineCommentsEnd | src/wire.rs:2250-2258 | a line comment ends at the first line feed |
| Lexing.BlockCommentsEnd | src/wire.rs:2259-2267 | a block comment ends behind the first closing mark after its opening one |
| Lexing.CharactersStandAlone | src/wire.rs:2323-2328 | anything else is copied character by character |
| Lexing.TextLiteralReadsBack | src/wire.rs:2031-2046 | the literal of any text is one lexeme and holds exactly that text |
| Lexing.HexReadsBack | src/wire.rs:2031-2046 | the literal of bytes spells them two digits each |
| Lexing.ProgramsAreTold | src/wire.rs:2193-2221 | a statement passes through untouched if and only if it is a block, or creates a program with nothing but modifiers before its kind and the kind among its first five words |
| Lexing.TextIsWords | src/wire.rs:2193-2198 | every text is words behind white space, so that says it of every statement |
| MariaDbValues.PlainTimeOfBind | src/mariadb.rs:1398-1422 | a timestamp literal of any of its spellings, with or without a zone, is bound as its date and time, and only a zone in figures is dropped |
| MariaDbBinds.ConvertAll | src/mariadb.rs:1393-1431 | every value in MariaDB's form, or the failure of the first non-finite float |
| MariaDbBinds.ConsumePgCastChain | src/mariadb.rs:1528-1577 | a maximal chain of known casts is consumed and named by its last text-like type |
| MariaDbBinds.MariaDbPrepare | src/mariadb.rs:1454-1519 | native text is taken as it is, other text has each numbered parameter replaced in order of occurrence |
| MariaDbBinds.RewriteParameters | src/mariadb.rs:1468-1518 | the loop over quotes, parameters and cast chains computes the scan of the text |
| MariaDbRoutes.ChainReadsBack | src/mariadb.rs:1528-1577 | every cast chain the binder writes is read back whole |
| MariaDbRoutes.ScanFilled | src/mariadb.rs:1468-1518 | scanning a bound statement finds exactly its parameters, whatever the literal text around them |
| MariaDbRoutes.RoutesAgree | src/mariadb.rs:1454-1577 | both routes bind the same converted values in the same order, or fail alike, if and only if no value is used or the source has no dollar before a digit; their texts then agree if and only if no bind used is a timestamp |
| MariaDbRoutes.ValuesAreDropped | src/mariadb.rs:1454-1466 | native text with a dollar before a digit, in a literal or not, comes back unchanged and with no values |
| MariaDbRoutes.DollarInLiteral | src/mariadb.rs:1454-1466 | such a source, written out |
| MariaDbRoutes.TextWithoutParameters | src/mariadb.rs:1454-1466 | text without parameters is taken as it is: with all its values if a marker is in it, and otherwise with none |
| MariaDbLexing.QuotedTextIsLeft | src/mariadb.rs:1476-1495 | text in quotes of any of the three kinds is copied whatever it holds, closed or not |
| MariaDbLexing.AnyChainIsRead | src/mariadb.rs:1528-1577 | a chain of any of the ten types is read whole, in letters of any case and with any white space |
| MariaDbLexing.ReplacementIsByName | src/mariadb.rs:1560-1577 | the marker is chosen by the names in the chain: bytea first, then text without a number |
| MariaDbLexing.ParametersAreRead | src/mariadb.rs:1496-1515 | a dollar and digits are the value of that number, or an error that names it, zero for one beyond 64 bits |
| TtcFields.TakePutUb2 | src/buffer.rs:123-355 | ub2 inverts on its whole range and leaves the suffix |
| TtcFields.TakePutUb4 | src/buffer.rs:141-399 | ub4 inverts on its whole range and leaves the suffix |
| TtcFields.TakePutUb8 | src/buffer.rs:155-421 | ub8 inverts on its whole range and leaves the suffix |
| TtcFields.TakePutSb2 | src/buffer.rs:132-370 | sb2 inverts if and only if the value is outside -127 to -1, where it comes back negated |
| TtcFields.TakePutBytes | src/buffer.rs:179-447 | null, short and chunked fields of any length invert and leave the suffix |
| TtcFields.IntegersAreShortest | src/buffer.rs:343-421 | an unsigned integer is written as a length of 0, 1, 2, 4 or 8, the least that holds it, and its bytes, in one form for all widths |
| TtcFields.SignedForm | src/buffer.rs:357-370 | a signed integer is one byte of magnitude with a marked length, or two bytes in two's complement |
| TtcFields.FieldForm | src/buffer.rs:423-447 | none is a mark, up to 252 bytes follow their length, and more go out in pieces of 32767, the last one shorter |
| TtcFields.PlainIntegers | src/buffer.rs:123-177 | an integer of any length its width allows is read at its word, and sb2 with its sign |
| TtcFields.MalformedIntegers | src/buffer.rs:123-177 | the integer reads fail exactly on no input, a length too great, or too few bytes, each with its error |
| TtcFields.SecondLengthByte | src/buffer.rs:166-173 | a ub8 with a second length byte is read modulo 64 bits |
| TtcFields.LongFieldsReadBack | src/buffer.rs:184-238 | a long field cut into chunks of any sizes reads back whole, with lengths of one byte or of ub4 form |
| TtcFields.EscapedFieldsReadBack | src/buffer.rs:197-201 | so does one with its length after an escape byte |
| TtcFields.ShortFieldsFail | src/buffer.rs:197-205 | a short or escaped field fails exactly if there are fewer bytes than announced |
| TtcFields.BrokenChunksFail | src/buffer.rs:184-195 | a chunk that announces more than there is fails, whatever came before it |
| TtcFields.FieldsAreSelfDelimiting | src/buffer.rs:179-447 | any list of optional byte strings reads back, leaving exactly the suffix |
| TtcFields.FieldListsAreUnambiguous | src/buffer.rs:423-447 | two field lists of one length with any suffixes share bytes only if list and suffix agree |
| TtcFields.ChunksReadForward | src/buffer.rs:184-195 | the chunk loop ends on every input and returns less than it consumed |
| TtcFields.FieldsReadForward | src/buffer.rs:179-238 | so does every field read, with either chunk form |
| Buffers.WriteBuffer.WriteUb2 | src/buffer.rs:343-355 | appends the compact form |
| Buffers.WriteBuffer.WriteSb2 | src/buffer.rs:357-370 | appends the compact signed form |
| Buffers.WriteBuffer.WriteUb4 | src/buffer.rs:383-399 | appends the compact form |
| Buffers.WriteBuffer.WriteUb8 | src/buffer.rs:401-421 | appends the compact form |
| Buffers.WriteBuffer.WriteBytesWithLength | src/buffer.rs:423-447 | appends the null, short or chunked form |
| Buffers.ReadBuffer.ReadUb2 | src/buffer.rs:123-130 | value or error, and the position, as the field reader says |
| Buffers.ReadBuffer.ReadSb2 | src/buffer.rs:132-139 | value or error, and the position, as the field reader says |
| Buffers.ReadBuffer.ReadUb4 | src/buffer.rs:141-153 | value or error, and the position, as the field reader says |
| Buffers.ReadBuffer.ReadUb8 | src/buffer.rs:155-177 | value or error, and the position, the two-length form included |
| Buffers.ReadBuffer.ReadBytesWithLength | src/buffer.rs:179-238 | both chunk readers: field or error, and the position |
| Tns.TnsStream.WritePacketFlags | src/tns.rs:321-365 | an oversized OCI message reads back packet by packet as the message, in the fewest packets of at most 8111 bytes; any other message is one frame |
| Tns.TnsStream.EmitOnePacket | src/tns.rs:367-416 | one frame of the negotiated form, or the size error with nothing written |
| Tns.FrameCarries | src/tns.rs:367-416 | a frame announces its length, carries type, flags, two zeros and the payload, and is refused exactly beyond 64 MiB or 65535 bytes |
| Tns.PacketsReadBack | src/tns.rs:209-283 | any packets emitted one after the other read back as they were, type, flags and payload, for the lengths their mode measures right |
| Tns.LargeModeReadsLargeFrames | src/tns.rs:481-498 | the large-mode reader recovers a large length if and only if it is not a multiple of 65536 from 524288 on |
| Tns.BothModesReadSmallFrames | src/tns.rs:481-498 | either mode recovers every legacy length |
| Tns.EmittedFramesAreMeasured | src/tns.rs:373-402 | every emitted frame is measured right by its own mode, the same multiples excepted |
| AuthLists.WriteAuthPair | src/wire.rs:688-710 | key, value and flags as the thin framing lays them out |
| AuthLists.ReadPairs | src/wire.rs:762-780 | the pair loop: the list or the first error, a key that is not UTF-8 included, and the position |
| AuthLists.ListsParseBack | src/wire.rs:762-780 | any list of UTF-8 keys of 1 to 252 bytes and values of up to 252 bytes reads back, leaving exactly the suffix, in either chunk form |
| AuthLists.PairReadsBackIffKeyed | src/wire.rs:688-780 | within the short lengths a pair reads back, leaving what follows, if and only if its key is UTF-8 text and not empty |
| AuthLists.PairParsesBack | src/wire.rs:688-780 | a reader that keeps the flags gets key, value and flags as they were sent |
| AuthLists.LongPairsReadBack | src/wire.rs:762-780 | a pair with a key of any length and a value in chunks of either form reads back |
| AuthLists.TextIsCharacters | src/buffer.rs:240-250 | a key is text if and only if its bytes are the UTF-8 of some characters (section 3 of RFC 3629) |
| AuthLists.WriteOciPair | src/wire.rs:548-558 | key, value and flags as the OCI framing lays them out |
| AuthLists.FindStart | src/wire.rs:564-586 | the list starts at the first consistent key prefix |
| AuthLists.StartsAreTold | src/wire.rs:564-586 | the places taken for a start, byte by byte |
| AuthLists.FindName | src/wire.rs:588-601 | the shortest graphic name before the list |
| AuthLists.ReadOciPairs | src/wire.rs:603-634 | the pairs up to the first thing that is none |
| AuthLists.ParseOciAuth | src/wire.rs:564-636 | nothing without a list start, else name and pairs at the first one |
| AuthLists.OciListsParseBack | src/wire.rs:548-634 | any list of keys of 1 to 64 bytes not ending in NUL, and values of any length, reads back in front of whatever pairs follow |
| AuthLists.OciFlagsReadBack | src/wire.rs:548-558 | the flags stand in the last four bytes of a pair |
| AuthLists.PaddedPairsReadBack | src/wire.rs:603-634 | a key is read without the NULs it ends in, and the last pair even without its flags |
| AuthLists.ListsEnd | src/wire.rs:603-634 | the list ends exactly at a key length of zero, above 64 or not repeated, or at a key or value that is cut off |
| AuthLists.ListIsFound | src/wire.rs:564-586 | with no false match before it the list is found where it starts; its own length prefixes never match |
| AuthLists.NameIsFound | src/wire.rs:588-601 | a graphic user name of up to 30 bytes is found whole |
| AuthLists.NamesAreGraphic | src/wire.rs:588-601 | whatever is found is a graphic name of up to 30 bytes behind its length |
| AuthLists.RequestIsFound | src/wire.rs:564-636 | so the parser can answer only the name and the pairs that were sent, with whatever pairs follow |
| RegexLite.Compile | tests/corpus.rs:1505-1554 | every pattern compiles to its grammar's tokens, none nested under a quantifier |
| RegexLite.MatchOne | tests/corpus.rs:1617-1627 | the end answered is the only one the token's meaning allows, and none is answered only where it allows none |
| RegexLite.MatchSeq | tests/corpus.rs:1578-1615 | finds an end if and only if some split matches, and then the longest |
| RegexLite.LaterStartReachesAsFar | tests/corpus.rs:1578-1615 | a match from a later start of one greedy run reaches at least as far |
| RegexLite.GreedIsLongest | tests/corpus.rs:1584-1608 | trying the longest run first finds the longest match |
| RegexLite.IsMatch | tests/corpus.rs:1556-1576 | true if and only if the text is in the pattern's language, end anchor or not |
| RegexLite.ParseInvertsPrint | tests/corpus.rs:1505-1554 | printing a pattern and parsing it gives it back, unless an end anchor follows an escaped backslash |
| RegexLite.TokensAreSpelled | tests/corpus.rs:1511-1545 | an alternative is read as exactly the tokens it spells, a lone backslash or an open class at its end included |
| RegexLite.PatternIsSpelled | tests/corpus.rs:1505-1554 | every pattern is its anchors around alternatives between bars, each spelling its tokens |

## Left out

- Postgres.Client: a stream breaks when its bad row is pulled; a driver that has read ahead learns of it earlier.
- Postgres.Client: commands issued while an opened stream is unread run at once; on the connection they wait for its rows, as the comment in `open_cursor_with_binds` says of catalog queries.
- Postgres.Client: portals die with a savepoint rolled back beneath them; here a stream outlives that.
- Backend.PostgresBackend.OpenCursor: the retry on a stale plan re-prepares without rolling back and is not modelled; nor are prepared-statement caching, describe metadata and timeouts.
- Backend.PostgresBackend.ExecuteSimple: a statement's text is already classified; SET TRANSACTION, SET CONSTRAINTS and SET TIME ZONE, which bypass the wrapper too, are left out, as is `statement_timeout`.
- Backend.PostgresBackend.BeginStatement: `SET LOCAL statement_timeout` after the savepoint is not modelled.
- SessionLoop.Session.Handle: array and batch DML, RETURNING (see Backend.ReturningIsDml), stored programs and packet parsing are not among the requests; the session goes on after Logoff where the program ends it.
- SessionLoop.Session.Deliver: a fetched cursor is taken out of the map while its batch is pulled and put back; the program leaves it in and removes it afterwards.
- OracleTransactions.FetchRefines: an Oracle cursor outlives COMMIT; here, as in the program, it is closed.
- Streaming.CursorsAgree: the MariaDB cursor is compared on its own; transactions on MariaDB are not modelled.
- OracleNumber.EncodeOracleNumberDecimal: texts above 2^30 characters, whose digit count could overflow an `i32`, are excluded; no packet carries one.
- PgNumeric.FromSql: a negative group count, which PostgreSQL never sends, is excluded; converted to `usize` it is no length of any payload.
- BindRewriting.BindParameters: statements, and text values on their way to MariaDB, are sequences of characters, not UTF-8 bytes; a non-finite float stands for every failing literal.
- MariaDbRoutes.RoutesAgree: for source in which no lexeme starts with a comment, a back-tick, `$digit` or `::`, which the two lexers read differently there; quoted text may hold any of them.
- Substitution.PostgresTextInterpolates: for the same source; elsewhere a parameter cannot be told from text that looks like one.
- Substitution.MariaDbTextInterpolates: likewise, and every `?` of the source is inside quotes.
- The header and the user name that come before the pairs of a thin authentication request.
- AuthLists.ParseOciAuth: keys and the user name stay bytes; the program decodes them lossily.
- Tns.TnsStream.WritePacketFlags: the socket is a byte sequence; waiting for more bytes and completing partial fetch frames are left out.
- Byte-captured OCI responses, whose one-byte length writes truncate long values, and the scanning parsers of execute frames.
- The SQL translator, authentication cryptography, TLS, timeouts, health and metrics, and the tables of error codes and time zones.
