# Aquarium controller: a verified model of its hard parts

The controller drives the lamps of an aquarium along a solar curve, keeps its
settings in an SQLite database, and protects what it transmits with a CRC. Its
repository carries the sqlite shell and the Tcl binding of SQLite with it. This
project models the parts of that code with the most state and arithmetic, in
Dafny, and proves what they are relied on for. Code that works step by step on
buffers, lists and counters is modelled by methods that do the same; each is
proved against a function on plain values, and the theorems are about that
function.

| files | what they model |
|---|---|
| `Words`, `CrcSpec`, `Gf2`, `Crc`, `CrcCheck` | the bit-at-a-time and the table-driven CRC-16, and division of polynomials over GF(2) |
| `Md5Spec`, `Md5`, `Md5Check` | the streaming MD5 of the Tcl binding, against RFC 1321 and digests it gives |
| `SqlText`, `CacheSpec`, `LruSpec`, `EvalSpec`, `EvalAnswers`, `StmtCache`, `Eval` | the cache of prepared statements, a doubly linked list, and the evaluation of scripts on it |
| `Transactions` | nested `transaction` commands on a stack of savepoints that all have one name |
| `CsvSpec`, `CsvRecords`, `Csv`, `CsvImport` | CSV output, the line reader, and the `.import` command |
| `CStringSpec`, `CStringForms`, `ArgumentSpec`, `CString` | C-style quoting and the arguments of dot-commands |
| `QuoteSpec`, `Quoting`, `InsertReader`, `DumpReader` | quoted names and literals in generated SQL, and what it means to a reader |
| `InputSpec`, `InputLoop`, `InputRuns` | gathering lines of input into batches of SQL |
| `Tables` | the column layout of `.tables` |
| `StopProtocol` | stopping the sun thread through a flag and a pipe |
| `SolarSpec`, `DefaultSun`, `Solar` | the solar curve, its kept segment index, and the duty cycle |
| `Basics`, `Buffers`, `Doubling` | shared: optional values, character tests, NUL-terminated strings in buffers, doubled quotes |

`dafny verify dfyconfig.toml` checks the whole project.

## What holds only in part

The model keeps the code as it is. Where the code falls short of what one would
expect of it, a lemma says exactly when:

* What is printed in CSV mode is imported again exactly if every field is quoted
  or clear of separators; with a separator of one character every field is. With
  a longer one a row can be refused, or read as another one
  (`CsvSpec.CsvRoundTripIff`, `CsvSpec.LongSeparatorBreaks`,
  `CsvSpec.LongSeparatorCorrupts`).
* resolve_backslashes reads no further than its string's terminator exactly if
  the string does not end in a lone backslash. Otherwise it goes on with what
  stands behind, and moves that up by one place; it does so for no argument of
  a dot-command exactly if none ends that way (`ArgumentSpec.ReadsWithinIff`,
  `ArgumentSpec.GoesOnBehind`, `ArgumentSpec.LineContainedIff`).
* A cached statement serves for a text exactly as a fresh compilation would if
  it was terminated by a semicolon or is the whole text. A statement that ends
  in a comment with a semicolon at its end is neither (`SqlText.HitIsFreshIff`,
  `EvalSpec.AcquireIsFreshIff`, `SqlText.CommentHitIsNotFresh`).
* A `transaction` command begun while the user has a transaction open does not
  leave it open, and if it ends in an error it takes the user's earlier rows
  along (`Transactions.ModeRestoredIff`, `Transactions.OnlyOwnRowsUndoneIff`).
* The enclosing transaction is lost to nested commands exactly if the engine
  refuses one of their closing statements; rows written after that are kept
  (`TransactionSpec.CommandLostIff`, `Transactions.SqliteDb.Transaction`).
* A request to stop sticks exactly if the pipe was open when it was made
  (`StopProtocol.RequestSticksIff`).
* The kept segment index is the right one exactly if the tick falls into that
  segment still (`SolarSpec.UsedIsFreshIff`).
* The duty cycle set in an affine segment is the curve's height exactly if that
  is between 0 and 100 per cent (`SolarSpec.DutyIsHeightIff`). Of the default
  curve this leaves out 14h, where it is at 100 per cent and 50 is set; a
  controller started by 11h and ticked as it asks does get its tick at 14h
  (`DefaultSun.DutyIsCurveIff`, `DefaultSun.NoonIsReached`).

## Model

| member | source | states |
|---|---|---|
| Words.Reflect | commun/crc/crc.cpp:56-80 | for up to 32 bits, the result's low bits are the data's low bits in reverse order, and its other bits are clear |
| CrcSpec.FeedXor | commun/crc/crc.cpp:120-127 | one division step is linear over GF(2) in register and message bit |
| CrcSpec.FeedAllXor | commun/crc/crc.cpp:105-129 | so is the division of equally long bit strings |
| CrcSpec.FeedAsLoad | commun/crc/crc.cpp:110-128 | up to sixteen message bits may be xored into the top of the register first and divided out with zeros afterwards: why the code may bring in a whole byte |
| CrcSpec.FeedClearTop | commun/crc/crc.cpp:225 | a register whose top bits are clear only moves up when zeros are fed: why the table may be indexed by the top byte alone |
| CrcSpec.FeedsToZeroIff | commun/crc/crc.cpp:115-128 | up to sixteen bits lead the register to zero from one state only, the one that holds them at its top |
| CrcSpec.BurstLeavesRemainder | commun/crc/crc.cpp:105-129 | a nonzero error pattern inside sixteen consecutive bits leaves a nonzero remainder |
| CrcSpec.BurstAnywhere | commun/crc/crc.cpp:105-129 | also when the sixteen bits stick out at the end of the message |
| CrcSpec.BurstDetected | commun/crc/crc.cpp:94-136 | two different messages of one length that disagree only inside sixteen consecutive bits have different CRCs |
| CrcSpec.ResidueIff | commun/crc/crc.cpp:94-136 | the CRC of a message and two more bytes is zero exactly if these are the low and the high byte of the message's CRC |
| CrcSpec.CrcIsLinear | commun/crc/crc.cpp:94-136 | the CRC of a bytewise xor is the xor of the CRCs |
| CrcSpec.LeadingZerosIgnored | commun/crc/crc.h:47 | with the initial remainder zero, any number of leading zero bytes leaves the CRC unchanged |
| CrcSpec.FeedParity | commun/crc/crc.h:46 | a division step keeps parity: the register's parity changes exactly with the bit fed |
| CrcSpec.CrcKeepsParity | commun/crc/crc.h:46-50 | the CRC has the parity of the whole message |
| Gf2.RegisterDivides | commun/crc/crc.cpp:105-129 | the message's bits times x^16 are quotient times generator plus register, the quotient being the bits that fall out of the register |
| Gf2.QuotientUnique | commun/crc/crc.cpp:94-136 | the leading coefficients of a multiple of the generator determine the quotient |
| Gf2.RemainderUnique | commun/crc/crc.cpp:94-136 | there is only one remainder of degree below sixteen |
| Gf2.CrcIsReflectedRemainder | commun/crc/crc.cpp:94-136 | a register is the remainder of the reflected message's bits times x^16 by x^16+x^15+x^2+1 if and only if the CRC is its reflection |
| Crc.DivideBitFeeds | commun/crc/crc.cpp:120-127 | the shift-and-xor on a 16-bit word is one division step with a zero bit |
| Crc.AtTopBits | commun/crc/crc.cpp:110 | a byte shifted left by WIDTH - 8 stands at the top of the register |
| Crc.SlowByte | commun/crc/crc.cpp:110-128 | xoring a reflected byte into the top and eight steps divide the byte's eight bits |
| Crc.FastByte | commun/crc/crc.cpp:224-225 | one table look-up gives what eight steps of the slow division give |
| Crc.RegisterOfInjective | commun/crc/crc.h:43 | different 16-bit words show different registers |
| Crc.WordOfRegister | commun/crc/crc.h:43 | for each register there is exactly one word that shows it |
| Crc.ReflectData | commun/crc/crc.h:49 | a byte's bits in reverse order |
| Crc.ReflectRemainder | commun/crc/crc.h:50 | a register's bits in reverse order |
| Crc.CrcSlow | commun/crc/crc.cpp:94-136 | computes the CRC of every message: the one word that shows the CRC register |
| Crc.CrcTable.CrcInit | commun/crc/crc.cpp:155-197 | fills all 256 entries with the remainder of the index followed by eight zeros |
| Crc.CrcTable.CrcFast | commun/crc/crc.cpp:211-233 | with a ready table, computes the same word for every message |
| CrcCheck.CheckValue | commun/crc/crc.h:51 | the word for the CRC of the digits 1 to 9 is the check value 0xBB3D |
| Md5Spec.Padding | sqlite3/tea/generic/tclsqlite3.c:3363-3383 | RFC 1321 section 3.1: a one bit and the fewest zeros up to 56 modulo 64 bytes |
| Md5.CoreIsAuxiliary | sqlite3/tea/generic/tclsqlite3.c:3193-3197 | the optimised core functions are the auxiliary functions of RFC 1321 section 3.4 |
| Md5.StepIsOperation | sqlite3/tea/generic/tclsqlite3.c:3200-3201 | an MD5STEP line is one operation of the RFC |
| Md5.FourSteps | sqlite3/tea/generic/tclsqlite3.c:3215-3218 | four lines with the roles of a, b, c, d moving are four operations in a row |
| Md5.Round1 | sqlite3/tea/generic/tclsqlite3.c:3215-3230 | operations 1 to 16, with the code's word order, constants and rotations |
| Md5.Round2 | sqlite3/tea/generic/tclsqlite3.c:3232-3247 | operations 17 to 32 |
| Md5.Round3 | sqlite3/tea/generic/tclsqlite3.c:3249-3264 | operations 33 to 48 |
| Md5.Round4 | sqlite3/tea/generic/tclsqlite3.c:3266-3281 | operations 49 to 64 |
| Md5.MD5Transform | sqlite3/tea/generic/tclsqlite3.c:3207-3287 | adds to the state what the 64 operations make of it and the block |
| Md5.CountMore | sqlite3/tea/generic/tclsqlite3.c:3313-3316 | the split counter holds eight times the number of bytes modulo 2^64 again, with the wrap-around of both words and the carry |
| Md5.CountModBlock | sqlite3/tea/generic/tclsqlite3.c:3318 | the low word gives the number of bytes modulo 64 |
| Md5.AbsorbConcat | sqlite3/tea/generic/tclsqlite3.c:3338-3345 | absorbing blocks one after the other is absorbing their concatenation |
| Md5.AbsorbIgnoresRest | sqlite3/tea/generic/tclsqlite3.c:3347-3349 | a last partial block has no part in the state |
| Md5.PaddedBlocks | sqlite3/tea/generic/tclsqlite3.c:3363-3388 | the whole blocks, the rest, the padding and the two counter words are the padded message of RFC 1321 |
| Md5.CounterBytes | sqlite3/tea/generic/tclsqlite3.c:3386-3388 | the two words, low word first, are the eight bytes of the bit count |
| Md5.Context.Init | sqlite3/tea/generic/tclsqlite3.c:3293-3301 | a context that has absorbed the empty message, whatever was in it |
| Md5.Context.Transform | sqlite3/tea/generic/tclsqlite3.c:3341-3342 | one more block absorbed |
| Md5.Context.Count | sqlite3/tea/generic/tclsqlite3.c:3313-3318 | the counter is advanced, and the number of buffered bytes returned |
| Md5.Context.FillUp | sqlite3/tea/generic/tclsqlite3.c:3322-3335 | a leading chunk fills the buffered block, which is absorbed |
| Md5.Context.TakeBlocks | sqlite3/tea/generic/tclsqlite3.c:3339-3345 | whole blocks are absorbed until less than one is left |
| Md5.Context.Update | sqlite3/tea/generic/tclsqlite3.c:3307-3350 | the context has absorbed the old message and the new bytes, on all three paths; of the buffer only the first (length mod 64) bytes matter |
| Md5.Context.PadTwice | sqlite3/tea/generic/tclsqlite3.c:3372-3379 | with too little room for the length, the block is filled with zeros and absorbed, and the next one begun with zeros |
| Md5.Context.PadTo56 | sqlite3/tea/generic/tclsqlite3.c:3366-3383 | both ways of padding leave whole blocks absorbed and 56 bytes that complete the RFC's padding |
| Md5.Context.Final | sqlite3/tea/generic/tclsqlite3.c:3356-3394 | the RFC's digest of the message absorbed |
| Md5.StaleBytesDoNotMatter | sqlite3/tea/generic/tclsqlite3.c:3318-3327 | contexts that agree on state, count and the first (length mod 64) buffered bytes have absorbed the same message |
| Md5.Md5File | sqlite3/tea/generic/tclsqlite3.c:3475-3483 | however the file is cut into reads of up to 10240 bytes, the digest is that of the whole |
| Md5Check.RotateLeftBits | sqlite3/tea/generic/tclsqlite3.c:3200-3201 | for every distance from 1 to 31 the rotation of a step takes each bit up by that distance, around the word |
| Md5Check.WordRoundTrip | sqlite3/tea/generic/tclsqlite3.c:3341-3342 | a word read from its four bytes is the word |
| Md5Check.LittleEndianValue | sqlite3/tea/generic/tclsqlite3.c:3386-3388 | the bytes of a count, low-order byte first, stand for the count |
| Md5Check.DigestEmpty | sqlite3/tea/generic/tclsqlite3.c:3356-3394 | the digest of the empty message is the one RFC 1321 gives in appendix A.5 |
| Md5Check.DigestAbc | sqlite3/tea/generic/tclsqlite3.c:3356-3394 | so is that of "abc" |
| SqlText.CutTextIsStatement | sqlite3/tea/generic/tclsqlite3.c:1170-1172 | the text cut off as a statement is itself compiled as one whole statement |
| SqlText.HitIsFreshIff | sqlite3/tea/generic/tclsqlite3.c:1114-1120 | when the match test passes, a fresh compilation cuts off the same text exactly if the cached statement was terminated or is all of the input |
| SqlText.HitIsFresh | sqlite3/tea/generic/tclsqlite3.c:1114-1120 | a hit by a cached text that does not end in a semicolon inside a comment is as good as a fresh compilation |
| SqlText.CommentSplitterSplits | sqlite3/tea/generic/tclsqlite3.c:1147 | the assumptions about the compiler can be met: a splitter that knows line comments meets them |
| SqlText.SemicolonSplitterIsClean | sqlite3/tea/generic/tclsqlite3.c:1147 | they can be met with no text at all ending in such a semicolon |
| SqlText.CommentHitIsNotFresh | sqlite3/tea/generic/tclsqlite3.c:1117 | a text whose trailing comment ends in a semicolon passes the match test where another statement is to be run |
| CacheSpec.Find | sqlite3/tea/generic/tclsqlite3.c:1113-1139 | the first cached statement that passes the match test, or none |
| CacheSpec.ResizeFacts | sqlite3/tea/generic/tclsqlite3.c:1845-1851 | the new limit is the number from 0 to 100 nearest to the one asked for; only a negative one empties the cache, finalising what was in it |
| CacheSpec.EvictFacts | sqlite3/tea/generic/tclsqlite3.c:1278-1284 | eviction cuts the cache to its limit from the far end and finalises exactly what it cuts off |
| CacheSpec.ReleaseFacts | sqlite3/tea/generic/tclsqlite3.c:1257-1285 | a discarded statement is finalised and the cache stays as it was; any other becomes the head, the others keep their order as far as there is room, and the rest is finalised from the far end |
| CacheSpec.ReleaseHandles | sqlite3/tea/generic/tclsqlite3.c:1257-1285 | releasing adds the statement to the cached or the finalised and loses none |
| CacheSpec.AcquireAccounts | sqlite3/tea/generic/tclsqlite3.c:1092-1233 | acquiring moves a handle from the cache, or a new one, to its holder |
| CacheSpec.ReleaseAccounts | sqlite3/tea/generic/tclsqlite3.c:1244-1286 | releasing moves it from the holder to the cache or to the finalised |
| CacheSpec.ApplyAccounts | sqlite3/tea/generic/tclsqlite3.c:1415-1489 | every step keeps each handle in exactly one place |
| CacheSpec.EveryRunAccounts | sqlite3/tea/generic/tclsqlite3.c:448-1489 | over every interleaving of contexts, flushes and resizes, each handle given out is in exactly one of cached, held once, finalised |
| CacheSpec.HeldIsExclusive | sqlite3/tea/generic/tclsqlite3.c:1122-1136 | a held statement is alive, not cached, and held by no one else |
| CacheSpec.FinalizedOnce | sqlite3/tea/generic/tclsqlite3.c:448-456 | nothing is finalised twice, and what is cached is not finalised and is cached once |
| CacheSpec.NothingLeaks | sqlite3/tea/generic/tclsqlite3.c:461-472 | once no context holds a statement, a flush leaves every handle finalised exactly once |
| CacheSpec.EveryRunSound | sqlite3/tea/generic/tclsqlite3.c:1278-1284 | in every reachable state the cache is within the limit of 100 and holds only texts that were cut off as statements |
| CacheSpec.ReleaseBounded | sqlite3/tea/generic/tclsqlite3.c:1244-1286 | after a release with a positive limit the cache is within that limit |
| CacheSpec.ReleaseClean | sqlite3/tea/generic/tclsqlite3.c:1257-1285 | releasing a text that does not end in a semicolon inside a comment brings none into the cache |
| LruSpec.RecentDistinct | sqlite3/tea/generic/tclsqlite3.c:1261-1274 | the recency list has no repeats |
| LruSpec.RecentHas | sqlite3/tea/generic/tclsqlite3.c:1261-1274 | it has exactly the statements used |
| LruSpec.RecentIsByLastUse | sqlite3/tea/generic/tclsqlite3.c:1261-1274 | it is ordered by last use, latest first |
| LruSpec.FindIsIndexOf | sqlite3/tea/generic/tclsqlite3.c:1113-1139 | in a cache without texts that end in a semicolon inside a comment, the match test finds the text a fresh compilation would cut off, whenever it is cached |
| LruSpec.UseOnTexts | sqlite3/tea/generic/tclsqlite3.c:1092-1286 | an acquire and release puts the text in front, takes its old place away, and cuts the far end off; the cache stays without such texts if this one is not one |
| LruSpec.CacheIsMostRecent | sqlite3/tea/generic/tclsqlite3.c:1092-1286 | after any back-to-back uses at a fixed limit of at least one, none of which cuts off a text that ends in a semicolon inside a comment, the cache is the most recently used distinct statements in recency order |
| EvalSpec.StartsAreBounded | sqlite3/tea/generic/tclsqlite3.c:1415-1470 | one call starts in all at most one statement for each remaining character, and at most twice that with the legacy retry |
| EvalSpec.RetriedOnce | sqlite3/tea/generic/tclsqlite3.c:1415-1470 | at every place of the script one call starts a statement at most once, and at most twice with the legacy retry, of which a retry under way is one |
| EvalSpec.LoopFollowsScript | sqlite3/tea/generic/tclsqlite3.c:1415-1470 | without the legacy path one call starts the script's statements in order, none twice and none left out, and reports the end exactly when all have been run |
| EvalSpec.CallsFollowScript | sqlite3/tea/generic/tclsqlite3.c:1415-1470 | after any number of calls what has been started is a beginning of the script's statements |
| EvalSpec.AcquireIsFreshIff | sqlite3/tea/generic/tclsqlite3.c:1109-1182 | for any cache, text and remaining input delivered are those of a fresh compilation if and only if no cached text serves, or the first that does was terminated or is all of the input |
| EvalSpec.AcquireIsFresh | sqlite3/tea/generic/tclsqlite3.c:1109-1182 | with no cached text ending in a semicolon inside a comment, statement text and remaining input delivered are those of a fresh compilation, hit or miss |
| EvalSpec.CleanStep | sqlite3/tea/generic/tclsqlite3.c:1420-1423 | taking up a statement leaves a script whose statements do not end in a semicolon inside a comment, and holds one that does not |
| EvalAnswers.LoopAnswers | sqlite3/tea/generic/tclsqlite3.c:1415-1470 | without the legacy path, over the calls of sqlite3_step in one call: all but the last finished their statements; there is a row if and only if the last gave one; an error if and only if the last failed, or all finished and the text reached does not compile; the end if and only if all finished and the text is used up; the statements started are those stepped, so nothing is started after one that did not finish |
| EvalAnswers.EvalStepRetries | sqlite3/tea/generic/tclsqlite3.c:1415-1470 | with the legacy path or without, every call of sqlite3_step but the last finished its statement or found the schema changed; then the same statement is started again if and only if it was started in this call and for the first time; the last call gives the answer, and nothing is started after it |
| StmtCache.ClosedUp | sqlite3/tea/generic/tclsqlite3.c:1126-1135 | with its neighbours linked past it, the list without the node is chained both ways |
| StmtCache.PutInFront | sqlite3/tea/generic/tclsqlite3.c:1262-1267 | with the links of a new head set, the longer list is chained both ways |
| StmtCache.SqliteDb.constructor | sqlite3/tea/generic/tclsqlite3.c:3059 | an empty cache with the limit of 10 |
| StmtCache.SqliteDb.FlushStmtCache | sqlite3/tea/generic/tclsqlite3.c:461-472 | every cached statement finalised, first to last, and the list empty |
| StmtCache.SqliteDb.CacheSize | sqlite3/tea/generic/tclsqlite3.c:1845-1851 | the limit is clamped to 0..100; a negative one flushes |
| StmtCache.SqliteDb.Unlink | sqlite3/tea/generic/tclsqlite3.c:1126-1136 | the four-way unlinking leaves a well-linked list without the node, wherever it stood |
| StmtCache.SqliteDb.Search | sqlite3/tea/generic/tclsqlite3.c:1113-1139 | following pNext finds the first statement that serves |
| StmtCache.SqliteDb.DbPrepareAndBind | sqlite3/tea/generic/tclsqlite3.c:1092-1233 | refines the sequence-based acquire, with the remaining input it returns, and keeps the links valid |
| StmtCache.SqliteDb.PushFront | sqlite3/tea/generic/tclsqlite3.c:1262-1274 | the statement is the new head of a well-linked list |
| StmtCache.SqliteDb.DropLast | sqlite3/tea/generic/tclsqlite3.c:1279-1283 | the last statement is off the list and finalised; its predecessor is never null |
| StmtCache.SqliteDb.RemoveSurplus | sqlite3/tea/generic/tclsqlite3.c:1278-1284 | the loop evicts from the far end until the limit is met |
| StmtCache.SqliteDb.DbReleaseStmt | sqlite3/tea/generic/tclsqlite3.c:1244-1286 | refines the sequence-based release and keeps the links valid |
| StmtCache.SqliteDb.TrimSpaces | sqlite3/tea/generic/tclsqlite3.c:1110 | the text from its first character that is not a space |
| Eval.ResizeFits | sqlite3/tea/generic/tclsqlite3.c:1832-1851 | flushing and resizing under a running evaluation keep every handle accounted for |
| Eval.DbEvalContext.constructor | sqlite3/tea/generic/tclsqlite3.c:1336-1351 | a context at the start of its script that holds nothing |
| Eval.DbEvalContext.LetGo | sqlite3/tea/generic/tclsqlite3.c:1443-1463 | the held statement goes back to the cache or is finalised, and is held no more |
| Eval.DbEvalContext.TakeUp | sqlite3/tea/generic/tclsqlite3.c:1420-1423 | the next statement is the one a fresh compilation would give, whatever the cache holds, if no text in the cache or the script ends in a semicolon inside a comment; that stays so |
| Eval.DbEvalContext.Step | sqlite3/tea/generic/tclsqlite3.c:1426-1463 | one call of sqlite3_step: with a row the statement stays held, otherwise it goes back to the cache or, if it failed, is discarded |
| Eval.DbEvalContext.DbEvalStep | sqlite3/tea/generic/tclsqlite3.c:1415-1470 | terminates and does what the same loop without a cache does, other contexts holding what they like, under the same condition on the texts in play, which it keeps; every handle is in one place; the steps of the cache are given, and of the statements that gave no row exactly those that failed are discarded |
| Eval.DbEvalContext.DbEvalFinalize | sqlite3/tea/generic/tclsqlite3.c:1477-1489 | a held statement goes back to the cache, nothing is held afterwards, and every handle is in one place |
| Eval.DbEvalContext.RunScript | sqlite3/tea/generic/tclsqlite3.c:1415-1489 | under that condition a script runs the same sequence of statements with the cache as without it |
| TransactionSpec.RowsAreUnharmed | sqlite3/tea/generic/tclsqlite3.c:2745-2795 | the rows a level leaves are those written by scripts none of whose enclosing levels failed |
| TransactionSpec.KeptIsUnharmed | sqlite3/tea/generic/tclsqlite3.c:2745-2795 | the same of a whole command that was begun, itself included |
| TransactionSpec.TraceHasDepths | sqlite3/tea/generic/tclsqlite3.c:2781 | the depth traced with each write is its number of enclosing scripts |
| TransactionSpec.QuietOutcome | sqlite3/tea/generic/tclsqlite3.c:2745-2795 | if the engine refuses nothing, the outcome with refusals taken into account is those rows, and an error exactly of the script |
| TransactionSpec.CommandLostIff | sqlite3/tea/generic/tclsqlite3.c:1034-1050 | the transaction around a command is lost if and only if a closing statement is refused at its level or inside |
| TransactionSpec.ErrsIff | sqlite3/tea/generic/tclsqlite3.c:1034-1050 | a command ends in an error if and only if its opening statement is refused, its script fails, or the transaction is lost in it |
| SavepointEngine.Innermost | sqlite3/tea/generic/tclsqlite3.c:1021-1023 | a savepoint name means the innermost mark of that name |
| Transactions.CommandOpens | sqlite3/tea/generic/tclsqlite3.c:2747-2783 | in every state a command starts unless its opening statement is refused or, at the outermost level, its TYPE is unknown or it is exclusive or immediate outside autocommit; these two take their lock, and every other, also one without a TYPE, adds a savepoint to whatever is open |
| Transactions.NestedLevel | sqlite3/tea/generic/tclsqlite3.c:1015-1054 | opening, running and closing a nested level has the outcome's effect: the marks are restored although all levels share one name, or the transaction was rolled back to its start, or it had been lost before |
| Transactions.NestedAlive | sqlite3/tea/generic/tclsqlite3.c:1020-1031 | closing in the transaction it was opened in restores the marks and keeps the rows unless the script failed |
| Transactions.CloseRefused | sqlite3/tea/generic/tclsqlite3.c:1034-1050 | a refused closing statement rolls the whole transaction back |
| Transactions.CloseLost | sqlite3/tea/generic/tclsqlite3.c:1034-1050 | closing where the transaction has been lost is an error and changes nothing |
| Transactions.EffectThen | sqlite3/tea/generic/tclsqlite3.c:2745-2795 | effects of outcomes compose |
| Transactions.OutermostLevel | sqlite3/tea/generic/tclsqlite3.c:1015-1054 | closing the outermost level commits, or rolls everything back if the script failed or the closing statement is refused, or is an error if the transaction has been lost |
| Transactions.ModeRestoredIff | sqlite3/tea/generic/tclsqlite3.c:1020-1031 | the outermost command leaves the transaction mode it found if and only if it found autocommit |
| Transactions.OnlyOwnRowsUndoneIff | sqlite3/tea/generic/tclsqlite3.c:1020-1031 | its own outcome is all that changes the rows if and only if it ends without an error, or found autocommit, or the open transaction had changed nothing |
| Transactions.SqliteDb.Execute | sqlite3/tea/generic/tclsqlite3.c:1034 | statements run in order up to the first that fails; refused ones change nothing |
| Transactions.SqliteDb.DbTransPostCmd | sqlite3/tea/generic/tclsqlite3.c:1015-1054 | the counter goes down by one and the engine is as after the right one of four closing statements, with a rollback if that fails |
| Transactions.SqliteDb.EvalScript | sqlite3/tea/generic/tclsqlite3.c:2788-2793 | a script has its outcome's effect on the engine, nested refusals included, and the counter is back where it was |
| Transactions.SqliteDb.Transaction | sqlite3/tea/generic/tclsqlite3.c:2745-2795 | over every tree of nested scripts and refusals of opening and closing statements: the counter equals the nesting depth at every write and is restored, the error is reported, and the engine is as the outcome says |
| CsvSpec.QuotedRoundTrip | sqlite3/shell.c:1883-1890 | unquoting a doubled and quoted text gives the text back |
| CsvSpec.FieldRoundTrip | sqlite3/shell.c:624-653 | so for every field as printed, quoted or not |
| CsvSpec.SplitJoined | sqlite3/shell.c:1860-1872 | for every separator without quote and newline the splitter cuts a printed row into its printed fields if each is quoted or clear of separators |
| CsvSpec.SeparatorIsLocal | sqlite3/shell.c:1863 | whether a separator begins inside a field shows in the field and the separator behind it |
| CsvSpec.UnsafeRow | sqlite3/shell.c:1860-1889 | otherwise the row is refused or read as another one |
| CsvSpec.CutJoined | sqlite3/shell.c:365-374 | no record ends inside a printed row, whatever newlines are in it |
| CsvSpec.NoReturnAtEnd | sqlite3/shell.c:371 | no printed row ends in a carriage return that would be taken off |
| CsvSpec.GetPrintedLine | sqlite3/shell.c:337-378 | the line reader gives a printed row back |
| CsvSpec.RowRoundTrip | sqlite3/shell.c:1882-1892 | unquoting a row's printed fields gives the row |
| CsvSpec.CsvRoundTripIff | sqlite3/shell.c:801-814 | for every separator without quote and newline, every list of rows printed is imported again as it was if and only if each field is quoted or clear of separators at its place |
| CsvSpec.CsvRoundTrip | sqlite3/shell.c:801-814 | so every list of rows is, if the separator is one character |
| CsvSpec.LinesRoundTripIff | sqlite3/shell.c:371 | the same if and only if for rows that end in a carriage return and a newline each |
| CsvRecords.CutIff | sqlite3/shell.c:364-370 | for every input, a record ends at the first newline with an even number of quotes before it; without csv mode, at the first |
| CsvRecords.GetRecord | sqlite3/shell.c:369-374 | exactly one carriage return in front of that newline is taken off: a line is read as it is, whichever way it ends |
| CsvRecords.GetLastRecord | sqlite3/shell.c:356-363 | input in which no newline ends a record is one record, to its last character |
| CsvRecords.ImportRecordFirst | sqlite3/shell.c:1852-1900 | an import goes record by record, whatever stands in them and whichever way they end |
| CsvRecords.SplitIff | sqlite3/shell.c:1860-1880 | every record is accepted, with given fields, if and only if they are as many as the columns and each goes up to the first separator outside quotes |
| CsvRecords.BodyParts | sqlite3/shell.c:1883-1890 | behind an opening quote each quote is dropped and what follows it is taken as it is |
| CsvRecords.QuotedIff | sqlite3/shell.c:600-638 | a field is printed in quotes if and only if it is empty, has a space, a quote or a character outside printable ASCII in it, or the separator, or begins with a longer separator |
| CsvSpec.LongSeparatorBreaks | sqlite3/shell.c:633-634 | with the separator "ab" the row "xab" is refused |
| CsvSpec.LongSeparatorCorrupts | sqlite3/shell.c:633-634 | with the separator "aa" the row "xa", "b" is read back as "x", "ab" |
| CsvSpec.NoNulPrinted | sqlite3/shell.c:801-814 | rows without NUL characters are printed without any |
| CsvSpec.CellsAreFields | sqlite3/shell.c:809-812 | a line of cells without null values is a line of fields |
| Csv.OutputCsv | sqlite3/shell.c:624-653 | for any separator, the null value, or the field quoted exactly if it must be, and the separator if one is asked for |
| Csv.PrintRow | sqlite3/shell.c:809-812 | for any separator, the cells, null or not, with separators between them, and a newline |
| Csv.CutChunk | sqlite3/shell.c:357-374 | a chunk read by fgets either ends the record or belongs to it whole |
| Csv.Input.Fgets | sqlite3/shell.c:357 | up to a newline or the buffer's room, terminated, inside the buffer |
| Csv.ReadChunk | sqlite3/shell.c:357-369 | one more chunk keeps the quote state and says whether the record has ended |
| Csv.EndLine | sqlite3/shell.c:369-374 | the newline and one carriage return before it are taken off |
| Csv.LocalGetline | sqlite3/shell.c:337-378 | whatever the buffer's growth, the next record exactly fills the result, and the input stands behind it |
| CsvImport.UnquoteBody | sqlite3/shell.c:1885-1888 | in place: the body without its doubling, writing never past reading |
| CsvImport.Unquote | sqlite3/shell.c:1883-1890 | a quoted field is replaced by its text, and nothing outside it changes |
| CsvImport.NextColumn | sqlite3/shell.c:1863-1869 | a separator outside quotes ends a field and begins the next |
| CsvImport.TooMany | sqlite3/shell.c:1864-1866 | a separator behind the last column makes the record too long for good |
| CsvImport.LastColumn | sqlite3/shell.c:1872-1873 | at the end the count is right exactly if the record splits into that many fields, which then stand in the buffer in order |
| CsvImport.SplitColumns | sqlite3/shell.c:1857-1873 | the loop accepts exactly the records of nCol fields and leaves each field terminated at its place |
| CsvImport.ImportRecord | sqlite3/shell.c:1859-1892 | the unquoted fields of a record, or a refusal exactly if their number is wrong |
| CsvImport.ImportFile | sqlite3/shell.c:1853-1895 | the rows of the whole input, or none if some record does not fit |
| CStringSpec.ResolveEscape | sqlite3/shell.c:540-558 | each escape is read as the character it was printed for, whatever follows it |
| CStringSpec.CStringRoundTrip | sqlite3/shell.c:537-560 | for every byte string the escaped form resolves to the string |
| CStringSpec.NoQuoteEscaped | sqlite3/shell.c:1594-1597 | escaping brings in no quote |
| CStringSpec.ArgumentsRoundTrip | sqlite3/shell.c:1588-1605 | strings without quotes, printed in quotes on a line, are parsed as the arguments they were, up to the limit |
| CStringForms.ResolveDigits | sqlite3/shell.c:1494-1503 | one to three octal digits, as many as there are, are read as one character: their number modulo 256 |
| CStringForms.ResolveLetter | sqlite3/shell.c:1487-1493 | n, t and r behind a backslash are control characters, anything else stands for itself |
| CStringForms.ResolvePlain | sqlite3/shell.c:1484-1506 | text without backslashes is left as it is |
| CStringForms.EscapeForms | sqlite3/shell.c:541-557 | which escape is printed for which character: three octal digits exactly for what is not printable and has no letter |
| CStringForms.QuotedForm | sqlite3/shell.c:1591-1598 | an argument in quotes goes up to the same quote or the end, and only double quotes have escapes resolved |
| CStringForms.BareForm | sqlite3/shell.c:1599-1603 | any other argument goes up to a space or the end, with escapes resolved |
| CStringForms.FiftyArguments | sqlite3/shell.c:1586-1588 | fifty arguments come back, and no line gives more |
| ArgumentSpec.ReadsWithinIff | sqlite3/shell.c:1481-1508 | all places the loop reads are at or before the terminator if and only if the string has no lone backslash at its end, whatever stands behind it |
| ArgumentSpec.ReadsSuffice | sqlite3/shell.c:1481-1508 | what stands at any other place is of no matter to the loop |
| ArgumentSpec.ResolveString | sqlite3/shell.c:1481-1508 | then it stops at the terminator, having written the resolved string; otherwise it goes past it |
| ArgumentSpec.GoesOnBehind | sqlite3/shell.c:1484-1507 | after a lone backslash the loop goes on with what stands behind the terminator, resolves it, and moves it up by one place |
| ArgumentSpec.LoneBackslash | sqlite3/shell.c:1588-1605 | "a\" in quotes with " b" behind it: a place behind the terminator is read, and the blank and the letter move up |
| ArgumentSpec.ResolveAhead | sqlite3/shell.c:1598-1603 | an argument without a lone backslash is resolved at its place, and nothing outside it is touched |
| ArgumentSpec.LineContainedIff | sqlite3/shell.c:1588-1605 | for every line, each call made for an argument reads no further than that argument's terminator if and only if no resolved argument of the line ends in a lone backslash |
| ArgumentSpec.LineArguments | sqlite3/shell.c:1588-1605 | then each argument of the line stands resolved and terminated at the place found for it |
| CString.PutEscaped | sqlite3/shell.c:541-557 | the characters put out one by one are the escape |
| CString.OutputCString | sqlite3/shell.c:537-560 | the escaped string in quotes |
| CString.ReadSequence | sqlite3/shell.c:1486-1503 | the character an escape stands for, octal values modulo 256, and where it ends |
| CString.OneTurn | sqlite3/shell.c:1484-1506 | one turn of the loop reads one character or escape and writes one character |
| CString.ResolveBackslashes | sqlite3/shell.c:1481-1508 | in place, for whatever stands in memory as long as the loop ends inside it: what the loop writes, a NUL, and nothing else touched; writing never past reading |
| CString.TerminateArgument | sqlite3/shell.c:1591-1602 | the argument that begins here is found and terminated |
| CString.OneArgument | sqlite3/shell.c:1590-1604 | one turn of the parsing loop for quoted and plain arguments |
| CString.ParseArguments | sqlite3/shell.c:1586-1605 | for every line for which the loop stays in its memory: the buffer it leaves and the places of at most fifty arguments |
| Doubling.DoubledConcat | sqlite3/shell.c:507-532 | doubling goes through a text piece by piece |
| QuoteSpec.ReadDoubled | sqlite3/shell.c:923-928 | a quoted text is read back whatever it contains, if and only if what follows does not begin with the quote |
| QuoteSpec.LexQuoted | sqlite3/shell.c:923-928 | it is read as one literal or name, and reading goes on behind it |
| QuoteSpec.LexRender | sqlite3/shell.c:1295-1333 | generated SQL is read as the pieces it was made of, whatever texts were put into quotes |
| QuoteSpec.SelectReads | sqlite3/shell.c:1305-1333 | the dump query is read as meant for any table and column names, and the literal in it is read as the table's quoted name |
| QuoteSpec.HexRoundTrip | sqlite3/shell.c:496-502 | the hexadecimal digits give the bytes back |
| QuoteSpec.NumberIsPlain | sqlite3/shell.c:282-304 | a text taken for a number has no quotes in it |
| QuoteSpec.InsertReads | sqlite3/shell.c:815-846 | a row printed as an INSERT statement is read as meant for any table name and values, typed or not |
| InsertReader.InsertMeans | sqlite3/shell.c:815-846 | a reader of SQL gets back the table's name and each value, the null value and blobs included |
| InsertReader.PlainNameIff | sqlite3/shell.c:871-877 | a name is printed without quotes if and only if it is made of letters, digits and underscores with no digit in front |
| InsertReader.DecimalIsNumber | sqlite3/shell.c:282-304 | every decimal number, with or without sign, fraction and exponent, is taken for one |
| InsertReader.NumberIsDecimal | sqlite3/shell.c:282-304 | and only such a text is |
| DumpReader.DumpPrintsInsert | sqlite3/shell.c:1305-1333 | run on a row, the dump query prints an INSERT into the table of what quote() gives for each column, whatever the names are |
| Quoting.OutputQuotedString | sqlite3/shell.c:507-532 | both paths print the text in quotes with its quotes doubled |
| Quoting.WriteDoubled | sqlite3/shell.c:886-889 | the doubled text stands behind what was there, inside the room counted for it |
| Quoting.DoubledLength | sqlite3/shell.c:909-914 | the length counted beforehand is that of the doubled text |
| Quoting.AppendText | sqlite3/shell.c:902-937 | the old text and the new one, in quotes if asked for, fill the allocation to the last byte |
| Quoting.NeedsQuote | sqlite3/shell.c:871-877 | quotes are asked for exactly if the name is not an identifier, and the length is that of the doubled name |
| Quoting.CallbackData.SetTableName | sqlite3/shell.c:861-892 | the name as it is or in quotes fills its allocation to the last byte |
| Quoting.HeadText | sqlite3/shell.c:1305-1313 | the program's constant texts and the twice quoted name are the pieces of the query's head |
| Quoting.DumpQuery | sqlite3/shell.c:1305-1333 | the query built piece by piece is the rendering of its pieces |
| Quoting.OutputHexBlob | sqlite3/shell.c:496-502 | X and the quoted hexadecimal text |
| Quoting.LooksLikeNumber | sqlite3/shell.c:282-304 | true exactly for a sign, digits, a fraction and an exponent, of which only the first digits must be there |
| Quoting.PrintInsert | sqlite3/shell.c:815-846 | the printed row, its values typed or not, is the rendering of its pieces |
| InputSpec.StoppedForGood | sqlite3/shell.c:2598 | once stopped by "-bail" or an exit command, the shell takes no further line into account |
| InputSpec.TakePartitions | sqlite3/shell.c:2612-2678 | one line keeps the partition |
| InputSpec.EveryRunPartitions | sqlite3/shell.c:2587-2688 | over any lines, executed batches and leftover are the accepted SQL lines in order; each batch starts with SQL and was run at the first of its lines at which it could be |
| InputSpec.EveryLineHasFate | sqlite3/shell.c:2598-2679 | every line up to a stop is skipped as blank, run as a dot-command, or accepted as itself or, if a terminator, as a semicolon |
| InputSpec.TerminatorRuns | sqlite3/shell.c:2623-2625 | a terminator that completes the batch has it run there, if a newline before the semicolon does not matter to completeness |
| InputRuns.BatchesRunAtOnce | sqlite3/shell.c:2652-2653 | over any lines, each batch run has a semicolon in its last line and is complete, and no shorter beginning of it, and none of the leftover, is both |
| InputRuns.EveryLineTaken | sqlite3/shell.c:2598-2679 | as long as no command has asked to stop and, under "-bail", nothing has failed, and no longer, each line is skipped if blank, run if it begins with a dot, and otherwise accepted, the first two only between batches; it is accepted as a semicolon if and only if it is a terminator and the batch is complete with one |
| InputRuns.ErrorsCounted | sqlite3/shell.c:2613-2617 | each batch and each command that fails is one error, and the shell quits on the command that asks for it |
| InputRuns.BlankParts | sqlite3/shell.c:2526-2545 | spaces, and comments up to their first closing, count for nothing |
| InputRuns.BlankLines | sqlite3/shell.c:2526-2545 | nor do comments up to the end of a line or of the text |
| InputRuns.NotBlank | sqlite3/shell.c:2526-2545 | any other text, and a comment that is never closed, is not blank |
| InputRuns.TerminatorIff | sqlite3/shell.c:2552-2562 | a terminator is, between spaces and blanks, a slash or "go" in any case, and nothing else |
| InputRuns.TextIsRead | sqlite3/shell.c:2645-2650 | the text of a batch is read again as its lines |
| InputLoop.AllBlank | sqlite3/shell.c:2526-2545 | true exactly for spaces and closed comments |
| InputLoop.CommandTerminator | sqlite3/shell.c:2552-2562 | true exactly for a slash or "go" alone on the line |
| InputLoop.HasSemicolon | sqlite3/shell.c:2517-2521 | is there a semicolon among the next N characters |
| InputLoop.IsCompleteSql | sqlite3/shell.c:2568-2576 | the two bytes it writes are inside the allocation, and the text is as before afterwards |
| InputLoop.ReplaceTerminator | sqlite3/shell.c:2623-2625 | a completing terminator is overwritten inside its line buffer |
| InputLoop.Append | sqlite3/shell.c:2627-2650 | the new buffer holds the newline join, nSql is its length, and three bytes are left behind it |
| InputLoop.TakeSqlLine | sqlite3/shell.c:2623-2678 | one SQL line: appended, and the batch run and counted exactly if it is ready |
| InputLoop.TakeLine | sqlite3/shell.c:2612-2678 | one round of the loop does what the value-level step says |
| InputLoop.ProcessInput | sqlite3/shell.c:2587-2688 | batches run, dot-commands, error count and the complaint about unfinished SQL are those of the value-level run over the lines of the input |
| Tables.LineAt | sqlite3/shell.c:2324 | the entries of a line are every nPrintRow-th index from the line's own on |
| Tables.EachIndexOnce | sqlite3/shell.c:2322-2329 | index j is printed on line j mod rows at position j / rows and nowhere else: each once, in column-major order |
| Tables.LineFits | sqlite3/shell.c:2320-2322 | no line is empty or has more entries than there are columns |
| Tables.LineFitsScreen | sqlite3/shell.c:2316-2327 | if no name is longer than 78 characters, no line is |
| Tables.ColumnsIff | sqlite3/shell.c:2320-2321 | as many columns as fit 80 characters with two spaces behind each, and at least one |
| Tables.RowsIff | sqlite3/shell.c:2322 | no more lines than it takes |
| Tables.PaddedIs | sqlite3/shell.c:2326 | in a column, the name and then spaces up to the width |
| Tables.NamesLineUp | sqlite3/shell.c:2324-2327 | columns line up: each name of a line begins at a multiple of the column width, with spaces up to the next |
| Tables.Longest | sqlite3/shell.c:2316-2319 | the length of the longest name |
| Tables.PrintLine | sqlite3/shell.c:2324-2327 | the padded names of the line, two spaces before all but the first |
| Tables.PrintTables | sqlite3/shell.c:2312-2330 | every line of the layout |
| StopProtocol.CThread.SetArretThread | commun/Thread.h:33-40 | the flag is set, and a message is written exactly for a nonzero request with the pipe open |
| StopProtocol.CThread.GetArretThread | commun/Thread.h:42-48 | the flag as the loop tests it |
| StopProtocol.EveryRunReachable | commun/Thread.cpp:84-109 | in every run the thread exists only once its pipe does, and a closed pipe holds no message |
| StopProtocol.RequestEstablishes | commun/Thread.h:33-40 | a request through an open pipe leaves a message unread and the flag up |
| StopProtocol.NextRequested | commun/Thread.cpp:25-31 | every step keeps a request seen, the start-up reset of the flag included, and none begins a new call |
| StopProtocol.StaysRequested | commun/Thread.h:33-48 | in every interleaving the flag is nonzero or the pipe unread from then on |
| StopProtocol.RequestSticksIff | commun/Thread.h:36 | a request is pending for ever after if and only if the pipe was open when it was made |
| StopProtocol.NoCallAfterRequest | Soleil.cpp:37-54 | no test made after the request lets iGererCourbe be called |
| StopProtocol.EndsSoon | Soleil.cpp:24-59 | the thread has at most four steps left, and one more for each interrupted select |
| StopProtocol.EveryTimeoutCalls | Soleil.cpp:37-54 | while nobody asks it to stop and select does not fail, the thread stays in its loop, and each timeout is followed by one call of iGererCourbe before the next |
| StopProtocol.ComesRound | Soleil.cpp:37-54 | and four steps of its own from anywhere in the loop make one call |
| StopProtocol.FinishedIsMarked | commun/Thread.cpp:25-31 | once the thread has finished its flag is nonzero in every run |
| SolarSpec.Search | Soleil.cpp:68-75 | the first segment the time is in, or none |
| SolarSpec.UsedIsFreshIff | Soleil.cpp:67-78 | in a table of disjoint segments the index used is the one a search would find if and only if none was kept or the time is in the kept one |
| SolarSpec.DutyIsHeightIff | PwmGpio.cpp:58-63 | for every table, in an affine segment the duty cycle set is the height of the curve if and only if that is between 0 and 100 |
| SolarSpec.TickKeepsStep | Soleil.cpp:89-91 | the exit test drops the index exactly in time for a next tick that comes after the interval, midnight included |
| SolarSpec.TickKeepsIff | Soleil.cpp:67-91 | a tick in step keeps the index if and only if the next one falls into the segment too, and asks for the segment's interval; outside every segment interval and duty cycle stay |
| SolarSpec.EveryTickIsFresh | Soleil.cpp:62-95 | for every table of disjoint segments inside one day and every run of punctual ticks, index, duty cycle and abscissa are at each tick those of a stateless search |
| DefaultSun.Tiles | BaseSqlite.cpp:38-102 | each moment from 8h to 20h is in exactly one of the eight segments, and no other moment is in any |
| DefaultSun.DefaultSearch | BaseSqlite.cpp:38-102 | the segment a search finds at each time of the day |
| DefaultSun.DefaultIsDisjoint | BaseSqlite.cpp:38-102 | the default table is one of disjoint segments inside one day |
| DefaultSun.SegmentIsCurve | BaseSqlite.cpp:46-102 | every segment, its end included, lies on one curve through 12.5, 50, 80, 95 and 100 per cent: neighbours meet |
| DefaultSun.CurveHeights | BaseSqlite.cpp:46-102 | the heights at 8h, 9h, 11h, 13h, 14h and back |
| DefaultSun.CurveIsSymmetric | BaseSqlite.cpp:46-102 | the curve is symmetric about six hours after dawn |
| DefaultSun.RisesUntilNoon | BaseSqlite.cpp:46-102 | it rises strictly to 100 per cent at noon |
| DefaultSun.CurveIsContinuous | BaseSqlite.cpp:46-102 | it nowhere changes by more than 37.5 per cent an hour |
| DefaultSun.DutyIsCurveIff | PwmGpio.cpp:58-63 | the duty cycle set in daylight is the curve's height if and only if it is not 14h, where 50 stands for 100 |
| DefaultSun.NoonIsReached | Soleil.cpp:37-54 | a new controller first ticked by 11h, and then punctually, is ticked at 14h and sets 50 |
| Solar.CPwmGpio.SetRapportCyclique | PwmGpio.cpp:58-68 | a ratio outside the open range from 0 to 100 is replaced by 50, and high and low time make up the period |
| Solar.CSoleil.constructor | Soleil.cpp:11-17 | no segment kept, an interval of one second, and a duty cycle of 1 per cent |
| Solar.CSoleil.FindSegment | Soleil.cpp:66-79 | the index used, and the interval taken from a newly found segment only |
| Solar.CSoleil.IGererCourbe | Soleil.cpp:62-95 | fields and duty cycle are as after one value-level tick |
| Solar.CSoleil.Run | Soleil.cpp:37-54 | any number of punctual timeouts is the value-level run |

## Left out

- CRC-CCITT and CRC-32: only CRC-16 is selected in `commun/crc/crc.h`.
- The SQL compiler and engine: `sqlite3_prepare` is any function that meets `SqlText.Splits`, `sqlite3_complete`, the outcome of a batch and that of a dot-command are arbitrary functions, and savepoints follow SQLite's documentation of them.
- Tcl reference counts, parameter binding, error messages, hooks, incremental blobs, and closing the connection during an evaluation.
- Transactions.SqliteDb.Transaction: the ROLLBACK after a refused closing statement is not itself refused.
- Eval.DbEvalContext.RunScript: runs one script without interruption, other contexts merely holding statements; what they do in between is covered by the contract of DbEvalStep and by CacheSpec.EveryRunAccounts.
- Memory exhaustion, and overflow of the `int` lengths of text buffers.
- The derivation of the MD5 constants from the sine function, the wipe of the context after MD5Final, byteReverse on big-endian machines, and conversion of the digest to text.
- CsvSpec.CsvRoundTripIff: null values and the header row, which read back as text, and separators with a quote or a newline in them.
- CString.ResolveBackslashes: what happens where the loop leaves the memory, behind a lone backslash with no terminator behind it.
- QuoteSpec.Lex: brackets, backquotes and comments, which none of the generated constant texts contain.
- Interactive input, prompts, interrupts and timers of the input loop.
- Other output modes and dot-commands of the shell.
- StopProtocol: the pipe's capacity, so that writing a message never blocks; joining and deleting threads.
- Solar.CSoleil.IGererCourbe: time and interval widths, rounding of doubles, and logarithmic segments, for which the code sets nothing.
- Device registers, ioctl, timers, start-up, and the scheduler of profiles.
