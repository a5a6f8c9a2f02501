# Storlets: a model of the record query, the clause parser, process supervision, streams, datagrams and caches

The project models the parts of OpenStack Storlets that decide what a user gets back: how a file cut into
byte ranges is queried record by record, how a where-clause is parsed and evaluated, how daemons and their
children are supervised, how input files deliver their bytes, how datagrams travel over the bus, and how
storlet files reach a container. `dafny verify dfyconfig.toml` checks everything.

| file | models |
|---|---|
| Basics, JavaText | shared vocabulary; the string and integer operations of Java the code relies on |
| Records, PartitionsIdentity | records of a file, byte windows, adjacent ranges; PartitionsIdentityStorlet |
| CsvStorlet, CsvPartitions | CSVStorlet on one range, and on all ranges of a file |
| CommaHiding, Clauses, ClausePrinting, QueryText | the where-clause: argument splitting, parsing, evaluation, printing |
| Processes, Execution, Daemon | child processes with an environment that may end any of them before every system call; an execute datagram on both sides of the fork; StorletDaemon and its main loop |
| DaemonFactory, Activation | StorletDaemonFactory; activate_storlet_daemon and invocations on top of it |
| InputFiles | StorletInputFile, StorletRangeInputFile, RangeFileInputStream |
| Datagrams, SbusWire | datagrams and their bytes |
| RangeTexts, DescriptorRoles | the bounds of an input range as text; the roles of a datagram's descriptors in Python and in Java |
| StorletCache | bring_from_cache and update_container_from_cache |

The code that changes things step by step is modelled by classes and methods with loops, each proved
against a function or a property; what is promised about whole files, runs and histories is proved of those.
`hide` statements in proofs only keep definitions out of a proof that does not need them.

Assumptions, stated as preconditions or built into the model: records end in '\n' and characters are single
bytes; ranges are adjacent and not empty; the stream of a range holds the bytes from `start` to
`end + max_record_line`, both included; `max_record_line` is at least one and at least the longest record
without its terminator for the identity storlet, and at least two and at least the longest record with its
terminator for the CSV storlet; task ids are not drawn twice; process identities are not reused; SIGKILL ends
a process; the paired logger process starts; `waitpid` on an own child fails only with ECHILD; a common clock
stamps uploads and cache writes, no two alike; received descriptors get distinct numbers that were not in use; a
storlet closes its files by their own methods and leaves none of its own open when closing them raises; the
gateway reads a service channel until the answer is there; the descriptor of a ranged input stands at its
start and can be sought; bounds are ASCII texts; the JSON library reads back what it wrote and its text is ASCII.

The model follows the code also where its comments, or a caller, would expect something else:
- CSVStorlet counts one byte more than its range has (CSVStorlet.java:155), so ranges can overlap in one record.
- The guard at CSVStorlet.java:190 compares a field count with a column index and is one short: rows that
  lack just the last column get to the clause, which may raise.
- Input bounds that are no numbers raise before the try at server.py:203, so the child does not close its files.
- Surplus descriptors of a service datagram are accepted (datagram.py:146-151) and never closed; neither are those of
  a datagram that does not fit, nor the invocation's after a fork that fails.
- A byte range without a last position raises at obj.py:103; one without a first position reads the whole file.
- After an update that the factory did not hear of, because its messages were lost or because a later file could not
  be fetched, further invocations go on with the old daemon.
- A delivery is written straight into the cache (gateway.py:291-295), so a dependency that broke off stays cut.
- A start for a running daemon records its pipe before it is answered (daemon_factory/server.py:231-240).
- The comment at gateway.py:300-302 wants older container copies replaced; the test at line 318 compares the
  other way round and never fires.
- `readlines(sizehint)` adds to the hint at files.py:171, so the hint never ends the loop.

## Model
| member | source | states |
|---|---|---|
| PartitionsIdentity.PartitionsReproduceTheFile | StorletSamples/java/PartitionsIdentityStorlet/src/org/openstack/storlet/PartitionsIdentityStorlet.java:41-66 | Main theorem: for every file and every list of adjacent ranges covering it, the per-range outputs in order are exactly the file's records, none lost, repeated or cut, even when ranges are shorter than a record; as bytes they are the file, with its last line terminated |
| PartitionsIdentity.PartitionsIdentityStorlet.Invoke | StorletSamples/java/PartitionsIdentityStorlet/src/org/openstack/storlet/PartitionsIdentityStorlet.java:92-212 | One invocation on its stream: no output when a parameter is missing; otherwise the first line only in the first partition and then every record that starts no later than one byte past the range; the running total grows by the records written |
| PartitionsIdentity.RangeOfFile | StorletSamples/java/PartitionsIdentityStorlet/src/org/openstack/storlet/PartitionsIdentityStorlet.java:117-117 | The "bytes left" counter is an absolute position: a range of the file emits the records that start after `start` and no later than `end + 1` |
| PartitionsIdentity.OutputsTile | StorletSamples/java/PartitionsIdentityStorlet/src/org/openstack/storlet/PartitionsIdentityStorlet.java:191-203 | Any number of adjacent ranges emit together what one range from the first start to the last end would |
| PartitionsIdentity.RangesJoin | StorletSamples/java/PartitionsIdentityStorlet/src/org/openstack/storlet/PartitionsIdentityStorlet.java:191-203 | Two neighbouring ranges share no record and leave none out, also when a range lies inside one record |
| Records.StartsAreExact | StorletSamples/java/PartitionsIdentityStorlet/src/org/openstack/storlet/PartitionsIdentityStorlet.java:191-203 | The starts met by reading line after line are exactly the offsets that follow a newline, up to the bound |
| Records.StartsAscend | StorletSamples/java/PartitionsIdentityStorlet/src/org/openstack/storlet/PartitionsIdentityStorlet.java:191-203 | Records are met in ascending order of their starts |
| Records.LinesAreTheRecords | StorletSamples/java/PartitionsIdentityStorlet/src/org/openstack/storlet/PartitionsIdentityStorlet.java:191-203 | The lines read are the records at those starts |
| PartitionsIdentity.EachRecordOnce | StorletSamples/java/PartitionsIdentityStorlet/src/org/openstack/storlet/PartitionsIdentityStorlet.java:117-202 | The outputs of all ranges are the records at the offsets that follow a newline, each once and in ascending order, stated without reference to reading |
| Records.LinesSplit | StorletSamples/java/PartitionsIdentityStorlet/src/org/openstack/storlet/PartitionsIdentityStorlet.java:120-137 | Discarding the line at an offset and reading on resumes exactly where reading up to that offset stopped |
| Records.WindowLines | StorletSamples/java/PartitionsIdentityStorlet/src/org/openstack/storlet/PartitionsIdentityStorlet.java:47-53 | A stream that reaches the longest record past the bound yields the same lines as the whole file |
| Records.WindowDropsFirstLine | StorletSamples/java/PartitionsIdentityStorlet/src/org/openstack/storlet/PartitionsIdentityStorlet.java:63-65 | The same after the possibly broken first line of the stream was dropped |
| Records.LinesAreTheFile | StorletSamples/java/PartitionsIdentityStorlet/src/org/openstack/storlet/PartitionsIdentityStorlet.java:191-203 | Writing all records back gives the bytes of the file |
| CsvPartitions.PartitionedQuery | StorletSamples/java/CsvStorlet/src/org/openstack/storlet/csv/CSVStorlet.java:155-221 | Main theorem: for every file, query and list of adjacent ranges, the outputs of all ranges in order are the query over the file's records in order, where a record comes twice exactly when the byte before it is the first byte of a range after the first |
| CsvPartitions.InvokeRanges | StorletSamples/java/CsvStorlet/src/org/openstack/storlet/csv/CSVStorlet.java:112-246 | The query run range by range through Invoke: a range fails exactly when the clause does not parse or a range after the first starts past the end of the file, and as soon as the clause parses the bytes written are those of the query over the file |
| CsvPartitions.OnceOrTwice | StorletSamples/java/CsvStorlet/src/org/openstack/storlet/csv/CSVStorlet.java:155-181 | The records looked at, in terms of the file alone: every offset that follows a newline once, or twice exactly when the byte before it is the first byte of a later range, and no other offset; in ascending order |
| CsvPartitions.SecondRecordTwice | StorletSamples/java/CsvStorlet/src/org/openstack/storlet/csv/CSVStorlet.java:155-176 | Witness: "a\nb\n" cut after its first byte gives a, b, b |
| CsvPartitions.NoRepetitionIff | StorletSamples/java/CsvStorlet/src/org/openstack/storlet/csv/CSVStorlet.java:155-176 | The ranges look at every record once if and only if no later range starts on the newline of a record that is not the last |
| CsvPartitions.RangesLookAt | StorletSamples/java/CsvStorlet/src/org/openstack/storlet/csv/CSVStorlet.java:155-181 | The records all ranges look at, as one sequence: coverage, order and the exact repetitions |
| CsvPartitions.RangeOfFile | StorletSamples/java/CsvStorlet/src/org/openstack/storlet/csv/CSVStorlet.java:155-176 | Because the counter starts one higher than in the identity storlet, a range goes on to records that start two bytes past its end |
| CsvPartitions.DoubledSplit | StorletSamples/java/CsvStorlet/src/org/openstack/storlet/csv/CSVStorlet.java:155-176 | The only record a range shares with the next one starts right after the first byte of that next range |
| CsvPartitions.OutputsAreTheQuery | StorletSamples/java/CsvStorlet/src/org/openstack/storlet/csv/CSVStorlet.java:176-221 | Filtering and projecting range by range is filtering and projecting the records put together |
| CsvStorlet.Invoke | StorletSamples/java/CsvStorlet/src/org/openstack/storlet/csv/CSVStorlet.java:112-246 | One invocation: fails before reading when the clause does not parse or a later partition has an empty stream; otherwise writes, in order, the projected records that pass, and ends with the four counters |
| CsvStorlet.CountersConserveRows | StorletSamples/java/CsvStorlet/src/org/openstack/storlet/csv/CSVStorlet.java:176-221 | Every row consumed moves exactly one of the four counters: the valid ones are the rows written, the others count the rows rejected, malformed and too short |
| CsvStorlet.EmittedInOrder | StorletSamples/java/CsvStorlet/src/org/openstack/storlet/csv/CSVStorlet.java:176-221 | The rows written are the selected ones, in order |
| CsvStorlet.LongRowsAreDecided | StorletSamples/java/CsvStorlet/src/org/openstack/storlet/csv/CSVStorlet.java:183-216 | A row with more fields than the maximum column never raises: it is written, projected, exactly when the clause holds of it |
| CsvStorlet.GuardIsOneShort | StorletSamples/java/CsvStorlet/src/org/openstack/storlet/csv/CSVStorlet.java:190-220 | For every clause without negative columns: a row is too short exactly when it has fewer fields than the maximum column, and malformed exactly when it has as many and evaluation reaches a leaf it has no field for |
| CsvStorlet.RecordsAreDecided | StorletSamples/java/CsvStorlet/src/org/openstack/storlet/csv/CSVStorlet.java:183-220 | For every clause and row: too short, raised by the clause, rejected, raised by the projection, or written; which one, in terms of the clause's meaning |
| CsvStorlet.OnlyShortRowsRaise | StorletSamples/java/CsvStorlet/src/org/openstack/storlet/csv/CSVStorlet.java:190-216 | Only rows that lack a column of the clause can raise |
| CsvStorlet.OneShortWitnesses | StorletSamples/java/CsvStorlet/src/org/openstack/storlet/csv/CSVStorlet.java:190-220 | Rows that lack just the last column: a leaf raises, an And may reject before it gets there, an Or may accept |
| CsvStorlet.WithoutCondition | StorletSamples/java/CsvStorlet/src/org/openstack/storlet/csv/CSVStorlet.java:201-207 | Without a where-clause all records are written; a negative selected column makes a record malformed |
| CsvStorlet.ChooseColumns | StorletSamples/java/CsvStorlet/src/org/openstack/storlet/csv/CSVStorlet.java:327-345 | The loop gives the selected fields that exist, comma separated, or raises on a negative column |
| CsvStorlet.PickedInOrder | StorletSamples/java/CsvStorlet/src/org/openstack/storlet/csv/CSVStorlet.java:332-343 | Selected columns come out in the order they were asked for |
| CsvStorlet.PickedOneByOne | StorletSamples/java/CsvStorlet/src/org/openstack/storlet/csv/CSVStorlet.java:332-343 | A selected column past the end of the row contributes nothing, not even a comma |
| CsvStorlet.BlankConditionParses | StorletSamples/java/CsvStorlet/src/org/openstack/storlet/csv/clauses/Clause.java:134-138 | A blank where-clause is the empty clause, so a query that only selects columns never fails over it |
| JavaText.SplitKeeps | StorletSamples/java/CsvStorlet/src/org/openstack/storlet/csv/CSVStorlet.java:186-186 | The fields of a record: all pieces up to the last that is not empty, and the whole text when there is no separator |
| JavaText.PiecesAreTheText | StorletSamples/java/CsvStorlet/src/org/openstack/storlet/csv/CSVStorlet.java:186-186 | The pieces are what lies between the separators |
| JavaText.TrimExactly | StorletSamples/java/CsvStorlet/src/org/openstack/storlet/csv/clauses/Clause.java:134-136 | Trimming takes blanks away, all of them at both ends, and nothing else |
| CommaHiding.ArgumentsAreDepthSplitIff | StorletSamples/java/CsvStorlet/src/org/openstack/storlet/csv/clauses/Clause.java:161-166 | Main theorem: hiding nested commas, splitting at every comma and restoring equals the direct split at commas of bracket depth at most zero, for every string, balanced or not, if and only if the string does not hold the token |
| CommaHiding.CommaSeparatesIffOutside | StorletSamples/java/CsvStorlet/src/org/openstack/storlet/csv/clauses/Clause.java:199-208 | What the direct split is: a comma separates exactly when no more brackets were opened than closed before it |
| CommaHiding.DepthCounts | StorletSamples/java/CsvStorlet/src/org/openstack/storlet/csv/clauses/Clause.java:199-208 | Round and square brackets count alike, whether or not they match |
| CommaHiding.ArgumentsAreDepthSplit | StorletSamples/java/CsvStorlet/src/org/openstack/storlet/csv/clauses/Clause.java:161-166 | The sufficient direction of the same, for texts without the token |
| CommaHiding.PiecesOfHidden | StorletSamples/java/CsvStorlet/src/org/openstack/storlet/csv/clauses/Clause.java:162-166 | Restored pieces of hidden text are the pieces between commas outside brackets |
| CommaHiding.TokenOnlyWhereHidden | StorletSamples/java/CsvStorlet/src/org/openstack/storlet/csv/clauses/Clause.java:38-38 | In hidden text the token stands only where a comma was: it is unbordered, so nothing in front can run into it |
| CommaHiding.TokenIsLost | StorletSamples/java/CsvStorlet/src/org/openstack/storlet/csv/clauses/Clause.java:228-242 | Restoring text that held the token loses characters |
| CommaHiding.ArgumentsShrink | StorletSamples/java/CsvStorlet/src/org/openstack/storlet/csv/clauses/Clause.java:161-172 | No argument is longer than the text between the brackets, whatever it holds; this makes the recursion of the parser end on every input |
| CommaHiding.ReplaceNonRelevantCommas | StorletSamples/java/CsvStorlet/src/org/openstack/storlet/csv/clauses/Clause.java:190-226 | The two loops over the inhibited array compute the hidden text |
| CommaHiding.ReplaceBackCommas | StorletSamples/java/CsvStorlet/src/org/openstack/storlet/csv/clauses/Clause.java:228-242 | The loop restores every piece |
| ClausePrinting.ParsePrinted | StorletSamples/java/CsvStorlet/src/org/openstack/storlet/csv/clauses/Clause.java:100-183 | Main theorem: printing any And/Or/leaf tree and parsing the text, with or without blanks around it, gives the tree back; operands may hold brackets that cancel out |
| ClausePrinting.SpacesMeanAnd | StorletSamples/java/CsvStorlet/src/org/openstack/storlet/csv/clauses/Clause.java:143-149 | A space-separated list parses to the tree that And(...) of the same clauses has |
| ClausePrinting.TextEvaluatesToMeaning | StorletSamples/java/CsvStorlet/src/org/openstack/storlet/csv/CSVStorlet.java:301-309 | The parsed text, evaluated on a row with more fields than the maximum column, answers the logical meaning of the clause |
| ClausePrinting.ArgumentsOfJoin | StorletSamples/java/CsvStorlet/src/org/openstack/storlet/csv/clauses/Clause.java:161-166 | The arguments of printed clauses are the printed clauses |
| ClausePrinting.ParseLeafPrinted | StorletSamples/java/CsvStorlet/src/org/openstack/storlet/csv/clauses/LeafClause.java:62-91 | Printed leaves parse to their operator, column and operand |
| ClausePrinting.LeafTexts | StorletSamples/java/CsvStorlet/src/org/openstack/storlet/csv/clauses/LeafOperator.java:21-79 | The five operators under the names they have in a where-clause |
| ClausePrinting.ListTexts | StorletSamples/java/CsvStorlet/src/org/openstack/storlet/csv/clauses/Clause.java:150-158 | And and Or of two clauses as they are written |
| ClausePrinting.UnknownOperatorRaises | StorletSamples/java/CsvStorlet/src/org/openstack/storlet/csv/clauses/LeafClause.java:65-79 | A word that starts with none of the seven names raises |
| ClausePrinting.OneArgumentRaises | StorletSamples/java/CsvStorlet/src/org/openstack/storlet/csv/clauses/Clause.java:161-172 | And or Or of a single clause raises |
| ClausePrinting.BadColumnRaises | StorletSamples/java/CsvStorlet/src/org/openstack/storlet/csv/clauses/LeafClause.java:80-90 | A leaf whose column is no number raises |
| ClausePrinting.PrintIsSolid | StorletSamples/java/CsvStorlet/src/org/openstack/storlet/csv/clauses/Clause.java:100-139 | A printed clause is untrimmed text without spaces and token, and keeps all its commas inside brackets |
| QueryText.MarksMeanAnd | StorletSamples/java/CsvStorlet/src/org/openstack/storlet/csv/CSVStorlet.java:117-121 | Clauses joined by XYZYX reach the parser as their conjunction |
| Clauses.ParsedIsShaped | StorletSamples/java/CsvStorlet/src/org/openstack/storlet/csv/clauses/AndClause.java:30-39 | Whatever text is parsed, every And and Or that comes out has at least two children and every column is an int |
| Clauses.EvaluationIsMeaning | StorletSamples/java/CsvStorlet/src/org/openstack/storlet/csv/clauses/AndClause.java:60-68 | Short-circuit evaluation answers the logical meaning whenever it answers, and it answers whenever the row has the columns |
| Clauses.EvaluationExactly | StorletSamples/java/CsvStorlet/src/org/openstack/storlet/csv/clauses/AndClause.java:60-68 | For every clause and every row: evaluation raises exactly when it reaches a missing column, an And through children that hold, an Or through children that fail, and answers the logical meaning everywhere else |
| Clauses.AllValidExactly | StorletSamples/java/CsvStorlet/src/org/openstack/storlet/csv/clauses/AndClause.java:60-68 | The And scan raises exactly at a child that raises after children that all hold |
| Clauses.AnyValidExactly | StorletSamples/java/CsvStorlet/src/org/openstack/storlet/csv/clauses/OrClause.java:60-68 | The Or scan raises exactly at a child that raises after children that all fail |
| Clauses.AllValidIsMeaning | StorletSamples/java/CsvStorlet/src/org/openstack/storlet/csv/clauses/AndClause.java:60-68 | The And scan is a conjunction |
| Clauses.AnyValidIsMeaning | StorletSamples/java/CsvStorlet/src/org/openstack/storlet/csv/clauses/OrClause.java:60-68 | The Or scan is a disjunction |
| Clauses.HoldsIsFieldMeets | StorletSamples/java/CsvStorlet/src/org/openstack/storlet/csv/clauses/LeafOperator.java:21-79 | The five operators mean equality, inequality, prefix, suffix and substring, empty operands and fields included |
| Clauses.MaxColDecidesColumns | StorletSamples/java/CsvStorlet/src/org/openstack/storlet/csv/clauses/Clause.java:88-98 | The maximum column tells exactly which rows have every column the clause reads |
| Clauses.CompoundClause.GetMaxCol | StorletSamples/java/CsvStorlet/src/org/openstack/storlet/csv/clauses/Clause.java:88-98 | The memoised maximum equals the recomputed one |
| Clauses.CompoundClause.AddChild | StorletSamples/java/CsvStorlet/src/org/openstack/storlet/csv/clauses/Clause.java:58-62 | A memo already taken stays right exactly for children that do not exceed it |
| JavaText.IntRoundTrip | StorletSamples/java/CsvStorlet/src/org/openstack/storlet/csv/clauses/LeafClause.java:83-83 | Reading back the decimal text of any int gives the int |
| JavaText.RefusedNumbers | StorletSamples/java/CsvStorlet/src/org/openstack/storlet/csv/clauses/LeafClause.java:83-83 | Texts that are no decimal numbers or do not fit are refused |
| JavaText.DigitsCountInTens | StorletSamples/java/CsvStorlet/src/org/openstack/storlet/csv/clauses/LeafClause.java:83-83 | Digits count in tens |
| InputFiles.Run | storlets/agent/daemon/files.py:122-196 | Any sequence of read, readline and readlines calls on a plain or ranged file returns, put together, the bytes still to come, from the first one on |
| InputFiles.StorletInputFile.Plain | storlets/agent/daemon/files.py:122-126 | A plain file has its whole content to deliver |
| InputFiles.StorletInputFile.Ranged | storlets/agent/daemon/files.py:177-186 | A ranged file has exactly the bytes from start up to, not including, end |
| InputFiles.StorletInputFile.ReadFile | storlets/agent/daemon/files.py:188-196 | The direct read of either class |
| InputFiles.StorletInputFile.Read | storlets/agent/daemon/files.py:134-145 | Pushed back bytes come first; exactly size bytes are returned, or all that remain |
| InputFiles.StorletInputFile.Readline | storlets/agent/daemon/files.py:147-161 | The line and what is pushed back add up to the bytes that were to come |
| InputFiles.ReadlineIsShortest | storlets/agent/daemon/files.py:147-161 | readline(size) returns the shortest prefix ending in a newline, at size, or at the end of the data |
| InputFiles.StorletInputFile.Readlines | storlets/agent/daemon/files.py:163-174 | readlines() is the line split of all that remains; a positive hint never ends the loop, a hint of zero reads nothing |
| InputFiles.LinesAreTheData | storlets/agent/daemon/files.py:163-174 | The lines put together are the data |
| InputFiles.LinesAreLines | storlets/agent/daemon/files.py:163-174 | Every line but the last ends in a newline, and none holds one before its end |
| InputFiles.HintedLinesAreTheData | storlets/agent/daemon/files.py:163-174 | No byte is lost with a hint |
| InputFiles.RangeFileInputStream.constructor | src/java/SCommon/src/main/org/openstack/storlet/common/RangeFileInputStream.java:45-51 | The stream starts with the bytes of the range, its length cut to an int |
| InputFiles.RangeFileInputStream.Read | src/java/SCommon/src/main/org/openstack/storlet/common/RangeFileInputStream.java:59-67 | The next byte, or -1 exactly at the end of the range or file |
| InputFiles.RangeFileInputStream.ReadInto | src/java/SCommon/src/main/org/openstack/storlet/common/RangeFileInputStream.java:80-102 | A non-empty prefix of what remains, no longer than asked for, or -1 exactly at the end |
| InputFiles.RangeFileInputStream.Skip | src/java/SCommon/src/main/org/openstack/storlet/common/RangeFileInputStream.java:105-117 | Skips what remains of the range at most, also past the end of the file; a negative argument steps back without the counter noticing, or raises in front of the file |
| InputFiles.Drain | src/java/SCommon/src/main/org/openstack/storlet/common/RangeFileInputStream.java:58-102 | Reading to the end, with single-byte reads and requests of any sizes in any order and short reads, gives all that remained |
| InputFiles.RunJava | src/java/SCommon/src/main/org/openstack/storlet/common/RangeFileInputStream.java:58-117 | Any list of single-byte reads, three-argument reads and skips: the bytes returned are those still to come with exactly the skipped stretches left out, and no call moves past the end of a range that fits an int |
| InputFiles.ReadsKeepAll | src/java/SCommon/src/main/org/openstack/storlet/common/RangeFileInputStream.java:58-102 | Without skips the bytes returned are a prefix of those still to come |
| InputFiles.ReadInBoth | src/java/SCommon/src/main/org/openstack/storlet/common/RangeFileInputStream.java:45-102 | For any reads in Java and any calls in Python on one range, what the methods return are prefixes of the same bytes |
| InputFiles.ReadAllInBoth | src/java/SCommon/src/main/org/openstack/storlet/common/RangeFileInputStream.java:45-102 | The whole range read in both languages: the same bytes exactly when the bytes that exist fit Java's int counter |
| InputFiles.ReadBeyondAnInt | src/java/SCommon/src/main/org/openstack/storlet/common/RangeFileInputStream.java:45-51 | Witness: of a range one byte longer than an int counts Java reads nothing, Python all the file has of it |
| InputFiles.JavaReadsWhatPythonReads | src/java/SCommon/src/main/org/openstack/storlet/common/RangeFileInputStream.java:45-51 | The windows the two constructors set up are the same exactly when the bytes that exist fit Java's int counter |
| InputFiles.HttpRange | storlets/swift_middleware/handlers/obj.py:99-103 | A byte range (section 2.1 of RFC 7233) with both positions gives exactly the bytes it names; without a last position it always raises; without a first one the whole file is given, which is right exactly when at least that much was asked for |
| Daemon.PoolIsRespected | storlets/agent/daemon/server.py:158-170 | In every state the methods keep: each running child has exactly one task, and at most pool_size children run |
| Daemon.RunningAtMostTasks | storlets/agent/daemon/server.py:62-63 | No more children run than tasks are on record |
| Daemon.StorletDaemon.CleanupPids | storlets/agent/daemon/server.py:66-87 | Tasks go exactly when their child had ended and was reaped, all others were running; nothing else changes |
| Daemon.StorletDaemon.RemovePid | storlets/agent/daemon/server.py:89-98 | Drops the task of the pid, if there is one |
| Daemon.StorletDaemon.WaitChildProcess | storlets/agent/daemon/server.py:100-126 | Unreaped children plus tasks on record strictly decrease on every call, also when an untracked cancelled child is reaped; it blocks only when all tasks were found running, and then for one child |
| Daemon.StorletDaemon.WaitAllChildProcesses | storlets/agent/daemon/server.py:128-132 | The final loop ends, and then no child runs |
| Daemon.StorletDaemon.Execute | storlets/agent/daemon/server.py:158-180 | With a free place it forks at once and all tasks stay; with a full pool it waits, only while the pool is full, and a task goes only when its child was reaped; then a new child runs under the new task, or the fork fails and leaves no task |
| Daemon.StorletDaemon.WaitForPlace | storlets/agent/daemon/server.py:163-164 | The pool was full before every wait and has a place after the last |
| Daemon.StorletDaemon.ForkTask | storlets/agent/daemon/server.py:166-170 | The new child runs and is recorded under the new task, beside all others |
| Daemon.StorletDaemon.Cancel | storlets/agent/daemon/server.py:215-229 | Succeeds exactly for a task on record, ends its child and drops only that task |
| Daemon.StorletDaemon.Dispatch | storlets/agent/common/server.py:108-139 | Each datagram is answered once, by the daemon and not by the child it forks; when no child is forked all received descriptors but the service channel stay open; cancel and halt end the loop; only execute and cancel change tasks |
| Daemon.StorletDaemon.Handle | storlets/agent/common/server.py:120-130 | What each handler does to tasks and children, and that an unknown command or a fork that fails becomes a failure answer |
| Daemon.Conclude | storlets/agent/common/server.py:120-139 | From the fork to the answer, for any command |
| Daemon.StorletDaemon.Listen | storlets/agent/common/server.py:198-225 | The loop stops with the first round that calls for it: an error, a command that ends it, 600 silent rounds, or a datagram whose descriptors do not fit, which raises |
| Daemon.SixHundredRounds | storlets/agent/common/server.py:208-213 | 300 seconds of silence are 600 rounds |
| Daemon.StorletDaemon.MainLoop | storlets/agent/common/server.py:182-230 | Over any sequence of rounds: returns only when no child runs, every datagram whose descriptors fit was answered once and by the daemon, its descriptors are conserved up to the exact surplus of the datagrams, the status tells errors apart, and it raises exactly for a datagram whose descriptors do not fit |
| Daemon.ReceiveMisfit | src/c/sbus/sbus.c:471-504 | All descriptors of a datagram that does not fit are open when that is found out, and stay open |
| DaemonFactory.OneDaemonPerName | storlets/agent/daemon_factory/server.py:49-52 | At most one daemon runs per storlet name, and distinct names have distinct processes on record |
| DaemonFactory.StorletDaemonFactory.StatusByName | storlets/agent/daemon_factory/server.py:249-299 | Answers whether the daemon on record runs, and reaps it if it ended |
| DaemonFactory.StorletDaemonFactory.WaitForDaemonToInitialize | storlets/agent/daemon_factory/server.py:172-198 | Pings until one is answered, the bus breaks or ten were made; true exactly when the last was answered, and only a running daemon answers |
| DaemonFactory.StorletDaemonFactory.SpawnSubprocess | storlets/agent/daemon_factory/server.py:111-170 | After a spawn, whatever its outcome, a daemon of the storlet that runs is the new process and listens on the pipe on record |
| DaemonFactory.StorletDaemonFactory.ProcessStartDaemon | storlets/agent/daemon_factory/server.py:200-247 | Already running exactly when the status check found the daemon running; started exactly when a process was spawned, was alive and answered the last ping; whatever the reply, a daemon that runs is new unless the reply says otherwise; the records stay right; the pipe on record is the one a running daemon listens on except exactly when "already running" answers a start with another pipe |
| DaemonFactory.StorletDaemonFactory.ProcessKill | storlets/agent/daemon_factory/server.py:301-331 | Succeeds exactly for a daemon on record that was not reaped yet; a stale record stays; the killed daemon no longer runs and may be left unreaped |
| DaemonFactory.StorletDaemonFactory.ProcessKillAll | storlets/agent/daemon_factory/server.py:333-356 | The names split into killed and failed; exactly the failed ones stay on record, and those are the ones reaped before |
| DaemonFactory.StorletDaemonFactory.ShutdownProcess | storlets/agent/daemon_factory/server.py:390-436 | The pipe lookup never fails; succeeds exactly when the daemon acknowledges and was not reaped yet |
| DaemonFactory.StorletDaemonFactory.ShutdownAllProcesses | storlets/agent/daemon_factory/server.py:358-388 | The same split for shutdown; with nothing on record it changes nothing |
| DaemonFactory.StorletDaemonFactory.HaltAndTerminate | storlets/agent/daemon_factory/server.py:499-510 | After a successful halt the second shutdown finds nothing to do and no daemon runs; otherwise exactly the daemons are forgotten that acknowledged one of the two and were not reaped |
| DaemonFactory.StorletDaemonFactory.Serve | storlets/agent/daemon_factory/server.py:438-510 | Over any run of commands and crashes the records stay right, the pipes on record are the right ones as long as every storlet is started with its own pipe, it stops with the first command that ends it, no daemon is left that was not reaped and acknowledges the last shutdown, and unless that raises no daemon runs in the end |
| DaemonFactory.StorletDaemonFactory.ServeOne | storlets/agent/daemon_factory/server.py:438-506 | What each command does to the record and when it succeeds |
| DaemonFactory.Spawned | storlets/agent/daemon_factory/server.py:133-170 | A new process for a storlet without a running daemon keeps the records right, recorded if it is still alive |
| Activation.Sandbox.Activate | storlets/gateway/gateways/container/runtime.py:485-518 | Completes exactly when a daemon was seen running and nothing was updated, or a start was confirmed; a daemon then runs, after an update one spawned by this activation; the container is replaced exactly when the factory did not answer or confirm and the restart got so far, and otherwise the daemons of other storlets stay on record; after an update a daemon from before is still in use exactly when status or stop did not get through and the restart raised without replacing the container |
| Activation.Sandbox.Status | storlets/gateway/gateways/container/runtime.py:486-490 | The status request, with a restart when it is not answered |
| Activation.Sandbox.Stop | storlets/gateway/gateways/container/runtime.py:498-506 | The stop request for a running daemon, with a restart only when it is not confirmed |
| Activation.Sandbox.Start | storlets/gateway/gateways/container/runtime.py:508-518 | The start request where no daemon runs; a process is spawned exactly when the language is supported and the runtime there |
| Activation.Sandbox.Restart | storlets/gateway/gateways/container/runtime.py:383-404 | Either a new empty factory, or the call raises |
| Activation.Gateway.Invocation | storlets/gateway/gateways/container/gateway.py:173-182 | Container update and activation together: a fetch that raises ends the invocation before the activation, with the files before it already copied; the activation is told of an update exactly when the container's files changed; when they did, the daemon is older than the container's code exactly when one ran and either a later fetch raised or the factory heard nothing of the update; otherwise a current daemon stays current; other storlets' daemons stay on record unless the container had to be restarted |
| Activation.Gateway.History | storlets/gateway/gateways/container/gateway.py:173-182 | Over any history of uploads, deletions and invocations, failed ones and missing files included, a daemon older than the container's code is in use only if after the last replacement of files a fetch raised or the factory heard nothing of it |
| Activation.Gateway.StaleAfterFailedFetch | storlets/gateway/gateways/container/gateway.py:328-357 | Witness: a new version brought together with a dependency that cannot be fetched; the next invocation, without any fault, completes with the old daemon |
| Activation.Gateway.StaleDaemonInUse | storlets/gateway/gateways/container/gateway.py:173-182 | Witness: after a missed update the next invocation, without any fault, completes with the old daemon |
| Datagrams.DatagramRoundTrip | storlets/sbus/datagram.py:254-274 | Encoding and decoding an accepted datagram gives the same command, parameters and metadata; empty params and task id come back absent |
| Datagrams.DescriptorRoundTrip | storlets/sbus/datagram.py:35-48 | A descriptor comes back with its type and metadata; only a user key named "type" is lost |
| Datagrams.MetadataRoundTrip | storlets/sbus/datagram.py:35-48 | String maps survive |
| Datagrams.AcceptedExactly | storlets/sbus/datagram.py:146-151 | Which descriptor lists a command accepts, position by position |
| Datagrams.TypeNames | storlets/sbus/file_description.py:16-21 | The six descriptor types under the names they have in a message, and no others |
| Datagrams.DescriptorIsRead | storlets/sbus/datagram.py:42-48 | A descriptor is read from its metadata, keys spelled out |
| Datagrams.CommandIsRead | storlets/sbus/datagram.py:263-274 | A command is read from its message, keys spelled out |
| Datagrams.MisfitsAreRefused | storlets/sbus/datagram.py:269-274 | Messages with another number of descriptors, or with the wrong ones, are refused |
| SbusWire.OverTheBus | storlets/sbus/datagram.py:254-274 | The whole trip, JSON, bytes, receive buffer and back, whenever 12 + metadata + message bytes fit 4096 |
| SbusWire.WireRoundTrip | src/c/sbus/sbus.c:495-515 | A message that fits is unpacked to what was packed, whatever else the buffer holds |
| SbusWire.TooLongIsLost | src/c/sbus/sbus.c:471-488 | A message that does not fit is received as the same bytes as another one, so nothing can recover it |
| SbusWire.DumpDataToBytestream | src/c/sbus/sbus.c:222-262 | The stream holds the three lengths and both texts, and one unset byte more |
| SbusWire.Unpack | src/c/sbus/sbus.c:495-515 | The unpacking loop and copies at a moving offset |
| SbusWire.IntegerRoundTrip | src/c/sbus/sbus.c:385-391 | Lengths survive as four bytes |
| SbusWire.LowestFirst | src/c/sbus/sbus.c:385-391 | A length is four bytes, the lowest first |
| DescriptorRoles.JavaMatchesPython | src/java/SDaemon/src/main/org/openstack/storlet/daemon/STaskFactory.java:86-141 | For every accepted execute datagram the index-skipping loop stays in bounds and builds the same inputs with the same numeric bounds, output pair, logger and service channel as Python, or raises: when Python raises, and besides exactly for bounds with blanks or underscores or an end beyond a long |
| DescriptorRoles.JavaMakesWhatPythonMakes | src/java/SDaemon/src/main/org/openstack/storlet/daemon/STaskFactory.java:98-118 | The same for the inputs alone |
| DescriptorRoles.GatewayDatagramsAgree | storlets/gateway/gateways/container/runtime.py:571-602 | With bounds as the gateway writes them neither language raises and both make the same inputs |
| DescriptorRoles.BoundsThatAreNoNumbers | storlets/agent/daemon/server.py:141-147 | Witness: an accepted datagram whose inputs neither language makes |
| RangeTexts.LongIsPlainInt | src/java/SDaemon/src/main/org/openstack/storlet/daemon/STaskFactory.java:107-108 | Long.parseLong accepts exactly the texts int accepts that hold no blanks and no underscores and fit a long, with the same number |
| RangeTexts.JavaRangeIsPythonRange | src/java/SDaemon/src/main/org/openstack/storlet/daemon/STaskFactory.java:99-108 | The bounds of one input: Java makes of them what Python makes, or raises, and exactly when it raises alone |
| RangeTexts.GatewayBoundsAreRead | storlets/gateway/gateways/container/runtime.py:578-581 | Both languages read back the numbers the gateway wrote |
| RangeTexts.BlankInFront | storlets/agent/daemon/server.py:141-147 | A number with one of the six blanks in front is read by Python only |
| RangeTexts.BlankBehind | storlets/agent/daemon/server.py:141-147 | The same with a blank behind |
| RangeTexts.UnderscoreBetween | storlets/agent/daemon/server.py:141-147 | Python passes over an underscore between digits |
| RangeTexts.MisplacedUnderscore | storlets/agent/daemon/server.py:141-147 | It refuses one at an end or next to another |
| RangeTexts.StartOutOfRangeRaises | src/java/SDaemon/src/main/org/openstack/storlet/daemon/STaskFactory.java:104-113 | A negative start, or one beyond any offset, raises in both languages |
| DescriptorRoles.CreateExecutionTask | src/java/SDaemon/src/main/org/openstack/storlet/daemon/STaskFactory.java:76-144 | The loop itself, on any list of descriptors, and for accepted ones what JavaMatchesPython says |
| DescriptorRoles.RolesOfExecute | storlets/sbus/datagram.py:188-242 | The accessors partition the descriptors: the five leading roles, and every further descriptor an input |
| DescriptorRoles.PythonInputsAreAligned | storlets/agent/daemon/server.py:197-198 | The zipped lists pair every input descriptor with its own metadata and drop none; the files are made exactly when the bounds of every input can be used |
| DescriptorRoles.PythonInputsHold | storlets/agent/daemon/server.py:141-147 | Each input made holds the number and metadata of its own descriptor and the range its bounds spell, in order |
| DescriptorRoles.JavaStreamsHold | src/java/SDaemon/src/main/org/openstack/storlet/daemon/STaskFactory.java:94-141 | The same in Java, with the service channel, the output and its metadata, and the log from their positions |
| DescriptorRoles.GatewayRangeIsServed | storlets/gateway/gateways/container/runtime.py:578-588 | A range request as the gateway sends it becomes the range that was asked for |
| DescriptorRoles.AccessorsAgree | storlets/sbus/datagram.py:111-128 | The three input lists have the same length and order |
| Execution.Fork | storlets/agent/daemon/server.py:166-176 | After the closing that follows the fork each descriptor is open in exactly one of the two processes: the service channel in the parent, all others in the child |
| Execution.ExecuteStorlet | storlets/agent/daemon/server.py:182-213 | The child closes every descriptor it holds, whatever the storlet closed itself, exactly when the input files can be made and the metadata, if still open, can be written out; otherwise what stays open is named |
| Execution.ChildRuns | storlets/agent/daemon/server.py:175-213 | The child leaves dispatch_command by its exit, or by an error when the files cannot be made or closing them raises; in no case does it answer |
| Execution.DispatchExecute | storlets/agent/common/server.py:108-139 | Both processes of an execute datagram: exactly one answer, from the parent, which then holds none of the descriptors; the child closes all of them if and only if the bounds of every input can be used and no output is left behind by metadata that could not be written out |
| Execution.Process.FinishDispatch | storlets/agent/common/server.py:120-139 | An exit passes through, an exception becomes an answer, and a closed service channel turns the answer into an error |
| StorletCache.CacheIsCurrentContainerMayNotBe | storlets/gateway/gateways/container/gateway.py:259-326 | Over any history of uploads, deletions and invocations: bringing a storlet raises exactly when it is not in the store or is not delivered whole when it has to be fetched; otherwise the host cache is current, and the container copy is stale exactly when the old copy had the same size and other content |
| StorletCache.StaleCopyWitness | storlets/gateway/gateways/container/gateway.py:300-320 | Two versions of one size: the container keeps the first |
| StorletCache.HistoryKeepsGood | storlets/gateway/gateways/container/gateway.py:226-326 | The container never holds a file younger than the cached one, so the comparison of times never fires |
| StorletCache.ContainerGateway.BringFromCache | storlets/gateway/gateways/container/gateway.py:226-326 | The method's branches compute the new cache and container and the flag, or raise, with what a broken delivery wrote left in the cache |
| StorletCache.ContainerGateway.UpdateContainerFromCache | storlets/gateway/gateways/container/gateway.py:328-357 | The storlet and then each dependency; the flag is true exactly when some file was copied; raises at the first file that cannot be fetched, with those before it copied |
| StorletCache.UpdateTellsChange | storlets/gateway/gateways/container/gateway.py:348-357 | The flag is true exactly when any file of the container changed, also when a fetch raised |
| StorletCache.BringTellsChange | storlets/gateway/gateways/container/gateway.py:303-326 | The same for one file |
| StorletCache.NewDependencyIsCopied | storlets/gateway/gateways/container/gateway.py:353-357 | Witness: a dependency new to the host is copied and the flag says so |
| StorletCache.DependenciesAreNeverRefreshed | storlets/gateway/gateways/container/gateway.py:263-280 | A cached dependency is never fetched again; one that is not cached is brought with the store's content or raises |
| StorletCache.CutDependencyStays | storlets/gateway/gateways/container/gateway.py:281-295 | A dependency whose first delivery broke off stays cut in the cache and is brought into the container like that |

## Left out
- Swift request handlers, access control and headers, except the step from an inclusive to an exclusive range end.
- Docker and Podman drivers, JNI glue, sockets, loggers, command line and deployment tools.
- The text of JSON: encoding and decoding are a pair of functions of which one undoes the other.
- '\r' line terminators, multi-byte characters cut at a range boundary, and a record delimiter other than the default.
- Reading the request parameters of CSVStorlet (ReaderEnv), its log messages and its processed-bytes count.
- `RangeFileInputStream.read(byte[])`, which ignores the length of the array; the readers here use the three-argument form.
- `FileDescriptorIterator` of the gateway and `SExecutionManager` of the Java daemon.
- `StorletOutputFile`: metadata first, then body; it would only add easy members.
- A failed spawn of the paired logger process, which leaves a daemon running without a record.
- A failed `sbus.create`, after which the main loop returns without the final wait.
- Descriptor types that file_description.py does not list.
- Concurrent invocations of one storlet from several gateway processes.
- The children of a clause object are values, not objects with memos of their own; one object's memo is modelled.
- DaemonFactory.StorletDaemonFactory.WaitForDaemonToInitialize: does not promise that a ping is answered, because that is up to the new process.
- Activation.Sandbox.Activate: "running" holds as of the factory's last reply, because a daemon may end right after it.
- Activation.Sandbox.Restart: the two container images it tries are not told apart.
- Decimal digits outside ASCII, which both conversions of bounds accept, and the interpreter's limit on the number of digits.
- Execution.ExecuteStorlet: descriptors the storlet opens itself are not modelled, and the operating system closing what is open when the process ends is not counted.
