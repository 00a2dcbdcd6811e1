# GenDB proxy: a verified model of its hard parts

GenDB is a PostgreSQL proxy that intercepts `CALL gendb.*` commands and fills synthetic tables with rows written by
an LLM. This project models the parts of it where a mistake would be silent, and proves what they promise:

| file | module | models |
|---|---|---|
| `JsonScanners.dfy` | `JsonScanners` | the rewrite loop of `fixJSON`, the word replacements, `removeTrailingCommas`, on arbitrary bytes |
| `JsonTrees.dfy`, `JsonRepair.dfy` | `JsonTrees`, `JsonRepair` | the same three stages on JSON trees printed as sloppily as an LLM prints them |
| `JsonDecoder.dfy` | `JsonDecoder` | a reference decoder for RFC 8259, and what the repaired texts decode to |
| `JsonObjects.dfy` | `JsonObjects` | `extractJSONObjects` |
| `Relay.dfy` | `RelayProtocol` | the pausable backend relay: two goroutines, a lock, two channels a pause, a read deadline |
| `RelayRaces.dfy` | `RelayRaces` | where a pause does not separate the two goroutines |
| `RelayProgress.dfy` | `RelayProgress` | how the client goroutine gets through a command, and what ends the relay |
| `Frames.dfy` | `Frames` | `drainExtendedQuery`, `extractQuery`, `extractParseQuery` |
| `VirtualConn.dfy` | `VirtualConn` | `virtualHandshakeConn`, `bytesReader` |
| `TopoSort.dfy` | `TopoSort` | Kahn's algorithm over foreign keys |
| `CommandParser.dfy`, `CommandRoundTrip.dfy` | `CommandParser`, `CommandRoundTrip` | the command parser, and printing against parsing |
| `UniqueTracker.dfy` | `UniqueTracking` | `uniqueTracker` |
| `RowGeneration.dfy`, `Generate.dfy` | `RowGeneration`, `Generation` | coercion of rows, foreign-key repair, the uniqueness retries, insertion, the table loop of `Generate` |
| `Overfill.dfy`, `PrimaryKeys.dfy` | `Overfill`, `PrimaryKeys` | how many rows the retries keep, and when rows sent are distinct on the primary key |
| `References.dfy`, `CompositeKeys.dfy`, `SelfReferences.dfy` | `References`, `CompositeKeys`, `SelfReferences` | when the database can refuse generated rows for a foreign key: of one column, of several, of a table to itself |
| `GenerateData.dfy` | `GenerateData` | the `generate_data` handler: sort, select, one run of `Generate` a table |
| `SyntheticNames.dfy`, `Ddl.dfy`, `Stubs.dfy`, `Globs.dfy` | the same | naming, CREATE TABLE layout and quoting, the setup fingerprint, `MatchPattern` |
| `Strings.dfy`, `Schema.dfy` | the same | the Go string functions the code calls; tables, columns, keys |

Code that loops over mutable state is a method proved against a specification function; the promises are then lemmas
about that function. The relay, being two goroutines, is a step system with one step a statement, and its promises
hold in every reachable state of every interleaving.

## Where the code does not do what it says

Each of these is a proved lemma; where the promise holds, the exact condition is proved with it.

* `docs/guide/gendb-sql.md:15` promises `*` and `?` as wildcards. `MatchPattern` has no `?` and looks for stars at
  the ends only. It is the documented matcher exactly for patterns without `?` whose stars stand at the ends
  (`Globs.AgreesIffSimple`).
* `fixJSON` is meant to replace Python's `True`, `False`, `None`. It does so for values right after a colon and one
  blank, nowhere else, and also inside strings. What it returns decodes exactly for the trees `JsonRepair.Repairable`
  describes, and decodes to what was meant exactly if moreover the text was strict already or no string holds such a
  word after a colon and a blank (`JsonDecoder.RepairDecodes`).
* A relay paused for a command is the only user of the backend and the client, but the reply to a command that does
  not parse is written outside any pause. When a reply is about to be written, the relay may come to write at the same
  time exactly if the statement did not parse and the relay goroutine has not exited (`RelayRaces.ReplyCollidesIff`,
  with one such state in `RejectionIsNotExclusive`).
* A command reads whatever is unread as it starts before it reads its own answers: for every run of a command, the
  bytes it has read are what had arrived before, as far as it read, and then what arrived since
  (`RelayRaces.CommandReads`), and the numbers of stale bytes it may read are exactly those up to what was unread
  (`StaleBytesIff`). Whatever is unread while a pause waits can still be unread then (`UnreadReachesCommand`).
* A pause that is waiting can complete exactly when the relay goroutine has not exited (`PauseCompletesIffRelayLives`).
* `uniqueTracker` keeps the keys of all indexes in one set, so, for rows that show no zero character, it accepts a row
  exactly when no kept row has its tuple on the same index and none has it on another (`AcceptsExactly`, with a row
  refused for another index in `CrossTalkRefuses`).
* The retry loop does not stop in the middle of a reply, in either of its two turns. For a first batch with rows
  missing, and replies of m and n rows, some run leaves more rows than the first batch had exactly when m is more than
  are missing or n is more than max(1, missing - m): a first reply may always bring one row less than it takes to fill
  the table (`Overfill.OverfillIff`, and `RetryFitsIff` for any one reply and any rows kept; two equal rows in
  `OverfillHappens`). This is so when every unique index has a column that takes any text and has no foreign-key values;
  an index with few possible tuples never overfills, whatever the replies (`FewTuplesNeverOverfill`, with a boolean
  column in `FlagsNeverOverfill`).
* The inspector leaves primary keys out of the indexes, so rows with equal primary keys may be sent, which the database
  refuses. It is sure that no two rows sent have the same primary key exactly when some unique index has all its columns
  in the key (`PrimaryKeys.PrimaryKeyDistinctIff`), under the same assumption on the other indexes.
* `docs/guide/generators.md:63-69` and `docs/getting-started/how-it-works.md:60-68` promise that foreign keys take the
  values generated for the parent tables, and that this ensures referential integrity. Integrity is ensured, by the
  constraints that the handler creates the tables with; but rows sent can break them, and then the command ends with an
  error. Whatever the model replies and whatever is drawn, no rows sent can be refused for a foreign key exactly when
  every key that can be made of what its columns may hold is a stored row's (`References.KeptIffCovered`). For a key of
  one column in one run of `Generate` that means: the referenced column is a key column that some row sent has, or the
  database has values for it and all of them are stored, or it has none and the column admits nothing that is not
  stored (`OneRunRefersIff`). Of a key that the database fills in, as every serial one, nothing is recorded, so only the
  database's values count (`SkippedKeyIff`, with a run that depends on the model's guess in `SerialRun`). The handler
  starts a new run for every table, so the same holds there for every key, and the database's values are those of the
  real tables, not of the ones just filled (`SeparateRunsReferIff`; in `GenerateData.SeparateRunsStop` every run stops
  at the child table, whatever children the model replies with). A run whose keys are all covered is never stopped by one
  (`OneRunKeepsReferences`).
* A foreign key of a table to itself plays no part in the order, and nothing is recorded for it. The rows of one COPY
  may refer to one another, but are sure to keep such a key exactly when, whatever the columns of the foreign key and of
  the primary key may show, each row's key is one stored before or the row's own
  (`SelfReferences.KeptTogetherIff`). With a referenced column that the database fills in, or that may show two texts,
  only the rows stored before count (`OwnRowsDoNotHelp`).
* Foreign keys are repaired column by column. Rows sent are sure to be accepted exactly when the stored keys are closed
  under changing one column to what it may hold (`CompositeKeys.KeptIffExchangeable`, and `CompositeKeyWholeIff` in
  terms of the recorded rows); keys of one column whose recorded values are stored always are (`SingleColumnWhole`), and
  repair mixes two rows in `CompositeKeysMix`. The inspector's query returns a key of two columns with each column
  twice, paired with both referenced ones; such a key is sure to be accepted exactly when a single text is recorded for
  the first referenced column and some stored row shows it in both (`PairedKeyKeptIff`). This is about the generator
  alone: the handler first creates the table with that column list, and a database that refuses a FOREIGN KEY clause
  with a column named twice ends the command there.
* Two tables of the same name (from two schemas) make `topoSort` lose one of them: with different tables in the list,
  a successful result is a permutation of the list exactly when the names are distinct (`TopoSort.TopoSort`).
* A named argument's operator is looked for in the whole argument, `=>` first, so a quoted value can be taken for a
  name. `ParsePrinted` says exactly when: a command whose every argument is unambiguous parses to what it says, any
  other is an error.
* `extractQuery` takes the rest of the buffer: it reads a Query frame back exactly when that frame is the whole
  buffer (`QueryFrameRead`).
* `drainExtendedQuery` starts every read at a frame. After reads of whole frames it stops with the next one exactly if
  that holds the five header bytes of a Sync (`DrainStopsAtSync`); a Sync whose header is split over two reads is missed
  (`SplitSyncMissed`), and the rest of a split frame can be taken for one (`RestTakenForSync`).

## Model

| member | source | states |
|---|---|---|
| JsonScanners.RewriteQuotes | pkg/llm/client.go:637-661 | the loop over `inDouble` and `inSingle` computes the specification the tree results and `ScannersAgree` are about |
| JsonScanners.RemoveTrailingCommas | pkg/llm/client.go:674-712 | the loop with its look-ahead computes the specification that `DropCommasExactly` pins down position by position |
| JsonScanners.FixJSON | pkg/llm/client.go:629-671 | valid text is returned unchanged; any other goes through quotes, the three words in order, and commas |
| JsonScanners.ScannersAgree | pkg/llm/client.go:637-693 | on every text, the comma scanner run over the rewrite loop's output is inside a string exactly at the bytes the rewrite loop emitted inside quotes of either kind |
| JsonScanners.DropCommasExactly | pkg/llm/client.go:674-712 | the output is the input without exactly the commas outside strings whose next non-blank byte is a closing bracket or a comma |
| JsonScanners.DropCommasNormal | pkg/llm/client.go:673-712 | no comma outside strings in the output is followed, past white space, by a closing bracket or a comma |
| JsonScanners.DropCommasIdempotent | pkg/llm/client.go:674-712 | a second application changes nothing, on any bytes |
| JsonScanners.StringsUntouched | pkg/llm/client.go:679-693 | the bytes inside strings are the same, in order, before and after the commas go |
| JsonScanners.FixWordsKeepsScan | pkg/llm/client.go:662-668 | the word replacements change neither the length, nor where strings are, nor which commas are redundant |
| JsonScanners.FixTextKeepsQuoted | pkg/llm/client.go:637-670 | whatever was quoted, in either kind of quotes, is still inside the strings of the final text, up to letters of a replaced word: no comma in quotes is ever deleted |
| JsonTrees.RequotePrint | pkg/llm/client.go:637-661 | on the print of any tree, alone or followed by any text, the rewrite loop double-quotes every string, escapes the double quotes inside single-quoted ones, and changes nothing else |
| JsonTrees.FixWordPrint | pkg/llm/client.go:662-665 | one replacement pass changes exactly the strings' contents and the Python words right after a colon and one blank, never a text across tokens |
| JsonTrees.DropGap | pkg/llm/client.go:694-708 | of a run of commas, all go before a closing bracket and all but the last before an item, white space staying |
| JsonTrees.DropPrint | pkg/llm/client.go:674-712 | on the print of any double-quoted tree with any white space and any commas, alone or followed by any text, the same text comes out with exactly the redundant commas deleted |
| JsonRepair.RepairPrints | pkg/llm/client.go:635-670 | the whole repair, on the print of any tree however sloppy, returns the print of the repaired tree |
| JsonRepair.StrictIffRepairable | pkg/llm/client.go:628-670 | the repaired tree obeys RFC 8259 exactly when no first item has a comma before it, every later one has one, names stand in objects only, escapes are legal and Python words follow a colon and one blank |
| JsonRepair.MeaningIffWordFree | pkg/llm/client.go:637-670 | the repaired tree has the same values, names and strings exactly when no string contains a Python word after a colon and a blank |
| JsonRepair.StrictIsFixed | pkg/llm/client.go:674-712 | removing commas is the identity on strict JSON |
| JsonDecoder.DecodeVerdict | pkg/llm/client.go:630-633 | what the validity test says of sloppy texts: on the print of any tree without two numbers glued together, the reference decoder returns the tree's meaning if it is strict JSON and an error otherwise |
| JsonDecoder.RepairDecodes | pkg/llm/client.go:628-671 | end to end, validity test included: the text returned decodes exactly for repairable trees, and to what was meant exactly if moreover it was strict already or its strings are free of Python words after a colon and a blank |
| JsonObjects.MatchBrace | pkg/llm/client.go:745-774 | the inner loop finds the position that `CloseAtExact` characterises, or none |
| JsonObjects.ExtractJSONObjects | pkg/llm/client.go:739-777 | the results are those of the candidates the decoder accepts, in order; the outer loop, whose index jumps, terminates |
| JsonObjects.EachContributes | pkg/llm/client.go:767-773 | a candidate contributes what it decodes to, or nothing, and changes nothing for those before and after it |
| JsonObjects.CloseAtExact | pkg/llm/client.go:745-774 | the end found is the first position where the braces outside strings balance, and none is found exactly if there is no such position |
| JsonObjects.SpansExact | pkg/llm/client.go:737-777 | on any text the candidates are balanced, disjoint and increasing, and an opening brace outside all of them never balances |
| JsonObjects.PrintedObjectsFound | pkg/llm/client.go:737-777 | objects printed between filler without an opening brace are found exactly, in order, whatever braces and quotes their strings and the filler hold |
| RelayProtocol.ProtocolStep | pkg/proxy/proxy.go:247-317 | every step of either goroutine, of the network and of the clock keeps the protocol's invariant on lock, flag, channels and parking |
| RelayProtocol.ExclusiveReader | pkg/proxy/proxy.go:289-317 | from the return of `pauseRelay` until `resumeRelay` closes the channel, the relay goroutine is parked and can take no step: it neither reads the backend nor writes the client |
| RelayProtocol.NoDoubleClose | pkg/proxy/proxy.go:254-316 | a channel about to be closed is neither nil nor closed already |
| RelayProtocol.MutualExclusion | pkg/proxy/proxy.go:252-315 | the two goroutines never hold the lock together |
| RelayProtocol.RejectionIsNotExclusive | pkg/proxy/proxy.go:322-327 | a reachable state where a parse-error reply and a relayed message are both about to be written to the client |
| RelayRaces.ReplyCollidesIff | pkg/proxy/proxy.go:283-360 | from any reachable state with a reply about to be written, some run of the other goroutine and the world brings the relay to a write to the client exactly if the statement did not parse and the relay has not exited |
| RelayRaces.CommandReads | pkg/proxy/proxy.go:319-360 | in every run that does not end the command, it has read the bytes in order and without a gap: first those unread as it started, as far as it read, and only then later ones |
| RelayRaces.StaleBytesIff | pkg/proxy/proxy.go:319-360 | some run of a command has read exactly n bytes that arrived before it exactly if at least n were unread as it started |
| RelayRaces.UnreadReachesCommand | pkg/proxy/proxy.go:248-307 | from any reachable waiting pause with a live relay, some run reaches the command without a byte being read or arriving |
| RelayRaces.InterruptEndsBeforeCommand | pkg/proxy/proxy.go:299-307 | whatever happens from the second reset of the deadline on, a command that sets no deadline itself has none |
| RelayRaces.NoDeadlineBetween | pkg/proxy/proxy.go:306-312 | between commands no deadline is set in any reachable state |
| RelayProtocol.BytesConserved | pkg/proxy/proxy.go:247-287 | over any run with any number of pauses every backend byte read has one reader, the command's exactly inside a pause; what was forwarded and is held is the rest, in order |
| RelayProtocol.DrainStep | pkg/proxy/proxy.go:248-263 | once the deadline has passed, whatever step happens, the pause is confirmed or the relay exits or its distance to parking goes down with its own steps and stays with others |
| RelayProtocol.BoundedPause | pkg/proxy/proxy.go:292-307 | in every run in which the relay takes as many steps as its distance, the pause is confirmed unless the relay exits |
| RelayProtocol.ClientNotDeadlocked | pkg/proxy/proxy.go:292-317 | a client goroutine that waits, in `pauseRelay` or `resumeRelay`, has the relay or the deadline to move it on |
| RelayProtocol.RelayNotDeadlocked | pkg/proxy/proxy.go:248-263 | a relay goroutine that waits for the lock or to be resumed has the client goroutine to move it on |
| RelayProgress.OwnStep | pkg/proxy/proxy.go:291-337 | the client goroutine is moved by its own steps only, and each brings it exactly one place nearer to the end of the command |
| RelayProgress.CommandEnds | pkg/proxy/proxy.go:291-337 | in every run the place of a command is given by the number of the client goroutine's own steps alone; fifteen of them bring every command to its end, whatever else happens |
| RelayProgress.ResumedRelayGoesOn | pkg/proxy/proxy.go:258-317 | outside a pause and before the next one has published its channels, a parked relay can go on in every reachable state |
| RelayProgress.OnlyFailureExits | pkg/proxy/proxy.go:247-287 | a step ends the relay exactly if it is a failed read or write: no timeout, pause or command does |
| RelayProtocol.StuckForever | pkg/proxy/proxy.go:264-303 | after the relay has exited without confirming, no run confirms the pause |
| RelayProtocol.PauseCompletesIffRelayLives | pkg/proxy/proxy.go:264-303 | from any reachable state with a pause waiting, some run confirms it exactly when the relay has not exited |
| Frames.FindSync | pkg/proxy/proxy.go:609-625 | the walk loop visits the positions, and stops for the reason, that `WalkIsExact` characterises |
| Frames.WalkIsExact | pkg/proxy/proxy.go:607-625 | on whole frames the walk visits exactly the frame starts up to the first Sync and reports one exactly if there is one: no payload byte is taken for a type |
| Frames.DrainExtendedQuery | pkg/proxy/proxy.go:606-654 | no further read if the first buffer has a Sync; otherwise reads up to the first one with a Sync or the first failure |
| Frames.WalkCut | pkg/proxy/proxy.go:607-625 | in a buffer that ends inside a frame, that frame is visited, and taken for a Sync if it is one, exactly if its five header bytes are there |
| Frames.DrainStopsAtSync | pkg/proxy/proxy.go:627-653 | after reads of whole frames without a Sync, a read of frames of which the last may be cut ends the draining exactly if it holds the header of a Sync |
| Frames.DrainStopsAtFailure | pkg/proxy/proxy.go:627-653 | after such reads a read that fails ends it |
| Frames.SplitSyncMissed | pkg/proxy/proxy.go:627-653 | a Sync whose header is split over two reads is missed: whatever follows, the loop reads on |
| Frames.RestTakenForSync | pkg/proxy/proxy.go:627-653 | the rest of a split frame that is no Sync ends the draining if it goes on with an `S` and four more bytes |
| Frames.FindNul | pkg/proxy/proxy.go:665-676 | the loop finds the first zero byte, or the end |
| Frames.ExtractParseQuery | pkg/proxy/proxy.go:658-678 | the text between the first two zero bytes after the header, with the source's fall-backs where one is missing |
| Frames.ParseFrameRead | pkg/proxy/proxy.go:656-678 | the query of a leading Parse frame is found whatever follows it in the frame and in the buffer |
| Frames.QueryFrameRead | pkg/proxy/proxy.go:588-601 | a Query frame's text is read back exactly when nothing follows the frame in the buffer |
| Frames.CutParseRead | pkg/proxy/proxy.go:656-678 | where the second zero byte is missing the rest after the name is read, where both are, the name itself |
| Frames.CutQueryRead | pkg/proxy/proxy.go:588-601 | a query the buffer cuts off is read as far as it goes |
| Frames.NoQuery | pkg/proxy/proxy.go:588-678 | no other type of frame and no bare header holds a query |
| VirtualConn.BytesReader.Read | pkg/proxy/conn.go:41-48 | a read takes the next bytes, as many as fit, and advances by them; the end is reported exactly when all are taken |
| VirtualConn.VirtualHandshakeConn.constructor | pkg/proxy/conn.go:23-28 | a new connection has the handshake data and then the backend's bytes to deliver |
| VirtualConn.VirtualHandshakeConn.Read | pkg/proxy/conn.go:50-52 | what a read returns and what is left make what was left before, across the boundary too |
| VirtualConn.VirtualHandshakeConn.Write | pkg/proxy/conn.go:54-61 | the first write reaches nobody and is reported as written, every other reaches the backend |
| VirtualConn.ReadAll | pkg/proxy/conn.go:11-52 | for reads of any sizes, the bytes delivered are a prefix of handshake data followed by backend bytes |
| VirtualConn.WriteAll | pkg/proxy/conn.go:54-61 | the backend receives all writes but the first |
| TopoSort.TopoSort | pkg/schema/toposort.go:7-62 | with distinct names the error is returned exactly for cyclic foreign keys and success orders targets strictly first; for any list of different tables, success is a permutation exactly when names are distinct |
| TopoSort.EnterForeignKey | pkg/schema/toposort.go:22-31 | one foreign key, self-references and targets out of the set skipped, duplicates counted, keeps in-degrees and dependents what they should be |
| TopoSort.BuildGraph | pkg/schema/toposort.go:13-33 | each in-degree counts the table's in-set foreign keys to others, each dependents list the same edges from the other end |
| TopoSort.StartQueue | pkg/schema/toposort.go:36-41 | the queue starts with exactly the tables nothing has to precede, each once |
| TopoSort.Release | pkg/schema/toposort.go:49-54 | taking a table off its dependents keeps in-degrees equal to unmet keys and queues exactly the freed tables; queue and positive in-degrees together do not grow |
| TopoSort.EmitHead | pkg/schema/toposort.go:45-54 | one turn keeps the invariant, and queue length plus positive in-degrees goes down, with clashing names too |
| TopoSort.RunQueue | pkg/schema/toposort.go:43-55 | when the queue is empty, everything emitted came after what it needs and everything left still waits |
| TopoSort.StuckMeansCycle | pkg/schema/toposort.go:57-59 | tables left over mean a foreign-key cycle |
| TopoSort.OrderedHasNoCycle | pkg/schema/toposort.go:5-62 | a complete ordered list means there is none |
| TopoSort.ClashLosesTable | pkg/schema/toposort.go:8-11 | with two tables of one name, some table of the list is missing from anything the loop can emit |
| CommandParser.SplitArgs | pkg/lang/parser.go:165-189 | the splitting loop computes the specification of the round-trip results |
| CommandParser.SplitLosesNothing | pkg/lang/parser.go:164-189 | the parts joined with commas are the text again, up to one final comma outside quotes |
| CommandParser.ParseCallArgs | pkg/lang/parser.go:97-139 | the loop over the parts, with its two errors and its treatment of blanks and NULL, computes the specification of the round-trip results |
| CommandParser.ValidateArgs | pkg/lang/parser.go:70-92 | succeeds exactly when every name is known and every required one present; unknown names are reported before missing ones |
| CommandParser.Resolve | pkg/lang/parser.go:45-66 | what succeeds is the registered command the name or alias stands for, with known parameters only and all required ones; the name is reported as unknown exactly when it is not registered, whatever else is wrong |
| CommandParser.ParseCall | pkg/lang/parser.go:24-66 | not being a call is reported exactly without the prefix; what succeeds has an opening and a final parenthesis and is an executable command |
| CommandParser.Parse | pkg/lang/parser.go:19-67 | blanks, one semicolon, blanks again, then the call; what succeeds is executable |
| CommandParser.InterceptedIffCall | pkg/lang/parser.go:9-27 | the test for intercepting a statement and the parser's own prefix test agree on every statement, although only one of them drops a semicolon: an intercepted statement never fails for not being a command, and no command passes by |
| CommandParser.PrefixLetters | pkg/lang/parser.go:9-27 | a statement is a command by its first eleven characters, each a given letter in either case, a blank or a dot |
| CommandParser.RestErrors | pkg/lang/parser.go:29-43 | a missing opening parenthesis is reported exactly if there is none behind the prefix, a missing final one exactly if there is an opening one and the text does not end in `)` |
| CommandRoundTrip.EvaluateMeans | pkg/lang/parser.go:94-140 | a list has a meaning exactly if its named arguments come last and no positional one is too many; each parameter then has the last value other than NULL written for it, by name in any case or by position |
| CommandRoundTrip.ReadNamed | pkg/lang/parser.go:143-162 | an unambiguous named argument reads as its name and its unquoted value |
| CommandRoundTrip.ReadPositional | pkg/lang/parser.go:143-162 | an unambiguous positional argument is not taken for a named one and reads as its value |
| CommandRoundTrip.ReadAmbiguous | pkg/lang/parser.go:143-151 | an ambiguous argument is read as a named one whose name holds a quote |
| CommandRoundTrip.ArgsAgree | pkg/lang/parser.go:97-139 | parsing the printed list is evaluating the list, errors included, if no argument is ambiguous |
| CommandRoundTrip.ArgsSpoiled | pkg/lang/parser.go:97-151 | one ambiguous argument is enough for an error or a name with a quote in it |
| CommandRoundTrip.ParsePrinted | pkg/lang/parser.go:19-67 | any command, layout, prefix spelling and argument list, bare values and values in either quotes that do not hold their own quote: parsing the text is evaluating the list if no argument is ambiguous and an error if one is |
| CommandRoundTrip.NotationsAgree | pkg/lang/parser.go:94-162 | positional, named and mixed notation with any cut parse to the same argument map, or, with an ambiguous value, to an error |
| CommandRoundTrip.CommandRoundTrips | pkg/lang/parser.go:18-67 | for every registered command with valid arguments free of one kind of quotes, printing by name and parsing gives the command back exactly when no value spells NULL |
| UniqueTracking.UniqueTracker.constructor | pkg/generator/unique.go:16-26 | the unique indexes' columns, in order, and nothing seen |
| UniqueTracking.UniqueTracker.MakeKey | pkg/generator/unique.go:49-55 | the formatted values of the columns, joined by zero characters |
| UniqueTracking.UniqueTracker.IsUnique | pkg/generator/unique.go:32-40 | true exactly when none of the row's keys has been seen |
| UniqueTracking.UniqueTracker.Add | pkg/generator/unique.go:42-47 | the row's keys are added to those seen and nothing else changes |
| UniqueTracking.KeepDistinct | pkg/generator/unique.go:32-47 | the rows kept are pairwise distinct on every unique index, as formatted |
| UniqueTracking.SingleIndexKeepsFirst | pkg/generator/unique.go:32-55 | with one unique index and values free of zero characters, exactly the first row of every tuple is kept |
| UniqueTracking.AcceptsExactly | pkg/generator/unique.go:13-55 | for several indexes and rows that show no zero character: accepted exactly when no kept row has the same tuple on the same index, and none has it on another |
| UniqueTracking.CrossTalkRefuses | pkg/generator/unique.go:13-47 | a row that conflicts with nothing and is refused |
| RowGeneration.CoerceRow | pkg/generator/coerce.go:17-36 | column by column, nil staying nil, and nothing if one value does not convert; `CoercedValues` says it of all values at once |
| RowGeneration.CoercedValues | pkg/generator/coerce.go:17-30 | a row coerces exactly if each of its columns' values does, and then each becomes what its column makes of it, whatever the others are |
| RowGeneration.ContainsValue | pkg/generator/generator.go:635-643 | true exactly when some value is shown the same |
| RowGeneration.RepairBatch | pkg/generator/generator.go:198-210 | in any order of columns, every foreign-key column present with known values keeps its value if it is one of them and gets one of them if not; everything else stays |
| RowGeneration.RepairRow | pkg/generator/generator.go:252-262 | the same for one row of a retry |
| RowGeneration.FilterUnique | pkg/generator/generator.go:215-221 | the rows the tracker keeps, the tracker having seen exactly the keys of those |
| RowGeneration.OfferExtra | pkg/generator/generator.go:247-268 | rows that coerce are repaired and offered in order; `lost` plus the rows kept does not change |
| RowGeneration.OfferedParts | pkg/generator/generator.go:229-262 | of a retry's reply, every row is offered by itself and in order: what a batch offers is what its parts offer, one row offering (`OfferedOne`) itself, repaired, or nothing if it does not coerce |
| RowGeneration.EnforceUnique | pkg/generator/generator.go:212-276 | the rows kept come from the first batch and at most two retries, `lost` plus their number is the first batch's size, and with rows missing after fewer than two retries the next reply had failed |
| RowGeneration.KeptRowsSatisfy | pkg/generator/generator.go:198-276 | whatever the replies were, the rows left are distinct on every unique index and every foreign-key column present with known values holds one of them |
| Overfill.NoOverfill | pkg/generator/generator.go:223-275 | if no reply is longer than its request, no more rows are left than the first batch had |
| Overfill.RetryFitsIff | pkg/generator/generator.go:247-268 | for any rows kept, any coercion that leaves texts in text columns alone, and indexes that each have such a column without foreign-key values: a reply of m rows cannot keep more than the missing ones exactly if m is at most their number |
| Overfill.OverfillIff | pkg/generator/generator.go:223-275 | under the same conditions, for a first batch that came from a reply: no run with replies of m and n rows leaves more rows than that batch had exactly if nothing is missing, or m is at most the number missing and n at most max(1, missing - m) |
| Overfill.FewTuplesNeverOverfill | pkg/generator/generator.go:223-275 | if some unique index admits no more tuples than the first batch has rows, no replies of any lengths overfill the table |
| Overfill.FlagsNeverOverfill | pkg/generator/coerce.go:101-112 | the same for a unique boolean column and a first batch of three rows |
| Overfill.OverfillHappens | pkg/generator/generator.go:228-269 | for two equal rows, a first reply of two rows overfills, and so does an empty one followed by one of two, but two replies of one row do not |
| PrimaryKeys.PrimaryKeyDistinctIff | pkg/schema/inspector.go:284-299 | for any values of the primary key that its columns may hold, it is sure that no two rows sent have them exactly when some unique index has all its columns in the key |
| Generation.FKTarget | pkg/generator/generator.go:465-474 | the table of the first foreign key that contains the column, if any does |
| Generation.ExtractPKValues | pkg/generator/generator.go:488-505 | the key columns of every row that has any, in order |
| Generation.RecordedValues | pkg/generator/generator.go:118-133 | every column offers exactly the recorded values of the column it refers to |
| Generation.ResolveFKValues | pkg/generator/generator.go:118-150 | the database's values are taken exactly where nothing was recorded for a foreign-key column |
| Generation.SkipColumns | pkg/generator/generator.go:309-343 | exactly the columns the database fills in by itself, the generated ones and those the configuration skips |
| Generation.InsertRows | pkg/generator/generator.go:404-462 | nothing is sent, and nothing fails, without rows or without a table column that some row has; otherwise the database decides |
| Generation.GenerateTable | pkg/generator/generator.go:105-293 | an error if the reply fails or a row of it does not coerce, and otherwise exactly as the database takes the rows sent, which are the reply coerced, repaired with the values found, made unique, and without the skipped columns |
| Generation.PlainRows | pkg/generator/generator.go:145-285 | without unique indexes every row of the reply is sent, with the columns not skipped; a column of no foreign key keeps its coerced value, as does one that shows a value it may take; any other takes one |
| Generation.SentRowsSatisfy | pkg/generator/generator.go:198-289 | rows sent for a table hold valid values in their foreign-key columns, are distinct on unique indexes that name no skipped column, and have no skipped column |
| Generation.Generate | pkg/generator/generator.go:92-306 | every table up to the first that fails is generated from the keys recorded for those before it, and nothing after that one |
| Generation.RecordedKeysAre | pkg/generator/generator.go:94-295 | with distinct names, what is recorded for a table stays what its inserted rows have in their key columns |
| Generation.SelectOrdered | cmd/gendb/serve.go:199-209 | dropping tables from an ordered list by a filter leaves it ordered |
| Generation.TargetsRecorded | pkg/generator/generator.go:105-133 | on the sorted order or any filtered part of it, a table is reached only after every in-set table it refers to, other than itself, is recorded |
| CompositeKeys.DrawnWholeIff | pkg/generator/generator.go:199-210 | drawing every column of a key by itself always gives the key of one stored row exactly when the stored keys are closed under changing one column |
| CompositeKeys.KeptIffExchangeable | pkg/generator/generator.go:118-291 | for every foreign key, whatever its shape: no rows sent can be refused for it exactly when the stored keys are closed under changing one column to what it may hold |
| CompositeKeys.CompositeKeyWholeIff | pkg/generator/generator.go:118-291 | with the target's keys recorded: exactly when they are closed under changing one column to what a recorded row has there |
| CompositeKeys.SingleColumnWhole | pkg/generator/generator.go:118-291 | rows sent are never refused for a foreign key of one column whose recorded values are stored |
| CompositeKeys.PairedKeyKeptIff | pkg/schema/inspector.go:210-262 | for a key of two columns as the inspector returns it, with every column paired with both: exactly when a single text is recorded for the first referenced column and some stored row shows it in both |
| CompositeKeys.CompositeKeysMix | pkg/generator/generator.go:199-210 | repair turns a row of unknown values into one that is refused, no recorded row having its key |
| References.KeptIffCovered | pkg/generator/generator.go:118-291 | over all replies and draws, for any conversions: no rows sent can be refused for a foreign key whose columns are sent exactly when every key that can be made of what its columns may hold is a stored row's |
| References.SingleKeyCovered | pkg/generator/generator.go:118-210 | for a key of one column: exactly when all its choices are stored or, without choices, everything its column admits |
| References.OneRunRefersIff | docs/getting-started/how-it-works.md:60-68 | with the target's rows sent and recorded: no rows sent can be refused for a key of one column exactly when the referenced column is a key column some row sent has, or what the database offers (if it offers nothing, what the column admits) is all stored |
| References.SkippedKeyIff | pkg/generator/generator.go:278-295 | for a referenced column that is skipped in its table, as every serial key is, only what the database offers counts, whatever rows were sent |
| References.SerialRun | pkg/generator/generator.go:309-323 | every run over a parent with a serial key, stored as 1, and its child inserts the parent, and inserts the child exactly if the model replied with the parent 1 |
| References.SeparateRunsReferIff | cmd/gendb/serve.go:236-271 | for a table generated by a run of its own: exactly when what the database offers (if it offers nothing, what the column admits) is all stored |
| References.OneRunKeepsReferences | docs/guide/generators.md:63-69 | a run over sorted tables whose keys are all covered sends no row that breaks a foreign key to another table, and is complete unless a reply fails or the database refuses rows for something else |
| SelfReferences.KeptTogetherIff | pkg/generator/generator.go:118-291 | for a foreign key of a table to itself, with the rows of the COPY among the targets: rows sent with a primary key are sure to keep it exactly when every key that can be made, with every primary key that can be made, is a stored row's or the row's own |
| SelfReferences.OwnRowsDoNotHelp | pkg/schema/toposort.go:22-31 | if a referenced column outside the key is filled in by the database or may show two texts, exactly when every key that can be made is stored before the COPY |
| GenerateData.SelectTables | cmd/gendb/serve.go:199-208 | the loop with its two `continue`s keeps, in order, exactly the tables that match `include` and do not match `exclude`, an empty pattern being none |
| GenerateData.GenerateEach | cmd/gendb/serve.go:236-275 | every table up to the first that fails is generated by a run of its own with nothing recorded, and nothing after that one |
| GenerateData.GenerateMatching | cmd/gendb/serve.go:194-275 | with distinct names, an error exactly for cyclic foreign keys and otherwise exactly the wanted tables, targets first; with any names, wanted tables only; each generated as `GenerateEach` says |
| GenerateData.SeparateRunsStop | cmd/gendb/serve.go:219-271 | with a parent of key 1 generated, key 9 in the real parent table, and the foreign key enforced, every run of the command inserts the parent and stops at the child table, whatever children it gets, if one has a parent column |
| Globs.SimpleAgrees | pkg/generator/generator.go:618-633 | prefix, suffix, containment and equality tests are wildcard matching when stars stand only at the ends and there is no question mark |
| Globs.AgreesIffSimple | pkg/generator/generator.go:618-633 | the function is the documented matcher on all names exactly for those patterns |
| SyntheticNames.NameRoundTrips | pkg/synthetic/schema.go:17-37 | for a nonempty scenario, the parts are parsed back exactly when neither scenario nor schema contains the separator or ends in an underscore |
| SyntheticNames.DefaultRoundTrips | pkg/synthetic/schema.go:18-37 | an empty scenario is parsed back as the default one, under the same condition on the schema |
| SyntheticNames.SyntheticIff | pkg/synthetic/schema.go:24-37 | exactly the names of three parts with two underscores before each are synthetic |
| SyntheticNames.ParseRoundTrips | pkg/synthetic/schema.go:26-37 | rebuilding from any successful parse with a nonempty scenario gives the same name |
| Ddl.IdentRoundTrips | pkg/schema/dump.go:125-146 | the quoted form decodes to the identifier exactly when that is nonempty and free of the zero character |
| Ddl.QuotedIff | pkg/schema/dump.go:125-146 | left without quotes are exactly the names of small letters, underscores and, but for the first character, digits |
| Ddl.ColumnLines | pkg/schema/dump.go:38-61 | one line a column, a comma after each but the last, and after that one exactly if something follows |
| Ddl.PrimaryKeyLine | pkg/schema/dump.go:63-73 | no line or one, with a comma exactly if something follows |
| Ddl.ForeignKeyLines | pkg/schema/dump.go:75-90 | as for columns, with the mapped, qualified target |
| Ddl.CheckLines | pkg/schema/dump.go:92-98 | as for columns, the last check without a comma |
| Ddl.ItemsAt | pkg/schema/dump.go:38-98 | the body has an item for every column, foreign key and check, and one for a primary key if there is one, each in its place |
| Ddl.LinesOfFour | pkg/schema/dump.go:57-97 | the four look-ahead conditions together put a comma after every item but the very last |
| Ddl.TableBody | pkg/schema/dump.go:38-98 | the body is the columns, the primary key, the foreign keys and the checks joined with a comma and a newline |
| Stubs.StampIsRecomputed | pkg/lang/stubs.go:105-138 | for every body, even one holding such comments, stripping finds the exact body that was hashed and the recomputed fingerprint is the stamped one |

## Left out

- The LLM, the network, SQL execution, catalogue queries and logging. Replies, what a column makes of a value other than
  nil (the conversions in `coerce.go`), `QueryFKValues`, the choice of a random value and the database's verdict on the
  rows sent are arbitrary parameters.
- `json.Valid` and `json.Unmarshal` are parameters of the methods; `JsonDecoder` is the reference for them.
- `parseResponse`, `parseColumnValues`, `stripCodeBlock` and `recoverStringifiedObjects` try the modelled repairs in turn.
- JsonDecoder.DecodeVerdict: escapes other than of quotes, slashes and backslashes keep their spelling in a meaning, and Go's limit of 10000 nested containers is not modelled, because neither bears on the repair.
- Bytes: the JSON texts are sequences of characters standing for one byte each, and every byte is allowed.
- The command parser reads valid UTF-8; case folding is modelled for ASCII letters, which is all the prefix, the names
  and NULL consist of. Go folds two further characters (U+212A, U+017F) to ASCII letters.
- CommandRoundTrip.ParsePrinted: quoted values that contain their own quote are not covered, because the parser has no escape for one.
- CommandParser.ValidateArgs: which of several unknown parameters the error names is not fixed, because Go's map order is not.
- SQLType, Default, Comment and Handler of a command's definition play no part in parsing.
- RelayProtocol.ExclusiveReader: the authentication relay, start-up and the ReadyForQuery scan, whose result nobody reads, are not steps of the model.
- RelayProtocol.BoundedPause: progress is claimed only for runs in which the relay goroutine goes on taking steps, because Go's scheduler is not modelled.
- A command writes to its own connection and may set the deadline as it likes; its other effects are not modelled.
- Writes to a connection are one step, so the two goroutines' bytes are not interleaved inside a message.
- Frames.DrainStopsAtSync: of reads after one that splits a frame only `SplitSyncMissed` and `RestTakenForSync` are said, because the loops then have lost the frame boundaries.
- Frames: commands after the Sync of an intercepted buffer are dropped by the code; the model says nothing about them.
- VirtualConn.ReadAll: errors of the real connection other than the end of the stream are not modelled, because they are passed through.
- `buildHandshakeData` is message encoding by a library.
- TopoSort.TopoSort: with clashing names only success is characterised, because the error is then returned with or without a cycle.
- One source function is at times several methods: `topoSort`'s loops and their bodies, the inner brace loop, the parts of `Parse` and of `Generate`.
- GenerateData.GenerateMatching: an `include` without wildcards is looked up in the database instead, and creating the synthetic tables is SQL; neither is modelled.
- References.KeptIffCovered: the database compares values as `%v` shows them, and foreign-key columns that the database fills in are not covered.
- SelfReferences.KeptTogetherIff: constraints other than the foreign key and the primary key's NOT NULL are left aside, so a batch that breaks the key may be refused for another reason.
- References.OneRunRefersIff: keys that `%v` shows as `<nil>` are not covered, because the code takes them for nil.
- CompositeKeys.PairedKeyKeptIff: whether the database accepts a FOREIGN KEY clause that names a column twice is not modelled.
- Overfill.OverfillIff: unique indexes on numbers, times or texts of limited length only are not covered, because the rows they can take are finitely many; `FewTuplesNeverOverfill` covers those with too few.
- PrimaryKeys.PrimaryKeyDistinctIff: an index that leaves the key needs a column outside it that takes any text, for the same reason.
- Generation.Generate: rows are values, so that two maps sharing a value are never confused; the source never shares them. Table names are nonempty, column names distinct, keys consist of columns of their table, and a foreign key has at least as many referenced columns as columns, without which the source panics.
- Generation.SkipColumns: generated columns and the configuration's rules are an arbitrary set of further columns, because the schema and the configuration hold them elsewhere.
- Overfill.OverfillIff: an index all of whose columns have known foreign-key values is not covered, because then only finitely many tuples exist and the condition depends on how many are taken.
- `FillColumn`, statistics, sampling, prompts, configuration and the command line.
- Ddl.IdentRoundTrips: keywords and the limit of 63 bytes are not modelled, because `needsQuoting` knows neither.
- Ddl.TableBody: the lines around the body, CREATE SCHEMA and CREATE INDEX are not modelled, because they are plain formatting.
- Stubs.StampIsRecomputed: SHA-256 is any function to 16 hexadecimal characters, and the body any text.
