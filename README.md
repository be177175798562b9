# HareMQ data engine in Dafny

HareMQ is a small AMQP-style message broker written in C++. Its server keeps four
kinds of state, all behind one virtual host:

- exchanges, queues and bindings, each in a registry that persists its durable
  entries to an SQLite table;
- per queue, a message store. It holds a FIFO list of ready messages, a map of
  durable messages, a map of messages awaiting acknowledgement and two record
  counters, and it is backed by an append-only log file of
  `[8-byte length][serialised payload]` records. Acknowledging a message
  invalidates its record in place. A compaction step rewrites the log once
  fewer than half of more than 2000 records are valid.
- per queue, a consumer set with round-robin choice;
- the routing rules (routing-key and binding-key legality, and Direct, Fanout and
  Topic matching) that the channel applies to publish a message to the queues
  bound to an exchange.

This project models that engine. One module stands for each source component:

| module | source | form |
|---|---|---|
| `Helper` | `mqcommon/helper.hpp` (split, parent_dir, create_dir, map_helper) | functions, and methods for the loops |
| `Router` | `mqserver/route.hpp` | functions and lemmas |
| `Args` | `set_args`/`get_args` of `exchange.hpp` and `queue.hpp` | methods proved against functions |
| `Exchange`, `Queue`, `Binding` | `exchange.hpp`, `queue.hpp`, `binding.hpp` | a class per manager over maps, with a catalog table as a field |
| `Codec`, `Mapper` | the payload serialisation and `message_mapper` of `message.hpp` | functions over byte sequences, methods for the loops |
| `MessageStore` | `queue_message` and `message_manager` of `message.hpp` | a `QueueState` value with its transitions, and classes whose methods are proved against them |
| `Consumer` | `consumer.hpp` | classes over a `seq` and a `map` |
| `VirtualHost` | `virtual_host.hpp` | a class over the four managers |
| `Channel` | `channel.hpp` (server side) | a class over the host and the consumer registry |

How the model maps the parts that are not plain logic:

- **The outside world becomes input.** Each outcome of an I/O call is a
  parameter:
  - `storeOk`: a catalog insert;
  - `wordOk` and `bodyOk`: the two writes of a log append;
  - `writeOk`: the in-place rewrite on acknowledgement;
  - `createOk`: creating a file;
  - `failAt`: the index of the first insert that fails while the log is
    rebuilt;
  - `removeOk` and `renameOk`: removing a file and renaming one;
  - `dataOk` and `tmpOk`: the file removals of clear;
  - a `mkdir` outcome function.

  Message ids that `uuid_helper` would draw are inputs (`uuid`, `uuidOf`). The
  SQLite tables are maps (exchanges and queues, by name) or a sequence of rows
  (bindings). A file is `Option<seq<Byte>>`, and `None` means the file is missing.
- **The codec.** Protobuf's payload serialisation is replaced by a byte codec
  of the same shape: the id, the delivery mode, the routing key, the body and
  the validity flag. The codec is proved to round-trip in both directions. Two
  properties of real protobuf carry over: a serialisation has a length, and
  clearing the validity flag keeps that length.
- **Messages are values.** A message's offset and length, which the source
  sets on a shared object, are part of the value. The durable map holds the
  authoritative copy.
- **Routing.** The source's Topic branch is empty. The Topic matching here
  (`*` for one segment, `#` for zero or more) is the one the routing tests
  call for; it is proved against all 21 of their vectors.
- **The channel.** The channel calls `select_exchange` on the host, which
  `virtual_host.hpp` does not declare. The host model forwards that call to
  the exchange manager. The channel's response goes out as a returned `bool`.
  A thread-pool push is appended to a `tasks` sequence. A consumer callback
  becomes an entry in a `deliveries` sequence.

`Channel.Routed` and `Channel.Targets` define the set of queues a publish
reaches. The lemmas about them, and `Channel.Channel.BasicPublish`, state what
that set is.

## Model

| member | source | states |
|---|---|---|
| Helper.Split | HareMQ/mqcommon/helper.hpp:75-84 | boost split with token compression always yields at least one piece |
| Helper.SplitCount | HareMQ/mqcommon/helper.hpp:75-84 | the number of pieces is the number of separator runs plus one |
| Helper.SplitPiecesHaveNoSeparator | HareMQ/mqcommon/helper.hpp:75-84 | no piece contains a separator character |
| Helper.SplitKeepsCharacters | HareMQ/mqcommon/helper.hpp:75-84 | the pieces, concatenated, are the input with its separators removed: no other character is lost or reordered |
| Helper.SplitEmptyPieces | HareMQ/mqcommon/helper.hpp:75-84 | only the first and last pieces can be empty; the last is empty exactly when the input is empty or ends in a separator |
| Helper.SplitNoSeparator | HareMQ/mqcommon/helper.hpp:75-84 | a string without separators splits into itself alone |
| Helper.SplitWord | HareMQ/mqcommon/helper.hpp:75-84 | a word, a separator and a rest that does not start with one split into the word followed by the rest's pieces |
| Helper.SplitStep | HareMQ/mqcommon/helper.hpp:75-84 | splitting one more character is one step of the left-to-right scan |
| Helper.ScanChar | HareMQ/mqcommon/helper.hpp:75-84 | one scan step never leaves zero pieces |
| Helper.ScanCharPrefix | HareMQ/mqcommon/helper.hpp:75-84 | a scan step only touches the last piece |
| Helper.SplitWordStep | HareMQ/mqcommon/helper.hpp:75-84 | the word-then-rest decomposition survives appending a character |
| Helper.ConcatLast | HareMQ/mqcommon/helper.hpp:75-84 | concatenating pieces distributes over appending a last piece |
| Helper.SplitInto | HareMQ/mqcommon/helper.hpp:75-84 | the loop fills `out` with exactly the pieces of the split and returns how many it wrote |
| Helper.FindLast | HareMQ/mqcommon/helper.hpp:231 | find_last_of: none exactly when the character is absent, else its last position |
| Helper.FindFrom | HareMQ/mqcommon/helper.hpp:204 | find from an index: none when absent after it, else its first position at or after it |
| Helper.ParentDir | HareMQ/mqcommon/helper.hpp:228-236 | "./" for a name without '/'; otherwise the proper prefix before the last '/', which is followed by no other '/' |
| Helper.SlashPrefixesNoSlash | HareMQ/mqcommon/helper.hpp:196-217 | text without '/' adds no directory to create |
| Helper.SlashPrefixesGrow | HareMQ/mqcommon/helper.hpp:196-217 | the directories of a prefix of the path come first among the path's directories |
| Helper.ThroughFirstFailureSkips | HareMQ/mqcommon/helper.hpp:196-217 | directories whose mkdir succeeds or already exists do not stop the walk |
| Helper.CreateDirFinalName | HareMQ/mqcommon/helper.hpp:203-207 | past the last '/', the walk ends with mkdir of the whole path |
| Helper.LastCharAfterSlash | HareMQ/mqcommon/helper.hpp:203-207 | a path whose tail has no '/' asks for its slash prefixes, then itself |
| Helper.CreateDirStep | HareMQ/mqcommon/helper.hpp:204-214 | each '/' found adds the prefix before it, in order, and that sequence stays a prefix of the plan |
| Helper.CreateDirFailure | HareMQ/mqcommon/helper.hpp:209-212 | the walk stops right after the first directory whose mkdir fails with an error other than EEXIST |
| Helper.CreateDir | HareMQ/mqcommon/helper.hpp:196-217 | the mkdir calls are the plan (each prefix before a '/', then the whole path unless it ends in '/') cut after the first real failure; ok exactly when every prefix before a '/' succeeded |
| Helper.ConvertMap | HareMQ/mqcommon/helper.hpp:239-255 | each conversion copies every pair, so the result is the input map and the round trip is the identity |
| Router.IsLegalRoutingKey | HareMQ/mqserver/route.hpp:17-25 | legal exactly when every character is an ASCII letter, a digit, '_' or '.' |
| Router.IsLegalBindingKeyAsWritten | HareMQ/mqserver/route.hpp:26-46 | binding-key legality as written: every character passes the written filter, no segment longer than one holds a wildcard, and no neighbouring wildcards other than "*" "*"; its consequences are the BindingKeyAsWritten lemmas below |
| Router.IsLegalBindingKey | HareMQ/mqserver/route.hpp:26-46 | the same test with the corrected character filter; BindingKeyBySegments states what it means on the segments |
| Router.RoutingKeyTestCase1 | HareMQ/mqtest/route_test.cc:19-23 | "news.music.pop" is a legal routing key |
| Router.RoutingKeyTestCase2 | HareMQ/mqtest/route_test.cc:20-24 | "news..music.pop" is a legal routing key |
| Router.RoutingKeyTestCase3 | HareMQ/mqtest/route_test.cc:21-25 | "news.,music.pop" is not |
| Router.RoutingKeyTestCase4 | HareMQ/mqtest/route_test.cc:22-26 | "news.music_123.pop" is a legal routing key |
| Router.BindingKeyAsWrittenRefusesSeparators | HareMQ/mqserver/route.hpp:29 | as written, any binding key containing '.' or '_' is refused |
| Router.BindingKeyAsWrittenRefusesTestKey | HareMQ/mqserver/route.hpp:29 | as written, "news.music.pop" is refused, contrary to the test at route_test.cc:39 |
| Router.BindingCharCorrection | HareMQ/mqserver/route.hpp:29 | the corrected filter admits exactly what the written one admits, plus '_' and '.' |
| Router.BindingKeyBySegments | HareMQ/mqserver/route.hpp:26-46 | a dotted key is legal exactly when its characters pass, no segment longer than one has '*' or '#', and no neighbouring segments are '*' '#', '#' '#' or '#' '*' |
| Router.BindingCharsJoinDots | HareMQ/mqserver/route.hpp:28-32 | the character scan of a dotted key is the scan of its segments |
| Router.SplitJoinDots | HareMQ/mqserver/route.hpp:34-35 | a key built from non-empty dot-free segments splits back into those segments |
| Router.BindingKeyTestCase1 | HareMQ/mqtest/route_test.cc:30-39 | "news.music.pop" is legal (corrected filter) |
| Router.BindingKeyTestCase2 | HareMQ/mqtest/route_test.cc:31-40 | "news.#.music.pop" is legal |
| Router.BindingKeyTestCase3 | HareMQ/mqtest/route_test.cc:32-41 | "news.#.*.music.pop" is not |
| Router.BindingKeyTestCase4 | HareMQ/mqtest/route_test.cc:33-42 | "news.*.#.music.pop" is not |
| Router.BindingKeyTestCase5 | HareMQ/mqtest/route_test.cc:34-43 | "news.#.#.music.pop" is not |
| Router.BindingKeyTestCase6 | HareMQ/mqtest/route_test.cc:35-44 | "news.*.*.music.pop" is legal: '*' '*' passes |
| Router.BindingKeyTestCase7 | HareMQ/mqtest/route_test.cc:36-45 | "news.music_123.pop" is legal |
| Router.BindingKeyTestCase8 | HareMQ/mqtest/route_test.cc:37-46 | "news.,music_123.pop" is not |
| Router.BindingKeyTestCase9 | HareMQ/mqtest/route_test.cc:38-47 | "#" is legal |
| Router.MatchesLiteral | HareMQ/mqtest/route_test.cc:50-126 | without wildcards a binding key matches exactly the identical routing key |
| Router.HashMatchesAll | HareMQ/mqtest/route_test.cc:50-126 | a lone "#" matches every routing key |
| Router.HashAbsorbs | HareMQ/mqtest/route_test.cc:50-126 | a leading "#" absorbs any number of extra leading segments |
| Router.StarMatchesOne | HareMQ/mqtest/route_test.cc:50-126 | "*" matches exactly the one-segment keys |
| Router.Matches | HareMQ/mqtest/route_test.cc:50-126 | segment matching, "*" one segment and "#" zero or more; stated by MatchesLiteral, HashMatchesAll, HashAbsorbs, StarMatchesOne and the 21 test vectors |
| Router.RouteAsWritten | HareMQ/mqserver/route.hpp:47-55 | router::route as written: Direct compares the keys, Fanout accepts, Topic gives no value |
| Router.Route | HareMQ/mqserver/route.hpp:47-55 | router::route with Topic matching, the route the channel publishes with; TopicCase and RouteExtendsAsWritten state it |
| Router.TopicCase | HareMQ/mqserver/route.hpp:47-55 | on a Topic exchange, routing dotted keys is matching their segments |
| Router.TopicHashIsFanout | HareMQ/mqserver/route.hpp:47-55 | binding "#" on a Topic exchange routes like a Fanout binding |
| Router.TopicRouteAsWrittenUndefined | HareMQ/mqserver/route.hpp:52-54 | as written the Topic branch returns nothing, even for the test's first vector, which must match |
| Router.RouteExtendsAsWritten | HareMQ/mqserver/route.hpp:47-55 | Direct (equal keys) and Fanout (always) are as written; the corrected route differs only where the written one returns nothing |
| Router.TopicTestCases1 | HareMQ/mqtest/route_test.cc:50-126 | vectors 1 to 7 give the expected results |
| Router.TopicTestCases2 | HareMQ/mqtest/route_test.cc:50-126 | vectors 8 to 14 give the expected results |
| Router.TopicTestCases3 | HareMQ/mqtest/route_test.cc:50-126 | vectors 15 to 21 give the expected results |
| Args.ParsePair | HareMQ/mqserver/exchange.hpp:54-58 | a piece with '=' is cut at its first '='; a piece without one gives key and value both the whole piece, the wrap of npos + 1 to 0 |
| Args.SetArgsAsWritten | HareMQ/mqserver/exchange.hpp:47-60 | the loop inserts every piece of the split at '&', as written |
| Args.SetArgs | HareMQ/mqserver/exchange.hpp:47-60 | the corrected loop inserts every non-empty piece |
| Args.InsertPiecesKeeps | HareMQ/mqserver/exchange.hpp:54-58 | an existing key is never overwritten nor dropped |
| Args.InsertPiecesHasKeys | HareMQ/mqserver/exchange.hpp:54-58 | every piece's key is present afterwards |
| Args.GetArgs | HareMQ/mqserver/exchange.hpp:61-69 | one "key=value&" per entry, every key exactly once, in some iteration order |
| Args.EncodeArgsAppend | HareMQ/mqserver/exchange.hpp:61-69 | one more entry appends its "key=value&" |
| Args.SingleArgText | HareMQ/mqserver/queue.hpp:50-55 | a one-entry map prints as "k=v&" whatever the order |
| Args.Entries | HareMQ/mqserver/exchange.hpp:61-69 | the entries are "key=value" in the given key order |
| Args.SplitEncodeArgs | HareMQ/mqserver/exchange.hpp:47-69 | the printed text splits back into its entries followed by one empty piece, from the trailing '&' |
| Args.NonEmptyPiecesAgree | HareMQ/mqserver/exchange.hpp:54-58 | skipping empty pieces changes nothing when there are none |
| Args.InsertEntries | HareMQ/mqserver/exchange.hpp:54-58 | inserting entries of distinct keys gives exactly those keys with their values |
| Args.InsertAllEntries | HareMQ/mqserver/exchange.hpp:54-58 | inserting the entries of every key rebuilds the map |
| Args.ParsePairEntry | HareMQ/mqserver/exchange.hpp:54-58 | "k=v" with k free of '=' parses back to (k, v) |
| Args.InsertEmptyPiece | HareMQ/mqserver/exchange.hpp:54-58 | a final empty piece inserts "" mapped to "" unless "" is already a key |
| Args.WithEmptyPair | HareMQ/mqserver/exchange.hpp:54-58 | the map with "" present, mapped to its old value if it had one and to "" otherwise; every other key and value kept |
| Args.ArgsRoundTripAsWritten | HareMQ/mqserver/exchange.hpp:47-69 | as written, reading back printed arguments gives the map with an extra "" mapped to "" |
| Args.EncodeArgsText | HareMQ/mqserver/exchange.hpp:61-69 | the printed text is empty or ends in '&' |
| Args.ReadArgsTextHasEmptyKey | HareMQ/mqserver/exchange.hpp:47-60 | set_args as written reads any such text to a map that already holds "", so adding "" changes nothing |
| Args.ArgsRoundTrip | HareMQ/mqserver/exchange.hpp:47-69 | with empty pieces skipped, reading back printed arguments gives exactly the map |
| Args.EmptyArgsText | HareMQ/mqserver/exchange.hpp:47-60 | an empty argument text reads as {"": ""} as written and as the empty map once corrected |
| Exchange.ReadArgs | HareMQ/mqserver/exchange.hpp:47-60 | set_args as written on a stored text; text in get_args form always reads back with the key "" |
| Exchange.FromRow | HareMQ/mqserver/exchange.hpp:139-152 | a row becomes the exchange with its name, type and flags, and its argument text read back by set_args as written |
| Exchange.Recover | HareMQ/mqserver/exchange.hpp:130-135 | recovery yields one exchange per row, each read through FromRow |
| Exchange.RecoverConsistent | HareMQ/mqserver/exchange.hpp:165-168 | a table of durable rows in get_args text form recovers to a registry consistent with it, the arguments read by set_args as written |
| Exchange.RecoverDurable | HareMQ/mqserver/exchange.hpp:130-135 | a restart recovers exactly the durable exchanges, each with its fields and, when its arguments are printable, those arguments plus the "" mapped to "" that set_args as written adds |
| Exchange.LoadAll | HareMQ/mqserver/exchange.hpp:130-135 | the select loop, calling set_args as written on each row, builds the recovered map |
| Exchange.ExchangeManager.constructor | HareMQ/mqserver/exchange.hpp:165-168 | the registry is read back from the table with set_args as written, and the table exists afterwards; a well-formed table gives a consistent registry |
| Exchange.ExchangeManager.Insert | HareMQ/mqserver/exchange.hpp:115-123 | the row is written, arguments in get_args form, exactly when the table exists and the store accepts it; memory is untouched |
| Exchange.ExchangeManager.DeclareExchangeAsWritten | HareMQ/mqserver/exchange.hpp:169-184 | as written: always true and always added, so a failed durable insert leaves a durable exchange without a row |
| Exchange.ExchangeManager.DeclareExchange | HareMQ/mqserver/exchange.hpp:169-184 | an existing name is kept unchanged; a new one is added, durable ones only with their row; ok exactly when the name is declared; consistency is kept |
| Exchange.ExchangeManager.DeleteExchange | HareMQ/mqserver/exchange.hpp:185-196 | the name leaves memory; its row goes only when it was durable; unknown names change nothing |
| Exchange.ExchangeManager.SelectExchange | HareMQ/mqserver/exchange.hpp:197-205 | the exchange exactly when the name is declared, else none |
| Exchange.ExchangeManager.SelectAllExchanges | HareMQ/mqserver/exchange.hpp:206-208 | every declared exchange |
| Exchange.ExchangeManager.Exists | HareMQ/mqserver/exchange.hpp:209-216 | true exactly when the name is declared, so matching SelectExchange |
| Exchange.ExchangeManager.ClearExchange | HareMQ/mqserver/exchange.hpp:217-221 | memory and table emptied, the table dropped |
| Exchange.ExchangeManager.Size | HareMQ/mqserver/exchange.hpp:222-225 | the number of declared exchanges |
| Exchange.DeclareNewDurable | HareMQ/mqserver/exchange.hpp:169-184 | a new durable declaration adds the exchange and its row |
| Exchange.DeclareFour | HareMQ/mqtest/exchange_test.cc:27-34 | four distinct declarations give four exchanges and four rows |
| Exchange.ExchangeTestScenario | HareMQ/mqtest/exchange_test.cc:27-49 | size 4, the third selected as declared, and gone after its deletion |
| Exchange.ExchangeRecoveryScenario | HareMQ/mqtest/exchange_test.cc:50-57 | a restart after the deletion recovers exactly the other three |
| Queue.FromRow | HareMQ/mqserver/queue.hpp:112-123 | a row becomes the queue with its name and flags, and its argument text read back by set_args as written |
| Queue.Recover | HareMQ/mqserver/queue.hpp:103-108 | recovery yields one queue per row, each read through FromRow |
| Queue.RecoverConsistent | HareMQ/mqserver/queue.hpp:134-137 | a table of durable rows in get_args text form recovers to a registry consistent with it, the arguments read by set_args as written |
| Queue.RecoverDurable | HareMQ/mqserver/queue.hpp:103-108 | a restart recovers exactly the durable queues, each with its flags and, when its arguments are printable, those arguments plus the "" mapped to "" that set_args as written adds |
| Queue.LoadAll | HareMQ/mqserver/queue.hpp:103-108 | the select loop, calling set_args as written on each row, builds the recovered map |
| Queue.MsgQueueManager.constructor | HareMQ/mqserver/queue.hpp:134-137 | the registry is read back from the table with set_args as written, and the table exists afterwards; a well-formed table gives a consistent registry |
| Queue.MsgQueueManager.Insert | HareMQ/mqserver/queue.hpp:90-97 | the row is written exactly when the table exists and the store accepts it; memory is untouched |
| Queue.MsgQueueManager.DeclareQueue | HareMQ/mqserver/queue.hpp:138-155 | an existing name is true with no change; a durable declaration whose insert fails is false and adds nothing; otherwise the queue is added |
| Queue.MsgQueueManager.DeleteQueue | HareMQ/mqserver/queue.hpp:156-165 | the name leaves memory; the row goes only for a durable queue; unknown names change nothing |
| Queue.MsgQueueManager.SelectQueue | HareMQ/mqserver/queue.hpp:166-172 | the queue exactly when it is declared |
| Queue.MsgQueueManager.All | HareMQ/mqserver/queue.hpp:173-176 | every declared queue |
| Queue.MsgQueueManager.Exists | HareMQ/mqserver/queue.hpp:177-181 | true exactly when declared, so matching SelectQueue |
| Queue.MsgQueueManager.Size | HareMQ/mqserver/queue.hpp:182-185 | the number of declared queues |
| Queue.MsgQueueManager.ClearQueues | HareMQ/mqserver/queue.hpp:186-190 | memory and table emptied, the table dropped |
| Queue.DeclareNewDurable | HareMQ/mqserver/queue.hpp:138-155 | a new durable declaration adds the queue and its row |
| Queue.DeclareFour | HareMQ/mqtest/queue_test.cc:27-34 | four distinct declarations give four queues and four rows |
| Queue.QueueTestScenario | HareMQ/mqtest/queue_test.cc:27-49 | size 4, the fourth selected as declared, and gone after its deletion |
| Queue.SingleArgScenario | HareMQ/mqtest/queue_test.cc:35-43 | the selected queue's single argument prints as "k=v&" |
| Queue.QueueRecoveryScenario | HareMQ/mqtest/queue_test.cc:50-58 | a restart after the deletion recovers exactly the other three |
| Binding.Delete | HareMQ/mqserver/binding.hpp:79-93 | a DELETE never adds rows |
| Binding.DeleteKeeps | HareMQ/mqserver/binding.hpp:79-93 | a DELETE keeps exactly the rows its WHERE clause misses |
| Binding.InnerOf | HareMQ/mqserver/binding.hpp:160-166 | an exchange's queue bindings, empty for an unknown exchange |
| Binding.AddRow | HareMQ/mqserver/binding.hpp:100-106 | one row of select_callback: filed under its exchange and queue unless that pair is already there; AddRowKeeps states it |
| Binding.Group | HareMQ/mqserver/binding.hpp:94-106 | the select loop over all rows, one AddRow each in table order; the Group lemmas state its result |
| Binding.AddRowKeeps | HareMQ/mqserver/binding.hpp:100-106 | one row into the map keeps every entry, and a new pair gets the row |
| Binding.GroupWellKeyed | HareMQ/mqserver/binding.hpp:94-106 | grouping files each row under its own exchange and queue |
| Binding.GroupSound | HareMQ/mqserver/binding.hpp:94-106 | every grouped binding is one of the rows |
| Binding.GroupFirstWins | HareMQ/mqserver/binding.hpp:100-106 | every row's pair is present, and the first row with a pair is its binding |
| Binding.GroupNoEmpty | HareMQ/mqserver/binding.hpp:100-106 | grouping makes no exchange without a binding |
| Binding.LoadAll | HareMQ/mqserver/binding.hpp:94-106 | the select loop builds the grouped map |
| Binding.PairsOfOne | HareMQ/mqserver/binding.hpp:187-193 | an exchange contributes one pair per bound queue |
| Binding.CountRemove | HareMQ/mqserver/binding.hpp:187-193 | the count is one exchange's queues plus the others' |
| Binding.CountUpdate | HareMQ/mqserver/binding.hpp:187-193 | replacing one exchange's queues changes the count by the difference |
| Binding.CountEmpty | HareMQ/mqserver/binding.hpp:187-193 | no bindings count zero |
| Binding.SetEntry | HareMQ/mqserver/binding.hpp:122-137 | setting one pair changes that entry alone |
| Binding.DropEntry | HareMQ/mqserver/binding.hpp:138-147 | dropping one pair removes that entry alone |
| Binding.DropExchange | HareMQ/mqserver/binding.hpp:148-152 | dropping an exchange removes exactly its entries |
| Binding.RecoveredValid | HareMQ/mqserver/binding.hpp:117-120 | rows that agree per pair recover to a map holding each row under its pair |
| Binding.FirstWithPair | HareMQ/mqserver/binding.hpp:100-106 | every row has a first row with its pair |
| Binding.RestartRecovers | HareMQ/mqserver/binding.hpp:117-120 | a restart recovers exactly the bindings the rows stand for |
| Binding.BindConsistent | HareMQ/mqserver/binding.hpp:122-137 | a new binding, with or without its row, keeps memory and table in agreement |
| Binding.WithoutQueue | HareMQ/mqserver/binding.hpp:153-159 | the queue is gone under every exchange, every other entry stays, and no exchange is removed |
| Binding.UnbindQueueConsistent | HareMQ/mqserver/binding.hpp:153-159 | removing a queue in memory and in the table keeps them in agreement |
| Binding.BindingManager.constructor | HareMQ/mqserver/binding.hpp:117-120 | the map is the table's rows grouped; the table exists |
| Binding.BindingManager.Bind | HareMQ/mqserver/binding.hpp:122-137 | an existing pair is true with its key kept; a durable binding whose insert fails is false and changes nothing; otherwise the pair is bound with the key; ok exactly when bound |
| Binding.BindingManager.Unbind | HareMQ/mqserver/binding.hpp:138-147 | only that pair goes, from memory and table; an absent pair changes nothing |
| Binding.BindingManager.UnbindExchange | HareMQ/mqserver/binding.hpp:148-152 | every binding of the exchange goes and no other |
| Binding.BindingManager.UnbindQueue | HareMQ/mqserver/binding.hpp:153-159 | the queue goes under every exchange; other queues keep their bindings |
| Binding.BindingManager.GetExchangeBindings | HareMQ/mqserver/binding.hpp:160-166 | the exchange's bindings by queue; an unknown exchange gives the empty map |
| Binding.BindingManager.GetBinding | HareMQ/mqserver/binding.hpp:167-176 | the pair's binding, or none |
| Binding.BindingManager.Exists | HareMQ/mqserver/binding.hpp:177-186 | true exactly when the pair is bound |
| Binding.BindingManager.Size | HareMQ/mqserver/binding.hpp:187-193 | the loop sums the inner-map sizes, the number of bindings |
| Binding.BindingManager.ClearBindings | HareMQ/mqserver/binding.hpp:194-198 | memory and table emptied, the table dropped |
| Binding.BindNewDurable | HareMQ/mqserver/binding.hpp:122-137 | a new durable binding adds one entry and one row |
| Binding.BindThree | HareMQ/mqtest/binding_test.cc:28-44 | three bindings of a new exchange, three entries and rows |
| Binding.BindSix | HareMQ/mqtest/binding_test.cc:28-44 | the six bindings of the tests give a count of 6 |
| Binding.BindingSelectScenario | HareMQ/mqtest/binding_test.cc:45-82 | size 6, the first pair's binding as bound, the first exchange's three queues |
| Binding.SixBindings | HareMQ/mqtest/binding_test.cc:28-44 | the six bindings sit under the two exchanges |
| Binding.RemoveFirstQueue | HareMQ/mqtest/binding_test.cc:84-102 | removing the first queue leaves two bindings per exchange |
| Binding.DeleteCons | HareMQ/mqserver/binding.hpp:79-93 | a DELETE treats rows one by one |
| Binding.DeleteNone | HareMQ/mqserver/binding.hpp:79-93 | a DELETE that hits nothing keeps the table |
| Binding.DeleteAppend | HareMQ/mqserver/binding.hpp:79-93 | a DELETE over two tables is the DELETE over each |
| Binding.DeleteFirstOfThree | HareMQ/mqserver/binding.hpp:79-93 | only the hit row of three is removed |
| Binding.DeleteSixByHalves | HareMQ/mqserver/binding.hpp:79-93 | six rows delete as two groups of three |
| Binding.RemoveQueueRows | HareMQ/mqtest/binding_test.cc:84-102 | the first removal's DELETE leaves the four other rows |
| Binding.RemoveExchangeRows | HareMQ/mqtest/binding_test.cc:104-119 | the second removal's DELETE leaves the other exchange's rows |
| Binding.RemovePairRows | HareMQ/mqtest/binding_test.cc:121-133 | the third removal's DELETE leaves the one other row |
| Binding.RemoveQueueStep | HareMQ/mqtest/binding_test.cc:84-102 | unbind_queue leaves two bindings per exchange, in memory and in the table |
| Binding.RemoveExchangeStep | HareMQ/mqtest/binding_test.cc:104-119 | unbind_exchange leaves the second exchange's two bindings |
| Binding.RemovePairStep | HareMQ/mqtest/binding_test.cc:121-133 | unbind leaves one binding |
| Binding.RemoveSteps | HareMQ/mqtest/binding_test.cc:84-133 | the three removals leave one binding in memory and one row |
| Binding.BindingRemoveScenario | HareMQ/mqtest/binding_test.cc:84-150 | only one pair exists before and after a restart, and the size is 1 |
| Binding.ExistsAll | HareMQ/mqserver/binding.hpp:177-186 | exists for the six pairs |
| Codec.Pow256 | HareMQ/mqserver/message.hpp:146-147 | a power of 256 is positive |
| Codec.LittleEndian | HareMQ/mqserver/message.hpp:146-147 | k little-endian bytes |
| Codec.WordValue | HareMQ/mqserver/message.hpp:118-124 | the number k bytes read as, below 256^k |
| Codec.LittleEndianRoundTrip | HareMQ/mqserver/message.hpp:118-147 | reading back a written length word gives the length |
| Codec.WordLimitIsPow | HareMQ/mqserver/message.hpp:146-147 | the size_t bound is 256^8 |
| Codec.LengthWord | HareMQ/mqserver/message.hpp:146-147 | the 8-byte length word of a body reads back as its length |
| Codec.CharBytes | HareMQ/mqserver/message.hpp:141 | three bytes per character, the first never the end marker |
| Codec.EncodeString | HareMQ/mqserver/message.hpp:141 | a string field's length |
| Codec.CharValue | HareMQ/mqserver/message.hpp:131 | three bytes read as a number below 2^24 |
| Codec.CharBytesValue | HareMQ/mqserver/message.hpp:131-141 | a character's bytes read back as its code point |
| Codec.CharValueBytes | HareMQ/mqserver/message.hpp:131-141 | three bytes that read as a scalar value are its character's bytes |
| Codec.DecodeString | HareMQ/mqserver/message.hpp:131 | a field read consumes at least one byte |
| Codec.DecodeEncodeString | HareMQ/mqserver/message.hpp:131-141 | a written string field reads back, leaving what follows |
| Codec.EncodeStringCons | HareMQ/mqserver/message.hpp:141 | a string field is its characters' bytes in order |
| Codec.EncodeDecodeString | HareMQ/mqserver/message.hpp:131-141 | every accepted string field is the encoding of what it yields |
| Codec.Serialize | HareMQ/mqserver/message.hpp:141 | the serialised length in terms of the fields |
| Codec.ParseSerialize | HareMQ/mqserver/message.hpp:131-141 | parsing a serialised payload gives it back |
| Codec.ParseParts | HareMQ/mqserver/message.hpp:131 | an accepted body is id, mode, routing key, body and flag in order |
| Codec.SerializeParse | HareMQ/mqserver/message.hpp:131-141 | every accepted byte string is the serialisation of its result, so the encoding is injective |
| Codec.ConcatAssoc | HareMQ/mqserver/message.hpp:141 | byte concatenation regroups |
| Codec.InvalidateKeepsLength | HareMQ/mqserver/message.hpp:63-71 | clearing the validity flag keeps the serialised length, so the rewrite in place can succeed |
| Mapper.Contents | HareMQ/mqcommon/helper.hpp:127-133 | a missing file reads as empty |
| Mapper.Zeros | HareMQ/mqcommon/helper.hpp:164-183 | the hole left by a write past the end is zero bytes |
| Mapper.Overwrite | HareMQ/mqcommon/helper.hpp:164-183 | a write at an offset puts the bytes there and keeps the bytes before and after |
| Mapper.OverwriteAtEnd | HareMQ/mqcommon/helper.hpp:164-183 | a write at the end appends |
| Mapper.Write | HareMQ/mqcommon/helper.hpp:164-183 | a write succeeds exactly on an existing file that accepts it; a failed write changes nothing |
| Mapper.Create | HareMQ/mqcommon/helper.hpp:184-192 | a created file is empty, truncated if it existed |
| Mapper.RemoveFile | HareMQ/mqcommon/helper.hpp:193-195 | removal succeeds only for an existing file and then it is gone |
| Mapper.Rename | HareMQ/mqcommon/helper.hpp:224-227 | a successful rename moves the source over the target; a failed one changes nothing |
| Mapper.Frame | HareMQ/mqserver/message.hpp:138-161 | a record is the length word then the body |
| Mapper.ReadAt | HareMQ/mqserver/message.hpp:116-129 | one step of __load: at the end of the file, a torn length word or body, or a record right after its length word, which states its length and lies in the file |
| Mapper.Scan | HareMQ/mqserver/message.hpp:110-137 | the framing __load walks: the records from an offset, and whether the walk reaches the end of the file; ScanShape states it |
| Mapper.ScanShape | HareMQ/mqserver/message.hpp:110-137 | each record read lies after its length word, which states its length; records follow one another; a complete scan ends at the end of the file |
| Mapper.SpansOrdered | HareMQ/mqserver/message.hpp:110-137 | records do not overlap each other or the length words |
| Mapper.ScanSuffix | HareMQ/mqserver/message.hpp:110-137 | the read only depends on the bytes from where it starts |
| Mapper.ScanRecord | HareMQ/mqserver/message.hpp:116-135 | a framing that reads a record at an offset goes on right after it |
| Mapper.ScanAppend | HareMQ/mqserver/message.hpp:138-161 | an appended record is read after the existing ones |
| Mapper.SpanInFile | HareMQ/mqserver/message.hpp:110-137 | every record read lies in the file |
| Mapper.OverwritePrefix | HareMQ/mqcommon/helper.hpp:164-183 | a write at o keeps the bytes before o |
| Mapper.ScanOverwrite | HareMQ/mqserver/message.hpp:63-80 | rewriting a record in place with as many bytes keeps the framing |
| Mapper.OverwriteOtherBody | HareMQ/mqserver/message.hpp:63-80 | rewriting one record leaves every other record's bytes |
| Mapper.Parsed | HareMQ/mqserver/message.hpp:130-131 | one parse per record |
| Mapper.ParsedAt | HareMQ/mqserver/message.hpp:130-131 | the parse of record i is the parse of its bytes |
| Mapper.ParsedSnoc | HareMQ/mqserver/message.hpp:130-131 | one more record adds its parse |
| Mapper.ParsedSameBodies | HareMQ/mqserver/message.hpp:130-131 | parsing only looks at the records' bytes |
| Mapper.DecodedPrefix | HareMQ/mqserver/message.hpp:110-137 | decoding n records yields n messages |
| Mapper.Records | HareMQ/mqserver/message.hpp:110-137 | a log that decodes has one message per record |
| Mapper.DecodedAt | HareMQ/mqserver/message.hpp:110-137 | each decoded message is its record's payload at its place |
| Mapper.DecodedAgree | HareMQ/mqserver/message.hpp:110-137 | decoding only looks at the first n records |
| Mapper.DecodedSnoc | HareMQ/mqserver/message.hpp:110-137 | one more parsed record adds its message |
| Mapper.DecodedAppend | HareMQ/mqserver/message.hpp:138-161 | a record appended at the end adds its message |
| Mapper.DecodedUpdate | HareMQ/mqserver/message.hpp:63-80 | a record re-parsed to another payload changes that message alone |
| Mapper.Kept | HareMQ/mqserver/message.hpp:132-134 | only payloads marked valid are kept |
| Mapper.KeptSnoc | HareMQ/mqserver/message.hpp:132-134 | one more message is kept exactly when valid |
| Mapper.KeptParsed | HareMQ/mqserver/message.hpp:132-134 | kept parses are at most the parses |
| Mapper.KeptParsedSnoc | HareMQ/mqserver/message.hpp:132-134 | one more parse is kept when it succeeded and is valid |
| Mapper.KeptParsedCons | HareMQ/mqserver/message.hpp:132-134 | the same, at the front |
| Mapper.ParsedCons | HareMQ/mqserver/message.hpp:130-131 | parses in front-to-back order |
| Mapper.KeptDecoded | HareMQ/mqserver/message.hpp:132-134 | the kept messages are the valid payloads of the parses |
| Mapper.BodyAppend | HareMQ/mqserver/message.hpp:138-161 | appending keeps the bytes of earlier records |
| Mapper.BodyOfFrame | HareMQ/mqserver/message.hpp:138-161 | the appended record holds its body |
| Mapper.RecordsAppendBody | HareMQ/mqserver/message.hpp:138-161 | appending a record that parses adds its message, at old size plus 8, with its length |
| Mapper.ParsedAppendFrame | HareMQ/mqserver/message.hpp:138-161 | the parses of a log with one more record are the old parses followed by the new record's |
| Mapper.RecordsAppend | HareMQ/mqserver/message.hpp:138-161 | appending a payload's record adds its message where __insert says it is |
| Mapper.RecordsOverwriteBody | HareMQ/mqserver/message.hpp:63-80 | rewriting record k in place with bytes of its length that parse changes message k alone |
| Mapper.RecordsOverwrite | HareMQ/mqserver/message.hpp:63-80 | rewriting a record with a payload of the same length changes that message's payload alone |
| Mapper.Load | HareMQ/mqserver/message.hpp:110-137 | the while loop over the offset yields what the recursive definition of the load yields |
| Mapper.LoadFrom | HareMQ/mqserver/message.hpp:110-137 | __load from an offset, record by record; LoadFromScan, LoadAll and LoadStep state what it yields |
| Mapper.LoadOne | HareMQ/mqserver/message.hpp:130-135 | one record of __load: a body that does not parse fails the load, a valid payload is kept in front of what follows, an invalid one skipped |
| Mapper.LoadSpans | HareMQ/mqserver/message.hpp:110-137 | the load over a list of records yields at most one payload per record |
| Mapper.LoadFromSpans | HareMQ/mqserver/message.hpp:110-137 | the load from an offset is the load over the records the framing finds from there |
| Mapper.LoadSpansKept | HareMQ/mqserver/message.hpp:130-135 | over records that all parse, the load keeps exactly the valid parsed payloads, in order |
| Mapper.LoadFromScan | HareMQ/mqserver/message.hpp:110-137 | a load that meets no parse failure succeeds exactly when the framing reaches the end of the file, and yields the valid parsed payloads |
| Mapper.LoadAll | HareMQ/mqserver/message.hpp:110-137 | a log that frames and decodes loads in full, giving its valid records in order |
| Mapper.LoadSound | HareMQ/mqserver/message.hpp:110-137 | the converse: a load succeeds only when the framing reaches the end of the file and every record parses |
| Mapper.LoadFits | HareMQ/mqserver/message.hpp:110-137 | every loaded payload fits the log again |
| Mapper.LoadStep | HareMQ/mqserver/message.hpp:116-135 | a load that yields something read a record that parses |
| Mapper.ParsedFits | HareMQ/mqserver/message.hpp:124-131 | a parsed body shorter than the word bound fits |
| Mapper.AllFitCons | HareMQ/mqserver/message.hpp:132-134 | keeping a fitting payload keeps them all fitting |
| Mapper.AllFitPrefix | HareMQ/mqserver/message.hpp:91-94 | a prefix of fitting payloads fits |
| Mapper.LoadValid | HareMQ/mqserver/message.hpp:132-134 | a load only yields payloads marked valid |
| Mapper.Compact | HareMQ/mqserver/message.hpp:91-94 | rebuilding gives one message per payload |
| Mapper.PlacedAfter | HareMQ/mqserver/message.hpp:91-94 | one placed message per payload |
| Mapper.Placed | HareMQ/mqserver/message.hpp:91-94 | one placed message per payload |
| Mapper.Unplaced | HareMQ/mqserver/message.hpp:84-93 | messages never written have offset and length 0 |
| Mapper.RecordsLogAfter | HareMQ/mqserver/message.hpp:91-94 | appending the records of payloads adds their placed messages |
| Mapper.RecordsLogOf | HareMQ/mqserver/message.hpp:91-94 | a rebuilt log decodes to exactly the placed messages |
| Mapper.PlacedPayloads | HareMQ/mqserver/message.hpp:91-94 | placed messages carry their payloads |
| Mapper.CreateMsgFile | HareMQ/mqserver/message.hpp:47-55 | an existing data file is kept and true; a missing one is created empty when creation succeeds; false otherwise, with nothing changed |
| Mapper.RemoveMsgFile | HareMQ/mqserver/message.hpp:56-59 | each file is removed unless its removal fails |
| Mapper.Append | HareMQ/mqserver/message.hpp:138-161 | both writes succeed exactly on an existing file; then the record is at the end and the message sits at old size plus 8 with its length; a failed body write leaves the length word behind; a failed message stays unplaced |
| Mapper.WriteRecord | HareMQ/mqserver/message.hpp:138-161 | the two writes of __insert, for any body |
| Mapper.Invalidate | HareMQ/mqserver/message.hpp:63-80 | succeeds exactly when the re-serialised invalid payload has the recorded length and the write succeeds; then that record is rewritten in place; otherwise nothing changes |
| Mapper.RecordLength | HareMQ/mqserver/message.hpp:63-80 | a record's message has its place and the length of its serialisation |
| Mapper.RecordsInvalidate | HareMQ/mqserver/message.hpp:63-80 | invalidating a record the log holds succeeds and marks exactly that message invalid |
| Mapper.Reached | HareMQ/mqserver/message.hpp:91-94 | the insert loop writes a prefix of the payloads |
| Mapper.LogAfterSnoc | HareMQ/mqserver/message.hpp:91-94 | one more insert appends one record and places one more message |
| Mapper.AppendNext | HareMQ/mqserver/message.hpp:91-93 | one insert of the loop: the rebuilt log gains the record and the message is placed there |
| Mapper.WriteAll | HareMQ/mqserver/message.hpp:90-94 | the loop writes the payloads up to the failing insert; those are placed in the temporary file and the rest stay unplaced |
| Mapper.GcAsWritten | HareMQ/mqserver/message.hpp:81-108 | the loop of gc as written computes GcOutcome: each failure returns the messages as they are, and a removal followed by a failed rename leaves no data file |
| Mapper.Loaded | HareMQ/mqserver/message.hpp:110-137 | the loaded payloads fit |
| Mapper.Compacts | HareMQ/mqserver/message.hpp:81-108 | when every step of gc succeeds: the load, the creation of the temporary file, every insert and the rename; Gc and GcOutcomeCompacts state what follows |
| Mapper.GcOutcome | HareMQ/mqserver/message.hpp:81-108 | gc as written: a failed load hands back what was read so far, unplaced, and changes no file; otherwise one message comes back per loaded payload, whatever fails later |
| Mapper.GcOutcomeCompacts | HareMQ/mqserver/message.hpp:81-108 | when every step succeeds, gc as written replaces the data file by the rebuilt log and hands back the placed messages |
| Mapper.GcOutcomeInsertFails | HareMQ/mqserver/message.hpp:90-93 | when insert i fails, the data file stays beside the temporary file holding the first i records; those come back placed there and the rest unplaced |
| Mapper.GcOutcomeFailedInsert | HareMQ/mqserver/message.hpp:90-93 | for a one-record log whose first insert fails: the data file stays, the temporary file is empty, and the message comes back at offset 0 with length 0 |
| Mapper.GcFiles | HareMQ/mqserver/message.hpp:81-108 | when compaction succeeds the data file is the rebuilt log and no temporary file is left; otherwise the data file is untouched |
| Mapper.Gc | HareMQ/mqserver/message.hpp:81-108 | the corrected gc succeeds exactly when the load, the creation, every insert and the rename succeed; it then hands back the placed messages, and on failure none, with the data file intact |
| Mapper.KeptPlaced | HareMQ/mqserver/message.hpp:91-94 | one valid payload rebuilds and loads to itself |
| Mapper.FailedInsertExample | HareMQ/mqserver/message.hpp:91-93 | a gc whose first insert fails hands back a message with no place, whose ack can never clear its record |
| Mapper.FailedRenameExample | HareMQ/mqserver/message.hpp:96-105 | a gc whose rename fails after the removal leaves no data file, and the valid message is lost to the next load |
| MessageStore.IndexSnoc | HareMQ/mqserver/message.hpp:186-188 | one more record enters the index when valid |
| MessageStore.UniqueValidPrefix | HareMQ/mqserver/message.hpp:186-188 | unique ids carry over to a prefix |
| MessageStore.IndexWitness | HareMQ/mqserver/message.hpp:186-188 | each index entry is a valid record of its id |
| MessageStore.IndexHas | HareMQ/mqserver/message.hpp:186-188 | each valid record is its id's entry |
| MessageStore.NotIndexed | HareMQ/mqserver/message.hpp:186-188 | an id absent from the index belongs to no valid record |
| MessageStore.IndexAppend | HareMQ/mqserver/message.hpp:210-219 | a valid record of a new id enters the index |
| MessageStore.IndexInvalidate | HareMQ/mqserver/message.hpp:234-238 | clearing a record's flag takes exactly its id out of the index |
| MessageStore.IndexSize | HareMQ/mqserver/message.hpp:266-268 | with unique ids the index has one entry per valid record |
| MessageStore.KeptIndexed | HareMQ/mqserver/message.hpp:290-311 | each kept payload is its id's entry |
| MessageStore.KeptDistinct | HareMQ/mqserver/message.hpp:290-311 | kept payloads have distinct ids |
| MessageStore.KeptOrder | HareMQ/mqserver/message.hpp:290-311 | two kept payloads have different ids |
| MessageStore.KeptAllValid | HareMQ/mqserver/message.hpp:290-311 | every record valid means every record kept |
| MessageStore.ValidRecords | HareMQ/mqserver/message.hpp:182-191 | the records whose valid flag is set, in file order and where they lie; the queue the corrected recovery builds when the data file stays, every one of them valid |
| MessageStore.ValidRecordsKept | HareMQ/mqserver/message.hpp:182-191 | the valid records, where they lie, carry the kept payloads in order and index as the whole log does |
| MessageStore.UniqueFromKept | HareMQ/mqserver/message.hpp:182-191 | kept payloads with distinct ids come from records with unique valid ids, the converse of KeptDistinct |
| MessageStore.PlacedUnique | HareMQ/mqserver/message.hpp:290-311 | a rebuilt log of distinct valid payloads has unique valid ids and carries them in order |
| MessageStore.Patch | HareMQ/mqserver/message.hpp:297-309 | the patch loop of queue_message::gc: a durable entry takes the returned message's place, a message without one is queued and entered; PatchRelocates states it |
| MessageStore.PatchRelocates | HareMQ/mqserver/message.hpp:297-309 | the patch loop over entered messages only moves durable entries to their new places |
| MessageStore.SubsetSameSize | HareMQ/mqserver/message.hpp:297-311 | a subset of equal size is the set |
| MessageStore.SubsetSize | HareMQ/mqserver/message.hpp:297-311 | a subset is no larger |
| MessageStore.GcRelocates | HareMQ/mqserver/message.hpp:297-311 | after a successful compaction each durable entry takes its record's new place and the pending list is unchanged |
| MessageStore.Entered | HareMQ/mqserver/message.hpp:186-188 | recovery's insert into the durable map, message by message, an existing id kept; EnteredIndex and EnteredValid state it |
| MessageStore.EnteredIndex | HareMQ/mqserver/message.hpp:186-188 | recovery's insert loop on an empty map indexes the messages |
| MessageStore.UniqueIndexedValid | HareMQ/mqserver/message.hpp:186-188 | unique ids, stated record by record |
| MessageStore.QueuedPush | HareMQ/mqserver/message.hpp:220-226 | pushing a message with an unused id keeps the queues consistent |
| MessageStore.QueuedFront | HareMQ/mqserver/message.hpp:247-257 | moving the head to wait-ack keeps the queues consistent |
| MessageStore.QueuedAck | HareMQ/mqserver/message.hpp:228-246 | dropping an acknowledged id keeps the queues consistent |
| MessageStore.StoredAppend | HareMQ/mqserver/message.hpp:210-226 | a durable insert keeps the log, the durable map and both counters in agreement |
| MessageStore.Dec | HareMQ/mqserver/message.hpp:240 | the size_t decrement, wrapping below zero |
| MessageStore.StoredAck | HareMQ/mqserver/message.hpp:234-241 | invalidating an acknowledged durable record succeeds and keeps the agreement with one valid record fewer |
| MessageStore.StoredGc | HareMQ/mqserver/message.hpp:290-311 | compaction keeps exactly the durable messages; both counters become their number, which is the prior valid count |
| MessageStore.StoredRecovery | HareMQ/mqserver/message.hpp:182-191 | recovery from recoverable messages gives a consistent store |
| MessageStore.EnteredValid | HareMQ/mqserver/message.hpp:186-188 | entered messages are their index, one entry each |
| MessageStore.QueuedAll | HareMQ/mqserver/message.hpp:182-191 | recovered messages, all pending, are consistently queued |
| MessageStore.Scale | HareMQ/mqserver/message.hpp:283-289 | multiplying by a positive number keeps a strict order |
| MessageStore.ScaleAtMost | HareMQ/mqserver/message.hpp:283-289 | multiplying by a positive number keeps an order |
| MessageStore.GcCheck | HareMQ/mqserver/message.hpp:283-289 | gc_check in integers, more than 2000 records and fewer than half valid; GcCheckRatio relates it to the ratio |
| MessageStore.GcCheckRatio | HareMQ/mqserver/message.hpp:283-289 | the integer check 2 * valid < total with total > 2000 is exactly the source's ratio test computed exactly |
| MessageStore.SoundEmpty | HareMQ/mqserver/message.hpp:47-55 | an empty log decodes to no records |
| MessageStore.Envelope | HareMQ/mqserver/message.hpp:192-207 | a non-durable queue stores UNDURABLE whatever the properties; else the given mode, or DURABLE without properties; the id is the given one or the drawn uuid; the body is kept; valid exactly when durable |
| MessageStore.PatchAll | HareMQ/mqserver/message.hpp:297-309 | the loop computes the patch |
| MessageStore.EnterAll | HareMQ/mqserver/message.hpp:186-188 | the loop computes the entries, an existing one kept |
| MessageStore.Counts | HareMQ/mqserver/message.hpp:262-268 | in a consistent store total counts every record and valid counts the durable ones, the kept records |
| MessageStore.Created | HareMQ/mqserver/message.hpp:177-181 | a new store is empty, its data file created |
| MessageStore.CreateKeeps | HareMQ/mqserver/message.hpp:177-181 | a new store over a missing or empty data file is consistent |
| MessageStore.Inserted | HareMQ/mqserver/message.hpp:192-226 | ok exactly when the message is undurable or the append succeeds; a failure leaves memory and both counters unchanged; success appends at the back, and a durable one adds one to both counters and enters the durable map without replacing an entry |
| MessageStore.InsertKeeps | HareMQ/mqserver/message.hpp:192-226 | an insert of an unused id keeps the store consistent, and the durable ids gain the new id exactly when it is durable |
| MessageStore.DurableKeeps | HareMQ/mqserver/message.hpp:210-226 | a durable insert keeps consistency |
| MessageStore.UndurableKeeps | HareMQ/mqserver/message.hpp:220-226 | an undurable insert keeps consistency |
| MessageStore.FrontOf | HareMQ/mqserver/message.hpp:247-257 | an empty queue gives none and changes nothing; otherwise the old head, dropped from pending and added to wait-ack under its id |
| MessageStore.FrontKeeps | HareMQ/mqserver/message.hpp:247-257 | front keeps consistency, and the message handed out awaits its acknowledgement |
| MessageStore.InsertFront | HareMQ/mqserver/message.hpp:220-257 | FIFO: an insert does not change what front hands out next, unless the queue was empty, when it is the new message |
| MessageStore.Collected | HareMQ/mqserver/message.hpp:290-312 | the corrected gc: nothing happens unless gc_check asks for it; a failed compaction leaves the data file, memory and both counters as they were; wait-ack is never touched |
| MessageStore.CollectKeeps | HareMQ/mqserver/message.hpp:290-312 | gc keeps the log consistent, the pending list, the durable ids and the valid count, and success leaves only valid records with total equal to valid |
| MessageStore.Acked | HareMQ/mqserver/message.hpp:228-246 | an id not awaiting ack changes nothing; an undurable one only leaves wait-ack; a durable one has its record invalidated in place, leaves the durable map, decrements the valid count and may trigger gc |
| MessageStore.AckKeeps | HareMQ/mqserver/message.hpp:228-246 | an acknowledgement whose write succeeds keeps consistency and removes exactly that durable id |
| MessageStore.Recovered | HareMQ/mqserver/message.hpp:182-191 | the corrected recovery: when compaction succeeds the kept messages are queued and entered, both counters set to their number, and the rebuilt log replaces the data file; when it fails on a log that loads, the data file stays and its valid records are queued and entered where they are, valid their number and total the number of records; a log that does not load gives nothing |
| MessageStore.RecoverKeeps | HareMQ/mqserver/message.hpp:182-191 | recovering a log that loads, of distinct durable messages, gives a consistent store holding exactly them in log order, whether the compaction succeeds or fails |
| MessageStore.RecoverInPlace | HareMQ/mqserver/message.hpp:182-191 | the failed-compaction case: the records indexed where they lie in the kept data file agree with it |
| MessageStore.CollectedAsWritten | HareMQ/mqserver/message.hpp:290-312 | gc as queue_message::gc writes it: when gc_check asks for it, the files become those of gc as written, and both counters the length of the list it hands back, on failure too; wait-ack untouched |
| MessageStore.RecoveredAsWritten | HareMQ/mqserver/message.hpp:182-191 | recovery as written: the files become those of gc as written, and every message of the list it hands back, on failure too, is queued, with both counters its length |
| MessageStore.AsWrittenAgrees | HareMQ/mqserver/message.hpp:81-108 | when the data file exists and every step succeeds, gc and recovery as written equal the corrected ones |
| MessageStore.RecoveredAsWrittenFailedInsert | HareMQ/mqserver/message.hpp:90-93 | recovering a one-record log whose first insert fails: as written the message is queued and entered at offset 0, the data file stays, and the store is no longer consistent |
| MessageStore.RecoveredFailedInsert | HareMQ/mqserver/message.hpp:90-93 | the same recovery, corrected: the message is queued and entered at its place after the length word, the data file stays, and a durable message leaves the store consistent |
| MessageStore.Cleared | HareMQ/mqserver/message.hpp:273-281 | both files are removed and every message and counter is forgotten |
| MessageStore.ClearKeeps | HareMQ/mqserver/message.hpp:273-281 | a cleared store whose data file is gone is consistent |
| MessageStore.QueueMessage.constructor | HareMQ/mqserver/message.hpp:177-181 | the store starts empty, its data file created when missing |
| MessageStore.QueueMessage.Recovery | HareMQ/mqserver/message.hpp:182-191 | the fields become the recovered state; true |
| MessageStore.QueueMessage.Insert | HareMQ/mqserver/message.hpp:192-226 | the result and new fields are the insert of the envelope |
| MessageStore.QueueMessage.Remove | HareMQ/mqserver/message.hpp:228-246 | the fields become the acknowledged state; true |
| MessageStore.QueueMessage.Front | HareMQ/mqserver/message.hpp:247-257 | the result and new fields are front's |
| MessageStore.QueueMessage.GetableCount | HareMQ/mqserver/message.hpp:258-261 | the number of ready messages |
| MessageStore.QueueMessage.TotalCount | HareMQ/mqserver/message.hpp:262-265 | the total counter, which counts every record of the log in a consistent store |
| MessageStore.QueueMessage.DurableCount | HareMQ/mqserver/message.hpp:266-268 | the size of the durable map, the number of valid records in a consistent store |
| MessageStore.QueueMessage.WaitAckCount | HareMQ/mqserver/message.hpp:269-272 | the number awaiting acknowledgement |
| MessageStore.QueueMessage.Clear | HareMQ/mqserver/message.hpp:273-281 | the fields become the cleared state |
| MessageStore.QueueMessage.Collect | HareMQ/mqserver/message.hpp:290-312 | the fields become the collected state |
| MessageStore.MessageManager.constructor | HareMQ/mqserver/message.hpp:322-323 | no queues yet |
| MessageStore.MessageManager.InitQueueMsg | HareMQ/mqserver/message.hpp:324-335 | idempotent: an existing store is kept; otherwise a new store, created and recovered, is added |
| MessageStore.MessageManager.DestroyQueueMsg | HareMQ/mqserver/message.hpp:336-347 | the store leaves the map and is cleared |
| MessageStore.MessageManager.Insert | HareMQ/mqserver/message.hpp:348-360 | false for an unknown queue; otherwise the store's insert |
| MessageStore.MessageManager.Front | HareMQ/mqserver/message.hpp:361-373 | none for an unknown queue; otherwise the store's front |
| MessageStore.MessageManager.Ack | HareMQ/mqserver/message.hpp:374-386 | the store's remove; nothing for an unknown queue |
| MessageStore.MessageManager.GetableCount | HareMQ/mqserver/message.hpp:387-399 | the store's count, 0 for an unknown queue |
| MessageStore.MessageManager.TotalCount | HareMQ/mqserver/message.hpp:400-412 | the store's count, 0 for an unknown queue |
| MessageStore.MessageManager.DurableCount | HareMQ/mqserver/message.hpp:413-424 | the store's count, 0 for an unknown queue |
| MessageStore.MessageManager.WaitAckCount | HareMQ/mqserver/message.hpp:426-437 | the store's count, 0 for an unknown queue |
| MessageStore.MessageManager.Clear | HareMQ/mqserver/message.hpp:439-443 | every store is cleared and stays in the map |
| MessageStore.InsertOne | HareMQ/mqserver/message.hpp:192-226 | an insert into an existing data file appends the message at the back |
| MessageStore.InsertTwo | HareMQ/mqserver/message.hpp:192-226 | two durable inserts add two records and two entries |
| MessageStore.SetUp | HareMQ/mqtest/msg_test.cc:16-19 | the test's set-up gives one empty queue store |
| MessageStore.InsertFive | HareMQ/mqtest/msg_test.cc:29-43 | four durable and one undurable insert: 5 ready, 4 records, 4 durable, 0 waiting |
| MessageStore.FrontOne | HareMQ/mqserver/message.hpp:247-257 | one front hands out the head, which now waits |
| MessageStore.FrontTwo | HareMQ/mqserver/message.hpp:247-257 | two fronts in order, with the counts after each |
| MessageStore.AckOne | HareMQ/mqserver/message.hpp:228-246 | an ack below the gc threshold drops the id and decrements valid |
| MessageStore.SelectScenario | HareMQ/mqtest/msg_test.cc:46-69 | four fronts hand out the first four bodies in order, with 4, 3, 2, 1 ready and 1, 2, 3, 4 waiting |
| MessageStore.MessageTestScenario | HareMQ/mqtest/msg_test.cc:96-108 | after the inserts, one front and its ack: 3 durable, 4 ready, 4 records, 0 waiting |
| Consumer.FirstWithTag | HareMQ/mqserver/consumer.hpp:64-74 | the first position holding the tag, none exactly when absent |
| Consumer.WithoutTagMembers | HareMQ/mqserver/consumer.hpp:64-74 | erasing keeps unique tags, loses exactly that tag and one element when present |
| Consumer.ErasedUnique | HareMQ/mqserver/consumer.hpp:64-74 | erasing a position keeps unique tags |
| Consumer.ErasedHas | HareMQ/mqserver/consumer.hpp:64-74 | erasing a position loses exactly its tag |
| Consumer.ErasedAt | HareMQ/mqserver/consumer.hpp:64-74 | erasing keeps the others in order |
| Consumer.Skip | HareMQ/mqserver/consumer.hpp:64-74 | positions after the erased one shift by one |
| Consumer.AppendUnique | HareMQ/mqserver/consumer.hpp:59-62 | appending a new tag keeps tags unique |
| Consumer.TurnsUntil | HareMQ/mqserver/consumer.hpp:79-80 | arithmetic: the number k < n of further steps after which a counter at start, taken modulo n, gives position i |
| Consumer.Next | HareMQ/mqserver/consumer.hpp:80 | the counter after one choice, below 2^64, one more unless it wraps |
| Consumer.RoundRobinTurn | HareMQ/mqserver/consumer.hpp:75-82 | fairness over a fixed consumer list whose counter does not wrap: with the counter following Next, as RrChoose's contract has it, position i is chosen after exactly TurnsUntil(n, start, i) further choices and at no earlier one |
| Consumer.QueueConsumer.constructor | HareMQ/mqserver/consumer.hpp:46-48 | no consumers and sequence 0 |
| Consumer.QueueConsumer.Create | HareMQ/mqserver/consumer.hpp:49-63 | a tag already present is refused with nothing changed; a new one is appended and returned |
| Consumer.QueueConsumer.Remove | HareMQ/mqserver/consumer.hpp:64-74 | the first consumer with the tag is erased; an unknown tag changes nothing |
| Consumer.QueueConsumer.RrChoose | HareMQ/mqserver/consumer.hpp:75-82 | none and no advance when empty; otherwise consumers[seq mod size], and the counter advances by Next, seq + 1 mod 2^64 |
| Consumer.QueueConsumer.Empty | HareMQ/mqserver/consumer.hpp:83-86 | true exactly when there are no consumers |
| Consumer.QueueConsumer.Exists | HareMQ/mqserver/consumer.hpp:87-93 | true exactly when the tag is present |
| Consumer.QueueConsumer.Clear | HareMQ/mqserver/consumer.hpp:94-98 | no consumers and sequence 0 |
| Consumer.ConsumerManager.constructor | HareMQ/mqserver/consumer.hpp:107 | no consumer sets |
| Consumer.ConsumerManager.InitQueueConsumer | HareMQ/mqserver/consumer.hpp:108-115 | idempotent: an existing set is kept; otherwise a new empty set |
| Consumer.ConsumerManager.DestroyQueueConsumer | HareMQ/mqserver/consumer.hpp:116-119 | the set leaves the map |
| Consumer.ConsumerManager.Create | HareMQ/mqserver/consumer.hpp:120-135 | none for a queue without a set; otherwise the set's create |
| Consumer.ConsumerManager.Remove | HareMQ/mqserver/consumer.hpp:136-148 | nothing for a queue without a set; otherwise the set's remove |
| Consumer.ConsumerManager.Choose | HareMQ/mqserver/consumer.hpp:149-161 | none for a queue without a set; otherwise the set's round-robin choice |
| Consumer.ConsumerManager.Empty | HareMQ/mqserver/consumer.hpp:162-174 | true exactly when the queue has a set and it is empty |
| Consumer.ConsumerManager.Exists | HareMQ/mqserver/consumer.hpp:175-187 | true exactly when the queue has a set holding the tag |
| Consumer.ConsumerManager.Clear | HareMQ/mqserver/consumer.hpp:188-191 | no consumer sets |
| Consumer.CreateThree | HareMQ/mqtest/consumer_test.cc:30-39 | three creates give the three consumers in order |
| Consumer.RemoveFirst | HareMQ/mqtest/consumer_test.cc:40-45 | removing the first leaves the other two |
| Consumer.ChooseThree | HareMQ/mqtest/consumer_test.cc:47-59 | with two consumers the choices are the second, the third, the second |
| Consumer.ConsumerTestScenario | HareMQ/mqtest/consumer_test.cc:30-59 | the three tests together |
| VirtualHost.VirtualHost.constructor | HareMQ/mqserver/virtual_host.hpp:27-32 | the host over its four managers |
| VirtualHost.VirtualHost.Open | HareMQ/mqserver/virtual_host.hpp:27-37 | the registries recovered from their tables, consistent with them, and one created and recovered message store per declared queue, each over its own files and file-operation outcomes |
| VirtualHost.VirtualHost.RecoverStores | HareMQ/mqserver/virtual_host.hpp:33-36 | the loop gives every declared queue its store, recovered with that queue's own files and file-operation outcomes |
| VirtualHost.VirtualHost.DeclareExchange | HareMQ/mqserver/virtual_host.hpp:38-44 | the exchange manager's declaration; consistency and linkage kept |
| VirtualHost.VirtualHost.DeleteExchange | HareMQ/mqserver/virtual_host.hpp:45-49 | the exchange's bindings go, then the exchange; no binding of it is left |
| VirtualHost.VirtualHost.DeclareQueue | HareMQ/mqserver/virtual_host.hpp:50-59 | the message store is set up idempotently first, even when the declaration then fails, and the other stores keep their state; then the queue manager's declaration |
| VirtualHost.VirtualHost.DeleteQueue | HareMQ/mqserver/virtual_host.hpp:60-64 | the store is destroyed, the queue unbound everywhere, the queue deleted |
| VirtualHost.VirtualHost.Bind | HareMQ/mqserver/virtual_host.hpp:65-77 | false with nothing changed when either end is missing; otherwise bound, durable exactly when both ends are |
| VirtualHost.VirtualHost.Unbind | HareMQ/mqserver/virtual_host.hpp:78-81 | the pair is unbound |
| VirtualHost.VirtualHost.ExchangeBindings | HareMQ/mqserver/virtual_host.hpp:82-84 | the exchange's bindings by queue |
| VirtualHost.VirtualHost.SelectExchange | HareMQ/mqserver/channel.hpp:139 | the declared exchange, or none |
| VirtualHost.VirtualHost.BasicPublish | HareMQ/mqserver/virtual_host.hpp:85-92 | false for an unknown queue; otherwise the store's insert, using the queue's own durable flag |
| VirtualHost.VirtualHost.BasicConsume | HareMQ/mqserver/virtual_host.hpp:93-95 | the store's front |
| VirtualHost.VirtualHost.BasicAck | HareMQ/mqserver/virtual_host.hpp:96-98 | the store's remove |
| VirtualHost.VirtualHost.Clear | HareMQ/mqserver/virtual_host.hpp:99-104 | the registries emptied, every store cleared |
| VirtualHost.VirtualHost.ExistsExchange | HareMQ/mqserver/virtual_host.hpp:108 | true exactly when declared |
| VirtualHost.VirtualHost.ExistsQueue | HareMQ/mqserver/virtual_host.hpp:109 | true exactly when declared |
| VirtualHost.VirtualHost.ExistsBinding | HareMQ/mqserver/virtual_host.hpp:110 | true exactly when bound |
| VirtualHost.PublishOne | HareMQ/mqserver/virtual_host.hpp:85-92 | a publish to a durable queue appends the message and adds a record |
| VirtualHost.ConsumeOne | HareMQ/mqserver/virtual_host.hpp:93-95 | a consume hands out the head, which now awaits acknowledgement |
| VirtualHost.NewQueueEmpty | HareMQ/mqserver/message.hpp:177-191 | a queue over no files starts with an empty data file and no messages |
| VirtualHost.EmptyHost | HareMQ/mqserver/virtual_host.hpp:27-37 | a host over empty tables is empty |
| VirtualHost.DeclareAll | HareMQ/mqtest/host_test.cc:14-48 | the declarations of the set-up succeed |
| VirtualHost.SetUpHost | HareMQ/mqtest/host_test.cc:14-48 | the set-up's three publishes are queued in order, all durable |
| VirtualHost.InitScenario | HareMQ/mqtest/host_test.cc:58-87 | what was declared exists; three consumes give the bodies in order, a fourth none |
| VirtualHost.AckOne | HareMQ/mqserver/virtual_host.hpp:96-98 | an ack below the gc threshold drops the id and decrements valid |
| VirtualHost.AckScenario | HareMQ/mqtest/host_test.cc:108-120 | consume and ack in turn give the bodies in order, then none |
| VirtualHost.RemoveExchangeScenario | HareMQ/mqtest/host_test.cc:90-96 | after delete_exchange no binding of it exists |
| VirtualHost.RemoveQueueScenario | HareMQ/mqtest/host_test.cc:97-105 | after delete_queue the queue is bound nowhere and consumes none |
| Channel.TargetsAreAcceptingBindings | HareMQ/mqserver/channel.hpp:150-159 | a queue is a target exactly when it is bound to the exchange with a key the route accepts |
| Channel.FanoutTargetsAll | HareMQ/mqserver/channel.hpp:150-159 | Fanout sends to every queue bound to the exchange |
| Channel.DirectTargetsEqualKey | HareMQ/mqserver/channel.hpp:150-159 | Direct sends exactly to the queues whose binding key is the routing key |
| Channel.TopicHashTargeted | HareMQ/mqserver/channel.hpp:150-159 | on Topic a queue bound with "#" gets every message |
| Channel.TargetsDeclared | HareMQ/mqserver/channel.hpp:150-159 | on a linked host every target is a declared queue |
| Channel.ProgressStep | HareMQ/mqserver/channel.hpp:150-159 | visiting one more binding keeps the loop's bookkeeping, pushing it exactly when it matches |
| Channel.Enumerated | HareMQ/mqserver/channel.hpp:150-159 | at the end of the loop the pushed queues are the targets, each once |
| Channel.RoutingKey | HareMQ/mqserver/channel.hpp:144-149 | empty without properties, else the properties' key |
| Channel.PublishedStep | HareMQ/mqserver/channel.hpp:152-154 | one more publish changes that queue's store alone |
| Channel.Channel.constructor | HareMQ/mqserver/channel.hpp:79-90 | no consumer, tasks or deliveries yet |
| Channel.Channel.Close | HareMQ/mqserver/channel.hpp:91-94 | the channel's consumer, if any, leaves its queue's set |
| Channel.Channel.DeclareExchange | HareMQ/mqserver/channel.hpp:96-106 | the host's declaration answered: a known name changes nothing; a new one is added, with its fields, exactly when it is transient or its row was written |
| Channel.Channel.DeleteExchange | HareMQ/mqserver/channel.hpp:107-110 | the exchange and its bindings go, no binding of it remains, and the registries still agree with their tables; always true |
| Channel.Channel.DeclareQueue | HareMQ/mqserver/channel.hpp:112-121 | the host's declaration: a new store in the recovered state beside the unchanged others, and a new queue with its fields exactly when it is transient or its row was written; the consumer set is initialised only when that succeeded, idempotently |
| Channel.Channel.InitConsumers | HareMQ/mqserver/channel.hpp:119 | the queue's consumer set is added empty when it is missing, no message store changes state, and the host's validity, consistency and linkage keep their truth values |
| Channel.Channel.DeleteQueue | HareMQ/mqserver/channel.hpp:122-126 | the consumer set goes first, then the queue, its bindings and its store, whose files are removed as `Cleared` says; no binding of the queue remains, and the registries still agree with their tables; always true |
| Channel.Channel.Bind | HareMQ/mqserver/channel.hpp:128-131 | the host's bind answered: nothing changes for an unknown end or a bound pair; otherwise the binding with its key is added alone, with its row when both ends are durable, or refused when that row is not written |
| Channel.Channel.Unbind | HareMQ/mqserver/channel.hpp:132-135 | the pair is unbound and every other binding stays; always true |
| Channel.Channel.BasicPublish | HareMQ/mqserver/channel.hpp:137-161 | false and nothing published for an unknown exchange; otherwise each target queue, and no other, gets one insert and one task |
| Channel.Channel.Deliver | HareMQ/mqserver/channel.hpp:150-159 | the loop pushes each routed queue once and publishes to it alone |
| Channel.Channel.PublishEach | HareMQ/mqserver/channel.hpp:152-158 | the loop over the bindings, in any order, pushes each routed queue once and leaves every store as publishing to exactly the queues it pushed |
| Channel.Channel.PublishTo | HareMQ/mqserver/channel.hpp:152-157 | one publish changes the store of that queue alone |
| Channel.Channel.Consume | HareMQ/mqserver/channel.hpp:55-76 | an empty queue returns at once; a queue without a store leaves its consumer set and counter untouched; without a consumer the message stays awaiting ack; otherwise the round-robin consumer gets it and an auto-ack consumer's message is acknowledged |
| Channel.Channel.Dispatch | HareMQ/mqserver/channel.hpp:63-75 | without a consumer the message stays awaiting ack in an unchanged store; otherwise the round-robin consumer gets it and an auto-ack consumer's message is acknowledged |

## Left out

- Network, codec responses, connections, the client and logging are not part of this model. `broker_server.hpp`, `connection.hpp` and the client files are not part of it either.
- SQLite is a map or a row sequence whose insert may fail (`storeOk`). Only inserts can fail. Deletes and table drops always succeed.
- Mapper.Load, Mapper.LoadFrom and Mapper.LoadOne: a record body that does not parse ends the load as a failure. The source ignores the result of `ParseFromString` (message.hpp:131) and keeps whatever was parsed.
- Codec.Serialize: a byte codec stands in for protobuf. It keeps the properties the log depends on: it is injective, it has a length, and clearing the flag keeps that length. The exact protobuf bytes are not modelled.
- MessageStore.InsertKeeps requires `bodyOk` whenever `wordOk` holds, so it does not cover a torn append, where the length word is written and the body is not. `Inserted` itself models that case: the partial record stays in the file.
- MessageStore.AckKeeps assumes the in-place write succeeds. `Acked` itself models a failed write, which leaves the record valid.
- MessageStore.RecoverKeeps requires `Sound` (the data file frames and decodes completely, which by LoadAll and LoadSound is exactly when it loads) and `Recoverable` (the logged ids are distinct and durable). The source relies on both without checking them.
- Mapper.WriteAll: an insert during compaction fails only at the index `failAt`, with both of its writes failing together. The first failure stops the loop, so one index suffices.
- Helper.CreateDir returns the failure. The mapper's constructor `abort`s on that failure, and the abort is not modelled.
- Messages are values. The source shares one `message_ptr` between the pending list, the wait-ack map and the durable map, and the model does not capture that aliasing or its in-place offset patching. The durable map holds the authoritative place. `Unused` (the new id is held by no message of the queue) stands in for the uniqueness the shared pointers give.
- MessageStore.GcCheckRatio relates the integer check to the source's floating-point ratio, computed exactly. Floating-point rounding is not modelled.
- Channel.Channel.BasicPublish requires `FitsEverywhere`: the message's serialisation fits a length word, for whatever id each queue draws.
- MessageStore.InsertFive: msg_test.cc:34-38 passes a `DeliveryMode` where the `bool` `queue_durable` is expected. The enumeration's numbering is not part of this model's sources; the model assumes `UNDURABLE` is the zero value, so it converts to false and the fifth message goes to a non-durable queue.
- Message ids are inputs (`uuid`, `uuidOf`). `uuid_helper` is not part of this model.
- Mutexes and the two-level locking are modelled as sequential code.
- The queue directory becomes each queue's `LogFiles` (data file and temporary file), passed in where the source derives paths from `base_dir`.
- Channel: the consumer callback becomes an entry in `deliveries`. `basic_ack`, `basic_consume` and `basic_cancel` are declared at channel.hpp:162-165 without bodies, so they are not modelled, and nothing sets `consumer`.
- Channel.Channel.BasicPublish states that the tasks it appends list each target once. The tasks are never run; `Consume` models what one does.
- VirtualHost.SetUpHost, InitScenario and AckScenario use one exchange and one queue. host_test.cc declares three of each.
- VirtualHost.VirtualHost.Open stands in for the host constructor; the constructor in the model only assembles the managers.
- MessageStore.SetUp, InsertFive, SelectScenario and MessageTestScenario drive the store directly, without a file system.
- Binding.BindingManager.GetExchangeBindings: the order in which callers iterate over the bindings is left unspecified. `Channel.Channel.Deliver` holds for any order.
- Consumer.RoundRobinTurn requires that the counter does not wrap within the next n choices. `RrChoose` itself wraps modulo 2^64, and since 2^64 need not be a multiple of n, a wrap can shift the turn.
- Consumer.QueueConsumer.RrChoose ignores the `int idx` truncation at consumer.hpp:80. With fewer than 2^31 consumers it has no effect.
- Codec.DeliveryMode has only `Undurable` and `Durable`. The wire enumeration also has `UNKNOWMODE` (client.cc:348), which the server stores as given and does not persist; that value is not modelled.
- Router.ExchangeType has only `Direct`, `Fanout` and `Topic`. The wire enumeration also has `UNKNOWTYPE` (client.cc:229), for which router::route, like its Topic branch, returns no value; that value is not modelled.
- VirtualHost.VirtualHost.DeclareExchange forwards to the corrected `ExchangeManager.DeclareExchange`, so a durable declaration whose insert fails adds nothing and answers false. The source's declare_exchange adds the exchange and answers true (Findings row 3); the model does not follow that path above the exchange manager.
- Channel.Channel.DeclareExchange answers what the host's corrected declaration answers, so it does not model the source's true answer for a durable exchange whose row was not written.
- MessageStore.Collected is the corrected gc. The source's queue_message::gc also patches and counts the list a failed mapper gc hands back (Findings row 4); that behaviour is `CollectedAsWritten`, which the store does not call.
- MessageStore.Recovered is the corrected recovery. As written, the list a failed mapper gc hands back is queued and entered; that behaviour is `RecoveredAsWritten`, which the store does not call. After a failed compaction of a log that loads, the corrected recovery indexes the valid records where they lie in the kept data file.
- MessageStore.CollectedAsWritten follows a build without debug checks. message.hpp:295 asserts that the mapper's gc hands back as many messages as the valid count, which aborts a debug build when a failed gc hands back another number; the abort is not modelled.
- MessageStore.CollectKeeps, MessageStore.Acked and MessageStore.AckKeeps are stated over the corrected gc, so they do not cover a failed compaction as the source performs it.
- MessageStore.QueueMessage.Recovery and MessageStore.QueueMessage.Collect set the fields to the corrected `Recovered` and `Collected` states, not to `RecoveredAsWritten` and `CollectedAsWritten`.
- MessageStore.QueueMessage.Remove, MessageStore.MessageManager.InitQueueMsg and MessageStore.MessageManager.Ack reach gc or recovery only through the corrected transitions.
- VirtualHost.VirtualHost.Open, VirtualHost.VirtualHost.RecoverStores, VirtualHost.VirtualHost.DeclareQueue, Channel.Channel.DeclareQueue and VirtualHost.VirtualHost.BasicAck recover or acknowledge through the corrected store transitions.
- VirtualHost.VirtualHost.Open, VirtualHost.VirtualHost.DeclareQueue and Channel.Channel.DeclareQueue give one `createOk` per queue. It decides both the mapper constructor's create of the data file and gc's create of the tmp file. A data file that is created while the tmp create fails is therefore not modelled. The constructor's create runs only when the data file is missing, so this matters only for a fresh, empty log. There the recovered queue is empty either way; what differs is whether gc swaps in an empty rebuilt log.
- Channel.Channel.Consume and Channel.Channel.Dispatch acknowledge through the corrected store transitions, so an automatic acknowledgement that triggers a failing gc is not modelled as the source performs it.
- `thread_pool`, `logger`, the demos and `remove_dir` are not part of this model.

## Findings

| source | as written | input that shows it | evidently intended | confidence | as-written member | corrected member |
|---|---|---|---|---|---|---|
| HareMQ/mqserver/route.hpp:29 | `ch == '_' && ch == '.'` never holds, so '_' and '.' are refused | binding key "news.music.pop" (route_test.cc:39 expects it legal) | `ch == '_' or ch == '.'` | not executed | Router.BindingKeyAsWrittenRefusesTestKey | Router.BindingKeyBySegments |
| HareMQ/mqserver/route.hpp:52-54 | the Topic branch is a comment; control falls off the end of a bool function | Topic, routing key "aaa", binding key "aaa" | segment matching with '*' as one segment and '#' as zero or more | not executed | Router.TopicRouteAsWrittenUndefined | Router.TopicCase |
| HareMQ/mqserver/exchange.hpp:179-184 | the insert result is ignored, so the exchange is added and true is returned | a durable declaration whose store insert fails | return false and add nothing, as queue.hpp:148-155 does | not executed | Exchange.ExchangeManager.DeclareExchangeAsWritten | Exchange.ExchangeManager.DeclareExchange |
| HareMQ/mqserver/message.hpp:91-93 | a failed insert while rebuilding returns the loaded messages, which recovery then queues and enters with place 0, and which gc patches into the durable map with place 0 | recovery of a one-record log whose first insert fails | gc leaves the data file and hands back nothing; recovery then indexes the valid records where they lie in the data file | not executed | MessageStore.RecoveredAsWrittenFailedInsert | MessageStore.RecoverKeeps |
| HareMQ/mqserver/message.hpp:96-105 | the data file is removed before the rename; a failed rename leaves no data file | gc of a one-record log, removal ok, rename fails | rename over the data file so it is replaced at once | not executed | Mapper.FailedRenameExample | Mapper.Gc |
| HareMQ/mqserver/exchange.hpp:47-69 | set_args reads back get_args' trailing '&' as an empty piece and adds "" mapped to "" | any argument map, e.g. {"k": "v"} | skip empty pieces | not executed | Args.ArgsRoundTripAsWritten | Args.ArgsRoundTrip |
