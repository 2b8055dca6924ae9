# A verified model of an in-memory SQL server

The program is a small database server in C: an HTTP front end hands connections to a thread pool,
a hand-written parser turns the request body into a command, and the command runs against one table
whose sixteen buckets each have a row array and a B+ tree on the id. This project models all of that
in Dafny and proves what it is supposed to do, from the pointers of the tree to the bytes on the wire.

| files | what they model |
|---|---|
| `BPTreeModel`, `BPTreeSteps`, `BPTreeNodes`, `BPTree`, `BPTreeTheory` | `sql_processor/bptree.c`: heap nodes updated in place, with explicit parent and next pointers |
| `Rows`, `Table` | `sql_processor/table.c` without its locks: rows, conditions, sorting; then the table as a class |
| `ConcurrentTable`, `Histories`, `ScanWitness` | insertions, lookups and scans as steps of any number of threads with their locks; what whole runs guarantee; a run that shows a limit |
| `SqlText`, `SqlGrammar`, `SqlParser`, `SqlExecutor`, `QueryTexts` | `sql_processor/sql.c`: tokens, grammar, the cursor-moving parser, execution; what a statement means from its text alone |
| `RingBuffer`, `ThreadPool` | `server/thread_pool.c` and the accepting loop of `server/server.c` |
| `CStrings`, `Decimals`, `Json`, `Api`, `Http`, `Server` | response building, HTTP framing, serving one connection |
| `JsonReader`, `HttpReader`, `Clients` | the other end of the wire: readers of JSON and of HTTP responses, and what a client learns from the bytes it gets |

How it is put together:

- **B+ tree.** `BPTreeNodes` has the in-place routines on nodes, each proved equal to a function of the
  old node. A tree has a ghost snapshot of its nodes; `Inv` is the whole tree invariant on snapshots
  (order, fill, equal leaf depth, parent inverse to children, no sharing, the leaf chain, and, between
  a split and the insertion of its separator, the one pending right half). Each step of an insertion is
  a lemma on snapshots. `BPTreeTheory` derives what the invariant means for a reader.
- **Table.** The ghost `log` is the plain list of rows a table stands for. Insertions append to it and
  every query is `Filter(log, condition)`.
- **Concurrency.** Threads hold the id mutex, a bucket's write lock or a bucket's read lock across
  several steps. Theorems are about every run from an empty table. A lookup answers as of one moment; a full
  scan does so exactly when no returned row was stored after a row it missed.
- **Parser.** `Parse` is the parser as a function; the printer of `SqlGrammar` ranges over every keyword
  case, gap and optional semicolon. The parser class is proved to do what `Parse` says, and `Parse` to
  accept exactly the printed texts.
- **Sockets.** A list of events decides how many bytes each `recv` or `send` moves and which calls are
  interrupted, time out or fail, so every segmentation is covered. `Harmless` events only cut the bytes
  into pieces.
- **Clients.** The writers of `server/api.c` and `server/http.c` are proved against readers that share no name
  with them: `JsonReader` knows braces, commas, colons, strings and numbers, `HttpReader` lines, a blank line
  and `Content-Length`. `Clients` starts from the bytes of a request and ends at the JSON value in the body of
  the response. Names, numbers and signs are spelled out in these statements.

Where the code and its documentation or an obvious expectation differ, the code is followed:

- Leading space is skipped for EXIT and QUIT only, so an INSERT or SELECT behind a space is refused
  (`LeadingSpaceOnlyExits`).
- A semicolon between the table name and WHERE is consumed and ignored (`SemicolonBeforeWhere`).
- A full scan is not a snapshot. `NoSnapshot` is a run in which a finished scan returns what the table held
  at no moment. `SnapshotExactly` says when a scan is a snapshot, with `QuietScan` as a special case, and
  `FinishedScan` what it guarantees in any case.
- The diagram `sql_processor/docs/diagrams/select-id-flow.mmd` draws a range scan along the leaf chain.
  The code answers ranges by collecting, sorting and filtering, and so does the model.
- A request body with a NUL character in it is executed up to that character only.

## Model

| member | source | states |
|---|---|---|
| BPTreeNodes.FindInsertIndex | sql_processor/bptree.c:18-26 | the slot that keeps a sorted prefix sorted: smaller keys before it, no smaller key from it on |
| BPTreeNodes.InsertIntoLeaf | sql_processor/bptree.c:70-82 | the live entries of the leaf become the old ones with the new one at its place by order; links untouched |
| BPTreeNodes.SplitLeaf | sql_processor/bptree.c:147-196 | in place, the leaf becomes the left half of the filled leaf and the new one the right half, linked behind it; only live slots are constrained |
| BPTreeSteps.LeafSplitConserves | sql_processor/bptree.c:147-196 | the halves side by side are the old entries with the new one inserted, two each, and the separator is the first key on the right |
| BPTreeNodes.InsertIntoInternal | sql_processor/bptree.c:105-120 | separator and right child go in directly behind the left child, everything else keeps its order |
| BPTreeNodes.SplitInternal | sql_processor/bptree.c:202-268 | in place, the node becomes the left half, the new one the right half, and exactly the moved children get a new parent |
| BPTreeSteps.InternalSplitConserves | sql_processor/bptree.c:202-268 | left keys, promoted key and right keys are the old keys with the new one inserted; left and right children are the old ones with the new one behind left |
| BPTreeNodes.HalveInternal | sql_processor/bptree.c:236-268 | the two halves of the temporaries and exactly the moved children adopting the new node |
| BPTreeNodes.SplitFamily | sql_processor/bptree.c:202-268 | of all nodes only the split one and the moved children change, the children only in their parent |
| BPTreeNodes.NewInternal | sql_processor/bptree.c:85-102 | a new node over the two halves, both adopted |
| BPTreeSteps.SeparatorSlot | sql_processor/bptree.c:126-144 | the slot found by scanning for the left pointer is the slot the key order gives |
| BPTreeSteps.ChainKeysOrdered | sql_processor/bptree.c:147-199 | all keys in an earlier leaf of the chain are smaller than all keys in a later one |
| BPTreeSteps.LeafUnique | sql_processor/bptree.c:29-50 | at most one leaf is responsible for a key; `FindLeaf` shows that there is one |
| BPTreeSteps.LeafInsertedInv | sql_processor/bptree.c:288-322 | inserting into a leaf with room keeps the tree invariant and adds one entry to the map |
| BPTreeSteps.LeafSplitInv | sql_processor/bptree.c:147-199 | splitting a leaf keeps the invariant with the right half pending, and adds one entry to the map |
| BPTreeSteps.NewRootInv | sql_processor/bptree.c:85-102 | a new root over two pending halves restores the full invariant |
| BPTreeSteps.InternalInsertedInv | sql_processor/bptree.c:105-144 | inserting the separator into a parent with room restores the full invariant |
| BPTreeSteps.InternalSplitInv | sql_processor/bptree.c:202-270 | splitting an internal node resolves the pending half below and leaves one pending half above, with the promoted key as its separator |
| BPTrees.BPTree.constructor | sql_processor/bptree.c:273-275 | a new tree is valid and stands for the empty map |
| BPTrees.BPTree.FindLeaf | sql_processor/bptree.c:29-50 | finds the leaf whose range contains the key in at most log2 of the number of keys descents |
| BPTrees.BPTree.Descend | sql_processor/bptree.c:36-47 | the chosen child is the one whose range contains the key, one level down |
| BPTrees.BPTree.Search | sql_processor/bptree.c:325-340 | search is lookup in the map the tree stands for |
| BPTrees.BPTree.Insert | sql_processor/bptree.c:288-322 | a fresh key gives true, a valid tree and map[key := value]; a present key gives false and changes nothing |
| BPTrees.BPTree.InsertFirst | sql_processor/bptree.c:288-322 | the first entry makes a valid one-leaf tree |
| BPTrees.BPTree.SplitLeafAndInsert | sql_processor/bptree.c:147-199 | the whole cascade ends in a valid tree with one more entry |
| BPTrees.BPTree.InsertIntoParent | sql_processor/bptree.c:126-144 | from any pending split, whatever splits follow upward, the tree is valid again and the map unchanged |
| BPTrees.BPTree.SplitInternalAndInsert | sql_processor/bptree.c:202-270 | splitting a full parent and going on upward ends in a valid tree, map unchanged |
| BPTrees.BPTree.FindChild | sql_processor/bptree.c:134-136 | scanning for a child of the node finds its slot |
| BPTrees.ParentFacts | sql_processor/bptree.c:126-144 | at a pending split the parent is one level up, within the height of the tree, owns all its children and is neither half nor its own parent |
| BPTrees.DistanceShrinks | sql_processor/bptree.c:126-144 | the upward recursion gets strictly closer to the root, so it ends |
| BPTreeTheory.NodeSpells | sql_processor/bptree.c:288-340 | the keys under a node, read left to right, are sorted, within its range, and exactly the map's keys there |
| BPTreeTheory.SubtreeOrder | sql_processor/bptree.c:29-50 | all keys under child i are below separator i, all keys under child i + 1 are not |
| BPTreeTheory.TreeSpellsMap | sql_processor/bptree.c:288-340 | in-order traversal spells the sorted key set of the map, each key once |
| BPTreeTheory.ChainIsTraversal | sql_processor/bptree.c:147-199 | the leaf chain is the left-to-right sequence of leaves of the tree |
| BPTreeTheory.NextVisitsAllLeaves | sql_processor/bptree.c:174-184 | following next from the leftmost leaf visits exactly the leaves in order and ends in null |
| BPTreeTheory.ChainSpellsMap | sql_processor/bptree.c:147-199 | the keys along the chain are the sorted key set of the map |
| BPTreeTheory.NodeIsBushy | sql_processor/bptree.c:147-270 | a node of height h has at least 2^(h+1) keys below it, unless it is a leaf with a single key |
| BPTreeTheory.HeightIsLogarithmic | sql_processor/bptree.c:29-50 | a tree with h internal levels holds at least 2^(h+1) keys when h >= 1 |
| Rows.BucketIndex | sql_processor/table.c:12-20 | truncated remainder and fix-up give a bucket number for every int |
| Rows.BucketIndexIsResidue | sql_processor/table.c:12-20 | that number is the residue of the id modulo 16, for negative ids too |
| Rows.FilterMembers | sql_processor/table.c:386-489 | filtering keeps exactly the rows that satisfy the condition |
| Rows.FilterAscending | sql_processor/table.c:386-489 | filtering rows in strictly ascending id order leaves them so |
| Rows.AscendingUnique | sql_processor/table.c:81-87 | the sorted order is unique: same rows and strictly ascending means same sequence |
| Rows.SortByIdCorrect | sql_processor/table.c:67-87 | sorting rows with distinct ids gives the same rows in strictly ascending order |
| Rows.IndexIsScan | sql_processor/table.c:288-334 | with distinct ids, index lookup equals scanning for the id |
| Rows.FilterById | sql_processor/table.c:418-440 | the equality condition on ids selects what a scan for the id finds |
| Rows.CollectedCorrect | sql_processor/table.c:119-163 | collecting all buckets and sorting gives every stored row once, ascending |
| Rows.SharesCollect | sql_processor/table.c:119-163 | dealing a log out to the buckets, collecting and sorting gives the log back |
| Rows.FindInShare | sql_processor/table.c:288-304 | looking only into the bucket of an id finds what looking everywhere finds |
| Tables.AppendRecord | sql_processor/table.c:43-64 | one more row at the end, the others kept, the capacity 8 at first and doubled when it is full |
| Tables.SortRecordsById | sql_processor/table.c:81-87 | the live part of the array becomes the sorted sequence of what it was |
| Tables.TableBucket.EnsureCapacity | sql_processor/table.c:23-40 | afterwards there is room, by doubling (8 at first) only when the array was full, and rows and index are what they were |
| Tables.TableBucket.Insert | sql_processor/table.c:255-284 | index and rows gain the row together, or neither does |
| Tables.TableBucket.FindById | sql_processor/table.c:288-304 | the index finds the first row with the id |
| Tables.TableBucket.Scan | sql_processor/table.c:307-334 | a row with the id if there is one, none otherwise |
| Tables.Table.constructor | sql_processor/table.c:166-201 | a new table is valid and stands for the empty list |
| Tables.Table.StoreApart | sql_processor/table.c:255-284 | the bucket of the id gets the row; no object of another bucket is written |
| Tables.Table.Insert | sql_processor/table.c:237-285 | the row gets the next id and a name of at most 63 characters, and is appended to the log |
| Tables.Table.FindById | sql_processor/table.c:288-304 | finds what a scan of the whole log finds, for every int |
| Tables.Table.ScanById | sql_processor/table.c:307-334 | the same answer as the indexed lookup, for every int |
| Tables.Table.CollectBucketRows | sql_processor/table.c:119-130 | appends exactly the rows of the bucket, in order |
| Tables.Table.CollectAllSorted | sql_processor/table.c:133-163 | the collected rows, sorted, are the log |
| Tables.Table.CollectAll | sql_processor/table.c:337-339 | all rows in ascending id order |
| Tables.Table.FindByName | sql_processor/table.c:386-415 | exactly the rows with that name, in ascending id order |
| Tables.Table.FindByIdCondition | sql_processor/table.c:418-457 | exactly the rows whose id is equal, smaller, at most, larger or at least, as the condition says, whether through the index or by filtering |
| Tables.Table.FindByAge | sql_processor/table.c:460-489 | exactly the rows whose age is equal, smaller, at most, larger or at least, as the condition says, in ascending id order |
| ConcurrentTables.StepInv | sql_processor/table.c:237-339 | every step of every insertion, lookup and scan keeps locks exclusive, ids distinct, index and rows in agreement outside a write, and every issued id stored or pending |
| ConcurrentTables.RunInv | sql_processor/table.c:237-339 | the invariant holds in every state of every run of insertions, lookups and scans |
| ConcurrentTables.RunAppends | sql_processor/table.c:255-284 | stored rows stay where they are, over any stretch of a run |
| ConcurrentTables.NoDuplicate | sql_processor/table.c:259-275 | a writer never finds its own id in the index |
| ConcurrentTables.ScanMoments | sql_processor/table.c:133-163 | every scan was started by a step of its thread, and read each bucket as it was at one moment since then |
| ConcurrentTables.ScanCorrect | sql_processor/table.c:133-163 | a finished scan is ascending, has every row stored when it began and only stored rows |
| ConcurrentTables.FinishedScan | sql_processor/table.c:133-163 | a finished scan is ascending, has every row stored when its own first step was taken and only rows stored by its end, each bucket as of one moment in between |
| ConcurrentTables.ReaderLookup | sql_processor/table.c:288-304 | whoever may read a bucket finds in its index what a scan of its rows finds |
| ConcurrentTables.SearchFinds | sql_processor/table.c:296-301 | so does a lookup that holds the read lock, in every reachable state |
| Histories.StoredByStep | sql_processor/table.c:255-284 | a row is in the table exactly when an earlier step stored it |
| Histories.StoredSince | sql_processor/table.c:255-284 | a row is in the table from the step that stored it on and not before |
| Histories.FindMoment | sql_processor/table.c:288-304 | every lookup answers as a scan of its bucket would at one moment since it began |
| Histories.FinishedFind | sql_processor/table.c:288-304 | a finished lookup finds every row stored before it began, and only rows stored by its end |
| Histories.SnapshotExactly | sql_processor/table.c:133-163 | a finished scan is the table of one moment since it began if and only if no returned row was stored after a row it missed |
| Histories.QuietScan | sql_processor/table.c:133-163 | a scan during which nothing was stored is the whole table, sorted |
| ConcurrentTables.Quiescent | sql_processor/table.c:246-284 | with no insertion under way the stored ids are exactly 1 to nextId - 1, each once |
| ConcurrentTables.HolderMoves | sql_processor/table.c:133-304 | whoever holds a lock can take its next step, so no thread waits while holding one |
| ConcurrentTables.NoDeadlock | sql_processor/table.c:133-304 | while an insertion, lookup or scan is under way, some thread engaged in one can move |
| ScanWitness.WholeInsert | sql_processor/table.c:237-285 | an insertion that meets no lock holder goes through and stores its row under the next id |
| ScanWitness.NoSnapshot | sql_processor/table.c:144-159 | a run whose finished scan returns what the table held at no moment, a later row being returned and an earlier one missed |
| RingBuffers.PushAppends | server/thread_pool.c:121-123 | storing at the tail appends to the queue and keeps the same equation |
| RingBuffers.PopTakesFront | server/thread_pool.c:38-40 | taking at the head removes the front of the queue and keeps tail = (head + size) mod capacity, across the wrap-around |
| RingBuffers.ThreadPool.Init | server/thread_pool.c:59-76 | no pool without a worker and a place; otherwise an empty queue of the given capacity |
| RingBuffers.ThreadPool.Submit | server/thread_pool.c:119-124 | accepted exactly when no stop was requested and fewer jobs are queued than the array has places, and then at the end of the queue; otherwise nothing changes |
| RingBuffers.ThreadPool.Take | server/thread_pool.c:38-40 | the front of the queue leaves it, the rest keeps its order |
| RingBuffers.ThreadPool.Shutdown | server/thread_pool.c:141 | only the stop flag changes |
| ThreadPools.StepInv | server/thread_pool.c:22-173 | every step keeps the wake-up, queue and descriptor invariants |
| ThreadPools.RunInv | server/thread_pool.c:22-173 | they hold in every state of every run |
| ThreadPools.ReachableSafe | server/thread_pool.c:112-133 | from a fresh pool on, the queue never exceeds its capacity and open accepted descriptors never exceed workers plus capacity |
| ThreadPools.RunHistory | server/thread_pool.c:119-139 | what was accepted or taken stays so, and after stop nothing more is accepted |
| ThreadPools.RunFifo | server/thread_pool.c:33-50 | accepted is taken followed by queued at all times, so jobs are taken once each and in order |
| ThreadPools.OfferExactly | server/thread_pool.c:112-133 | at every offer of every run, the descriptor joins the queue if the pool is not stopped and holds fewer than queue_capacity jobs, and is refused otherwise |
| ThreadPools.RefusedInVain | server/thread_pool.c:112-133 | every refused descriptor was offered to a stopped pool or to one with queue_capacity jobs |
| ThreadPools.NoLostWakeup | server/thread_pool.c:33-36 | a sleeper beside queued jobs means enough ready workers for all of them, and nobody sleeps after stop |
| ThreadPools.OpenBound | server/thread_pool.c:112-133 | accepted and not yet closed descriptors fit the queue plus one per worker |
| ThreadPools.StopShrinks | server/thread_pool.c:135-144 | after stop every worker step shrinks 2 queued + 2 busy + ready, and nothing adds to it |
| ThreadPools.StoppedRunIsShort | server/thread_pool.c:146-157 | so every stopped run has at most that many worker steps |
| ThreadPools.StoppedMoves | server/thread_pool.c:22-54 | until all workers have left, one of them can move |
| ThreadPools.JoinedMeansDrained | server/thread_pool.c:146-157 | when all workers have left, every accepted descriptor was closed once, and every offered one closed or refused |
| ThreadPools.ShutdownDrains | server/thread_pool.c:135-173 | a stopped run that cannot go on has all workers gone and everything accepted handled |
| ThreadPools.SubmitInv | server/server.c:232-240 | accepting an offered descriptor keeps it open exactly once |
| ThreadPools.CloseRefusedInv | server/server.c:240-257 | a refused descriptor is closed once, by the accepting loop |
| SqlText.SkipGap | sql_processor/sql.c:65-69 | any gap in front of text is skipped, and nothing more |
| SqlText.KeywordAt | sql_processor/sql.c:72-90 | a keyword in any case is read when no word character follows |
| SqlText.KeywordWas | sql_processor/sql.c:72-90 | and what was read as a keyword looked like that |
| SqlText.IdentifierAt | sql_processor/sql.c:127-156 | a short enough word is read whole behind any gap |
| SqlText.IdentifierWas | sql_processor/sql.c:127-156 | and what was read as an identifier was one |
| SqlText.StringAt | sql_processor/sql.c:159-185 | a quoted text without quotes of at most 63 characters is read back |
| SqlText.StringWas | sql_processor/sql.c:159-185 | and what was read was quoted so |
| SqlText.QuotedTooLong | sql_processor/sql.c:170-173 | more characters than there is room for are refused |
| SqlText.IntAt | sql_processor/sql.c:188-207 | a decimal literal is read as its value, clamped to long and cut to int |
| SqlText.IntWas | sql_processor/sql.c:188-207 | and what was read was such a literal |
| SqlText.LongToInt | sql_processor/sql.c:196-205 | values of 32 bits are kept; every result has 32 bits |
| SqlText.LongToIntIs | sql_processor/sql.c:196-205 | beyond 32 bits the result is congruent modulo 2^32, beyond 64 bits -1 or 0 |
| SqlText.ComparisonAt | sql_processor/sql.c:210-244 | each comparison sign is read back, the longer ones first |
| SqlText.EndWas | sql_processor/sql.c:247-256 | whether or not the statement ends, what was consumed is a gap with at most one semicolon |
| Decimals.PrintedIntIsParsed | sql_processor/sql.c:188-207 | every 32-bit integer, printed in decimal, is parsed back |
| SqlGrammar.PrintedIsParsed | sql_processor/sql.c:334-549 | every statement, printed with any keyword case, gaps and optional semicolon, is parsed back to its command |
| SqlGrammar.ParsedIsPrinted | sql_processor/sql.c:334-549 | every accepted text is a printed statement and is parsed as what it means |
| SqlGrammar.ParserMeetsGrammar | sql_processor/sql.c:508-549 | the parser answers a command exactly when the text is printed from a statement meaning it |
| SqlGrammar.SensibleIsWritten | sql_processor/sql.c:334-549 | every quote-free name or text below 64 characters, 32-bit integer, comparison and column in any case has a statement that means it |
| SqlGrammar.CommandsExactly | sql_processor/sql.c:334-549 | the commands that texts are parsed to are exactly those, with no other field set |
| SqlGrammar.ParseIsTotal | sql_processor/sql.c:508-549 | every text is a command, a syntax error or an unknown column; commands have a real type, a name below 64 characters and a 32-bit integer |
| SqlGrammar.LeadingSpaceOnlyExits | sql_processor/sql.c:522-542 | text that starts with space is accepted only as EXIT or QUIT |
| SqlGrammar.SemicolonBeforeWhere | sql_processor/sql.c:440-450 | a semicolon in front of WHERE changes nothing |
| SqlGrammar.UnknownColumnExactly | sql_processor/sql.c:411-501 | a text is refused for an unknown column, in the field list or in the where clause, exactly when it names one there; for an unknown name in place of the asterisk, and for an unknown name with a comparison sign behind WHERE |
| SqlGrammar.NameTakesEquality | sql_processor/sql.c:479-484 | a comparison of names by another sign than = is a syntax error |
| SqlParser.MatchKeyword | sql_processor/sql.c:72-90 | moves the cursor as the keyword token demands |
| SqlParser.ParseIdentifier | sql_processor/sql.c:127-156 | reads the identifier token; an overlong word is consumed and refused |
| SqlParser.ReadQuoted | sql_processor/sql.c:165-184 | the copying loop reads the quoted token and stops where the buffer is full |
| SqlParser.ParseString | sql_processor/sql.c:159-185 | reads the string token behind any gap |
| SqlParser.ParseInt | sql_processor/sql.c:188-207 | reads the integer token |
| SqlParser.ParseComparison | sql_processor/sql.c:210-244 | reads the comparison token |
| SqlParser.MatchStatementEnd | sql_processor/sql.c:247-256 | reads the end token, consuming a semicolon in any case |
| SqlParser.SqlParseResult.ParseInsert | sql_processor/sql.c:334-398 | fills the result as the INSERT grammar says, errors and their positions included |
| SqlParser.SqlParseResult.ParseSelect | sql_processor/sql.c:400-505 | fills the result as the SELECT grammar says |
| SqlParser.SqlParseResult.Parse | sql_processor/sql.c:508-549 | succeeds exactly on printed statements; otherwise no command type and a message |
| SqlExecutor.ExecuteInsertPlan | sql_processor/sql.c:572-591 | answers and moves on as the list of (name, age) pairs does, the name untruncated |
| SqlExecutor.ExecuteSelectPlan | sql_processor/sql.c:593-629 | answers with the listed rows the condition selects, NOT_FOUND exactly when there is none, record the first of them |
| SqlExecutor.ExecutePlan | sql_processor/sql.c:632-653 | every command is answered as by the list, and keeps table and list in step |
| SqlExecutor.Execute | sql_processor/sql.c:656-673 | the same for every text, refusals included |
| SqlExecutor.ExecuteAll | sql_processor/sql.c:656-673 | any run of texts gives the answers of the list |
| QueryTexts.SelectAllAnswers | sql_processor/sql.c:400-450 | SELECT * FROM users, in any spelling and spacing, returns all rows |
| QueryTexts.AgeConditionAnswers | sql_processor/sql.c:490-497 | for each of =, <, <=, >, >=, exactly the stored rows whose age is so related to the printed number, in ascending id order |
| QueryTexts.IdConditionAnswers | sql_processor/sql.c:472-478 | the same for ids |
| QueryTexts.NameConditionAnswers | sql_processor/sql.c:479-489 | exactly the stored rows with the quoted name |
| QueryTexts.InsertAnswers | sql_processor/sql.c:334-398 | name and age are stored as they stand in the text, under the next id |
| QueryTexts.OnlyInsertsStore | sql_processor/sql.c:508-549 | whatever text stores a row is such an INSERT of the stored name |
| QueryTexts.LongNameRefused | sql_processor/sql.c:170-173 | an INSERT of a name of 64 or more characters is a syntax error and stores nothing |
| QueryTexts.ExitAnswers | sql_processor/sql.c:522-531 | EXIT and QUIT in any spelling, behind any space, store nothing and are told apart from errors |
| JsonText.ReadStringAt | server/json_util.c:108-175 | an encoded string is read back, whatever follows it |
| JsonText.UniquelyDecodable | server/json_util.c:108-175 | different strings never start the same text |
| JsonText.EscapeIsClean | server/json_util.c:118-172 | no raw quote, backslash or control character in the payload |
| JsonBuffers.JsonBuffer.constructor | server/json_util.c:37-58 | an empty text in a buffer of the given capacity, or 128 |
| JsonBuffers.JsonBuffer.Reserve | server/json_util.c:8-35 | room for the request and the terminator, the text kept, at least doubled and less than twice what was needed (or 128) |
| JsonBuffers.JsonBuffer.Append | server/json_util.c:60-76 | the text grows by the string, with its terminator behind it |
| JsonBuffers.JsonBuffer.AppendJsonString | server/json_util.c:108-175 | the text grows by the JSON string, through every reallocation |
| JsonBuffers.JsonBuffer.Detach | server/json_util.c:177-189 | hands over a C string with exactly the text and leaves an empty buffer |
| JsonReader.ReadValueAt | server/api.c:39-107 | every printed JSON value, objects and arrays included, is read back by the JSON reader, whatever closes or continues what it is part of |
| JsonReader.ReadIntegerAt | server/api.c:39-43 | a printed integer, negative ones included, is read back when no digit follows |
| Api.RowText | server/api.c:39-43 | the three pieces appended for a row are the JSON object with id, name and age |
| Api.SelectResponse | server/api.c:45-79 | the pieces appended for a selection are the JSON object with ok, action, row_count and rows |
| Api.InsertResponse | server/api.c:56-63 | the pieces appended for an insertion are the JSON object with ok, action, inserted_id and row_count |
| Api.ErrorResponse | server/api.c:81-107 | the pieces appended for an error are the JSON object with ok, status, error_code, sql_state and message |
| Api.ExitResponse | server/api.c:150-158 | the literal answered to EXIT is the JSON object with ok, status and message |
| Api.AppendRecord | server/api.c:39-43 | appends the JSON object of the row and nothing else |
| Api.AppendRows | server/api.c:69-76 | appends the items of the row list with commas between them |
| Api.BuildSuccessResponse | server/api.c:45-79 | appends the JSON object of the result and nothing else |
| Api.BuildErrorResponse | server/api.c:81-107 | appends the JSON object of the error; an empty message is replaced |
| Api.HandleQuery | server/api.c:109-210 | the body is the rendering of the reference's answer, and the table moves on with the reference |
| Api.NamePlain | server/api.c:128-135 | a C string as query gives a C string as name |
| Api.ClientLearnsRows | server/api.c:45-79 | the whole response is read as one object with ok true, action select, row_count, and rows: an object of id, name and age for each row returned, in order |
| Api.ClientLearnsId | server/api.c:56-63 | the whole response is read as one object with ok true, action insert, the new id and row_count 1 |
| Api.ClientLearnsSyntaxError | server/api.c:118-147 | the whole response is read as one object with ok false, syntax_error, 1064, 42000 and the message |
| Api.ClientLearnsUnknownColumn | server/api.c:118-147 | the same with query_error, 1054 and 42S22 |
| Api.ClientLearnsExit | server/api.c:150-166 | EXIT gets status 400 and one object with ok false, exit_not_supported and its message |
| Http.SendAll | server/http.c:12-30 | everything is sent in order, or a proper prefix; never a failure without a fault |
| Http.EndFrom | server/http.c:54-62 | the first blank line from a position on, or none |
| Http.HeaderEndStays | server/http.c:32-66 | bytes received later do not move the header end |
| Http.FindHeaderEnd | server/http.c:54-62 | the scan finds the first blank line of what was received |
| Http.ReadUntilHeaderEnd | server/http.c:32-66 | the end found is the first blank line of the stream; without faults it is found whenever it lies in the first 8192 bytes |
| Http.ReadBody | server/http.c:235-268 | the missing bytes are exactly the next ones of the stream; without faults only a short stream fails |
| Http.AssembleBody | server/http.c:221-271 | the body is the content_length bytes behind the header, from wherever they came, with a terminator |
| Http.ReadRequest | server/http.c:99-272 | the outcome is that of the stream, whatever the pieces (`HeadedRequest`, `HeadlessRequest`); faults can only add timeouts or truncation; the body has its terminator |
| Http.HeadedRequest | server/http.c:200-253 | from header, blank line and the bytes behind it: refused as the header says, 413 for more than 4096 announced bytes, 400 for fewer bytes than announced, else exactly the announced bytes |
| Http.BodyIsRead | server/http.c:221-271 | a body behind a header of at most 8192 bytes with its blank line, announced with its length, is handed over as it is |
| Http.HeadlessRequest | server/http.c:32-66 | a stream without a blank line in its first 8192 bytes is answered by 400 |
| Http.HeaderOf | server/http.c:54-62 | every other stream splits at its first blank line, so the two cases are all |
| Http.BodyWasSent | server/http.c:221-271 | whatever faults there are, a body that is read stands in the stream behind the first blank line, announced with its length |
| Http.SendResponse | server/http.c:274-310 | head and body arrive whole or as a proper prefix; a head of 512 bytes or more sends nothing |
| Http.ResponseIsFramed | server/http.c:274-310 | the first blank line of a response ends its head and the body is what follows |
| HttpReader.ResponseIsRead | server/http.c:274-310 | a reader of HTTP responses gets back status, reason, the three header lines and, by the announced length, the body, whatever follows |
| Server.BuildErrorBody | server/server.c:85-114 | a JSON object with exactly that status and message |
| Server.React | server/server.c:136-168 | the response of the reference to the request, or of its refusal |
| Server.HandleClient | server/server.c:136-168 | the bytes sent are the response to the request in the stream, or a prefix that only a fault cut off; the table moves on with the reference |
| Server.TurnAway | server/server.c:251-255 | the bytes sent to a refused client are the 503 response, or a prefix that only a fault cut off |
| Clients.ClientGetsRows | server/server.c:136-168 | from the bytes of the request to the JSON value in the response, cut by its announced length: a SELECT gets a list of exactly the rows it returns |
| Clients.ClientGetsAll | server/server.c:136-168 | SELECT * FROM users in a body gets every row, numbered from one in the order they were stored |
| Clients.ClientGetsAges | server/server.c:136-168 | a comparison of ages in a body gets exactly the stored rows whose age is so related to the number, for each of the five signs, in ascending id order |
| Clients.ClientGetsIds | server/server.c:136-168 | the same for ids |
| Clients.ClientGetsNames | server/server.c:136-168 | a name in a body gets exactly the stored rows with that name |
| Clients.ClientGetsId | server/server.c:136-168 | an INSERT in a body gets the next id, and the row is in the table under it afterwards |
| Clients.ClientGetsError | server/server.c:136-168 | a refused statement changes nothing and gets the numbers of its error |
| Clients.ClientGetsNoExit | server/server.c:136-168 | EXIT and QUIT in a body change nothing and get 400 Bad Request |
| Clients.ClientGetsRefusal | server/server.c:116-150 | a refused request changes nothing and gets its status with the reason and name that belong to it |
| Clients.ClientGetsTooLarge | server/http.c:221-227 | more than 4096 announced bytes get 413 Payload Too Large |
| Clients.ClientGetsBusy | server/server.c:251-255 | a client the pool has no place for gets 503 Service Unavailable with queue_full |
| Clients.HeadFits | server/http.c:274-302 | the head of every response fits its 512 bytes, for any 32-bit status and 64-bit length |

## Left out

- Allocation failure: `calloc` and `realloc` always succeed. In the source a failing allocation in the middle of an insertion leaves a half-done split.
- The arrays inside a tree node are fixed-length sequences in fields of the node, since they are part of the struct and cannot be aliased on their own.
- Values in the tree are record values or none instead of untyped pointers; the identity of a record in memory is not modelled.
- ConcurrentTables.StepInv: the tree of a bucket is a finite map there; that the tree is one is proved for the sequential class.
- Server.HandleClient: one connection at a time; what other workers do to the same table during a request is covered by the step model of the table, whose answers are as of one moment for lookups and as `SnapshotExactly` says for scans.
- Fairness of locks and condition variables, and writer starvation.
- Wrap-around of `next_id`; ids are unbounded.
- SqlParser.SqlParseResult.Parse: the wording of messages and the excerpt of the text near an error are replaced by what they are about; fields left half-filled by a refused statement are not tied to the input.
- Api.HandleQuery: the wording of messages is an arbitrary function, and the branches for missing arguments, failed allocation and an internal error, which these exclude, are not modelled.
- Http.ReadRequest: what the header text means (method, path, Content-Length) is an arbitrary function of the text before the blank line; the size limit on the body is applied to its answer.
- Clients.ClientGetsRows: a response is taken to be shorter than 2^64 bytes, the range of `size_t`.
- Http.Source.Recv: sockets are a byte string and a list of events; select, accept, timeouts and signals are not modelled.
- `vsnprintf` is the concatenation of its parts; `memcpy` and `strlen` are the obvious copies and counts.
- Tables.SortRecordsById: `qsort` is replaced by an insertion sort in place with the same comparator; the sorted order is unique.
- Result arrays handed to a caller are sequences; freeing memory is not modelled.
- `table_find_by_name` and `table_find_by_age` (first match only), `sql_determine_lock_mode`, `sql_command_lock_mode`, printing, logging and the benchmark programs.
- The branch of `thread_pool_init` after a thread could not be started.
- RingBuffers.ThreadPool.Submit: the mutex, the signal, the wait, the exit of a worker and the broadcast are not in the class; they are steps of `ThreadPools`.
- ThreadPools.ShutdownDrains: a handler call is one step, so handlers are assumed to return; that enabled steps are eventually taken is up to the scheduler.
