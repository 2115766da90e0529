# Verified model of the MaxScale system-test helpers

This project models the helper layer of the MaxScale system tests: the code that generates
load, hands values between threads, reads replies, moves masters, repairs clusters and passes
a verdict. The SQL servers, sockets, pipes, ssh and iptables behind it are parameters (answers,
chunks, return codes) or small abstract states (a table, a rule chain, binlog files, who
replicates from whom). Code that updates state is modelled by methods and classes that do the
same; what it promises is proved about them and about functions of their state.

| file | models |
|---|---|
| `Decimal.dfy`, `CString.dfy`, `Option.dfy` | decimal text as printf and scanf treat it; NUL-terminated text in fixed buffers |
| `T1Rows.dfy`, `InsertString.dfy`, `T1Load.dfy` | table t1, the INSERT printer and its buffer, the statement cache, the load and its check (`sql_t1.cpp`) |
| `AvroRecogniser.dfy` | the streaming check of the loaded rows (`avro.cpp`) |
| `CdcProtocol.dfy` | the reader and inserter threads of the CDC test (`cdc_client.cpp`) |
| `MaxadminScanner.dfy` | the maxadmin reply scanner (`maxadmin_operations.cpp`) |
| `NewMaster.dfy`, `MasterFailover.dfy` | promoting a slave and realigning binlog file numbers; the transaction thread, its failover and the verdict (`binlog_change_master.cpp`) |
| `Firewall.dfy`, `Replication.dfy`, `Repair.dfy` | blocking nodes, moving the master, repairing the cluster (`mariadb_nodes.cpp`) |
| `GrowingBuffers.dfy` | readers that grow a heap buffer, and the partial-write loop (`maxinfo_func.cpp`, `execute_cmd.cpp`) |
| `Auth.dfy`, `CdcConnection.dfy` | the CDC authentication string and row reader (`maxinfo_func.cpp`, `cdc_connector.cpp`) |

## What the proofs found

The code is modelled as it is. Where it does less than its purpose suggests, the exact
condition is proved:

- `cdc_client.cpp` publishes the first value by a store and a load back of the shared variable
  (lines 146 and 147). If the inserter clears the variable in between, the reader expects 0 and
  reports the first row as wrong (`ReloadRace`). A comparison fails if and only if that happened
  (`Safety`, `WhatReloadReads`).
- The reader and the inserter of the CDC test wait for each other for ever in two cases and no
  other (`DeadlockCauses`, `DeadlockLasts`): after the server has refused an INSERT, which can
  happen (`RefusalDeadlocks`); and after both of the first two messages have arrived without a
  read between them, because one read then takes both and the reader counts on another
  (`TogetherIsSwallowed`). Under a fair schedule without refusals the reader comes to its end
  if and only if it reads between those two arrivals (`FairSchedulesFinish`).
- `sendCommand` does not see an "OK" on a line of its own when an odd number of lines that are
  a single "O" comes directly before it; in all other cases it does (`OkOnItsLine`, with the
  shortest such reply in `OkIsMissed`).
- `insert_into_t1` wraps its row count to 0 from block 7 on, and the text printed for no rows is
  not an INSERT (`XValue`, `StatementReadsBack`); it succeeds only if it is asked for at most
  seven blocks. The check of the load is undefined exactly beyond seven blocks: for a row count
  of 0 it reads a pointer that was never set (`SelectFromT1`).
- The statement cache is keyed by the block only. What it hands out is the statement asked for
  exactly if the slot is the block's own and was first filled for as many rows, or if no rows
  are involved at all (`AllocateInsertString`, `FreshText`); that is so under the calls
  `insert_into_t1` makes.
- The Avro check accepts 4368 to 69903 rows, so it tolerates part of a fourth block
  (`PassingLengths`).
- With fewer than four nodes the failover verdict looks at no slave, and only a router that does
  not report its file and position fails the test (`FailoverTest`).
- A second failover resets the binlogs of node 2, so that what the router had not received of
  them is lost; the exact condition for a clean verdict after any number of failovers is in
  `VerdictIsExact`. A router file name without a number behind a dot makes the source use an
  unset number or pointer; all other runs are defined (`SelectNewMaster`, `Run`).
- The block that `cdc_auth_srt` allocates has room for the characters of the text but not for
  its terminator, for every user (`CdcAuthSrt`).
- `readRow` does not look for the end of the stream: there the row never ends, and takes in an
  unset byte with every read (`ReadRow`).
- `check_node_ssh` probes node 0 whichever node it is asked about (`CheckNodes`), and a failing
  probe makes `fix_replication` report failure even if unblocking has already repaired the
  cluster (`RepairSteadyCluster`). When the attempts are used up and a clean-up is not yet
  needed, its loop asks once more and ignores the answer (`FixReplication`).
- `clean_iptables` searches for a substring, so cleaning up for port 3306 also deletes leading
  rules for 33060 (`OtherPortIsSwept`). Other ports are spared exactly if no rule for one of
  them is in the run of rules at the head of the chain that mention the port
  (`OtherPortsAreSpared`); for rules made by these helpers this is decided by the digits of the
  port numbers (`SparedByDigits`). Port 0 is found in every listing, because of the addresses.
- `change_master` yields the new star from any state in which the old master is not running as
  a slave, and only then (`MoveMaster`); new and old master may be the same.

## Model

| member | source | states |
|---|---|---|
| Decimal.ScanPrintInt | maxscale-system-test/sql_t1.cpp:133 | a printed "%d" reads back as the same number, whatever non-digit text follows, negative numbers included |
| Decimal.LengthMonotone | maxscale-system-test/sql_t1.cpp:161-162 | a larger number never prints shorter, so the tuple of N bounds all tuples |
| InsertStrings.CreateInsertString | maxscale-system-test/sql_t1.cpp:125-138 | in place, within the exact number of bytes needed, the buffer ends up holding the statement for any N and fl; every intermediate write is in bounds |
| InsertStrings.AllocationSuffices | maxscale-system-test/sql_t1.cpp:160-162 | the allocation formula covers the widest moment of the printing with 60 bytes to spare, for every N >= 0 and every fl |
| InsertStrings.StatementReadsBack | maxscale-system-test/sql_t1.cpp:123-138 | an independent reader of the grammar gets the rows (0,fl) to (N-1,fl) and one closing ';' back for N >= 1, and rejects the text for N <= 0 |
| InsertStrings.StatementIsInjective | maxscale-system-test/sql_t1.cpp:123-138 | two statements are the same text iff they are for the same rows, or neither has any |
| InsertStrings.ShortStatements | maxscale-system-test/sql_t1.cpp:123-138 | the exact text of the statements for no row, one row and two rows |
| InsertStrings.NeededIsLength | maxscale-system-test/sql_t1.cpp:125-138 | the bytes needed are those of the finished statement and its terminator, or 32 without rows |
| InsertStrings.FixedBufferSuffices | maxscale-system-test/binlog_change_master.cpp:36-53 | the fixed buffer of one million bytes holds a statement of 100 rows at every moment of its printing, for any 32-bit id |
| T1Rows.BlocksLength | maxscale-system-test/sql_t1.cpp:175-189 | the rows of n blocks are the geometric sum (16^(n+1) - 16) / 15 |
| T1Rows.BlocksAt | maxscale-system-test/sql_t1.cpp:172-191 | row x1 of block fl stands behind all smaller blocks in any longer load |
| T1Rows.WhereBlocks | maxscale-system-test/sql_t1.cpp:200-203 | selecting one fl from a loaded table gives exactly its block, and nothing for any other fl |
| T1Load.XValue | maxscale-system-test/sql_t1.cpp:175-188 | the 32-bit row count is 16^(i+1) in rounds 0 to 6 and 0 afterwards |
| T1Load.StatementCache.AllocateInsertString | maxscale-system-test/sql_t1.cpp:140-170 | the returned buffer holds the statement for the size of the first request of its slot, and it is the one a fresh build would give iff `IsFresh`; other slots keep theirs; out-of-range indices use the last slot |
| T1Load.FreshText | maxscale-system-test/sql_t1.cpp:154-169 | the cached text is the text asked for iff the slot is the block's own and was filled for the same number of rows, or both numbers are 0 |
| T1Load.StatementOfRound | maxscale-system-test/sql_t1.cpp:179-186 | what a transparent cache hands out in round i parses to block i for i < 7 and is no statement from then on |
| T1Load.InsertIntoT1 | maxscale-system-test/sql_t1.cpp:172-191 | the cache stays transparent, the table grows by the accepted blocks in order, and the result is 0 iff every round is accepted and below 7 |
| T1Load.ExecuteSelectQueryAndCheck | maxscale-system-test/sql_t1.cpp:9-104 | defined iff there is no connection or some row is expected; it polls until a result has the right number of rows, at most 100 times; the result is 0 iff such a result of two columns with the right row indices arrives and every earlier poll gave a result of another size |
| T1Load.SelectFromT1 | maxscale-system-test/sql_t1.cpp:193-207 | defined iff there is no connection or at most seven blocks are asked for; then 0 iff the check of every block succeeds |
| T1Load.VerdictOnTable | maxscale-system-test/sql_t1.cpp:193-207 | on a table at rest the verdict is 0 iff every block is there row for row, and a loaded table passes |
| T1Load.InsertAndSelect | maxscale-system-test/sql_t1.cpp:172-207 | loading an empty table and checking it: the check is defined iff at most seven blocks are asked for, and then passes iff every INSERT did |
| T1Load.SecondSizeIsIgnored | maxscale-system-test/sql_t1.cpp:158-166 | of two requests for block 0 the second gets the statement for the first size, which is the right one iff the sizes are the same |
| AvroRecogniser.CheckAvro | maxscale-system-test/avro.cpp:70-99 | reading stops at the end or at the first line out of place; one failure is reported for such a line and one if the place is not in the fourth block; so none iff the stream extends the first three blocks and is a proper prefix of the first four |
| AvroRecogniser.StateIsUnique | maxscale-system-test/avro.cpp:70-93 | the loop state (fl, x1) is determined by the number of rows read |
| AvroRecogniser.PassingLengths | maxscale-system-test/avro.cpp:87-99 | a prefix of the load passes iff it has 4368 to 69903 rows |
| AvroRecogniser.InsertAndCheckAvro | maxscale-system-test/avro.cpp:54-99 | with the table streamed in insertion order, the check passes iff all three INSERTs did |
| CdcProtocol.RunKeepsInv | maxscale-system-test/cdc_client.cpp:116-173 | after every schedule of the two threads the one value on its way is in exactly one place and the table holds the values in order |
| CdcProtocol.Safety | maxscale-system-test/cdc_client.cpp:116-165 | for every schedule: exactly one token after start-up unless an INSERT was refused, from then on at most one message to read, no row lost or doubled, and a comparison has failed iff line 147 read 0 and a row was compared |
| CdcProtocol.WhatReloadReads | maxscale-system-test/cdc_client.cpp:146-147 | the load back gives 10 iff the inserter has not cleared the variable yet, else 0 |
| CdcProtocol.ReadCompares | maxscale-system-test/cdc_client.cpp:151-165 | a row is reported as wrong iff one of its two values differs from what is expected, and the next one is asked for in any case |
| CdcProtocol.PublishInOneGo | maxscale-system-test/cdc_client.cpp:146-165 | if the two lines run together no comparison fails and the table receives (10, 110), (11, 111), (12, 112), ... |
| CdcProtocol.ReloadRace | maxscale-system-test/cdc_client.cpp:146-161 | some schedule makes the load back read 0 and the first comparison fail, for every limit |
| CdcProtocol.StepProgress | maxscale-system-test/cdc_client.cpp:119-173 | every step that does not wait strictly decreases the measure; a waiting step leaves it alone |
| CdcProtocol.DeadlockCauses | maxscale-system-test/cdc_client.cpp:119-173 | nobody can do anything but wait iff an INSERT was refused and the reader is back in its loop, or the first two messages are gone and the reader still counts on another |
| CdcProtocol.TogetherIsSwallowed | maxscale-system-test/cdc_client.cpp:119-148 | the next read swallows the first two messages, leaving the reader to wait for another, iff they arrived without a read between them |
| CdcProtocol.DeadlockLasts | maxscale-system-test/cdc_client.cpp:119-173 | once stuck, no schedule changes anything but the inserter's place in its polling loop |
| CdcProtocol.RefusalDeadlocks | maxscale-system-test/cdc_client.cpp:242-251 | for every limit some schedule with both messages read apart gets stuck over a refused INSERT |
| CdcProtocol.BoundedMoves | maxscale-system-test/cdc_client.cpp:119-173 | no schedule has more than 8 max + 20 steps that do not wait before the reader is done |
| CdcProtocol.FairSchedulesFinish | maxscale-system-test/cdc_client.cpp:116-173 | any schedule of 8 max + 20 rounds in which everybody gets a turn and no INSERT is refused ends the reader iff it has read between the arrivals of the first two messages; then without a failure unless line 147 read 0 |
| CdcProtocol.AtTheEnd | maxscale-system-test/cdc_client.cpp:119-173 | the reader stops after exactly max - 10 good rows, or max rows with one failure after the race, and at most one row is left unread |
| CdcProtocol.InserterStops | maxscale-system-test/cdc_client.cpp:228-251 | main sets exit_flag when the reader is done and not before, and from then on every schedule with six steps of the inserter has it stopped, so the join returns |
| CdcProtocol.CdcTest.CdcCom | maxscale-system-test/cdc_client.cpp:119-173 | the reader's body, which takes all that has arrived and works on the shared fields, is the reader step of the protocol |
| CdcProtocol.CdcTest.QueryThread | maxscale-system-test/cdc_client.cpp:242-251 | the inserter's body, one shared access at a time, is the inserter step of the protocol |
| CdcProtocol.CdcTest.Play | maxscale-system-test/cdc_client.cpp:116-173 | any interleaving of the two bodies, and what holds when the reader ends |
| MaxadminScanner.SendCommand | maxscale-system-test/maxadmin_operations.cpp:131-181 | returns 1 iff some read ends with an "OK" at a line start, at the first such read, with everything before it in the buffer; otherwise the text up to the end of the stream, less a held 'O'; no byte read is lost; and it tells when the text outgrows the buffer |
| MaxadminScanner.TooLongIsExact | maxscale-system-test/maxadmin_operations.cpp:142-179 | it outgrows the buffer only if the text it would return does not fit |
| MaxadminScanner.ChunksDoNotMatter | maxscale-system-test/maxadmin_operations.cpp:142-179 | two ways of cutting the same reply, neither ended early, give the same result and text |
| MaxadminScanner.LineOpens | maxscale-system-test/maxadmin_operations.cpp:150-177 | the scanner is at a line start iff the text consists of complete lines and an even number of lines at its end are a single 'O' |
| MaxadminScanner.OkOnItsLine | maxscale-system-test/maxadmin_operations.cpp:150-165 | an "OK" behind any text ends the reply iff the text consists of complete lines and an even number of lines at its end are a single 'O' |
| MaxadminScanner.OkAfterBreak | maxscale-system-test/maxadmin_operations.cpp:168-172 | the characters behind which a line starts are '\n' and '\r' and no other |
| MaxadminScanner.OkIsMissed | maxscale-system-test/maxadmin_operations.cpp:158-165 | the reply "O\nOK" is not recognised, "o\nOK" and "O\nO\nOK" are |
| MaxadminScanner.ExtractParam | maxscale-system-test/maxadmin_operations.cpp:207-224 | nothing iff the parameter does not occur; otherwise the result is the rest of the line behind its first occurrence, or the copying runs past the text (iff no line break follows there) or past the result (iff the value does not fit it) |
| MaxadminScanner.TailDoesNotMatter | maxscale-system-test/maxadmin_operations.cpp:187-220 | what the unterminated buffer holds behind the reply does not change the value of a parameter that is in the reply |
| MaxadminScanner.GetMaxadminParam | maxscale-system-test/maxadmin_operations.cpp:183-226 | the whole command, for any sizes: the buffer then holds the reply over its old contents, and the outcome of the search is that in its text up to the first NUL, in each of the four cases; if the reply fits the buffer, a parameter in it is found with the rest of its line, whatever the buffer held and however the reply was cut into reads, and is copied iff the result has room |
| MasterFailover.Transaction | maxscale-system-test/binlog_change_master.cpp:33-70 | 0 iff all four statements succeed; otherwise the code of the first that failed, and nothing is sent after it |
| MasterFailover.TransactionThread.Run | maxscale-system-test/binlog_change_master.cpp:297-321 | defined iff at every failure the router gave no answer or a numbered file; then for every pattern of failures the acknowledged ids are 0 to K-1 in order, i_trans ends at K-1, and the binlogs of the successive masters and the files of node 2 are as specified |
| MasterFailover.OneFailover | maxscale-system-test/binlog_change_master.cpp:297-321 | with one failure at id f the old master has 0 to f-1, and f iff the three statements before the COMMIT succeeded and it took effect, and the new one f to K-1 |
| MasterFailover.LogsAreContiguous | maxscale-system-test/binlog_change_master.cpp:297-321 | for every pattern of failures each master's binlog is a run of consecutive ids that begins with the transaction that failed before |
| MasterFailover.NewLogIsDelivered | maxscale-system-test/binlog_change_master.cpp:213-263 | after any number of failovers, if the router answered every time, what it is sent from the start file on is exactly what the newest master has logged, once and in order |
| MasterFailover.RowsOfId | maxscale-system-test/binlog_change_master.cpp:53-55 | count(*) of an id is 100 times the number of its transactions applied, by what its INSERT statement parses to |
| MasterFailover.Verdict | maxscale-system-test/binlog_change_master.cpp:138-159 | the failures are counted, one for each id below i_trans and node from 3 on that is not tolerated; none iff every such id has all rows, the id before the failed one all or none |
| MasterFailover.AcceptedMeans | maxscale-system-test/binlog_change_master.cpp:138-159 | for any number of failovers a slave is accepted iff every inspected id was applied exactly once, the one before the last failed id once or never |
| MasterFailover.VerdictIsExact | maxscale-system-test/binlog_change_master.cpp:138-159 | after any number of failovers, the router answering, a slave is accepted iff every inspected id below the last failed one is in exactly one of the stretches received from earlier masters (the one just below it in at most one) and every later id in none |
| MasterFailover.VerdictAfterOne | maxscale-system-test/binlog_change_master.cpp:138-159 | with one failover: iff at most the last acknowledged transaction was lost and the failed one is not doubled among the inspected ids |
| MasterFailover.VerdictWithoutFailure | maxscale-system-test/binlog_change_master.cpp:138-159 | without a failure a slave is accepted iff at most the last transaction is missing |
| MasterFailover.FailoverTest | maxscale-system-test/binlog_change_master.cpp:123-159 | the whole test with any number of failovers, promotion included, all connections and other statements succeeding: it passes iff the router answered every time and there are at most three nodes or the slaves meet that condition |
| NewMaster.SelectNewMaster | maxscale-system-test/binlog_change_master.cpp:210-236 | 1 iff the router gave no file or no position, and then nothing changes; otherwise defined iff the name has a number behind its first dot, and then the start file is the next name and the new master is left with n+2 empty files |
| NewMaster.NextFileNumber | maxscale-system-test/binlog_change_master.cpp:222-230 | the next name has the same base and its number reads back as n+1 |
| NewMaster.NextIsServersName | maxscale-system-test/binlog_change_master.cpp:222-230 | for six-digit names the next name is, character by character, the server's own name for its next file |
| NewMaster.StartIsAligned | maxscale-system-test/binlog_change_master.cpp:222-253 | on the new master the file with the number n+1 comes before the file being written, and streams exactly what is written from then on |
| Firewalls.MariadbNodes.CleanIptables | maxscale-system-test/mariadb_nodes.cpp:526-544 | the loop ends and removes exactly the leading rules that mention the port, in both chains of that node |
| Firewalls.MariadbNodes.BlockNode | maxscale-system-test/mariadb_nodes.cpp:546-569 | the new state of the flags and of both chains, for this node and all others |
| Firewalls.MariadbNodes.UnblockNode | maxscale-system-test/mariadb_nodes.cpp:571-593 | likewise with the opposite rule and flag |
| Firewalls.MariadbNodes.Destroy | maxscale-system-test/mariadb_nodes.cpp:34-43 | nodes marked as blocked are opened one by one, the others left alone |
| Firewalls.RunLooks | maxscale-system-test/mariadb_nodes.cpp:526-604 | after any run of calls a touched node has the rule of its last call and the original chain behind its leading port rules; an untouched one is unchanged |
| Firewalls.RestSurvives | maxscale-system-test/mariadb_nodes.cpp:526-604 | behind its own rule each chain of a touched node keeps everything from the first rule on that does not mention the port |
| Firewalls.OthersKeepTheirFate | maxscale-system-test/mariadb_nodes.cpp:526-593 | where the cleaning deletes no other port's rule, packets for other ports fare as before |
| Firewalls.MarkedIsRefused | maxscale-system-test/mariadb_nodes.cpp:546-593 | a touched node refuses its port in both chains iff it is marked as blocked, and its chains grew by at most one rule |
| Firewalls.AllOpen | maxscale-system-test/mariadb_nodes.cpp:596-604 | after unblock_all_nodes no node refuses its port |
| Firewalls.DestructorOpens | maxscale-system-test/mariadb_nodes.cpp:34-43 | after any run the destructor leaves every touched node open and unmarked |
| Firewalls.TakenForPort | maxscale-system-test/mariadb_nodes.cpp:532-534 | in the listing with its addresses and its reject text, a rule for port q is taken for one of port p iff the digits of p occur in those of q, or p is 0 |
| Firewalls.OtherPortsAreSpared | maxscale-system-test/mariadb_nodes.cpp:526-544 | for every chain: only rules for the port are deleted iff no rule for another port mentions it together with all rules before it |
| Firewalls.SparedByDigits | maxscale-system-test/mariadb_nodes.cpp:526-544 | the same for chains of the framework's own rules, in terms of the digits of the port numbers |
| Firewalls.OtherPortIsSwept | maxscale-system-test/mariadb_nodes.cpp:532-534 | cleaning up for 3306 deletes a leading rule for 33060 |
| Replication.Cluster.ChangeMaster | maxscale-system-test/mariadb_nodes.cpp:318-346 | source, threads and binlog position of every node afterwards, from any state: the old master's binlog starts over, the new master's has grown, the others' are as before |
| Replication.Cluster.MoveMaster | maxscale-system-test/mariadb_nodes.cpp:318-346 | the result is a running star at the new master, all from one recorded position, iff the old master was not running as a slave (or already follows from there) |
| Replication.Cluster.MoveAndReturn | maxscale-system-test/mariadb_nodes.cpp:318-346 | moving the master and moving it back restores the star at the old master, from the position just behind the start of its reset binlog, for any number of nodes |
| Replication.StarHasNoCycle | maxscale-system-test/mariadb_nodes.cpp:337-344 | in a star no node reaches itself by following sources |
| Repair.CheckNodes | maxscale-system-test/mariadb_nodes.cpp:606-634 | the number of probes that fail, all of them made of node 0 |
| Repair.FixReplication | maxscale-system-test/mariadb_nodes.cpp:766-817 | for any answers the actions are a prefix of one fixed plan; the cluster is checked once at the start and once after every unblocking or start of replication, and nowhere else, and the plan goes on iff it is found broken; success iff a check after all actions found it whole, whatever the ignored one after that says; failure means that the probes failed or that the last check, after the whole plan, found it broken; failing probes always mean failure after the unblocking |
| Repair.PlanIsPlan | maxscale-system-test/mariadb_nodes.cpp:770-809 | the plan, action by action |
| Repair.WhereChecked | maxscale-system-test/mariadb_nodes.cpp:768-799 | the places of the plan where the loop checks are exactly the start and those behind an unblocking or a start of replication |
| Repair.RepairSteadyCluster | maxscale-system-test/mariadb_nodes.cpp:766-817 | if health depends on the actions alone: a whole cluster is left alone; a broken one with failing probes is given up after the unblocking; otherwise the result is the health at return, every earlier try had failed, and giving up means the whole plan was spent |
| Repair.Budgets | maxscale-system-test/mariadb_nodes.cpp:778-811 | at most 8 starts, 5 stops and 2 clean-ups |
| GrowingBuffers.ReadSc | maxscale-system-test/maxinfo_func.cpp:160-177 | the result holds the chunks joined, each up to its first NUL, in a block of known size; every append fits, and the scratch buffer is all zero before each read |
| GrowingBuffers.WholeIfNulFree | maxscale-system-test/maxinfo_func.cpp:126-132 | the joined text is everything that was received iff no chunk has a NUL |
| GrowingBuffers.GetMaxinfo | maxscale-system-test/maxinfo_func.cpp:121-156 | nothing after an error or without '[', else the reply from its first '[' on |
| GrowingBuffers.ReadPipe | maxscale-system-test/execute_cmd.cpp:20-29 | the output is cut at line breaks and at full buffers only; the result holds these pieces, every append fits, and it is the output iff that has no NUL |
| GrowingBuffers.AppendLine | maxscale-system-test/mariadb_nodes.cpp:968-973 | one line more: the grown buffer holds the old text and the line |
| GrowingBuffers.SendSo | maxscale-system-test/maxinfo_func.cpp:178-192 | for any reports of the sends, the wire gets as much of the data as they took, without gaps; it ends with 0 iff that is all, with -1 at the first error before, and goes on otherwise |
| Auth.Bin2HexInPlace | maxscale-system-test/maxinfo_func.cpp:194-206 | filling the array by index gives the hexadecimal text, digit by digit, terminated, in 2n + 1 bytes |
| Auth.Bin2HexAppending | maxscale-system-test/cdc_connector.cpp:48-60 | appending gives the same hexadecimal text, digit by digit |
| Auth.HexAt | maxscale-system-test/maxinfo_func.cpp:199-203 | characters 2k and 2k+1 are the hexadecimal digits of the high and the low half of byte k |
| Auth.UnhexUndoesHex | maxscale-system-test/maxinfo_func.cpp:199-203 | the encoding has an inverse |
| Auth.HexOfBoth | maxscale-system-test/cdc_connector.cpp:67-73 | the encoding distributes over concatenation |
| Auth.CdcAuthSrt | maxscale-system-test/maxinfo_func.cpp:208-241 | three encoded pieces make the encoding of user, colon and digest, which is as long as the whole block allocated for it, so that its terminator does not fit |
| Auth.GenerateAuthString | maxscale-system-test/cdc_connector.cpp:62-74 | two encoded pieces make the same string: user, 3a for the colon, digest |
| Auth.AuthStringDecodes | maxscale-system-test/cdc_connector.cpp:62-74 | user and digest can be read back, even if the user name has a colon |
| Auth.AuthStringsDiffer | maxscale-system-test/cdc_connector.cpp:62-74 | two strings are equal iff user and digest are |
| CdcConnection.Connection.NointrRead | maxscale-system-test/cdc_connector.cpp:24-34 | interruptions are skipped and nothing else; the read goes on as long as there is nothing but interruptions |
| CdcConnection.Connection.ReadRow | maxscale-system-test/cdc_connector.cpp:182-211 | for any stream: one row is appended to dest without its newline; after an error the bytes read so far are there; the row stays open iff neither comes, also behind the end of the stream, with all bytes taken |
| CdcConnection.Connection.ReadRows | maxscale-system-test/cdc_connector.cpp:182-211 | any sequence of newline-terminated rows comes back row by row |

## Left out

- MaxScale itself: the routers, monitors and filters that the test programs observe are not in these files.
- ssh, scp, iptables, sockets, epoll, TLS and the MySQL client calls: replaced by answers, chunks and return codes; commands of the firewall and binlog code are taken to succeed.
- SHA1 and JSON decoding: SHA1 is a function with 20-byte values, and JSON lines are pairs already decoded.
- CdcProtocol.Safety: every message arrives whole and can be read at once; a message that is cut by the network would count as two. Early returns of `cdc_com` on connection errors are not modelled.
- T1Load.SelectFromT1: for more than seven blocks it says that the result is undefined and not what the source then reads; signed overflow, undefined in C, is taken to wrap.
- AvroRecogniser.CheckAvro: the counters do not wrap; a stream long enough for that has failed long before.
- MaxadminScanner.SendCommand: where the text outgrows the buffer the model stops; what the source then writes behind it is not described. The length of 80 bytes for one read does not matter to the result.
- MaxadminScanner.ExtractParam: a NUL behind the reply is required; of a copy that runs past the text or the result only that is told.
- MaxadminScanner.GetMaxadminParam: nothing is said of the value when the reply has a NUL in it, which hides what follows from strstr.
- NewMaster.SelectNewMaster: for a name without a number behind its first dot it says that the result is undefined and not what the source then does; a negative number, which no server uses, is counted among them.
- MasterFailover.FailoverTest: failing connections and failing statements outside the transactions also fail the test and are not counted; runs without a failover are in `VerdictWithoutFailure`.
- Firewalls.TakenForPort: the listing is that of iptables; ip6tables prints other addresses and "icmp6", which would matter for port 6.
- Repair.FixReplication: `flush_hosts` and `close_connections` are taken not to change the health of the cluster.
- Auth.CdcAuthSrt: the strings are sequences; the write of the terminator behind the block is told by the sizes and not carried out.
- The mutex of the statement cache: calls are modelled one after the other.
- `sync_slaves` and `wait_until_pos`: what they read does not determine that a slave has caught up.
- `rds_vpc.cpp`, `auroramon.cpp`, `config_operations.cpp`: their guarantees depend on services whose behaviour is not in these files.
- Sleeps, timeouts, logging, environment variables, and the plain verdict arithmetic of other test programs.
