# zdx verification

A Dafny model of the parts of zdx that carry state, protocols and non-trivial
queries, with proofs about every input, every run or every interleaving:

- `Atlas.dfy`: the recursive subgraph query over the edge table. Rows are path
  records, a recursive round is a function on the working set, and the result is
  proved equal to graph distance over all walks.
- `PauseProtocol.dfy`, `PauseLog.dfy`, `LeaseRenewal.dfy`, `DaemonObject.dfy`: the agent daemon's pause
  protocol. `PauseProtocol` is a state machine with one step for each critical
  section and one for each action after the lock is released (closing a channel,
  the state file, starting the hold loop, offering a control message), for any
  number of threads; `PauseLog` compares it with a reading of the message log
  alone; `LeaseRenewal` says when the lease is renewed and when no more;
  `DaemonObject` holds the imperative methods, proved to take the machine's
  steps.
- `LoopHolder.dfy`: the work loop's task holder, with its waiting calls split into
  the section that reads a channel and the later return.
- `Comments.dfy`, `ClaudeEvents.dfy`, `EventLoss.dfy`, `TokenUsage.dfy`,
  `Counters.dfy`, `Agents.dfy`: tables, statements and queries: seen watermarks, the event tail,
  token totals, incremental counters and the life of an agent's row. A query that
  leaves ties open is a relation, so nothing depends on how a database breaks them.
- `RouteExtract.dfy`, `CloseHooks.dfy`, `Ship.dfy`, `TestLookup.dfy`,
  `Backoff.dfy`: the route-tree parser, the close-hook cache, ship validation with
  its sort, paginated test lookup and the reconnect loop.
- `Wrappers.dfy`, `Text.dfy`, `GoStrings.dfy`: optional values, the order of text and
  the functions of Go's package `strings` that the code calls.

Runs are lists of actions, statements or messages. A step that is not enabled
leaves the state alone, so the theorems hold for every list. Objects that the code
updates in place are classes whose fields are tied to the value of a run by
`Valid()`, and each method's contract names the run's next step.

Where the code and its own comments differ, the model follows the code:

- `internal/agentdaemon/loop_holder.go:22` says the pause channel is closed while
  paused and recreated on resume; the code makes it on pause and closes it on
  resume.
- `internal/cli/closehooks.go:88-90` says the cache is invalidated whenever
  anything relevant changes; with NUL bytes in a file two different trees are
  hashed from the same bytes (`CloseHooks.NulContentCollides`). What the hash input
  does determine is proved for all trees (`CloseHooks.SameFrameIffSameTokens`,
  `CloseHooks.CollideIff`), and with it when a call is skipped.
- `internal/config/config.go:204-205` says exactly one of run and builtin must be
  set; the code rejects only a stage with neither, and so does the model.
- `internal/db/atlas.sql.go:417` advises callers to clamp the depth; the query
  needs no clamp to stop (`Atlas.RecursionStops`).

More promises fail on some inputs; each has its input and its exact condition:

- an unread feature is pending unless its newest comment is an agent's and seen while
  its newest unread one is a human's (`Comments.ListingsPartIff`);
- the route parser panics exactly on a bare key end between two entries
  (`RouteExtract.PanicsIffLineAtDepthOne`);
- a completion wait is left behind exactly by a Set over its task
  (`LoopHolder.CompletesIffNotReplaced`);
- a follower of the event log loses a row exactly when a row is stored behind its
  cursor or a page ends amid rows that share a seq (`EventLoss.NothingLostIff`).
  Nothing in the table keeps a seq unique (`schema/shipped.sql:5104`), and of the
  three ways to append, the legacy upload numbers its lines from the count of rows
  and so can repeat a stored seq on its own
  (`ClaudeEvents.EventTable.UploadLegacy`, `ClaudeEvents.LegacyRepeatsSeq`); the
  stream ingest and the audit messages store above the largest seq;
- a skipped close hook does not vouch for its steps exactly when the last good call,
  on a worker branch, dropped an intent step that this branch would run
  (`CloseHooks.SkipVouchesIff`).

## Model

| member | source | states |
|---|---|---|
| Atlas.SubgraphIsShortestDistance | internal/db/atlas.sql.go:363-397 | for any edge table with cycles and parallel edges: by ascending id, exactly the project's nodes other than the root within the cap, each once, at its true distance over walks through nodes of any project |
| Atlas.ViaIsLeastShortestEdge | internal/db/atlas.sql.go:383-396 | the via columns name an edge into the node from distance depth-1, and its type is the least among all edges that end a shortest path |
| Atlas.RoundsAreSimplePaths | internal/db/atlas.sql.go:364-382 | round k lists, once each, exactly the simple paths of k edges from the root within the cap, one per choice of parallel edges |
| Atlas.RecursionStops | internal/db/atlas.sql.go:371-382 | whatever the cap, every round from the number of reachable nodes on is empty |
| Atlas.ReachableExact | internal/db/atlas.sql.go:371-382 | those are the nodes that some walk from the root leads to |
| Atlas.BfsExact | internal/db/atlas.sql.go:364-382 | a row is in the recursive relation exactly when it is the row of a simple path within the cap |
| Atlas.RowsNeverRevisit | internal/db/atlas.sql.go:365-381 | no row visits a node twice, and only the anchor, which came by no edge, sits at the root |
| Atlas.ShortestIsSimple | internal/db/atlas.sql.go:381 | the visited filter loses no distance: a shortest walk never revisits a node |
| Atlas.KeptIsFirst | internal/db/atlas.sql.go:383-396 | the row kept for a node is ordered before every other row of that node |
| Atlas.DistinctOnExists | internal/db/atlas.sql.go:383-396 | the relation for DISTINCT ON has a result for every input |
| PauseProtocol.ChannelsHaveOneOwner | internal/agentdaemon/conn.go:342-397 | in every interleaving each stop channel is owned by the field, by one thread about to close it, or is closed; each done channel by its loop or is closed; nothing is closed twice; a channel in the field means paused |
| PauseProtocol.PanicsIffClosedAgain | internal/agentdaemon/conn.go:385-439 | a panic is the close of a stop channel a thread took, or of a done channel by its loop, that is closed already; nothing takes it back |
| PauseProtocol.PauseOverwritesNothing | internal/agentdaemon/conn.go:342-355 | an accepted pause finds both channel fields empty and fills them with channels never used before |
| PauseProtocol.DoneClosedByOwnLoop | internal/agentdaemon/conn.go:428-449 | only the exit of its own hold loop closes a done channel, after its stop channel was closed |
| PauseProtocol.LoopsDoNotStack | internal/agentdaemon/conn.go:343-360 | at most one hold loop has not been told to stop, and it belongs to the latest accepted pause; with no close outstanding and an empty field every loop has been told |
| PauseProtocol.CloseKeepsOwner | internal/agentdaemon/conn.go:385-387 | a thread that closes the stop channel it took finds it open, and every other channel keeps its owner |
| PauseProtocol.ExitKeepsOwner | internal/agentdaemon/conn.go:428-439 | a loop that exits finds its done channel open, and every other channel keeps its owner |
| PauseProtocol.StepKeepsInv | internal/agentdaemon/conn.go:323-461 | every step of every thread keeps the ownership invariant |
| PauseLog.LogDecidesState | internal/agentdaemon/conn.go:323-397 | after each handled message: paused iff the last pause or resume received is a pause; the ids are those of the first pause of the stretch; the state file exists iff paused and holds them; control messages are offered exactly as the log calls for, each resume with its own pause's ids, and the channel receives some of them in order |
| PauseLog.SubsequencePlaces | internal/agentdaemon/conn.go:362-397 | received in order means: from places of the offered messages that ascend |
| PauseLog.RenewalsCarryTheirPause | internal/agentdaemon/conn.go:424-449 | at every instant every lease renewal so far carries the ids of the pause its loop was started for |
| LeaseRenewal.TickRenews | internal/agentdaemon/conn.go:424-449 | with the reader idle, the last control message a pause and no shutdown so far, the loop started for the pause that opened the stretch is running, and a tick of it renews the lease once, with that pause's ids |
| LeaseRenewal.PausedIsHeld | internal/agentdaemon/conn.go:342-461 | without a shutdown a paused daemon always holds a stop channel |
| LeaseRenewal.ExitEndsLoop | internal/agentdaemon/conn.go:428-439 | a running loop whose stop channel is closed may exit: its done channel was open and is closed, and whatever happens next the loop never renews again |
| LeaseRenewal.GoneForGood | internal/agentdaemon/conn.go:428-449 | once a loop's done channel is closed it stays closed and no later action renews for that loop |
| PauseLog.OpenIsStretchStart | internal/agentdaemon/conn.go:342-383 | the running notion of an open pause is the declared one: the first pause with no resume after it |
| PauseLog.StepKeepsReader | internal/agentdaemon/conn.go:323-480 | what relates the daemon to the log survives every step of the reader, of shutdowns and of hold loops |
| DaemonObject.Daemon.HandleIncoming | internal/agentdaemon/conn.go:323-422 | the method takes exactly the machine's steps for the message, those of a pause or resume depending on the pause state, and leaves the reader ready |
| DaemonObject.Daemon.LockForPause | internal/agentdaemon/conn.go:342-355 | the critical section accepts a pause exactly when not paused |
| DaemonObject.Daemon.LockForResume | internal/agentdaemon/conn.go:370-383 | the critical section takes the ids and the stop channel out exactly when paused |
| DaemonObject.Daemon.CloseTaken | internal/agentdaemon/conn.go:385-387 | closing what was taken is safe and closes that channel only |
| DaemonObject.Daemon.CloseIsSafe | internal/agentdaemon/conn.go:385-387 | in every run the channel a thread has taken is still open |
| DaemonObject.Daemon.WritePauseState | internal/agentdaemon/conn.go:463-471 | the state file holds the pause's ids when one is configured, and is left alone otherwise |
| DaemonObject.Daemon.RemovePauseState | internal/agentdaemon/conn.go:473-480 | there is no state file afterwards when one is configured |
| DaemonObject.Daemon.StartHold | internal/agentdaemon/conn.go:360 | exactly the accepted pause's hold loop starts to run |
| DaemonObject.Daemon.Announce | internal/agentdaemon/conn.go:362-367 | the control message enters the channel exactly when there is room |
| DaemonObject.Daemon.StopPauseHold | internal/agentdaemon/conn.go:452-461 | the hold loop is told to stop once; the pause, its ids and its file stay, and the reader stays ready for its next message |
| DaemonObject.Daemon.PauseSnapshot | internal/agentdaemon/conn.go:486-490 | the snapshot is the machine's pause state; no ids when not paused |
| DaemonObject.Daemon.ReadAll | internal/agentdaemon/conn.go:187-196 | on a daemon with any past, with room or none for each announcement: the fields say what all messages so far say, and the control channel got some of the announcements in order |
| LoopHolder.NilMeansReleased | internal/agentdaemon/loop_holder.go:70-83 | a wait that returned nil saw an instant of its call with no current task (or not paused) |
| LoopHolder.ErrorMeansCancelled | internal/agentdaemon/loop_holder.go:77-82 | a wait returned an error only because its context ended during that very call |
| LoopHolder.WaitsReturn | internal/agentdaemon/loop_holder.go:77-82 | a blocked wait whose context ends returns an error, and one whose channel is closed may return nil; one whose channel is open may not |
| LoopHolder.WaiterStep | internal/agentdaemon/loop_holder.go:70-83 | no action but its own begin, wake or cancellation changes the wait of a thread |
| LoopHolder.NoChannelClosedTwice | internal/agentdaemon/loop_holder.go:34-53 | no interleaving closes a channel twice |
| LoopHolder.PanicsIffClosedAgain | internal/agentdaemon/loop_holder.go:44-136 | a panic is a Clear or a resumption that closes a channel closed already; nothing takes it back |
| LoopHolder.DoneClosedByOwnClear | internal/agentdaemon/loop_holder.go:44-53 | a done channel is closed only by the Clear that ends its own task |
| LoopHolder.OrphanedIffReplaced | internal/agentdaemon/loop_holder.go:32-40 | a done channel is lost to its waiters exactly when a Set replaced its task before a Clear |
| LoopHolder.NoWaiterStranded | internal/agentdaemon/loop_holder.go:32-83 | when every Set follows a Clear, a blocked completion wait is on the current task's channel or may return at once |
| LoopHolder.SetOverTaskStrands | internal/agentdaemon/loop_holder.go:32-40 | without that discipline a waiter misses the Clear, and stays blocked under any further calls until its context ends |
| LoopHolder.OrphanBlocksForGood | internal/agentdaemon/loop_holder.go:70-83 | a waiter on a lost channel stays blocked there whatever happens next |
| LoopHolder.CompletesIffNotReplaced | internal/agentdaemon/loop_holder.go:32-83 | a blocked completion wait can still return nil exactly when no Set replaced its task before a Clear |
| LoopHolder.NoResumptionStranded | internal/agentdaemon/loop_holder.go:123-154 | with no discipline at all a blocked WaitWhilePaused is on the live pause channel or may return at once |
| LoopHolder.PausedByLastToggle | internal/agentdaemon/loop_holder.go:123-136 | paused exactly when the last SetPaused asked for it |
| LoopHolder.DrainIsSticky | internal/agentdaemon/loop_holder.go:96-118 | the drain signal is seen exactly after some SignalDrain, and stays |
| LoopHolder.LoopTaskHolder.Set | internal/agentdaemon/loop_holder.go:34-40 | takes the machine's Set step, with any closure or none |
| LoopHolder.LoopTaskHolder.Clear | internal/agentdaemon/loop_holder.go:44-53 | closes the live done channel, which is open, and empties the fields |
| LoopHolder.LoopTaskHolder.Renew | internal/agentdaemon/loop_holder.go:87-94 | the closure to call is that of the last Set, which may be nil, and none after a Clear |
| LoopHolder.LoopTaskHolder.CurrentTask | internal/agentdaemon/loop_holder.go:58-66 | the task of the last Set, and none after a Clear |
| LoopHolder.TaskByLastCall | internal/agentdaemon/loop_holder.go:34-53 | in every history task and closure are those of the last Set, unless a Clear came after it |
| LoopHolder.LoopTaskHolder.SetPaused | internal/agentdaemon/loop_holder.go:123-136 | takes the machine's step; repeated pauses keep the channel |
| LoopHolder.LoopTaskHolder.SignalDrain | internal/agentdaemon/loop_holder.go:99-108 | closes the drain channel at most once |
| LoopHolder.LoopTaskHolder.DrainSignaled | internal/agentdaemon/loop_holder.go:111-118 | true iff the history holds a SignalDrain |
| LoopHolder.LoopTaskHolder.Paused | internal/agentdaemon/loop_holder.go:156-160 | true iff the last toggle of the history is a pause |
| LoopHolder.LoopTaskHolder.BeginWait | internal/agentdaemon/loop_holder.go:70-76 | the wait returns at once exactly when its condition holds, and blocks on the live channel otherwise |
| Backoff.RunForever | internal/agentdaemon/conn.go:241-278 | the wait after an attempt is min(2^k, 30) seconds, k counting attempts since the start or the last connection of at least 10 s; it never leaves 1 s to 30 s |
| Backoff.WaitsInSeconds | internal/agentdaemon/conn.go:269-276 | the waits are 1, 2, 4, 8, 16 and from the sixth attempt on 30 seconds |
| Backoff.AttemptsSinceUnique | internal/agentdaemon/conn.go:262-267 | that count is unique |
| Backoff.AttemptsSinceExists | internal/agentdaemon/conn.go:262-267 | that count exists for every attempt, so every wait is covered |
| RouteExtract.RoundTrip | cmd/route-extract/main.go:53-139 | a rendered route tree is read back as one route for each entry that names an import, in order: its pattern, the file of that import, or an empty file when the tree lacks it, and its dynamic flag; entries without one give no route |
| RouteExtract.ImportLineParses | cmd/route-extract/main.go:58-77 | an import line yields its name and the file under ui/src/routes |
| RouteExtract.ImportStepExact | cmd/route-extract/main.go:58-77 | any line whatever: it adds an import exactly when it has the prefix, a first space after it and a quoted route path, and then that name with that file |
| RouteExtract.SmallFileIsRead | cmd/route-extract/main.go:53-139 | one file read literally: an imported name, an entry without a name and a name that is not imported |
| GoStrings.PrefixAndSuffix | cmd/route-extract/main.go:58-113 | prefix, suffix and what is left after the prefix, by concatenation |
| GoStrings.IndexExact | cmd/route-extract/main.go:63-73 | the index is the first position of an occurrence, and none iff there is no occurrence |
| GoStrings.CountIsMultiplicity | cmd/route-extract/main.go:117 | the count is the multiplicity of the character |
| GoStrings.TrimSpaceExact | cmd/route-extract/main.go:96 | only space is taken off the ends, and none is left there |
| RouteExtract.PanicsIffLineAtDepthOne | cmd/route-extract/main.go:94-134 | the program panics exactly when some line after the first header line, at depth one by the brace counts and before they return to zero, trims to the bare key end |
| RouteExtract.BareKeyEndPanics | cmd/route-extract/main.go:107-109 | an input on which it does: the header and a bare key end |
| RouteExtract.PanicsIffBareKeyEnd | cmd/route-extract/main.go:107-109 | from any state the scan panics exactly on a bare key end reached at depth one |
| RouteExtract.ReadImports | cmd/route-extract/main.go:54-78 | the first pass computes the import map of the lines |
| RouteExtract.ExtractRoutes | cmd/route-extract/main.go:53-139 | the two passes compute the specified extraction, panic included |
| Comments.ListedIffHumanSpokeLast | internal/db/comments.sql.go:485-506 | over any history with rising ids and times, a target is listed iff its newest comment is a human's and no mark followed it |
| Comments.UnreadIffLatestIsNewHuman | internal/db/comments.sql.go:485-506 | when ids and times agree within a target, the listing is exactly the targets whose latest comment is a human's with an id above the watermark |
| Comments.UnreadTellsNewestIff | internal/db/comments.sql.go:485-506 | with distinct times on a target: the listing tells whether its newest comment is an unseen human's, except exactly when the newest is seen and the newest unread one a human's |
| Comments.ListingsPartIff | internal/db/comments.sql.go:306-314 | with distinct times on a feature and no other assumption: it is unread but not pending exactly when its newest comment is an agent's and seen and its newest unread comment a human's |
| Comments.SomeListingsPartIff | internal/db/comments.sql.go:485-506 | for any table, ties included: some possible pair of listings has a feature unread but not pending exactly when its newest comment can be taken to be an agent's and its newest unread one a human's |
| Comments.UnreadFeaturesArePending | internal/db/comments.sql.go:306-314 | when ids and times agree, every feature listed as unread is listed as pending |
| Comments.ClockAgainstIdsParts | internal/db/comments.sql.go:485-506 | an input on which the two listings part |
| Comments.MarkIsMonotoneAndIdempotent | internal/db/comments.sql.go:543-553 | a mark raises its own target's watermark to every comment on it, lowers none, touches no other target, and repeating it changes nothing |
| Comments.WatermarkTracks | internal/db/comments.sql.go:543-553 | over any history the watermark is below exactly the comments that no mark followed |
| Comments.CommentTables.InsertComment | internal/db/comments.sql.go:14-18 | appends the comment and leaves the watermarks alone |
| Comments.CommentTables.MarkTargetCommentsSeen | internal/db/comments.sql.go:543-553 | the upsert performs the mark on one target |
| ClaudeEvents.DeliveredIsPrefix | internal/db/claude_sessions.sql.go:614-620 | for any limits of at least one and appends of new seqs that the follower has not passed, the pages delivered are a gap-free, duplicate-free prefix of the seq-ordered log |
| EventLoss.NothingLostIff | internal/db/claude_sessions.sql.go:614-620 | for any appends, repeated seqs included, and any polls: at every instant the delivered rows are exactly the stored ones above the start and not above the cursor, each once, exactly when no wanted row is stored behind the cursor and every non-empty page holds all rows with the seq it ends on |
| EventLoss.SplitTieIsLost | internal/db/claude_sessions.sql.go:614-620 | an input on which a page limit between two rows of one seq loses the second for good |
| EventLoss.LateAppendIsLost | internal/db/claude_sessions.sql.go:614-620 | an input on which a row stored behind the cursor is lost for good |
| EventLoss.OwnSeqsMakeWholePages | internal/db/claude_sessions.sql.go:614-620 | when every stored row has a seq of its own no page splits a tie |
| EventLoss.DeliveredAscends | internal/server/handlers/handlers_audit_stream.go:90-117 | what is delivered is in seq order whatever is lost |
| ClaudeEvents.InStepIffAppendsAhead | internal/db/claude_sessions.sql.go:614-620 | for appends with seqs of their own: the pages are a prefix of the listing throughout exactly when no wanted row is stored after the cursor passed it |
| ClaudeEvents.AppendsAboveAreAhead | internal/server/handlers/handlers_agent_sessions.go:428-431 | appends above the session's largest seq are of that kind for every follower |
| ClaudeEvents.PollsCatchUp | internal/db/claude_sessions.sql.go:614-620 | without appends, as many polls as rows are missing deliver everything that ListClaudeEvents returns above the start |
| ClaudeEvents.LateRowIsLost | internal/db/claude_sessions.sql.go:614-620 | a row at or below the cursor that was not delivered never is |
| ClaudeEvents.OrderIsUnique | internal/db/claude_sessions.sql.go:576-581 | with distinct seqs the listing's order is decided |
| ClaudeEvents.OfSessionCounts | internal/db/claude_sessions.sql.go:576-581 | the session's rows are the stored rows of that session and no others, as often as stored |
| ClaudeEvents.AdvanceIsLast | internal/server/handlers/handlers_audit_stream.go:99-114 | the cursor ends on the last row of a page |
| ClaudeEvents.EventTable.CreateClaudeEvent | internal/db/claude_sessions.sql.go:197-200 | appends the row |
| ClaudeEvents.EventTable.GetMaxClaudeEventSeq | internal/db/claude_sessions.sql.go:504-506 | -1 when the session has no row; otherwise the seq of one of its own rows and at least that of each |
| ClaudeEvents.MaxSeqExact | internal/db/claude_sessions.sql.go:504-506 | the maximum is attained by a row of the session, or -1 without one, and a number exceeds it iff it exceeds the seq of every such row, and -1 without one |
| ClaudeEvents.EventTable.Ingest | internal/server/handlers/handlers_agent_sessions.go:399-441 | on any table: stores, in ascending order, exactly the lines whose seq exceeds that of every stored row of the session (-1 without one) and of every earlier line; strictly increasing rows stay so |
| ClaudeEvents.EventTable.IngestAuditEvent | internal/server/handlers/handlers_agent_conn.go:287-293 | stores the event one above some stored row of its own session and above all of them, or with seq 0 without one |
| ClaudeEvents.EventTable.UploadLegacy | internal/server/handlers/handlers_claude.go:662-694 | numbers the lines from the count of the session's rows; distinct seqs stay so exactly when none of these numbers is taken |
| ClaudeEvents.EventTable.CountClaudeEvents | internal/db/claude_sessions.sql.go:79-81 | the number of stored positions whose row is of the session |
| ClaudeEvents.LegacyRepeatsSeq | internal/server/handlers/handlers_claude.go:662-694 | an input on which one upload stores a seq twice: rows 0 and 2, then one line |
| TokenUsage.AgentsAddUpToSession | internal/db/claude_sessions.sql.go:414-461 | a session's per-agent rows add up to its totals in all four counters and in the row count, null counters included |
| TokenUsage.SessionsAddUpToAgent | internal/db/agent_budgets.sql.go:55-65 | an agent's rows over all sessions add up to the agent's own total |
| TokenUsage.AgentWithinSession | internal/db/claude_sessions.sql.go:445-461 | the rows of one agent id in a session add up to that agent's counters there, however its type and description vary |
| TokenUsage.RowsOfByAgent | internal/db/claude_sessions.sql.go:445-461 | the rows of a session are those of the agents (id, type and description) with an assistant event that has a usage, one each, by descending event count |
| TokenUsage.ByAgentExists | internal/db/claude_sessions.sql.go:445-461 | the relation for the grouped query has a result for every table and session |
| TokenUsage.SessionUsageStep | internal/db/claude_sessions.sql.go:414-430 | a row adds each of its four counters to that counter of its session's totals iff it is an assistant's with a usage, a null counter adding nothing |
| TokenUsage.AgentUsageStep | internal/db/agent_budgets.sql.go:55-65 | the same for an agent's totals over all sessions, by its id |
| TokenUsage.GroupUsageStep | internal/db/claude_sessions.sql.go:445-461 | the same for a group of a session, by agent id, type and description |
| Counters.RowsAggregate | internal/db/counters.sql.go:229-240 | after any calls each key's row holds its count, maximum with source and context of the earliest call attaining it, and its sum up to the first call's own total |
| Counters.SameKeyIff | internal/db/counters.sql.go:229-240 | two calls meet on one row iff component, environment and name agree and the projects do, no project counting as 0 |
| Counters.TotalIsSumIff | internal/db/counters.sql.go:229-240 | the total is the sum of the values iff the key's first call passed its value as the total |
| Counters.OrderDoesNotMatter | internal/db/counters.sql.go:233-238 | count and maximum are the same for every order of the calls; so is the total, iff the first calls are off by the same amount |
| Counters.CounterTable.UpsertCounted | internal/db/counters.sql.go:229-240 | the upsert keeps the aggregate and touches no other key |
| Agents.ScopeIsFixedAtBirth | internal/db/agents.sql.go:285-370 | originally_global and created_at are fixed by the event that inserted the row, for as long as it exists |
| Agents.ProjectIsTold | internal/db/agents.sql.go:14-18 | a project-scoped row keeps its first project; a global row has that of its last assign or unassign, none before |
| Agents.StatusIsTold | internal/db/agents.sql.go:215-233 | the status is the one last set, changed by later connects and disconnects only as the statements say |
| Agents.PausedIffLastSet | internal/db/agents.sql.go:215-233 | paused iff the last registration or status update set it: connects, disconnects, heartbeats, assignments and reaps neither set nor clear it |
| Agents.DrainingUntilReconnect | internal/db/agents.sql.go:215-233 | draining lasts exactly until the first reconnect |
| Agents.DisconnectIsTold | internal/db/agents.sql.go:215-233 | disconnect_at is the time of the last disconnect, and null iff a connect followed or there was none |
| Agents.HeartbeatIsTold | internal/db/agents.sql.go:471-473 | last_heartbeat is the time of the last registration or heartbeat |
| Agents.SessionIsTold | internal/db/agents.sql.go:285-370 | the session is that of the last registration of either kind, untouched by all other statements |
| Agents.EnvIsTold | internal/db/agents.sql.go:285-301 | the environment is that of the last project registration, empty for a global row with none, untouched by all other statements |
| Agents.IdleIsTold | internal/db/agents.sql.go:419-421 | idle is what the last global registration or idle update set, false before any |
| Agents.GoneIffDeletedOrSilent | internal/db/agents.sql.go:241-245 | a row goes iff it is deleted or reaped with its last touch older than the threshold |
| Agents.TouchedAgentsSurvive | internal/db/agents.sql.go:241-245 | under a monotone clock an agent touched at gaps of at most the threshold is never reaped |
| Agents.LookupStep | internal/db/agents.sql.go:14-482 | a statement aimed at one agent leaves every other row alone |
| Agents.AgentTable.RegisterAgent | internal/db/agents.sql.go:285-301 | inserts a project-scoped row, or updates session, environment, status and heartbeat of the row there |
| Agents.AgentTable.RegisterGlobalAgent | internal/db/agents.sql.go:358-370 | inserts a global row, or updates session, status, idle and heartbeat of the row there |
| Agents.AgentTable.AssignAgentToProject | internal/db/agents.sql.go:14-20 | sets the project of a global row; no row for any other |
| Agents.AgentTable.UnassignAgent | internal/db/agents.sql.go:436-442 | clears the project of a global row; no row for any other |
| Agents.AgentTable.MarkAgentConnected | internal/db/agents.sql.go:215-220 | sets that row's status to active unless it is paused, clears disconnect_at, and leaves every other column and row alone |
| Agents.AgentTable.MarkAgentDisconnected | internal/db/agents.sql.go:228-233 | sets that row's status to disconnected unless paused or draining, and disconnect_at to the time of the call; nothing else |
| Agents.AgentTable.UpdateAgentHeartbeat | internal/db/agents.sql.go:471-473 | sets that row's heartbeat and no other column of any row |
| Agents.AgentTable.UpdateAgentStatus | internal/db/agents.sql.go:480-482 | sets that row's status and nothing else |
| Agents.AgentTable.SetAgentIdle | internal/db/agents.sql.go:419-421 | sets that row's idle flag and nothing else |
| Agents.AgentTable.DeleteAgent | internal/db/agents.sql.go:58-60 | removes that row and no other |
| Agents.AgentTable.ReapStaleAgents | internal/db/agents.sql.go:241-245 | deletes and returns exactly the stale rows |
| CloseHooks.FrameIsInjective | internal/cli/closehooks.go:108-124 | the hash input is injective on HEAD, diff and the ordered untracked files with contents, when all are NUL-free |
| CloseHooks.SameFrameIffSameTokens | internal/cli/closehooks.go:108-124 | for any two trees, NULs anywhere: same hash input iff same pieces of HEAD, diff, paths and contents, cut at NULs |
| CloseHooks.CollideIff | internal/cli/closehooks.go:108-124 | with NUL-free HEAD, diff and paths and any contents: same hash input iff HEAD, diff and the paths with the pieces of their contents are the same |
| CloseHooks.NulContentCollides | internal/cli/closehooks.go:113-124 | a family of different trees that collide: one file's content frames a second file |
| CloseHooks.CacheIsLastGood | internal/cli/closehooks.go:36-61 | the cache holds the hash of the last call that hashed its tree and whose executed steps all succeeded, and nothing before such a call |
| CloseHooks.SkippedIffSamePieces | internal/cli/closehooks.go:36-61 | taking SHA-256 as injective, for every history: a call is skipped iff it has steps and its tree has the pieces of the tree at the start of that last good call |
| CloseHooks.SkippedIffSameTokens | internal/cli/closehooks.go:36-61 | with NUL-free HEAD, diff and paths up to the call: skipped iff HEAD, diff and the paths with their contents' pieces are those of that last good call |
| CloseHooks.SkippedIffTreeUnchanged | internal/cli/closehooks.go:36-61 | with no NUL in the trees up to the call: skipped iff the tree is that of that last good call |
| CloseHooks.SkipVouchesIff | internal/cli/closehooks.go:33-57 | for a skipped call with the steps of its last good call: every step it calls for was executed then, exactly unless that call was on a worker branch, this one is not, and some step is an intent step |
| CloseHooks.SkipMissesIntentStep | internal/cli/closehooks.go:33-57 | an input on which a skip leaves a step of the branch unrun: an intent step dropped on a worker branch, then the same tree on dev |
| CloseHooks.WorktreeHashInput | internal/cli/closehooks.go:108-124 | the loop feeds the frame of HEAD, diff and the listed files with their contents, blank lines left out |
| CloseHooks.FrameByEntries | internal/cli/closehooks.go:108-124 | the frame is HEAD, NUL, diff, NUL, and one more entry adds its path, NUL, its content, NUL at the end |
| CloseHooks.UntrackedExact | internal/cli/closehooks.go:113-124 | the entries are, in order, those of exactly the lines that are not blank: the trimmed path, and the file's content, empty for a file that cannot be read |
| CloseHooks.SplitExact | internal/cli/closehooks.go:113 | the lines hold no newline and, each followed by one, are the list and one newline |
| CloseHooks.TrimSpaceExact | internal/cli/closehooks.go:114 | only ASCII space is taken off the ends of a path, and none is left there |
| CloseHooks.SameHashInputIff | internal/cli/closehooks.go:108-124 | from the inputs: without NUL bytes in them two hash inputs are equal iff HEAD, diff, the listed paths and the content of every listed path are |
| CloseHooks.SkippedIffWorkUnchanged | internal/cli/closehooks.go:36-61 | from the inputs, for every history without NUL bytes up to the call: skipped iff it has steps and HEAD, diff, listed paths and their contents are those of the last good call |
| CloseHooks.RunsUnlessIntent | internal/cli/closehooks.go:44-86 | a step is dropped iff it is an intent step and the branch is none of dev, main, a detached HEAD and the unknown branch |
| CloseHooks.RunStepsExact | internal/cli/closehooks.go:44-57 | a completed call ran exactly the steps its branch calls for, once, in order and all successful; a failed one stopped at the first such step that fails |
| CloseHooks.CloseHooks.RunCloseHooks | internal/cli/closehooks.go:23-63 | the call's outcome and cache are those of the history, and a call that does not complete leaves the cache alone |
| Ship.SortStrings | internal/config/config.go:322-328 | the in-place sort leaves a sorted permutation |
| Ship.SortedIsUnique | internal/config/config.go:296-304 | there is only one sorted permutation, so the order of the map walk is lost |
| Ship.ValidateShip | internal/config/config.go:333-367 | the loop with its map of seen names computes the problems specified |
| Ship.ProblemsExact | internal/config/config.go:333-367 | exactly these problems: an unknown strategy, no stages, each stage with neither run nor builtin, each named stage repeating an earlier name, citing the first stage of that name |
| Ship.ProblemsInOrder | internal/config/config.go:333-367 | the strategy first, then the stages in order, and for one stage the missing command before the repeated name |
| Ship.ProblemCount | internal/config/config.go:333-367 | one for an unknown strategy, plus one for no stages, or else the stages with neither run nor builtin plus named stages minus distinct names |
| Ship.Validate | internal/config/config.go:296-318 | the report is that of the components in name order, whatever order the map was walked in |
| Ship.ReportIsUnique | internal/config/config.go:297-304 | two walks of the same map give the same report |
| Ship.ReportExact | internal/config/config.go:306-313 | the report holds exactly the problems of every component that declares a ship section |
| Ship.ReportInOrder | internal/config/config.go:304-313 | the report is in ascending order of the component names, and within one in that order of its problems |
| TestLookup.ResolveTestId | internal/cli/testlookup.go:18-63 | for any pages: the first of the most recently run exact matches among the rows seen, failing iff there is none; with positive pages, among all rows |
| TestLookup.PositivePagesSeeAll | internal/cli/testlookup.go:22-47 | with pages that are never empty before the end the loop sees every row |
| TestLookup.MostRecent | internal/cli/testlookup.go:53-62 | the second loop finds the first match no other ran after, a missing time counting as least |
| TestLookup.FirstLatestIsUnique | internal/cli/testlookup.go:53-62 | only one row is the first of the most recently run: of equal times the earlier row |
| TestLookup.RanBeforeByTimes | internal/cli/testlookup.go:55-60 | no time is before every time and never before none; two times compare as text, by their first differing character |
| TestLookup.LaterRunIsFound | internal/cli/testlookup.go:53-62 | of two runs of a name at times 1 and 2 the later is found |
| TestLookup.StopsAtEmptyPage | internal/cli/testlookup.go:43-46 | the loop ends only at the total or at an empty page |
| TestLookup.MatchesExact | internal/cli/testlookup.go:38-42 | every match is a row of that name, and the matches before it are those of the rows before it |
| TestLookup.MatchesHold | internal/cli/testlookup.go:38-42 | every row of that name seen is among the matches |
| Text.LessIsLexicographic | internal/config/config.go:324 | a string comes before another iff the other properly extends it or it has the smaller character where they first differ |
| Text.LessIsTotal | internal/config/config.go:324 | any two strings are comparable |
| Text.LessIsAsymmetric | internal/config/config.go:324 | no string is before itself or a string before it |
| Text.LessIsTransitive | internal/config/config.go:324 | the order of strings is transitive |

## Left out

- Text order: Go's byte order and the database's order of `via_edge_type` are both taken as the order of code points (a C collation).
- Rows that tie on every `ORDER BY` key: any of them may be kept or come first; no choice is fixed.
- Overflow: depths, counters, token sums, pagination offsets and times are unbounded integers.
- Database concurrency below the statement: each SQL statement is one atomic step, and the clock is a parameter of the step.
- Atlas: node and edge creation, staleness marks, statistics and the Go loops that scan rows.
- PauseProtocol: the connection itself (dialling, pings, close frames), JSON decoding of messages, drain timeouts and the events emitted for logs; a control channel that is nil or full is one without room, so a message may be dropped; the holder's task is a parameter of the message; state-file operations succeed; a nil renewer is a loop that never renews.
- PauseLog.LogDecidesState: assumes one reader at a time; a second reader's messages have no order of their own.
- LoopHolder: a cancelled context is a step that may happen to any blocked wait; which of two ready cases a select takes is open.
- Backoff.RunForever: ages are whole seconds, cut off, which keeps the comparison with 10 s; the attempt number is only logged, and the end of the context is the end of the list of attempts.
- RouteExtract: splitting the file into lines, the scanner's limit on a line's length and I/O errors.
- Comments: the columns that no modelled query reads; `seen_at`; that a comment posted between a listing and a mark survives the mark is not claimed, since it does not.
- ClaudeEvents: rows are not deleted; the event stream's frames and heartbeats are not modelled.
- ClaudeEvents.EventTable.Ingest: one request at a time; the handlers are many statements, so two at once can read the same maximum or count and store rows out of order or twice. `EventLoss.NothingLostIff` says what a follower then loses, since its appends may be in any order and repeat seqs. Blank lines and lines that do not parse are left out of the input, and an insert and a count do not fail.
- TokenUsage: the JSON path of the usage object; a usage that is present but lacks counters is a usage with null counters.
- Counters: the event log table and the listings.
- Agents: the foreign keys and budgets that hang on a row, and the listings.
- CloseHooks: SHA-256 is any function, injective where a lemma says so; its hex form, the trimming of the cache file and other writers of that file; space is ASCII space, as git escapes other bytes in the paths it lists; a file that cannot be read is hashed as empty, as the code does.
- Ship: the wording of the messages, loading the file, and the stage fields that validation does not read.
- TestLookup.ResolveTestId: the numeric argument that needs no lookup, server errors and a missing response body; the list does not change between pages.
- Generated query builders, single-row tables, command line and user interface: they add no hard claim.
