# Protocol models of the local data hub

The hub is a Python backend, a Rust desktop shell and a React interface. These modules model the
parts of it that are protocols, parsers or state machines, and prove what they are for:

- `HttpSyntax`, `HttpReader`, `HttpProxy`, `HttpRoundTrip`, `HttpRequestLaws`, `HttpOutboundLaws`:
  the hand-written HTTP codec of the web mode proxy. The reader is a method with loops over socket
  reads, proved against a one-shot parse of everything the client sends; the printer is proved to be
  undone by the parser. The laws say which bytes are accepted, with which error others are refused,
  and what is sent.
- `TemplateSyntax`, `TemplateInterpreter`, `TemplateResolver`, `TemplateLaws`, `TemplateShapes`:
  argument templates of flow steps. Three rewriting passes, with regular expressions as explicit
  leftmost scanners, are proved equal to a one-pass interpreter; `TemplateLaws` and `TemplateShapes`
  say what that gives the author of a flow.
- `ScraperTasks`, `ScraperTaskStore`, `ScraperTaskLaws`, `ScraperTaskRuns`, `ScraperApi`: the task
  lease protocol. The store is an object with a ghost history; each operation is a function on
  values; the laws say when it takes effect and what it leaves, and runs carry the safety
  properties. The completion handler sits in front of the store.
- `UpdateBus`, `UpdateStream`: the event bus and its replaying stream, as an object and as a state
  machine in which publishers, event loops and clients interleave freely.
- `TemplateOverrides`: nested merge and difference of widget properties, and the views built on them.
- `RuntimeTable`, `RetryPolicy`, `RetryLaws`, `RefreshScheduler`: the runtime table, the persisted
  retry states, and the scheduler. Each scheduler method is what runs between two await points, so
  what all of them keep holds at every await point of any interleaving.
- `LogControl`, `LogLaws`: the log burst limiter and the bounded error logs.
- `StartupMigration`, `MigrationStore`, `MigrationLaws`: the migration of JSON files into tables,
  with a crash allowed before any committed write.
- `ViewSaveQueue`: the coalescing single-flight save loop.

The modules named `...Laws` and `TemplateShapes` state each operation without the functions that
define it: by witnesses, by the words and numbers of the source, and in both directions.

Clock readings, generated ids, file contents and the outcome of callbacks are parameters. Numbers
are unbounded except for Content-Length, which has the 64-bit width of the source.

Some statements one might expect are false of the code. For each there is an input and the exact
condition under which it holds:

- Retries are spaced 60, 180 and 600 seconds apart within an episode, but an episode ends when a
  tick happens to see a refresh under way (`RetryPolicy.BackoffStartsOver`); when it goes on is
  `RetryPolicy.EpisodeGoesOn`.
- Storing a shown item does not always keep its overrides (`TemplateOverrides.OverrideLost`); when
  it does is `TemplateOverrides.ShownItemStoredAgain`.
- Resuming a migration does not always end as an uninterrupted one
  (`MigrationStore.RepairDependsOnCrash`); when it does is `StartupMigration.IdempotentExactly`.
- Stopping the scheduler does not always leave it at rest (`RefreshScheduler.TickThenStop`); when it
  does is stated by `RefreshScheduler.Scheduler.Stop`.
- The proxy may forward a field that a Connection field nominates
  (`HttpProxy.NominatedFieldForwarded`); when it does is `HttpProxy.NominatedForwarded`.
- Two log lines that differ may count as equal when a field holds a bar (`LogLaws.KeysCollide`);
  which lines are confused with no other is `LogLaws.NeverConfused`.

More than 360 lines of a task may be emitted within 2000 ms when the limiter forgets the task
(`LogControl.CleanupReopens`): `LogControl.BurstBound` says how many more, for every run, and
`LogControl.NothingForgotten` gives a condition on the start and the calls under which there are none.

## Model

| member | source | states |
|---|---|---|
| HttpSyntax.FindHeaderTerminator | ui-react/src-tauri/src/lib.rs:1266-1271 | the result ends a CRLFCRLF and no earlier position does; nothing is returned only if there is none |
| HttpSyntax.TerminatorOfPrefix | ui-react/src-tauri/src/lib.rs:1307-1313 | searching a prefix finds what searching the whole finds, if that fits in the prefix: re-scanning a growing buffer is sound |
| HttpRoundTrip.SplitExactly | ui-react/src-tauri/src/lib.rs:1317 | splitting at line ends gives the only pieces without line ends that give the text back when joined by line ends |
| HttpSyntax.PiecesAreWords | ui-react/src-tauri/src/lib.rs:1321-1333 | the pieces of the request line are non-empty and free of white space |
| HttpSyntax.UsizeExactly | ui-react/src-tauri/src/lib.rs:1281-1283 | a length is accepted as n if and only if it is written as an optional plus sign, any zeros and the numeral of n, and n fits 64 bits |
| HttpSyntax.ParsedBody | ui-react/src-tauri/src/lib.rs:1357-1380 | in a one-shot parse the body is exactly the declared number of bytes right after the header section |
| HttpReader.CollectHeaders | ui-react/src-tauri/src/lib.rs:1335-1355 | the loop gives the recursive meaning of the header lines, the first error included |
| HttpReader.ParseContentLength | ui-react/src-tauri/src/lib.rs:1274-1293 | the fold over the headers gives the declared length, 0 without one, and refuses malformed or conflicting ones |
| HttpReader.ParseSection | ui-react/src-tauri/src/lib.rs:1316-1360 | the header section as a whole: request line, headers, length and its limit, with the errors in that order |
| HttpReader.ReadHeaderSection | ui-react/src-tauri/src/lib.rs:1300-1314 | reads just far enough to see the first blank line; stops with the size error on the first read beyond 65536 bytes without one, and with "empty request" only at the end of the stream |
| HttpReader.ReadBody | ui-react/src-tauri/src/lib.rs:1362-1378 | the body is the right slice of everything sent, or truncated if too little is sent; no read happens once it is complete |
| HttpReader.ParseHttpRequest | ui-react/src-tauri/src/lib.rs:1296-1387 | the loops refine the one-shot parse of all bytes except where the size limit trips first; before the last read the request was not yet complete |
| HttpReader.ChunkIndependence | ui-react/src-tauri/src/lib.rs:1296-1387 | if the blank line is absent or ends within 65536 bytes, every way of cutting the bytes into reads gives the one-shot parse (RFC 9112 sections 3, 5 and 6.3) |
| HttpReader.AcceptedHeaderBound | ui-react/src-tauri/src/lib.rs:1300-1314 | the header section of any accepted request ends within 65536 + 4096 bytes |
| HttpReader.AcceptedBody | ui-react/src-tauri/src/lib.rs:1357-1380 | an accepted request, however it was read, carries exactly its Content-Length bytes after the header section |
| HttpRequestLaws.WordsExactly | ui-react/src-tauri/src/lib.rs:1321 | the words of a line are the one way to read it as words between blanks |
| HttpRequestLaws.RequestLineExactly | ui-react/src-tauri/src/lib.rs:1317-1334 | a request line is accepted if and only if it is two or three words between blanks; they are verb, path and version, the last HTTP/1.1 if there is none |
| HttpRequestLaws.RequestLineFails | ui-react/src-tauri/src/lib.rs:1317-1334 | and each of the three errors if and only if there is no word, only one, or more than three |
| HttpRequestLaws.HeaderExactly | ui-react/src-tauri/src/lib.rs:1339-1354 | a header line is accepted if and only if it is a non-empty name and a value around its first colon, blanks around both aside, and not a Transfer-Encoding other than empty or identity in any capitals |
| HttpRequestLaws.HeaderFails | ui-react/src-tauri/src/lib.rs:1339-1354 | and each error if and only if the colon is missing, only blanks precede it, or the line is such a Transfer-Encoding |
| HttpRequestLaws.HeadersExactly | ui-react/src-tauri/src/lib.rs:1335-1355 | a header block is accepted as these headers if and only if its non-empty lines are these headers one by one |
| HttpRequestLaws.HeadersFail | ui-react/src-tauri/src/lib.rs:1335-1355 | and fails with the fault of the first line that has one |
| HttpRequestLaws.LengthExactly | ui-react/src-tauri/src/lib.rs:1274-1293 | the declared length is n if and only if every Content-Length header, in any capitals, is written as n in 64 bits, and 0 if there is none |
| HttpRequestLaws.LengthFails | ui-react/src-tauri/src/lib.rs:1274-1293 | malformed or conflicting, if and only if the first Content-Length header that is not a number, or not the number of those before it, is the one or the other |
| HttpRequestLaws.SectionExactly | ui-react/src-tauri/src/lib.rs:1316-1360 | a header section is accepted if and only if it has a good request line, good header lines and one declared length of at most 8 MiB |
| HttpRequestLaws.SectionFails | ui-react/src-tauri/src/lib.rs:1316-1360 | and fails with an error if and only if that is the first fault in the order request line, headers, lengths, size |
| HttpRequestLaws.RequestExactly | ui-react/src-tauri/src/lib.rs:1296-1387 | bytes are accepted as a request if and only if they begin with such a section, ended by the first blank line, and its body |
| HttpRequestLaws.CodingIsRefused | ui-react/src-tauri/src/lib.rs:1348-1353 | in an accepted request every Transfer-Encoding header is empty or says identity |
| HttpRequestLaws.CodingIsTheError | ui-react/src-tauri/src/lib.rs:1348-1353 | a request whose first faulty line is any other Transfer-Encoding, chunked included, is answered with that error |
| HttpRequestLaws.SizeLimit | ui-react/src-tauri/src/lib.rs:1300-1314 | the size error is the answer if and only if some reads together exceed 65536 bytes without a blank line |
| HttpRequestLaws.EndsTooEarly | ui-react/src-tauri/src/lib.rs:1300-1306 | the empty error is the answer if and only if all reads together are at most 65536 bytes without a blank line |
| HttpRequestLaws.ReadExactly | ui-react/src-tauri/src/lib.rs:1296-1387 | reads are accepted as a request if and only if their bytes together begin with it and no reads overfill the limit |
| HttpRequestLaws.ReadFails | ui-react/src-tauri/src/lib.rs:1296-1387 | every other error is the answer if and only if the section up to the first blank line has that fault, or the body ends early, and no reads overfill the limit |
| HttpProxy.EndToEndExactly | ui-react/src-tauri/src/lib.rs:1390-1440 | the forwarded headers are exactly those that are neither Host nor on the fixed list of hop-by-hop names, every one of them, in their order |
| HttpProxy.NominatedForwarded | ui-react/src-tauri/src/lib.rs:1390-1400 | a field nominated by a Connection field is forwarded if and only if one is present that the fixed list lacks and is not Host (RFC 9110 section 7.6.1 asks for none) |
| HttpProxy.NominatedFieldForwarded | ui-react/src-tauri/src/lib.rs:1390-1400 | such a request: any field not on the list, named by the Connection field beside it |
| HttpRoundTrip.EndToEndAppend | ui-react/src-tauri/src/lib.rs:1437-1440 | the header filter works header by header and keeps their order |
| HttpProxy.SerializeOutbound | ui-react/src-tauri/src/lib.rs:1427-1457 | the buffer-filling loop emits the printed form of request line, forwarded headers, Host, Connection, and a length where one is missing |
| HttpProxy.ParsedIsWellFormed | ui-react/src-tauri/src/lib.rs:1316-1387 | whatever the parser accepts has words in its request line, trimmed colon-free header names, no line ends inside headers, and a body of the declared length |
| HttpRoundTrip.SplitOfPrint | ui-react/src-tauri/src/lib.rs:1317 | splitting undoes printing of non-empty lines, up to the two empty pieces of the blank line |
| HttpRoundTrip.TerminatorOfPrint | ui-react/src-tauri/src/lib.rs:1266-1271 | the first blank line of a printed request is the one after its last header, whatever the body holds |
| HttpRoundTrip.HeadersParse | ui-react/src-tauri/src/lib.rs:1335-1355 | printed well-formed headers parse back to themselves in order |
| HttpRoundTrip.LengthIsNeverAdded | ui-react/src-tauri/src/lib.rs:1451-1454 | a body always comes with a forwarded Content-Length, so the branch that adds one never runs |
| HttpRoundTrip.PrintedParses | ui-react/src-tauri/src/lib.rs:1296-1457 | a printed well-formed request parses back to itself |
| HttpRoundTrip.RoundTrip | ui-react/src-tauri/src/lib.rs:1296-1457 | what the proxy sends for any accepted request parses to the same method, path, version and body, with the end-to-end headers in order followed by Host and Connection (RFC 9110 section 7.6.1) |
| HttpRoundTrip.RoundTripThroughReads | ui-react/src-tauri/src/lib.rs:1296-1457 | the same through the incremental reader on both sides, for every cutting into reads, when the outbound header section is within the limit |
| HttpRoundTrip.ProxyTwice | ui-react/src-tauri/src/lib.rs:1390-1457 | proxying what was proxied changes nothing more |
| HttpOutboundLaws.LowerExactly | ui-react/src-tauri/src/lib.rs:1390-1400 | letter case is that of ASCII: capitals become small, all else stays |
| HttpOutboundLaws.ForwardedExactly | ui-react/src-tauri/src/lib.rs:1390-1400 | a header is dropped if and only if its name in small letters is Host or one of nine names, each spelled out in the statement |
| HttpOutboundLaws.KeptExactly | ui-react/src-tauri/src/lib.rs:1437-1443 | the headers sent on are those not dropped, in their order |
| HttpOutboundLaws.OutboundExactly | ui-react/src-tauri/src/lib.rs:1427-1457 | the exact bytes sent: request line, kept headers line by line, Host, Connection, a length if it is missing, a blank line and the body |
| HttpOutboundLaws.RoundTripExactly | ui-react/src-tauri/src/lib.rs:1296-1457 | what is sent for an accepted request parses to its verb, path, version and body, with the headers that are not dropped, then Host 127.0.0.1 with the port and Connection close |
| Text.ParseOfPrint | core/executor.py:495-512 | reading a printed decimal index back returns it, for indices of any size |
| TemplateSyntax.MaskEscapedTemplateChars | core/executor.py:495-503 | the substitution callback, run left to right, numbers tokens by the characters escaped so far and records those characters in order |
| TemplateInterpreter.ReferenceIsNulFree | core/executor.py:449-475 | only keys without NUL name anything in scopes without NUL, and what they name prints without NUL: no masked key ever resolves |
| TemplateInterpreter.PlaceholderRenders | core/executor.py:47-49 | escapes neither open nor close a placeholder: it starts and ends in the masked text exactly where the symbols have it |
| TemplateInterpreter.RestoreToken | core/executor.py:505-512 | a token is read back as its own character whatever follows it |
| TemplateInterpreter.RestoreRender | core/executor.py:505-512 | restoring the masked text of a run of symbols gives their plain characters |
| TemplateResolver.SubstituteRefines | core/executor.py:495-546 | substitute then restore, from any token number on, equals the one-pass meaning of the symbols |
| TemplateResolver.ResolveTextRefines | core/executor.py:521-546 | mask, substitute, restore equals the one-pass interpreter, including the case of a lone placeholder, for all templates and scopes without NUL |
| TemplateResolver.ResolveArgsRefines | core/executor.py:514-553 | the same for whole argument trees of dictionaries and lists |
| TemplateLaws.PartsResolve | core/executor.py:514-546 | a template printed from literals and references resolves to their texts in order: literals unchanged, values verbatim and never expanded again, unknown references as written |
| TemplateLaws.EscapeRoundTrip | core/executor.py:495-546 | escaping every brace and backslash of a text without NUL and resolving returns the text, under any scopes whatever they hold |
| TemplateLaws.LoneReference | core/executor.py:526-536 | a template that is one reference keeps the type of the value; unknown, it stays text |
| TemplateLaws.LookupOrder | core/executor.py:464-475 | context before secrets before outputs |
| TemplateLaws.DottedPath | core/executor.py:449-462 | a key names v if and only if it is an entry of the scope that holds v, or it is not an entry and a chain of nested dictionaries leads along its segments to v |
| TemplateLaws.WalkExactly | core/executor.py:453-461 | the walk along segments finds v if and only if such a chain exists: each dictionary is the one the last holds under the segment |
| TemplateLaws.JoinOfSplit | core/executor.py:453 | every key is segments joined by dots, so the two above speak of every key |
| TemplateLaws.OrdinaryTextKept | core/executor.py:495-546 | text without braces and doubled backslashes resolves to itself if and only if it holds no NUL, digits, NUL |
| TemplateLaws.TokenTextIsLost | core/executor.py:505-512 | three such characters that vanish: why NUL is excluded above |
| TemplateShapes.LexExactly | core/executor.py:495-503 | a template reads as symbols in exactly one way: written out they give it back, and every backslash before a brace or backslash escapes it |
| TemplateShapes.PlaceholderExactly | core/executor.py:47-49 | the symbols start with a placeholder if and only if a prefix is an open brace, one or more symbols that are no brace, and a closing brace |
| TemplateShapes.PaddedExactly | core/executor.py:528 | trimming is the removal of white space at both ends, and only of it |
| TemplateShapes.FindsExactly | core/executor.py:464-475 | a key names v if and only if a scope has it and no earlier one of context, secrets and outputs does |
| TemplateShapes.MeaningExactly | core/executor.py:526-543 | a placeholder stands for v if and only if its inside holds no escape and is, trimmed, a key that names v |
| TemplateShapes.SaysExactly | core/executor.py:538-543 | it says the text of that value, or its own characters when there is none |
| TemplateShapes.InterpretExactly | core/executor.py:521-546 | a text is taken from left to right: a placeholder that starts here as a whole, any other symbol as its character |
| TemplateShapes.ResolveExactly | core/executor.py:521-546 | a template that is one placeholder gives the value it names, or its characters if it names none; any other template gives its text |
| TemplateShapes.ArgsExactly | core/executor.py:514-553 | at every place inside an argument tree each text is resolved where it stands, keys and order stay, and nothing else changes |
| ScraperTasks.Earliest | core/scraper_task_store.py:76-90 | `min` over the tasks in dictionary order: created first among those that qualify, the earlier key winning a tie |
| ScraperTasks.SelectsFirst | core/scraper_task_store.py:76-90 | the selected task qualifies and none that qualifies is older; nothing is selected only if none qualifies |
| ScraperTasks.SortIsStable | core/scraper_task_store.py:298 | the listing is in order of creation and tasks created at the same time keep their order |
| ScraperTasks.MatchingExactly | core/scraper_task_store.py:293-297 | every task that qualifies is listed exactly once |
| ScraperTasks.StepKeepsValid | core/scraper_task_store.py:64-327 | every operation keeps: at most one active task per source and step, claimed or running exactly with owner and expiry, last attempt equal to the attempt count, final times consistent with the status |
| ScraperTaskStore.TaskStore.constructor | core/scraper_task_store.py:24-35 | the store starts empty with an empty history |
| ScraperTaskStore.TaskStore.ReleaseExpiredLeasesLocked | core/scraper_task_store.py:64-74 | the loop returns exactly the tasks whose lease has run out, and touches nothing else |
| ScraperTaskStore.TaskStore.UpsertPendingTask | core/scraper_task_store.py:92-139 | after releasing leases it updates the oldest active task of the step or adds a pending one; the history grows by this call |
| ScraperTaskStore.TaskStore.ClaimNextTask | core/scraper_task_store.py:141-173 | after releasing leases it claims the selected pending task and counts the attempt, or returns nothing |
| ScraperTaskStore.TaskStore.HeartbeatTask | core/scraper_task_store.py:175-208 | renews the lease unless the task is unknown, final, or held by another worker |
| ScraperTaskStore.TaskStore.CompleteTask | core/scraper_task_store.py:210-242 | completes unless unknown, completed, fenced by attempt, or held by another named worker; reports whether anything changed |
| ScraperTaskStore.TaskStore.FailTask | core/scraper_task_store.py:244-280 | fails unless unknown, final, fenced by attempt, or held by another named worker; reports whether anything changed |
| ScraperTaskStore.TaskStore.ListActiveTasks | core/scraper_task_store.py:290-299 | releases leases and lists the active tasks, oldest first |
| ScraperTaskStore.TaskStore.ClearActiveTasks | core/scraper_task_store.py:301-327 | removes exactly the active tasks of the source, or of all, and returns their records in order |
| ScraperTaskLaws.CompletionExactly | core/scraper_task_store.py:210-242 | a completion takes effect if and only if the task exists, is not completed, the attempt is absent or the current one, and nobody else holds an unexpired lease or no worker is named; then it is completed at the clock reading, free and without error, all else as before |
| ScraperTaskLaws.FailureExactly | core/scraper_task_store.py:244-280 | the same for a failure, which a failed task refuses too: failed at the clock reading with the error given, free, all else as before |
| ScraperTaskLaws.AnswersExactly | core/scraper_task_store.py:221-230 | what a completion without effect is answered: the task if it is completed or the attempt is not the current one, nothing if it is unknown or held by another |
| ScraperTaskLaws.FailureAnswers | core/scraper_task_store.py:256-265 | the same for a failure |
| ScraperTaskLaws.HeartbeatExactly | core/scraper_task_store.py:175-208 | a heartbeat takes effect if and only if the task exists, is neither completed nor failed and nobody else holds it; then it runs under this worker until the clock reading plus the seconds asked, at least one |
| ScraperTaskLaws.ReleaseExactly | core/scraper_task_store.py:64-74 | releasing makes pending and free exactly the claimed and running tasks whose expiry is reached, and nothing else |
| ScraperTaskLaws.ListExactly | core/scraper_task_store.py:290-299 | listing does no more to the store than that |
| ScraperTaskLaws.ClearExactly | core/scraper_task_store.py:301-327 | clearing removes exactly the pending, claimed and running tasks of the source, or of all if none is named |
| ScraperTaskLaws.WithoutKeepsOrder | core/scraper_task_store.py:301-327 | and the others keep their order |
| ScraperTaskLaws.ClaimExactly | core/scraper_task_store.py:141-173 | a claim returns nothing if and only if no task is pending or past its expiry; otherwise the first one created, claimed by the worker until the clock reading plus the seconds asked, at least one, with the attempt counted; every other expired task becomes free |
| ScraperTaskLaws.UpsertExactly | core/scraper_task_store.py:92-139 | an upsert writes the fields of the request into the one unfinished task of the step, the rest of it kept, or adds one pending task with those fields and no attempts; every other expired task becomes free |
| ScraperTaskRuns.LeaseExclusion | core/scraper_task_store.py:141-280 | over any run of other parties before the expiry, the holder, status, expiry and attempt of a leased task stay |
| ScraperTaskRuns.ClaimOrder | core/scraper_task_store.py:141-173 | a claim returns a claimable task of least creation time, ties to the earlier key, and nothing only if none is claimable |
| ScraperTaskRuns.ClaimableFromExpiry | core/scraper_task_store.py:64-74 | a held task is claimable exactly from its expiry on |
| ScraperTaskRuns.CrashRecovery | core/scraper_task_store.py:64-74 | when a holder falls silent, no claim before the expiry returns its task, and from then on a claim returns it as the next attempt unless an older or equally old task is claimable |
| ScraperTaskRuns.Fencing | core/scraper_task_store.py:210-280 | once an attempt was claimed, a report carrying an earlier attempt never changes the store, however much later it comes |
| ScraperTaskRuns.TerminalForGood | core/scraper_task_store.py:210-280 | a final task never becomes active again; completed never changes, failed changes only to completed |
| ScraperTaskRuns.TerminalCounts | core/scraper_task_store.py:210-280 | the store records exactly whether a completion, or a failure, of the task ever took effect |
| ScraperTaskRuns.TerminalEffectsOnce | core/scraper_task_store.py:210-280 | over every run a task completes with effect at most once and fails with effect at most once |
| ScraperTaskRuns.NoFailureAfterCompletion | core/scraper_task_store.py:258-259 | after a completion no failure report has an effect |
| ScraperTaskRuns.AttemptsAreClaims | core/scraper_task_store.py:159-160 | the attempt counter is the number of claims that returned the task in the whole history, and the last attempt |
| ScraperTaskRuns.OneActivePerStep | core/scraper_task_store.py:76-139 | in every reachable store two active tasks of one step of one source are the same task |
| ScraperTaskRuns.LeasedIffOwned | core/scraper_task_store.py:64-280 | in every reachable store a task is claimed or running exactly when it has an owner, and exactly when it has an expiry |
| ScraperApi.ReportHandler.InternalCompleteScraperTask | core/api.py:1100-1147 | who is turned away and how; only a report that changed the task stores the data, marks the source and resumes the flow, in that order |
| ScraperApi.EffectsAtMostOnce | core/api.py:1115-1147 | over every run of reports and other operations, the data of a task is stored and its flow resumed at most once |
| ScraperApi.ReportExactly | core/api.py:1115-1136 | what an effective report does: the data goes under the secret key of the task, webview_data if it is empty, then the source is marked and a flow that can be resolved is resumed |
| UpdateBus.CommitRetains | core/source_update_events.py:66-71 | publishing keeps the history the newest consecutive part of everything published |
| UpdateBus.ReplayExact | core/source_update_events.py:121-148 | a client is told to resynchronise if and only if an event it has not seen was evicted; otherwise it gets exactly since+1..latest in order |
| UpdateBus.ReplayFromTheFuture | core/source_update_events.py:121-148 | a client ahead of the bus gets nothing and is not told to resynchronise |
| UpdateBus.CommitExactly | core/source_update_events.py:66-71 | publishing appends the numbered event and keeps the last events up to the limit, all if they are fewer |
| UpdateBus.OfferExactly | core/source_update_events.py:81-101 | a queue keeps the newest of what it held and was offered, up to its size |
| UpdateBus.BoundedQueue.OfferToQueue | core/source_update_events.py:81-101 | put, or drop the oldest and put |
| UpdateBus.SourceUpdateEventBus.PublishLocked | core/source_update_events.py:66-71 | one critical section numbers the event, appends it to the bounded history and snapshots the subscribers |
| UpdateBus.SourceUpdateEventBus.NotifySubscribers | core/source_update_events.py:73-78 | each subscriber of the snapshot is handed the event once, nobody else is |
| UpdateBus.SourceUpdateEventBus.PublishSourceUpdated | core/source_update_events.py:38-79 | without a source id nothing changes; with one, commit and one callback per subscriber |
| UpdateBus.SourceUpdateEventBus.Subscribe | core/source_update_events.py:103-111 | adds the subscriber, with an empty queue |
| UpdateBus.SourceUpdateEventBus.Unsubscribe | core/source_update_events.py:113-119 | removes that subscriber only |
| UpdateBus.SourceUpdateEventBus.GetReplay | core/source_update_events.py:121-148 | the loop over the history gives the replay function |
| UpdateStream.StepKeepsValid | core/source_update_events.py:38-119 | for every interleaving of publishers, event loops and clients: each subscriber is owed exactly the events published since it subscribed, each once |
| UpdateStream.QueueIsSuffix | core/source_update_events.py:81-101 | in every reachable state a queue is the end of what was offered to it, never over capacity, and nothing is lost before it is full |
| UpdateStream.NoGap | core/api.py:353-380 | subscribe, later replay: at any later moment every event after `since` is in the replay or on its way or delivered exactly once |
| UpdateStream.NothingMissed | core/api.py:353-380 | a client that caught up without overflow was sent every event after `since`, in the replay or live |
| UpdateStream.HistoryExactly | core/source_update_events.py:31-36 | in every reachable state the history is the last min(limit, published) events published, limit being the configured one and at least 1, numbered from 1 |
| UpdateStream.ReplayLimit | core/source_update_events.py:121-148 | in every reachable state a client at `since`, up to the latest, is told to resynchronise if and only if since < latest - limit, and otherwise is given exactly the events after it |
| UpdateStream.PublishedExactly | core/source_update_events.py:66-71 | what is published is what publishers hand in, in the order of their critical sections |
| UpdateStream.ArrivalExactly | core/source_update_events.py:81-101 | an event that reaches a client is the first scheduled for it, and its queue keeps the newest up to the configured size, at least 1 |
| UpdateStream.OpenStream | core/api.py:353-377 | the handler subscribes before it replays, then announces and sends what was replayed |
| TemplateOverrides.MergeTemplateProps | core/api.py:818-829 | the loop, taking keys in any order, gives the nested merge |
| TemplateOverrides.ExtractTemplateOverrides | core/api.py:832-851 | the loop, taking keys in any order, gives the nested difference |
| TemplateOverrides.MergeOfExtract | core/api.py:818-851 | laying the difference over the template gives what laying everything over it gives |
| TemplateOverrides.ExtractOfMerge | core/api.py:818-851 | the difference of a merge is the difference of the overrides |
| TemplateOverrides.ExtractTwice | core/api.py:832-851 | overrides are their own difference |
| TemplateOverrides.ReadMerged | core/api.py:818-829 | read path by path: a leaf the overrides set wins, what they leave alone shows the template |
| TemplateOverrides.FollowsTemplate | core/api.py:818-851 | paths not overridden follow any later template |
| TemplateOverrides.MergeExactly | core/api.py:818-829 | path by path: a leaf of the merge is one of the overrides, or one of the template on a path they leave alone, and no other; objects likewise |
| TemplateOverrides.ExtractExactly | core/api.py:832-851 | path by path: the leaves of the difference are exactly those that the template does not have there; its objects are those of the properties, all that the template lacks, and none empty where the template has one |
| TemplateOverrides.TemplateExactly | core/api.py:854-865 | which template an item has |
| TemplateOverrides.ItemExactly | core/api.py:867-932 | how an item is shown and stored: merged with its template, reduced to what differs, full snapshots as if without properties; nothing else of it changes |
| TemplateOverrides.OtherItemExactly | core/api.py:875-932 | an item without template is left alone |
| TemplateOverrides.InjectViewItemProps | core/api.py:875-902 | the loop gives every item its merged properties; items without template stay |
| TemplateOverrides.NormalizeViewItemProps | core/api.py:905-932 | the loop gives every item its overrides; items without template stay |
| TemplateOverrides.StoredViewLooksTheSame | core/api.py:867-932 | showing a stored view equals showing the view, and storing twice equals storing once, without any condition on template ids |
| TemplateOverrides.ShownItemStoredAgain | core/api.py:867-932 | storing a shown item keeps its overrides if and only if it does not pass for an old snapshot, or there were none |
| TemplateOverrides.OverrideLost | core/api.py:867-872 | an item whose override is lost that way |
| RuntimeTable.RuntimeRepository.Upsert | core/storage/sqlite_runtime_repo.py:129-138 | a success replaces the record, retry state included |
| RuntimeTable.RuntimeRepository.SetError | core/storage/sqlite_runtime_repo.py:140-149 | an error replaces the record, retry state included |
| RuntimeTable.RuntimeRepository.SetState | core/storage/sqlite_runtime_repo.py:151-191 | a state write sets status, message and interaction, keeps what it does not name, drops stale errors, and keeps columns and payload alike |
| RuntimeTable.RuntimeRepository.SetRetryMetadata | core/storage/sqlite_runtime_repo.py:193-218 | saving or clearing retry metadata keeps the record's own time |
| RuntimeTable.StateExactly | core/storage/sqlite_runtime_repo.py:147-188 | what a state write leaves, entry by entry: data, last success and retry metadata stay, error and error code go unless given or kept by the status, and other sources stay |
| RuntimeTable.OutcomesExactly | core/storage/sqlite_runtime_repo.py:129-145 | what a success and an error leave: a record with nothing of the one before |
| RuntimeTable.MetadataExactly | core/storage/sqlite_runtime_repo.py:190-218 | what saving or clearing retry metadata leaves: everything else, the time of the record included |
| RetryPolicy.ReadOfWritten | core/refresh_scheduler.py:249-282 | reading back a written retry state returns it, whatever the scheduler remembers |
| RetryPolicy.EventKeepsBudget | core/refresh_scheduler.py:157-195 | every tick, write, delete and restart keeps the budget of the current episode |
| RetryPolicy.RetryBudget | core/refresh_scheduler.py:157-195 | over every run, every episode has at most three retries: the first at least 60 s after the failure, then at least 180 s and 600 s apart |
| RetryPolicy.RetriesAreCounted | core/refresh_scheduler.py:178-191 | every retry a tick enqueues is the last one of the episode it leaves |
| RetryPolicy.EpisodeGoesOn | core/refresh_scheduler.py:151-195 | an episode goes on if and only if ticks see its failure or an active source without newer success; restarts keep it while a recorded copy is left |
| RetryPolicy.EpisodeGoesOnThroughout | core/refresh_scheduler.py:151-195 | the same over whole runs: the episode has not ended if and only if every event on the way kept it |
| RetryPolicy.BudgetThroughout | core/refresh_scheduler.py:157-195 | over such a run the episode is one and the same, its retries only extend, and all of them keep the 60, 180 and 600 s spacing, across restarts too |
| RetryPolicy.BackoffStartsOver | core/refresh_scheduler.py:192-195 | for any retryable failure, a run in which a tick sees a refresh under way and the next retry comes 75 s after the first, not 180 |
| RetryPolicy.WritesOfARefresh | core/refresh_scheduler.py:12-23 | a network time-out and a refresh under way are such writes |
| RetryLaws.ToldExactly | core/refresh_scheduler.py:157-166 | a status or code is a word, white space around it and capitals aside |
| RetryLaws.FailsExactly | core/refresh_scheduler.py:12-24 | a failure is worth retrying if and only if the status is error or suspended and the code is a network time-out or a retry requirement |
| RetryLaws.RetryExactly | core/refresh_scheduler.py:157-195 | a failing source is retried if and only if it is neither queued nor in flight, its episode has fewer than three retries, and 60 s since the failure, 180 s since the first retry or 600 s since the second are over |
| RetryLaws.EpisodeExactly | core/refresh_scheduler.py:157-195 | and the tick leaves that episode, with this retry added if it made one; another code starts a new episode |
| RetryLaws.StaleExactly | core/refresh_scheduler.py:213-224 | a source is stale if and only if the interval is positive and over since its last success, or since its last write if none is recorded |
| RetryLaws.AutoExactly | core/refresh_scheduler.py:150-224 | a source that does not fail is refreshed if and only if it is active, stale, and neither queued nor in flight; it is never retried |
| RetryLaws.ThreeRetries | core/refresh_scheduler.py:157-195 | for any retryable failure, a run with retries at 60, 240 and 840 s and no fourth however late |
| RefreshScheduler.Scheduler.Enqueue | core/refresh_scheduler.py:316-321 | a source is queued if and only if it is neither queued nor in flight |
| RefreshScheduler.Scheduler.TakeJob | core/refresh_scheduler.py:293-303 | jobs leave in order; a job taken is never in flight already, so that branch is dead |
| RefreshScheduler.Scheduler.FinishJob | core/refresh_scheduler.py:304-310 | the source is released and its job accounted for, however the refresh ended |
| RefreshScheduler.Scheduler.CancelWorker | core/refresh_scheduler.py:93-97 | a cancelled worker still releases its source and accounts for its job |
| RefreshScheduler.Scheduler.FinishStop | core/refresh_scheduler.py:99-109 | draining accounts for every queued job and ends at zero |
| RefreshScheduler.Scheduler.Start | core/refresh_scheduler.py:70-80 | starting a started scheduler changes nothing; otherwise the workers appear, waiting |
| RefreshScheduler.Scheduler.Stop | core/refresh_scheduler.py:82-110 | a started scheduler, with any number of workers in any state, ends with nothing queued, in flight, remembered or unfinished; one not started is left as it is; so it ends at rest if and only if it was started or at rest already |
| RefreshScheduler.TickThenStop | core/refresh_scheduler.py:82-113 | a tick run by hand on a scheduler never started, then stop: the job of a due source stays queued and unfinished |
| RefreshScheduler.Scheduler.TickOneSource | core/refresh_scheduler.py:150-224 | one source's share of a tick is the retry policy's, touches only its own record and state, and adds at most one job |
| RefreshScheduler.Scheduler.TickOnce | core/refresh_scheduler.py:128-224 | every source gets its share independently of the others, and the queue grows by their jobs in order |
| LogControl.EvaluateKeepsBounded | ui-react/src-tauri/src/scraper.rs:209-276 | judging a line keeps the three tables on one key set of at most 257 entries, and at most 257 killed tasks |
| LogControl.CleanupKeepsBounded | ui-react/src-tauri/src/scraper.rs:278-282 | so does cleaning up a task |
| LogControl.LogControlState.EvaluateLog | ui-react/src-tauri/src/scraper.rs:209-276 | the in-place updates give the functional judgement |
| LogControl.LogControlState.CountDuplicate | ui-react/src-tauri/src/scraper.rs:231-250 | the streak of equal lines after this one, and whether it is to be dropped |
| LogControl.LogControlState.CountBurst | ui-react/src-tauri/src/scraper.rs:252-260 | the window after one more line: a new one when none is open or 2000 ms are over |
| LogControl.LogControlState.CleanupTask | ui-react/src-tauri/src/scraper.rs:278-282 | removes the task from the three tables and leaves the killed set |
| LogControl.WindowBound | ui-react/src-tauri/src/scraper.rs:252-270 | from any state of a task, within 2000 ms at most what is left of its window plus one more window is emitted, and one more each time the task is forgotten |
| LogControl.RunOfEqualLines | ui-react/src-tauri/src/scraper.rs:227-250 | of a maximal run of equal lines at most three are emitted, and three more each time the task is forgotten within it |
| LogControl.NothingAfterKill | ui-react/src-tauri/src/scraper.rs:223-225 | until the task is taken off the killed list nothing of it is emitted |
| LogControl.RunOnTask | ui-react/src-tauri/src/scraper.rs:209-282 | in any run of lines and cleanups, tasks disturb each other only by filling the tables: a task is judged as if it were alone with the moments at which it is forgotten or forgiven |
| LogControl.BurstBound | ui-react/src-tauri/src/scraper.rs:209-282 | from any state, in any 2000 ms of any run, at most 360 lines of a task are emitted, plus 180 each time it is forgotten by a cleanup or a full table |
| LogControl.NothingForgotten | ui-react/src-tauri/src/scraper.rs:210-217 | if the tasks tracked at the start and those logged are at most 256 together and the task is not cleaned up, it is never forgotten |
| LogControl.BurstBoundWhenTracked | ui-react/src-tauri/src/scraper.rs:209-276 | in such a run the bound is 360 |
| LogControl.CleanupReopens | ui-react/src-tauri/src/scraper.rs:278-282 | a run emitted in full: up to 180 lines after every cleanup, all at one time; the bound needs its last term |
| LogControl.SilentAfterKill | ui-react/src-tauri/src/scraper.rs:209-225 | in any run nothing of a killed task is emitted before the call that empties the killed list |
| LogControl.NothingForgiven | ui-react/src-tauri/src/scraper.rs:210-212 | if the killed tasks and those logged are at most 256 together there is no such call |
| LogControl.ErrorLogs.PushErrorLog | ui-react/src-tauri/src/scraper.rs:285-296 | each source keeps exactly its last 80 error lines |
| LogLaws.KeyExactly | ui-react/src-tauri/src/scraper.rs:227-230 | lines without a bar in source, stage and level count as equal if and only if they agree in source, stage, level and message |
| LogLaws.KeysCollide | ui-react/src-tauri/src/scraper.rs:227-230 | with bars, lines that differ may count as equal |
| LogLaws.NeverConfused | ui-react/src-tauri/src/scraper.rs:227-230 | a line has the key of no different line if and only if none of its four fields holds a bar |
| LogLaws.LineJudged | ui-react/src-tauri/src/scraper.rs:219-276 | a line is judged by the history of its task: the 181st line and any later one of a window kills, a window reopening more than 2000 ms after it opened; else the fourth equal line in a row and those after it are dropped; else it is emitted |
| LogLaws.OthersKept | ui-react/src-tauri/src/scraper.rs:219-276 | the histories of other tasks are untouched |
| LogLaws.SpecialLines | ui-react/src-tauri/src/scraper.rs:219-225 | lines without a task are always emitted, those of a killed task never, and "unknown" is never killed |
| LogLaws.FullTables | ui-react/src-tauri/src/scraper.rs:210-217 | over 256 entries the killed list is emptied before the line is judged, and so are the other three tables together |
| LogLaws.CleanedExactly | ui-react/src-tauri/src/scraper.rs:278-282 | cleaning up forgets the lines of the task and nothing else |
| LogLaws.KeptErrors | ui-react/src-tauri/src/scraper.rs:285-296 | the kept error lines of a source are the last 80 pushed for it, all if they are fewer |
| StartupMigration.UpsertTwice | core/storage/sqlite_runtime_repo.py:89-125 | a batch written over an earlier attempt with the same ids leaves no trace of it |
| StartupMigration.ValidationPasses | core/storage/migration.py:156-169 | the row count validation never fails after its batch, even with repeated ids |
| StartupMigration.RepairIsNoOp | core/storage/migration.py:197-238 | with rows for all ids of the migrated file the repair changes nothing |
| StartupMigration.MigratedIsSettled | core/storage/migration.py:273-305 | after the file was migrated that is so for good |
| StartupMigration.AttemptResumes | core/storage/migration.py:350-392 | from a steady state, one attempt cut off before any committed write, then a full run, ends as one full run would have; steady means that the sources still to be migrated give the repair nothing more to do |
| StartupMigration.CrashesLeaveNoTrace | core/storage/migration.py:350-392 | from a steady state, the same after any number of attempts, in every table, file and error, at clock readings of those attempts |
| StartupMigration.CrashIdempotent | core/storage/migration.py:368-392 | from a steady state with stamped records, any crashes and then a full run give the tables, files and outcome of one uninterrupted run at any time |
| StartupMigration.CrashDiffers | core/storage/migration.py:350-392 | from a state that is not steady, a crash between the upsert of the sources and their rename makes the next full run repair what an uninterrupted run leaves |
| StartupMigration.UnsteadyDiffers | core/storage/migration.py:197-238 | and without any crash, the next run changes the runtime table again |
| StartupMigration.IdempotentExactly | core/storage/migration.py:368-392 | with stamped records, runs that are cut off make no difference if and only if the state is steady |
| StartupMigration.MigrateTwice | core/storage/migration.py:368-392 | after a run that ended, running again changes nothing if and only if the state was steady |
| MigrationStore.Store.UpsertMigrationLatest | core/storage/sqlite_runtime_repo.py:85-127 | the loop writes the batch, the last record of an id winning, and returns the ids as they first appear |
| MigrationStore.Store.UpsertMigrationResources | core/storage/sqlite_resource_repo.py:82-108 | the same for sources; the views loop (lines 222-248) is the same code on another table |
| MigrationStore.Store.MigrateDataChunk | core/storage/migration.py:273-305 | checks, upsert, validation, rename or repair of data.json as one uninterrupted stage |
| MigrationStore.Store.MigrateResourceChunk | core/storage/migration.py:308-337 | the same stage for sources.json and views.json |
| MigrationStore.Store.RunStartupMigration | core/storage/migration.py:368-392 | the loop over the files equals the run without crash; an error stops it where it stands |
| MigrationStore.RepairDependsOnCrash | core/storage/migration.py:218-225 | for any two ids, a state in which a crash makes the repair write a row that an uninterrupted run does not |
| MigrationLaws.IdExactly | core/storage/sqlite_runtime_repo.py:89-104 | the id of a record is its text without the white space around it |
| MigrationLaws.DataFileExactly | core/storage/migration.py:273-305 | data.json is refused as a whole if a record has no id; otherwise the last record of each id is written with its data, times completed, other rows stay, and the file is renamed |
| MigrationLaws.OtherFilesExactly | core/storage/migration.py:273-305 | a file that cannot be read fails, a file that is absent or was migrated before without repair changes nothing |
| MigrationLaws.RepairExactly | core/storage/migration.py:197-238 | the repair does nothing if no row it looks for is missing; otherwise the last record of each id is written as it is and other rows stay |
| MigrationLaws.ResourceFileExactly | core/storage/migration.py:308-337 | every payload of sources or views is written as it is, the last of an id winning, other rows stay, and the file is renamed |
| MigrationLaws.OtherResourceFiles | core/storage/migration.py:308-337 | absent, migrated and unreadable files of sources and views |
| MigrationLaws.RunExactly | core/storage/migration.py:350-392 | data, sources, views in this order; an error in one ends the run there |
| ViewSaveQueue.SaveQueue.Enqueue | ui-react/src/pages/viewSaveQueue.ts:56-59 | replaces the pending view and starts the loop unless it runs |
| ViewSaveQueue.SaveQueue.RunLoop | ui-react/src/pages/viewSaveQueue.ts:25-30 | a running loop is not started again |
| ViewSaveQueue.SaveQueue.LoopTurn | ui-react/src/pages/viewSaveQueue.ts:32-36 | takes the pending view and starts its save, or goes on to draining |
| ViewSaveQueue.SaveQueue.OnSaveEnded | ui-react/src/pages/viewSaveQueue.ts:35-41 | goes on after a save however it ended; an error handler that throws leaves the loop for draining |
| ViewSaveQueue.SaveQueue.OnDrainEnded | ui-react/src/pages/viewSaveQueue.ts:42-51 | ends the loop however draining ended, and starts it again for a view that came meanwhile |
| ViewSaveQueue.StepKeepsValid | ui-react/src/pages/viewSaveQueue.ts:22-60 | every step keeps: a pending view means the loop runs, and saved plus pending views are a subsequence of the enqueued ones that ends in the newest |
| ViewSaveQueue.NoLostSave | ui-react/src/pages/viewSaveQueue.ts:22-60 | in every reachable state no save is lost, and at rest the last view saved is the last one enqueued, even if error handlers throw |
| ViewSaveQueue.OneSaveAtATime | ui-react/src/pages/viewSaveQueue.ts:33-37 | a save starts only when none is in flight |
| ViewSaveQueue.ComesToRest | ui-react/src/pages/viewSaveQueue.ts:25-51 | after the last enqueue at most four callbacks end before the queue rests |
| ViewSaveQueue.EnqueueExactly | ui-react/src/pages/viewSaveQueue.ts:56-59 | a view that comes in is saved at once if the queue rests, and otherwise waits instead of the one that waited |
| ViewSaveQueue.SaveEndExactly | ui-react/src/pages/viewSaveQueue.ts:32-41 | after a save, failed or not, the view that waits is saved; with none, or when the error handler threw, the loop drains |
| ViewSaveQueue.DrainEndExactly | ui-react/src/pages/viewSaveQueue.ts:42-51 | after draining the queue rests, or saves the view that came in meanwhile |
| ViewSaveQueue.DrainsWhenEmpty | ui-react/src/pages/viewSaveQueue.ts:32-48 | draining begins only when no view waits, unless an error handler threw |

## Left out

- Bytes beyond ASCII and their lossy decoding in the request reader, Unicode white space in the request line and headers, and socket read errors.
- The proxy's connection handling and the way back from the backend to the client.
- HttpRoundTrip.RoundTripThroughReads: requires the outbound header section to stay within the reader's limit, because Host and Connection can lengthen it beyond.
- TemplateResolver.ResolveTextRefines: requires templates and scopes without NUL; for text without braces and doubled backslashes the exact condition is proved instead (`TemplateLaws.OrdinaryTextKept`).
- Decimal digits outside ASCII in escape tokens, the digit limit of Python's `int`, and the bare `except` around the resolver that returns the template itself.
- `str()` of a value: a value carries its text.
- The single-flight set and the semaphore of `fetch_source`: one set membership and a counter.
- Task ids are assumed fresh; concurrency inside the task store, whose operations run under one lock.
- The failure handler's classification of reasons and the other scraper routes, which pass their arguments through.
- ScraperApi.EffectsAtMostOnce: says nothing about a process that dies between the effects; they are ordered but not atomic in the source.
- Socket sends and disconnects of the update stream, beyond the order of subscribe, replay and send.
- JSON formatting, Python's equality of 1 and True, and properties that are not objects.
- RefreshScheduler.Scheduler.TickOnce: other components write no records while the tick runs, and the tick's several clock readings are one.
- `start` called while `stop` still waits for its workers; effective refresh intervals are parameters, the choice among source, integration and global settings is one branch each.
- The contents of an interaction, which is kept as text, and record entries of the wrong type, which count as absent.
- LogControl.BurstBound: excludes tasks named "unknown", whose lines are dropped as duplicates but not limited.
- StartupMigration.CrashIdempotent: the times at which rows of sources and views were written are aside, because every attempt reads the clock again; one clock reading stands for a file.
- JSON parsing, the accepted shapes of a payload and record validation: a file parses to records or is malformed. SQLite errors and failing renames.
- Step executors, token exchange, settings, routing, the desktop windows and the user interface.
