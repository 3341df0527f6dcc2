# Verified models of five cores of Akka

This project models five self-contained cores of the repository in Dafny and proves what they are for.
`dafny verify dfyconfig.toml` checks all of it.

**Transactions.** `AtomicTemplate` runs a body inside a transaction, retries it after conflicts, and joins
an enclosing transaction instead of starting one. `Stm` states the contract that the template assumes of
the Multiverse library: one committed store, transactions with a snapshot and a private buffer, one
thread-local slot. In particular `abortAndWaitForRetry` is assumed to leave the transaction usable again,
since the template never restarts it on that path. An adversary's script decides what every attempt does,
how it ends, what other threads commit meanwhile and whether a commit is granted; a script that stops early
leaves the run `Running`, so statements about all scripts are statements about all prefixes of all runs.
`TemplateSpec` gives the meaning of a run, `AtomicTemplate` the objects that refine it, and
`TemplateProperties`, `TemplateFlattening`, `TemplateAtomicity`, `TemplateReach`, `TemplateLifecycle`,
`TemplateStore`, `TemplateCounts` and `TemplateReadonly` the theorems. `InMemState` and `InMemReturns` add the
transactional bodies of the two stateful test objects.

**Remote message codec.** `WireFormat` and `WireProperties` are the Protocol Buffers encoding at the level of
bytes, and `WireLayout` and `MessageLayout` say what these are. `Messages` and `MessageProperties` define
parsing, merging and writing for any table of fields and prove the laws. `RemoteRequest` and `RemoteReply` are
the generated classes with their fields, presence flags, one-shot builders and memoized sizes, proved against
those definitions. `BuilderSession` says what any sequence of calls on any number of them means, and
`RequestSession` and `ReplySession` run it in one heap.

**Sizzle's caches.** Ancestor search and `:nth-child` mark DOM nodes in one shared field. `Dom` has the tree
and the arithmetic of `an+b`, `Sizzle` the engine, and `SizzleAnswers` says what it answers without them.

**SyntaxHighlighter.** `Tabs` is the tab expansion, `Highlighter` suppression and emission of matches, and
`HighlighterStyles` the style of every character.

**Descendant selectors.** `Selector` is `document.getElementsBySelector` for tag and class tokens, and
`SelectorAnswers` says what it returns.

## Where code and expectations differ

The model follows the code; each difference is a lemma.

- `getAttemptCount` is documented as always larger than zero. It is 0 in a new template that joins, and the
  counter wraps (`AttemptCountIsPositive`, `JoiningTemplateShowsZero`).
- A body that runs its own template on another transaction resets the counter that the outer loop goes by, so
  the retry count no longer bounds the attempts (`ReentryNeverGivesUp`). It does where no called template is
  the running one (`BoundWithoutReentry`), and the count is right exactly if attempts leave it (`CountsUpExactly`).
- A body that aborts its transaction by itself has it aborted twice (`AbortsOfAttempt`, `SelfAbortIsAbortedTwice`).
- Templates nested in a body flatten into one only while the transaction is active. A body that aborts and
  then calls a template lets that template commit on its own (`FlattensExactly`, `WriteOutlivesSelfAbort`).
- A message whose unknown records include one of its own fields is not parsed back as it was (`RoundTrip`,
  `OwnFieldAmongUnknown`, `RequestDoesNotComeBack`). It takes the inherited `setUnknownFields` or
  `mergeUnknownFields` to make such a message (`BuiltMessagesComeBack`).
- Two matches with the same start are both emitted, so their common text appears twice (`EmissionConserves`,
  `SharedStartIsDoubled`).
- On a node outside any parent the `:nth-child` test uses whatever index the node had before (`IsNth`,
  `LeftoverDecides`, `DetachedChildIsNumbered`).
- Class tokens are matched at word boundaries and not as whitespace-separated words (`ClassIsNeverMissed`,
  `AlphabetDecides`, `FollowerDecides`, `ClassImagined`); an element is listed once per chain and not once
  (`Multiplicity`, `NestedIsRepeated`); and a tag token after tokens that select nothing makes the
  function return nothing at all, not an empty array.

## Model

| member | source | states |
|---|---|---|
| `AtomicTemplates.AtomicTemplate.Create` | akka-util-java/src/main/java/se/scalablesolutions/akka/stm/AtomicTemplate.java:98-111 | a missing `stm` and a negative retry count are refused, in that order; anything else is kept as given, in a new object whose count is 0 |
| `AtomicTemplates.AtomicTemplate.Execute` | akka-util-java/src/main/java/se/scalablesolutions/akka/stm/AtomicTemplate.java:212-222 | the world of the run; a checked exception of the run leaves as the cause of an unchecked one, so none ever leaves by itself, and every other outcome leaves as it is |
| `AtomicTemplates.AtomicTemplate.ExecuteChecked` | akka-util-java/src/main/java/se/scalablesolutions/akka/stm/AtomicTemplate.java:236-291 | world, outcome and the field `attemptCount` of every template are those of the specified run `RunTemplate`: join a usable transaction, or own a new one and clear the slot at the end |
| `AtomicTemplates.AtomicTemplate.Retry` | akka-util-java/src/main/java/se/scalablesolutions/akka/stm/AtomicTemplate.java:243-284 | the while loop over the field `attemptCount`, which wraps and which the bodies can reset by calling the same template, refines the recursive specification of a run, for every adversary |
| `AtomicTemplates.AtomicTemplate.TryOnce` | akka-util-java/src/main/java/se/scalablesolutions/akka/stm/AtomicTemplate.java:246-281 | the body of the loop up to the increment of the field is one unfolding of the specified loop |
| `AtomicTemplates.AtomicTemplate.Attempt` | akka-util-java/src/main/java/se/scalablesolutions/akka/stm/AtomicTemplate.java:244-282 | one pass through the loop: begin, body, and the end of the attempt |
| `AtomicTemplates.AtomicTemplate.Finally` | akka-util-java/src/main/java/se/scalablesolutions/akka/stm/AtomicTemplate.java:249-280 | commit, three catch clauses and finally block with the flags `abort` and `reset`: who is aborted, restarted or committed, and what escapes |
| `AtomicTemplates.AtomicTemplate.ExecuteBody` | akka-util-java/src/main/java/se/scalablesolutions/akka/stm/AtomicTemplate.java:248 | the body of an attempt, which may call any templates on the same thread, this one included |
| `AtomicTemplates.AtomicTemplate.CallTemplate` | akka-util-java/src/main/java/se/scalablesolutions/akka/stm/AtomicTemplate.java:212-222 | a call of a template object, whichever it is, is the specified run of its configuration; by `execute` it hides checked exceptions, by `executeChecked` it ends as the run does |
| `TemplateProperties.CallEnds` | akka-util-java/src/main/java/se/scalablesolutions/akka/stm/AtomicTemplate.java:212-222 | the same for a call inside a body: only a result lets the body go on, and a checked exception comes out of `execute` with an unchecked one around it |
| `AtomicTemplates.AtomicTemplate.GetTransaction` | akka-util-java/src/main/java/se/scalablesolutions/akka/stm/AtomicTemplate.java:297-310 | together with `noUsableTransaction`, finds exactly the transaction that the template joins |
| `AtomicTemplates.AtomicTemplate.GetAttemptCount` | akka-util-java/src/main/java/se/scalablesolutions/akka/stm/AtomicTemplate.java:123-125 | the count that the specified run keeps for this template |
| `AtomicTemplates.AtomicTemplate.SetTransaction` | akka-util-java/src/main/java/se/scalablesolutions/akka/stm/AtomicTemplate.java:319-323 | writes the slot unless the template ignores it |
| `TemplateProperties.JoinsExactlyWhenActive` | akka-util-java/src/main/java/se/scalablesolutions/akka/stm/AtomicTemplate.java:238-239 | a template starts no transaction exactly when it respects the slot and the slot holds an active one |
| `TemplateProperties.JoiningBody` | akka-util-java/src/main/java/se/scalablesolutions/akka/stm/AtomicTemplate.java:288-298 | a joining body never commits, never touches the slot or another transaction, and records nothing but its own aborts |
| `TemplateFlattening.FlattensExactly` | akka-util-java/src/main/java/se/scalablesolutions/akka/stm/AtomicTemplate.java:236-291 | flattening: a tree of templates of any depth leaves the same world and outcome as one template with the inlined bodies, if and only if every call that is reached finds the transaction usable |
| `TemplateFlattening.BodyFlattens` | akka-util-java/src/main/java/se/scalablesolutions/akka/stm/AtomicTemplate.java:288-290 | one body whose reached calls join runs as its inlining, escaping exception and wrapping included |
| `TemplateFlattening.StrayCallShows` | akka-util-java/src/main/java/se/scalablesolutions/akka/stm/AtomicTemplate.java:238-241 | a reached call that does not join starts a transaction, so the run differs from the inlined one |
| `TemplateFlattening.TreeRunsAsOneTemplate` | akka-util-java/src/main/java/se/scalablesolutions/akka/stm/AtomicTemplate.java:236-291 | in particular trees flatten in which no template ignores the slot and no body calls a template after aborting |
| `TemplateProperties.IgnoringRun` | akka-util-java/src/main/java/se/scalablesolutions/akka/stm/AtomicTemplate.java:308-323 | a template that ignores the slot, and whose called templates do at any depth, runs as on an empty slot and gives the slot back as it was |
| `TemplateProperties.CalledJoinsOutside` | akka-util-java/src/main/java/se/scalablesolutions/akka/stm/AtomicTemplate.java:238-239 | why the called ones must: one that respects the slot joins the transaction found there, so its write is not in the transaction of the run |
| `TemplateAtomicity.BufferedIsAlone` | akka-util-java/src/main/java/se/scalablesolutions/akka/stm/AtomicTemplate.java:248-255 | buffered execution over a snapshot agrees with direct execution on every store that holds the same under the keys written |
| `TemplateAtomicity.Atomicity` | akka-util-java/src/main/java/se/scalablesolutions/akka/stm/AtomicTemplate.java:243-287 | an owning run returns with exactly the last attempt applied to the store at commit time, or leaves the store to the other threads |
| `TemplateAtomicity.AtomicIfReachedCallsJoin` | akka-util-java/src/main/java/se/scalablesolutions/akka/stm/AtomicTemplate.java:243-287 | the same under the condition of exact flattening, for the inlined body of the last attempt |
| `TemplateAtomicity.WriteOutlivesSelfAbort` | akka-util-java/src/main/java/se/scalablesolutions/akka/stm/AtomicTemplate.java:238-252 | the input outside that condition: after an abort by the body a called template commits on its own, and its write stays though the outer run throws |
| `TemplateLifecycle.Lifecycle` | akka-util-java/src/main/java/se/scalablesolutions/akka/stm/AtomicTemplate.java:240-287 | the events of its own transaction in every owning run, whatever its bodies call, are a word of the lifecycle automaton: attempts start active and end by failing or committing, every failure is answered by one abort of the template that fits it, nothing follows a commit, a slot that is respected ends empty; all aborts together are one per failure exactly when no body comes to abort the transaction, and the escaping exception is that of the last attempt or the last retried one |
| `TemplateLifecycle.EveryLoopLives` | akka-util-java/src/main/java/se/scalablesolutions/akka/stm/AtomicTemplate.java:244-284 | the invariant of the loop over any number of rounds behind it |
| `TemplateReach.RunTouches` | akka-util-java/src/main/java/se/scalablesolutions/akka/stm/AtomicTemplate.java:236-291 | frame of a run: of a transaction that was there before the log only gains aborts by bodies, exactly if one is reached, and its status only changes by them |
| `TemplateLifecycle.AbortsOfAttempt` | akka-util-java/src/main/java/se/scalablesolutions/akka/stm/AtomicTemplate.java:249-280 | a failed attempt of any body is aborted exactly once if and only if its script does not come to an abort of the transaction, in the body or in a template that joins it; a committed one never |
| `TemplateLifecycle.AbortedOnceWithoutAborts` | akka-util-java/src/main/java/se/scalablesolutions/akka/stm/AtomicTemplate.java:249-280 | a failed attempt whose joining body holds no abort, called bodies included, is aborted exactly once |
| `TemplateLifecycle.SelfAbortIsAbortedTwice` | akka-util-java/src/main/java/se/scalablesolutions/akka/stm/AtomicTemplate.java:274-276 | the input outside that condition: a body that aborts by itself is aborted once more |
| `TemplateLifecycle.LifeBalances` | akka-util-java/src/main/java/se/scalablesolutions/akka/stm/AtomicTemplate.java:274-279 | every permitted life has one abort by the template for each failure |
| `TemplateStore.RunRecorded` | akka-util-java/src/main/java/se/scalablesolutions/akka/stm/AtomicTemplate.java:243-291 | whatever bodies call, after any run the store is the old one with everything that other threads committed and every committed buffer on top, in the order of the log |
| `TemplateStore.OwnBufferIfReturned` | akka-util-java/src/main/java/se/scalablesolutions/akka/stm/AtomicTemplate.java:249-287 | and the buffer of an owning run is committed exactly once if the run returns and never otherwise |
| `TemplateReadonly.ReadonlyCommitsNothing` | akka-util-java/src/main/java/se/scalablesolutions/akka/stm/AtomicTemplate.java:293-295 | whatever its bodies do and call, the transaction of an owning run of a read-only template commits no write |
| `TemplateReadonly.ReadonlyLeavesTheStore` | akka-util-java/src/main/java/se/scalablesolutions/akka/stm/AtomicTemplate.java:293-295 | and where the called templates join, the run leaves the store to the other threads |
| `TemplateCounts.GuardUnderWrap` | akka-util-java/src/main/java/se/scalablesolutions/akka/stm/AtomicTemplate.java:246 | with 32-bit wrap-around the guard fails after retryCount + 1 rounds, and never for Integer.MAX_VALUE |
| `TemplateCounts.AttemptBound` | akka-util-java/src/main/java/se/scalablesolutions/akka/stm/AtomicTemplate.java:103-105 | at most retryCount + 1 attempts, all of them used when giving up, and with Integer.MAX_VALUE a run never gives up, for every owning run in which the attempts that ask for another one leave the count alone |
| `TemplateCounts.BoundWithoutReentry` | akka-util-java/src/main/java/se/scalablesolutions/akka/stm/AtomicTemplate.java:103-105 | so the bound holds of every owning run whose bodies call other templates only, at any depth and on any transaction |
| `TemplateCounts.CountsUpExactly` | akka-util-java/src/main/java/se/scalablesolutions/akka/stm/AtomicTemplate.java:244-281 | from turn to turn the field goes up by one, wrapped, if and only if every attempt that asks for another one leaves it as it found it |
| `TemplateCounts.RetriesForever` | akka-util-java/src/main/java/se/scalablesolutions/akka/stm/AtomicTemplate.java:246-282 | with Integer.MAX_VALUE an owning run goes on if and only if every attempt so far ended in a conflict, a load failure, a retry or a refused commit, or is still inside its body |
| `TemplateCounts.ReentryNeverGivesUp` | akka-util-java/src/main/java/se/scalablesolutions/akka/stm/AtomicTemplate.java:244-246 | where the bound fails: a template whose body runs the same template on a transaction of its own resets the count, and no number of attempts is enough |
| `TemplateCounts.AttemptCountIsPositive` | akka-util-java/src/main/java/se/scalablesolutions/akka/stm/AtomicTemplate.java:117-125 | if attempts leave the count alone, attempt n of an owning run sees n as a wrapped int; the documented "larger than zero" holds for all attempts if and only if there are at most 2^31 - 1, and in a joining run if and only if it held before |
| `TemplateCounts.AttemptCountAfter` | akka-util-java/src/main/java/se/scalablesolutions/akka/stm/AtomicTemplate.java:244-281 | the field after a run of a template not called by its own bodies: untouched by a joining run, else the wrapped number of the attempt that ended it or would have been next |
| `TemplateCounts.JoiningTemplateShowsZero` | akka-util-java/src/main/java/se/scalablesolutions/akka/stm/AtomicTemplate.java:288-290 | the first input that breaks the documented promise: a new template that joins shows 0 |
| `InMemState.InMemStateful.Success` | akka-fun-test-java/src/test/java/se/scalablesolutions/akka/api/InMemStateful.java:49-53 | the three updates in sequence are the specified body; a container that is not initialised and a reference that cannot be loaded stop it |
| `InMemState.InMemStateful.SuccessNested` | akka-fun-test-java/src/test/java/se/scalablesolutions/akka/api/InMemStateful.java:55-60 | the same with the call of the nested object at the end |
| `InMemState.InMemStateful.Failure` | akka-fun-test-java/src/test/java/se/scalablesolutions/akka/api/InMemStateful.java:62-68 | the three updates, then the exception of the failer |
| `InMemState.InMemStateful.FailureNested` | akka-fun-test-java/src/test/java/se/scalablesolutions/akka/api/InMemStateful.java:70-76 | the exception comes out of the nested object |
| `InMemState.SuccessIsAllOrNothing` | akka-fun-test-java/src/test/java/se/scalablesolutions/akka/api/InMemStateful.java:55-60 | a returned run has updated all six containers over what others committed; any other run none, wherever its attempts failed to load |
| `InMemState.FailureChangesNothing` | akka-fun-test-java/src/test/java/se/scalablesolutions/akka/api/InMemStateful.java:62-76 | neither overload of `failure` ever returns, and both leave every container as the other threads left it; they end with the expected exception, that of a container that is not initialised, or after too many load failures |
| `InMemState.PlainSuccessIsAllOrNothing` | akka-fun-test-java/src/test/java/se/scalablesolutions/akka/api/InMemStateful.java:49-53 | a returned `success(key, msg)` has updated its three containers and nothing else over what others committed, and any other run nothing |
| `InMemReturns.PlainSuccessReturns` | akka-fun-test-java/src/test/java/se/scalablesolutions/akka/api/InMemStateful.java:49-53 | if its first attempt is left alone, `success(key, msg)` returns with its three updates made if the map and the vector are initialised, and throws otherwise |
| `InMemReturns.NestedSuccessReturns` | akka-fun-test-java/src/test/java/se/scalablesolutions/akka/api/InMemStateful.java:55-60 | likewise with the nested object: all six updates if the maps and vectors of both are initialised |
| `InMemState.HistoryIsAllOrNothing` | akka-fun-test-java/src/test/java/se/scalablesolutions/akka/api/InMemStatefulNested.java:53-66 | after any sequence of runs, with load failures and interference, the six containers hold the updates of the returned runs in order, six for each, over what other threads committed, and no others |
| `InMemState.AloneUpdates` | akka-actors/src/main/scala/stm/TransactionalState.scala:139-144 | map update, vector append and reference swap, or nothing where a container is not initialised |
| `WireProperties.VarintRoundTrip` | akka-util-java/src/main/java/se/scalablesolutions/akka/nio/protobuf/RemoteProtocol.java:126-128 | a varint followed by anything reads back as its number and the rest (Protocol Buffers Encoding guide, Base 128 Varints) |
| `WireLayout.VarintLayout` | akka-util-java/src/main/java/se/scalablesolutions/akka/nio/protobuf/RemoteProtocol.java:126-128 | the bytes of a varint: the digits to the base 128, least significant first, the high bit on all but the last byte, no superfluous byte |
| `WireLayout.VarintRead` | akka-util-java/src/main/java/se/scalablesolutions/akka/nio/protobuf/RemoteProtocol.java:404-415 | reading any bytes as a varint: it ends with the first byte without the high bit, which must be among the first ten, and has the value of its digits; otherwise truncated or malformed |
| `WireLayout.RecordLayout` | akka-util-java/src/main/java/se/scalablesolutions/akka/nio/protobuf/RemoteProtocol.java:123-159 | records of every wire type as bytes, among them the examples of the encoding guide |
| `WireProperties.RecordRoundTrip` | akka-util-java/src/main/java/se/scalablesolutions/akka/nio/protobuf/RemoteProtocol.java:123-159 | a record of any wire type, groups included, reads back with the rest (Message Structure, Length-Delimited Records) |
| `WireProperties.RecordsRoundTrip` | akka-util-java/src/main/java/se/scalablesolutions/akka/nio/protobuf/RemoteProtocol.java:404-415 | a sequence of written records is tokenised into itself |
| `WireProperties.TokeniseConcat` | akka-util-java/src/main/java/se/scalablesolutions/akka/nio/protobuf/RemoteProtocol.java:404-415 | the records of two streams put together are those of the one and then of the other |
| `WireLayout.TruncatedIsRefused` | akka-util-java/src/main/java/se/scalablesolutions/akka/nio/protobuf/RemoteProtocol.java:323-337 | a stream that stops inside a record, groups included, is refused as malformed, wherever it stops |
| `WireLayout.MalformedIsRefused` | akka-util-java/src/main/java/se/scalablesolutions/akka/nio/protobuf/RemoteProtocol.java:323-337 | a stream that goes on after whole records with an error or an end-group tag is refused with that error |
| `WireLayout.UpperBitsAreDropped` | akka-util-java/src/main/java/se/scalablesolutions/akka/nio/protobuf/RemoteProtocol.java:422-424 | a field of 32 bits takes the low bits of a wider varint, and a flag is set if one of these is |
| `Messages.LastOneWins` | akka-util-java/src/main/java/se/scalablesolutions/akka/nio/protobuf/RemoteProtocol.java:397-464 | parsing in closed form: per field the last record of its wire type, everything else kept in order |
| `Messages.ParseSucceedsExactly` | akka-util-java/src/main/java/se/scalablesolutions/akka/nio/protobuf/RemoteProtocol.java:330-337 | on whole records `parseFrom` succeeds if and only if every required field occurs with its wire type |
| `MessageProperties.MergeIsAMonoid` | akka-util-java/src/main/java/se/scalablesolutions/akka/nio/protobuf/RemoteProtocol.java:358-395 | merging is associative with the default instance as unit on both sides |
| `MessageProperties.ParsingIsMerging` | akka-util-java/src/main/java/se/scalablesolutions/akka/nio/protobuf/RemoteProtocol.java:397-464 | parsing into a builder is merging in what the stream parses to by itself |
| `MessageProperties.ConcatenationIsMerge` | akka-util-java/src/main/java/se/scalablesolutions/akka/nio/protobuf/RemoteProtocol.java:358-464 | parsing two streams put together is parsing the first and merging in the second |
| `MessageProperties.FieldOrderIsIrrelevant` | akka-util-java/src/main/java/se/scalablesolutions/akka/nio/protobuf/RemoteProtocol.java:404-463 | streams with the same records of each number, in the same order per number, parse to the same message |
| `MessageProperties.AnyOrder` | akka-util-java/src/main/java/se/scalablesolutions/akka/nio/protobuf/RemoteProtocol.java:404-463 | in particular any reordering of records with distinct numbers |
| `MessageProperties.RoundTrip` | akka-util-java/src/main/java/se/scalablesolutions/akka/nio/protobuf/RemoteProtocol.java:123-159 | an initialised message is parsed back from its bytes, presence and unknown records included, if and only if no unknown record is one of its fields |
| `MessageProperties.UninitialisedIsRejected` | akka-util-java/src/main/java/se/scalablesolutions/akka/nio/protobuf/RemoteProtocol.java:330-334 | a message without a required field is refused when parsed back |
| `MessageProperties.FieldsForAnotherReader` | akka-util-java/src/main/java/se/scalablesolutions/akka/nio/protobuf/RemoteProtocol.java:1021-1076 | which fields of a written message a reader of any other table finds |
| `MessageProperties.RequestsAreNotReplies` | akka-util-java/src/main/java/se/scalablesolutions/akka/nio/protobuf/RemoteProtocol.java:770-775 | exactly when bytes of a request pass as a reply; without unknown records never |
| `MessageProperties.RepliesAreNotRequests` | akka-util-java/src/main/java/se/scalablesolutions/akka/nio/protobuf/RemoteProtocol.java:111-121 | exactly when bytes of a reply pass as a request; without unknown records never |
| `CodedStreams.VarintSizeIsExact` | akka-util-java/src/main/java/se/scalablesolutions/akka/nio/protobuf/RemoteProtocol.java:167-170 | the size computed for a varint is the number of its bytes |
| `CodedStreams.UInt64SizeIsExact` | akka-util-java/src/main/java/se/scalablesolutions/akka/nio/protobuf/RemoteProtocol.java:167-170 | the size computed for a number field is the number of its bytes |
| `CodedStreams.BytesSizeIsExact` | akka-util-java/src/main/java/se/scalablesolutions/akka/nio/protobuf/RemoteProtocol.java:175-178 | the size computed for a bytes field is the number of its bytes |
| `CodedStreams.BoolSizeIsExact` | akka-util-java/src/main/java/se/scalablesolutions/akka/nio/protobuf/RemoteProtocol.java:199-202 | the size computed for a flag is the number of its bytes |
| `MessageLayout.RequestLayout` | akka-util-java/src/main/java/se/scalablesolutions/akka/nio/protobuf/RemoteProtocol.java:123-159 | the bytes of a request: its present fields in the order of their numbers, each behind its tag byte, then the unknown records |
| `MessageLayout.ReplyLayout` | akka-util-java/src/main/java/se/scalablesolutions/akka/nio/protobuf/RemoteProtocol.java:777-804 | the bytes of a reply, likewise |
| `RemoteRequests.RemoteRequest.IsInitialized` | akka-util-java/src/main/java/se/scalablesolutions/akka/nio/protobuf/RemoteProtocol.java:111-121 | true if and only if all required fields are present |
| `RemoteRequests.RemoteRequest.ValueConforms` | akka-util-java/src/main/java/se/scalablesolutions/akka/nio/protobuf/RemoteProtocol.java:34-109 | in every state a message holds values that its own table of fields admits, so the laws of the codec apply to it |
| `RemoteRequests.RemoteRequest.WriteTo` | akka-util-java/src/main/java/se/scalablesolutions/akka/nio/protobuf/RemoteProtocol.java:123-159 | appends exactly the encoding of its present fields in order, then the unknown records |
| `RemoteRequests.RemoteRequest.GetSerializedSize` | akka-util-java/src/main/java/se/scalablesolutions/akka/nio/protobuf/RemoteProtocol.java:161-214 | the memo is -1 or exact before and after, and the answer is the number of bytes `writeTo` produces, as a Java int |
| `RemoteRequests.RemoteRequest.ComputeSize` | akka-util-java/src/main/java/se/scalablesolutions/akka/nio/protobuf/RemoteProtocol.java:161-214 | the sum over the fields is that number, under wrap-around of every addition |
| `RemoteRequests.Builder.Clear` | akka-util-java/src/main/java/se/scalablesolutions/akka/nio/protobuf/RemoteProtocol.java:298-305 | a new default message, or an exception after `build` |
| `RemoteRequests.Builder.Build` | akka-util-java/src/main/java/se/scalablesolutions/akka/nio/protobuf/RemoteProtocol.java:323-328 | hands out the message and keeps none if it is initialised; else throws and keeps it |
| `RemoteRequests.Builder.BuildParsed` | akka-util-java/src/main/java/se/scalablesolutions/akka/nio/protobuf/RemoteProtocol.java:330-337 | the same, except that a used-up builder fails on the missing message |
| `RemoteRequests.Builder.BuildPartial` | akka-util-java/src/main/java/se/scalablesolutions/akka/nio/protobuf/RemoteProtocol.java:339-347 | hands out the very message under construction and forgets it |
| `RemoteRequests.Builder.MergeFrom` | akka-util-java/src/main/java/se/scalablesolutions/akka/nio/protobuf/RemoteProtocol.java:358-395 | the message becomes the merge of both; the default instance is skipped even by a used-up builder |
| `RemoteRequests.Builder.MergeFromStream` | akka-util-java/src/main/java/se/scalablesolutions/akka/nio/protobuf/RemoteProtocol.java:397-464 | the tag loop applies exactly the records of the stream, stops at an end-group tag, and on malformed input keeps the fields but not the unknown records |
| `RemoteRequests.Builder.ParseTag` | akka-util-java/src/main/java/se/scalablesolutions/akka/nio/protobuf/RemoteProtocol.java:397-464 | one turn of the switch: a known tag of the right wire type, an unknown record, or the end of a group |
| `RemoteRequests.Builder.ParseField` | akka-util-java/src/main/java/se/scalablesolutions/akka/nio/protobuf/RemoteProtocol.java:418-462 | the field cases handle exactly the tags of their numbers and wire types, and decode as the record demands |
| `RemoteRequests.Builder.ParseFrom` | akka-util-java/src/main/java/se/scalablesolutions/akka/nio/protobuf/RemoteProtocol.java:228-231 | the object-level parser is the specified one: same message, or the same error |
| `RemoteRequests.Builder.SetField` | akka-util-java/src/main/java/se/scalablesolutions/akka/nio/protobuf/RemoteProtocol.java:467-678 | each setter makes its one field present with the value and leaves the rest; it throws on null and after `build` |
| `RemoteRequests.Builder.ClearField` | akka-util-java/src/main/java/se/scalablesolutions/akka/nio/protobuf/RemoteProtocol.java:467-678 | each clearer makes its one field absent and leaves the rest; it throws after `build` |
| `RemoteReplies.RemoteReply.IsInitialized` | akka-util-java/src/main/java/se/scalablesolutions/akka/nio/protobuf/RemoteProtocol.java:770-775 | true if and only if all required fields are present |
| `RemoteReplies.RemoteReply.ValueConforms` | akka-util-java/src/main/java/se/scalablesolutions/akka/nio/protobuf/RemoteProtocol.java:714-768 | in every state a message holds values that its own table of fields admits, so the laws of the codec apply to it |
| `RemoteReplies.RemoteReply.WriteTo` | akka-util-java/src/main/java/se/scalablesolutions/akka/nio/protobuf/RemoteProtocol.java:777-804 | appends exactly the encoding of its present fields in order, then the unknown records |
| `RemoteReplies.RemoteReply.GetSerializedSize` | akka-util-java/src/main/java/se/scalablesolutions/akka/nio/protobuf/RemoteProtocol.java:806-847 | the memo is -1 or exact before and after, and the answer is the number of bytes `writeTo` produces, as a Java int |
| `RemoteReplies.RemoteReply.ComputeSize` | akka-util-java/src/main/java/se/scalablesolutions/akka/nio/protobuf/RemoteProtocol.java:806-847 | the sum over the fields is that number, under wrap-around of every addition |
| `RemoteReplies.Builder.Clear` | akka-util-java/src/main/java/se/scalablesolutions/akka/nio/protobuf/RemoteProtocol.java:931-938 | a new default message, or an exception after `build` |
| `RemoteReplies.Builder.Build` | akka-util-java/src/main/java/se/scalablesolutions/akka/nio/protobuf/RemoteProtocol.java:956-961 | hands out the message and keeps none if it is initialised; else throws and keeps it |
| `RemoteReplies.Builder.BuildParsed` | akka-util-java/src/main/java/se/scalablesolutions/akka/nio/protobuf/RemoteProtocol.java:963-970 | the same, except that a used-up builder fails on the missing message |
| `RemoteReplies.Builder.BuildPartial` | akka-util-java/src/main/java/se/scalablesolutions/akka/nio/protobuf/RemoteProtocol.java:972-980 | hands out the very message under construction and forgets it |
| `RemoteReplies.Builder.MergeFrom` | akka-util-java/src/main/java/se/scalablesolutions/akka/nio/protobuf/RemoteProtocol.java:991-1019 | the message becomes the merge of both; the default instance is skipped even by a used-up builder |
| `RemoteReplies.Builder.MergeFromStream` | akka-util-java/src/main/java/se/scalablesolutions/akka/nio/protobuf/RemoteProtocol.java:1021-1076 | the tag loop applies exactly the records of the stream, stops at an end-group tag, and on malformed input keeps the fields but not the unknown records |
| `RemoteReplies.Builder.ParseTag` | akka-util-java/src/main/java/se/scalablesolutions/akka/nio/protobuf/RemoteProtocol.java:1021-1076 | one turn of the switch: a known tag of the right wire type, an unknown record, or the end of a group |
| `RemoteReplies.Builder.ParseField` | akka-util-java/src/main/java/se/scalablesolutions/akka/nio/protobuf/RemoteProtocol.java:1042-1074 | the field cases handle exactly the tags of their numbers and wire types, and decode as the record demands |
| `RemoteReplies.Builder.ParseFrom` | akka-util-java/src/main/java/se/scalablesolutions/akka/nio/protobuf/RemoteProtocol.java:861-864 | the object-level parser is the specified one: same message, or the same error |
| `RemoteReplies.Builder.SetField` | akka-util-java/src/main/java/se/scalablesolutions/akka/nio/protobuf/RemoteProtocol.java:1079-1234 | each setter makes its one field present with the value and leaves the rest; it throws on null and after `build` |
| `RemoteReplies.Builder.ClearField` | akka-util-java/src/main/java/se/scalablesolutions/akka/nio/protobuf/RemoteProtocol.java:1079-1234 | each clearer makes its one field absent and leaves the rest; it throws after `build` |
| `RequestSession.Run` | akka-util-java/src/main/java/se/scalablesolutions/akka/nio/protobuf/RemoteProtocol.java:339-347 | any run of all calls on any number of builders and built requests in one heap behaves as independent values do: a built request never changes and every reported size is exact |
| `ReplySession.Run` | akka-util-java/src/main/java/se/scalablesolutions/akka/nio/protobuf/RemoteProtocol.java:972-980 | the same for replies |
| `BuilderSession.OneMessageEach` | akka-util-java/src/main/java/se/scalablesolutions/akka/nio/protobuf/RemoteProtocol.java:339-347 | in every run of calls each builder hands out at most one message and is used up from then on |
| `BuilderSession.BuiltMessagesComeBack` | akka-util-java/src/main/java/se/scalablesolutions/akka/nio/protobuf/RemoteProtocol.java:323-337 | every initialised message that any such run builds is parsed back equal, unless unknown records were set by hand that are its own fields |
| `BuilderSession.OwnFieldAmongUnknown` | akka-util-java/src/main/java/se/scalablesolutions/akka/nio/protobuf/RemoteProtocol.java:397-464 | with such a record the parsed message has its value in place of the field, so it is not the message that was written |
| `BuilderSession.RequestDoesNotComeBack` | akka-util-java/src/main/java/se/scalablesolutions/akka/nio/protobuf/RemoteProtocol.java:397-464 | a concrete request with a second id among its unknown records |
| `RequestSession.WriteAndParse` | akka-util-java/src/main/java/se/scalablesolutions/akka/nio/protobuf/RemoteProtocol.java:228-231 | writing and parsing a request object gives the same request, exactly when no unknown record is one of its fields |
| `ReplySession.WriteAndParse` | akka-util-java/src/main/java/se/scalablesolutions/akka/nio/protobuf/RemoteProtocol.java:861-864 | the same for replies |
| `Sizzle.Engine.SearchIsNearest` | docs/scaladocs-akka-actors/jquery-1.3.2.js:685-719 | the uncached reference: the nearest ancestor that stops the search, or false if none does |
| `Sizzle.Engine.Walk` | docs/scaladocs-akka-actors/jquery-1.3.2.js:685-719 | after `q` or `t` towards the parent every slot that held a node has the uncached answer of its parent, every other slot is false; also for slots overwritten in place and in XML mode |
| `SizzleAnswers.WalkAncestors` | docs/scaladocs-akka-actors/jquery-1.3.2.js:685-719 | the same in plain terms: by name or part a slot that held a node ends up with the nearest ancestor that has the name or fits the part, and false exactly if there is none; for a given node with true exactly if that is an element among the ancestors |
| `SizzleAnswers.NameIsFound` | docs/scaladocs-akka-actors/jquery-1.3.2.js:697-698 | the answer to a search by name: the nearest ancestor of that name |
| `SizzleAnswers.PartIsFound` | docs/scaladocs-akka-actors/jquery-1.3.2.js:714-715 | the answer to a search by a part: the nearest element ancestor of its name, or of any for the star, at its position |
| `SizzleAnswers.NodeIsFound` | docs/scaladocs-akka-actors/jquery-1.3.2.js:711-713 | the answer to a search for one node |
| `Sizzle.Engine.Climb` | docs/scaladocs-akka-actors/jquery-1.3.2.js:691-700 | the walk for one slot, which may stop at a node marked by an earlier one |
| `Sizzle.Engine.Visit` | docs/scaladocs-akka-actors/jquery-1.3.2.js:693-700 | one node: an earlier answer, a mark, and the test |
| `Sizzle.Engine.Mark` | docs/scaladocs-akka-actors/jquery-1.3.2.js:693-695 | marking a node keeps the invariant that marks point to the answers of their own nodes |
| `Sizzle.Engine.Stops` | docs/scaladocs-akka-actors/jquery-1.3.2.js:697-717 | the test by name, node or filter; a nested filter can take marks away but gives none of this walk |
| `Sizzle.Engine.Test` | docs/scaladocs-akka-actors/jquery-1.3.2.js:455-478 | filtering one node by nth-child and tag name, under a stamp of its own |
| `Sizzle.Engine.NewChildStamp` | docs/scaladocs-akka-actors/jquery-1.3.2.js:525-530 | every nth-child test gets a stamp that no node carries yet |
| `Sizzle.Engine.IsNth` | docs/scaladocs-akka-actors/jquery-1.3.2.js:583-594 | the cached test equals "position = a*n+b for some n >= 0" on every node with a parent; without a parent it goes by the index left over |
| `Sizzle.LeftoverDecides` | docs/scaladocs-akka-actors/jquery-1.3.2.js:586-593 | that agrees with the plain test exactly where no index is left over that is in the cycle |
| `Sizzle.DetachedChildIsNumbered` | docs/scaladocs-akka-actors/jquery-1.3.2.js:586-593 | the input where it does not: a child tested, taken out of its parent, and tested again |
| `Sizzle.Engine.Renumber` | docs/scaladocs-akka-actors/jquery-1.3.2.js:587-591 | renumbering one parent disturbs no numbering that another current stamp vouches for |
| `Sizzle.Engine.Number` | docs/scaladocs-akka-actors/jquery-1.3.2.js:587-590 | the sibling loop gives every element child its 1-based position among elements |
| `Dom.CycleTestIsExact` | docs/scaladocs-akka-actors/jquery-1.3.2.js:591-593 | the test by `%` and `/`, for negative and zero steps too, is membership in the cycle (Selectors Level 3, section 6.6.5.2) |
| `Dom.PositionAt` | docs/scaladocs-akka-actors/jquery-1.3.2.js:587-590 | the running count at a child is its position among the elements |
| `Dom.PositionIsCount` | docs/scaladocs-akka-actors/jquery-1.3.2.js:587-590 | the position of an element is one more than the number of element siblings before it |
| `SizzleAnswers.ChildAtIsExact` | docs/scaladocs-akka-actors/jquery-1.3.2.js:583-594 | the nth-child test counts these siblings, or outside any parent goes by the index left over |
| `Sizzle.Engine.Interleave` | docs/scaladocs-akka-actors/jquery-1.3.2.js:498-502 | for every interleaving of stamps, nth-child tests and ancestor searches over one tree, every reply is the reply without caches, whatever marks and indices were there |
| `SizzleAnswers.ReferenceIsReply` | docs/scaladocs-akka-actors/jquery-1.3.2.js:525-530 | what the replies without caches are, in terms of names, types, ancestors and siblings |
| `Sizzle.Engine.Edit` | docs/scaladocs-akka-actors/jquery-1.3.2.js:525-530 | any rearrangement of the tree keeps the invariant on which all answers rest, for the stamps given out from then on |
| `Tabs.ProcessLine` | docs/scaladocs-akka-actors/_highlighter/shAll.js:125-130 | replacing the first tab until there is none ends, although the line grows, and gives the one-pass expansion |
| `Tabs.StopDistance` | docs/scaladocs-akka-actors/_highlighter/shAll.js:127 | `K - L % K` is the distance to the next tab stop |
| `Tabs.InsertSpaces` | docs/scaladocs-akka-actors/_highlighter/shAll.js:118-125 | cuts out one character and puts the spaces in its place |
| `Tabs.CharactersAtTheirColumns` | docs/scaladocs-akka-actors/_highlighter/shAll.js:118-130 | every other character stands at its tab-stop column, in order; a tab turns into blanks up to a multiple of the tab size, at most one tab size of them |
| `Tabs.Idempotent` | docs/scaladocs-akka-actors/_highlighter/shAll.js:125-130 | a processed line is processed to itself |
| `Tabs.ProcessSmartTabs` | docs/scaladocs-akka-actors/_highlighter/shAll.js:114-134 | the lines of the result are the processed lines of the code, and one empty line more |
| `Tabs.FourColumns` | docs/scaladocs-akka-actors/_highlighter/shAll.js:116-134 | tab stops are every four columns, and lines end at a newline |
| `Highlighter.CallbackIsConsistent` | docs/scaladocs-akka-actors/_highlighter/shAll.js:69-74 | the sort callback is antisymmetric and transitive, and ties are interchangeable, so a sort by it gives a sorted list |
| `Highlighter.GreedyIsExact` | docs/scaladocs-akka-actors/_highlighter/shAll.js:197-201 | for sorted matches the left-to-right choice is the only list in which exactly those are missing that start strictly inside one that is left |
| `HighlighterStyles.SuppressedExactly` | docs/scaladocs-akka-actors/_highlighter/shAll.js:102-109 | in terms of positions: missing are exactly the matches with text that start behind the start and before the end of one that is left |
| `Highlighter.Highlighter.IsInside` | docs/scaladocs-akka-actors/_highlighter/shAll.js:102-109 | true if and only if the match has text and starts strictly inside one that is left |
| `Highlighter.Highlighter.Suppress` | docs/scaladocs-akka-actors/_highlighter/shAll.js:198-201 | suppressing in place while asking the whole list makes the greedy choice |
| `Highlighter.Highlighter.AddBit` | docs/scaladocs-akka-actors/_highlighter/shAll.js:83-101 | a text that is not empty gives one span, or with a style one span for each line and breaks between them; all spans have the style given |
| `Highlighter.Highlighter.Emit` | docs/scaladocs-akka-actors/_highlighter/shAll.js:201-208 | the emission loop emits the specified pieces, and its cursor takes the specified values |
| `Highlighter.Highlighter.Highlight` | docs/scaladocs-akka-actors/_highlighter/shAll.js:192-208 | suppression and emission together, and the short way without matches |
| `Highlighter.SuppressedIsDisjoint` | docs/scaladocs-akka-actors/_highlighter/shAll.js:102-109 | what survives is in order and no survivor starts inside another |
| `Highlighter.CursorNeverMovesBack` | docs/scaladocs-akka-actors/_highlighter/shAll.js:201-208 | the cursor never moves back |
| `Highlighter.EmissionConserves` | docs/scaladocs-akka-actors/_highlighter/shAll.js:201-208 | the emitted pieces without the matches that are followed by one with the same start make up the code; all pieces together do if and only if no two emitted matches share a start |
| `HighlighterStyles.EachCharacterInItsStyle` | docs/scaladocs-akka-actors/_highlighter/shAll.js:201-208 | the emitted pieces, read character by character without the repeated matches, show the code with every character in the style of the last surviving match that covers it, newlines in matches as line breaks; without shared starts all pieces do |
| `HighlighterStyles.PositionInItsStyle` | docs/scaladocs-akka-actors/_highlighter/shAll.js:201-208 | for one position: the style of the match that covers it, or none if none does |
| `HighlighterStyles.HighlightText` | docs/scaladocs-akka-actors/_highlighter/shAll.js:192-208 | the whole highlighter shows every character in its style where no start is shared |
| `Highlighter.SharedStartIsDoubled` | docs/scaladocs-akka-actors/_highlighter/shAll.js:201-208 | where they do not: for a keyword that begins a longer match at the same place, both found in the code, the text comes out as the short one followed by the long one |
| `Highlighter.KeptText` | docs/scaladocs-akka-actors/_highlighter/shAll.js:201-208 | the text of the pieces that count, from any cursor on |
| `Highlighter.EmittedLength` | docs/scaladocs-akka-actors/_highlighter/shAll.js:201-208 | how much text is emitted too often |
| `Selector.Multiplicity` | deploy/root/javascripts/behaviour.js:112-244 | an element occurs in the result as often as there are chains of elements, each below the one before, that match the tokens and end at it |
| `Selector.NestedIsRepeated` | deploy/root/javascripts/behaviour.js:227-243 | a `p` inside n nested `div` is returned n times by `div p` |
| `Selector.ChainsAreExact` | deploy/root/javascripts/behaviour.js:118-243 | the nested loops visit every matching chain, each once, in document order of the first elements, then the second ones and so on, and nothing else |
| `Selector.ResultIsSelection` | deploy/root/javascripts/behaviour.js:227-243 | the result holds exactly the elements that the descendant combinator selects (Selectors Level 3, section 8.1) |
| `Selector.GetElementsBySelector` | deploy/root/javascripts/behaviour.js:118-244 | the bare `return` exactly when the tokens before some tag token select nothing; otherwise the ends of all matching chains in order |
| `SelectorAnswers.ElementsBySelector` | deploy/root/javascripts/behaviour.js:118-244 | the same in plain terms: nothing at all exactly if a tag token comes after tokens that no elements are nested for, and otherwise the elements down to which elements with the names and classes of the tokens are nested |
| `SelectorAnswers.ResultIsNested` | deploy/root/javascripts/behaviour.js:118-244 | an element is returned exactly if it ends such a nesting, ancestors being reached from parent to parent |
| `SelectorAnswers.OneTokenReturns` | deploy/root/javascripts/behaviour.js:136-166 | a single token returns exactly the elements with its name, whatever the case of letters, and its class between word boundaries in their class attribute |
| `SelectorAnswers.ClassIsReturned` | deploy/root/javascripts/behaviour.js:161 | `.w` returns every element that has the class w, if that begins and ends with a word character |
| `Selector.Step` | deploy/root/javascripts/behaviour.js:136-166 | one token continues every chain by every candidate below its end |
| `Selector.Descendants` | deploy/root/javascripts/behaviour.js:231-241 | the descendants of each context in turn, concatenated |
| `Selector.FilterByClass` | deploy/root/javascripts/behaviour.js:158-164 | keeps, in order, the elements whose class attribute passes the class test |
| `Selector.CandidatesAreExact` | deploy/root/javascripts/behaviour.js:145-164 | the candidates below a node are exactly its descendants that match the token, in document order |
| `Selector.GatheredIsExtended` | deploy/root/javascripts/behaviour.js:145-164 | filtering the concatenation is continuing the chains one by one |
| `Selector.ClassIsNeverMissed` | deploy/root/javascripts/behaviour.js:161 | the `\b` test finds a class wherever an element has it, if and only if the class begins and ends with a word character |
| `Selector.AlphabetDecides` | deploy/root/javascripts/behaviour.js:161 | over a set of characters the test finds nothing that is not there, in any attribute and for any class, if and only if all are word characters or spaces, or none is a word character |
| `Selector.FollowerDecides` | deploy/root/javascripts/behaviour.js:161 | followed by one more character the class is tested right if and only if that is a word character or a space; so `.nav` selects class `nav-bar` |
| `Selector.ClassImagined` | deploy/root/javascripts/behaviour.js:161 | for every class there is an attribute that passes the test without having the class |

## Left out

- The hooks `preStart`, `postStart`, `preCommit` and `postCommit` do nothing; a hook that throws is not modelled.
- Multiverse itself, real threads and blocking: `Stm` states the contract, and interference of other threads is a store update at the beginning of an attempt.
- Bodies that catch exceptions of their operations or of the templates they call.
- Atomicity: for a template that respects the slot and whose called templates all join; AtomicIfReachedCallsJoin weakens that to the calls that are reached, and beyond it the store is what RunRecorded says.
- AttemptCountAfter: for a template that its own bodies do not call; re-entry resets the field (`ReentryNeverGivesUp`).
- IgnoringRun: for bodies whose called templates ignore the slot too; otherwise the run is another one (`CalledJoinsOutside`).
- That `@transactionrequired` wraps every method in a template is an assumption; the code that does so is not part of this model.
- `init` of the stateful objects, and reads of the containers.
- Java strings are their UTF-8 bytes; decoding malformed UTF-8 is not modelled.
- Unknown fields are a list of records, not the library's set ordered by field number; order is compared per number (`SameMessage`).
- The library's limits on message size and on the depth of groups, streams, reflection, extension registries, `mergeDelimitedFrom`, and the `parseFrom` overloads that only read from elsewhere.
- The getters and `clone` of the builders.
- MergeFrom: the argument is a message other than the one under construction, which nothing outside the builder can reach.
- `ProtobufProtocol.java`, which has the same shape as the remote codec.
- Sizzle's `previousSibling` direction, which marks the starting element itself, and the rest of jQuery: selectors of other kinds, the parsing of nth-child arguments, events, effects.
- Regular expressions and HTML escaping in `shAll.js`: matches are any list, sorted by the callback; the sort is the engine's. The unindent helper is left out.
- ID and attribute tokens of `behaviour.js`, class names with characters special to regular expressions, and cutting the selector string into tokens.
- A condition on one attribute alone under which the class test finds nothing that is not there: what is found in one part of it may stand as a class in another: `a- a` has the class `a` in spite of its hyphen.
