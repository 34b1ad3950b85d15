# turbomcp: a verified model

A Dafny model of the parts of turbomcp, an SDK for the Model Context Protocol, whose
correctness is not obvious from any one function, with proofs of what they promise.
`dafny verify dfyconfig.toml` checks everything.

Code that works on shared state step by step is either a class whose methods are proved
against functions of the old and new state, or, where the point is how several tasks
interleave, a machine whose runs are lists of events. Theorems about runs hold for every
list of events.

| file | what it models |
|---|---|
| `ServeDriver.dfy` | the server's connection driver: one reader, one writer, spawned handlers, a semaphore and a bounded channel in one biased select loop, and its two-phase drain |
| `DraftTaskStore.dfy`, `TaskPolling.dfy` | the draft tasks registry, and its composition with the client that polls it and answers its input requests |
| `TaskStore.dfy`, `TaskWaiting.dfy` | the session-scoped task registry with pagination, and clients blocked on a task's result |
| `FlattenAllOf.dfy`, `FlattenTermination.dfy` | the `allOf` rewrite of JSON Schemas: what it leaves, and when it ends |
| `PlainSchemas.dfy`, `FlattenMeaning.dfy`, `FlattenDocument.dfy` | what the rewrite does to the meaning of one node, and of a whole document with its references followed |
| `ClosedSchemas.dfy` | merging schemas whose `additionalProperties` has any value |
| `FlattenExample.dfy` | a document the theorems about lossless rewriting apply to |
| `LineTransport.dfy` | newline framing over a byte stream in arbitrary chunks |
| `Utf8.dfy`, `Base64.dfy`, `HeaderCodec.dfy` | the codec for values in HTTP headers |
| `HeaderScan.dfy`, `HeaderKeywords.dfy`, `HeaderMirrors.dfy` | `x-mcp-header` annotations, the schemas refused for them, the mirrors a call carries, and the server's comparison of mirrors with the body |
| `StateToken.dfy` | signed resume-state tokens |
| `UriTemplate.dfy` | URI template matching and the macro's own scan of the template |
| `SessionStore.dfy` | the session table |
| `ResponseCache.dfy`, `CacheRace.dfy` | the client's response cache, and cached requests in flight while notifications arrive |
| `Elicitation.dfy`, `Mrtr.dfy`, `MrtrEquivalence.dfy`, `MrtrResume.dfy` | input requests, the multi-round-trip protocol, and its comparison with inline delivery |
| `ListChanged.dfy` | coalesced change notifications |
| `Connection.dfy` | request and response correlation in the client |
| `Wrappers.dfy`, `Json.dfy`, `Text.dfy`, `Decimal.dfy` | shared data types and text |

## Where the code does less than it says

Each of these is a lemma with the exact condition.

- The driver can deadlock: it waits for a permit inside the arm that reads, where its
  writer cannot run, so handlers that report progress, or tasks pushing through the
  connection's writer, can fill the channel. It is free of deadlock exactly under the
  condition of `ServeDriver.DeadlockFreeExactly`.
- The multi-round-trip loop replaces the answers of earlier rounds, so a handler that asks
  a second batch under new keys never ends: it alternates between two requests until the
  client gives up (`MrtrEquivalence.StatelessEnds`, `OtherwiseDiffers`). Resume state is
  the way out only for handlers whose batches each repeat questions just answered or use
  other keys than those, within 16 executions (`MrtrResume.ResumingIsInlineExactly`). A
  batch that shares some of its keys with the last alternates as before, and one that asks
  something else under the same keys is told the old answer (`ResumingEnds`).
- The client lets a parameter be mirrored under any header name; the server compares each
  header with the top-level argument of that name. A call of a tool whose annotation is
  named otherwise can be refused by its own server (`HeaderMirrors.EveryCallPassesExactly`;
  among calls with declared arguments only, `DeclaredCallsPassExactly`).
- Flattening an `allOf` can change what a schema means. A node's own `properties` and
  `required` replace those of its members, members that disagree on a type or a property override
  one another, and what stands beside a `$ref` is dropped. The node keeps its meaning
  exactly if all it intersects agrees on types and shared properties and nothing said below is
  overridden or dropped without being said again on the way up, through any number of
  references and nested intersections (`FlattenMeaning.FlatteningPreservesMeaning`).
  Inputs: `OwnPropertiesShadowMembers`, `DisagreeingMembers`, `DroppedSibling`.
- Merging closed schemas can open them: of two `additionalProperties` the first wins, and
  then governs the properties of both (`ClosedSchemas.MergeClosedExactly`,
  `ClosedMemberOpens`).
- Flattening does not end on schemas that lead back to themselves through what it keeps
  (`FlattenTermination.CircularDocumentsNeverEnd`), such as a recursive type that wraps the
  reference to itself in an `allOf` (`RecursivePropertyNeverEnds`). Where nothing is
  dropped it ends exactly if the definitions can be ranked (`EndsExactlyIfRanked`).
- A request issued while the connection is closing may end in a timeout although the
  documentation promises `Closed`: exactly if it registers after the table is cleared and
  its frame is still accepted by the queue (`Connection.ResultExactly`).
- The annotation scan takes names and data for keywords, and refuses schemas it should
  accept exactly if one of those, beside a property chain, is `x-mcp-header`
  (`HeaderKeywords.WronglyRefusedExactly`).
- The response cache evicts an entry when it is full even if the key to be stored is
  already in it, so the eviction was not needed (`ResponseCache.Cache.Store` says when).
- A notification handled between the arrival of a reply and the moment its caller stores
  it leaves an entry out of date until its lifetime ends; no other one does
  (`CacheRace.StaleExactly`, `StaleHappens`).
- Pages of size zero make a client follow cursors for ever (`TaskStore.PaginationExactly`).

## Model

| member | source | states |
|---|---|---|
| ServeDriver.DeadlockFreeExactly | crates/turbomcp-service/src/serve.rs:141-198 | for every capacity, no reachable state is stuck exactly when handlers write nothing to the channel, or each at most its one reply and nobody else holds the registered writer |
| ServeDriver.OneReplyNeverDeadlocks | crates/turbomcp-service/src/serve.rs:152-196 | with one reply per handler and no pushes, every reachable state with the driver not waiting for its peer has an enabled step |
| ServeDriver.ParkedReaderIsServed | crates/turbomcp-service/src/serve.rs:176-196 | while the reader is parked on a permit, handlers alone run for at most two steps per permit and one can always step until a permit is free |
| ServeDriver.SilentNeverDeadlocks | crates/turbomcp-service/src/serve.rs:176-196 | handlers that never write to the channel cannot deadlock the driver, even with others filling the channel |
| ServeDriver.NextStep | crates/turbomcp-service/src/serve.rs:141-238 | outside the wait for a permit the driver has a next step in every phase, whatever the load |
| ServeDriver.RoomyStep | crates/turbomcp-service/src/serve.rs:144-196 | room for all unsent replies, established by the poll that found the channel empty, is kept by every step until the read arm ends |
| ServeDriver.EveryReplyWrittenOnce | crates/turbomcp-service/src/serve.rs:122-238 | over every run: running handlers stay within capacity; without a failed write the wire is a prefix of what was queued, and all of it at close, with everything others pushed; without an abort each handler's frames are on the wire once, in order |
| ServeDriver.EventsAccountFor | crates/turbomcp-service/src/serve.rs:141-238 | in every run each frame received has one handler, or is in the read arm, or was given up when the service failed; each reap removed one finished handler; each frame queued is written, still queued or lost to a failed write; each pass of the loop takes one arm; the phases of the shutdown are entered by their causes only |
| ServeDriver.ShutdownCloses | crates/turbomcp-service/src/serve.rs:145-238 | after the peer's end of stream, the shutdown signal or a failure, in every run, the driver never polls, reads or spawns again, its steps and its handlers' are bounded by the work that was left and others' pushes, and until the transport is closed there is a next one |
| ServeDriver.ShutdownCanClose | crates/turbomcp-service/src/serve.rs:199-238 | and from every such state some of those steps alone close the transport |
| ServeDriver.NothingAfterClose | crates/turbomcp-service/src/serve.rs:221-238 | once the writer is unregistered nobody else pushes, and once the transport is closed nothing is queued or written |
| ServeDriver.DrainEndsExactly | crates/turbomcp-service/src/serve.rs:204-219 | at any moment of any run, once told to stop and until the drain is over: the deadline can abort the handlers exactly as long as one spawned is not reaped, a write can fail then exactly if a frame is queued, and the drain is complete exactly otherwise |
| ServeDriver.JamByProgress | crates/turbomcp-service/src/serve.rs:176-196 | handlers that push a frame before their reply can fill the channel while the reader is parked, at any capacity |
| ServeDriver.JamByPushes | crates/turbomcp-service/src/serve.rs:130-134 | so can other holders of the registered writer |
| DraftTaskStore.Registry.Create | crates/turbomcp-ext-tasks/src/store.rs:124-151 | creates a working task unless the purged table is at capacity, and keeps the registry invariant |
| DraftTaskStore.Registry.Complete | crates/turbomcp-ext-tasks/src/store.rs:157-174 | the first terminal transition wins; outstanding input is left alone |
| DraftTaskStore.Registry.Get | crates/turbomcp-ext-tasks/src/store.rs:177-181 | answers from the purged table, showing the outstanding requests exactly while input is required |
| DraftTaskStore.Registry.Cancel | crates/turbomcp-ext-tasks/src/store.rs:187-205 | matches exactly the unexpired tasks; a live one is cancelled, its token fired, its senders dropped |
| DraftTaskStore.Registry.PublishInput | crates/turbomcp-ext-tasks/src/store.rs:213-243 | refused exactly for unknown, expired or terminal tasks; else the request is outstanding under a fresh variant of its key with a channel of its own |
| DraftTaskStore.Registry.FreshKey | crates/turbomcp-ext-tasks/src/store.rs:227-233 | the search ends, with the key itself if it was never used, else the first unused numbered variant |
| DraftTaskStore.Registry.DeliverInputs | crates/turbomcp-ext-tasks/src/store.rs:250-271 | resolves exactly the outstanding keys among the responses, whatever their order, and reports whether the status changed |
| DraftTaskStore.Registry.Resolve | crates/turbomcp-ext-tasks/src/store.rs:254-264 | the loop over the responses has the same effect in every order |
| DraftTaskStore.Registry.PurgeExpired | crates/turbomcp-ext-tasks/src/store.rs:273-282 | drops exactly the expired tasks and fires the tokens of those still live |
| DraftTaskStore.PurgeExactly | crates/turbomcp-ext-tasks/src/store.rs:273-282 | a purge keeps exactly the tasks within their lifetimes, zero or none being for ever, and fires the tokens of the working ones it drops |
| DraftTaskStore.ViewsExactly | crates/turbomcp-ext-tasks/src/store.rs:157-205 | what `tasks/get` answers after each transition: status, message, result or error; terminal tasks stay as they are |
| DraftTaskStore.PublishKeepsOk | crates/turbomcp-ext-tasks/src/store.rs:213-243 | publishing keeps waiters equal to outstanding keys, within used keys, and input required exactly when something is outstanding |
| DraftTaskStore.DeliverKeeps | crates/turbomcp-ext-tasks/src/store.rs:250-271 | delivery keeps the table invariant and every channel unused until it is delivered to |
| DraftTaskStore.NotTried | crates/turbomcp-ext-tasks/src/store.rs:229-232 | the variants tried so far differ from the next, decimal suffixes being injective |
| TaskPolling.AnswersReachTheirRequests | crates/turbomcp-client/src/client.rs:783-864 | in every interleaving wire keys are issued once, what a handler receives is the client's answer to the very request it published, and at every poll no outstanding key is already answered |
| TaskPolling.PollSeesEveryLiveRequest | crates/turbomcp-client/src/client.rs:820-852 | so a poll of a live task shows the client every outstanding request; the dedup skips none |
| TaskPolling.AtMostOneValue | crates/turbomcp-ext-tasks/src/store.rs:213-271 | a handler's channel carries at most one value, for ever |
| TaskPolling.ClientReportsFirstOutcome | crates/turbomcp-client/src/client.rs:786-812 | what the loop returns is the task's first terminal transition; a completed task always has its result |
| TaskPolling.PollEndsExactly | crates/turbomcp-client/src/client.rs:785-812 | and the converse: in every run a poll ends the loop exactly with the first completion, failure or cancellation among the events, with its result or error; gives up if the task expired; and goes on if there was none |
| TaskPolling.ClientCanStep | crates/turbomcp-client/src/client.rs:785-864 | until it ends the loop has a next step, whatever the answers: each answer leaves one request less, then the answers are sent, and then it polls again |
| TaskPolling.UpdateResumes | crates/turbomcp-ext-tasks/src/store.rs:250-271 | sending the answers back resolves every waiting handler they were meant for, and the task works again exactly if nothing else is outstanding |
| TaskStore.Registry.Create | crates/turbomcp-server/src/tasks.rs:147-178 | creates a working task with its lifetime clamped, unless the purged table is full |
| TaskStore.Registry.Complete | crates/turbomcp-server/src/tasks.rs:183-201 | records the outcome of a live task and moves its watch version; a terminal or unknown one is untouched |
| TaskStore.Registry.Cancel | crates/turbomcp-server/src/tasks.rs:204-230 | not found for another session's task, refused for a terminal one, else cancelled with the cancellation error as its outcome |
| TaskStore.Registry.Get | crates/turbomcp-server/src/tasks.rs:233-240 | only the owner sees a task, and only until it expires |
| TaskStore.Registry.WaitUnderLock | crates/turbomcp-server/src/tasks.rs:279-297 | a terminal task is answered with the outcome recorded for it, never the fallback |
| TaskStore.Registry.List | crates/turbomcp-server/src/tasks.rs:244-269 | a malformed cursor is refused; otherwise a page of this session's tasks, oldest first |
| TaskStore.Registry.SortByCreated | crates/turbomcp-server/src/tasks.rs:256-261 | each task of the session once, in order of creation |
| TaskStore.PurgeExactly | crates/turbomcp-server/src/tasks.rs:305-314 | a purge keeps exactly the tasks within their lifetimes |
| TaskStore.LifetimeExactly | crates/turbomcp-server/src/tasks.rs:147-175 | the lifetime is what was asked for, five minutes by default, clamped to an hour |
| TaskStore.AnswersExactly | crates/turbomcp-server/src/tasks.rs:183-297 | what a waiter is answered after each transition, cancellation with its own error, and that another session is answered not found |
| TaskStore.PaginationExactly | crates/turbomcp-server/src/tasks.rs:244-269 | following cursors ends, having yielded every task once and in order, exactly when a page holds at least one task or there is none |
| TaskWaiting.NoLostWakeup | crates/turbomcp-server/src/tasks.rs:274-303 | in every interleaving a waiter parked on a terminal or purged task can run, and returns when it next takes the lock |
| TaskWaiting.ReturnsFirstOutcome | crates/turbomcp-server/src/tasks.rs:274-303 | what a waiter returns is what the first completion or cancellation of the task said, and its own session created the task |
| TaskWaiting.NotFoundMeansGone | crates/turbomcp-server/src/tasks.rs:279-302 | it returns not found only for a task that is not there or not its session's |
| TaskWaiting.EventsAccountFor | crates/turbomcp-server/src/tasks.rs:147-303 | in every run the registry holds exactly the tasks created and not purged after their lifetimes, terminal exactly once something completed or cancelled them |
| TaskWaiting.NeverWithoutOutcome | crates/turbomcp-server/src/tasks.rs:287-295 | a terminal task always has the outcome first recorded, so the fallback is never taken |
| TaskWaiting.FirstOutcomeIsFinal | crates/turbomcp-server/src/tasks.rs:183-230 | no later completion, cancellation or purge changes it |
| FlattenAllOf.Walk | crates/turbomcp-codegen/src/normalize.rs:34-51 | the rewriting walk computes its specification, re-entering merged content |
| FlattenAllOf.FlattenNode | crates/turbomcp-codegen/src/normalize.rs:59-93 | one node's intersection merged member by member, its own keys winning |
| FlattenAllOf.MergeObjectInto | crates/turbomcp-codegen/src/normalize.rs:95-126 | the in-place merge computes its specification |
| FlattenAllOf.FlattenedKeywords | crates/turbomcp-codegen/src/normalize.rs:59-126 | of any node, whatever the values: its own keys come through as they are and of others only the four merged; its type, if it has none, is that of the last member, resolved and flattened, that has one, its `additionalProperties` that of the first |
| FlattenAllOf.NoneRequiredTwice | crates/turbomcp-codegen/src/normalize.rs:107-117 | merging repeats no required name and keeps the earlier ones in place |
| FlattenAllOf.RefNameExactly | crates/turbomcp-codegen/src/normalize.rs:54-57 | a reference is resolved by all that follows its last slash |
| FlattenAllOf.NoIntersectionLeft | crates/turbomcp-codegen/src/normalize.rs:25-51 | whatever the schema, the result has no array-valued `allOf` at any depth |
| FlattenAllOf.RankedSchemasEnd | crates/turbomcp-codegen/src/normalize.rs:34-93 | the rewrite ends if the definitions can be ranked so that the rank falls along every reference found in an `allOf` inside one |
| FlattenAllOf.WalkedMore | crates/turbomcp-codegen/src/normalize.rs:34-51 | how deep a recursion is allowed never shows in the result |
| FlattenTermination.EndsExactlyIfRanked | crates/turbomcp-codegen/src/normalize.rs:25-93 | on documents where nothing is dropped, the rewrite ends exactly if the definitions can be ranked so that references in intersections, at any depth, only lead down |
| FlattenTermination.CircularDocumentsNeverEnd | crates/turbomcp-codegen/src/normalize.rs:25-93 | for any schema and either container: if a definition is on a circle of values each of which, once flattened, still holds the next in a position the rewrite keeps, no depth of recursion suffices |
| FlattenTermination.CyclicSchemasNeverEnd | crates/turbomcp-codegen/src/normalize.rs:59-93 | definitions that intersect in a circle, under either container, keep it going past any depth of recursion |
| FlattenTermination.RecursivePropertyNeverEnds | crates/turbomcp-codegen/src/normalize.rs:34-51 | so does a definition with a property that is an intersection with that definition |
| FlattenTermination.DeepCyclesNeverEnd | crates/turbomcp-codegen/src/normalize.rs:25-93 | where nothing is dropped, so does any circle of definitions that refer to one another from intersections at any depth |
| FlattenTermination.WholeDocumentsPreserved | crates/turbomcp-codegen/src/normalize.rs:25-126 | where nothing is dropped and the rewrite ends, every definition keeps its verdict on every instance |
| FlattenDocument.DocumentPreserved | crates/turbomcp-codegen/src/normalize.rs:25-126 | flattening a document in which every node the rewrite comes to meets that guard: an instance is valid against a definition of the rewritten document, its references followed there, exactly when it was in the original, whatever atoms mean |
| FlattenDocument.RootPreserved | crates/turbomcp-codegen/src/normalize.rs:25-126 | and so for the document's own schema, definitions and all |
| FlattenDocument.RewritePreservesMeaning | crates/turbomcp-codegen/src/normalize.rs:34-51 | any schema inside such a document, rewritten with it, keeps its verdict on every instance on which it has one |
| FlattenMeaning.FlatteningPreservesMeaning | crates/turbomcp-codegen/src/normalize.rs:59-126 | for any node: flattened, it means what its own keys, its members, what stands beside their references and the referred definitions say together, on every instance, exactly if those agree pairwise on types and shared properties and each of their constraints reaches the node from a schema that says it without being overridden, or dropped beside a reference, on the way |
| FlattenMeaning.FlatSays | crates/turbomcp-codegen/src/normalize.rs:59-126 | a flattened node has a type, a required name or a property exactly if that reaches the node so |
| FlattenMeaning.ShallowMembersExactly | crates/turbomcp-codegen/src/normalize.rs:59-126 | an intersection of references and schemas in place, none of them an intersection again, ends and keeps its meaning exactly if all agree on types and shared properties and each constraint is said by the node, or by what a member stands for and not overridden by the node |
| FlattenMeaning.PlainMembersExactly | crates/turbomcp-codegen/src/normalize.rs:59-126 | corollary for members all in place: exactly if types agree, the node's own `properties` and `required` repeat what they replace, and members agree where it has no `properties` |
| FlattenMeaning.ReferenceSiblingsExactly | crates/turbomcp-codegen/src/normalize.rs:71-74 | corollary for one reference: exactly if the definition already says all that stands beside the reference |
| FlattenMeaning.ResolveAgrees | crates/turbomcp-codegen/src/normalize.rs:54-57 | resolving by the text after the last slash finds what the JSON pointer `#/$defs/name`, or `#/definitions/name`, denotes |
| FlattenMeaning.OwnPropertiesShadowMembers | crates/turbomcp-codegen/src/normalize.rs:87-92 | witness: a node's own empty `properties` beside `allOf` discards any property schema of its member |
| FlattenMeaning.DisagreeingMembers | crates/turbomcp-codegen/src/normalize.rs:95-106 | witness: of two members with different schemas for one property the first is lost |
| FlattenMeaning.DroppedSibling | crates/turbomcp-codegen/src/normalize.rs:71-74 | witness: `required` beside a `$ref` is lost |
| PlainSchemas.MergeIsConjunctionExactly | crates/turbomcp-codegen/src/normalize.rs:95-126 | merging two plain schemas is their conjunction exactly if they agree on their types, if both have one, and on the properties they share |
| PlainSchemas.OwnKeysExactly | crates/turbomcp-codegen/src/normalize.rs:87-92 | putting a node's own keys over merged ones is conjunction exactly if its own `type`, `properties` and `required` repeat what they replace |
| PlainSchemas.KeptExactly | crates/turbomcp-codegen/src/normalize.rs:59-126 | of several plain schemas, one that takes every constraint from them says what they say together exactly if it has kept them all; a lost one is missed by some instance |
| ClosedSchemas.MergeClosedExactly | crates/turbomcp-codegen/src/normalize.rs:95-126 | for any `additionalProperties`, merging two schemas is their conjunction exactly if they agree on types and shared properties, neither's rest bears on a property only the other names and the two rests come to the first; or if a required name is refused and no object is valid |
| ClosedSchemas.SameExactly | crates/turbomcp-codegen/src/normalize.rs:95-126 | one schema says what several say together exactly if types agree and either neither side admits an object, or both require the same names and ask the same of every name |
| ClosedSchemas.ClosedMemberOpens | crates/turbomcp-codegen/src/normalize.rs:121-125 | witness: a closed schema merged with one that names another property admits what the closed one refuses |
| FlattenExample.ExampleIsWhole | crates/turbomcp-codegen/src/normalize.rs:25-93 | a document with an intersection of a reference and a schema in place meets the hypotheses, and its rewrite ends |
| LineTransport.LineTransport.ReadLineCapped | crates/turbomcp-transport-stdio/src/lib.rs:106-138 | outcome and line depend on the stream alone, however it is chunked, and the buffer never exceeds the cap |
| LineTransport.LineTransport.Recv | crates/turbomcp-transport-stdio/src/lib.rs:155-174 | one call yields the next frame of the stream, its end, or the too-long error, skipping blank lines |
| LineTransport.LineTransport.Send | crates/turbomcp-transport-stdio/src/lib.rs:147-153 | appends the encoded message and one newline |
| LineTransport.RoundTripExactly | crates/turbomcp-transport-stdio/src/lib.rs:106-174 | sending one-line trimmed frames and receiving them gives the same list and a clean end exactly when each fits the cap with its newline |
| LineTransport.MessagesRoundTrip | crates/turbomcp-transport-stdio/src/lib.rs:147-174 | for any codec whose text is one trimmed line, every message arrives, in order |
| LineTransport.BlankLineIsSkipped | crates/turbomcp-transport-stdio/src/lib.rs:164-168 | a blank keep-alive line changes nothing |
| LineTransport.PaddedLine | crates/turbomcp-transport-stdio/src/lib.rs:162-171 | byte by byte: a line's frame is what stands between spaces, tabs, form feeds and carriage returns, if the whole line fits the cap |
| HeaderCodec.Lossless | crates/turbomcp-service/src/mcp_headers.rs:47-87 | every string survives encoding and decoding, sentinel-shaped ones included |
| HeaderCodec.EncodeInjective | crates/turbomcp-service/src/mcp_headers.rs:66-72 | no two strings share an encoding |
| HeaderCodec.EncodedIsLegal | crates/turbomcp-service/src/mcp_headers.rs:47-72 | the encoded form is always legal header text |
| HeaderCodec.LeftAloneExactly | crates/turbomcp-service/src/mcp_headers.rs:47-72 | a value is sent as it is exactly when it is legal text that does not look like a sentinel |
| HeaderCodec.EncodedExactly | crates/turbomcp-service/src/mcp_headers.rs:47-72 | the encoding spelled out: the value itself, or `=?base64?`, the Base64 of its UTF-8 bytes and `?=` |
| HeaderCodec.RenderedExactly | crates/turbomcp-service/src/mcp_headers.rs:94-106 | strings as they are, Booleans by name, integers JavaScript can hold as decimal text of that value, nothing else |
| HeaderCodec.HeaderNameExactly | crates/turbomcp-service/src/mcp_headers.rs:108-132 | header names are visible ASCII without the delimiters of RFC 9110 |
| HeaderCodec.MirrorsDetermineArguments | crates/turbomcp-service/src/mcp_headers.rs:66-106 | two arguments of one type with the same mirror are equal |
| Base64.DecodeOfEncode | crates/turbomcp-service/src/mcp_headers.rs:66-87 | Base64 decoding inverts encoding for every byte length, in both alphabets |
| Base64.EncodeOfDecode | crates/turbomcp-server/src/mrtr.rs:126-127 | and only the canonical encoding decodes at all |
| Base64.EncodedLength | crates/turbomcp-server/src/mrtr.rs:97-101 | n bytes take the ceiling of 4n/3 characters unpadded, whole quads padded |
| Base64.AlphabetExactly | crates/turbomcp-service/src/mcp_headers.rs:66-72 | the alphabets of RFC 4648, value by value |
| Base64.SplitIsBigEndian | crates/turbomcp-service/src/mcp_headers.rs:66-72 | three bytes are one number read six bits at a time from the top |
| Base64.GroupsExactly | crates/turbomcp-service/src/mcp_headers.rs:66-72 | each group takes four characters, a last short one those of its bits, padded in the standard form only |
| Utf8.DecodeOfEncode | crates/turbomcp-service/src/mcp_headers.rs:78-87 | text survives its UTF-8 bytes |
| Utf8.EncodeOfDecode | crates/turbomcp-service/src/mcp_headers.rs:78-87 | and no other bytes decode to text |
| HeaderScan.HeaderParamsFromSchema | crates/turbomcp-client/src/client.rs:1059-1142 | succeeds exactly on schemas in which every annotated node is well formed and reached by `properties` chains, no other scanned node is annotated, and names are unique ignoring case; lists each annotated node once with its true path; an error names a real violation |
| HeaderScan.Scanner.Scan | crates/turbomcp-client/src/client.rs:1075-1142 | the recursive walk restores the shared path and appends exactly the parameters at or below its node |
| HeaderScan.Scanner.ScanUnreachable | crates/turbomcp-client/src/client.rs:1081-1138 | below a node no property chain reaches, succeeds exactly if nothing is annotated |
| HeaderScan.Scanner.Annotation | crates/turbomcp-client/src/client.rs:1089-1126 | an annotation is accepted exactly if it is below the root, names a valid header and sits on a primitive parameter |
| HeaderScan.FindDuplicate | crates/turbomcp-client/src/client.rs:1062-1070 | finds a name seen before, ignoring ASCII case, exactly if there is one |
| HeaderScan.OneParameterExactly | crates/turbomcp-client/src/client.rs:1089-1126 | a schema with one annotated parameter, spelled out: accepted exactly for the three primitive types and a header name, or `true` and a name that is one; and the header it asks for |
| HeaderScan.SameHeaderExactly | crates/turbomcp-client/src/client.rs:1062-1070 | two names are one header exactly if they differ at most in the case of ASCII letters |
| HeaderKeywords.WronglyRefusedExactly | crates/turbomcp-client/src/client.rs:1075-1142 | the scan accepts no schema that breaks a rule read keyword by keyword, and refuses one that breaks none exactly if, beside a property chain, a name or a member of a datum is `x-mcp-header` |
| HeaderKeywords.NestedPropertyNameIsRefused | crates/turbomcp-client/src/client.rs:1127-1139 | witness: a property that is merely called `x-mcp-header`, declared inside array items, refuses a schema that breaks no rule |
| HeaderMirrors.ToolCallParams | crates/turbomcp-client/src/client.rs:572-607 | the call's parameters carry the name, the arguments and the mirrors, and `_meta` only if there are any |
| HeaderMirrors.MirrorsFaithful | crates/turbomcp-client/src/client.rs:574-597 | a parameter is mirrored exactly when its argument is present and renders; the mirror decodes to that rendering and is legal header text; nothing else is mirrored |
| HeaderMirrors.Outgoing.LiftMirrors | crates/turbomcp-client/src/http.rs:261-283 | takes the mirrors out of the body and leaves the rest |
| HeaderMirrors.LiftOfCall | crates/turbomcp-client/src/http.rs:261-283 | lifting undoes attaching: the same mirrors, the same name and arguments, no trace in the body |
| HeaderMirrors.WireForm | crates/turbomcp-client/src/client.rs:572-607 | where a mirror rides: in the request's metadata, then in the header of its name |
| HeaderMirrors.CompareExactly | crates/turbomcp-transport-http/src/lib.rs:238-264 | a header agrees with an argument exactly if it is printable, decodes, and decodes to the argument's rendering |
| HeaderMirrors.ValidateParamHeaders | crates/turbomcp-transport-http/src/lib.rs:225-266 | where no two arguments differ only in case, refuses exactly the calls in which a header disagrees with the argument it names |
| HeaderMirrors.EveryCallPassesExactly | crates/turbomcp-transport-http/src/lib.rs:225-266 | every call the client mirrors is accepted by the server exactly when each annotation is named for its own top-level parameter |
| HeaderMirrors.OtherwiseRefused | crates/turbomcp-transport-http/src/lib.rs:225-266 | for any other tool there is a call, with any two differing values, that the server always refuses |
| HeaderMirrors.DeclaredCallsPassExactly | crates/turbomcp-transport-http/src/lib.rs:225-266 | among calls that carry declared arguments only, all pass exactly when each annotation is named for its own top-level parameter or for no declared one |
| StateToken.RedeemedExactly | crates/turbomcp-server/src/mrtr.rs:75-150 | a signed token is redeemed exactly by its own method and subject until 600 seconds after signing, and yields the signed data |
| StateToken.SignedExactly | crates/turbomcp-server/src/mrtr.rs:75-107 | signing succeeds exactly for payloads up to 32 KiB, and the token's text is spelled out |
| StateToken.VerifyOfRender | crates/turbomcp-server/src/mrtr.rs:109-150 | any authentic payload, of any size, comes down to its bindings, but text over 64 KiB is refused |
| StateToken.AcceptedIsCanonical | crates/turbomcp-server/src/mrtr.rs:109-150 | only the one rendering of an authentic payload is accepted |
| StateToken.TokenFits | crates/turbomcp-server/src/mrtr.rs:117-119 | the inbound length guard never rejects what signing lets out |
| UriTemplate.MatchUriTemplate | crates/turbomcp-server/src/lib.rs:122-153 | succeeds exactly when the template is well formed and some admissible assignment expands it to the URI; returns the greediest one, under the names the macro scans |
| UriTemplate.Compile | crates/turbomcp-server/src/lib.rs:123-143 | the compilation loop accepts exactly the well-formed templates and collects their names |
| UriTemplate.ParseExactly | crates/turbomcp-server/src/lib.rs:123-143 | a template is well formed exactly if it is written from literals without `{` and variables `{name}` or `{+name}`, and those are the pieces it gives |
| UriTemplate.OneVariableMatches | crates/turbomcp-server/src/lib.rs:122-153 | spelled out for one variable: `{v}` takes anything non-empty without `/`, `{+v}` anything non-empty on one line |
| UriTemplate.CapturesSound | crates/turbomcp-server/src/lib.rs:145-152 | what is captured expands the template to the URI |
| UriTemplate.CapturesComplete | crates/turbomcp-server/src/lib.rs:145-152 | any admissible assignment makes the match succeed, with captures at least as greedy |
| UriTemplate.ScanTemplateVars | crates/turbomcp-macros/src/server.rs:1069-1084 | the macro's scanning loop computes its specification |
| UriTemplate.ScannersAgree | crates/turbomcp-macros/src/server.rs:1069-1084 | on every template the matcher accepts, macro and matcher see the same variables |
| UriTemplate.EveryArgumentIsBound | crates/turbomcp-macros/src/server.rs:822-841 | the generated "template var missing" arm is unreachable |
| ResponseCache.Cache.Get | crates/turbomcp-client/src/cache.rs:49-60 | a hit is exactly the last cacheable value stored, unexpired, with nothing obsoleting it since and not evicted |
| ResponseCache.Cache.Store | crates/turbomcp-client/src/cache.rs:65-92 | never more than 1024 entries; evicts only when full with nothing expired, the soonest to expire; a result without a positive lifetime changes nothing |
| ResponseCache.NotificationDropsExactly | crates/turbomcp-client/src/cache.rs:98-121 | by the methods' names: a changed list drops its own entries, changed resources also templates and reads, an updated resource its read, anything else nothing |
| ResponseCache.CacheableExactly | crates/turbomcp-client/src/cache.rs:65-73 | a result is cacheable exactly if its `ttlMs` is a positive 64-bit integer |
| ResponseCache.Cache.OnNotification | crates/turbomcp-client/src/cache.rs:98-121 | drops exactly the entries the notification obsoletes |
| ResponseCache.ReferenceExactly | crates/turbomcp-client/src/cache.rs:65-127 | the reference holds the last store of each key that nothing obsoleted or cleared since |
| ResponseCache.LostExactly | crates/turbomcp-client/src/cache.rs:74-83 | a key counts as lost exactly if it was evicted after its last store |
| CacheRace.StaleExactly | crates/turbomcp-client/src/client.rs:390-406 | in every run of requests, replies and notifications, a cached entry is out of date exactly if the notification that says so was handled after its reply arrived and before the caller stored it |
| CacheRace.StaleHappens | crates/turbomcp-client/src/client.rs:400-404 | and for every key, cacheable result and notification that obsoletes it there is such a run |
| CacheRace.LastEventTells | crates/turbomcp-client/src/client.rs:390-406 | what the last event of any run leaves in the cache under a key |
| SessionStore.BiggerIncludesSmaller | crates/turbomcp-server/src/session.rs:97-188 | on the same operations at distinct clock readings, every session a store keeps is kept by any bigger one with the same state and recency, and each stays within capacity |
| SessionStore.Store.Insert | crates/turbomcp-server/src/session.rs:97-120 | replaces, adds, or evicts a least recently seen session first when full |
| SessionStore.Store.Get | crates/turbomcp-server/src/session.rs:125-135 | refreshes a live session and drops an idle one |
| SessionStore.Store.SweepExpired | crates/turbomcp-server/src/session.rs:141-157 | removes and reports exactly the idle sessions |
| SessionStore.NextKeepsBound | crates/turbomcp-server/src/session.rs:97-188 | no operation takes the table over its capacity |
| SessionStore.IdleExactly | crates/turbomcp-server/src/session.rs:125-157 | a session is idle exactly when at least the timeout has gone by since it was seen |
| Elicitation.AskRoundTrip | crates/turbomcp-client/src/handler.rs:68-124 | the client's handler sees the very question asked, and the server's handler the very answer, a refusal without its content |
| Elicitation.RequestInjective | crates/turbomcp-server/src/mrtr.rs:642-651 | different questions make different requests |
| Elicitation.WireForm | crates/turbomcp-server/src/mrtr.rs:642-651 | the question and the answer as JSON, field by field |
| Elicitation.DispatchExactly | crates/turbomcp-client/src/handler.rs:68-124 | how the client answers any request by its method, malformed and unknown ones with errors |
| Mrtr.ClientHandle.ElicitAll | crates/turbomcp-server/src/mrtr.rs:413-445 | either all answers are cached and parsed in request order, or exactly the missing questions are recorded and the execution aborts |
| Mrtr.ClientHandle.Record | crates/turbomcp-server/src/mrtr.rs:555-573 | a key reused with a different request keeps the later one, or fails under strict keys |
| Mrtr.Execute | crates/turbomcp-server/src/dispatcher/capability.rs:317-367 | one execution of a handler, from a fresh handle to its reply, computes its specification |
| Mrtr.MrtrRequest | crates/turbomcp-client/src/client.rs:933-978 | the client's loop: at most 16 rounds, each round's answers replacing the last's, resume state carried on |
| MrtrEquivalence.SameAsInline | crates/turbomcp-server/src/mrtr.rs:413-445 | a handler that asks one question per key and nothing outside its first batch gets, in at most two executions, exactly the outcomes of sequential inline requests, in order |
| MrtrEquivalence.OneBatchIsCovered | crates/turbomcp-server/src/mrtr.rs:413-445 | a handler with one batch, one question per key, is such a handler |
| MrtrEquivalence.OtherwiseDiffers | crates/turbomcp-client/src/client.rs:938-977 | and no other handler with a fixed list of batches does: some client tells the two apart |
| MrtrEquivalence.PlanEnds | crates/turbomcp-client/src/client.rs:938-977 | the call of such a handler returns exactly when every batch's keys are among the first's, with the first batch's answers throughout |
| MrtrEquivalence.StatelessEnds | crates/turbomcp-client/src/client.rs:938-977 | any handler without resume state ends after one or two executions or never: the third execution is the first again, until the client gives up after 16 |
| MrtrEquivalence.Recorded | crates/turbomcp-server/src/mrtr.rs:439-443 | an abort asks for exactly the keys without an answer, each with its last question |
| MrtrResume.ResumingEnds | crates/turbomcp-client/src/client.rs:938-977 | how the call of any handler with its history as resume state ends: batches covered by the last answers are told those, one with none of its keys answered takes a round, one with some alternates until the client gives up; with the number of executions |
| MrtrResume.ResumingIsInlineExactly | crates/turbomcp-client/src/client.rs:938-977 | every client tells it what inline requests would have, exactly if each batch repeats questions of the last one asked or shares no key with it, and at most 15 are asked |
| MrtrResume.ResumingSucceedsExactly | crates/turbomcp-server/src/mrtr.rs:468-484 | corollary: with no keys shared between consecutive batches, in one execution more than it asks batches, exactly if those are at most 15 |
| ListChanged.NoChangeLost | crates/turbomcp-server/src/subscriptions.rs:165-252 | in every interleaving each call is followed by a flush that had sent nothing when the call returned, and once it is through, every subscription there throughout has its notification, and so has every session reachable throughout on a GET stream or on a connection it did not change; once per flush |
| ListChanged.OnlyThoseThereAreNotified | crates/turbomcp-server/src/subscriptions.rs:181-252 | in every run, whoever a flush notifies could be reached at that moment and was found by that flush after it cleared its flag: a subscription that wanted its kind, or a session with its connection |
| ListChanged.FlagsStep | crates/turbomcp-server/src/subscriptions.rs:165-180 | a pending flag is set exactly when one flush of its kind is still before its clear |
| ListChanged.BurstIsOneFlush | crates/turbomcp-server/src/subscriptions.rs:166-168 | while a flush sleeps no other of its kind starts |
| ListChanged.NotesStep | crates/turbomcp-server/src/subscriptions.rs:199-252 | no flush notifies anyone twice |
| ListChanged.EventsAccountFor | crates/turbomcp-server/src/subscriptions.rs:80-163 | in every run subscriptions, routes and streams are those the events made and did not undo, and routes never exceed 4096 |
| ListChanged.FlushAdvances | crates/turbomcp-server/src/subscriptions.rs:170-179 | a flush always has a next step, and each brings it nearer its end |
| ListChanged.FlushEndsExactly | crates/turbomcp-server/src/subscriptions.rs:170-252 | in every run a flush is through exactly when it has taken three steps and one for each target it found; it takes no more, and until then can take its next |
| Connection.AnswersCorrelate | crates/turbomcp-client/src/connection.rs:148-182 | a caller gets the first response to its own id since it registered, and has left the table when it returns |
| Connection.ResultExactly | crates/turbomcp-client/src/connection.rs:148-182 | in every run, a call whose deadline did not pass before the table was cleared times out exactly if it registered after that and its frame was accepted; it is answered exactly if it queued and its response came; else it is told `Closed` |
| Connection.WaitersAreToldClosed | crates/turbomcp-client/src/connection.rs:268-271 | so a call registered when the connection goes down, its frame queued or still waiting for room, has its answer or is told it is closed; it does not time out after that |
| Connection.LateCallsTimeOut | crates/turbomcp-client/src/connection.rs:154-163 | a call registered after the table is cleared times out if its frame is accepted, which takes a queue not yet dropped, and is told `Closed` otherwise |
| Connection.LateCallReturns | crates/turbomcp-client/src/connection.rs:154-182 | once the table is cleared, both ends are possible |
| Connection.ReceiveInv | crates/turbomcp-client/src/connection.rs:345-360 | an inbound response settles at most the one call waiting under its id and keeps the table invariant |
| Connection.EventsAccountFor | crates/turbomcp-client/src/connection.rs:148-182 | in every run the actor, each call and the responses received are what their own last events made them |
| Connection.WaiterCanReturn | crates/turbomcp-client/src/connection.rs:165-181 | a waiting call that was answered or dropped can return just that, any other can time out |

## Left out

- ServeDriver.EveryReplyWrittenOnce: speaks of runs without a failed write; frames behind a failed write are lost, as in the code.
- ServeDriver.DeadlockFreeExactly: a transport write that never completes is outside it; writes are single steps.
- ServeDriver.DrainEndsExactly: the order in which the drain prefers its arms when several are ready is not modelled, since a frame or a finished handler can appear after its arm was polled.
- The driver, the polling client, blocked waiters, coalescing and the connection are machines and not classes, since their state belongs to several tasks; the order of locks within one step is not modelled. In the driver, readiness of the tower service is one step that succeeds or fails.
- Senders other than handlers that outlive the drain: the model has none once the writer registration is dropped.
- FlattenAllOf.RankedSchemasEnd: gives a depth of recursion that suffices; the functions take that depth as a parameter because the rewrite need not end, and `WalkedMore` shows that it does not influence the result.
- FlattenMeaning.FlatteningPreservesMeaning: nodes have the keywords `type` (a name or a list of names, of any meaning), `required`, `properties`, `allOf` and `$ref`, beside metadata and definitions; an `additionalProperties` must forbid nothing (for other values see `ClosedSchemas.MergeClosedExactly`, which is about one merge), and `allOf` members that are booleans, which the code skips, are not in it.
- FlattenMeaning.ResolveAgrees: references are `#/$defs/name` or `#/definitions/name`, into the container the code reads, with names that a JSON pointer spells as they are; on others the code takes whatever follows the last slash.
- FlattenMeaning.PlainMembersExactly: a particular shape of `FlattenMeaning.FlatteningPreservesMeaning`, which has no such restriction.
- FlattenMeaning.ReferenceSiblingsExactly: likewise.
- FlattenDocument.DocumentPreserved: schemas with other keywords, arrays for instance, are atoms that mean anything and hold no intersection; a reference inside an atom is not followed. An instance has a verdict where following references on it comes to an end.
- FlattenTermination.EndsExactlyIfRanked: where constraints are dropped, whatever leads back to itself may be dropped too and the rewrite end without a rank; then `FlattenAllOf.RankedSchemasEnd` and `CircularDocumentsNeverEnd` are one direction each.
- The two passes that open embedded schemas and metadata objects after flattening.
- UriTemplate.MatchUriTemplate: the regular expression engine is modelled by its documented leftmost-first matching; characters are Unicode scalar values.
- LineTransport.LineTransport.Recv: is about calls polled to completion; one dropped in the middle of a line forgets what it read.
- LineTransport.MessagesRoundTrip: assumes JSON text without raw newlines and a parser that inverts the printer.
- StateToken.RedeemedExactly: the message authentication code is an arbitrary function with 32-byte results and the JSON printer has an inverse; that forging is hard is not stated.
- Durations so long that adding them to the clock overflows.
- SessionStore.BiggerIncludesSmaller: assumes distinct clock readings; with equal ones the evicted session is an arbitrary oldest one and inclusion can fail.
- TaskStore.PaginationExactly: pages of a table that does not change between requests; among tasks created at one instant the order is arbitrary, so another request may order them differently.
- TaskPolling.ClientReportsFirstOutcome: an RPC failure, a failing input handler and the lifetime backstop all end the loop as giving up; the poll interval is not modelled, nor is the polling of the older protocol's tasks.
- The status notifications that task changes push to subscribers, wall-clock timestamps and poll intervals in task snapshots.
- HeaderScan.Scanner.Scan: visits the side branches of a node before its properties, which only decides which of several errors is reported.
- HeaderMirrors.ValidateParamHeaders: only the `Mcp-Param-*` part of the server's header validation; which of several arguments differing in case is found is left open.
- The task broker and extension that drive the draft registry, and the table of pending server requests: each forwards to what is modelled or repeats the shape of `Connection`.
- HeaderMirrors.ToolCallParams: the protocol version signal and other `_meta` entries of a request.
- Mrtr.Execute: a handler that catches the abort and goes on asking in the same execution.
- Mrtr.MrtrRequest: sampling and root listing requests of a handler, whose answers the client computes by calls that may fail; URL-mode elicitation; and delivery through tasks.
- MrtrEquivalence.SameAsInline: the user answers one question always the same way; inline timeouts and lost channels are left out.
- CacheRace.StaleExactly: messages arrive in the order the server sent them; a request that hits the cache is not in it, and an entry may be lost at any time.
- MrtrResume.ResumingEnds: resume state is a typed value that comes back unchanged; its token, size limit and expiry are in `StateToken`.
- ListChanged.NoChangeLost: a send completes or finds its stream gone in one step; nothing is promised to a session that moves between connections while a flush is on its way; updates of single resources are not coalesced and not modelled.
- Connection.ResultExactly: leaves out calls whose deadline passed while the table stood, which time out.
- HeaderKeywords.WronglyRefusedExactly: which keywords hold names and which hold data is a list of those JSON Schema defines.
- Connection.AnswersCorrelate: callers that drop their request future, notifications and server-to-client requests.
- serde details such as structs written as JSON arrays, tokio, sockets, HTTP, TLS, authentication, rate limiting and telemetry.
- Conversions between protocol versions, builders, code generation by macros apart from the template scan: field by field, they would only add easy members.
