# Verified model of RestfulHttpsProxy

RestfulHttpsProxy sits between clients and servers, rewrites requests and responses
by rules, throttles them and keeps connections alive on both sides. This project
models the parts of it whose correctness is not visible in any one body, and proves
what they promise. `dafny verify dfyconfig.toml` checks everything.

## What is modelled

**Streaming find and replace** (`Literal`, `Window`, `Streaming`, `Exactness`, `Deletion`,
`Growth`, `Verdict`, `Budget`, `Readers`, `BodyRewrite`). Bodies are rewritten while they
stream: a buffer of twice `bufferSize` is filled and rewritten, its left half is emitted, its right
half is carried, and `bufferSize` fresh bytes are appended. `Readers` has the two reader
classes with their buffers, indices, copies, short reads and latched error, over any
source that splits, stalls and ends as it likes. What a reader holds is one text and one
bit: whether its error comes together with the last byte. A source outside has either
bit; the rewriting reader never reports an error with a full destination, so its own bit
is off. `Window` defines what it delivers as a recursion over the whole text and that
bit, for an arbitrary rewriting function; the readers deliver exactly this, whatever the
sizes of the destinations, and a whole `AlterBody` stack delivers the fold of its rules
over (text, bit).

When that means the same as replacing in the whole text, on every source, is settled for
`Literal`, leftmost, non-overlapping replacement of a literal:

- with a longer replacement never, when bufferSize is at least 2; so the documented rule
  "bing" to "google" streams wrongly on some source with every buffer. With a one-byte
  buffer there is an exact list (`GrowthHarmless`). On a given source it is wrong whenever
  a later window loses a byte;
- with equal lengths exactly if |find| <= bufferSize + 1 and no match in a text of
  bufferSize bytes can make use of a byte of an inserted replacement (or the two are equal);
- with a shorter, non-empty replacement exactly if no match can make use of a byte of it
  (`Clear`), for ample buffers: bufferSize >= |find| (|find| - 2) and 2 |find| - 1. For
  smaller ones there are a condition that suffices and failing classes;
- deleting is right exactly for single bytes, doubled bytes, and two-byte patterns with a
  one-byte buffer.

`Verdict` puts these together: with the program's 16384 bytes every literal rule with a
pattern of at most 129 bytes is decided by comparing pattern and replacement.

**Round trips** (`Pool`, `RoundTrip`). The connection pool is a class proved against
`Opened` and `Closed`; the writer, listener, timer and loop goroutines form a step
relation, in which any number of trips interleave with the timers of earlier ones.
`errS :=` inside the writer goroutine shadows the outer variable
(proxy/serverConnProps.go:237), so only a failing `Open` leads to a second attempt; the
model keeps that, a trip therefore gets at most one connection, and every attempt is
opened for an untouched body. A connection that failed or timed out is retired: closed,
out of the pool, never reused; one on which nothing failed is kept and reused. The loop waits for a bounded number of steps of an
attempt's goroutines, and one of them can always be taken.

**Keystream** (`Keystream`): the counter-mode generator with its in-place carry loop and
partly used block, against the stream E(c), E(c+1), ... of section 6.5 of NIST SP
800-38A, for any block function.

**Throttle** (`Throttle`): one controller shared by any number of readers; bounds from
both sides on whole concurrent runs, whose steps a read through the class takes.

**Rules, headers, framing, counting, ports** (`Rules`, `Header`, `Framing`, `ConnSet`,
`Strings`, `Hosts`): compilation of JSON rules; headers as text; the peek at bodies of
unknown length and the keep-alive decision; the set whose size is counted by separate
goroutines; host and port normalisation and the pool key.

Bodies, headers and URLs use one alphabet, `char`. Where the source works on bytes a
`char` stands for a byte; in header text, where Go trims Unicode white space, it stands
for a character. The regular-expression engine is a parameter (`RegexpLib`): which
patterns compile and what replacing all matches yields. Readers of bodies are never
closed in the model. Dialling, the clock, map iteration order, short reads and the order
of goroutines are left open and every result holds for all choices.

## Model

| member | source | states |
|---|---|---|
| Literal.DisjointIsClear | rewriteLogic/chunkedRegexReader.go:132-132 | a replacement without a byte of the pattern is one that no match can use |
| Literal.RescanHarmless | rewriteLogic/chunkedRegexReader.go:132-138 | rewriting text whose beginning was already rewritten gives what rewriting the original gives, when no match in that text can use a replacement |
| Literal.RewrittenIsFree | rewriteLogic/chunkedRegexReader.go:132-132 | rewritten text no longer contains the pattern |
| Literal.TailIsOriginal | rewriteLogic/chunkedRegexReader.go:132-134 | an end of rewritten text that may yet become a match was not rewritten, so it does not shrink |
| Literal.EmitPrefix | rewriteLogic/chunkedRegexReader.go:133-138 | text free of the pattern can be emitted early up to where its longest end stands that may yet become a match |
| Literal.WindowStep | rewriteLogic/chunkedRegexReader.go:108-138 | one window (rewrite, emit, carry) leaves the whole-text result unchanged |
| Literal.ShrinkBound | rewriteLogic/chunkedRegexReader.go:132-134 | how far a replacement no longer than its match shrinks a window |
| Literal.OccurrenceShows | rewriteLogic/chunkedRegexReader.go:132-132 | a text in which the pattern occurs is changed by every replacement but the pattern itself |
| Window.CarryWhole | rewriteLogic/chunkedRegexReader.go:116-136 | a window is carried whole exactly when it did not outgrow its old buffer, up to zero bytes |
| Window.IdentityStreams | rewriteLogic/chunkedRegexReader.go:90-139 | a rewrite that changes nothing streams the source through unchanged |
| Window.ExcessHalves | rewriteLogic/chunkedRegexReader.go:116-134 | what the first window added to the carry beyond bufferSize halves, rounding up, with every later window that does not grow |
| Window.CarryBound | rewriteLogic/chunkedRegexReader.go:108-134 | with no growing window no carry of the run exceeds bufferSize |
| Streaming.StreamingIsReplaceAll | rewriteLogic/chunkedRegexReader.go:90-139 | the window recursion equals ReplaceAll of the whole source, for every source and either way of reporting its end, when the replacement is neither empty nor longer and the buffer is roomy |
| Streaming.AmpleBuffer | rewriteLogic/chunkedRegexReader.go:90-139 | m(m-2) bytes of buffer are roomy enough for every such replacement |
| Streaming.DeletionStreams | rewriteLogic/chunkedRegexReader.go:90-139 | deleting single bytes, doubled bytes, and pairs in a one-byte buffer streams right on every source |
| Streaming.EqualLengthStreams | rewriteLogic/chunkedRegexReader.go:90-139 | equal lengths stream right on every source when bufferSize + 1 bytes hold the pattern and no match in a text of bufferSize bytes can use a replacement |
| Streaming.GrowthStreams | rewriteLogic/chunkedRegexReader.go:116-138 | so do the longer replacements that only add zero bytes at the end of a window and are not rewritten again |
| Exactness.LongPatternFails | rewriteLogic/chunkedRegexReader.go:110-114 | for every pattern longer than bufferSize + 1 some source is streamed wrongly, whatever the replacement |
| Exactness.OverlapFails | rewriteLogic/chunkedRegexReader.go:132-138 | so it is, for every buffer, when the replacement ends with the beginning of the pattern |
| Exactness.OverlapExample | rewriteLogic/chunkedRegexReader.go:132-138 | the smallest such source, with both results |
| Exactness.LeadInFails | rewriteLogic/chunkedRegexReader.go:132-138 | so it is when a match can start before a replaced match and go on with its replacement, or run over all of it, once bufferSize is at least the length of both together |
| Exactness.UnsealedFails | rewriteLogic/chunkedRegexReader.go:132-138 | so it is, for every buffer, when a match can start in a replacement that is not longer |
| Exactness.UnclearFails | rewriteLogic/chunkedRegexReader.go:132-138 | both together: for every buffer, and every replacement that is not longer, streaming is wrong on some source when a match in a text of bufferSize bytes can use a byte of it |
| Exactness.EqualLengthExact | rewriteLogic/chunkedRegexReader.go:90-139 | for equal lengths, and every buffer, streaming is right on every source if and only if the pattern has at most bufferSize + 1 bytes and no match in a text of bufferSize bytes can use a byte of a replacement |
| Exactness.NotLongerExact | rewriteLogic/chunkedRegexReader.go:90-139 | for ample buffers and non-empty replacements that are not longer: right on every source if and only if no match can use a byte of a replacement |
| Deletion.JoiningDeletionFails | rewriteLogic/chunkedRegexReader.go:132-138 | deleting any pattern of at least two different bytes joins text to a new match on some source, for every buffer of two or more bytes that the pattern fits |
| Deletion.JoiningExample | rewriteLogic/chunkedRegexReader.go:132-138 | a small such source, with both results |
| Deletion.DeletionExact | rewriteLogic/chunkedRegexReader.go:90-139 | deletion streams right on every source if and only if the pattern is a single byte, a doubled byte, or a pair in a one-byte buffer |
| Growth.LossShows | rewriteLogic/chunkedRegexReader.go:136-138 | with any longer replacement, a byte lost by any window shows in the output: no later mistake makes up for it |
| Growth.RightIffLossless | rewriteLogic/chunkedRegexReader.go:116-138 | a longer replacement streams right on a source only if no later window of the run grows by other than zero bytes, and if so when no match can use a byte of it |
| Growth.GrowthExact | rewriteLogic/chunkedRegexReader.go:116-138 | for every longer replacement: it streams right on every source if and only if bufferSize is 1, the pattern has at most two bytes, the rest of the replacement is one to three zero bytes, and nothing carried is rewritten again |
| Growth.GrowthExample | rewriteLogic/chunkedRegexReader.go:116-138 | the smallest source that loses a byte, with both results |
| Verdict.StreamsIsExact | rewriteLogic/chunkedRegexReader.go:90-139 | the conditions asked of a literal rule are exact: for equal lengths, deletions and growth with every buffer, otherwise with an ample one |
| Verdict.EveryLiteralRule | rewriteLogic/chunkedRegexReader.go:90-139 | with an ample buffer every literal rule is decided by the pattern and the replacement alone |
| Verdict.ProgramBuffer | main.go:37-37 | which is so for the program's buffer and every pattern of at most 129 bytes |
| Verdict.DocumentedRule | README.md:99-102 | the documented body rule "bing" to "google" streams wrongly on some source, with every buffer |
| Readers.Reader.Read | rewriteLogic/chunkedRegexReader.go:66-68 | every reader of the stack delivers its text in order, then its error, and the error comes with a full destination exactly if its bit says so |
| Readers.ReadMore | rewriteLogic/chunkedRegexReader.go:144-151 | one more read into the slice |
| Readers.ReadUntilFull | rewriteLogic/chunkedRegexReader.go:141-154 | fills the slice with the next bytes of the source, in order, and fails if and only if the source ends in it; terminates |
| Readers.FixedChunkRegexReader.LoadFirst | rewriteLogic/chunkedRegexReader.go:91-102 | the first window is the first 2 bufferSize bytes; an error if and only if the source ends in them |
| Readers.FixedChunkRegexReader.StoreFirst | rewriteLogic/chunkedRegexReader.go:110-114 | the carry of the first window is the right half of its rewritten text |
| Readers.FixedChunkRegexReader.MoveCarry | rewriteLogic/chunkedRegexReader.go:116-121 | the new buffer starts with the carry; stale bytes stay outside it |
| Readers.FixedChunkRegexReader.LoadNext | rewriteLogic/chunkedRegexReader.go:116-127 | a later window is the carry followed by bufferSize fresh bytes; an error if and only if the source ends in them |
| Readers.FixedChunkRegexReader.StoreNext | rewriteLogic/chunkedRegexReader.go:132-138 | copying back leaves the emitted left half and the carry of the window recursion |
| Readers.FixedChunkRegexReader.FirstChunk | rewriteLogic/chunkedRegexReader.go:91-115 | the first chunk and what is left after it make up the window recursion over the source |
| Readers.FixedChunkRegexReader.NextChunk | rewriteLogic/chunkedRegexReader.go:116-138 | a later chunk and what is left after it make up what was left before |
| Readers.FixedChunkRegexReader.Read | rewriteLogic/chunkedRegexReader.go:90-139 | the same for every chunk, all of it with an error; indices stay in range; a measure decreases |
| Readers.RegexReader.constructor | rewriteLogic/chunkedRegexReader.go:31-38 | the reader holds exactly the window recursion over its source's text and bit |
| Readers.RegexReader.Refill | rewriteLogic/chunkedRegexReader.go:46-48 | fetching a chunk changes nothing about what is left |
| Readers.RegexReader.HandOut | rewriteLogic/chunkedRegexReader.go:52-61 | the next bytes of the chunk join those already in the destination |
| Readers.RegexReader.Read | rewriteLogic/chunkedRegexReader.go:40-64 | destinations of any size receive the text in order, then the source's error, never with a full destination |
| Readers.StartBudget | rewriteLogic/chunkedRegexReader.go:90-115 | the first chunk uses up part of a finite allowance |
| Readers.RunBudget | rewriteLogic/chunkedRegexReader.go:116-138 | so does every later one, so draining ends |
| Readers.Drain | rewriteLogic/rewriteLogic.go:168-171 | reading with any sequence of sizes, empty ones included, ends with exactly the reader's text and its error |
| Readers.StreamedBody | rewriteLogic/chunkedRegexReader.go:40-154 | end to end: what is read from one rewriting reader is the window recursion over the body, for every rewriting function |
| Budget.GrowthBounds | rewriteLogic/chunkedRegexReader.go:132-132 | every rewriting function has a bound on its output length by input length |
| BodyRewrite.ApplyStreamRule | rewriteLogic/rewriteLogic.go:29-40 | the rule's reader holds exactly the rule's meaning over its input; append rules, and only they, panic |
| BodyRewrite.AlterBody | rewriteLogic/rewriteLogic.go:148-166 | the stack holds the left-to-right fold of the rules' meanings over text and bit; it panics exactly if there is an append rule |
| BodyRewrite.StackedBody | rewriteLogic/rewriteLogic.go:148-171 | end to end, for every list of rules: what is read from the stack is that fold |
| BodyRewrite.FaithfulMeaning | rewriteLogic/rewriteLogic.go:29-53 | the streaming meaning of a faithful rule is its meaning on whole texts |
| BodyRewrite.StackIsFold | rewriteLogic/rewriteLogic.go:148-166 | the stack's meaning is the fold of applyRule when every find rule meets the streaming conditions |
| BodyRewrite.RewrittenBody | rewriteLogic/rewriteLogic.go:148-171 | end to end: what is read from the stack is the rules applied to the whole body |
| BodyRewrite.CutOffBody | rewriteLogic/chunkedRegexReader.go:116-138 | the smallest growing replacement through the readers: the end of the text is lost |
| BodyRewrite.AppendNeverStreams | rewriteLogic/rewriteLogic.go:36-38 | among legal rules exactly the append rules dereference the absent prepend text |
| Rules.CompileRules | prxConfig/prxConfig.go:158-200 | accepts a list exactly when every rule is fine, keeps order and length, reports the error of the first one that is not |
| Rules.CompiledMeaning | rewriteLogic/rewriteLogic.go:42-53 | folding applyRule over the compiled rules is the documented meaning of the JSON list for every text |
| Rules.FineExact | prxConfig/prxConfig.go:158-200 | a rule is accepted exactly if it has one of the five documented shapes and its patterns compile; its shape is looked at before its pattern |
| Rules.RuleKinds | rewriteLogic/rewriteLogic.go:42-53 | what a rule of each kind does to a text, from its JSON form |
| Rules.CompileTypes | prxConfig/prxConfig.go:136-156 | accepts exactly if all four lists are fine and compiles each; otherwise the error of the first list that has one, in url, header, body, status order |
| Rules.CompileWhere | prxConfig/prxConfig.go:113-130 | request and response sections are compiled each to its own side, missing ones to no rules; request errors come before response errors |
| Rules.Compile | prxConfig/prxConfig.go:95-134 | every entry in order, a missing pattern matching everything; the first failing entry decides |
| Header.ParseMeaning | rewriteLogic/rewriteLogic.go:110-121 | parsing gives every canonical key exactly the values of its lines, in line order |
| Header.PaddingIsHarmless | rewriteLogic/rewriteLogic.go:132-137 | the newlines AlterHeader adds do not change what is parsed |
| Header.TrimIsMiddle | rewriteLogic/rewriteLogic.go:75-77 | trimming takes away exactly the white space around a value |
| Header.KeyValueOf | rewriteLogic/rewriteLogic.go:68-79 | a line is split at its first colon and its value trimmed; without a colon it is all key |
| Header.CanonShape | rewriteLogic/rewriteLogic.go:110-121 | a canonical field name has capitals at the beginning of words and small letters elsewhere; what is no field name stays |
| Header.CanonIgnoresCase | rewriteLogic/rewriteLogic.go:110-121 | two field names are filed under one key exactly if they differ in case only |
| Header.CanonIsNormal | rewriteLogic/rewriteLogic.go:68-79 | canonicalising a parsed key is idempotent and keeps it free of colon and newline |
| Header.PrintParses | rewriteLogic/rewriteLogic.go:96-121 | a normal header printed in any key order parses back to itself |
| Header.NormalForm | rewriteLogic/rewriteLogic.go:96-121 | parse(print(parse(s))) = parse(s) for every text and every iteration order |
| Header.RoundTripExact | rewriteLogic/rewriteLogic.go:96-121 | printing and parsing give a header back exactly when it is normal |
| Header.AppendValues | rewriteLogic/rewriteLogic.go:100-106 | one key's values become one line each |
| Header.HeaderToString | rewriteLogic/rewriteLogic.go:96-108 | the text begins and ends with a newline and has every key and value on a line of its own between newlines, in some iteration order |
| Header.StringToHeader | rewriteLogic/rewriteLogic.go:110-121 | the header parsed from the text |
| Header.AlterHeader | rewriteLogic/rewriteLogic.go:123-141 | the header becomes the parse of its rewritten text; without rules it is left alone |
| Header.AlterHeaderUnchanged | rewriteLogic/rewriteLogic.go:123-141 | rules that leave the text alone leave the header alone exactly when it is normal |
| Framing.FramedIsDelimited | proxy/clientConnProps.go:111-118 | a message that does not close the connection is delimited by length or chunks |
| Framing.FramedExact | proxy/clientConnProps.go:111-118 | how a message that asks for nothing is delimited and when it closes the connection: by the length known or found, else by chunks exactly with HTTP/1.1 |
| Framing.PeekIsSure | proxy/clientConnProps.go:99-104 | the length of an empty body that does not stall is found; that of a longer, failing or text-backed body is not |
| Framing.Message.Peek | proxy/clientConnProps.go:99-109 | keeps the body byte for byte; its length is found exactly if the answer to the one read is EOF |
| Framing.Message.Frame | proxy/clientConnProps.go:95-118 | the framing fields and the body afterwards, and when a length is found; the same steps as for requests |
| Framing.ReadFramed | proxy/clientConnProps.go:99-109 | a body of unknown length reads back byte for byte after framing, however its source splits, stalls and ends; a length found is its length, and is found for an empty body, not for one that fails or is longer than the peek |
| Framing.Message.Guard | proxy/proxy.go:207-225 | nil bodies become empty, undelimited responses close |
| Framing.Message.Respond | proxy/proxy.go:207-236 | exactly when the loop goes round again, when a length is found, and that the response was then delimited by length or by chunks on HTTP/1.1 or later |
| ConnSet.StepKeepsBalance | proxy/clientConnProps.go:52-74 | every step keeps counts done, started and due in balance with the set |
| ConnSet.RunKeepsBalance | proxy/clientConnProps.go:41-74 | so does every interleaving in which each client has an owner |
| ConnSet.LenAtAnyTime | proxy/clientConnProps.go:41-45 | Len is off by exactly the counts not yet done |
| ConnSet.LenAtQuiescence | proxy/proxy.go:315-319 | Len is the size of the set when nothing is under way |
| ConnSet.AddByItself | proxy/clientConnProps.go:52-62 | a call that nobody disturbs adds the client and counts it, or changes nothing |
| ConnSet.RemoveByItself | proxy/clientConnProps.go:64-74 | and one that removes it takes it out and uncounts it, or changes nothing |
| ConnSet.SharedClientIsCountedTwice | proxy/clientConnProps.go:52-62 | without owners, from every quiet state, two goroutines can add one client so that it is counted twice for good |
| Hosts.InsertPortIdempotent | proxy/helpers.go:126-136 | inserting the port twice is inserting it once |
| Hosts.RedundantPortHarmless | proxy/helpers.go:87-94 | inserting the port undoes the removal of redundant ports |
| Hosts.RedundantPortExact | proxy/helpers.go:87-94 | the port goes exactly if it is the default of http or https, and then only the port |
| Hosts.SameDestination | proxy/helpers.go:96-136 | hosts are normalised alike exactly when host and effective port agree |
| Hosts.KeyIsInjective | proxy/serverConnProps.go:269-271 | pool keys agree exactly when scheme, host and effective port agree |
| Hosts.HeaderDecides | proxy/helpers.go:109-124 | a host or port named in the Host header is taken from there, what it lacks from the URL |
| Hosts.KeyOfRequest | proxy/helpers.go:109-124 | from the client's request to the pool the key is the scheme and the resolved host |
| Hosts.SplitLosesNothing | proxy/helpers.go:96-107 | splitting loses nothing if and only if there is at most one colon and the host does not end with it |
| Hosts.PortIsKept | proxy/helpers.go:126-136 | inserting the port changes nothing if and only if there is exactly one colon and the host does not end with it |
| Hosts.SecondColonCuts | proxy/helpers.go:96-107 | everything from the second colon on is ignored |
| Hosts.BracketedAddressIsCut | proxy/helpers.go:96-107 | so all bracketed addresses that start with two colons are normalised to one host |
| Hosts.URL.InsertPort | proxy/helpers.go:126-136 | the host afterwards; without a colon it gets :443 for https and :80 otherwise |
| Hosts.URL.RemoveRedundantPort | proxy/helpers.go:87-94 | the host afterwards: the same, or without a port that inserting would put back |
| Pool.OpenKeepsInv | proxy/serverConnProps.go:261-289 | at most MaxConns + 1 entries, the current connection pooled, nothing dialled lost, keys truthful |
| Pool.OpenedForRequest | proxy/serverConnProps.go:269-287 | a connection handed out was dialled for this request's scheme, host and port |
| Pool.OpenServes | proxy/serverConnProps.go:273-289 | a connection pooled for the destination is reused and nothing else happens; otherwise the pool is closed as a whole exactly if it is over its limit, every connection stays if not, and only a new connection is handed out |
| Pool.SameDest | proxy/serverConnProps.go:269-271 | two hosts are dialled alike exactly if host and effective port agree; the key is that of the normalised host |
| Pool.ServerConnProps.CloseAll | proxy/serverConnProps.go:137-142 | closes every pooled connection in any order |
| Pool.ServerConnProps.Close | proxy/serverConnProps.go:129-146 | the pool is empty and every connection ever dialled is closed |
| Pool.ServerConnProps.CreateConn | proxy/serverConnProps.go:74-113 | dials the normalised destination, or fails |
| Pool.ServerConnProps.Open | proxy/serverConnProps.go:261-289 | reuse, eviction, dialling and failure as in Serves, with the right destination and the invariant |
| RoundTrip.AdvanceKeepsInv | proxy/serverConnProps.go:206-257 | how sync.Once, timer, listener and writer of an attempt hang together, kept by every action |
| RoundTrip.StepIsGood | proxy/serverConnProps.go:148-289 | every step of every goroutine keeps the whole invariant |
| RoundTrip.StaleTimerIsHarmless | proxy/serverConnProps.go:234-257 | after tryRoundTrip has returned its timer can only wake up, and that leaves the pool alone |
| RoundTrip.OnlyCurrentTripCloses | proxy/serverConnProps.go:236-257 | the pool is emptied only by the trip under way, by Open making room or by the final close |
| RoundTrip.TimeoutOrCancel | proxy/serverConnProps.go:206-215 | the timeout closes at most once in a run, never after cancel has won, and one of them has happened on return |
| RoundTrip.TimeoutRuns | proxy/serverConnProps.go:236-245 | after every successful write that cancel has not come before, the timeout can run, and then the pool is empty and the connection closed |
| RoundTrip.TimerStarted | proxy/serverConnProps.go:241-244 | in every attempt that has written and is not closed or decided the timer can fire |
| RoundTrip.DecidedForGood | proxy/serverConnProps.go:206-215 | over any continuation of any run the decision stands |
| RoundTrip.FailedConnectionIsRetired | proxy/serverConnProps.go:231-258 | if a write or a response fails or the timeout runs in a trip, its connection is closed, and over any continuation it stays out of the pool and no later attempt is given it |
| RoundTrip.SuccessKeepsPool | proxy/serverConnProps.go:231-258 | a trip in which nothing fails leaves the pool as its Open left it, in every interleaving |
| RoundTrip.SuccessIsReused | proxy/serverConnProps.go:273-277 | and the next request to the same destination is given the same connection, without dialling |
| RoundTrip.OpenServesTrip | proxy/serverConnProps.go:261-289 | in every run Open reuses, evicts and spares as Serves says |
| RoundTrip.ClosedForGood | proxy/serverConnProps.go:129-146 | a connection closed by anybody stays closed |
| RoundTrip.RetriedOnce | proxy/serverConnProps.go:186-199 | in every run the first failing Open of a trip is followed by another, the second is not |
| RoundTrip.NeverStuck | proxy/serverConnProps.go:231-256 | waiting for the Once and the wait group cannot deadlock |
| RoundTrip.LoopGoesOn | proxy/proxy.go:140-236 | where the loop does not wait it can open, begin another trip or shut down |
| RoundTrip.TripEnds | proxy/serverConnProps.go:231-258 | in every run the loop waits for at most seven steps of its attempt's goroutines, reads and closes of the body not counted |
| RoundTrip.WayOut | proxy/serverConnProps.go:231-258 | from wherever it waits, at most eight such steps alone end the wait |
| RoundTrip.PoolInvariant | proxy/serverConnProps.go:129-146 | the pool invariant in every reachable state; once the loop has shut down all connections are closed for good |
| RoundTrip.RightDestination | proxy/serverConnProps.go:261-289 | whenever Open succeeds an attempt begins, with writing and listening still to come, on a connection dialled for its request's destination |
| RoundTrip.FreshBodyForEveryAttempt | proxy/serverConnProps.go:186-199 | an attempt is opened at most twice in a trip, and only for a body nobody has touched |
| RoundTrip.BodySeenInFull | proxy/serverConnProps.go:161-171 | what is read is the original body in order, peeked bytes included, and in the end all of it |
| RoundTrip.ReadsGoOn | proxy/serverConnProps.go:161-171 | every read delivers the next bytes of the original, and one is possible until all are read |
| RoundTrip.UsedIfTouched | proxy/ReadCloserStats.go:23-42 | the body of a trip counts as used exactly if it has been read from or closed |
| RoundTrip.OneConnectionPerTrip | proxy/serverConnProps.go:186-258 | in every run a trip makes at most two attempts and gets at most one connection: failures after Open are never retried |
| Keystream.IncrementAddsOne | proxy/counterecryptor.go:68-72 | the carry adds exactly one modulo 256^len to the little-endian value |
| Keystream.CounterValue | proxy/counterecryptor.go:66-74 | k refills add k modulo 256^len |
| Keystream.NoRepeat | proxy/counterecryptor.go:66-74 | no counter block repeats within 256^len refills |
| Keystream.StreamIsBlocks | proxy/counterecryptor.go:66-86 | the stream is the leftover bytes and then whole cipher blocks |
| Keystream.BlockAt | proxy/counterecryptor.go:66-74 | the j-th block of it is E of the counter after j refills |
| Keystream.CounterEncryptorRand.Seed | proxy/counterecryptor.go:59-64 | sets the counter and keeps the leftover bytes |
| Keystream.CounterEncryptorRand.IncrementCounter | proxy/counterecryptor.go:68-72 | the loop in place computes the increment |
| Keystream.CounterEncryptorRand.Refill | proxy/counterecryptor.go:66-74 | the block becomes E of the old counter, the counter its successor |
| Keystream.CounterEncryptorRand.Read | proxy/counterecryptor.go:76-86 | delivers the next bytes of the stream, and the stream goes on from there |
| Keystream.ReadAll | proxy/counterecryptor.go:76-86 | any sequence of read sizes yields a prefix of the stream that depends on its length only, with at least a byte for every read that asks for some |
| Keystream.ReadAfterSeed | proxy/counterecryptor.go:59-86 | after seeding, leftover bytes come first, then E of the seed and its successors, however the reads are split |
| Throttle.ThrottleController.ConsumeBytes | throttle/throttle.go:85-102 | waits out the previous pause, and sets the next one to the time in which the rate read before the wait allows for the bytes, cut off to nanoseconds |
| Throttle.ThrottledRead | throttle/throttle.go:36-47 | what the class does in one read is a run of the steps of the concurrent model, from state to state |
| Throttle.Download | throttle/throttle.go:36-47 | so reading in turn through the class keeps all that was delivered before the last read within the rate, and takes no longer than the rate asks for but for late sleeps |
| Throttle.StepKeepsInv | throttle/throttle.go:85-102 | every step of every reader keeps the pacing invariant |
| Throttle.PacedCalls | throttle/throttle.go:36-47 | when the k-th call ends, the charges of all earlier calls have elapsed, in every interleaving |
| Throttle.RateBound | throttle/throttle.go:85-102 | at equal rates the bits delivered before a call stay within rate times elapsed time plus a nanosecond's worth a call |
| Throttle.ConstantRateBound | throttle/throttle.go:112-116 | the same for every run in which the rate is not changed |
| Throttle.NotSlower | throttle/throttle.go:85-102 | and no interleaving is asked to pause for longer than the rate allows for what was delivered |

## Left out

- Regular expressions with metacharacters and `$` templates: a foreign library; any rewriting function is allowed, and agreement with whole-text rewriting is proved for literals.
- Growth.RightIffLossless: a longer replacement that a match can use may also be rewritten again, so that losing no byte is not enough on a given source.
- Exactness.NotLongerExact: for shorter replacements with smaller buffers, or with patterns of more than 129 bytes at the program's size, what suffices (`Streaming.StreamingIsReplaceAll`) and what is necessary (`Exactness.UnclearFails`, `Exactness.LongPatternFails`) are proved separately and differ.
- BodyRewrite.ApplyStreamRule: sources on which a later window more than doubles are excluded, because rewriteLogic/chunkedRegexReader.go:138 then slices past the end of the buffer.
- Readers.FixedChunkRegexReader.Read: chunks are values, so that a chunk shares memory with the buffer is not modelled; the buffer is never written again while one is out.
- Readers.PrependReader and Readers.TextReader stand for io.MultiReader over a string and for strings.Reader; the closing half of the wrapper in `AlterBody` is not modelled.
- RoundTrip.StepIsGood: round trips are a step relation rather than a class with goroutines; the connection of an attempt is the one `Open` left behind, so unsynchronised reads of `Conn` are not modelled, and a pooled connection may have been closed by its peer or its response body.
- RoundTrip.BodySeenInFull: the body is a value with its unread parts; the request's framing fields are in `Framing`.
- ConnSet.RunKeepsBalance: the set is a step relation rather than a class, at the granularity of lookup, store or delete, and start of the counting goroutine; ownership is a hypothesis, as the two connection sets are used.
- Framing.Message.Respond: messages without a body by their method or status, and net/http's own errors while writing, are not modelled; reading continues to report EOF once it has.
- Throttle.RateBound: exact rationals rounded down to nanoseconds, no float rounding and no overflow of durations; at rate zero the next pause is arbitrary and counts for nothing.
- Keystream.CounterEncryptorRand.Seed: a seed of the wrong size panics and is excluded; deriving key and seed blocks is cryptography and left out.
- A hard bound on kept-alive clients: the set's size is read before the count of the newest client has run.
- Rewriting of URLs and status lines: URL parsing and number parsing around the same rule fold.
- TLS, dialling, compression, certificates, the REST handler, session cleaning and logging: foreign calls or glue.
