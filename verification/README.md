# A verified model of the bRPC client runtime

bRPC is a C++ RPC framework. This project models the parts of its client runtime that are hardest to get right
and proves what they promise: the lock-free rendezvous of parallel calls, the retry and backup-request machine
behind one RPC, the resumable Redis parsers, the hand-over of a progressive attachment from buffer to socket,
AMF0 values over block streams, dynamic partitions, the message pump of a socket, and memcache requests.

`dafny verify dfyconfig.toml` checks the whole project. Each module is one file.

| area | modules |
|---|---|
| parallel calls | `Rendezvous` (every interleaving of the atomic steps), `RendezvousRuns` (cancels and codes), `ParallelMerge` (the rendezvous body) |
| one RPC | `RpcRetry` (the machine as functions), `RpcRetryProofs` (all runs), `RpcRetrySteps` (what each event does), `RpcController` (the methods that update the fields) |
| Redis replies | `RespHeader`, `RespReply`, `RespReplyProofs` (suspending and resuming), `RespRoundTrip`, `RespSplits` (exactly which inputs do not depend on how they are split), `RespOutcomes` (what any input leads to), `RedisParser` and `RedisPipeline` (the code over a mutable buffer) |
| Redis commands | `RespCommand`, `RespCommandProofs`, `CommandTokens`, `RedisCommand` (the code) |
| HTTP attachments | `ChunkedCoding`, `Attachment` (every interleaving), `ProgressiveAttachment` (the object) |
| AMF0 | `ByteOrder`, `AmfStreams`, `Amf`, `AmfProofs`, `AmfTruncation` (inputs that end too early), `AmfMerge` (forms that are read but not written), `AmfCodec` (the reader and the writer) |
| partitions, messages, memcache | `Partition`, `InputPump`, `Memcache` |
| shared | `Options`, `Errno`, `Limits`, `Lines`, `Decimals`, `SeqSum`, `IoBuf` |

How the model is built:

- A function on values says what an operation does. The class or the loop that follows the source is proved to do
  exactly that, and lemmas prove what the source promises about the function, over all inputs, runs or splits.
- Concurrency is a step system: an atomic access, a critical section or a socket write is one step, and a run is
  any sequence of enabled steps. What threads share is the state; the locals of a thread are its program counter.
- The network, timers, parsers of other protocols, the start of threads and load-balancer choices are parameters
  or data: a lemma over all of them holds whatever they answer.
- Bytes are characters in the Redis and HTTP parts and numbers below 256 in AMF and memcache. Widths are written
  out where the source truncates: the 32-bit done word, 32-bit chunk sizes, `int` array lengths, 16-bit name and
  key lengths.

Where the code does not do what one would expect, the model follows the code, and the lemmas named say exactly when:

- A Redis header without a number (`$\r\n`) is read as 0 if the buffer ends there and rejected if a digit follows
  (`RespHeader.HeaderStableIff`; `RespRoundTrip.EmptyHeaderDependsOnSplit` is an input).
- A status or error line of 4 GiB or more is accepted in one piece and rejected if it comes in several
  (`RespRoundTrip.LongLineDependsOnSplit`).
- A Redis array of 2^31 elements or more is taken as complete when its parsing is resumed
  (`RespRoundTrip.HugeArrayIsNotResumed`).
- These three are all there is: `RespSplits.SplitsAgreeIff` and `RespCommandProofs.SplitsAgreeIff` give the exact
  condition under which every split of an input parses alike.
- A Redis command with more than `INT_MAX` components, or with a component of 4 GiB or more, is not read back
  (`RespCommandProofs.CommandIsReadIff`). One without components waits, is rejected, or writes past its arguments,
  because the check in front of that write only logs by default (`RespCommandProofs.EmptyCommandOutcome`).
- A chunk of exactly 0 or of 4 GiB or more is not decoded (`ChunkedCoding.SingleChunkIff`); `Write()` rejects the
  empty one.
- `AMFArray::operator=` does not copy when the array shrinks by two or more, and an array assigned to itself loses
  its fields (`AmfCodec.AMFArray.Assign`).
- The AMF reader accepts a value that ends inside a member's name (`AmfTruncation.TruncationIsAcceptedIff`) or
  inside the class name of a typed object (`AmfMerge.TypedObjectCutShort`), and
  skips object ends and unknown markers (`AmfTruncation.SkippedIff`), so that an array comes out shorter than it
  announced (`AmfTruncation.ArrayIsFullIff`).
- A memcache request of 4 GiB or more is not a frame (`Memcache.FrameIsFrameIff`), and a key of 64 KiB or more is
  framed correctly but announced with a wrong length (`Memcache.DecodesIff`).
- A retry policy that retries cancels or timeouts, or successes while a backup request is out, trips an internal
  check of the controller, which only logs (`RpcRetryProofs.CheckFiresIff` for any run,
  `RpcRetryProofs.PolicyIsSafeIff` in closed form). The accounting of attempts survives it.
- A success of the original that is retried while the backup request holds a pooled connection also sends that
  connection back to the pool with its response still to come (`RpcRetryProofs.PoolOnlyAfterOwnResponseIff` and `RpcRetryProofs.PoolIsSafeIff`;
  `RpcRetryProofs.RetriedSuccessRecyclesConnection` is the run).

## Model

| member | source | states |
|---|---|---|
| `ParallelMerge.MergeResponses` | brpc-1.9.0/src/brpc/parallel_channel.cpp:311-344 | The failure count reaches the limit exactly if sub-call failures, merge failures, or one FAIL_ALL or exception (counting as all) do; only the latter two set ERESPONSE |
| `ParallelMerge.UnifyErrorCodes` | brpc-1.9.0/src/brpc/parallel_channel.cpp:351-363 | The code is the single real error of all sub-calls, ECANCELED if there is none and ETOOMANYFAILS if there are several: a function of the set of errors |
| `ParallelMerge.OnComplete` | brpc-1.9.0/src/brpc/parallel_channel.cpp:300-393 | Below the limit the parent succeeds; at it, a FAIL_ALL or exception gives ERESPONSE, an error the parent already carried is kept, and otherwise the code is the single real error of the sub-calls, ECANCELED without one, ETOOMANYFAILS with several |
| `ParallelMerge.WeightsCount` | brpc-1.9.0/src/brpc/parallel_channel.cpp:311-344 | What is added up are the numbers of failed sub-calls and of successful ones whose merger answered FAIL |
| `ParallelMerge.FailedIffLimitReached` | brpc-1.9.0/src/brpc/parallel_channel.cpp:346-383 | The parent ends failed if and only if the limit is reached, whatever error it carried before |
| `ParallelMerge.OutcomeIgnoresSubCallOrder` | brpc-1.9.0/src/brpc/parallel_channel.cpp:311-383 | Permuting the sub-calls never changes the final code |
| `Rendezvous.Reachable` | brpc-1.9.0/src/brpc/parallel_channel.cpp:219-298 | The inductive invariant holds in every reachable state of every interleaving |
| `Rendezvous.WordIsCountAndFlag` | brpc-1.9.0/src/brpc/parallel_channel.cpp:241-280 | In every run the 32-bit word is exactly the pair of finished sub-calls and "parent ran": the count never carries into the flag |
| `Rendezvous.AtMostOneCompletion` | brpc-1.9.0/src/brpc/parallel_channel.cpp:219-298 | In every run at most one thread is elected and OnComplete runs at most once |
| `Rendezvous.ElectedMeansAllArrived` | brpc-1.9.0/src/brpc/parallel_channel.cpp:234-281 | When a thread is elected every sub-call is past its fetch_add and the parent past its fetch_or |
| `Rendezvous.NobodyTouchesAfterElection` | brpc-1.9.0/src/brpc/parallel_channel.cpp:234-280 | After an election no step but the elected thread's OnComplete touches the shared object, the dispatch loop included |
| `Rendezvous.FailCounterIsExact` | brpc-1.9.0/src/brpc/parallel_channel.cpp:223-233 | At the rendezvous the counter is the number of failed sub-calls, and one sub-call cancelled the others exactly if the limit was reached |
| `Rendezvous.RunsAreBounded` | brpc-1.9.0/src/brpc/parallel_channel.cpp:219-298 | No interleaving is longer than a bound fixed by the number of sub-calls |
| `Rendezvous.QuiescentMeansCompletedOnce` | brpc-1.9.0/src/brpc/parallel_channel.cpp:219-298 | A run in which nothing is left to happen has completed exactly once, with or without timeout or cancel |
| `Rendezvous.AllReturnedMeansCompletedOnce` | brpc-1.9.0/src/brpc/parallel_channel.cpp:219-298 | Once all sub-calls and the parent have returned OnComplete has run exactly once |
| `Rendezvous.ParentCodeAtCompletion` | brpc-1.9.0/src/brpc/parallel_channel.cpp:300-393 | The completing step computes the code from the true number of failed sub-calls and fails the parent exactly at the limit |
| `RendezvousRuns.CodeOfRun` | brpc-1.9.0/src/brpc/parallel_channel.cpp:300-393 | In every completed run the parent's code is the one due by the run's own steps: how many sub-calls finished with an error and with which, what merging answered, and the error the parent ran with, EPCHANFINISH counting as none |
| `RendezvousRuns.TimeoutIsKept` | brpc-1.9.0/src/brpc/parallel_channel.cpp:186-197 | A parallel call that timed out or was cancelled ends with that very code if its sub-calls reach the limit |
| `RendezvousRuns.LimitCancelsOthers` | brpc-1.9.0/src/brpc/parallel_channel.cpp:223-233 | In every run, once the failures have reached the limit and the cancel loop is over, every sub-call but the one that brought them there was sent ECANCELED |
| `RendezvousRuns.ParentCancelsAll` | brpc-1.9.0/src/brpc/parallel_channel.cpp:262-268 | In every run a parent past its fetch_or has sent ECANCELED to every sub-call, unless all were finished |
| `RpcRetryProofs.RunInv` | brpc-1.9.0/src/brpc/controller.cpp:582-686 | In every run, for any policy and network and whether or not a check fires, completed, outstanding and owed attempts add up for every version |
| `RpcRetryProofs.EveryAttemptCompletesOnce` | brpc-1.9.0/src/brpc/controller.cpp:851-911 | When any run has ended, each version 0..nretry was completed exactly once, one completion ended the RPC, and feedback was given exactly where it was asked for |
| `RpcRetryProofs.CheckFiresIff` | brpc-1.9.0/src/brpc/controller.cpp:643-648 | For any policy, network and run: a check has fired if and only if, at some event, the policy retried an attempt on behalf of a timeout, a cancel or another attempt's success |
| `RpcRetryProofs.PolicyIsSafeIff` | brpc-1.9.0/src/brpc/controller.cpp:643-648 | A policy that ignores the version never trips a check, on any network and any run, if and only if there are no retries, or it retries neither cancels nor timeouts and, with a policy set and more than one retry, no successes |
| `RpcRetryProofs.RestrainedIsUntripped` | brpc-1.9.0/src/brpc/controller.cpp:643-648 | No event trips a check in any run under a policy, possibly depending on the version, that retries neither cancels nor timeouts, nor successes if a backup request may be out |
| `RpcRetryProofs.OutstandingAttemptsAreOpen` | brpc-1.9.0/src/brpc/controller.cpp:582-686 | While any run goes on, exactly the outstanding attempts are missing from the log, and the code is clear |
| `RpcRetryProofs.IdsStayInRange` | brpc-1.9.0/src/brpc/channel.cpp:443-445 | In every run nretry never exceeds max_retry and all ids in use are distinct and among the 2 + max_retry reserved ones |
| `RpcRetryProofs.PoolOnlyAfterOwnResponseIff` | brpc-1.9.0/src/brpc/controller.cpp:788-807 | In any run pooled connections were given back only on a response to their own attempt if and only if the policy never retried the success of the original while the backup request held a pooled connection |
| `RpcRetryProofs.PoolIsSafeIff` | brpc-1.9.0/src/brpc/controller.cpp:643-661 | A policy that ignores the version never gives a connection back too early, on any network and any run, if and only if it does not retry successes, no policy is set, or there is at most one retry |
| `RpcRetryProofs.RetriedSuccessRecyclesConnection` | brpc-1.9.0/src/brpc/controller.cpp:643-661 | The run on which it does: a backup request, then a success of the original that the policy retries, on a pooled channel |
| `RpcRetryProofs.ResponsesArrived` | brpc-1.9.0/src/brpc/controller.cpp:1243-1281 | In every run a completion that counts as a response is due to a response that arrived on that id |
| `RpcRetryProofs.StaleEventsAreIgnored` | brpc-1.9.0/src/brpc/controller.cpp:586-602 | Erasing all stale and late events from any run leaves the whole outcome unchanged |
| `RpcRetryProofs.FinalCodeIsOfEndingEvent` | brpc-1.9.0/src/brpc/controller.cpp:1256-1281 | In every run the final code is that of the ending event or of the last attempt it led to; the original ends the RPC only by succeeding, and the RPC then succeeds unless the policy retried that; a failed original never ends the RPC nor leaks its error |
| `RpcRetryProofs.TimeoutOrSuccessEndsRpc` | brpc-1.9.0/src/brpc/controller.cpp:582-686 | Every running RPC ends with that code on a timeout or cancel, and on the success of either outstanding attempt, unless the policy retries that code at that version |
| `RpcRetrySteps.RetriedIff` | brpc-1.9.0/src/brpc/controller.cpp:603-686 | In every run, an event of the current attempt, a timeout or cancel, or a success of the original opens the next version if and only if a retry is left and the policy retries that code; then the current version is closed with that code and versions are issued until one is sent or given up; otherwise the RPC ends with that code and both outstanding attempts are closed as they should be |
| `RpcRetrySteps.BackupIff` | brpc-1.9.0/src/brpc/controller.cpp:604-641 | In every run the backup timer keeps the current attempt outstanding and opens the next version if and only if a retry is left and the timer could be restarted; otherwise it ends the RPC, with EBACKUPREQUEST or the timer's error |
| `RpcRetrySteps.OriginalFails` | brpc-1.9.0/src/brpc/controller.cpp:586-602 | In every run a failure of the original of a backup request closes that attempt and changes nothing else |
| `RpcRetrySteps.CallStarts` | brpc-1.9.0/src/brpc/channel.cpp:443-445 | CallMethod issues versions from 0 on until one is sent or given up; an RPC that failed before is a failed first attempt |
| `RpcRetrySteps.IssueOutcome` | brpc-1.9.0/src/brpc/controller.cpp:999-1231 | Issuing a version: those that cannot be sent are closed with their own errors while the policy retries them, and the one that is sent holds its socket and its feedback |
| `RpcRetryProofs.RetriedSuccessTripsCheck` | brpc-1.9.0/src/brpc/controller.cpp:643-648 | The run that trips it: a backup request, then a success of the original that the policy retries |
| `RpcRetryProofs.RetriedCancelTripsCheck` | brpc-1.9.0/src/brpc/controller.cpp:643-648 | The run that trips it: one cancel, or one timeout, that the policy retries |
| `RpcController.Controller.EndRPC` | brpc-1.9.0/src/brpc/controller.cpp:851-911 | From a state the machine may end in, the object ends with every version completed once and one end mark, and no check fires here |
| `RpcController.Controller.OnVersionedRPCReturned` | brpc-1.9.0/src/brpc/controller.cpp:582-686 | Refines the machine, terminates by the retries left, keeps the object valid (for every version completions, outstanding attempts and owed feedback add up), and fails a check exactly if the policy retries on behalf of another |
| `RpcController.Controller.HandleSendFailed` | brpc-1.9.0/src/brpc/controller.cpp:999-1014 | Refines the machine: a failed send is an event of the current version |
| `RpcController.Controller.IssueRPC` | brpc-1.9.0/src/brpc/controller.cpp:1016-1231 | Refines the machine: one attempt, and on failure whatever that leads to |
| `RpcController.Controller.HandleEvent` | brpc-1.9.0/src/brpc/controller.cpp:1243-1281 | Every event keeps the object valid; a check fails exactly if the event makes the policy retry on behalf of another, and a connection goes back to the pool without its response exactly if that was a success of the original beside a pooled backup request |
| `RpcController.Execute` | brpc-1.9.0/src/brpc/channel.cpp:443-445 | From CallMethod through any events, with any policy: the object is valid, and once ended each version was completed once, with one end mark and feedback as asked; a check failed, and a connection was given back too early, exactly if an event of the run was of that kind |
| `Lines.CrlfPos` | brpc-1.9.0/src/brpc/redis_reply.cpp:150-162 | The first CRLF if there is one, else -1 |
| `RespHeader.HeaderIsStable` | brpc-1.9.0/src/brpc/redis_reply.cpp:150-162 | Bytes that arrive later never change the reading of a header that is not empty |
| `RespHeader.HeaderStableIff` | brpc-1.9.0/src/brpc/redis_reply.cpp:150-162 | Exactly when a header decision can be overturned by later bytes |
| `RespHeader.HeaderRoundTrip` | brpc-1.9.0/src/brpc/redis_command.cpp:49-64 | Every written unsigned 64-bit number is read back from its header, in front of anything; from 2^63 on as 2^63 - 1 |
| `IoBuf.AppendDecimal` | brpc-1.9.0/src/brpc/redis_command.cpp:33-43 | The digit loop never leaves its 24 bytes and writes the decimal of any unsigned 64-bit number |
| `RespReplyProofs.AlwaysContinues` | brpc-1.9.0/src/brpc/redis_reply.cpp:92-270 | On every steady input, parsing a prefix, suspending and resuming with the rest gives what parsing all at once gives |
| `RespReplyProofs.SubsAlwaysContinue` | brpc-1.9.0/src/brpc/redis_reply.cpp:93-106 | The same for a list of sub-replies, suspended anywhere at any depth |
| `RespRoundTrip.AnySplitParsesAlike` | brpc-1.9.0/src/brpc/redis_reply.cpp:92-270 | Every split of a steady input into pieces gives the same error, replies and leftover bytes |
| `RespSplits.SplitsAgreeIff` | brpc-1.9.0/src/brpc/redis_reply.cpp:92-270 | For any number of replies and any input: all splits give what one piece gives if and only if the input is steady, that is, it has no empty header that a cut can separate from a digit, no line of 4 GiB or more and no array of 2^31 elements or more among what is parsed |
| `RespSplits.UnsteadyList` | brpc-1.9.0/src/brpc/redis_reply.cpp:92-270 | Every input that is not steady, at whatever depth, has a cut that changes the error, a reply or the bytes left over |
| `RespSplits.ReplyIsLocal` | brpc-1.9.0/src/brpc/redis_reply.cpp:92-270 | What a complete steady reply parses to depends on its own bytes only |
| `RespOutcomes.HeaderOutcome` | brpc-1.9.0/src/brpc/redis_reply.cpp:150-162 | Any header text is a number if and only if it is blanks, at most one sign and digits, clamped to 64 bits; one that does not fit in 31 bytes is waited for |
| `RespOutcomes.LineOutcome` | brpc-1.9.0/src/brpc/redis_reply.cpp:116-146 | Lines: the text up to the first CRLF, or waiting until the limit is passed |
| `RespOutcomes.BulkOutcome` | brpc-1.9.0/src/brpc/redis_reply.cpp:170-214 | Bulk strings of any announced size in front of any bytes: nil, wrong, waited for, or cut and then checked for CRLF |
| `RespOutcomes.ArrayOutcome` | brpc-1.9.0/src/brpc/redis_reply.cpp:216-262 | Arrays of any announced count: nil, empty, wrong, or as far as the sub-replies get |
| `RespOutcomes.ListOutcome` | brpc-1.9.0/src/brpc/redis_reply.cpp:254-262 | Sub-replies are read up to the first that is not complete, whose error and state are kept |
| `RespOutcomes.BadHeaderOutcome` | brpc-1.9.0/src/brpc/redis_reply.cpp:150-162 | A header that is no number makes integers, bulk strings and arrays wrong |
| `RespOutcomes.OtherTypesAreWrong` | brpc-1.9.0/src/brpc/redis_reply.cpp:263-270 | Any other first byte is wrong and nothing is consumed |
| `RespRoundTrip.EmptyHeaderDependsOnSplit` | brpc-1.9.0/src/brpc/redis_reply.cpp:150-162 | An input with an empty header on which two splits differ |
| `RespRoundTrip.LongLineDependsOnSplit` | brpc-1.9.0/src/brpc/redis_reply.cpp:116-146 | Any status line of 4 GiB or more is accepted in one piece and rejected in front of its CRLF |
| `RespRoundTrip.HugeArrayIsNotResumed` | brpc-1.9.0/src/brpc/redis_reply.cpp:93-106 | Any array of more than INT_MAX elements, suspended at any sub-reply, is taken as complete when resumed, and past 2^31 sub-replies is not resumed at all |
| `RespRoundTrip.AllReadBack` | brpc-1.9.0/src/brpc/redis_reply.cpp:41-90 | Serialized replies in front of any bytes are parsed back, nulls as nil, consuming exactly their bytes |
| `RespRoundTrip.RepliesSurviveAnySplit` | brpc-1.9.0/src/brpc/redis.cpp:395-431 | Any list of reply trees, cut into pieces anywhere, arrives as that list with the bytes behind it untouched |
| `RedisParser.ConsumePartialIOBuf` | brpc-1.9.0/src/brpc/redis_reply.cpp:92-270 | The code that pops the buffer refines the parsing function for every parse state |
| `RedisParser.ContinueArray` | brpc-1.9.0/src/brpc/redis_reply.cpp:93-106 | Resuming a suspended array refines the function |
| `RedisParser.CutLine` | brpc-1.9.0/src/brpc/redis_reply.cpp:116-146 | Lines: refines the function, including the limit on incomplete ones |
| `RedisParser.CutBulk` | brpc-1.9.0/src/brpc/redis_reply.cpp:170-214 | Bulk strings: refines the function, errors included |
| `RedisParser.BeginArray` | brpc-1.9.0/src/brpc/redis_reply.cpp:216-262 | New arrays: refines the function, errors included |
| `RedisParser.ConsumeSubReplies` | brpc-1.9.0/src/brpc/redis_reply.cpp:254-262 | The loop over sub-replies stops exactly where the list function does |
| `RedisPipeline.RedisResponse.ConsumePartialIOBuf` | brpc-1.9.0/src/brpc/redis.cpp:395-431 | A call goes on with the first unfinished reply and keeps the finished ones; asked for none or fewer it waits for one |
| `RedisPipeline.Receive` | brpc-1.9.0/src/brpc/redis.cpp:395-431 | The object fed piece by piece ends as the delivery function says |
| `RedisPipeline.SerializeTo` | brpc-1.9.0/src/brpc/redis_reply.cpp:41-90 | Succeeds exactly on trees without an unset reply, and then appends the serialization |
| `RedisPipeline.SendReplies` | brpc-1.9.0/src/brpc/redis.cpp:395-431 | Replies written by the server and cut into pieces of any sizes leave the client's response with exactly those replies, and the bytes behind them in the buffer |
| `RespCommand.AlwaysContinues` | brpc-1.9.0/src/brpc/redis_command.cpp:373-450 | Suspending the command parser anywhere in a steady input changes neither error, arguments nor leftover bytes |
| `RespCommandProofs.AnySplitParsesAlike` | brpc-1.9.0/src/brpc/redis_command.cpp:373-450 | The same for any split of a steady input into pieces |
| `RespCommandProofs.SplitsAgreeIff` | brpc-1.9.0/src/brpc/redis_command.cpp:373-450 | From any parser state all splits of an input parse alike if and only if it is steady: no empty header can be cut off from a digit behind it |
| `RespCommandProofs.CommandIsReadIff` | brpc-1.9.0/src/brpc/redis_command.cpp:373-450 | A written command is read back if and only if its count fits in an int and each size in 32 bits |
| `RespCommandProofs.CommandSurvivesAnySplit` | brpc-1.9.0/src/brpc/redis_command.cpp:349-362 | In any pieces a command yields its components with only the first lowercased, the following bytes stay, and the parser is back in its initial state |
| `RespCommandProofs.EmptyCommandOutcome` | brpc-1.9.0/src/brpc/redis_command.cpp:405-431 | The outcome of a command without components for anything behind it: it waits for a whole bulk string, is rejected, or writes past its arguments behind the check at line 413 |
| `RespCommandProofs.TryOthersIff` | brpc-1.9.0/src/brpc/redis_command.cpp:381-383 | The input is left untouched to other protocols if and only if no command has begun and it does not start with an asterisk |
| `RespCommandProofs.OtherProtocolsAreTried` | brpc-1.9.0/src/brpc/redis_command.cpp:381-383 | So is every split of it |
| `RespCommandProofs.ComponentOutcome` | brpc-1.9.0/src/brpc/redis_command.cpp:413-450 | A component of any size and any bytes: wrong beyond 32 bits, waited for until it is there, wrong without its CRLF, else the next argument or the end of the command |
| `RedisCommand.HeaderText` | brpc-1.9.0/src/brpc/redis_command.cpp:49-64 | The header built in 32 bytes is type, decimal and CRLF |
| `RedisCommand.RedisCommandByComponents` | brpc-1.9.0/src/brpc/redis_command.cpp:349-362 | Appends the encoding of the components and nothing else |
| `RedisCommand.RedisCommandNoFormat` | brpc-1.9.0/src/brpc/redis_command.cpp:285-347 | Appends the encoding of exactly the tokens of the line, or nothing if a quote is unmatched |
| `RedisCommand.RedisCommandParser.Consume` | brpc-1.9.0/src/brpc/redis_command.cpp:373-450 | The object's fields, the buffer, the error and the arguments are those of the parsing function |
| `RedisCommand.RedisCommandParser.TakeComponent` | brpc-1.9.0/src/brpc/redis_command.cpp:428-450 | One whole component: stored, checked for its CRLF, and parsing goes on or ends |
| `RedisCommand.ReceiveCommand` | brpc-1.9.0/src/brpc/redis_command.cpp:373-450 | The parser object fed piece by piece ends as the delivery function says |
| `RedisCommand.SendCommand` | brpc-1.9.0/src/brpc/redis_command.cpp:349-450 | A command written by the client and cut into pieces of any sizes leaves the server with its components, the first lowercased, an initial parser, and the bytes behind it in the buffer |
| `RedisCommand.ToLower` | brpc-1.9.0/src/brpc/redis_command.cpp:433-438 | Lowers exactly the letters A to Z, in place |
| `CommandTokens.StepKeepsPending` | brpc-1.9.0/src/brpc/redis_command.cpp:298-330 | Reading one more character never changes what the rest of the line will be cut into |
| `CommandTokens.PendingAtEnd` | brpc-1.9.0/src/brpc/redis_command.cpp:331-345 | At the end an open quote is an error and a last bare word is a token |
| `CommandTokens.QuotedComponentsReadBack` | brpc-1.9.0/src/brpc/redis_command.cpp:285-347 | Components in double quotes, empty ones included, are cut back into themselves |
| `CommandTokens.QuotableIff` | brpc-1.9.0/src/brpc/redis_command.cpp:312-326 | A component survives double quotes if and only if it has no double quote and no trailing backslash |
| `CommandTokens.LineReadsBack` | brpc-1.9.0/src/brpc/redis_command.cpp:285-347 | A line of bare words and of texts in quotes of either kind, those quotes escaped, with any blanks, is cut into exactly those |
| `ChunkedCoding.AppendChunkHead` | brpc-1.9.0/src/brpc/progressive_attachment.cpp:75-94 | The backward hex loop stays in its 32 bytes and writes size and CRLF |
| `ChunkedCoding.AppendAsChunk` | brpc-1.9.0/src/brpc/progressive_attachment.cpp:96-116 | Appends one chunk, or the bare data before HTTP/1.1 |
| `ChunkedCoding.ChunkDecodes` | brpc-1.9.0/src/brpc/progressive_attachment.cpp:96-116 | A chunk in front of any chunked body decodes, by section 4.1 of RFC 7230, to its data in front of that body |
| `ChunkedCoding.SingleChunkIff` | brpc-1.9.0/src/brpc/progressive_attachment.cpp:75-94 | Data survives as one chunk if and only if its size is neither 0 nor 2^32 or more |
| `ChunkedCoding.BodyDecodes` | brpc-1.9.0/src/brpc/progressive_attachment.cpp:44-56 | Chunks and the last chunk decode to the pieces joined, with nothing left over |
| `Attachment.Reachable` | brpc-1.9.0/src/brpc/progressive_attachment.cpp:118-225 | The invariant on control and bytes holds in every interleaving of writers, marker and connection failure |
| `Attachment.StreamIsInOrder` | brpc-1.9.0/src/brpc/progressive_attachment.cpp:118-225 | Socket, in-flight and saved bytes together are the accepted chunks in acceptance order; with a broken connection the socket has a prefix of them |
| `Attachment.PeerGetsAcceptedData` | brpc-1.9.0/src/brpc/progressive_attachment.cpp:44-56 | After the destructor's last chunk the peer decodes exactly the accepted data joined, or receives it bare before HTTP/1.1 |
| `Attachment.FailedRpcSendsNothing` | brpc-1.9.0/src/brpc/progressive_attachment.cpp:203-212 | With a failed RPC no byte ever reaches the socket and nothing is accepted after the mark |
| `Attachment.DestructorChecksHold` | brpc-1.9.0/src/brpc/progressive_attachment.cpp:44-48 | Both checks of the destructor hold whenever it can run |
| `Attachment.MarkerTerminates` | brpc-1.9.0/src/brpc/progressive_attachment.cpp:185-225 | Whatever writers do MarkRPCAsDone returns after at most ten steps and MAX_TRY + 1 socket writes, never gets stuck, and leaves the state decided and the pause flag clear |
| `Attachment.BufferIsBounded` | brpc-1.9.0/src/brpc/progressive_attachment.cpp:127-136 | The saved buffer exceeds its limit by less than one piece |
| `Attachment.WriteEnters` | brpc-1.9.0/src/brpc/progressive_attachment.cpp:118-128 | In every run a writer with data is to buffer it until MarkRPCAsDone has returned, and to write it itself from then on; empty data does nothing |
| `Attachment.BufferedIff` | brpc-1.9.0/src/brpc/progressive_attachment.cpp:127-139 | In every run a write under the lock is accepted behind what is saved if and only if MarkRPCAsDone has neither returned nor begun its fourth try and the buffer is below its limit; if it has returned the writer goes on to the socket |
| `Attachment.DirectIff` | brpc-1.9.0/src/brpc/progressive_attachment.cpp:141-150 | In every run a direct write is accepted behind what the socket took if and only if the RPC succeeded and the socket is neither broken nor overcrowded |
| `Attachment.OnlyWritesAreAccepted` | brpc-1.9.0/src/brpc/progressive_attachment.cpp:118-225 | Nothing else is ever accepted, and a broken connection takes no more bytes |
| `Attachment.SettlesIff` | brpc-1.9.0/src/brpc/progressive_attachment.cpp:202-223 | In every run a round of MarkRPCAsDone settles the RPC if and only if nothing is saved, the RPC failed or the last flush met a broken connection; otherwise it takes all that is saved |
| `ProgressiveAttachment.ProgressiveAttachment.WriteLocked` | brpc-1.9.0/src/brpc/progressive_attachment.cpp:127-139 | The critical section of Write() is that step: EOVERCROWDED exactly if the RPC runs and the buffer is full or paused, acceptance exactly if it runs and they are not |
| `ProgressiveAttachment.ProgressiveAttachment.WriteDirect` | brpc-1.9.0/src/brpc/progressive_attachment.cpp:141-150 | The direct write is that step: cancelled exactly if the RPC failed, accepted exactly if the socket takes it |
| `ProgressiveAttachment.ProgressiveAttachment.SwapLocked` | brpc-1.9.0/src/brpc/progressive_attachment.cpp:202-218 | The critical section of MarkRPCAsDone is that step |
| `ProgressiveAttachment.ProgressiveAttachment.Flush` | brpc-1.9.0/src/brpc/progressive_attachment.cpp:219-223 | The write between rounds is that step; a failure is permanent |
| `ProgressiveAttachment.ProgressiveAttachment.MarkRPCAsDone` | brpc-1.9.0/src/brpc/progressive_attachment.cpp:185-225 | The loop among arbitrary steps of other threads is a run of the system, terminates, writes at most MAX_TRY + 1 times and leaves state, flag and buffer settled |
| `AmfStreams.AMFInputStream.Cutn` | brpc-1.9.0/src/brpc/amf_inl.h:27-47 | Cuts the first n bytes, or all there are, across blocks of any sizes, and counts them |
| `AmfStreams.AMFInputStream.CutUint` | brpc-1.9.0/src/brpc/amf_inl.h:53-107 | Fast and slow path read the same big-endian number; a short stream is used up |
| `AmfStreams.AMFOutputStream.Putn` | brpc-1.9.0/src/brpc/amf_inl.h:116-136 | Writes what fits into the blocks left, counts it, and goes bad exactly if not everything fits |
| `AmfStreams.AMFOutputStream.PutU8` | brpc-1.9.0/src/brpc/amf_inl.h:138-151 | The same for one byte |
| `AmfStreams.AMFOutputStream.Done` | brpc-1.9.0/src/brpc/amf_inl.h:109-114 | A good stream gives back the unused end, so its blocks hold exactly what was written |
| `AmfStreams.PutPut` | brpc-1.9.0/src/brpc/amf_inl.h:116-136 | Two writes are one write of both, full streams included |
| `Amf.SetIsUpdate` | brpc-1.9.0/src/brpc/amf.cpp:221-251 | Setting a member keeps names in order and behaves as an update of a map |
| `AmfProofs.WriteIsPut` | brpc-1.9.0/src/brpc/amf.cpp:1059-1144 | Writing a tree field by field, with its early returns, writes its encoding cut off where the stream is full |
| `AmfProofs.WrittenIff` | brpc-1.9.0/src/brpc/amf.cpp:1114-1144 | The stream stays good if and only if all names, at any depth, are under 65536 bytes and all bytes fit; then it holds the encoding |
| `AmfProofs.ReadsBack` | brpc-1.9.0/src/brpc/amf.cpp:609-857 | An encoded tree in front of anything is read back equal if no name in it is empty, and is rejected otherwise |
| `AmfProofs.MarkersAre` | brpc-1.9.0/src/brpc/amf.cpp:1059-1132 | Every kind of value starts with its marker in the AMF 0 specification, and objects end with theirs |
| `AmfTruncation.TruncationIsAcceptedIff` | brpc-1.9.0/src/brpc/amf.cpp:609-717 | Any written tree cut short is accepted if and only if the cut lies inside the length and name of a member or the end of an object, in the object itself or in the last item of an array, and no empty name was read before |
| `AmfTruncation.TruncatedObjectsAreAccepted` | brpc-1.9.0/src/brpc/amf.cpp:696-717 | An object marker alone, or with half a length, is read as an empty object |
| `AmfTruncation.SkippedIff` | brpc-1.9.0/src/brpc/amf.cpp:609-694 | A marker is accepted without setting anything if and only if it is the object end or above 0x11, and then only the marker is consumed |
| `AmfTruncation.ItemsFallShort` | brpc-1.9.0/src/brpc/amf.cpp:845-857 | Items read, and items that start with an object end or an unknown marker, add up to the count |
| `AmfTruncation.ArrayIsFullIff` | brpc-1.9.0/src/brpc/amf.cpp:845-857 | An accepted array has as many items as it announces if and only if no item starts with an object end or an unknown marker |
| `AmfMerge.ReadsInto` | brpc-1.9.0/src/brpc/amf.cpp:609-694 | Any value is read into a field by merging: objects and arrays are added to what is there, anything else replaces it; exactly its bytes are consumed |
| `AmfMerge.MembersReadInto` | brpc-1.9.0/src/brpc/amf.cpp:696-717 | The body of an object, members in any order and repeated at will, sets them one after another |
| `AmfMerge.MergedByName` | brpc-1.9.0/src/brpc/amf.cpp:221-251 | Each name ends up with its own members merged in their order and no others, and the order of names is kept |
| `AmfMerge.LastScalarWins` | brpc-1.9.0/src/brpc/amf.cpp:221-251 | Of repeated scalars under one name the last counts |
| `AmfMerge.EcmaIsRead` | brpc-1.9.0/src/brpc/amf.cpp:719-736 | A count and that many names and values in front of anything are read as those members with exactly the rest left; where entries are missing reading fails and keeps those that were there |
| `AmfMerge.EcmaField` | brpc-1.9.0/src/brpc/amf.cpp:654-658 | The same for a field behind its marker |
| `AmfMerge.TypedObjectField` | brpc-1.9.0/src/brpc/amf.cpp:642-653 | The class name of a typed object is dropped and its members are added to the field |
| `AmfMerge.TypedObjectCutShort` | brpc-1.9.0/src/brpc/amf.cpp:642-653 | A typed object that ends inside its class name is accepted and adds nothing |
| `AmfMerge.LooseScalars` | brpc-1.9.0/src/brpc/amf.cpp:609-694 | A long string may be short, and any byte but 0 is true |
| `AmfMerge.UnsupportedMarkers` | brpc-1.9.0/src/brpc/amf.cpp:609-694 | The six markers without support are rejected and set nothing |
| `AmfMerge.ItemsRunOut` | brpc-1.9.0/src/brpc/amf.cpp:845-857 | A strict array whose items run out fails and keeps those that were there |
| `AmfCodec.ReadTextBody` | brpc-1.9.0/src/brpc/amf.cpp:253-279 | Short and long strings as the reading function says; bytes are conserved |
| `AmfCodec.ReadValue` | brpc-1.9.0/src/brpc/amf.cpp:609-694 | Refines the reading function for every marker, also unsupported and unknown ones; bytes are conserved |
| `AmfCodec.ReadObjectBody` | brpc-1.9.0/src/brpc/amf.cpp:696-717 | Refines the reading function: members up to an empty name, partial results kept |
| `AmfCodec.ReadEcmaArrayBody` | brpc-1.9.0/src/brpc/amf.cpp:719-736 | Refines the reading function for counted members |
| `AmfCodec.ReadArrayBody` | brpc-1.9.0/src/brpc/amf.cpp:845-857 | Refines the reading function for counted items |
| `AmfCodec.ReadAMFObject` | brpc-1.9.0/src/brpc/amf.cpp:738-758 | Top-level objects: object, ECMA array, or null as an empty one |
| `AmfCodec.ReadAMFArray` | brpc-1.9.0/src/brpc/amf.cpp:859-875 | Top-level arrays: strict array, or null as an empty one |
| `AmfCodec.TopObjectIsRead` | brpc-1.9.0/src/brpc/amf.cpp:738-758 | A top-level object or ECMA array is added to what the object holds, and null leaves it as it was |
| `AmfCodec.TopArrayIsRead` | brpc-1.9.0/src/brpc/amf.cpp:859-875 | A top-level strict array is added to what the array holds, and null leaves it as it was |
| `AmfCodec.OtherMarkersAreRejected` | brpc-1.9.0/src/brpc/amf.cpp:738-758 | Any other marker at the top is rejected and changes nothing |
| `AmfCodec.WriteAMFField` | brpc-1.9.0/src/brpc/amf.cpp:1059-1112 | Refines the writing function for every kind of field |
| `AmfCodec.WriteAMFObject` | brpc-1.9.0/src/brpc/amf.cpp:1114-1132 | Refines the writing function, stopping at a long name or a bad stream |
| `AmfCodec.WriteAMFArray` | brpc-1.9.0/src/brpc/amf.cpp:1134-1144 | Refines the writing function, stopping at a bad stream |
| `AmfCodec.SendObject` | brpc-1.9.0/src/brpc/amf.cpp:609-1144 | Through output and input blocks of any sizes an object is sent exactly if it fits, received exactly if its names are not empty, and then equal, with as many bytes popped as pushed |
| `AmfCodec.SendArray` | brpc-1.9.0/src/brpc/amf.cpp:609-1144 | The same for an array |
| `AmfCodec.AMFArray.Add` | brpc-1.9.0/src/brpc/amf.cpp:916-928 | Appends, across the four inline slots and the deque, into a slot that was undefined |
| `AmfCodec.AMFArray.RemoveLast` | brpc-1.9.0/src/brpc/amf.cpp:930-940 | Drops the last field and leaves freed slots undefined |
| `AmfCodec.AMFArray.Clear` | brpc-1.9.0/src/brpc/amf.cpp:907-914 | Leaves an empty array with all slots undefined |
| `AmfCodec.AMFArray.CopyFrom` | brpc-1.9.0/src/brpc/amf.cpp:882-891 | A copy has the contents of the original |
| `AmfCodec.AMFArray.Assign` | brpc-1.9.0/src/brpc/amf.cpp:893-905 | Assignment copies if and only if the array does not shrink by two or more; the front is always copied; assigned to itself an array keeps its size and loses every field |
| `Partition.PartitionChannel.PartitionServersIntoTemps` | brpc-1.9.0/src/brpc/partition_channel.cpp:122-147 | Each sub-channel's list is the servers of the batch with its valid index, in order |
| `Partition.PartitionChannel.AddServersInBatch` | brpc-1.9.0/src/brpc/partition_channel.cpp:149-161 | Each sub-channel gains its group, and the result is the number of servers that are new |
| `Partition.PartitionChannel.RemoveServersInBatch` | brpc-1.9.0/src/brpc/partition_channel.cpp:163-175 | Each sub-channel loses its group, and the result is the number of servers that were there |
| `Partition.SizesAddUp` | brpc-1.9.0/src/brpc/partition_channel.cpp:149-175 | The groups of a partitioning are disjoint and their sizes add up to its servers |
| `Partition.PicksKeepOrder` | brpc-1.9.0/src/brpc/partition_channel.cpp:122-147 | Every sub-channel and every partitioning gets its servers in the order of the batch |
| `Partition.Partitioner.PartitionServersIntoTemps` | brpc-1.9.0/src/brpc/partition_channel.cpp:289-343 | Every partitioning named by a valid tag exists afterwards and holds its share of the batch; the check on its size holds |
| `Partition.Partitioner.OnAddedServers` | brpc-1.9.0/src/brpc/partition_channel.cpp:345-356 | The map stays the grouping of the live servers: a partitioning exists exactly if it has one, its count is exact, each sub-channel has its index's servers |
| `Partition.Partitioner.OnRemovedServers` | brpc-1.9.0/src/brpc/partition_channel.cpp:358-382 | The same after removal; empty partitionings are erased and the checks at lines 370 and 380 hold |
| `Partition.Watch` | brpc-1.9.0/src/brpc/partition_channel.cpp:289-382 | After any sequence of batches the map is the grouping of the servers that are left |
| `InputPump.MessagesAreConserved` | brpc-1.9.0/src/brpc/input_messenger.cpp:231-330 | For any parse results each message is handed over once or destroyed once, in cut order, and verify() is called at most once |
| `InputPump.PassConservesMessages` | brpc-1.9.0/src/brpc/input_messenger.cpp:332-397 | The same over a whole pass of any reads |
| `InputPump.ReadIsDealt` | brpc-1.9.0/src/brpc/input_messenger.cpp:231-330 | For any answers of the parser: cut are the messages up to the first answer that asks for more data, is wrong, or is a message that fails verification, that one included; those with a callback are handed over and the others destroyed; verify() is called exactly if one calls for it on an unauthenticated socket |
| `InputPump.PassIsDealt` | brpc-1.9.0/src/brpc/input_messenger.cpp:332-397 | A pass deals its messages as one read would of all answers up to the end of the stream, a failure or the last event |
| `InputPump.NothingIsDropped` | brpc-1.9.0/src/brpc/input_messenger.cpp:283-311 | With all callbacks in place and nothing to reject, every message up to the first answer that is none is handed over |
| `InputPump.ParkedIsLast` | brpc-1.9.0/src/brpc/input_messenger.cpp:277-322 | A read leaves its last message to this thread, if it has a callback, passes and is not read progressively |
| `InputPump.PassParksLast` | brpc-1.9.0/src/brpc/input_messenger.cpp:332-397 | The same over a whole pass |
| `InputPump.InputMessenger.Dispatch` | brpc-1.9.0/src/brpc/input_messenger.cpp:277-322 | Parking, queueing and authentication deal with one message as they should, at most one being parked |
| `InputPump.InputMessenger.ProcessNewMessage` | brpc-1.9.0/src/brpc/input_messenger.cpp:231-330 | Refines the dealing of all messages of one read; on success no started thread is left unsignalled |
| `InputPump.InputMessenger.OnNewMessages` | brpc-1.9.0/src/brpc/input_messenger.cpp:332-397 | Refines the dealing of a whole pass; on every way out the parked message, and no other, is processed by this thread |
| `Memcache.FrameIsFrameIff` | brpc-1.9.0/src/brpc/memcache.cpp:345-416 | A built request is one well-formed frame if and only if its body is under 2^32 bytes |
| `Memcache.DecodesIff` | brpc-1.9.0/src/brpc/memcache.cpp:536-561 | A frame decodes to its request if and only if its body is under 2^32 and its key under 65536 bytes |
| `Memcache.StoreIsRead` | brpc-1.9.0/src/brpc/memcache.cpp:536-561 | A server that decodes the frame finds flags, expiration, key, value and CAS each in its place |
| `Memcache.CounterIsRead` | brpc-1.9.0/src/brpc/memcache.cpp:686-707 | The same for delta, initial value, expiration and key |
| `Memcache.SmallRequestsAreRead` | brpc-1.9.0/src/brpc/memcache.cpp:345-416 | The same for get, delete, touch, flush and version, with their opcodes |
| `Memcache.FramesAreFound` | brpc-1.9.0/src/brpc/memcache.cpp:77-110 | Bytes that are accepted consist of well-formed frames |
| `Memcache.FramesComeBack` | brpc-1.9.0/src/brpc/memcache.cpp:77-110 | Any frames put together are accepted and found again, no more and no less |
| `Memcache.CountFrames` | brpc-1.9.0/src/brpc/memcache.cpp:89-107 | The parse loop accepts exactly concatenations of frames and counts them |
| `Memcache.MemcacheRequest.GetOrDelete` | brpc-1.9.0/src/brpc/memcache.cpp:345-365 | Header and key are the frame of that request, one more is counted, and the buffer stays pipelined_count well-formed frames exactly if the key is under 2^32 bytes |
| `Memcache.MemcacheRequest.Flush` | brpc-1.9.0/src/brpc/memcache.cpp:392-416 | The same with 0 or 4 bytes of extras, for any timeout |
| `Memcache.MemcacheRequest.Store` | brpc-1.9.0/src/brpc/memcache.cpp:536-561 | The same with 8 bytes of extras, key, value and CAS: well-formed exactly if 8 + key + value is under 2^32 |
| `Memcache.MemcacheRequest.Counter` | brpc-1.9.0/src/brpc/memcache.cpp:686-707 | The same with 20 bytes of extras and a key |
| `Memcache.MemcacheRequest.Touch` | brpc-1.9.0/src/brpc/memcache.cpp:805-824 | The same with 4 bytes of extras and a key |
| `Memcache.MemcacheRequest.Version` | brpc-1.9.0/src/brpc/memcache.cpp:829-846 | The same, without a body |
| `Memcache.MemcacheRequest.MergeFrom` | brpc-1.9.0/src/brpc/memcache.cpp:146-150 | Merging appends the other request's bytes and count, and the result is well-formed exactly if both were |
| `Memcache.MemcacheRequest.MergePartialFromCodedStream` | brpc-1.9.0/src/brpc/memcache.cpp:77-110 | Accepts exactly whole frames, in any blocks, and otherwise changes nothing |
| `Memcache.Reparse` | brpc-1.9.0/src/brpc/memcache.cpp:77-110 | A built request serialized and parsed in any blocks is the same request with the same count |

## Left out

- Sockets, event dispatchers, SSL, RDMA, bthread scheduling and bthread ids: they are environment steps, events or data.
- Memory ordering of atomics other than the relaxed load in the parent's Run: steps are sequentially consistent.
- Failed allocations (ENOMEM paths), arenas and short-string buffers: strings and arrays are modelled by content.
- Excluded servers, spans, error texts, HTTP fields, stream creators, circuit breakers and backoff in the controller: they do not drive the machine.
- The machine behind SelectiveChannel, and `IsSameThreadAsCallMethod`, which only picks the thread of OnComplete.
- RedisCommandFormatV, which rests on va_list and vsnprintf, and `_cached_size_` of the Redis response.
- Reply trees and AMF trees are values: a sub-reply or nested object is rebuilt rather than updated in place, so aliasing of nodes is not modelled.
- Protobuf-reflection forms of the AMF reader and writer, which use a foreign descriptor API.
- CutInputMessage's choice of protocol and the message-size statistics in the input messenger.
- The Pop functions of the memcache response, NotifyOnStopped of the attachment, the acceptor and fixed tables: they would only add easy members.
- RespRoundTrip.RepliesSurviveAnySplit: leaves out the integer -2^63, whose negation in append_decimal overflows, and lengths beyond int.
- RpcRetryProofs.RunInv: takes at most one firing of the backup timer, events on the id of the RPC itself to be timeouts, cancels and that timer, and events without an error to be responses, as the rest of the library sends them.
- RedisPipeline.SerializeTo: takes replies whose integer is not -2^63 and whose lengths fit in an int.
- AmfCodec.WriteAMFField: takes strings of at most INT_MAX bytes and arrays below 2^32 items, the widths of putn and of the array size.
- RedisCommand.RedisCommandNoFormat: takes lines of at most INT_MAX components, since the counter is an int.
- RedisCommand.RedisCommandParser.Consume: ends in an error of its own where the source writes past its arguments, which it does behind a check that only logs by default.
- RedisCommand.ToLower: does not model the int index of its loop, which overflows on a command name of 2^31 bytes or more; letters are those of the C locale.
- AmfCodec.AMFArray.Add: does not model wrap-around of the 32-bit size.
- Memcache.MemcacheRequest.MergeFrom: does not model wrap-around of the int counter.
- RpcController.Controller.IssueRPC: server selection, connecting and packing are one answer of the environment per version.
