# clientx, verified

`clientx` is a Go client library. Its calls run through a chain of policies (timeout, concurrency limit,
retry, custom), its TCP connections carry typed values in length-prefixed frames, and its errors are wrapped,
joined and classified. This project models those three parts in Dafny and proves what they do over every
input, every run and every interleaving.

**Policy engine.** `engine.dfy` is the attempt loop. Policies, the transport call and the sleep are arbitrary
functions from a world to a new world, so a policy may remember anything; a call may return, fail or panic
where the engine recovers. Each call is recorded in a trace. `traces.dfy` proves call order, error and result
properties for all of them, `answers.dfy` says what passes and attempts come to in terms of what the policies, the
transport and the sleep answer, `retry.dfy`, `backoff.dfy` and `attempts.dfy` treat the retry policy, `contexts.dfy` and
`builtins.dfy` the deadlines and cancellations of the timeout policy. The Go loop has no bound; `rounds` is the
number of rounds looked at, and `Attempts.InvocationBound` says how many rounds are enough. The loops are
methods proved equal to a recursive function.

**Concurrency limiter.** `bulkhead.dfy` has the limiter as an object and a system of invocations that take
interleaved steps over shared limiters; contexts may end at any moment. `liveness.dfy` proves deadlock freedom,
termination and a clean finish. `embedding.dfy` shows that every run of the engine is a run of such a process.

**Framed streams.** `framing.dfy` is the format as printer and parser; `transport.dfy` the connection, which
moves any number of bytes per call and may fail at any call, with the hooks that count them; `framer.dfy` and
`codec_conn.dfy` the loops over it. `link.dfy` joins a writer and a reader at the grain of single calls.
`conformance.dfy` shows that the calls the loops make are steps of that link. `bytes_codec.dfy` is the codec that
reuses the target's array.

**Errors.** `errors.dfy` has errors as the trees that `errors.Is` and `errors.AsType` search, `kinds.dfy`
classification, wrapping and retryability.

## What the proofs found

- With more than one tightening timeout in a chain only the innermost context is cancelled after an attempt;
  the others stay until their deadline (`BuiltIns.OuterContextStays`). `BuiltIns.AllReleasedExactly` gives the
  exact condition on the configured timeouts; timeouts in ascending order leave nothing behind, whatever the clock
  does (`BuiltIns.InvocationReleases`).
- A limiter that occurs in a chain more often than it has slots makes an invocation wait for itself, and only
  then (`Liveness.SelfDeadlockExactly`); two chains with opposite orders can block each other
  (`Liveness.OppositeOrdersDeadlock`), chains with a common order never do.
- A jittered delay that leaves the int64 range is negative on hardware that converts to the least int64. That can
  happen exactly when the upper end of the jitter interval exceeds 2^63 (`Retry.NegativeDelayByConfiguration`;
  `Retry.NegativeDelayHappens` is such a policy). The engine then does not wait at all, so the bounds on waits
  still hold.
- The errno test that follows `*os.SyscallError` never answers yes (`Kinds.NoErrnoNotRefused`).
- Over a dialled connection, a stream that ends inside a frame is reported just as one that ends between frames,
  wherever it is cut: `timeoutConn` wraps the end of input, and `io.ReadFull` recognises only the bare one. The
  unexpected end of input never occurs (`Framer.NeverUnexpected`). Over a bare connection passed to `NewCodecConn`
  the two look alike exactly right behind a header that announces a body (`Framer.EndInsideFrameExactly`;
  `Framer.EndsInsideFrame` has such inputs).
- A write that moves the last byte of a frame and still reports an error leaves a value that can be read though
  its `WriteValue` failed (`Link.FailedValueRead`), and that is the only way
  (`Link.FailedValueReadableExactly` has the exact condition); `Link.FifoRefinement` therefore speaks of offered and of written values.

## Model

| member | source | states |
|---|---|---|
| Traces.BeforeIsLongestPrefix | policy.go:183-204 | the recursive Before pass applies exactly the longest succeeding prefix, as calling the policies one by one would, tries one more, and returns the context from before the failing policy |
| Answers.BeforePassExactly | policy.go:183-226 | the pass stops exactly at the first policy whose Before returns an error, which is inside the error reported; a panic counts as applied, a nil context leaves the previous one, any other is the next one |
| Answers.AfterPassExactly | policy.go:228-242 | the pass ends without an error exactly when it began without one and every applied policy, in its world and with the error it was given, answered nil or panicked; every error answered is inside, with the base error and nothing else |
| Answers.RefusedAttemptExactly | policy.go:97-100 | after a refused Before no call is made, and that policy's own error is inside the one returned, as are the After errors |
| Answers.ExecutedAttemptExactly | policy.go:102-114 | the transport is called in the world and context the Before answers lead to; success exactly when it and every After answer are free of errors; otherwise the error is returned, or the engine sleeps |
| Answers.SettledAfterAttempt | policy.go:263-287 | a positive wait goes on exactly when the root context does not end first, and otherwise returns with both errors inside; a wait of zero does not look at the context |
| Answers.NoPoliciesOneCall | policy.go:96-106 | without policies a run is one call, in the given world and context |
| Engine.ApplyAfterPolicies | policy.go:118-128 | the backward loop computes the fold that the lemmas below are about |
| Traces.AfterIsBackwardFold | policy.go:118-128 | the j-th After call is on the j-th applied policy from the end, in the world and with the error its predecessors left |
| Traces.AfterKeepsErrors | policy.go:118-128 | the error is nil exactly when the base error is and every After returned nil or panicked; the base error and every returned error stay in the tree |
| Traces.AfterAccumulates | policy.go:118-128 | conservation: the leaves of the result are those of the base error and of the After errors, in call order |
| Traces.AfterGivenAccumulated | policy.go:121-125 | every After is given exactly what had accumulated when it was called |
| Traces.RefusedAttempt | policy.go:97-100 | a failed Before means no transport call, no retry, and an error built from that Before error alone |
| Traces.ExecutedAttempt | policy.go:102-114 | an attempt past Before calls the transport once and reports its value and error |
| Traces.BalancedRun | policy.go:94-116 | over every run: Before of a prefix, the call only at the top, After of the same prefix in reverse, a new attempt only after a sleep, also with panics and failures |
| Traces.KindPreserved | policy.go:102-114 | the kind of the last transport error is the kind of the returned error, through joined After and sleep errors and any number of annotations |
| Traces.KindThroughAnnotations | tcp/client.go:149-154 | wrapping by the caller does not change the kind |
| Traces.NoSuccessDropped | policy.go:102-111 | with After errors absent, a run succeeds exactly when its last call did, with that value, and no earlier call succeeded |
| Engine.RunAttempt | policy.go:97-114 | the loop body computes one attempt |
| Engine.InvokeWithPolicies | policy.go:73-116 | the run is that of the loop with the given context, or the background one for nil, the policies that are not nil, and the given function and surroundings; a nil function is refused before any policy runs |
| Engine.FilterKeepsExactly | policy.go:160-164 | filtering keeps exactly the policies that are not nil, in order, wherever nil ones stand |
| Attempts.DecisionIsMaximum | policy.go:130-158 | every decider is asked in order; the engine retries exactly when one votes for it and waits for the longest wait voted, never a negative one |
| Attempts.VoteBounds | policy_retry.go:87-101 | a retry policy votes exactly when it finds the root context live, the error retryable and an attempt left; its wait is at most maxDelay |
| Attempts.VotesExactly | policy.go:142-155 | every decider is asked in the world the ones before it left; a custom one votes as it answers, a retry policy exactly when an attempt is left, it finds the root live and accepts the error, and then for its backoff delay |
| Attempts.DecisionWorld | policy.go:142-155 | the engine goes on in the world that the last decider left |
| Attempts.MostAttemptsIsLargest | policy_retry.go:91 | the maximum of the bounds below is one of the policies' maxAttempts, or 1 |
| Attempts.LargestDelayIsLargest | policy_retry.go:106-108 | the longest delay of the bounds below is one of the policies' maxDelay, or 0 |
| Backoff.RunBacksOff | policy.go:108-114 | between any two calls of a run there is a wait, and the i-th is the backoff after attempt i of a retry policy with an attempt left |
| Backoff.OnePolicyBacksOff | policy_retry.go:103-110 | with one retry policy and no jitter the waits are min(maxDelay, trunc(base * multiplier^(i-1))) |
| Attempts.InvocationBound | policy.go:96-115 | at most max(1, largest maxAttempts) calls, an end within as many rounds, every wait between 0 and the largest maxDelay, and all waits together at most (that maximum - 1) times it |
| Attempts.AttemptsExact | policy.go:96-115 | the number of calls is exactly that maximum if and only if, in this run, every attempt gets through Before and every one but the last fails, with an error some policy accepts while it finds the root live, and an uncut sleep |
| Attempts.AttemptsExactWhenRetryable | policy_retry.go:87-101 | in particular when every error of the run satisfies every policy's predicate |
| Retry.NewRetryPolicy | policy_retry.go:32-77 | every configuration normalises to a valid policy: the default of each field, the clamps of multiplier and jitter, and the default predicate |
| Retry.NormalisationKeepsValid | policy_retry.go:32-77 | normalisation leaves exactly the valid settings alone |
| Retry.PlainDelayIsCappedExponential | policy_retry.go:107-117 | without jitter the delay is min(maxDelay, trunc(base * multiplier^(attempt-1))) and at least the base |
| Retry.PlainDelayNondecreasing | policy_retry.go:103-117 | later attempts wait no less |
| Retry.JitteredDelayRange | policy_retry.go:116-131 | every draw lands between (1-j) and (1+j) times the plain delay, capped by maxDelay |
| Retry.BackoffDelayExactly | policy_retry.go:103-132 | the delay is the capped exponential, or with jitter the truncated point of the interval around it that the draw picks, capped; and the range that leaves |
| Retry.JitterEnds | policy_retry.go:116-118 | the ends of the interval are (1-j) and (1+j) times the delay |
| Retry.JitteredIsPoint | policy_retry.go:123 | a draw picks the point of the interval in proportion |
| Retry.PowLaws | policy_retry.go:107 | the power used is the power |
| Retry.NegativeDelayExactly | policy_retry.go:103-132 | for which draws exactly a delay is negative, and that none exceeds maxDelay |
| Retry.NegativeDelayByConfiguration | policy_retry.go:118-131 | for which configurations exactly some draw gives a negative delay |
| Retry.NegativeDelayHappens | policy_retry.go:118-131 | one such policy and draw |
| Contexts.DeadlineIsEarliest | policy_timeout.go:25 | the deadline of a context is the earliest in its chain, and one of them |
| Contexts.CancelIsNearest | policy_timeout.go:38 | the cancel handle found is the one nearest to the leaf |
| Contexts.LayersHold | policy_timeout.go:29-30 | a context descends from exactly the members of its chain |
| BuiltIns.RefusedSlot | policy_bulkhead.go:32-35 | a refused slot carries the error of the context that ended, canceled or past its deadline |
| BuiltIns.BuiltInDeciders | policy_retry.go:87-101 | of the built-in policies only retry policies decide |
| BuiltIns.DeadlineIsMinimum | policy_timeout.go:19-31 | the transport's context descends from the root and its deadline is the minimum of the root's and every guard's clock reading plus timeout |
| BuiltIns.DeadlineOrderIndependent | policy_timeout.go:19-31 | with a fixed clock the deadline depends on the collection of timeouts only |
| BuiltIns.CancelScope | policy_timeout.go:29-42 | after any attempt exactly the innermost tightened context is cancelled, nothing of the root; all are released exactly when at most one was tightened |
| BuiltIns.AllReleasedExactly | policy_timeout.go:19-42 | with a standing clock that is the case exactly when none of the guards reached before a refused slot is shorter than the first effective one |
| BuiltIns.ReachedIsApplied | policy.go:192-201 | those are the policies whose After runs |
| BuiltIns.OuterContextStays | policy_timeout.go:29-42 | an attempt through two guards after which the outer context is not cancelled |
| BuiltIns.ReleasedIfFirstIsShortest | policy_timeout.go:19-42 | with a clock that moves, and slots that may be refused, everything is released when no guard behind the first one to take effect is shorter |
| BuiltIns.InvocationReleases | policy.go:96-116 | a whole invocation through guards in ascending order leaves no context uncancelled |
| BuiltIns.BuiltInAttemptsExact | policy.go:96-115 | through built-in policies the number of calls is the maximum exactly when, along the run, every slot is granted and every call but the last fails with an error some policy accepts while it finds the root live |
| BuiltIns.BuiltInInvocation | policy.go:96-116 | every invocation through built-in policies ends, within the call bound, and loses no success |
| Bulkhead.ConcurrencyLimiter.constructor | policy_bulkhead.go:14-19 | capacity max(1, maxInFlight), empty |
| Bulkhead.ConcurrencyLimiter.Before | policy_bulkhead.go:28-35 | takes a slot if one is free, or refuses if the context is done; either when both hold |
| Bulkhead.ConcurrencyLimiter.After | policy_bulkhead.go:38-44 | gives back a slot, or leaves an empty limiter alone |
| Bulkhead.SlotsFollowLimiter | policy_bulkhead.go:28-44 | a step of the system changes the limiter it faces as that object would and no other |
| Bulkhead.SlotConservation | policy_bulkhead.go:28-44 | in every reachable state each occupancy is the sum of what the processes hold and within capacity; the default case of After is never taken; a deciding, sleeping or finished process holds nothing |
| Bulkhead.OnlyEndedContextsRefuse | policy_bulkhead.go:28-44 | as long as no context ends, no limiter refuses and no sleep is cut short; a limiter's After keeps a success |
| Bulkhead.ActionsDecide | policy.go:96-116 | under every interleaving: a process that has come down may retry exactly when its transport call ran, the attempt reported an error and attempts are left; a limiter may refuse exactly when the attempt's context or the caller's ended; a sleep may be cut exactly when the caller's did |
| Bulkhead.ProcessFollowsEngine | policy.go:96-116 | under every interleaving the calls of each process obey the discipline of BalancedRun |
| Embedding.EngineRunIsProcessRun | policy.go:96-116 | conversely every run of the engine, values and errors aside, is made by a run of one process with room for its chain, finished when the engine has returned |
| Embedding.LoopMakes | policy.go:96-116 | what each turn of the loop does to a process, the whole loop does |
| Liveness.NoDeadlock | policy_bulkhead.go:28-35 | with limiters in one common order some process can always move until all are done |
| Liveness.RunsAreBounded | policy.go:96-115 | every run, contexts ending included, is at most as long as the measure of its first state |
| Liveness.CleanFinish | policy_bulkhead.go:38-44 | a run that cannot go on has finished every invocation and emptied every limiter |
| Liveness.CanFinish | policy.go:96-116 | every state on the way can be continued to that end |
| Liveness.SelfDeadlockExactly | policy_bulkhead.go:28-35 | an invocation on its own can wait for itself exactly when some limiter occurs more often than it has slots |
| Liveness.OppositeOrdersDeadlock | policy_bulkhead.go:28-35 | a concrete deadlock of two chains with opposite orders |
| Framing.NewLengthPrefixed | codec/framer.go:27-32 | the limit in force is the given one, or the default for zero, and never zero |
| Framing.SizeRoundTrip | codec/framer.go:80-82 | the header is a lossless encoding of every permitted size, and every header is one |
| Framing.BigEndian | codec/framer.go:82 | headers are ordered as the sizes they announce, most significant byte first |
| Framing.ParseInvertsEncode | codec/framer.go:42-64 | a frame is accepted exactly when the stream starts with its encoding within the limit |
| Framing.ParseAllOfEncoded | codec/framer.go:35-65 | reading back any list of frames gives the list and leaves what follows |
| Framing.CutStream | codec/framer.go:43-63 | a stream cut at any byte yields the first frames and then an incomplete one |
| Framing.WholeBeforeCut | codec/framer.go:43-63 | those are exactly the frames wholly before the cut |
| Framing.UniqueReading | codec/framer.go:68-95 | the code is prefix-free and every stream has one reading |
| Transport.Hooks.EmitIOSafe | hook.go:81-89 | a nil hook is skipped, any other is called once, and no panic gets out |
| Transport.Hooks.EmitIO | hook.go:61-69 | every non-nil hook gets the event once, in order, whatever other hooks do; every observability hook counts it |
| Transport.EveryHookSeesEveryEvent | hook.go:65-69 | over any sequence of calls every non-nil hook sees every event once, in order |
| Transport.DispatchInListOrder | hook.go:65-69 | for one event hooks are called in list order |
| Transport.Hooks.OnIO | hook_observability.go:83-102 | the counters grow by one call and by the bytes moved |
| Transport.TimeoutConn.Read | tcp/conn.go:27-49 | one event per call with the bytes it moved, also with an error; counters keep agreeing with the bytes moved; every error of a dialled connection is wrapped, of a bare one none |
| Transport.TimeoutConn.Write | tcp/conn.go:27-49 | the same for writing |
| Framer.WriteFull | codec/framer.go:97-108 | what went out is a prefix of the data, all of it exactly when no call failed |
| Framer.WriteFrame | codec/framer.go:68-95 | all of the frame on success, nothing when over the limit, else a prefix of header and body; counters grow by 4 plus the length |
| Framer.ReadFrame | codec/framer.go:35-65 | however the bytes arrive: a body with exactly its encoding consumed, a header over the limit, or an error with no whole frame consumed, and which error that is |
| Framer.ReadFull | codec/framer.go:43-63 | an error with the last byte is dropped; a bare end of input is reported as such exactly when no byte has come, and as unexpected after some; a wrapped one is passed on as it is |
| Framer.NeverUnexpected | tcp/conn.go:40-45 | over a dialled connection neither a bare nor an unexpected end of input is reported; the wrapped end is, exactly where the last call brings it and the frame is not whole |
| Framer.EndInsideFrameExactly | codec/framer.go:43-63 | when exactly an end of input inside a frame is reported as one between frames: always over a dialled connection, right behind the header over a bare one |
| Framer.EndsInsideFrame | codec/framer.go:43-63 | what is reported for inputs that end in a header, behind it, and in a body |
| Framer.WriteFrames | codec/framer.go:68-95 | repeated writes put the encodings of the frames on the stream, up to the first that fails and a prefix of that one |
| Framer.ReadFrames | codec/framer.go:35-65 | repeated reads, whatever the chunks, give the frames the stream starts with and consume exactly their encodings |
| Framer.FramesComeBack | codec/framer.go:35-65 | reading as many frames as were sent gives those frames and leaves exactly what follows |
| Framer.CutFramesComeBack | codec/framer.go:43-63 | a reader that has used up a stream cut at any byte has exactly the frames wholly before the cut, and an error |
| Framer.ReadIsParse | codec/framer.go:35-65 | a read without error returns the parse of what the peer sent |
| CodecConns.CodecConn.WriteValue | tcp/codec_conn.go:77-88 | a value that cannot be encoded or framed leaves the stream as it was |
| CodecConns.CodecConn.ReadValue | tcp/codec_conn.go:115-126 | a value that cannot be decoded consumes exactly its own frame |
| CodecConns.ReadsWhatWasWritten | tcp/codec_conn.go:77-126 | with an inverse codec the value read is the one whose frame comes next |
| Link.FifoRefinement | tcp/codec_conn.go:77-126 | over every interleaving and chunking values are read in the order written, a prefix of them until everything is delivered and read, then all |
| Link.ReaderDownExactly | codec/framer.go:48-53 | with a limit of its own, and no read error, the reader stops exactly at the first value whose frame is over its limit, having read all before it |
| Link.FailedValueReadableExactly | tcp/codec_conn.go:77-126 | a value read beyond those written is one whose failing write moved its last byte; it can still be read exactly then, if every frame is within the reader's limit |
| Link.FailedValueRead | codec/framer.go:97-108 | one such run |
| Conformance.WriteFrameSteps | codec/framer.go:68-108 | the Write calls of one WriteFrame are steps of the link's writer, to the state its result says |
| Conformance.ReadFrameSteps | codec/framer.go:35-65 | the Read calls of one ReadFrame are steps of the link's reader, to the state its result says |
| Conformance.CallsAreRun | tcp/conn.go:27-49 | calls taken one after the other are a run, one action for each event |
| BytesCodec.Marshal | codec/bytes.go:15-24 | a fresh copy, or an error for another type |
| BytesCodec.Unmarshal | codec/bytes.go:26-35 | an error exactly for another type of target; otherwise the target holds the data even if both share an array; its array is reused when large enough and nothing beyond is touched |
| BytesCodec.RoundTrip | codec/bytes.go:15-35 | decoding what was encoded gives the bytes back |
| Errors.FindIsFirstInPreorder | error.go:145-151 | the search finds the first match in pre-order |
| Errors.JoinKeepsBoth | policy.go:124 | a join holds both errors and nothing else |
| Kinds.NoErrnoNotRefused | error.go:176-178 | the recursion below *os.SyscallError never answers yes |
| Kinds.ConnRefusedFlatForm | error.go:169-180 | the recursive test is: ECONNREFUSED anywhere, or 10061 as the first errno |
| Kinds.ClassifyExactly | error.go:153-198 | when exactly an error is classified as canceled, DNS or timeout |
| Kinds.ClassifyRefusedExactly | error.go:200-253 | when exactly an error is classified as a refused connection, and what decides when it is not |
| Kinds.ClassifyClosedExactly | error.go:193-198 | when exactly an error is classified as closed, by its type or by its message |
| Kinds.WrapIdempotent | error.go:116-133 | wrapping again changes nothing; the wrapped error stays inside |
| Kinds.KindIsFirstClient | error.go:145-151 | KindOf is the kind of the first *Error in preorder, Unknown without one or without an error |
| Kinds.BuiltErrors | error.go:116-151 | over every construction: no *Error inside another, and KindOf is the kind fixed first |
| Kinds.WrapRecords | error.go:116-133 | a wrap records operation, address, protocol and an explicit kind |
| Kinds.RetryableByKind | policy_retry.go:145-156 | for every kind by name, whether a client error of that kind is retried |
| Kinds.RetryableByContext | policy_retry.go:134-143 | an ended context decides before any kind |
| Kinds.TimeoutsByType | error.go:223-228 | which single errors time out |
| Kinds.TimeoutsThroughWraps | error.go:223-228 | operation and system call errors ask the error inside |
| Kinds.TimeoutsThroughClient | error.go:87-96 | a client error times out by its kind or by the first net.Error inside |
| Kinds.ForeignRetryable | policy_retry.go:134-157 | without an *Error inside, retryable exactly for a deadline that is not a cancellation |
| Kinds.WrappedRetryable | policy_retry.go:138-151 | a wrapped error is retryable exactly when its inferred kind is |
| Kinds.TimeoutSurvivesWrap | error.go:87-96 | wrapping keeps a timeout visible through net.Error |

## Left out

- Sockets, TLS, DNS, dialing and resty: the transport call is an arbitrary returning function; one that panics
  is not modelled, since the engine does not recover it.
- Timers, the scheduler and the random source: clock readings, interleavings and draws are arbitrary values.
- Floating point rounding, NaN and infinities: multiplier, jitter and delays are reals.
- Exact form of oops errors and error messages: an annotation is a node with one child, and the substring tests
  of `classifyMessageError` are an arbitrary function of the error.
- `Is` methods of foreign error types and typed nil pointers; errno numbers are those of Linux.
- A root context that already carries another chain's cancel key, and direct calls of a policy outside the engine.
- Limiters that are nil or zero values, nil readers, writers, connections, codecs and framers: argument checks
  before any effect.
- A writer and a reader are one goroutine each per direction; header and body are separate writes.
- Hooks shared by several connections: counters are compared with the bytes of one connection.
- Loops over many frames are the caller's: `Framer.ReadFrames` and `Framer.WriteFrames` stand for repeated calls.
- Attributes of metrics, dial events, the logging hook: formatting and labels.
- JSON and text codecs, the codec registry, configuration defaults, options, presets, HTTP and UDP clients: field
  defaults, map lookups and library wrappers.
- Operations passed to policies: constant during an invocation, so part of what a policy is.
- BuiltIns.AllReleasedExactly: the condition on timeouts is exact for a standing clock only; with a moving clock
  BuiltIns.CancelScope is exact in the number of contexts that were tightened.
- BuiltIns.InvocationReleases: the transport, the sleep and the votes are taken to create no context of the chain's.
- Liveness.NoDeadlock: a common order is sufficient; the exact condition is given for one invocation on its own only.
- Transport.TimeoutConn.Read: the deadline that is set is not modelled, only that setting it may fail.
