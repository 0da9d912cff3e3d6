# A verified model of SynVoid's stateful cores

This project models, in Dafny, the parts of SynVoid that carry state, wrap-around
arithmetic or a protocol, and proves what they are for:

- the JavaScript side of the proof-of-work module: the object heap shared with
  WebAssembly (`ObjectHeap`), the reference-counted closure (`MutClosure`), strings
  crossing the boundary (`Utf`, `PassString`) and the fallback solver (`ProofOfWork`);
- the admin interface: session and CSRF tables (`AdminTables`, `AdminStore`,
  `AdminSweeps`, `AdminTokens`, `AdminSessions`), the two middleware layers in front of
  every handler (`AdminGate`, `AdminMiddleware`), the aggregation of site metrics
  (`HashFold`, `SiteMetrics`), the audit log (`AuditTrail`) and saving and rolling back
  configuration versions (`ConfigVersions`);
- the kernel filters: the ICMP filter with its parsers and token bucket (`IcmpPacket`,
  `TokenBucket`, `IcmpFilter`) and the SYN flood filter (`SynWindow`, `SynFlood`), both
  with one copy of their state per CPU (`PerCpu`).

`Basics` holds the few types and counters that several of them share.

Code that changes things in place is a class or a method with loops; its contract ties
the new state to a function of the old one, and the lemmas about whole runs are about
those functions. Clock readings, fresh identifiers, digests, the outcome of a write, the
allocator and the login limiter are inputs. Where a hash map's iteration order matters,
it is left open.

Some promises turn out to hold only under a condition. Then the code is modelled as it
is, the condition is stated as an if-and-only-if, and a lemma at a concrete input shows
the failure:

- dropping a heap slot twice closes the free list into a loop
  (`ObjectHeap.DropSafeIffNotFree`, shown by `ObjectHeap.SecondDropBreaksHeap`);
- a closure called after its release runs its destructor again, with a null pointer
  (`MutClosure.OneReleaseDestroysOnce`, shown by `MutClosure.LateCallDestroysTwice`);
- a string survives the trip into WebAssembly and back exactly when its surrogates are
  paired (`PassString.PassedStringReadsBack`, shown by
  `PassString.LoneSurrogateReadsBackChanged`);
- a long enough pause between two packets wraps the refill product and is worth nothing
  (`TokenBucket.EmptyAdmitsExactly`, shown by `TokenBucket.WrappedGapAdmitsNothing`);
- a global window keeps to its limit exactly when fewer than 2^32 SYNs fall into it
  (`SynWindow.WindowKeepsLimitIffNoWrap`, shown by `SynWindow.WrapExceedsLimit`);
- a source that finds its table full is not limited at all (`SynFlood.SourceLimit`, shown
  by `SynFlood.FullTableExceedsLimit`);
- IPv4 options are read as the ICMP header (`IcmpPacket.Parse4InvertsBytesIff`, shown by
  `IcmpPacket.OptionsMisread`);
- a line of the audit file that is not UTF-8 ends the reading of it, and a write that
  fails halfway takes the next entry with it (`AuditTrail.SuccessorReadsBack`, shown by
  `AuditTrail.UndecodableLineHidesEntry` and `AuditTrail.TornLineTakesNext`);
- configuration versions saved in one second share a file, which the later one overwrites,
  also when it fails, and the eviction of any of them removes (`ConfigVersions.ContentExact`,
  shown by `ConfigVersions.SameSecondLosesText`, `ConfigVersions.FailedSaveLosesText`,
  `ConfigVersions.EvictionRemovesSharedFile` and `ConfigVersions.ClockSetBackLosesFile`);
- the save with which a rollback begins can evict or overwrite the version asked for
  (`ConfigVersions.RollbackConfigExact`, shown by `ConfigVersions.RollbackToOldestFails`).

The ICMP filter's own documentation says that bursts spread over CPUs may exceed the
limits slightly (ebpf-icmp/README.md:63). The code allows up to the limit once for each
CPU: `TokenBucket.AdmissionBoundAllCpus` and `IcmpFilter.RateLimitAllCpus` state the
bound, and `TokenBucket.AllCpusReachBound` a run that reaches it.

## Model

| member | source | states |
|---|---|---|
| ObjectHeap.RunRefinesMap | static/pow_wasm.js:856-863 | over every run in which only live handles are passed in, added handles are not live, every value read or taken is the one stored under its handle, the final array still represents that map, and it has grown by exactly the peak number of live handles |
| ObjectHeap.AddRepresents | static/pow_wasm.js:856-863 | adding hands out a slot that is not live, takes it off the chain of free slots, leaves the reserved slots and all other handles alone, and grows the array only when no slot is free |
| ObjectHeap.DropRepresents | static/pow_wasm.js:934-938 | dropping a live handle puts its slot at the head of the chain and leaves all other handles alone |
| ObjectHeap.InitialRepresentsEmpty | static/pow_wasm.js:976-979 | the initial 1028 slots represent the empty map with no free slot |
| ObjectHeap.AddAlwaysPossible | static/pow_wasm.js:856-863 | no legal run leaves `heap_next` pointing at something that cannot be handed out |
| ObjectHeap.DropSafeIffNotFree | static/pow_wasm.js:934-938 | dropping a slot leaves a well-formed heap exactly when the slot was not already free |
| ObjectHeap.DoubleDropLoops | static/pow_wasm.js:934-938 | after a free slot is dropped again, no finite chain of distinct slots describes the free list |
| ObjectHeap.SecondDropBreaksHeap | static/pow_wasm.js:934-938 | after one add and one take, dropping the same handle again leaves an array no free list fits, and one add later no value can be added |
| ObjectHeap.Heap.constructor | static/pow_wasm.js:976-979 | the module starts with 1028 slots, the last four of them undefined, null, true and false, and nothing live |
| ObjectHeap.Heap.AddHeapObject | static/pow_wasm.js:856-863 | returns a handle that was not live and maps it to the value; the peak follows the live count |
| ObjectHeap.Heap.GetObject | static/pow_wasm.js:966 | a live handle reads its own value, a reserved one its constant |
| ObjectHeap.Heap.DropObject | static/pow_wasm.js:934-938 | removes exactly that handle; reserved handles are ignored |
| ObjectHeap.Heap.TakeObject | static/pow_wasm.js:1057-1061 | returns the value of the handle and removes exactly that handle |
| MutClosure.OneReleaseDestroysOnce | static/pow_wasm.js:985-1011 | for every script with one release, nested anywhere in any calls, the destructor runs with the original pointer, outside every call, when the action holding the release ends, and once more with a null pointer for each call begun later; so exactly once if and only if the release is in the last action |
| MutClosure.NoReleaseDestroysAtCollection | static/pow_wasm.js:865-867 | without a release nothing is destroyed by any nesting of calls until the function is collected; only calls that do not nest see the pointer |
| MutClosure.EnoughReferencesKeepOpen | static/pow_wasm.js:987-1008 | while the count exceeds the releases to come, nothing is destroyed, the pointer is back afterwards, and nested calls saw zero |
| MutClosure.LateCallsDestroyAgain | static/pow_wasm.js:987-1008 | each call after the release runs the destructor once more with a null pointer |
| MutClosure.SplitsAtRelease | static/pow_wasm.js:1002-1008 | every script with one release is calls without one, the action that holds it, and calls without one |
| MutClosure.LateCallDestroysTwice | static/pow_wasm.js:987-1008 | a release followed by one call runs the destructor twice, the second time with a null pointer |
| MutClosure.TwoReleasesDestroyDuringCall | static/pow_wasm.js:1002-1008 | two releases inside one call run the destructor during that call, with a null pointer |
| MutClosure.DestroysDuringCallIff | static/pow_wasm.js:987-1008 | with one reference left, a call runs the destructor before it ends exactly when two or more references are given up during it, at whatever nesting, and every such run gets a null pointer |
| MutClosure.InsideDestroysNull | static/pow_wasm.js:990-1008 | while a call is active the pointer is out, and whatever is destroyed by any nesting of calls gets a null pointer |
| MutClosure.Closure.Real | static/pow_wasm.js:987-1001 | a call, with whatever happens during it, performs exactly the modelled action |
| MutClosure.Closure.CbUnref | static/pow_wasm.js:1002-1008 | gives up one reference and destroys at zero |
| Utf.UnitsRoundTrip | static/pow_wasm.js:1022 | going from UTF-16 to scalar values and back keeps the length, and keeps the string exactly when every surrogate is paired |
| Utf.DecodeInvertsToBytes | static/pow_wasm.js:1067-1075 | strict decoding undoes UTF-8 encoding |
| Utf.ToBytesInvertsDecode | static/pow_wasm.js:1067-1075 | whatever the strict decoder accepts is the encoding of what it returns |
| Utf.Utf8Layout | static/pow_wasm.js:1022 | each character takes one to four bytes by its size, with the lead byte and six bits in each further byte that section 3 of RFC 3629 lays down |
| Utf.Utf16Layout | static/pow_wasm.js:1022 | a character beyond 16 bits is a high and a low surrogate of ten bits each |
| Utf.ThreeBytesPerUnit | static/pow_wasm.js:1045 | the encoding takes between one and three bytes per code unit |
| Utf.AsciiPrefix | static/pow_wasm.js:1036-1044 | an ASCII prefix is copied unchanged, and cutting behind it changes nothing in the encoding of the rest |
| Utf.EncodeIntoCompleteIffFits | static/pow_wasm.js:1047 | encoding into a buffer writes the whole text exactly when it fits |
| PassString.PassStringToWasm | static/pow_wasm.js:1020-1055 | with and without a reallocator, a block new to the caller ends up exactly as long as the UTF-8 encoding of the whole string and holding it, and every other block is untouched |
| PassString.CopyAscii | static/pow_wasm.js:1034-1040 | the first phase stops at the first character that is not ASCII, with the encoding's beginning in place |
| PassString.EncodeRest | static/pow_wasm.js:1041-1049 | growing to three bytes per remaining unit always leaves room for the rest of the encoding |
| PassString.PassRest | static/pow_wasm.js:1041-1051 | the second phase ends with the block shrunk to exactly the encoding |
| PassString.PassEncoded | static/pow_wasm.js:1021-1027 | the one-shot branch leaves the same bytes and length |
| PassString.PassedStringReadsBack | static/pow_wasm.js:953-956 | reading a passed string back never fails and gives the same string exactly when every surrogate is paired |
| PassString.LoneSurrogateReadsBackChanged | static/pow_wasm.js:1021-1027 | a lone high surrogate is passed as the bytes of U+FFFD and reads back as that |
| ProofOfWork.HasLeadingZeros | static/pow.js:26-36 | for every difficulty the loops over bits answer yes exactly when the digest, read as a number, lies below 2 to the power of its bits less the (clamped) difficulty |
| ProofOfWork.SolvePow | static/pow.js:55-65 | the search returns the decimal numeral of least value below 10^8 for which the digest of the challenge followed by it meets the difficulty, or nothing when there is none |
| ProofOfWork.DecimalIsNumeral | static/pow.js:58 | the text of a nonce has digits only, no leading zero but in "0", and the value of the nonce |
| ProofOfWork.NumeralIsDecimal | static/pow.js:58 | every such numeral is the text of its value |
| AdminTables.RunKeepsInvariant | src/admin/state.rs:770-798 | throughout every run, on any clock, no session owns more than ten tokens |
| AdminTables.StepKeepsInvariant | src/admin/state.rs:745-881 | every operation at any time keeps that |
| AdminTables.GenerateCapsSession | src/admin/state.rs:777-794 | a generation leaves its session with at most ten tokens, the new one among them |
| AdminSweeps.SweepsUnobservable | src/admin/state.rs:806-813 | two runs with the same requests at the same times, with sweeps anywhere in either, answer every validation alike |
| AdminSweeps.EvictionOfUnexpired | src/admin/state.rs:778-793 | what an eviction takes from the unexpired tokens depends on those alone, although expired ones count towards the cap |
| AdminSweeps.SameCallAlike | src/admin/state.rs:745-872 | states with the same unexpired tokens and live sessions answer alike and stay so, also when only one of them sweeps at ten thousand sessions |
| AdminTokens.AcceptedTokenWasIssued | src/admin/state.rs:745-768 | in every run, on any clock, an accepted token was issued to the same session less than an hour before, and neither accepted nor revoked since |
| AdminTokens.AcceptedAtMostOnce | src/admin/state.rs:762-765 | in every run, on any clock, that issues no token twice, no token is accepted twice |
| AdminTokens.RecentTokenIsAccepted | src/admin/state.rs:745-798 | a token that is neither used, revoked nor expired is accepted while fewer than ten newer ones have been issued to its session, unless another was issued to that session at the same instant |
| AdminTokens.RunKeepsTimes | src/admin/state.rs:770-798 | throughout a run no stored token is dated in the future |
| AdminTokens.StoredTokenIsOpen | src/admin/state.rs:770-804 | every stored token was issued as stored and is neither used nor revoked |
| AdminSessions.SessionAnswerExact | src/admin/state.rs:849-867 | a validation succeeds exactly when the session was created, not invalidated since, and its creation, all attempts since and this one are each less than an hour apart |
| AdminStore.AdminState.ValidateCsrf | src/admin/state.rs:745-768 | performs exactly the modelled event and removes the token when it accepts it |
| AdminStore.AdminState.GenerateCsrfToken | src/admin/state.rs:770-798 | evicts the oldest tokens of a full session and no newer ones, leaves other sessions' tokens alone, and ends with at most ten |
| AdminStore.AdminState.InvalidateCsrfTokensForSession | src/admin/state.rs:800-804 | removes exactly the session's tokens |
| AdminStore.AdminState.CleanupExpiredCsrfTokens | src/admin/state.rs:806-813 | removes exactly the expired tokens |
| AdminStore.AdminState.CreateSession | src/admin/state.rs:815-847 | stores the session, after sweeping if ten thousand are stored |
| AdminStore.AdminState.ValidateSession | src/admin/state.rs:849-867 | performs exactly the modelled event, renewing a live session |
| AdminStore.AdminState.InvalidateSession | src/admin/state.rs:869-872 | removes exactly that session |
| AdminStore.AdminState.CleanupExpiredSessions | src/admin/state.rs:874-881 | removes exactly the expired sessions |
| AdminStore.SortByCreatedSorts | src/admin/state.rs:788 | the candidates for eviction end up oldest first, without repeats |
| AdminGate.HandledRequestConsumedToken | src/admin/middleware.rs:189-301 | however requests interleave, a POST, PUT, PATCH or DELETE on a path other than the two socket paths, `/health` and `/api/config/schema`, without a bearer token, reaches a handler only if its session was live and it itself consumed an unexpired token issued to that session |
| AdminGate.OneTokenOneRequest | src/admin/middleware.rs:292-295 | no two such requests get through on the same token, as long as no token is issued twice |
| AdminGate.HandledRequestAuthenticated | src/admin/middleware.rs:84-187 | a handler on a path other than `/health`, the two socket paths, `/api/openapi.json` and those under `/api/docs` runs only after a valid bearer token or an accepted session |
| AdminGate.BeyondCsrf | src/admin/middleware.rs:245-295 | past the CSRF layer a guarded request has passed a session check and then a token check for that session |
| AdminGate.UnguardedGoesOn | src/admin/middleware.rs:197-221 | the CSRF layer leaves every other request alone, without touching the tables |
| AdminGate.LiveSessionPasses | src/admin/middleware.rs:245-270 | in any run, a guarded request whose session has not been idle for an hour passes the session check |
| AdminGate.OpenTokenPasses | src/admin/middleware.rs:292-295 | in any run, a guarded request with a token that is open, less than an hour old and among the ten latest of its session passes the token check |
| AdminGate.AuthExactly | src/admin/middleware.rs:84-187 | behind authentication a request is let through exactly for a valid bearer token or an accepted session, and otherwise answered 429, 503 or 401 |
| AdminMiddleware.CsrfMiddleware | src/admin/middleware.rs:189-301 | performs exactly the steps of the gate model; a request that is not guarded goes on with the tables untouched, and a guarded one goes on exactly if it is not locked out, its session is live and its token is open for it, and is otherwise answered 429 or 403 |
| AdminMiddleware.AuthMiddleware | src/admin/middleware.rs:84-187 | performs exactly the steps of the gate model; a request is handled exactly if its path is public, or it is not locked out and carries a valid bearer token or a live session, and is otherwise answered 429, 503 or 401 |
| TokenBucket.AdmissionBound | ebpf-icmp/src/token_bucket.rs:27-58 | after any past, a stretch of calls admits at most the burst and what its own duration is worth, also when the 64-bit product wraps |
| TokenBucket.AdmitsExactlyAfterGap | ebpf-icmp/src/token_bucket.rs:41-58 | of any number of calls at one instant after a gap exactly as many are admitted as there are tokens left over and whole tokens in the wrapped product, up to a million at once and up to the burst, and the bucket keeps the rest |
| TokenBucket.AdmitsWorthOfGap | ebpf-icmp/src/token_bucket.rs:44-58 | short of wrapping, that is the tokens left over and what the gap is worth |
| TokenBucket.FirstCallsGetNoRefill | ebpf-icmp/src/token_bucket.rs:44 | a bucket that was never called hands out what it holds and gets no refill |
| TokenBucket.AdmissionBoundAllCpus | ebpf-icmp/src/maps.rs:81-87 | with one bucket on each of n CPUs any interleaving admits at most n times that |
| TokenBucket.AllCpusReachBound | ebpf-icmp/src/maps.rs:81-87 | for every n and every burst up to a million there is a run on n CPUs that admits n times the burst at one instant |
| TokenBucket.EmptyAdmitsExactly | ebpf-icmp/src/token_bucket.rs:41-58 | an empty bucket admits exactly when the wrapped product reaches one whole token |
| TokenBucket.WholeTokenAdmits | ebpf-icmp/src/token_bucket.rs:44-54 | short of wrapping, a gap worth a token is admitted |
| TokenBucket.SteadyLoadStarves | ebpf-icmp/src/token_bucket.rs:41-58 | calls each too close to the last to be worth a token are never admitted once the bucket is empty, however many there are |
| TokenBucket.WrappedGapAdmitsNothing | ebpf-icmp/src/token_bucket.rs:46 | a gap whose product wraps to zero is worth nothing |
| TokenBucket.TokenBucketState.TryConsume | ebpf-icmp/src/token_bucket.rs:21-59 | one call computes the verdict and the new state of which the exact numbers above are proved |
| PerCpu.CpusAreSeparate | ebpf-icmp/src/maps.rs:75-87 | with per-CPU state, interleaved arrivals count as if each CPU were alone |
| PerCpu.AllCpusBound | ebpf-icmp/src/maps.rs:75-87 | a bound on what each CPU counts alone, times the number of CPUs, bounds what any interleaving counts |
| IcmpPacket.ParsersAgree | ebpf-icmp/src/icmp.rs:38-225 | both parsers return the same for every packet, wherever it lies |
| IcmpPacket.ParsesExactly | ebpf-icmp/src/icmp.rs:38-129 | a packet is taken for ICMPv4 or ICMPv6 exactly by its length, type field and protocol field, and its addresses, type and code are read at fixed offsets in network order |
| IcmpPacket.Parse4InvertsBytesIff | ebpf-icmp/src/icmp.rs:55-88 | an IPv4 frame, with options as its header length says, parses back to its addresses, type and code exactly when the header length is five words or the bytes behind the fixed header equal type and code |
| IcmpPacket.OptionsMisread | ebpf-icmp/src/icmp.rs:73-80 | an echo request behind four bytes of padding options parses as type 1, code 1 |
| IcmpPacket.Parse4ReadsFixedOffset | ebpf-icmp/src/icmp.rs:73-80 | type and code are read right behind the fixed IPv4 header, options or not |
| IcmpPacket.Parsed4IsFrame | ebpf-icmp/src/icmp.rs:55-88 | whatever parses as ICMPv4 and bears out its header length is a frame with the parsed addresses, and with a header length of five words with the parsed type and code |
| IcmpPacket.Parse6InvertsBytesIff | ebpf-icmp/src/icmp.rs:91-129 | an IPv6 frame parses back to its fields exactly when ICMP is its next header, and is otherwise not ICMP |
| IcmpPacket.Parsed6IsFrame | ebpf-icmp/src/icmp.rs:91-129 | whatever parses as ICMPv6 is the frame of what it parses to |
| IcmpFilter.CheckTypeRule | ebpf-icmp/src/maps.rs:147-169 | the scan returns the action of the first matching rule before the first all-zero entry, and nothing if there is none |
| IcmpFilter.RulesBehindEndIgnored | ebpf-icmp/src/maps.rs:156-158 | nothing behind an all-zero entry has any effect |
| IcmpFilter.RuleByRule | ebpf-icmp/src/maps.rs:147-169 | read rule by rule, an all-zero entry ends the table, a rule of the packet's type and of its code or of all codes decides, blocking if its action is 1, and any other rule leaves it to the rest |
| IcmpFilter.Policy | ebpf-icmp/src/xdp.rs:52-136 | verdict, counters and bucket for every packet: an exempt peer passes, else the first matching rule decides, else it passes unless all ICMP is blocked, else exactly if the rate is limited and the bucket admits it; the bucket is asked in that last case only |
| IcmpFilter.ExemptBeforeRules | ebpf-icmp/src/xdp.rs:55-72 | a rule that blocks all echo requests blocks them from every peer but an exempt one |
| IcmpFilter.Frame4Judged | ebpf-icmp/src/xdp.rs:22-49 | an ICMP frame without options is judged by its sender inbound and by its receiver outbound, by each filter that is switched on |
| IcmpFilter.Frame6Judged | ebpf-icmp/src/tc.rs:15-42 | likewise for IPv6 |
| IcmpFilter.OtherBytesIgnored | ebpf-icmp/src/xdp.rs:47 | all other packets pass both filters untouched |
| IcmpFilter.StatsCountVerdicts | ebpf-icmp/src/xdp.rs:52-136 | over every run, with any setup at each packet, each counter went up once for each packet of its kind |
| IcmpFilter.DropCounterSplits | ebpf-icmp/src/xdp.rs:62-86 | over every run, with any setup at each packet, `packets_dropped` is the number of rule drops, rate-limited drops and blanket drops together, modulo 2^64 |
| IcmpFilter.RateLimitHolds | ebpf-icmp/src/xdp.rs:76-89 | after any past without a larger burst, with any mix of other packets in between and rules, exemptions and switches changing, the bucket of a direction lets through at most its burst and what the time is worth |
| IcmpFilter.RateLimitAllCpus | ebpf-icmp/src/maps.rs:81-87 | on n CPUs any interleaving lets through at most n times that |
| IcmpFilter.IcmpFilter.ProcessInboundIcmpv4 | ebpf-icmp/src/xdp.rs:52-90 | carries out, on the inbound state, the policy of which verdict, counters and bucket are told by `IcmpFilter.Policy` |
| IcmpFilter.IcmpFilter.ProcessInboundIcmpv6 | ebpf-icmp/src/xdp.rs:93-136 | the same policy for IPv6 |
| IcmpFilter.IcmpFilter.ProcessOutboundIcmpv4 | ebpf-icmp/src/tc.rs:45-83 | the same policy on the outbound state |
| IcmpFilter.IcmpFilter.ProcessOutboundIcmpv6 | ebpf-icmp/src/tc.rs:86-129 | the same policy for IPv6 |
| IcmpFilter.IcmpFilter.FilterInbound | ebpf-icmp/src/xdp.rs:22-49 | judges by the sender what parses as ICMP while the filter is on, and passes everything else untouched |
| IcmpFilter.IcmpFilter.FilterOutbound | ebpf-icmp/src/tc.rs:15-42 | likewise by the receiver |
| SynWindow.GlobalTwoWindows | ebpf-flood/src/xdp.rs:163-175 | of calls within one window length exactly as many pass as the window they find has room for and then as a fresh one has, at most twice the limit, while the counter does not wrap |
| SynWindow.GlobalFreshWindow | ebpf-flood/src/xdp.rs:123-128 | calls that find the window expired pass up to the limit |
| SynWindow.WindowKeepsLimitIffNoWrap | ebpf-flood/src/xdp.rs:170-172 | one window passes at most the limit exactly when fewer than 2^32 calls fall into it |
| SynWindow.WrapExceedsLimit | ebpf-flood/src/xdp.rs:170-172 | 2^32 calls at one instant pass more than any limit |
| SynWindow.SourceTwoWindows | ebpf-flood/src/xdp.rs:189-198 | of calls of one source within one window length exactly as many pass as the window they find has room for and then as a fresh one has, at most twice the limit, whatever limit its counter was kept by before |
| SynWindow.SourceOneWindow | ebpf-flood/src/xdp.rs:189-198 | while the window of a source lasts, exactly as many of its calls pass as it has room for |
| SynWindow.SourceFreshWindow | ebpf-flood/src/xdp.rs:123-128 | calls of a source that find its window expired pass up to the limit |
| SynWindow.LargestLimitNeverDrops | ebpf-flood/src/xdp.rs:191-193 | at a limit of 2^32 - 1 the counter wraps before it exceeds the limit and nothing is dropped |
| SynFlood.GlobalLimit | ebpf-flood/src/xdp.rs:160-178 | after any past under any setups, within one window length a CPU lets past its global check exactly what its window has room for and then what a fresh one has, at most twice the global limit, while its counter does not wrap |
| SynFlood.SourceLimit | ebpf-flood/src/xdp.rs:180-218 | after any past under any setups, within one window length a source stored before passes with exactly what its window has room for and then what a fresh one has, at most twice its limit; a new one that gets stored, or still could be, with exactly its limit or all its packets that get past the global check; one that is never stored with all of those; for limits below 2^32 - 1 |
| SynFlood.NewSourceLimit | ebpf-flood/src/xdp.rs:180-218 | a source that first appears within the window length passes with exactly its limit, or all its packets that get past the global check, unless its table is full without it in the end |
| SynFlood.NeverStoredPasses | ebpf-flood/src/xdp.rs:180-198 | a source that is not in its table in the end passed with every packet that got past the global check |
| SynFlood.UnstoredSourceUnlimited | ebpf-flood/src/maps.rs:65-69 | while its table is full, a source that is not in it passes with every packet that gets past the global check |
| SynFlood.FullTableExceedsLimit | ebpf-flood/src/maps.rs:65-69 | after 65536 sources have sent one SYN each, the next one passes three at one instant with a limit of one |
| SynFlood.FirstPacketStoredIffRoom | ebpf-flood/src/xdp.rs:198 | a new source is stored by its first passing packet exactly when its table has room |
| SynFlood.RunKeepsInvariant | ebpf-flood/src/maps.rs:24-31 | after every run under any setups each CPU's `syn_seen` is the sum of its drop counters and `packets_passed` modulo 2^64, no window begins in the future, and no stored counter exceeds the largest limit that was in force |
| SynFlood.StatsCountOutcomes | ebpf-flood/src/maps.rs:85-90 | over every run, with any setup at each packet, each drop and pass counter went up once for each packet of that outcome |
| SynFlood.SynPolicy | ebpf-flood/src/xdp.rs:136-222 | while the filter is off a SYN passes, from a blocked source it is dropped, and neither is counted; any other is counted as seen and passes exactly when it is within the limit of its CPU and then of its source |
| SynFlood.WindowLastsOneSecond | ebpf-flood/src/xdp.rs:123-128 | with a window of one second and a limit of one, a source that passed passes again from one second later on and not before |
| SynFlood.SourceSeesOwnWindow | ebpf-flood/src/xdp.rs:180-218 | what a stored source passes is decided by its own window alone |
| SynFlood.CpuSeesOwnWindow | ebpf-flood/src/xdp.rs:163-175 | who gets past the global check of a CPU is decided by its own window alone |
| SynFlood.SynFilter.FilterSyn | ebpf-flood/src/xdp.rs:131-222 | the program computes the verdict and new state of which `SynFlood.SynPolicy` and the exact counts are proved |
| SynFlood.SynFilter.CheckSource | ebpf-flood/src/xdp.rs:180-198 | the window of a source is rotated, counted and stored again only when it stays within the limit |
| SiteMetrics.AggregateOrderFree | src/admin/metrics.rs:215-301 | the aggregate is the same for every ordering of the workers |
| SiteMetrics.AggregateSites | src/admin/metrics.rs:213-301 | the nested loops give every reported site the summed counters and attack counts, the largest peak, the mean latency weighted by requests, Unhealthy before Healthy before Unknown, and saturated backend counts |
| SiteMetrics.AggregateSums | src/admin/metrics.rs:247-299 | for every site, each counter and each attack count is the sum over the workers that report the site, and mean latency times requests is the latency of all requests together |
| SiteMetrics.AggregatePeakAndHealth | src/admin/metrics.rs:254-268 | for every site the peak is the largest reported, Unhealthy means exactly that some worker says so, and Healthy that some worker says so and none says Unhealthy |
| SiteMetrics.AggregateBackends | src/admin/metrics.rs:296-298 | for every site the backend counts are the sums over the workers, capped at the largest machine word |
| SiteMetrics.FoldReportsTotals | src/admin/metrics.rs:247-299 | merging the payloads of a site one by one reports their totals |
| SiteMetrics.MergedReports | src/admin/metrics.rs:247-299 | merging one payload into a report of some totals reports the totals with that payload added |
| SiteMetrics.AddBlocked | src/admin/metrics.rs:285-287 | the loop over attack types adds the counts key by key |
| SiteMetrics.MergePayload | src/admin/metrics.rs:247-299 | the statements that fold one payload into the entry of its site give the merged entry |
| SiteMetrics.AddWorker | src/admin/metrics.rs:215-246 | the loop over the sites of one worker, in any order, merges each of them once and leaves the others alone |
| AuditTrail.RestartLosesNothing | src/admin/audit.rs:103-150 | with distinct entries and every write done, a restarted process reads back exactly what its predecessor held if and only if nothing was logged, or no line of the old file fails to be UTF-8 and its last line was finished or more than ten thousand entries were logged |
| AuditTrail.SuccessorReadsBack | src/admin/audit.rs:103-150 | memory is the latest ten thousand entries; with distinct entries a restart reads back the same exactly when nothing was logged, or the file was intact before the latest ten thousand writes and each of those put its entry in the file |
| AuditTrail.AuditState.LoadRecentEntries | src/admin/audit.rs:103-123 | the entries up to the first line that is not UTF-8 are pushed in order behind what is in memory, other text is skipped; from an empty memory it mirrors the file |
| AuditTrail.AuditState.Log | src/admin/audit.rs:125-150 | pushes the entry, and the file gains its line, nothing, or a torn line that the next one is glued to; an entry that reaches an intact file keeps memory and file in step |
| AuditTrail.AppendLands | src/admin/audit.rs:133-143 | an entry that reaches an intact file whole can be read back behind the others |
| AuditTrail.AppendHides | src/admin/audit.rs:133-143 | any other attempt to append adds nothing to what can be read back |
| AuditTrail.UndecodableLineHidesEntry | src/admin/audit.rs:113-120 | with one line that is not UTF-8 in the file, a logged and written entry is not read back |
| AuditTrail.TornLineTakesNext | src/admin/audit.rs:133-143 | after a write cut off inside its line, the next entry, written in full, is not read back either |
| ConfigVersions.ContentExact | src/admin/audit.rs:333-381 | after every history of saves and rollbacks, on any clock and whatever writes and removals fail, a version gives back its own text exactly when it is among the last hundred saved, the last write to its file put that text there, and no eviction has removed the file since |
| ConfigVersions.DistinctSecondsKeepAll | src/admin/audit.rs:333-381 | with saves in pairwise distinct seconds, in whatever order, every one of the last hundred versions gives back its own text and older ids give nothing, whatever rollbacks and failures come between |
| ConfigVersions.DistinctSecondsFiles | src/admin/audit.rs:346-359 | with saves in pairwise distinct seconds a version file exists exactly when its save wrote it and no eviction of that save removed it |
| ConfigVersions.FilesAreKnown | src/admin/audit.rs:339-392 | after every history of saves and rollbacks, on any clock and whatever fails, exactly which version files and targets exist and what is in them |
| ConfigVersions.IndexIsLatest | src/admin/audit.rs:352-360 | the index lists exactly the last hundred successful saves, in order |
| ConfigVersions.EvictedIffNotKept | src/admin/audit.rs:352-360 | a saved version is missing from the index exactly when some later save evicted it |
| ConfigVersions.EvictsByPlace | src/admin/audit.rs:352-360 | it is exactly the hundredth successful save after it that evicts a version |
| ConfigVersions.RollbackKeepsVersions | src/admin/audit.rs:383-392 | a rollback, also one whose write fails, leaves what every version gives back as it was |
| ConfigVersions.RollbackConfigExact | src/admin/handlers/config.rs:2715-2741 | a version that gave back its text ends up in the target exactly when the save before the rollback neither evicts it or an older one of its second nor writes anything else to its file; when it gives back nothing, the rollback changes nothing |
| ConfigVersions.RollsBackUnlessOldest | src/admin/handlers/config.rs:2715-2741 | with saves in distinct seconds, rolling back to a kept version puts its text in the target exactly when that save does not evict it, and otherwise changes nothing |
| ConfigVersions.RollbackToOldestFails | src/admin/handlers/config.rs:2724-2741 | with a hundred versions saved, rolling back to the oldest, which was there, fails |
| ConfigVersions.SameSecondLosesText | src/admin/audit.rs:339-347 | of two different texts saved in one second, asking for the first gives the second |
| ConfigVersions.FailedSaveLosesText | src/admin/audit.rs:346-347 | a save that fails after emptying the file takes the text of the version before it in that second |
| ConfigVersions.EvictionRemovesSharedFile | src/admin/audit.rs:352-360 | after 101 saves in one second every kept version is listed and none has a file |
| ConfigVersions.ClockSetBackLosesFile | src/admin/audit.rs:338-357 | with the clock set back once, a kept version has lost its file although the last eviction was of another second |
| ConfigVersions.ConfigVersionManager.SaveVersion | src/admin/audit.rs:333-363 | a save that writes its file evicts the oldest version, with its file if that can be removed, when a hundred are kept; a save that fails may leave its file damaged and changes nothing else |
| ConfigVersions.ConfigVersionManager.GetVersionContent | src/admin/audit.rs:375-381 | returns the text of the file of the first version with the id, if there is one and it can be read |
| ConfigVersions.ConfigVersionManager.RollBack | src/admin/audit.rs:383-392 | succeeds exactly when the content is there and the target was written, and then the target holds it; a failed write may leave the target damaged, and nothing else changes |
| ConfigVersions.ConfigVersionManager.RollBackConfig | src/admin/handlers/config.rs:2715-2741 | the handler saves the current configuration, whether or not that works, and then rolls back |

## Left out

- AdminSweeps.SweepsUnobservable: assumes that no two tokens of one session are created at the same instant; with a tie the hash map's order decides which one is evicted.
- AdminTokens.RecentTokenIsAccepted: assumes that no other token of the session was created at the same instant as the one presented, since the hash map's order could then evict it as the older.
- SynFlood.SourceLimit: takes a packet as one step; two CPUs that look up and store the counter of one source at the same moment can lose a count.
- SynFlood.GlobalLimit: is for one CPU, since each has its own global window.
- SiteMetrics.AggregateSites: in exact arithmetic, without 64-bit wrap-around or rounding; the percentile fields, which the last worker overwrites, and the cache counters, which are never added, are not modelled.
- AuditTrail.RestartLosesNothing: for entries logged one after the other; memory and file are not written under one lock.
- AuditTrail.AuditState.Log: a torn write is told by where it stops (inside the text, inside a character, before the newline), not by its bytes.
- PassString.PassStringToWasm: pointers are unbounded, and the cached view of memory is always current.
- AdminGate.HandledRequestConsumedToken: headers are taken as parsed; the login limiter and the bearer check may answer anything.
- Clock readings taken just before a lock is acquired may be out of order by a moment; results that depend on the order of times assume a clock that never goes back.
- The branches for a missing map element at index 0 of a BPF array, which the kernel never takes.
- Parsing a TCP SYN out of a frame in ebpf-flood, which rests on header layouts of a library.
- `AdminRateLimiter` and `YaraRateLimiter`, whose count is only ever written as one.
- ConfigVersions.ContentExact: a save or rollback is one step; concurrent saves write their files before they take the lock on the index.
- `ConfigVersionManager::load_existing_versions`, and the read-only queries and filters over logs and histories.
- The worker totals, rates and system figures of the metrics publisher: plain sums over one list, and readings of the operating system.
- The remaining crates, the admin user interface, post-quantum cryptography, browser clients, benches and fuzz targets.
