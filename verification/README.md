# Verified model of the appnet network algorithms

A Dafny model of the in-memory algorithms under `appnetc/src/network`, with proofs of
the properties those algorithms exist for.

- **Hash table** (`dict.c`): two chained power-of-two tables that stand for one map while
  entries move from the old table to the new one a bucket at a time; the safe iterator; the
  stateless scan whose cursor is incremented in reversed bit order.
- **SHA-1** (`sha1.c`): the streaming context and the compression function, against sections
  5.1.1, 6.1.2 and 6.1.3 of FIPS 180-4.
- **Dynamic strings** (`sds.c`): the buffer and its growth, the escaping printer and the
  quoting parser, split and join, decimal printing.
- **Event loop** (`ae.c`, `ae_epoll.c`): timers whose callbacks change the list that is being
  walked, file events mirrored in the kernel's interest set, and handlers that deregister
  descriptors of the batch being served.
- **Worker, pipe and master** (`worker.c`, `aeserver.c`): frames appended to a buffer that the
  pipe drains piece by piece, the reactors that read them on the other side, each with its own
  event loop and interest set in the kernel, and the clients' sockets that drain what they hand
  over.
- **Base 64** (`base64.c`): the codec, against section 4 of RFC 4648.

## How it is laid out

Each source file has a specification on values and, where the source works in place, a class
or a method over arrays that is proved equal to it. The properties are lemmas about the
specification, so they hold of the imperative code as well.

| file | content |
|---|---|
| `Common`, `Words` | shared types; 64-bit words, masks, and bit reversal as a function |
| `Reverse` | the shift-and-mask reversal loop |
| `DictSpec`, `DictInvariant` | the dict as a value; its invariant and the map it stands for |
| `DictScan`, `DictScanRun` | cursor arithmetic; whole scans |
| `DictScanExact`, `DictScanIff`, `DictScanFixed` | the scan that misses a key; exactly which scans may; a dict that does not change |
| `DictScanLinked` | scans over whole histories of a dict |
| `DictRuns` | runs of operations, scans interleaved with them, the load bound |
| `DictWork` | how much work a call does, and which tables are asked for |
| `DictIterator` | the safe iterator and whole iterations |
| `Dict` | the dict over arrays, and its iterator |
| `CaseKeys` | the dict type of the HTTP header table |
| `Sha1Spec`, `Sha1` | the standard; the code |
| `Sds`, `SdsSplit`, `SdsNumber` | the string and its growth; split and join; numbers |
| `SdsRepr`, `SdsGrammar` | printer and parser; the lines that the parser reads and those it refuses |
| `Timers`, `FileEvents`, `Dispatch` | timers; registration of file events; the calls of their handlers |
| `Pipe`, `Worker` | the frame format and its runs; the worker's end |
| `Master`, `Handover`, `Reactors` | the master's reactors and their clients; what clients are handed, through the whole system; the master over its event loops |
| `Base64` | the codec |

`dafny verify dfyconfig.toml` checks everything.

## Where the code does not do what it says

Each of these is proved, with the condition under which the promise does hold and a concrete
case in which it fails.

- **`dictScan`** promises that a full scan returns every element present throughout
  (`dict.c:772-774`). Line 900 increments the extra bits of the larger table in plain order,
  not in reversed order. One call during a rehash covers its whole step exactly when the bits
  of the cursor between the two masks are ones from the bottom up (`DictScan.CallCompleteIff`).
  A whole scan keeps the promise, whatever the tables hold, if and only if its cursors and table
  sizes leave no hash unvisited (`DictScanIff.ScanCoversIff`); when the smaller table does not
  shrink after a call that is not complete, that is if and only if every call is
  (`DictScanIff.ScanPromiseIff`). The condition on the hashes stays exact for tables that runs of
  the dict's own operations have made, if no call falls into a move to a larger table
  (`DictScanLinked.HistoryPromiseIff`). Tables that only grow always keep the promise
  (`DictRuns.GrowingScanComplete`); a dict that shrinks from 16 to 4 buckets loses an element
  (`DictScanExact.ShrinkingScanMisses`).
- **Frames for a closed connection**: the master frees a connection's buffer on its close frame,
  at once or when the buffer is drained, and an HTTP connection's after its response. It never
  touches a freed connection, however its clients drain, if and only if no call is for a
  connection after one that ends it (`Handover.EndToEndIff`, `Handover.SendAfterClose`). A client
  that hangs up first makes any frame still to come for it touch freed memory
  (`Handover.HangupFails`).
- **Two reactors** (`aeserver.c:516`): every reactor reads every worker's pipe and then watches
  the client for writing in its own loop (`aeserver.c:585-594`), but `freeClient` deletes the
  events from the loop of the connection's own reactor only (`aeserver.c:115-118`). Tables, kernel
  sets and buffers stay together over a run exactly when no connection is freed with bytes that
  another reactor watches for (`Master.StaysServedIff`): always with one reactor
  (`Master.OneReactorTidy`), or when each reactor reads the frames of its own connections
  (`Master.OwnReadsTidy`). After any other free, when the descriptor is accepted again and that
  other reactor reads for it first, epoll_ctl refuses the change of a registration it no longer
  has, nobody looks at the answer (`Master.StrayStalls`, `Master.StallingRun`), and the new client
  is sent nothing until it hangs up (`Master.StalledForGood`).
- **A frame that has come in part**: the reader does not wait for the rest. While it is in step,
  what it reads is what the call means exactly when the frame is all there
  (`Pipe.ReadIffWhole`, `Pipe.SplitBody`).
- **The wait for the next timer** (`ae.c:386-401`) clamps seconds and microseconds to 0 one by
  one, so an overdue timer still makes the loop wait, unless it is late by whole seconds
  (`Timers.WaitExactIff`, `Timers.OverdueWaits`); and what epoll_wait is given is an int, so the
  timer must be due within 2^31 milliseconds (`Timers.WaitFitsIff`).
- **The data of a handler**: a descriptor has one `clientData` for both handlers, so a handler is
  given its own exactly when the last registration of the descriptor had the same
  (`Dispatch.HandlerDataIff`, `Dispatch.ReaderGetsWritersData`).
- **Registering an empty mask** (`ae.c:135-156`) is the one call that leaves the kernel's set and
  the table different (`FileEvents.MirrorIff`, `FileEvents.EmptyMaskBreaks`).
- **A refused registration of the pipe** goes unnoticed: the worker's buffer is then watched
  exactly when it was not empty before or epoll_ctl accepted
  (`Worker.WorkerProcess.SendMessageToReactor`, `Worker.RefusedOnce`).
- **Messages the reader does not take**: one with a negative length on a connection that is not
  TCP announces a body that is not sent, so that what follows is taken for it
  (`Pipe.NegativeLengthEats`, `Pipe.NegativeLengthBreaks`), and a body over 1024 bytes does not fit
  the block it is read into (`Pipe.LongBodyOverruns`, `Pipe.LongMessage`). The reader stays in step
  exactly for the other calls (`Pipe.FrameReadIff`).
- **The branch-free padding** of `base64_encode` is right for all inputs of a length exactly
  when the length is at most 2^31 + 1 (`Base64.EncodeExactIff`, `Base64.WrongText`).
- **Base 64 texts one behind the other**: pads are counted over the whole text, so two texts decode
  to the two strings exactly when the first has no pads (`Base64.ConcatIff`).
- **A header key with a NUL** equals other keys of a different hash (`CaseKeys.NulBreaksHash`):
  the hash runs over the whole string, the comparison stops at the NUL. The repository declares
  this dict type and creates no dict of it.
- **`sdsjoin`** takes C strings, so it undoes `sdssplitlen` exactly when there is no NUL
  (`SdsSplit.JoinInvertsSplitIff`, `SdsSplit.JoinStopsAtNul`).

## Model

| member | source | states |
|---|---|---|
| DictInvariant.RehashOk | appnetc/src/network/dict.c:243-286 | dictRehash conserves the entries and the invariant; with n >= 1 it finishes or advances rehashidx; its result says exactly whether work is left |
| DictInvariant.RehashIndexInside | appnetc/src/network/dict.c:249-256 | while entries are left, a non-empty bucket lies ahead of rehashidx: the assert holds and the loop over empty buckets stays inside the table |
| DictInvariant.RehashCompletes | appnetc/src/network/dict.c:243-286 | as many calls as the old table has buckets left complete a rehash without changing the entries |
| DictWork.RehashWork | appnetc/src/network/dict.c:243-286 | dictRehash(d, n) finishes if and only if at most n buckets from rehashidx on hold entries and fewer than 10n empty ones come before the last of them; otherwise it stops at the first place with n such buckets or 10n empty ones behind it, has emptied the buckets up to there and left the rest as it was |
| DictWork.StepWork | appnetc/src/network/dict.c:315-317 | the same for the one bucket of a step, and nothing moves while an iterator is live |
| DictWork.OpAdvances | appnetc/src/network/dict.c:320-505 | every operation on a key takes a rehash further while no iterator is live |
| DictWork.RunFinishes | appnetc/src/network/dict.c:315-505 | so as many operations as the old table has buckets left end a rehash |
| DictInvariant.MoveBucketOk | appnetc/src/network/dict.c:257-274 | moving a chain keeps every entry in its masked bucket, in one table only, and counted |
| DictInvariant.StepOk | appnetc/src/network/dict.c:315-317 | the step made by each operation keeps entries and invariant |
| DictInvariant.NextPowerOk | appnetc/src/network/dict.c:943-955 | the least table size that holds the request: a power of two, less than twice the request unless it is the initial size |
| DictInvariant.ExpandOk | appnetc/src/network/dict.c:202-230 | starting or refusing an expansion changes no entry |
| DictWork.ExpandExact | appnetc/src/network/dict.c:202-230 | when dictExpand refuses, and otherwise the size of the table: the least one that holds the request |
| DictWork.ResizeExact | appnetc/src/network/dict.c:190-199 | dictResize refuses with resizing off, during a rehash and when nothing changes; otherwise the new table is the least that holds the entries |
| DictInvariant.ExpandIfNeededOk | appnetc/src/network/dict.c:921-940 | automatic expansion never fails and leaves a table to insert into |
| DictWork.ExpandIfNeededExact | appnetc/src/network/dict.c:921-940 | when a table is asked for, at one entry a bucket, or at six with resizing off, and the least size that holds twice the entries |
| DictInvariant.LocateOk | appnetc/src/network/dict.c:487-505 | the search of both tables finds a key if and only if it is in the dict, and then its one entry |
| DictInvariant.AddOk | appnetc/src/network/dict.c:320-367 | dictAdd inserts into the map when the key is absent and changes nothing otherwise |
| DictInvariant.AddedFirst | appnetc/src/network/dict.c:350-361 | what was added is the first entry of its chain, in the table that is being filled |
| DictInvariant.FindOk | appnetc/src/network/dict.c:487-505 | dictFind answers by the map and leaves it alone, although a bucket may move |
| DictInvariant.ReplaceOk | appnetc/src/network/dict.c:373-393 | dictReplace inserts or overwrites the value, and reports which |
| DictInvariant.DeleteOk | appnetc/src/network/dict.c:407-442 | dictGenericDelete removes exactly the entry of the key, and reports whether there was one |
| DictInvariant.MapLaws | appnetc/src/network/dict.c:320-442 | what any key maps to after an add, a replacement and a delete |
| DictRuns.ApplyOk | appnetc/src/network/dict.c:190-505 | any operation acts on the map and keeps the invariant |
| DictRuns.RunIsMap | appnetc/src/network/dict.c:190-505 | over any run of operations, with resizing switched on and off at will, the two tables act as one map |
| DictRuns.LoadBound | appnetc/src/network/dict.c:921-940 | the load invariant means no more entries than the newest table has buckets |
| DictRuns.CreatedDictLoad | appnetc/src/network/dict.c:921-940 | from dictCreate, with resizing on and no explicit resizing, any mix of operations keeps at most one entry a bucket of the newest table |
| Reverse.Rev | appnetc/src/network/dict.c:753-761 | the masked swaps return the 64 bits in the opposite order |
| Words.RevInvolution | appnetc/src/network/dict.c:753-761 | reversing twice gives the word back |
| DictScan.CursorStep | appnetc/src/network/dict.c:906-915 | the reversed increment moves the cursor to the start of the next interval on the reversed line |
| DictScan.CursorAdvances | appnetc/src/network/dict.c:906-915 | the cursor advances strictly on that line until it wraps to 0, whatever the table sizes of the calls |
| DictScan.CursorMasked | appnetc/src/network/dict.c:906-915 | a returned cursor has no bits above the mask |
| DictScan.InStep | appnetc/src/network/dict.c:865-915 | every hash between the cursor and the next one is in the cursor's bucket of the smaller table |
| DictScan.ExpansionStep | appnetc/src/network/dict.c:892-904 | one turn of the inner loop: the bucket it emits, the next expansion in plain order, and when it stops |
| DictScan.CallCompleteIff | appnetc/src/network/dict.c:892-904 | a call during a rehash covers every hash of its step if and only if the cursor's expansion bits are ones from the bottom up |
| DictScan.Missed | appnetc/src/network/dict.c:892-904 | otherwise there is a 32-bit hash that the call passes over without visiting it |
| DictScanRun.CallEmits | appnetc/src/network/dict.c:847-916 | a complete call emits every entry whose hash lies between the cursor and the next one |
| DictScanRun.ScanComplete | appnetc/src/network/dict.c:847-916 | a scan from 0 to 0, with any change to the dict between calls, emits every key each call finds present, if its calls are complete |
| DictScanRun.ScanCompleteUnderGrowth | appnetc/src/network/dict.c:847-916 | with tables that never shrink the condition on the calls is not needed |
| DictRuns.InterleavedScanComplete | appnetc/src/network/dict.c:847-916 | the same for scans with runs of operations between the calls |
| DictRuns.GrowingScanComplete | appnetc/src/network/dict.c:847-916 | adds, replacements, deletes, finds, rehash steps and growth between the calls never make a scan miss a key |
| DictScanIff.EmittedVisited | appnetc/src/network/dict.c:872-904 | an emitted entry is in a bucket the call visits: its hash shares the cursor's bits, and in the larger table its expansion is not before the cursor's |
| DictScanIff.MissedThroughout | appnetc/src/network/dict.c:847-916 | after a call that is not complete, if the smaller table does not shrink later, some 32-bit hash is in no bucket of the larger tables that any call visits |
| DictScanIff.ScanCoversIff | appnetc/src/network/dict.c:772-774 | for any scan, every key that each call finds in the dict is emitted, whatever the tables hold, if and only if the cursors and table sizes of its calls leave no 32-bit hash unvisited |
| DictScanIff.ScanPromiseIff | appnetc/src/network/dict.c:772-774 | when the smaller table does not shrink after a call that is not complete, if and only if each call during a rehash is complete |
| DictScanLinked.HistoryPromiseIff | appnetc/src/network/dict.c:772-774 | the condition of ScanCoversIff is exact over histories, from dictCreate and with runs of operations between the calls, of scans none of whose calls is made while the entries move to a larger table |
| DictScanLinked.UncoveredHistory | appnetc/src/network/dict.c:772-774 | for a hash left unvisited, such a history with nothing but resizing and rehash steps after the key was added, in which no call emits it |
| DictScanFixed.EmptyScan | appnetc/src/network/dict.c:856 | a scan of an empty dict is one call that emits nothing |
| DictScanFixed.FixedScanExact | appnetc/src/network/dict.c:847-916 | a scan of a dict that does not change and is not being rehashed ends after one call for each bucket and emits every entry exactly once |
| DictScanExact.ShrinkingScanMisses | appnetc/src/network/dict.c:772-774 | a legal scan across dictResize from 16 to 4 buckets that never emits a key present throughout |
| DictIterator.NextOk | appnetc/src/network/dict.c:573-606 | a call returns a pending key, which is then no longer pending, and keeps all others pending; it returns NULL only when none is left |
| DictIterator.AddPending | appnetc/src/network/dict.c:315-367 | an add, even one that starts an expansion, keeps what is pending |
| DictIterator.ExplicitExpandPending | appnetc/src/network/dict.c:202-230 | dictExpand, to a larger table or a smaller one, keeps what is pending |
| DictIterator.ResizePending | appnetc/src/network/dict.c:190-199 | so does dictResize |
| DictIterator.DeletePending | appnetc/src/network/dict.c:407-442 | deleting any key but the saved next one keeps what is pending of the others |
| DictIterator.ReplacePending | appnetc/src/network/dict.c:373-393 | a replacement keeps what is pending |
| DictIterator.SafeIterationExact | appnetc/src/network/dict.c:573-617 | over a whole safe iteration with adds, replacements, finds, expansions, resizes and deletes of other keys than the saved next one between the calls, a key present throughout is returned exactly once |
| Dict.HashDict.constructor | appnetc/src/network/dict.c:166-187 | the empty dict |
| Dict.HashDict.Rehash | appnetc/src/network/dict.c:243-286 | the loops over the arrays do what the specification does |
| Dict.HashDict.RehashStep | appnetc/src/network/dict.c:315-317 | the step and its guard |
| Dict.HashDict.NextPowerOfTwo | appnetc/src/network/dict.c:943-955 | the doubling loop |
| Dict.HashDict.Expand | appnetc/src/network/dict.c:202-230 | the new table and the start of a rehash |
| Dict.HashDict.Resize | appnetc/src/network/dict.c:190-199 | resize to the number of entries |
| Dict.HashDict.ExpandIfNeeded | appnetc/src/network/dict.c:921-940 | automatic expansion |
| Dict.HashDict.Lookup | appnetc/src/network/dict.c:494-503 | the walk through both tables |
| Dict.HashDict.KeyIndex | appnetc/src/network/dict.c:961-983 | the slot of a new key, or -1 |
| Dict.HashDict.Add | appnetc/src/network/dict.c:320-367 | the new state and result of dictAdd |
| Dict.HashDict.Find | appnetc/src/network/dict.c:487-505 | the new state and result of dictFind |
| Dict.HashDict.Replace | appnetc/src/network/dict.c:373-393 | the new state and result of dictReplace |
| Dict.HashDict.Delete | appnetc/src/network/dict.c:407-442 | the new state and result of dictGenericDelete |
| Dict.HashDict.Scan | appnetc/src/network/dict.c:847-916 | the cursor dictScan returns and the entries it emits, in order |
| Dict.SafeIterator.Next | appnetc/src/network/dict.c:573-606 | the iterator's and the dict's new state, and the entry returned |
| Dict.SafeIterator.Release | appnetc/src/network/dict.c:608-617 | the count of live iterators goes down if the iterator was started |
| CaseKeys.GenCaseHash | appnetc/src/network/dict.c:145-151 | the hash loop in 32 bits |
| CaseKeys.HashExample | appnetc/src/network/dict.c:145-151 | one letter in both cases with the usual seed |
| CaseKeys.CaseEqualIff | appnetc/src/network/worker.c:26-31 | keys are equal if and only if up to their first NUL they differ in the case of letters only |
| CaseKeys.HeaderTypeLawful | appnetc/src/network/worker.c:22-46 | without NULs the comparison is an equivalence that the hash respects, as the dict needs |
| CaseKeys.NulBreaksHash | appnetc/src/network/worker.c:22-31 | every key with a NUL equals a key of a different hash |
| Sha1.MacroIsStep | appnetc/src/network/sha1.c:45-50 | the macros with their own forms of Ch and Maj compute the step of section 6.1.2 of FIPS 180-4 |
| Sha1.Blk0 | appnetc/src/network/sha1.c:35-40 | the first 16 words, put in byte order in place |
| Sha1.Blk | appnetc/src/network/sha1.c:42-43 | the later words in the circular queue of section 6.1.3 are those of the 80-word schedule |
| Sha1.Round | appnetc/src/network/sha1.c:45-50 | one round with rotated register names |
| Sha1.Transform | appnetc/src/network/sha1.c:58-101 | the compression function of section 6.1.2 |
| Sha1.CountAdd | appnetc/src/network/sha1.c:121-122 | the two 32-bit counters with their carry add the length to a 64-bit count of bits |
| Sha1.PadPlace | appnetc/src/network/sha1.c:145-148 | the padding loop stops after exactly the zero bytes of section 5.1.1 |
| Sha1.Context.Update | appnetc/src/network/sha1.c:116-132 | whole blocks are chained, the rest waits, for pieces of any size that does not wrap the 32-bit sum with what waits |
| Sha1.Context.Final | appnetc/src/network/sha1.c:136-161 | the digest of all that was run through, and a wiped context |
| Sha1.Sha1Chunks | appnetc/src/network/sha1.c:105-161 | however a message is cut into updates, none of which wraps the 32-bit sum with what waits, the digest is SHA-1 of the whole |
| Sha1.Sha1Message | appnetc/src/network/sha1.c:164-172 | the one-call form, for the length cut to 32 bits |
| Sds.Sds.MakeRoomFor | appnetc/src/network/sds.c:129-147 | contents kept, capacity by the growth policy, moved exactly when room was missing |
| Sds.CapacityIs | appnetc/src/network/sds.c:129-147 | a string that moves gets twice what it needs, but at most 2^20 bytes to spare |
| Sds.Sds.CatLen | appnetc/src/network/sds.c:239-251 | contents are the concatenation, terminated, with capacity = len + free |
| Sds.GrowthBound | appnetc/src/network/sds.c:129-147 | pieces of any sizes, N bytes in all, are counted at most 20 + N / 2^20 moves |
| Sds.Sds.CatAll | appnetc/src/network/sds.c:239-251 | a run of appends: the concatenation, its length, and as many moves as counted |
| Sds.BuildUp | appnetc/src/network/sds.c:129-147 | a string built from an empty one by any pieces is their concatenation and moved within that bound |
| Sds.Sds.Range | appnetc/src/network/sds.c:598-626 | the inclusive range with bounds from either end, cut in place |
| Sds.Sds.Clip | appnetc/src/network/sds.c:602-619 | bounds from either end, clamped to the string: where what is kept begins, and its length |
| Sds.KeptExact | appnetc/src/network/sds.c:598-626 | one piece is kept, the bytes from start to end counted from either end; an end before the string counts as its first byte |
| Sds.Sds.CatRepr | appnetc/src/network/sds.c:744-767 | appends the quoted form |
| Sds.JoinAll | appnetc/src/network/sds.c:954-963 | the join of the C strings |
| SdsRepr.EscapeShape | appnetc/src/network/sds.c:747-763 | an escape is read back as its byte: a plain byte, a two-byte escape or a hexadecimal one |
| SdsRepr.EscapeLaw | appnetc/src/network/sds.c:747-763 | only printable characters are printed, each byte in its shortest form |
| SdsRepr.SplitArgs | appnetc/src/network/sds.c:819-927 | the parser's loops give the tokens of the line, or NULL; which these are is in `SdsGrammar` |
| SdsRepr.RoundTrip | appnetc/src/network/sds.c:744-927 | any list of byte strings, printed and separated by any blanks, is parsed back to the list |
| SdsGrammar.LineRead | appnetc/src/network/sds.c:800-927 | tokens of the grammar with blanks between them come back as their texts: bytes without quotes as they are, double-quoted escapes with digits of either case, single-quoted text with an escaped quote; a closed quote with anything joined to it, or a quote that is not closed, refuses the line whatever stands before it |
| SdsGrammar.ReadsIff | appnetc/src/network/sds.c:819-927 | a line gives these tokens if and only if up to its first NUL it is tokens of the grammar with these texts |
| SdsGrammar.RefusedIff | appnetc/src/network/sds.c:814-817 | NULL if and only if a closed quote has something joined to it or a quote is not closed |
| SdsGrammar.PrintedWord | appnetc/src/network/sds.c:744-767 | a printed string is one of the quoted tokens, and its text is the string |
| SdsGrammar.PrintedJoined | appnetc/src/network/sds.c:860-863 | a printed string with anything joined to it refuses the line |
| SdsGrammar.JoinedExample | appnetc/src/network/sds.c:814-817 | the shortest such line |
| SdsSplit.SplitLen | appnetc/src/network/sds.c:681-718 | the loop cuts at the leftmost separators, and the growing slot array never overflows |
| SdsSplit.NoTokenHasSeparator | appnetc/src/network/sds.c:681-718 | no token contains the separator |
| SdsSplit.JoinPieces | appnetc/src/network/sds.c:681-718 | tokens interleaved with the separator are the input |
| SdsSplit.JoinInvertsSplitIff | appnetc/src/network/sds.c:954-963 | sdsjoin gives the input back if and only if it has no NUL |
| SdsSplit.JoinStopsAtNul | appnetc/src/network/sds.c:954-963 | a single token with a NUL in it is cut at the NUL |
| SdsSplit.SplitInvertsJoinIff | appnetc/src/network/sds.c:681-718 | which lists are given back by splitting their join, for any separator |
| SdsSplit.SplitInvertsJoinByte | appnetc/src/network/sds.c:681-718 | with a separator of one byte: exactly the lists other than [""] whose items avoid it |
| SdsNumber.LL2Str | appnetc/src/network/sds.c:301-330 | canonical decimal text of every 64-bit value, the smallest included, within 21 bytes with its NUL |
| SdsNumber.ULL2Str | appnetc/src/network/sds.c:333-359 | the same for unsigned values |
| SdsNumber.PutDigits | appnetc/src/network/sds.c:310-313 | the digit loop writes the digits lowest first |
| SdsNumber.Reverse | appnetc/src/network/sds.c:321-328 | the two moving pointers reverse the text in place |
| SdsNumber.TextIsExact | appnetc/src/network/sds.c:301-359 | two texts are equal if and only if the values are |
| Timers.ProcessOk | appnetc/src/network/ae.c:275-346 | a pass fires each earlier timer at most once and only when due, none created during it, and leaves no earlier timer due; one that fired is gone or set again by its delay, any other is unchanged unless a callback deleted it, and what the callbacks created and did not delete is there |
| Timers.FireOk | appnetc/src/network/ae.c:313-340 | one callback: the ids it uses up, the fate of its own timer, and that another timer of before is gone exactly if it was deleted |
| Timers.FireCreates | appnetc/src/network/ae.c:313-340 | each timer the callback created has the next id and its delay from now, unless a later call of the same run deleted it |
| Timers.ProcessOrder | appnetc/src/network/ae.c:303-345 | the timers that are due fire from the newest to the oldest |
| Timers.FireShrinks | appnetc/src/network/ae.c:275-346 | each callback leaves strictly fewer earlier timers due, so that the pass ends |
| Timers.BackwardClock | appnetc/src/network/ae.c:294-301 | when a clock behind the last pass makes a timer due |
| Timers.ZeroDelayStaysDue | appnetc/src/network/ae.c:335-336 | a timer is due again at once if and only if its callback returns a delay that is not positive |
| Timers.AfterIsLater | appnetc/src/network/ae.c:192-204 | the sum of a time and a delay, without a borrow for a negative one, and that a positive delay is not due yet |
| Timers.WaitExactIff | appnetc/src/network/ae.c:386-401 | the time-out is the time left if and only if the timer is not overdue, or by whole seconds |
| Timers.OverdueWaits | appnetc/src/network/ae.c:386-401 | a timer overdue by 4.2 seconds makes the loop sleep for 800 milliseconds |
| Timers.WaitFitsIff | appnetc/src/network/ae_epoll.c:121-122 | the int passed to epoll_wait is the time left if and only if the timer is due within 2^31 milliseconds, or overdue by whole seconds |
| Timers.TimeEvents.CreateTimeEvent | appnetc/src/network/ae.c:207-224 | a new timer at the head of the list |
| Timers.TimeEvents.DeleteTimeEvent | appnetc/src/network/ae.c:226-246 | exactly the timer of the id is gone |
| Timers.TimeEvents.SearchNearestTimer | appnetc/src/network/ae.c:259-272 | the first of the timers that are due the earliest |
| Timers.TimeEvents.Timeout | appnetc/src/network/ae.c:377-413 | the time-out of epoll_wait for each combination of flags, cut to an int |
| Timers.TimeEvents.ProcessTimeEvents | appnetc/src/network/ae.c:275-346 | the walk that restarts after each callback does what the pass does |
| FileEvents.MirrorIff | appnetc/src/network/ae.c:106-174 | a call keeps the kernel's set equal to the masks, and maxfd the greatest, if and only if it does not register an empty mask anew; the kernel refuses nothing it issues |
| FileEvents.EmptyMaskBreaks | appnetc/src/network/ae.c:135-156 | an empty mask on a free descriptor: the kernel watches it, the table says it is free, and maxfd is wrong |
| FileEvents.ResizeExact | appnetc/src/network/ae.c:106-122 | a resize is refused exactly when a registered descriptor would not fit; otherwise the table has the new size with every entry in use as it was |
| FileEvents.RunMirrors | appnetc/src/network/ae_epoll.c:74-115 | over any run of calls the interest set equals the registered masks |
| FileEvents.RunGoesOn | appnetc/src/network/ae.c:106-174 | calls whose masks are not empty make such a run |
| FileEvents.EventLoop.CreateFileEvent | appnetc/src/network/ae.c:135-156 | the new table with its handlers and the shared clientData, maxfd, and the ADD or MOD issued |
| FileEvents.EventLoop.DeleteFileEvent | appnetc/src/network/ae.c:158-174 | the new table, the search for maxfd, and the MOD or DEL issued |
| FileEvents.EventLoop.ResizeSetSize | appnetc/src/network/ae.c:106-122 | registered descriptors survive or the call is refused |
| Dispatch.UntouchedServed | appnetc/src/network/ae.c:418-436 | a descriptor that fired and that no handler of the batch touches gets each of its handlers called once, reading first, and one call if both are the same |
| Dispatch.UnfiredUncalled | appnetc/src/network/ae.c:418-436 | no handler is called for a descriptor that did not fire |
| Dispatch.SilencedStays | appnetc/src/network/ae.c:424-434 | once deregistered, and not registered again, a descriptor gets no call in the rest of the batch although it fired |
| Dispatch.ClosedByReader | appnetc/src/network/ae.c:427-434 | a read handler that deregisters its own descriptor is the last one called for it |
| Dispatch.HandlerDataIff | appnetc/src/network/ae.c:149-152 | a read handler is called with the data it was registered with if and only if the last registration of the descriptor since has the same |
| Dispatch.WriterDataIff | appnetc/src/network/ae.c:149-152 | the same for write handlers |
| Dispatch.EntryAfter | appnetc/src/network/ae.c:135-174 | after any calls an entry has the handler of the last registration for each event, as it was for an event without one, and the data of the last registration |
| Dispatch.RegisteredServed | appnetc/src/network/ae.c:418-436 | a registered descriptor that fires and that the batch does not touch is served by the handlers it was registered with |
| Dispatch.WriterCalled | appnetc/src/network/ae.c:149-152 | a write handler registered on a fresh loop is the one called |
| Dispatch.ReaderGetsWritersData | appnetc/src/network/ae.c:149-152 | registering a write handler with other data changes what the read handler is given |
| Dispatch.ProcessFired | appnetc/src/network/ae.c:418-436 | the loop over the fired events makes these calls with these data, on the table as the handlers leave it |
| Pipe.HeaderRead | appnetc/include/aeserver.h:159-176 | the nine bytes of a header are read back field by field |
| Pipe.HeaderBytes | appnetc/include/aeserver.h:159-176 | the type, and two ints with their lowest byte first |
| Pipe.MessageRead | appnetc/src/network/worker.c:96-119 | the master is handed the text of the call on a TCP connection, and the response made of it on any other |
| Pipe.CloseRead | appnetc/src/network/worker.c:218-280 | a close is nine bytes, whatever length it announces |
| Pipe.StrangeRead | appnetc/src/network/aeserver.c:606-652 | less than a header is dropped, and of a frame of another type the header only |
| Pipe.FrameReadIff | appnetc/src/network/aeserver.c:566-641 | the reader takes a call's bytes for what the call means, whatever follows, if and only if the header announces the body that is there and the reader has room for it |
| Pipe.NegativeLengthEats | appnetc/src/network/worker.c:96-119 | after a negative length on a connection that is not TCP, as much of what follows as was announced goes to that client |
| Pipe.NegativeLengthBreaks | appnetc/src/network/worker.c:48-58 | an empty HTTP response: the whole frame meant for another client |
| Pipe.LongBodyOverruns | appnetc/src/network/aeserver.c:570-578 | every body over 1024 bytes is read past the block |
| Pipe.LongMessage | appnetc/src/network/aeserver.c:570-578 | such a message |
| Pipe.ReadIffWhole | appnetc/src/network/aeserver.c:566-653 | while in step, what is read is what the next call means if and only if its frame is all there |
| Pipe.SplitBody | appnetc/src/network/aeserver.c:578-595 | a body that comes in two parts: the second is lost |
| Pipe.Conserved | appnetc/src/network/worker.c:83-170 | over any calls and partial writes, what is in the pipe and the buffer is the frames in call order |
| Pipe.Delivered | appnetc/src/network/aeserver.c:599-653 | over any interleaving of calls, partial writes and reads of whole frames, the master has read the first of the calls, one event each and in order, and the others are in the pipe and the buffer |
| Worker.WorkerProcess.SendMessageToReactor | appnetc/src/network/worker.c:83-122 | the header and the text of the call, or the response made of it, are appended, and its length is returned; the pipe is then watched by its handler if it was or if the buffer was empty and epoll_ctl accepted, so that watched means not empty unless a registration was refused |
| Worker.WorkerProcess.SendCloseEventToReactor | appnetc/src/network/worker.c:218-280 | the same for the header of a close frame |
| Worker.WorkerProcess.OnWorkerPipeWritable | appnetc/src/network/worker.c:152-170 | what write took is dropped, and the last byte ends the watching |
| Worker.RefusedOnce | appnetc/src/network/worker.c:88-93 | after one refused registration two messages wait and nobody watches |
| Master.FreeOkIff | appnetc/src/network/aeserver.c:109-125 | a free keeps every reactor's table and kernel set in step if and only if no bytes wait that another reactor watches for |
| Master.ReceiveOk | appnetc/src/network/aeserver.c:566-653 | a frame read by any reactor keeps registrations and buffers together, and is refused exactly when it would touch a connection that is not live or overrun the block |
| Master.FlushOkIff | appnetc/src/network/aeserver.c:150-184 | so does a client's partial or full write, with the close that may follow; a failed one exactly when its free does |
| Master.AcceptOk | appnetc/src/network/aeserver.c:355-412 | so does an accept below the limit on connections, for which there is room whenever a connection is not live |
| Master.AcceptLimit | appnetc/src/network/aeserver.c:355-392 | in any state: an accept at the limit or without a descriptor above 0 changes nothing; any other connection starts with nothing to send |
| Master.HandlersRight | appnetc/src/network/aeserver.c:388-593 | over any run, whatever the kernels answer, an event of a client that a reactor wants is served by the handler of its kind |
| Master.StaysServedIff | appnetc/src/network/aeserver.c:109-184 | over any run of frames, drains, accepts and hang-ups with any number of reactors: each live connection is watched for writing by exactly one reactor while it has bytes to send and by none otherwise, one marked for closing still has some, and connectNum counts the live ones, at every point if and only if no connection is freed with bytes that another reactor watches for |
| Master.OwnReadsTidy | appnetc/src/network/aeserver.c:585-594 | no such free happens when every body is read by the reactor of its connection |
| Master.OneReactorTidy | appnetc/src/network/aeserver.c:516 | nor with a single reactor |
| Master.ServedNotStalled | appnetc/src/network/aeserver.c:585-595 | while that holds, some reactor will call the write handler of every connection with bytes to send |
| Master.StrayStalls | appnetc/src/network/aeserver.c:109-125 | after any such free, a descriptor accepted again, and bytes for it read by that other reactor: they wait and no reactor will ever write them |
| Master.StalledForGood | appnetc/src/network/aeserver.c:585-595 | until it hangs up the new client is sent nothing, whatever is still read for it |
| Master.StallingRun | appnetc/src/network/aeserver.c:516 | such a run of two reactors from their start |
| Reactors.AeServer.constructor | appnetc/src/network/aeserver.c:504-559 | a loop for each reactor, and nothing registered |
| Reactors.AeServer.Watch | appnetc/src/network/aeserver.c:585-594 | a registration in one reactor's loop; nothing changes if its kernel set and its table disagree |
| Reactors.AeServer.Unwatch | appnetc/src/network/aeserver.c:117-118 | a deregistration in one reactor's loop, whatever the kernel answers |
| Reactors.AeServer.FreeClient | appnetc/src/network/aeserver.c:109-125 | the events are gone from the connection's own reactor, the descriptor from every kernel set, and the buffer with it |
| Reactors.AeServer.OnMasterPipeReadable | appnetc/src/network/aeserver.c:599-653 | one frame is taken from the pipe and acts on its connection |
| Reactors.AeServer.ReadBody | appnetc/src/network/aeserver.c:566-596 | the body goes to the connection's buffer, watched from its first byte on by the reactor that reads; nothing happens while none of it has come |
| Reactors.AeServer.OnClientWritable | appnetc/src/network/aeserver.c:150-184 | what the socket took is dropped; the last byte ends the watching, and closes the connection if that is due |
| Reactors.AeServer.AcceptCommonHandler | appnetc/src/network/aeserver.c:355-412 | nothing over the limit or for descriptor 0; else an empty connection watched for reading by its own reactor |
| Handover.HandedOverIff | appnetc/src/network/aeserver.c:109-184 | whichever reactors read the frames and whatever the clients drain in between, they are read without touching a closed connection if and only if none is for a connection after one that ends it; then each has been sent, or is still to be sent, exactly its bodies |
| Handover.EndToEndIff | appnetc/src/network/aeserver.c:566-653 | the same over every interleaving of the worker's calls, the pipe's writes, the reactors' reads of whole frames and the clients' drains: each client is sent exactly the texts of its calls on a TCP connection, otherwise the responses made of them |
| Handover.AllHanded | appnetc/src/network/aeserver.c:566-653 | with buffer and pipe empty, that covers all of the calls |
| Handover.SendAfterClose | appnetc/src/network/aeserver.c:621-629 | a message after the close of its connection: a run in which the master touches the freed buffer |
| Handover.HangupFails | appnetc/src/network/aeserver.c:293-296 | after a client's hang-up any frame for it does |
| Base64.Encode | appnetc/src/network/base64.c:42-64 | the size needed; in a buffer with that room, section 4 of RFC 4648 for lengths up to 2^31 + 1, and nothing behind it |
| Base64.Vectors | appnetc/src/network/base64.c:44-61 | two test vectors of RFC 4648, and the last letters of the alphabet |
| Base64.EncodeExactIff | appnetc/src/network/base64.c:57-60 | the shift-and-mask padding is right for all inputs of a length if and only if the length is at most 2^31 + 1 |
| Base64.Decode | appnetc/src/network/base64.c:67-101 | each group's bytes, less one for every pad so far, although the accumulator is never cleared; other characters and lengths that are not a multiple of 4 are refused |
| Base64.ValueIff | appnetc/src/network/base64.c:7-39 | a character is taken if and only if it is in the alphabet or the pad |
| Base64.RoundTrip | appnetc/src/network/base64.c:42-101 | decoding the text of any bytes returns them |
| Base64.ConcatIff | appnetc/src/network/base64.c:67-101 | the texts of two strings one behind the other decode to both if and only if the first has no pads or the second is empty |

## Left out

- Sockets, accept and listen, signals, processes, threads and their locks, shared memory: operating-system plumbing. `read` and `write` are parameters that say how much they moved.
- Interleavings of the reactor threads inside a handler: each handler runs to its end before another begins, in whichever reactor.
- HTTP and WebSocket parsing and wsMakeFrame: a response is a byte sequence of any content.
- `dictGetRandomKey`, `dictGetSomeKeys`, `dictFingerprint`, the unsafe iterator, `dictRehashMilliseconds`, the general hash functions, `dictRelease` and `dictEmpty`.
- `dictRehash` called directly while an iterator is live, and scan callbacks that change the dict.
- Out-of-memory branches, `sdscatprintf` and its relatives, `zmalloc.c`, `ring_buffer.c`.
- DictInvariant.AddOk: a table that the call asks for has at most 2^31 buckets, since a bucket index is an int; the same holds for the other operations that may ask for one, and dictResize is called with fewer than 2^31 entries, which it holds in an int.
- DictInvariant.RehashOk: `n*10` is an unbounded number; an int overflow for huge n is not modelled.
- Dict.HashDict.Add: a chain is a sequence in its bucket, and an entry is known by its key rather than its address; links, key and value copies and destructors are not modelled. The value is passed to the call instead of being stored afterwards.
- Dict.HashDict.Find: the result is the place of the entry, not a pointer that survives later changes.
- DictIterator.SafeIterationExact: the table index and the saved next entry are as in the code; the saved entry is identified by its key.
- Sha1.Transform: the 80 unrolled macro calls are written as 16 turns of five, after which the register names are back in place. A little-endian machine is assumed.
- Sds.Sds.CatLen: lengths are unbounded numbers; the 32-bit header fields are not modelled, and the text appended is a value, so it does not alias the string.
- SdsSplit.SplitLen: tokens are values in the slot array, not strings of their own.
- SdsRepr.RoundTrip: the printer is a function of the bytes in the C locale, where a byte above 127 is neither printable nor a blank.
- Timers.ProcessOk: the clock stands still during a pass; callbacks end their timer or return a positive delay and do not then delete it, since the code would write to freed memory; finalizers do nothing to the loop; ids do not overflow.
- Timers.WaitExactIff: for times whose milliseconds are from 0 to 999; a timer created with a negative delay may have others.
- Sha1.Sha1Chunks: a piece that wraps the 32-bit sum of its length and what waits is excluded, as it is from `Update`.
- FileEvents.MirrorIff: epoll_ctl may refuse a registration for reasons of its own, but not a change or removal of a registered descriptor; descriptors closed behind the loop's back are in `Master.StaysServedIff`.
- DictScanIff.ScanCoversIff: the states of the calls are any valid dicts of the given sizes, so a failing one may be out of reach of the dict's operations when a call is made during a growing rehash; a key of the last bucket, say, is in the larger table then only if it was added during the rehash. `DictScanLinked.HistoryPromiseIff` links the states for scans without such calls, `DictRuns.GrowingScanComplete` for tables that only grow.
- Dispatch.ProcessFired: handlers do not resize the loop, which would move the entry being served.
- Pipe.Delivered: the reads of these runs are of whole headers and bodies; by `Pipe.ReadIffWhole` any other read is of something the call does not mean. A body that does not fit its block of 1024 bytes ends the model.
- Handover.EndToEndIff: one worker's pipe, read as in `Pipe.Delivered`; a registration of a client that epoll_ctl refuses for a reason of its own, and a descriptor that is accepted again while frames for its former connection are under way, are not modelled. Clients that hang up and writes that fail are in `Master.StaysServedIff` and `Handover.HangupFails`, not in these runs.
- Master.StaysServedIff: the pipes' own registrations are not part of the runs; the loops have room for every descriptor that connlist has room for, as both have 1024 places.
- Reactors.AeServer.OnMasterPipeReadable: frames that would touch freed memory are excluded, as nothing can be said of what follows.
- Reactors.AeServer.AcceptCommonHandler: the message to the worker, which goes through the other direction of the pipe.
- Base64.Decode: the terminator of the empty text, for which the block has no room; the count of pads is an unbounded number and the accumulator is a little-endian 64-bit word.
