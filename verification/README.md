# Verification of the JNI logging bridge

A Dafny model of the parts of the bridge whose correctness is hard to see from the code: its locks, the
channel that carries events from the hook threads to the Go consumer, the wire format of those events, the
freestanding heap, the lookup tables, and the number and descriptor text. `dafny verify dfyconfig.toml`
checks everything.

Each module follows one source file or one component of it.

| module | what it models |
|---|---|
| `FutexMutex`, `OnceLock` | the futex mutex and one-time initialisation, as N threads taking one atomic step at a time |
| `Channel` | hook threads, the lossy socket and the consumer, as a system of steps; `ChannelRefs`, `ChannelPairs` and `ChannelCalls` prove who owns each global reference, which result joins which call, and what becomes of every call; `ChannelWindow` which calls are given up |
| `ThreadState`, `Pending` | the call-id stack and the sidecar of a hook thread; the consumer's table of unanswered calls |
| `Escape`, `Utf8`, `Truncate` | escaping of content, and cutting a field to its limit |
| `Records`, `Chunks`, `Args`, `Wire` | the argument string: records, placeholders and chunks, encoding, decoding, and all of it end to end |
| `ArgTypes`, `SameArgs`, `ObjectCalls` | what each Java type arrives as; which arguments decode alike; the hooks that log objects, from push to decoding |
| `Delivery` | call datagrams end to end: the bytes, the cut, the placeholders, and the channel from push to receipt |
| `Datagram`, `DatagramFields` | the binary datagram, both directions, as a whole and field by field |
| `SizeClasses`, `Allocator`, `FreeLists` | the heap: its blocks, and where malloc finds room |
| `MethodCache`, `ConfigCache`, `ConfigHits`, `ModTable` | the signature cache, the configuration cache and when it asks, the module table |
| `Numbers`, `NumberText`, `FmtG`, `FmtGShape` | integer text, and the rounding and layout of %g; what each looks like character by character |
| `Descriptors` | the walks over JNI type descriptors |
| `Bytes`, `Sums`, `Sizes` | byte strings, weights summed over a sequence, sizes of sets |

Code that changes things in place is a class or a method over arrays, proved equal to a function of the old
state; the properties are lemmas about that function. JNI, system calls and the Go runtime appear as
parameters: what the kernel maps, whether a send succeeds, what an object renders as, what the Go side
answers about a name, in which order a Go map is walked. Concurrent code is a transition system whose steps
interleave in any order, with sequentially consistent atomics.

## Findings

Eight properties the code seems to promise hold only under a condition. Each is proved to hold exactly then.

* `Numbers.WidthHonoured`: a zero flag together with a precision loses the field width
  (`Numbers.ZeroFlagWithPrecisionLosesWidth` gives a conversion).
* `Wire.ChunkAgainstInline`, `Wire.DeferredIsInline`: filling in a deferred object gives the bytes of inline
  encoding unless its toString is empty; then inline encoding sends one byte more.
* `Wire.DeferredDecodes`: the argument list is decoded whichever objects were deferred, unless one of them has
  a class named `null` and an empty toString.
* `SameArgs.OnlyNullNameIsLost`: an object decodes to the null reference exactly when its class is named `null`
  and it has no toString. `SameArgs.DecodedAlike` says which argument lists decode alike.
* `Pending.CountOverRun`, `Pending.CountRightIffNoClash`: the running count of waiting calls is too high by the
  number of stores that met an entry with the same id, and so right exactly when there was none.
* `Allocator.MallocOk`, `Allocator.ReallocOk`, `Allocator.ReallocOverruns`: malloc covers the request except for
  the last fifteen sizes of the size type, where rounding to pages wraps (`SizeClasses.LargeLengthCovers`) and it
  returns one page; the copy of realloc then leaves the new block exactly when the old one held more.
  `Allocator.OverrunReached` reaches that from the empty heap, and `Allocator.OverrunExists` gives the mappings.
* `ConfigCache.OneSlotExactly`: lookups through a set of pointers never put a name into two slots if and only if
  the pointers have distinct texts or the copies of names cannot fail to be allocated.
* `ModTable.AbsorbedIsFlagged`: code absorbed from anonymous memory is flagged as lying outside the file exactly
  when no later line of the same file joined the module (`ModTable.AbsorbedUnflagged` gives a map).

The comment in `src/cbridge/event_pipe.c:154-166` speaks of dropping a lone marker; the code also drops a
complete placeholder whose slot byte looks like a lead byte, which among the eight slots is slot 4
(`Truncate.PlaceholderKept`). The model follows the code.

## Model

| member | source | states |
|---|---|---|
| FutexMutex.MutualExclusion | src/cbridge/freestanding/jl_lock.h:44-65 | for any number of threads and any interleaving of atomic and futex steps, spurious wakeups included, at most one thread is between lock and unlock |
| FutexMutex.HolderIsUndisturbed | src/cbridge/freestanding/jl_lock.h:44-65 | while a thread holds the mutex no step of another thread frees the word or acquires it |
| FutexMutex.NoLostWakeup | src/cbridge/freestanding/jl_lock.h:50-63 | whenever a thread sleeps, the word is 2, or an unlocker still owes the store or the wake, or an awake contender will set the word to 2 |
| FutexMutex.SchedulesAreFinite | src/cbridge/freestanding/jl_lock.h:44-65 | without new calls and spurious wakeups every schedule ends within a bound read off its first state |
| FutexMutex.StuckMeansAllIdle | src/cbridge/freestanding/jl_lock.h:44-65 | where no internal step is possible every thread is idle, so every lock call is granted |
| FutexMutex.UncontendedIsFast | src/cbridge/freestanding/jl_lock.h:44-65 | a free word is taken by one compare-exchange, left at 1, and given up by one subtraction, which restores the state |
| FutexMutex.NoExchangeNoWake | src/cbridge/freestanding/jl_lock.h:44-65 | until a thread finds the word taken and exchanges it with 2, over any run no thread sleeps, owes a store or wakes |
| FutexMutex.Mutex.LockStep | src/cbridge/freestanding/jl_lock.h:44-57 | one step of lock on the word itself takes the transition of the system |
| FutexMutex.Mutex.UnlockStep | src/cbridge/freestanding/jl_lock.h:59-65 | one step of unlock on the word itself takes the transition of the system |
| OnceLock.ExactlyOnce | src/cbridge/freestanding/jl_lock.h:79-92 | the initialiser runs at most once, and whoever returned did so after it had finished |
| OnceLock.SleeperWillBeWoken | src/cbridge/freestanding/jl_lock.h:79-92 | while a thread sleeps the initialising thread still owes the wake |
| OnceLock.SchedulesAreFinite | src/cbridge/freestanding/jl_lock.h:79-92 | without new calls and spurious wakeups every schedule ends within a bound read off its first state |
| OnceLock.StuckMeansAllAway | src/cbridge/freestanding/jl_lock.h:79-92 | where no internal step is possible every thread is outside, so every call returns |
| OnceLock.DoneIsFast | src/cbridge/freestanding/jl_lock.h:79-81 | once the initialiser is done a call returns after one load and changes nothing |
| ThreadState.PushHolds | src/cbridge/bridge.c:156-160 | a push puts the id on the stack the array and depth stand for, also past the depth of the array |
| ThreadState.PopHolds | src/cbridge/bridge.c:163-168 | a pop gives the id on top, 0 for a frame past the array or an empty stack, and leaves the frames below intact |
| ThreadState.TlsCallIds.Push | src/cbridge/bridge.c:156-160 | the array and depth after a push |
| ThreadState.TlsCallIds.Pop | src/cbridge/bridge.c:163-168 | the depth after a pop and the id it returns |
| ThreadState.Sidecar.DeferRenderPush | src/cbridge/event_pipe.c:111-123 | mints only with an attached consumer and fewer than eight parked references; the slot returned is where the new reference lies |
| ThreadState.Sidecar.Reset | src/cbridge/event_pipe.c:127-130 | the references are forgotten and none is deleted |
| ThreadState.Sidecar.Drop | src/cbridge/event_pipe.c:135-144 | the parked references are deleted, in order, once each |
| ThreadState.Sidecar.FinishRecord | src/cbridge/event_pipe.c:302-314 | the parked references go with the delivered datagram, or are deleted, never both |
| ChannelRefs.RefsConserved | src/cbridge/event_pipe.c:302-314 | every step keeps the number of owners of every reference, except that a mint gives the new one its first |
| ChannelRefs.EveryRefOwnedOnce | src/cbridge/event_pipe.c:111-144 | in every reachable state each minted reference has exactly one owner: a sidecar, a return or lookup being sent, a datagram in flight, or the deleted ones, and a sidecar parks at most eight |
| ChannelRefs.DrainedMeansAllDeleted | src/go/event_pipe.go:160-176 | with the socket drained and the sidecars flushed, exactly the minted references are deleted, each once |
| ChannelRefs.SlotsStayPut | src/cbridge/event_pipe.c:208-219 | a slot number names the same reference until an emit of its thread takes all parked references, in order, onto its datagram |
| ChannelPairs.PopGivesOwnId | src/cbridge/bridge.c:150-168 | the pop of a logged invocation gives its own id or 0, also after logging became ready in mid-nest, never the id of another frame |
| ChannelPairs.ReturnCarriesOwnId | src/cbridge/bridge.c:205-224 | a return carries the id of its own call when that was logged no deeper than 32, and 0 otherwise |
| ChannelPairs.ReturnSendsOwnId | src/cbridge/bridge.c:205-224 | what an invocation sends when it ends, in any reachable state: its own id up to depth 32 and 0 beyond, its parked references, and the object it returns; nothing when its return is not logged |
| ChannelPairs.CallSendsOwnId | src/cbridge/event_pipe.c:317-342 | a logged call sends the id it drew with the references parked |
| ChannelPairs.DrawsFreshId | src/cbridge/bridge.c:183-203 | a logged invocation draws the next id, which none has drawn before |
| ChannelPairs.ResultJoinsOwnCall | src/go/event_pipe.go:490-540 | in every run a result is joined only to the call of the same dynamic invocation |
| ChannelCalls.DeliveredCallKeptOnce | src/go/event_pipe.go:443-488 | a delivered call is on the socket, pending, or shown, exactly once; a dropped one is nowhere |
| ChannelCalls.WaitingIsBounded | src/go/event_pipe.go:432-488 | in every run the count of pending calls is the size of the table and at most 8192 |
| ChannelCalls.ReturnFindsItsCall | src/go/event_pipe.go:519-540 | the return of a logged call finds its call pending if and only if the call's datagram was not dropped and the call was not evicted |
| ChannelCalls.ReturnCopiesStep | src/cbridge/bridge.c:205-224 | no step of a hook thread makes a second return for one call id |
| ChannelWindow.GivenUpIsFarBehind | src/go/event_pipe.go:464-488 | in every run a call shown without a result by eviction has an id more than 4096 below that of a delivered call |
| ChannelWindow.RecentIsKept | src/go/event_pipe.go:423-430 | a delivered call that no delivered call exceeds by more than 4096 is on the socket, waiting, or joined to its return |
| ChannelWindow.GivenUpUnderLoad | src/go/event_pipe.go:443-452 | calls are given up only when 8192 are waiting and one more comes off the socket |
| ChannelWindow.ReturnIsJoined | src/go/event_pipe.go:519-540 | a return whose call waits is shown joined to it, once, under the invocation of both, and the call stops waiting; any other return is shown alone |
| ChannelWindow.CallWaits | src/go/event_pipe.go:443-452 | a call that comes off the socket waits under its own invocation, unless it lies more than 4096 below the newest |
| ChannelWindow.SomeCallIsJoined | src/go/event_pipe.go:519-540 | there is a run in which a thread pushes an object, calls and returns, and the consumer joins the return to the call and deletes the reference |
| Pending.StoreBound | src/go/event_pipe.go:443-452 | storing a fresh id keeps the count right and the table within 8192; a store that would exceed it leaves at most 4097 |
| Pending.EvictBound | src/go/event_pipe.go:464-488 | an eviction leaves at most one entry per id of the window |
| Pending.EvictKeeps | src/go/event_pipe.go:464-488 | an eviction keeps a call, with what was stored for it, if and only if the newest id is at most 4096 or the call is at most 4096 below it |
| Pending.StoreKeeps | src/go/event_pipe.go:443-452 | exactly which calls wait after any store, the 8193rd included |
| Pending.CountRightIffFresh | src/go/event_pipe.go:443-446 | one store leaves the running count right exactly when the id is not waiting |
| Pending.CountOverRun | src/go/event_pipe.go:443-488 | over any run the running count exceeds the table by the number of stores that met an entry with the same id |
| Pending.CountRightIffNoClash | src/go/event_pipe.go:443-488 | over any run the count is right if and only if no id was stored while it waited |
| Pending.RunBound | src/go/event_pipe.go:432-488 | for stores with distinct positive ids in any order, mixed with takes, the count is the size of the table and stays within the trigger |
| Pending.PendingCalls.EvictStale | src/go/event_pipe.go:464-488 | the walk, in whatever order, removes and reports exactly the entries more than 4096 below the newest |
| Pending.PendingCalls.StoreCall | src/go/event_pipe.go:443-452 | the globals after a store, and the evicted ids, each once |
| Pending.PendingCalls.TakeCall | src/go/event_pipe.go:455-462 | a take finds exactly the stored ids and removes the one taken |
| Escape.UnescapeAfterEscape | src/go/value.go:263-302 | unescaping undoes escaping for all byte strings, whatever follows |
| Escape.EscapeRoundTrip | src/go/value.go:263-302 | unescaping the escaped form of any byte string gives it back |
| Escape.StrayEscape | src/go/value.go:263-277 | an escape byte turns back whatever follows it, and one at the very end is kept |
| Escape.OneBitFlipped | src/go/value.go:282-302 | the escaped form of a byte differs from it in bit 6 only |
| Escape.EscapedIsClean | src/cbridge/visualize.c:281-307 | escaped content holds no framing byte and no marker |
| Escape.OrdinaryIsKept | src/cbridge/visualize.c:281-307 | each of the bytes 1 to 5 and 0x1A costs one byte more, and content is left alone if and only if it holds none of them |
| Escape.EscapeWireContent | src/go/value.go:282-302 | the loop, with its early exit, computes the escaped form |
| Escape.UnescapeWireContent | src/go/value.go:263-277 | the loop, with its early exit, computes the unescaped form |
| Escape.GrowBuffer.Append | src/cbridge/visualize.c:265-277 | the buffer doubles until the text and its terminator fit and then holds old text plus new, or is given up |
| Escape.GrowBuffer.AppendEscaped | src/cbridge/visualize.c:289-307 | batching plain runs appends exactly the escaped form |
| Utf8.PrefixWellFormed | src/cbridge/event_pipe.c:168-172 | cutting well-formed UTF-8 (section 4 of RFC 3629) before a byte that starts a character leaves it well formed |
| Utf8.LeadIsNear | src/cbridge/event_pipe.c:168-172 | a continuation byte has its lead byte at most three bytes back |
| Utf8.WellFormedEncodes | src/cbridge/event_pipe.c:168-172 | the UTF-8 encoding of any scalar values (section 3 of RFC 3629) is well formed |
| Utf8.WellFormedDecodes | src/cbridge/event_pipe.c:168-172 | every well-formed string is the encoding of some scalar values |
| Truncate.SafeTruncLen | src/cbridge/event_pipe.c:168-181 | the two retreat loops compute the cut length |
| Truncate.CutIsTokenPrefix | src/cbridge/event_pipe.c:168-196 | a cut never splits a character, an escape pair or a placeholder: what is left is the text of some leading tokens |
| Truncate.PlaceholderKept | src/cbridge/event_pipe.c:168-181 | a complete placeholder that just fits is kept if and only if its slot byte does not look like a lead byte: of eight slots, all but slot 4 |
| Truncate.CutEscaped | src/cbridge/event_pipe.c:168-196 | cutting escaped content leaves the escaped form of a prefix of the content |
| Truncate.DecodedCutIsPrefix | src/cbridge/event_pipe.c:168-196 | for every content and limit, unescaping the cut escaped content gives a prefix of the content |
| Truncate.DecodedCutIsWellFormed | src/cbridge/event_pipe.c:168-181 | when the content is well-formed UTF-8 so is what survives |
| Truncate.CutLosesAtMostThree | src/cbridge/event_pipe.c:168-181 | on well-formed UTF-8 the cut gives up at most three bytes against the limit |
| Numbers.WidthHonoured | src/cbridge/freestanding/jl_fmt.h:45-55 | the text reaches the requested width if and only if a zero flag is not combined with a precision that leaves it short |
| Numbers.FmtUint | src/cbridge/freestanding/jl_fmt.h:36-56 | digits collected backwards in a scratch array, prefix, padding and flags come out as the specified text |
| Numbers.FmtInt | src/cbridge/freestanding/jl_fmt.h:58-64 | the same for every signed 64-bit value, the least one included |
| Numbers.PlainIntText | src/cbridge/freestanding/jl_fmt.h:58-64 | the bare conversion writes sign and decimal digits |
| Numbers.ParseIntText | src/go/value.go:200-208 | parsing the text of any 64-bit integer gives it back |
| NumberText.DigitsRead | src/cbridge/freestanding/jl_fmt.h:39-43 | in base 8, 10 and 16 the digits read back as the number, letters in the wanted case, no zero in front |
| NumberText.UintShape | src/cbridge/freestanding/jl_fmt.h:36-56 | how many blanks, zeros and digits a conversion writes and where, from flags, width and precision |
| NumberText.ParsedExactly | src/go/value.go:200-208 | a text parses if and only if it is an optional sign and digits within 64 bits, and to that number; beyond them the nearest end is kept |
| Records.DecodeArgs | src/go/value.go:95-117 | the loop over split records decodes each record with a separator and skips the rest |
| Records.MalformedSkipped | src/go/value.go:100-113 | a record without exactly one byte in front of its 0x01 is skipped and disturbs no other |
| Records.ItemsExactly | src/go/value.go:229-249 | every part of an array is an item, in order; only the last may say how many were left out |
| ArgTypes.KindsRead | src/go/value.go:49-86 | each kind is read from its own character and no other character stands for a kind |
| ArgTypes.RecordOfKind | src/go/value.go:95-117 | a record opened by the character of a kind decodes to one value of that kind; only an object record saying null is the null reference |
| ArgTypes.NullTexts | src/cbridge/hooks.c:88-93 | the texts that stand for null: in a value, and as the record a hook writes |
| Chunks.ParseInvertsRender | src/go/event_pipe.go:306-388 | reading back a rendered chunk gives the kind and both texts for all content bytes |
| Chunks.BrokenChunk | src/go/event_pipe.go:355-388 | what is no chunk reads as nothing, and a chunk without its 0x01 as a kind alone |
| Chunks.NothingToSubstitute | src/go/event_pipe.go:404-421 | text without a placeholder in range is left alone |
| Chunks.SubstitutePlaceholders | src/go/event_pipe.go:404-421 | the loop replaces each placeholder in range by its chunk and nothing else |
| Chunks.SubstitutionIsInlining | src/go/event_pipe.go:404-421 | substituting into any list of escaped records and placeholders gives, byte for byte, the records written inline |
| Args.NarrowedIsTheValue | src/cbridge/visualize.c:675-680 | the number sent for a captured word is the one number of the Java type's range that agrees with the word modulo the type's width |
| Args.ArgElemIsValid | src/cbridge/visualize.c:655-749 | whatever an argument holds, its record keeps framing bytes and markers out of its body |
| Wire.DecodeInvertsEncode | src/go/value.go:95-117 | decoding the encoding of any argument list gives it back: all 64-bit integers, all bytes of strings, classes and objects, arrays as sixteen items and the exact overflow |
| ArgTypes.ArgsByType | src/go/value.go:95-117 | each decoded argument has the kind of its Java type; an integer is the number in the range of that kind that agrees with the captured word; an array gives its first sixteen elements, each of the element type, and the number of the rest |
| SameArgs.OnlyNullNameIsLost | src/go/value.go:191-246 | encoded and decoded, an object becomes the null reference if and only if its class is named null and it has no toString; otherwise kind, text or dotted name, and toString come back |
| SameArgs.DecodedAlike | src/go/value.go:95-117 | two argument lists decode alike if and only if they have the same length and argument by argument say the same: words agreeing in the Java type, texts equal up to slash and dot, absent and empty texts, null and unknown references, arrays with the same length and first sixteen items |
| Wire.ChunkAgainstInline | src/go/event_pipe.go:306-346 | the rendered chunk equals the inline record if and only if the toString is not empty; then it is one byte shorter |
| Wire.DeferredIsInline | src/cbridge/hooks.c:83-138 | the filled-in argument string equals inline encoding if and only if no deferred object has an empty toString |
| Wire.DeferredValue | src/go/event_pipe.go:306-346 | deferring changes the decoded value exactly for a class named null with an empty toString |
| Wire.DeferredDecodes | src/go/value.go:95-117 | whichever objects were deferred, the values the consumer decodes are known, and are the argument list if and only if no placeholder stands for a class named null with an empty toString |
| Wire.CutThenDecode | src/cbridge/event_pipe.c:186-196 | cut, substituted and decoded: exact values of the elements whose text lies within the cut, then at most one partial value |
| Wire.CutArgs | src/cbridge/event_pipe.c:186-196 | the same for argument lists, the number kept being that of the arguments whose text lies within the cut; a partial string, class or object shows a prefix of its text, name or toString |
| Wire.EncodePtrArrayItems | src/cbridge/visualize.c:481-518 | the loop writes the element kind, sixteen items at most and the overflow count |
| Wire.EncodeTypedArgs | src/cbridge/visualize.c:632-749 | the loop writes one record per argument, in order |
| Wire.ObjectArgsText | src/cbridge/hooks.c:83-138 | the hooks write a null record or the placeholder of the slot for each object |
| ObjectCalls.ObjectCallDecodes | src/go/event_pipe.go:160-176 | the text of an object call decodes, with the chunks of the references its datagram carries, to the object in each slot and to a null pointer for a null object or a refused push |
| ObjectCalls.LogObjects | src/cbridge/hooks.c:83-138 | pushing one or two objects onto whatever is parked and writing their text: each object pushed decodes to itself, the others to null pointers, and an object is pushed whenever consumer, JNI table and sidecar allow |
| Delivery.CallArrives | src/go/event_pipe.go:141-205 | from the bytes of a call datagram, through the 512-byte cut and substitution, the consumer decodes the arguments whose text lies within the cut, a lost placeholder apart, and at most one more value that shows a prefix of the next; all arguments are kept if and only if the text has at most 512 bytes |
| Delivery.CallIsReceived | src/cbridge/event_pipe.c:208-219 | over any run of the channel, the datagram of a call comes off the socket after all sent before it, with the references parked and then pushed by its thread, in order |
| Delivery.PushedIsShown | src/cbridge/hooks.c:83-138 | over any run from the pushes to the receipt, the bytes of the call datagram decode to the object in each slot and a null pointer for each null record, and the slot of the k-th push shows the object it pushed |
| Datagram.DatagramRoundTrip | src/go/event_pipe.go:141-176 | parsing an emitted datagram recovers header, cut strings and sidecar references, with the string count the consumer demands |
| DatagramFields.FieldsArrive | src/go/event_pipe.go:141-241 | for each event, each field arrives as itself: numbers unchanged, each text cut to 512 bytes, the method list to 2048 |
| DatagramFields.FittingArrives | src/go/event_pipe.go:141-241 | an event whose texts fit arrives unchanged, with its references |
| DatagramFields.BytesOfEvent | src/cbridge/event_pipe.c:222-452 | which bytes carry which field: the 32 bytes in front, the texts in their order, the number of references and the references |
| DatagramFields.RefAt | src/cbridge/event_pipe.c:208-219 | the k-th reference takes the k-th eight bytes, least significant first |
| DatagramFields.AcceptedExactly | src/go/event_pipe.go:104-241 | a datagram is taken for an event if and only if front, mark, type and number of texts fit and the texts are there |
| DatagramFields.AcceptedTexts | src/go/event_pipe.go:155-176 | the texts of an accepted datagram stand in it, in order, behind the front, and the references behind them |
| Datagram.DatagramFits | src/cbridge/event_pipe.c:317-452 | no event fills the 8192-byte buffer, whatever its strings and however full the sidecar |
| Datagram.Emit | src/cbridge/event_pipe.c:317-452 | the emit functions put exactly that datagram into the buffer and never take an overflow exit |
| Datagram.PutHeader | src/cbridge/event_pipe.c:222-239 | the header bytes |
| Datagram.AppendStrMax | src/cbridge/event_pipe.c:186-196 | the length and the cut string behind what was there, or nothing when they do not fit |
| Datagram.AppendRenderRefs | src/cbridge/event_pipe.c:208-219 | the count and the references, little-endian |
| Datagram.ParseStringsCount | src/go/event_pipe.go:285-301 | the strings, the bytes they took, or failure when the buffer is short |
| SizeClasses.LeastAdequateClass | src/cbridge/freestanding/jl_alloc.h:43-50 | a small request gets the least power-of-two class that holds it, and the index computed from the size is that class |
| SizeClasses.IndexOfClass | src/cbridge/freestanding/jl_alloc.h:48-50 | the class is recovered from the size in a header; sizes are multiples of 16 |
| SizeClasses.LargeLengthCovers | src/cbridge/freestanding/jl_alloc.h:69-75 | the mapping is the least number of whole pages that covers header and request if and only if the rounding does not wrap |
| Allocator.RunOk | src/cbridge/freestanding/jl_alloc.h:31-114 | after any sequence of malloc, free, realloc and writes in held blocks: carved blocks are live blocks or free-list blocks of their class, never both, and all are disjoint and inside superblocks |
| Allocator.FreeListIsWalkable | src/cbridge/freestanding/jl_alloc.h:31-41 | following the next words from a head meets each free block of the class once, nothing else, and ends |
| Allocator.InUseApart | src/cbridge/freestanding/jl_alloc.h:67-91 | two blocks in use, small or large, share no byte, headers included, and are 16-byte aligned |
| Allocator.MallocOk | src/cbridge/freestanding/jl_alloc.h:67-91 | malloc returns 0 and changes nothing, or a block nobody holds, of the least adequate size, every other block keeping size, header and bytes; the block covers the request if and only if it is not one of the last fifteen sizes |
| Allocator.FreeOk | src/cbridge/freestanding/jl_alloc.h:93-102 | free takes back that block only, every other block staying as it was |
| Allocator.ReallocOk | src/cbridge/freestanding/jl_alloc.h:104-114 | for every request: realloc returns a block that starts with the old contents, or leaves the old one untouched, other blocks keeping their bytes, and covers the request if and only if the old block did or it is not one of the last fifteen sizes; unless a granted copy overruns |
| Allocator.ReallocOverruns | src/cbridge/freestanding/jl_alloc.h:104-114 | for the last fifteen sizes the new block is one page and does not cover the request, and the copy stays inside it if and only if the old block holds no more than a page less its header |
| Allocator.OverrunReached | src/cbridge/freestanding/jl_alloc.h:67-114 | after any granted malloc of more than 4080 bytes from the empty heap, a granted realloc to the greatest size copies beyond its new block |
| Allocator.PokeOk | src/cbridge/freestanding/jl_alloc.h:67-91 | writing inside a held block disturbs neither the heap nor another block |
| Allocator.FollowList | src/cbridge/freestanding/jl_alloc.h:79-102 | the next words thread the free list in order, down to 0 |
| FreeLists.MallocReuses | src/cbridge/freestanding/jl_alloc.h:80-82 | while the free list of the least adequate class holds a block, malloc returns its first one whatever the kernel would answer, maps and carves nothing, and takes exactly that block off the list |
| FreeLists.LastFreedFirst | src/cbridge/freestanding/jl_alloc.h:67-102 | a malloc of the class of the block just freed returns that block and restores the heap cell by cell |
| FreeLists.MallocFails | src/cbridge/freestanding/jl_alloc.h:53-88 | malloc returns 0 if and only if a mapping is needed, for a large request or with neither a free block nor room behind the last, and refused |
| FreeLists.MallocMaps | src/cbridge/freestanding/jl_alloc.h:53-75 | exactly what malloc maps: whole pages, a megabyte, or nothing |
| FreeLists.MallocCarves | src/cbridge/freestanding/jl_alloc.h:53-65 | a carved block lies right behind the one before, or at the start of a new superblock |
| FreeLists.FreeReturns | src/cbridge/freestanding/jl_alloc.h:93-102 | free unmaps a large block, that mapping only, and puts a small one in front of its list |
| FreeLists.ReallocGives | src/cbridge/freestanding/jl_alloc.h:104-114 | realloc keeps the block in place if and only if it holds the size; a size of 0 frees it; else the result is that of malloc, and 0 leaves the heap alone |
| FreeLists.CarvedIsPeak | src/cbridge/freestanding/jl_alloc.h:67-114 | over any sequence of calls the blocks ever carved of a class are exactly as many as were in use at once at most |
| Allocator.JlHeap.ArenaBump | src/cbridge/freestanding/jl_alloc.h:53-65 | room at the bump pointer, in a fresh superblock when the current one is used up |
| Allocator.JlHeap.Malloc | src/cbridge/freestanding/jl_alloc.h:67-91 | the program's malloc on headers, heads and bump pointer is the specified step |
| Allocator.JlHeap.Free | src/cbridge/freestanding/jl_alloc.h:93-102 | free finds branch and class in the header and is the specified step |
| Allocator.JlHeap.Realloc | src/cbridge/freestanding/jl_alloc.h:104-114 | the program's realloc, with its copy loop, is the specified step; not called where the copy would overrun the new block |
| MethodCache.CacheIsMap | src/cbridge/hook_common.c:76-159 | after any stores every lookup answers as a last-write-wins map; up to 2048 distinct ids nothing is dropped, past that old ids are still served and new ones absent |
| MethodCache.FoundIsMap | src/cbridge/hook_common.c:132-159 | probing finds exactly the stored ids with their data |
| MethodCache.StoreIsPut | src/cbridge/hook_common.c:86-130 | a store updates a known id wherever it lies, adds a new one while there is room, and keeps every id reachable |
| MethodCache.StoreThenFind | src/cbridge/hook_common.c:86-159 | after a store a lookup finds the signature cut to 255 bytes and name and class cut to 127, or the old ones where NULL was given; every other id is as before; a new id is lost exactly when 2048 others are held |
| MethodCache.EmptyStore | src/cbridge/hook_common.c:86-90 | a store for id 0 or without a signature changes nothing |
| MethodCache.RoomForAll | src/cbridge/hook_common.c:111-128 | with at most 2048 distinct ids the bounded map is the unbounded one |
| MethodCache.SignatureCache.CacheMethodSignature | src/cbridge/hook_common.c:86-130 | the probe loop on the entries is the specified store |
| MethodCache.SignatureCache.LookupMethodInfo | src/cbridge/hook_common.c:132-159 | the probe loop finds the specified entry and clips it to the caller's buffers |
| MethodCache.CopiedFits | src/cbridge/hook_common.c:132-159 | a buffer gets the text cut to leave room for the terminator, and nothing when it has no size |
| ConfigCache.RightAnswers | src/cbridge/hook_common.c:303-356 | under any interleaving every lookup returns the Go side's answer for its own name and every slot holds the answer for its own |
| ConfigCache.OneSlotPerCopy | src/cbridge/hook_common.c:333-345 | two slots with one name: for one of them the copy of the name was not allocated |
| ConfigCache.OneSlotExactly | src/cbridge/hook_common.c:276-356 | over all runs of lookups through a set of pointers, under any interleaving, no name ever occupies two slots if and only if the pointers have distinct texts or no copy can fail |
| ConfigCache.FailedCopyDuplicates | src/cbridge/hook_common.c:333-349 | for any two pointers to one text, whatever its hash, a failed copy puts the name into two slots |
| ConfigCache.FillOk | src/cbridge/hook_common.c:331-336 | filling a slot that is still fresh after the lock was given up puts no name into a second slot that is recognised as its |
| ConfigHits.KnownIsNotAsked | src/cbridge/hook_common.c:347-348 | in every run a lookup whose name some slot answers is answered at once, rightly, without the Go side |
| ConfigHits.AskedOnce | src/cbridge/hook_common.c:272-282 | after a lookup filled its slot, every later one through that pointer, or with a copy through any pointer to that text, is answered from the cache |
| ConfigHits.FullExactly | src/cbridge/hook_common.c:303-356 | a lookup is left without a slot if and only if all 256 are taken and none answers it |
| ConfigCache.ConfigTable.Scan | src/cbridge/hook_common.c:310-349 | the loop under the lock finds the matching or first fresh slot and hands over the key pointer |
| ConfigCache.ConfigTable.Recheck | src/cbridge/hook_common.c:331-346 | the second stretch under the lock fills, adopts or passes by the slot |
| ModTable.ModulesSortedDisjoint | src/cbridge/freestanding/jl_symbolize.h:88-139 | from a sorted, non-overlapping map the modules come out sorted and disjoint |
| ModTable.ResolvesToSource | src/cbridge/freestanding/jl_symbolize.h:88-139 | an address of a file-backed line resolves to that file, path clipped, and is never flagged; executable anonymous memory resolves to the file it continues without a gap |
| ModTable.TailIsAdjacent | src/cbridge/freestanding/jl_symbolize.h:99-117 | what a module holds beyond its file image is executable anonymous memory that continues it without a gap |
| ModTable.BaseIsOwn | src/cbridge/freestanding/jl_symbolize.h:129-135 | a module starts where a line of its own file starts |
| ModTable.MergedExactly | src/cbridge/freestanding/jl_symbolize.h:121-137 | a line opens a module if and only if it is file-backed and its path is not that of the file-backed line before, cut to 255 bytes |
| ModTable.StrippedExactly | src/cbridge/freestanding/jl_symbolize.h:118-120 | a path is kept up to the first mark of an unlinked file, and whole without one |
| ModTable.ClipExactly | src/cbridge/freestanding/jl_symbolize.h:133-134 | a module keeps the first 255 bytes of its path |
| ModTable.EndIsOwn | src/cbridge/freestanding/jl_symbolize.h:97-135 | a module ends where a line that belongs to it ends |
| ModTable.ResolvesExactly | src/cbridge/freestanding/jl_symbolize.h:88-139 | an address resolves if and only if it lies from the start of a line of some module to the end of a line of the same module, gaps included |
| ModTable.GapIsUnflagged | src/cbridge/freestanding/jl_symbolize.h:121-128 | an address in a gap between two mappings of one file resolves unflagged |
| ModTable.FlaggedExactly | src/cbridge/freestanding/jl_symbolize.h:121-135 | an address of a module is flagged if and only if every file-backed line of the module ends at or before it |
| ModTable.AbsorbedIsFlagged | src/cbridge/freestanding/jl_symbolize.h:99-128 | absorbed anonymous code is flagged if and only if no later line of the same file went into its module |
| ModTable.ReadAll | src/cbridge/freestanding/jl_symbolize.h:129 | a map whose modules fit the table is read to its end |
| ModTable.ModuleTable.AddLine | src/cbridge/freestanding/jl_symbolize.h:97-135 | one line absorbed, merged, opened or refused on the array as specified |
| ModTable.ModuleTable.Build | src/cbridge/freestanding/jl_symbolize.h:88-139 | the loop builds the modules of every line up to the first that does not fit |
| ModTable.ModuleTable.Dladdr | src/cbridge/freestanding/jl_symbolize.h:232-265 | the lookup gives base, path and flag of the first module that contains the address |
| FmtG.RoundingShape | src/cbridge/freestanding/jl_fmt.h:101-113 | rounding up adds exactly one unit in the last kept place; when all digits are nines they become 1 and zeros and the exponent grows by one; a leading digit other than 0 stays so |
| FmtG.StrippedValue | src/cbridge/freestanding/jl_fmt.h:114-116 | stripping trailing zeros divides by the right power of ten and leaves no trailing zero |
| FmtG.LayoutDenotes | src/cbridge/freestanding/jl_fmt.h:118-140 | read back, each of the three layouts denotes digits times ten to the exponent exactly |
| FmtG.TextDenotes | src/cbridge/freestanding/jl_fmt.h:101-142 | read back, the whole text denotes the extracted digits, plus one unit when rounded up, times ten to e10 - prec + 1 |
| FmtG.TextFits | src/cbridge/freestanding/jl_fmt.h:66-68 | for every precision kept and every exponent of a double the text has at most 24 bytes |
| FmtGShape.FormChosen | src/cbridge/freestanding/jl_fmt.h:118 | the exponent form is chosen if and only if the exponent after rounding is below -4 or not below the precision |
| FmtGShape.ExponentForm | src/cbridge/freestanding/jl_fmt.h:118-130 | that form is a digit, a point and digits not ending in 0 if any are left, e, one sign, and two exponent digits, or three or more without a zero in front |
| FmtGShape.PlainForm | src/cbridge/freestanding/jl_fmt.h:131-141 | the plain form has one digit more than the exponent in front of the point, or a zero there and the zeros the exponent says behind it, and does not end in 0 behind the point |
| FmtG.RoundUp | src/cbridge/freestanding/jl_fmt.h:101-113 | the carry and shift loops round the digit array in place |
| FmtG.FormatDigits | src/cbridge/freestanding/jl_fmt.h:101-142 | rounding, stripping and layout write exactly the specified text and terminator inside the buffer |
| Descriptors.KindsAlign | src/cbridge/visualize.c:524-667 | for every string taken as a signature the i-th kind encoded is the kind slot i was filled under, and the encoder never looks past the end |
| Descriptors.AdvanceOverDescriptor | src/cbridge/visualize.c:524-547 | the C walk advances exactly over any well-formed parameter descriptor |
| Descriptors.ParseInvertsDescriptor | src/go/signature.go:46-87 | the Go parser inverts the printing of any type, nested arrays included, wherever it stands |
| Descriptors.PrimitiveNames | src/go/signature.go:46-75 | the eight primitive types and void, by letter and name |
| Descriptors.ClassNames | src/go/signature.go:76-87 | classes shown with dots, arrays with brackets behind the element type |
| Descriptors.WalksAgree | src/go/signature.go:10-44 | on a method descriptor the C walks and the Go parser agree parameter by parameter |
| Descriptors.SigAdvanceOne | src/cbridge/visualize.c:524-547 | the pointer walk advances as specified or reports a malformed descriptor |
| Descriptors.ExtractArgs | src/cbridge/visualize.c:549-625 | the loop fills the specified slots and stops at an unknown or malformed type |
| Descriptors.EncodeArgs | src/cbridge/visualize.c:646-667 | the encoder's own walk writes the specified kinds |
| Descriptors.ParseJNISignature | src/go/signature.go:10-44 | the loop parses parameters and return type, or gives the signature back unparsed |

## Left out

- Foreign code: hook tables, patching of imported functions, page protection, ART symbol lookup, fork handling.
- JNI introspection: an object is the kind and texts it renders as; mmap and munmap are an oracle that hands
  out regions apart from those in force; sockets deliver or drop; futex sleepers are a set.
- Allocator.JlHeap: each call is one step, the lock inside it being the mutex proved in `FutexMutex`; a
  machine word is one memory cell, so headers are two cells and not sixteen bytes; what is in fresh pages is
  unspecified. The size type is modelled with its 64 bits.
- Allocator.JlHeap.Realloc: not callable where the copy would overrun the new block
  (`Allocator.ReallocOverruns`); what the heap is after that is not modelled.
- Allocator.RunOk: callers pass back only pointers they hold, once, and write only inside their blocks,
  and make no realloc overrun.
- ChannelPairs.ResultJoinsOwnCall: every logged invocation runs from its call hook to its return hook on one
  thread, with the same filter answer at both ends; the id counter does not wrap at 2^64; the consumer stays
  attached. A thread that ends with references still parked keeps them.
- ChannelRefs.EveryRefOwnedOnce: a lookup that is not deferred carries a non-empty class name, as
  the deferred form is recognised by an empty one.
- Delivery.PushedIsShown: a reference is the number of its mint, as in `Channel`, standing for a 64-bit handle;
  an object renders the same whenever the consumer looks at it.
- OnceLock.ExactlyOnce: the system of threads only, without a class over the word.
- MethodCache.CacheIsMap: the hash is any function into the table, the read-write lock makes each call one
  step. The field cache is the same code under other names.
- ConfigCache.RightAnswers: the hash is any function; the text behind a pointer and the Go side's answers do
  not change. The thin wrapper that answers 0 for a null name is left out.
- ModTable.ResolvesToSource: lines come parsed into bounds, permission and path; symbol names are left out,
  because a rebuild does not reset the symbol cache of a slot.
- FmtG.TextDenotes: from the extracted digits on; digit extraction in long double arithmetic and the branches
  for zero, infinities and NaN are left out.
- Descriptors.ExtractArgs: the kinds of the slots, not the bits taken from the argument list.
- Descriptors.ParseJNISignature: the parts of the shown text, without colours and separators.
- Wire.DecodeInvertsEncode: strings, classes, objects, integers and arrays of integers or booleans; float
  text and object arrays are left out, the latter because a last item such as +5 reads back as a count.
- Records that some hooks write by hand without escaping, and fields that carry one bare string, which are
  not escaped either.
- The rebuilding of return values and receivers from a kind, a word and texts, and the layout of log lines.
- Colours, the terminal interface, configuration files, category lists, address ranges, string and memory
  helpers, and the duplicate of the logger for the host build.
