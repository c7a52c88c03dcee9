# Verified core of the Go standard library

A Dafny model of the parts of this repository whose correctness is hardest to see: the
pipe and context protocols, the exact floating-point algorithms, the buffered streams, two
codecs, and several pieces of index arithmetic. Each file holds one module.

| module | models |
|---|---|
| `Words`, `Float64`, `TwoWords`, `Rounding` | uint64 words, float64 values as exact integers, two-word shifts, round to nearest even with a sticky bit |
| `Sqrt`, `Fma`, `Trig` | `math.sqrt`, `math.FMA`, `math.trigReduce` |
| `Pipe`, `PipeProgress`, `PipeDelivery`, `PipeClosing`, `Context`, `ContextOrigin`, `ContextProgress`, `ContextEnds`, `ContextAfter`, `ContextRelease`, `Totals` | `io.Pipe` and package `context` as state machines over all interleavings |
| `Chunks`, `Lines`, `Scanner`, `Reader`, `Writer` | `bufio` over readers and sinks that cut their data as they like |
| `ByteQueue`, `Buffer` | `bytes.Buffer`: its operations on values, and the object itself |
| `Utf8`, `Html`, `HtmlReference`, `EncodedWord` | UTF-8 widths, HTML unescaping in place and what references stand for, RFC 2047 Q encoding |
| `Substrings`, `Splitting`, `Format`, `Numerals`, `YCbCr` | search, split, join and replace; integer formatting; chroma-subsampled images |
| `Bridge`, `ExitFilter` | the reference table of the wasm bridge; the exit code filter of `go_android_exec` |

How the model is set up:

- A float64 is its bit pattern. Its value is a natural number in units of 2^-1074, so that
  every finite value, product and midpoint is an exact integer, and "nearest" is a statement
  about integers. Rounding to infinity counts the infinite pattern as 2^1024, as section 4.3.1
  of IEEE 754-2008 defines.
- A protocol is a state with an `Enabled` predicate and a `Step` function per atomic action.
  `Run` and `Reachable` quantify over every sequence of enabled steps, with any number of
  callers.
- A reader is a plan of answers, a sink a plan of how much it takes: any sizes, empty answers,
  errors with or after data. The theorems hold for every plan.
- What is I/O, allocation, assembly or another package becomes a parameter: the hardware
  multiply-add for zero, infinite and NaN operands, the slack or failure of an allocation, the
  HTML entity tables, base64 and charset conversion, the thresholds of the assembly search.

## Where the code departs from what it promises

These are theorems too: a concrete input, and the exact condition.

- `bytes.Buffer`: a `Grow` between a read and its unread drops what was read. The unread then
  reports success and restores nothing (or, when nothing is left unread, fails). A `ReadBytes`
  that runs into the end of the buffer leaves something to unread although it returned an
  error. `ByteQueue.RunAgrees` states that these are the only departures from the documented
  queue: over any run, the two agree if and only if no such unread is made.
- `bufio.Reader.UnreadByte`: after a `ReadLine` that put a carriage return back, it restores
  that carriage return in place of the last byte taken. The stream stays whole if and only if
  that byte was a carriage return itself. `Reader.StaleUnread` runs into it with seventeen bytes.
- `bufio.Reader.Discard`: an error that is pending while nothing is buffered is read past. The
  contract of `Discard` says what is reported in that case, and `Reader.LostError` loses an
  error with one byte of input.
- `bufio.Reader.UnreadRune`: it promises an error unless the last call was `ReadRune`, but a call
  that asks for nothing, or that finds nothing buffered and returns without reading into the
  buffer, leaves the rune to unread. `Reader.Perform` states for every call that these
  (`Passes`) are the only ones, and `Reader.UnreadAfterRead` succeeds after a `Read` into an
  empty slice.
- `mime.WordDecoder.DecodeHeader`: it promises an error if and only if `CharsetReader` returns
  one. Without a `CharsetReader`, a word in any charset but the three built-in ones is an error
  too, such as `=?x?q?a?=` (`EncodedWord.ErrsWithoutReader`); `EncodedWord.DecodeHeaderErr`
  states the exact condition.
- `html.UnescapeString`: a numeric reference is read into 32 bits. A number beyond Unicode stands
  for U+FFFD unless it wraps around to a character (`HtmlReference.BeyondUnicode`), as
  `&#x100000041;` does, which decodes to "A" (`HtmlReference.WrapsAround`). A single decimal
  digit without its semicolon is taken for no digit at all (`HtmlReference.LoneDigitStays`).
- The wasm bridge: a `bigint` is stored with no type flag, so that `Value.Type` of syscall/js
  panics on it and its reference is never released. The contract of `Bridge.StoreValue` states
  that Go sees the type of every other value.
- `bytes.Replace`: the size of the result is computed in an int and may wrap around. The result
  is the whole text if and only if its length fits an int; a negative size panics, and any other
  cuts the text off silently, as for the input of `Substrings.ReplaceCanCut`.
- `math.trigReduce`: the fraction is refilled from `lo` as it stood before its top three bits
  were moved up. Its 52 bits are right if and only if fewer than twelve leading zeros were
  shifted out or the bits happen to repeat; 536880612.0 is an argument where they are wrong.
- `image.NewYCbCr`: division truncates toward zero. A rectangle with two pixels to a chroma
  sample along an axis whose right or bottom edge is 0, or with four whose right edge is 0, -1
  or -2, has a pixel without a chroma sample. Every pixel of any other rectangle can be read.
  `YCbCr.CornerAtZero` is the rectangle from (-2,-2) to (0,0) with 4:2:0 subsampling.
- `image.mul3NonNeg`: it rejects a product that fits when the product of its first two factors
  does not fit 64 bits and the third is zero (`YCbCr.Mul3CanReject`); no caller gets there.

## Model

| member | source | states |
|---|---|---|
| Fma.FMA | src/math/fma.go:95-175 | For all finite non-zero operands the result is the single rounding, to nearest even, of the exact x*y+z, subnormals, overflow and cancellation included; other operands take the hardware's answer |
| Fma.FiniteFMA | src/math/fma.go:108-174 | The same for the integer path, with the sign of the exact sum, and +0 for an exact zero |
| Fma.FusedUnique | src/math/fma.go:92-95 | At most one bit pattern meets that specification |
| Fma.AddRounded | src/math/fma.go:130-174 | Adding two normalised operands rounds their exact signed sum, whichever is larger |
| Fma.AddOrdered | src/math/fma.go:135-174 | With the larger operand first, alignment, sum and packing give the nearest float |
| Fma.SumRounded | src/math/fma.go:145-150 | The sum of aligned words, with its carry, rounds to the exact sum |
| Fma.DiffRounded | src/math/fma.go:151-160 | The difference, renormalised after cancellation, rounds to the exact difference |
| Fma.PackNearest | src/math/fma.go:162-174 | The final rounding and packing yield the nearest float for every exponent, through subnormal to overflow |
| Fma.PackShift | src/math/fma.go:167-171 | The subnormal shift is the sticky shift by the missing exponent |
| Fma.SplitValue | src/math/fma.go:76-91 | Sign, exponent and normalised mantissa recompose the value, for normal and subnormal operands |
| Fma.ProductOperand | src/math/fma.go:114-128 | The two product words hold the exact product, normalised to bit 62 |
| Fma.AddendOperand | src/math/fma.go:112-122 | The addend in the same format holds its exact value |
| Fma.AlignedSticky | src/math/fma.go:140-141 | The aligned addend differs from the exact one only within the sticky bit |
| Fma.SumNormal | src/math/fma.go:145-150 | The normalised sum still represents the exact sum to within the sticky bit |
| Fma.DiffNormal | src/math/fma.go:151-160 | The renormalised difference does too, and is exact when many bits cancel |
| TwoWords.ShlValue | src/math/fma.go:27-31 | A two-word left shift multiplies by 2^n modulo 2^128, for every count |
| TwoWords.ShrValue | src/math/fma.go:33-37 | A two-word right shift is the floor quotient by 2^n, for every count |
| TwoWords.ShrCompressValue | src/math/fma.go:43-63 | The compressing shift is the floor quotient with its lowest bit set exactly when something non-zero was shifted out, for every count |
| TwoWords.LzValue | src/math/fma.go:65-71 | Leading zeros of 128 bits: the value lies below 2^(128-l) and, if positive, at or above half of it |
| Rounding.StickyShift | src/math/fma.go:43-63 | A further compressing shift keeps a sticky representation sticky |
| Rounding.StickyCompare | src/math/fma.go:162-172 | A sticky representation compares with every multiple of two as the exact value does |
| Rounding.RoundTenValue | src/math/fma.go:172-172 | Adding half and clearing on a tie rounds ten bits off to nearest even |
| Rounding.NormalNearest | src/math/fma.go:162-174 | The rounded significand in place is the nearest float, carry into the exponent included |
| Rounding.SubnormalNearest | src/math/fma.go:167-174 | The same below the normal range |
| Rounding.OverflowNearest | src/math/fma.go:162-166 | Past the largest exponent the nearest is infinity |
| Float64.MidpointsAreNearest | src/math/fma.go:92-95 | Lying between the midpoints to both neighbours, with ties only at even patterns, is being nearest even among all floats |
| Float64.NearestEvenUnique | src/math/fma.go:92-95 | The nearest even float is unique |
| Float64.ValMonotone | src/math/fma.go:76-91 | Bit patterns are ordered as their values |
| Sqrt.Sqrt | src/math/sqrt.go:93-145 | Special cases first; for positive finite x the result is the float nearest the exact root |
| Sqrt.RootOfPositive | src/math/sqrt.go:108-145 | The same, for normal and subnormal x |
| Sqrt.NearestRootIsNearest | src/math/sqrt.go:93-145 | Stated over the reals: no float is closer to the root |
| Sqrt.Unpack | src/math/sqrt.go:108-120 | Unbiased exponent and normalised significand recompose x, subnormal x included |
| Sqrt.Normalize | src/math/sqrt.go:111-117 | The loop shifts a subnormal up to the implicit bit and counts the shifts |
| Sqrt.Root | src/math/sqrt.go:125-138 | The bit loop leaves q as the floor of the root of the scaled radicand, with uint64 never overflowing |
| Sqrt.DigitStep | src/math/sqrt.go:129-138 | One step keeps "radicand minus q squared equals ix times r" and decides the bit |
| Sqrt.RoundedSignificand | src/math/sqrt.go:139-143 | The last bit rounds to nearest: a half-way case cannot occur and no carry leaves the significand |
| Sqrt.PlacedIsNearest | src/math/sqrt.go:139-144 | The significand with half the exponent is nearest among all floats |
| Sqrt.Radicand | src/math/sqrt.go:119-126 | The integer radicand is x scaled by an even power of two |
| Trig.ReductionIsAccurate | src/math/trig_reduce.go:36-54 | For every float64 from Pi/4 up, hi:lo is floor(Z*ix/2^64) modulo 2^128 for the 192-bit table window Z, and falls short of x*(4/Pi) modulo 8 by less than 2^-125 + 2^-136 |
| Trig.IndicesInRange | src/math/trig_reduce.go:44-48 | Every table index is in range |
| Trig.WindowOfTable | src/math/trig_reduce.go:45-48 | The three shifted digits are the 192 bits of the table at the given offset, the shift by zero included |
| Trig.ProductValue | src/math/trig_reduce.go:49-54 | The multi-word product keeps exactly the middle 128 bits |
| Trig.OctantIsExact | src/math/trig_reduce.go:55-56 | The octant is that of x*(4/Pi) unless the 125 bits below it are all ones |
| Trig.MantissaIsExact | src/math/trig_reduce.go:57-63 | The 52 bits kept of the fraction are its true bits if and only if fewer than twelve zeros lead it or the refilled bits repeat three places down |
| Trig.MantissaCanBeWrong | src/math/trig_reduce.go:57-63 | 536880612.0 is an argument where they are not |
| Pipe.StepKeeps | src/io/pipe.go:50-123 | Every atomic step keeps the invariant on lock, rendezvous, counts, errors and streams |
| Pipe.RunKeeps | src/io/pipe.go:50-123 | Every run keeps it |
| Pipe.ReachableInv | src/io/pipe.go:50-123 | It holds in every reachable state |
| Pipe.StreamsAgree | src/io/pipe.go:50-96 | The bytes handed to readers are the concatenation, in lock order, of what each Write handed over: its first n bytes once it has returned |
| Pipe.NilMeansAll | src/io/pipe.go:76-96 | A Write returns nil only with the full count |
| Pipe.ReadIsOneChunk | src/io/pipe.go:50-65 | A Read returns the bytes of exactly one rendezvous, which PipeDelivery.RendezvousDelivers determines, or an error and nothing |
| Pipe.AcknowledgementFindsItsWriter | src/io/pipe.go:57-61 | At most one chunk is unacknowledged; its count goes to the writer that offered it and can always go, even after Close |
| Pipe.CloseErrorsExplained | src/io/pipe.go:108-123 | A close error is the one the other side stored, or ErrClosedPipe; never nil |
| Pipe.WrittenOnce | src/io/pipe.go:21-27 | Stored errors, done, and returned results are never rewritten |
| Pipe.CloseUnblocks | src/io/pipe.go:67-106 | After Close, while a call is unfinished some step of a call is enabled |
| PipeProgress.CloseEnds | src/io/pipe.go:50-106 | Without new calls every run takes at most nine steps for each call; after Close, a run that cannot go on has returned from all of them |
| PipeProgress.StepRanks | src/io/pipe.go:85-94 | Every step brings the calls nearer their end: a Write that comes back for another reader has used one up |
| PipeDelivery.RendezvousDelivers | src/io/pipe.go:57-61 | One rendezvous hands over the next bytes of the Write, fills the reader or drains the writer, and touches nobody else |
| PipeDelivery.WriteCompletes | src/io/pipe.go:76-96 | A Write alone on an open pipe, with readers that have room for all of it, has returned its full count and nil in every run that cannot go on, and exactly its bytes were handed over |
| PipeDelivery.ReadTakesItsShare | src/io/pipe.go:50-96 | A Write and a Read alone: the Read returns the whole Write, which returns nil, or is filled while the Write waits with the rest |
| PipeClosing.CloseCloses | src/io/pipe.go:67-74 | Once a Close call has returned the pipe is closed, with an error stored |
| PipeClosing.FirstCloseStays | src/io/pipe.go:67-106 | The first close of a side decides its error for good: the one it was given, or EOF for the writing side and ErrClosedPipe for the reading side |
| PipeClosing.CloseReachesOtherSide | src/io/pipe.go:98-123 | Readers of a pipe only its writer closed report that error, EOF if none was given; writers of one only its reader closed likewise, ErrClosedPipe if none was given |
| PipeClosing.OwnSideWins | src/io/pipe.go:108-123 | On a side that is closed already a call fails with ErrClosedPipe, whatever the other side stored |
| PipeClosing.ClosedForGood | src/io/pipe.go:50-80 | A call that begins on a closed pipe moves no bytes and fails |
| Context.StepKeeps | src/context/context.go:462-566 | Every lock-protected block keeps the invariant on cells, tree and threads |
| Context.RunKeeps | src/context/context.go:462-566 | Every interleaving keeps it |
| Context.ReachableInv | src/context/context.go:462-566 | It holds in every reachable state |
| Context.CancelReturnsAfterAll | src/context/context.go:536-566 | When a cancel call returns, every context derived from the cancelled one and not behind WithoutCancel reports an error and a closed channel |
| Context.CancelReachesAll | src/context/context.go:462-492 | In any state, a completed cancellation is reported by all those descendants, however they were registered |
| Context.ReturnSettles | src/context/context.go:536-566 | A cancel returns only when its context is settled, whoever cancelled it first |
| Context.NeverRewritten | src/context/context.go:536-552 | err, cause, a created channel and the outcome of an AfterFunc never change again |
| Context.FirstCancelWins | src/context/context.go:536-545 | The step that cancels a context writes exactly what reached it first: what its frame carries, which the next rows trace to the call, or the parent's err and cause |
| ContextOrigin.CancelGivesCause | src/context/context.go:235-265 | If a CancelFunc's call is the first to cancel its context, that reports Canceled for good, and the cause the call gave, or Canceled for nil |
| ContextOrigin.FiringGivesLate | src/context/context.go:637-641 | If the timer is the first, DeadlineExceeded, and the cause given with the deadline, or DeadlineExceeded for nil |
| ContextOrigin.ExpiryGivesLate | src/context/context.go:630-634 | The same for a deadline that has passed when the context is derived |
| ContextOrigin.StopGivesCanceled | src/context/context.go:320-333 | If the stop function of an AfterFunc is the first, Canceled with no other cause |
| ContextOrigin.StoppedForGood | src/context/context.go:320-333 | A function that was stopped is never started |
| ContextOrigin.DerivedAsGiven | src/context/context.go:618-643 | A derived context keeps its kind, its parent and the cause given for its deadline |
| Context.CauseHasOrigin | src/context/context.go:283-298 | A cancelled context reports err and cause of the nearest context above it that was cancelled directly |
| Context.ClosedAtMostOnce | src/context/context.go:546-552 | A done channel is closed at most once, and is closed exactly when err is set |
| Context.WithoutCancelShields | src/context/context.go:571-600 | Nothing above a WithoutCancel is ever reported below it |
| ContextProgress.NoDeadlock | src/context/context.go:389-566 | In every reachable state with a call under way some goroutine can take a step: the locks of the tree cannot deadlock |
| ContextEnds.EveryCallReturns | src/context/context.go:453-566 | Without new calls every interleaving is bounded by a rank of the state it starts from, and one that cannot go on has returned from every call: every cancel returns |
| ContextEnds.StepRanks | src/context/context.go:536-566 | Every step brings the calls nearer their end: a cancel that wins has its children to visit, and wins once per context |
| ContextProgress.StepOrderly | src/context/context.go:536-566 | Every step keeps the lock order: above a held lock a goroutine only works further down, and takes its parent's lock only after letting go of its own |
| ContextProgress.RunOrderly | src/context/context.go:536-566 | Every interleaving keeps it |
| ContextAfter.AfterFuncRuns | src/context/context.go:315-350 | When a cancel call has returned, the function of every AfterFunc below the cancelled context and not behind WithoutCancel has been started, or had been stopped |
| ContextAfter.StepPunctual | src/context/context.go:336-350 | Every step keeps: a function that is due will be started by the cancel that still holds the context above it |
| ContextRelease.CancelReleases | src/context/context.go:389-400 | Cancelling releases resources: while no call is under way, a cancelled context has no timer running and is not among the children of a context that is not cancelled |
| ContextRelease.NotBeforeCancelled | src/context/context.go:336-350 | A function waiting for a context is never started before that is cancelled |
| ContextRelease.DeadlineIsWatched | src/context/context.go:618-643 | While no call is under way, the timer of a context with a deadline that is not cancelled is running and may fire |
| ContextRelease.StepTidy | src/context/context.go:536-677 | Every step keeps: what is still to be released is about to be, by a frame of some goroutine |
| Chunks.Source.Read | src/bufio/scan.go:218-219 | One Read into a slice: the next answer of the reader, cut to the room there is, without touching what precedes it |
| Lines.ScanLinesIsFirst | src/bufio/scan.go:355-369 | At the end of the input ScanLines takes the first line of it, terminator and carriage return dropped |
| Lines.ScanLinesIsStable | src/bufio/scan.go:355-369 | What it finds in part of the input it would find in all of it |
| Lines.RawIsCut | src/bufio/scan.go:355-369 | The reference lines concatenate to the input, each with a newline at its end and nowhere else, except that the last may lack it |
| Lines.RawHead | src/bufio/scan.go:355-369 | The first line ends at the first newline |
| Lines.LinesOfText | src/bufio/scan.go:341-369 | Text made of lines that end in a newline, alone or after a carriage return, has those lines, without their ends; so has a last line that lacks one |
| Scanner.AllLines | src/bufio/scan.go:139-240 | However the reader cuts the input: if every line has room, the tokens are exactly the lines of what the reader delivered before its error, 101 empty reads in a row or its end, and Err is that error, nil for the end; a nil Err means the whole input; ErrTooLong only if some line has no room, with a prefix of the lines; a line wider than the buffer may get is always ErrTooLong |
| Scanner.ScanPatiently | src/bufio/scan.go:218-238 | A byte after k empty reads is scanned if k is at most 100; otherwise ErrNoProgress |
| Scanner.Scanner.Scan | src/bufio/scan.go:139-240 | A token is the first of the lines to come; without one, nothing is left and the reader's error is reported, or the next line has no room and ErrTooLong is |
| Scanner.Scanner.Split | src/bufio/scan.go:144-182 | One call of the split function takes the first line, or finds no newline in what is buffered |
| Scanner.Scanner.MakeRoom | src/bufio/scan.go:191-214 | Shifting and doubling keep the unconsumed bytes; ErrTooLong only with a full buffer at its limit |
| Scanner.Scanner.Fill | src/bufio/scan.go:218-238 | Reading keeps what is pending and the error that ends it, a stalled reader or a bad count included |
| Scanner.Scanner.SetErr | src/bufio/scan.go:257-261 | The first error other than EOF is kept |
| Reader.Reader.Fill | src/bufio/bufio.go:96-124 | Sliding and reading keep what comes: exactly one chunk is added, with its error, or ErrNoProgress after a hundred empty reads, and what the source has left is determined |
| Reader.Reader.Peek | src/bufio/bufio.go:139-166 | The next bytes, left in place: n of them, or as many as come or have room, with the source's error or ErrBufferFull accordingly; what follows a reported error is next, and nothing can be unread |
| Reader.Reader.Discard | src/bufio/bufio.go:173-203 | n bytes are taken, or all that come before the source's error and that error is returned; with an error pending and nothing buffered, what the next chunk of the source decides; what is left is determined, and nothing can be unread |
| Reader.Reader.Read | src/bufio/bufio.go:212-259 | Buffered bytes, or the pending error, or one Read of the source, past the buffer if p is large: in each case exactly which bytes and which error; the last byte copied can be unread, and a Read that copies nothing leaves what can be unread as it was |
| Reader.Reader.ReadByte | src/bufio/bufio.go:263-275 | The first byte to come, which can be unread; the source's error if and only if none comes before it, and what follows that error is next |
| Reader.Reader.UnreadByte | src/bufio/bufio.go:282-297 | Succeeds if and only if a last byte is known; the stream stays whole if and only if that byte is not stale, or is the one it replaces |
| Reader.Reader.ReadRune | src/bufio/bufio.go:302-318 | The first rune to come and its size, however its bytes arrive, and both the rune and its last byte can be unread; the source's error if nothing comes before it, and what follows that error is next |
| Reader.Reader.UnreadRune | src/bufio/bufio.go:324-332 | Succeeds if and only if the size of a last rune is known and its bytes are still before the window; a success puts exactly that rune back |
| Reader.Perform | src/bufio/bufio.go:320-332 | Whatever the call, UnreadRune succeeds after it if and only if it is a ReadRune that finds something, or UnreadRune would have succeeded before it and the call is one of those that pass; only a stale UnreadByte breaks the invariant |
| Reader.UnreadAfterRead | src/bufio/bufio.go:212-219 | With anything to come, ReadRune, Read into an empty slice and UnreadRune succeed and restore the stream |
| Reader.Reader.ReadSlice | src/bufio/bufio.go:347-386 | The shortest prefix of what comes that ends in delim; a full buffer without it; or all that comes before the source's error, and that error, with what follows it next; the last byte of the line can be unread, and an empty line leaves what can be unread as it was |
| Reader.Reader.ReadLine | src/bufio/bufio.go:404-437 | One line without its end, free of newlines: what is taken is the line and its end, or the last of what comes; a full buffer comes as a piece, less a carriage return at its end, and exactly then lastByte is stale; an error only when nothing comes before it; what can be unread is determined |
| Reader.Reader.CollectFragments | src/bufio/bufio.go:446-468 | The pieces together are the shortest prefix that ends in delim, or all that comes before the source's error, and that error, with what follows it next; their last byte can be unread |
| Reader.Reader.ReadBytes | src/bufio/bufio.go:477-488 | The same in one slice of exactly that size: delim is found if and only if it comes, whatever the buffer size and chunking, and the last byte can be unread |
| Reader.StaleUnread | src/bufio/bufio.go:404-419 | Fifteen bytes, a carriage return and one more: UnreadByte after ReadLine restores the carriage return in place of the last byte taken |
| Reader.LostError | src/bufio/bufio.go:184-202 | One byte that comes with an error: after Read has taken it, Discard reports EOF in place of that error |
| Reader.ReadPatiently | src/bufio/bufio.go:108-124 | A byte after k empty reads is read if k is below 100; otherwise ErrNoProgress |
| Reader.TrimmedIs | src/bufio/bufio.go:428-436 | ReadLine drops a newline with the carriage return before it, and nothing without a newline |
| Writer.Writer.Write | src/bufio/bufio.go:673-695 | The bytes counted as written are accepted in order, all of them unless an error is set; the sink is called exactly when they do not fit, with a full buffer or, past an empty one, with all of them; an error is the sink's own, or ErrShortWrite for a short flush, and comes from its last call |
| Writer.Writer.WriteString | src/bufio/bufio.go:744-775 | The same, whether or not the sink takes strings |
| Writer.Writer.WriteByte | src/bufio/bufio.go:698-708 | The byte is accepted unless an error is set; the sink is called exactly when the buffer is full, and an error is explained as before |
| Writer.Writer.WriteRune | src/bufio/bufio.go:712-738 | The encoding is accepted whole, or in part with an error, also in a buffer too small for it; an error is explained as before |
| Writer.Writer.Flush | src/bufio/bufio.go:632-653 | The sink is called once, with all that is buffered, if anything is; its error is returned, ErrShortWrite if and only if it reported none and took less, nil otherwise; what it did not take stays buffered |
| Writer.NoErrorFromNowhere | src/bufio/bufio.go:632-653 | A sink that takes everything causes no error |
| Writer.WriteThrough | src/bufio/bufio.go:632-695 | A client that writes pieces and flushes: the sink holds a prefix of them, all of them if no error is reported, and a sink that takes everything causes none |
| ByteQueue.RunAgrees | src/bytes/buffer.go:88-450 | Over any run of calls, replies and contents are those of the documented byte queue if and only if no unread is stale |
| ByteQueue.StepAgrees | src/bytes/buffer.go:164-170 | One call agrees, or is a stale unread and then always differs |
| ByteQueue.NewAgrees | src/bytes/buffer.go:463-482 | The same from a new buffer |
| ByteQueue.GrowDropsUnread | src/bytes/buffer.go:413-422 | Read, Grow, UnreadByte: success is reported and nothing put back |
| ByteQueue.EofLeavesUnread | src/bytes/buffer.go:439-450 | A ReadBytes that returned only EOF lets an earlier byte be unread |
| ByteQueue.FirstInFirstOut | src/bytes/buffer.go:175-182 | Over any run of writes, grows and reads, bytes delivered and bytes held are the bytes accepted, in order |
| ByteQueue.AmortizedCopying | src/bytes/buffer.go:126-157 | From an empty buffer, over any run, grow copies at most three bytes for every byte written or reserved |
| ByteQueue.CopyingIsLinear | src/bytes/buffer.go:126-157 | The same from any state, against the potential len + max(0, 2*len - cap) |
| ByteQueue.StepCost | src/bytes/buffer.go:126-157 | Each call's copying and rise in potential are at most three times what it asks for |
| ByteQueue.WantedFits | src/bytes/buffer.go:147-152 | The guard before growSlice is what keeps its sums within an int |
| Buffer.Buffer.Enlarge | src/bytes/buffer.go:126-157 | grow on the array keeps the unread bytes and makes exactly the room the value model says, counting every byte copied |
| Buffer.Buffer.TryGrowByReslice | src/bytes/buffer.go:115-121 | Succeeds if and only if the spare capacity suffices, and moves nothing |
| Buffer.Buffer.GrowSlice | src/bytes/buffer.go:229-252 | A fresh array of at least twice the capacity, with the unread bytes at its start |
| Buffer.Buffer.Grow | src/bytes/buffer.go:164-170 | Grow is the operation of the value model, panic cases included |
| Buffer.Buffer.Write | src/bytes/buffer.go:175-182 | Write likewise |
| Buffer.Buffer.WriteByte | src/bytes/buffer.go:285-293 | WriteByte is a write of one byte |
| Buffer.Buffer.Read | src/bytes/buffer.go:318-334 | Read likewise |
| Buffer.Buffer.Next | src/bytes/buffer.go:340-352 | Next likewise |
| Buffer.Buffer.ReadByte | src/bytes/buffer.go:356-366 | ReadByte likewise |
| Buffer.Buffer.ReadRune | src/bytes/buffer.go:373-389 | ReadRune likewise, with the code point decoded |
| Buffer.Buffer.UnreadRune | src/bytes/buffer.go:396-405 | UnreadRune likewise |
| Buffer.Buffer.UnreadByte | src/bytes/buffer.go:413-422 | UnreadByte likewise |
| Buffer.Buffer.ReadBytes | src/bytes/buffer.go:430-450 | ReadBytes likewise |
| Buffer.Buffer.Truncate | src/bytes/buffer.go:91-101 | Truncate likewise |
| Buffer.Buffer.Reset | src/bytes/buffer.go:106-110 | Reset empties the buffer and keeps its storage |
| Html.UnescapeString | src/html/escape.go:187-214 | Unescaping in place equals an append-only decoder, on every input |
| HtmlReference.NumericReference | src/html/escape.go:69-121 | A reference with any spelling of decimal or hexadecimal digits, with or without its semicolon, stands for the number that the digits denote by position, taken as 32 bits: itself in UTF-8, the Windows-1252 character for 0x80 to 0x9F, U+FFFD for 0, surrogates and what is beyond Unicode |
| HtmlReference.BeyondUnicode | src/html/escape.go:82-119 | A number beyond Unicode stands for U+FFFD if and only if its low 32 bits are no other valid code point; always below 2^31 |
| HtmlReference.WrapsAround | src/html/escape.go:82-105 | A number of nine hexadecimal digits that decodes to the letter A |
| HtmlReference.LoneDigitStays | src/html/escape.go:107-110 | A single decimal digit without its semicolon is left as it is |
| HtmlReference.NamedReference | src/html/escape.go:123-163 | A name stands for its one or two code points in the tables; failing that its longest known front does and the rest is text; failing that all of it is text |
| Html.UnescapeNext | src/html/escape.go:197-212 | One round keeps dst at or below src, appends what the decoder appends, and leaves unread bytes alone |
| Html.UnescapeEntity | src/html/escape.go:56-164 | One entity is replaced as the reference decoder replaces it, without touching what follows src |
| Html.ReadNumeric | src/html/escape.go:69-121 | A numeric reference, with 32-bit wrap-around and the replacement table |
| Html.ReadNamed | src/html/escape.go:123-163 | A named reference, or the longest known prefix of it |
| Html.ScanNumber | src/html/escape.go:82-105 | The digit loop computes the wrapped number and where it ends |
| Html.ScanName | src/html/escape.go:126-137 | The name ends at the first byte that is not a letter or digit, or after a semicolon |
| Html.FindPrefix | src/html/escape.go:149-159 | A proper prefix of at most six bytes that is in the table, and no longer one is; or none, and none is |
| Html.EntityShrinks | src/html/escape.go:56-164 | With a table of narrow entries no entity decodes to more bytes than it takes |
| Html.PlainText | src/html/escape.go:187-214 | Text up to the first ampersand decodes to itself |
| Html.UnescapeUndoesEscape | src/html/escape.go:166-214 | UnescapeString(EscapeString(s)) is s, for every s |
| Html.EscapedIsInert | src/html/escape.go:166-180 | Escaped text holds no angle bracket and no quote |
| Html.EscapesFive | src/html/escape.go:166-180 | The five characters become their references, and every other byte is left alone |
| EncodedWord.RoundTrip | src/mime/encodedword.go:35-302 | For every byte string that needs encoding, DecodeHeader of its Q-encoded UTF-8 form returns it without error |
| EncodedWord.RoundTripElsewhere | src/mime/encodedword.go:35-302 | In any other charset the encoding is one word, and decodes to its content converted to UTF-8 |
| EncodedWord.EncodePrintable | src/mime/encodedword.go:35-49 | Printable text is returned unchanged, any other is encoded, and the result is always printable |
| EncodedWord.WordsOfEncoding | src/mime/encodedword.go:114-178 | The encoding is words of at most 75 characters that together hold the string in whole runes (RFC 2047, section 2 and section 5 rule 3) |
| EncodedWord.RunesStayWhole | src/mime/encodedword.go:121-140 | No rune is split between words |
| EncodedWord.WordsAreFull | src/mime/encodedword.go:121-140 | A word is closed only when the next rune would not fit in it |
| EncodedWord.QEncode | src/mime/encodedword.go:114-141 | The loop writes that encoding |
| EncodedWord.EncodeRune | src/mime/encodedword.go:121-140 | One round measures a rune and starts a new word when it would not fit |
| EncodedWord.WriteQString | src/mime/encodedword.go:144-157 | Each byte is a space sign, itself, or its hexadecimal escape |
| EncodedWord.QOfByte | src/mime/encodedword.go:144-157 | A space is an underscore, a printable character itself, and any other byte an equals sign and two upper-case hexadecimal digits |
| EncodedWord.QRoundTrip | src/mime/encodedword.go:362-388 | Q decoding undoes Q encoding |
| EncodedWord.QHasNoQuestionMark | src/mime/encodedword.go:144-157 | Encoded text cannot close its word |
| EncodedWord.DecodeQ | src/mime/encodedword.go:362-388 | The decoding loop, its error cases included |
| EncodedWord.RunDecodeHeader | src/mime/encodedword.go:230-302 | The header loop equals the decoding of words one by one, with white space between words dropped |
| EncodedWord.HeaderMeans | src/mime/encodedword.go:230-302 | Any sequence of words with text around them, in B or Q and any charset that can be converted, decodes to the contents in order, in UTF-8, with all the text but white space between two words (RFC 2047, section 6.2) |
| EncodedWord.QSpelling | src/mime/encodedword.go:362-388 | qDecode accepts exactly the spellings of section 4.2 of RFC 2047 and returns what they spell |
| EncodedWord.NothingToDecode | src/mime/encodedword.go:230-302 | A header without a word that can be decoded is returned unchanged |
| EncodedWord.BadWordStays | src/mime/encodedword.go:275-281 | A word in an unknown encoding, or whose text is not in its encoding, is left as it is |
| EncodedWord.DecodeJoin | src/mime/encodedword.go:230-302 | Adjacent words decode to their joined contents (RFC 2047, section 6.2) |
| EncodedWord.DecodeHeaderErr | src/mime/encodedword.go:228-302 | An error if and only if some word with decodable text is in a charset other than UTF-8, ISO-8859-1 and US-ASCII, and there is no CharsetReader or it, or the reader it returns, fails on the word |
| EncodedWord.ErrsWithoutReader | src/mime/encodedword.go:315-342 | A word in charset x is an error without a CharsetReader |
| EncodedWord.FindAt | src/mime/encodedword.go:244-273 | An encoded word is found where it stands, with its charset, encoding and text |
| Utf8.WidthOfEncoding | src/mime/encodedword.go:121-132 | The width read is that of the rune encoded, whatever follows |
| Utf8.RuneOfEncoding | src/bytes/buffer.go:379-388 | Decoding undoes encoding, whatever follows |
| Utf8.EncodingOfRune | src/bytes/buffer.go:368-372 | Encoding undoes decoding, but for malformed bytes, which decode to U+FFFD |
| Utf8.WidthIsStable | src/bufio/bufio.go:303-312 | Once a rune is whole, later bytes change neither it nor its width |
| Substrings.Index | src/bytes/bytes.go:1239-1324 | Every fast path returns the first occurrence, whatever the platform's thresholds |
| Substrings.SkipSearch | src/bytes/bytes.go:1258-1323 | Skipping by first byte and giving up early misses nothing |
| Substrings.Count | src/bytes/bytes.go:55-72 | Non-overlapping occurrences, or runes and one for an empty separator |
| Substrings.GenSplit | src/bytes/bytes.go:323-351 | The pieces, limited or not, each in its place of an array made for them |
| Substrings.DoExplode | src/bytes/bytes.go:32-51 | One piece for each UTF-8 sequence, the last taking the rest |
| Substrings.PiecesCounted | src/bytes/bytes.go:353-391 | There are Count+1 pieces, or the limit |
| Substrings.PiecesAreClean | src/bytes/bytes.go:353-391 | No piece contains the separator, but the last of a limited split |
| Splitting.PiecesAreLeftmost | src/bytes/bytes.go:323-351 | Each piece ends at the first separator in what is left of the text |
| Splitting.AfterKeepsSeparator | src/bytes/bytes.go:373-391 | SplitAfter cuts where Split does and leaves each piece its separator |
| Splitting.ExplodedAreRunes | src/bytes/bytes.go:32-51 | An empty separator cuts after each UTF-8 sequence |
| Splitting.ExplodedCounted | src/bytes/bytes.go:32-51 | There are as many pieces as UTF-8 sequences, or as many as allowed |
| Substrings.JoinPieces | src/bytes/bytes.go:505-535 | Join restores what Split cut, whatever the limit |
| Substrings.JoinPiecesAfter | src/bytes/bytes.go:365-391 | Concatenation restores what SplitAfter cut |
| Substrings.JoinExploded | src/bytes/bytes.go:32-51 | And what an empty separator cut |
| Substrings.Join | src/bytes/bytes.go:505-535 | The pieces with the separator between them; a panic only within len(s) of the largest int |
| Substrings.Replace | src/bytes/bytes.go:1107-1141 | The first n occurrences replaced, for empty old too, filling the buffer exactly when the text fits an int; otherwise a panic or the text cut off, by the sign of the wrapped size |
| Substrings.ReplaceCanCut | src/bytes/bytes.go:1121-1140 | An input whose result is cut off |
| Substrings.ReplaceIsJoin | src/bytes/bytes.go:1107-1150 | Replacing n occurrences is joining the n+1 pieces with the new text |
| Splitting.ReplaceEmpty | src/bytes/bytes.go:1126-1133 | Replacing the empty string puts the new text in front of each of the first n UTF-8 sequences, and at the end if there is one more to replace |
| Splitting.ReplacementsAre | src/bytes/bytes.go:1107-1120 | As many replacements as asked for, or as there are occurrences |
| Substrings.ReplacedLength | src/bytes/bytes.go:1121-1122 | The precomputed length is exact |
| Format.Fmt.FmtInteger | src/fmt/format.go:194-321 | Appends sign, prefixes, zeros, digits and padding exactly as specified; no write falls below index 0, for every value, base, flag set, width and precision |
| Format.TextReads | src/fmt/format.go:194-321 | The text is spaces, the sign of the number, the prefix of its base, digits that denote its absolute value by position, as many as asked for without superfluous zeros, and spaces; those on the side the minus flag says, and as many as the width asks for |
| Format.NothingReads | src/fmt/format.go:218-225 | Precision zero and the number zero: nothing but spaces |
| Format.BodyFits | src/fmt/format.go:200-210 | 68 bytes, or 3+wid+prec, always suffice |
| Format.DigitTextDenotes | src/fmt/format.go:212-273 | The digits denote the magnitude, are as many as asked for, and lead with zeros only to be as many |
| Format.DigitsDenote | src/fmt/format.go:239-269 | Reading the digits back gives the number, with no superfluous zero |
| Format.MagnitudeDenotes | src/fmt/format.go:195-198 | Sign and magnitude give the number back, the least int64 included |
| Format.Fmt.Pad | src/fmt/format.go:90-105 | Padding on the side the minus flag says, with zeros or spaces by the zero flag |
| Format.Fmt.WritePadding | src/fmt/format.go:64-87 | n padding bytes, or none |
| YCbCr.NewIsSound | src/image/ycbcr.go:95-200 | For every non-empty rectangle that can be made, all pixels have luma and chroma samples in range if and only if neither edge straddles zero; never a problem without negative coordinates |
| YCbCr.NewIsExact | src/image/ycbcr.go:175-200 | No arithmetic has overflowed when the size check passes, for all 64-bit coordinates |
| YCbCr.NewSucceeds | src/image/ycbcr.go:147-200 | An image is made if and only if edges, planes and total size fit an int; otherwise NewYCbCr panics |
| YCbCr.Mul3IsExact | src/image/geom.go:287-304 | The product, if and only if no factor is negative, it fits an int and the product of the first two fits 64 bits |
| YCbCr.Mul3CanReject | src/image/geom.go:291-294 | A product of zero that is rejected |
| YCbCr.Add2IsExact | src/image/geom.go:308-317 | The sum likewise |
| YCbCr.PixelIsReadable | src/image/ycbcr.go:95-116 | A pixel's luma offset is always in range, its chroma offset when the rectangle fits |
| YCbCr.LumaIsDistinct | src/image/ycbcr.go:95-98 | No two pixels share a luma sample |
| YCbCr.ChromaIsShared | src/image/ycbcr.go:100-116 | Two pixels share a chroma sample if and only if they are in the same block of the subsampling ratio |
| YCbCr.CornerIsLast | src/image/ycbcr.go:147-171 | The last pixel has the last samples: no plane is larger than it has to be |
| YCbCr.CornerIsUnreadable | src/image/ycbcr.go:147-171 | Otherwise the last pixel's chroma offset lies beyond the slice |
| YCbCr.CornerAtZero | src/image/ycbcr.go:147-171 | The rectangle from (-2,-2) to (0,0) with 4:2:0 subsampling can be made, and its last pixel cannot be read |
| YCbCr.SubImageShares | src/image/ycbcr.go:120-141 | A sub-image never slices out of range and reads each pixel where the image does |
| YCbCr.SubImagesShare | src/image/ycbcr.go:120-141 | So does any chain of them, over exactly the pixels in all the rectangles |
| YCbCr.IntersectIsIntersection | src/image/geom.go:154-175 | Intersect is intersection of sets of points |
| Bridge.Bridge.StoreValue | misc/wasm/wasm_exec.js:139-187 | What is stored loads as the value, an id is shared by equal values, and one more reference is counted; Go sees the value's type from the stored bytes, and releases the reference, for all but a bigint |
| Bridge.Bridge.FinalizeRef | misc/wasm/wasm_exec.js:299-309 | One reference is released; the table stays the inverse of the map, the pool holds distinct free ids, and every count is the number of references outstanding |
| Bridge.Bridge.LoadValue | misc/wasm/wasm_exec.js:126-137 | An outstanding reference loads the value it was handed out for |
| Bridge.Bridge.Allocate | misc/wasm/wasm_exec.js:157-166 | A free id is reused, or the table grows, without disturbing the ids in use |
| Bridge.Bridge.constructor | misc/wasm/wasm_exec.js:471-489 | The predefined values meet the invariant |
| ExitFilter.Filter | misc/go_android_exec/main.go:222-289 | Output P, the marker and an in-range code, cut in any way: exactly P is passed on and the code is returned |
| ExitFilter.ExitCodeFilter.Write | misc/go_android_exec/main.go:241-263 | Passed on and held back are everything written, and what is held is the longest suffix that could still become the marker |
| ExitFilter.ExitCodeFilter.Finish | misc/go_android_exec/main.go:265-289 | A code exactly when the output ended in marker and code; otherwise everything is passed on |
| ExitFilter.DecimalDenotes | misc/go_android_exec/main.go:280 | The code is the number that its digits denote by position |
| ExitFilter.MatchMeans | misc/go_android_exec/main.go:222-239 | A suffix is held back if and only if it could be continued to a marker and a code |
| ExitFilter.FullMatchMeans | misc/go_android_exec/main.go:222-239 | A full match is the text exitcode= and at least one digit |
| ExitFilter.TailOfMore | misc/go_android_exec/main.go:244-262 | Holding back only that suffix forgets nothing |
| ExitFilter.TailOfMarker | misc/go_android_exec/main.go:222-239 | A marker with its code is held back whole, whatever came before |

## Left out

- Context: custom Context implementations, the afterFuncer and goroutine fallbacks (lines 494-515 of context.go), deadlines by the wall clock and String methods; a timer is a step that may fire at any time. A child that is cancelled while it is being derived is cancelled in one step.
- Pipe: the copy into the reader's buffer is one step with the rendezvous that precedes it.
- Fma.FMA: operands that are zero, infinite or NaN take the hardware's answer, as the code does.
- Trig: the last two float operations (lines 66-74 of trig_reduce.go), and whether the table holds the digits of 4/Pi.
- Scanner: split functions other than ScanLines, and ErrFinalToken; an impossible count is modelled as -1 only.
- Reader: readers that report a negative count (a panic), and WriteTo.
- Writer: sinks that report a negative count, and ReadFrom. A sink answers with any counts and errors finitely often and then takes everything: on one that answers a direct write with (0, nil) for ever, the loop of Write (lines 673-695 of bufio.go) does not end.
- Buffer: ReadFrom and WriteTo; WriteString, which is Write; WriteRune; slices that alias the buffer's memory.
- Html.UnescapeString: the tables are parameters; that no entry is wider than its name and the ampersand is a precondition, as a comment in entity.go requires of the table.
- EncodedWord: B encoding and charsets other than UTF-8, US-ASCII and ISO-8859-1; base64 and CharsetReader are parameters.
- Substrings: allocations that fail; Repeat, Fields, Map, EqualFold and the other functions of bytes.go; the assembly search and Rabin-Karp are specified, not modelled.
- Format: fmtUnicode, floats and quoting; the output buffer is a value, its growth is not modelled.
- YCbCr: NYCbCrA, whose alpha plane is another luma plane; colour conversions; overflow inside an offset, which cannot occur for a pixel in range.
- Bridge: ids beyond 32 bits, and the rest of the bridge, which only calls these operations.
- ExitFilter: a sink that fails, and output that is not appended to by the wrapper.
- Transcendental functions of src/math, reflection in fmt, the TLS patches, and the process and network plumbing under misc.
