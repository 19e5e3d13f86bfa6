# STM32H7 serial and GPIO demos, modelled in Dafny

The firmware is a set of small async (embassy) programs for an STM32H7
board:

- **Serial echo receivers.** They read bytes from USART3 and frame them in a
  64-byte buffer. Byte 0 is the delimiter. A byte that arrives when the buffer
  is full first hands on the 64 bytes already held and then starts the next
  frame.
  - `src/usart/interup.rs` passes each frame by value, through a channel of
    capacity one, to a writer task.
  - `src/usart/poll.rs` and `src/usart/alloc_block.rs` write each frame back
    with a blocking write.
- **DMA receivers.**
  - `src/bin/dma_888.rs` and `src/bin/dma_2.rs` have a producer task that
    fills a mutex-protected buffer with `read_until_idle` and announces the
    length over a capacity-one channel. A consumer task locks the buffer,
    checks `buf[..n]` for UTF-8 and calls handler `a` when the text contains
    "hello", handler `b` otherwise.
  - `src/bin/dma_usart.rs` echoes each UTF-8 burst as "Echo: ", the burst,
    and "\r\n".
- **LED and button demo.** `src/bin/blink.rs` has a button task that detects
  edges, debounces them and cycles the LED mode on a short press. An LED task
  blinks the LED at the current mode's rate.

The model has these parts:

- **Framing.** The framing rule is a pure reference function, `Framing.Step`
  and `Framing.Run`, over the pending bytes `buf[..idx]`.
  - The receive buffer is a class, `Accumulator.Framer`, with an `array` of
    64 bytes and an index, updated in place. Its methods are proved to follow
    the reference function.
  - The echo loops are methods that drive a `Framer` over a sequence of read
    outcomes. `InterruptEcho.EchoSession` also passes messages through a
    one-slot channel class, `Channel.Slot`. The methods' results are proved
    equal to the reference run.
  - Properties proved about the reference:
    - no byte is lost or duplicated;
    - every frame fits the buffer;
    - a full frame is handed on every 64 bytes when no delimiter arrives;
    - the two empty-frame policies agree up to empty frames.
- **UTF-8.** The check that `core::str::from_utf8` performs is the grammar in
  section 4 of RFC 3629. It has an encoder and a decoder with both round
  trips proved.
- **Command dispatch.** `Command.Classify` is proved to be the same as a
  byte-level search for the keyword.
- **DMA handoff.** The mutex buffer and the channel are driven in the
  sequential schedule that the programs' comments describe.
  - A separate step machine, `DmaRace`, lets the two tasks interleave at
    their `.await`s.
  - For the code as written, the machine exhibits a schedule in which the
    consumer reads the wrong bytes (see Findings).
  - With a consumer acknowledgement, it is proved that no schedule can do
    this.
- **Button task.** The button task is a loop method proved against a pure
  step function. The LED task's plan per mode is a function.

Bytes are `Common.Byte`, an integer newtype over 0..255, rather than `bv8`.
The source does no bitwise arithmetic on them, and integer arithmetic keeps
the UTF-8 proofs cheap. Time in `blink.rs` is integer milliseconds.

Only `interup.rs` suppresses empty frames: it tests `idx > 0` before
sending (src/usart/interup.rs:96). `poll.rs` and `alloc_block.rs` write
`&buf[..0]` for a delimiter that finds nothing buffered
(src/usart/poll.rs:52-53, src/usart/alloc_block.rs:64-65). The model keeps
both behaviours: see `Framing.Policy` and `BlockingEcho.DelimitersOnly`.

The capacity-one channel of the DMA programs orders the lengths, but it does
not stop the producer from refilling the DMA buffer before the consumer has
read it (see Findings).

## Model

| member | source | states |
|---|---|---|
| Accumulator.Framer.constructor | src/usart/interup.rs:83-84 | a fresh zeroed 64-byte buffer with index 0, so nothing is pending |
| Accumulator.Framer.Push | src/usart/interup.rs:94-115 | the new pending bytes and the frame handed on are those of `Framing.Step`. How each case changes the buffer cells: a delimiter leaves the cells alone, resets the index and hands on `buf[..idx]` (when `idx > 0`, or always under the emitting policy); a byte with room is written at `idx`; a byte at a full buffer hands on all 64 bytes, then goes to cell 0 with index 1 |
| Accumulator.Framer.Feed | src/usart/interup.rs:89-124 | one read outcome advances the framer exactly as `Framing.Run` does on the bytes received. A read error changes neither the buffer nor the index and hands on nothing. A handed-on message carries the whole 64-byte buffer and a length within it |
| Framing.Step | src/usart/interup.rs:94-115 | the framing of one byte: the pending frame stays within 64 bytes and at most one frame is handed on. Its meaning is fixed by `Framing.RunStream`, `Framing.RunFramesBounded`, `Framing.OverflowEveryCapacity` and `Accumulator.Framer.Push` |
| Framing.Run | src/usart/poll.rs:52-66 | the framing of a byte string, one `Step` per byte; the pending frame stays within 64 bytes. Its meaning is fixed by `Framing.RunAppend`, `Framing.RunStream`, `Framing.PoliciesAgree` and the echo loops proved equal to it |
| Framing.RunAppend | src/usart/interup.rs:86-126 | the receive loop keeps no state besides `buf[..idx]`: running two pieces of input in turn is running their concatenation |
| Framing.RunStream | src/usart/interup.rs:94-115 | no byte is lost or duplicated: the frames handed on, followed by what is still pending, are the old pending bytes followed by the input with its delimiters removed |
| Framing.RunFramesBounded | src/usart/interup.rs:96-115 | every frame is at most 64 bytes, and never empty when empty frames are suppressed |
| Framing.OverflowEveryCapacity | src/usart/interup.rs:104-115 | with no delimiter, every frame is exactly 64 bytes; the frame count times 64 plus the pending length is the total received; the pending frame is never empty once a byte has arrived (flush and carry) |
| Framing.PoliciesAgree | src/usart/poll.rs:52-66 | the emitting policy of the blocking loops and the suppressing policy of the interrupt reader keep the same pending bytes, and the suppressed stream is exactly the emitted one with its empty frames removed, in order |
| Framing.NonEmpty | src/usart/interup.rs:96 | the frames kept are all non-empty and no more than the frames given |
| Framing.NonEmptyAppend | src/usart/interup.rs:96 | removing empty frames distributes over concatenation |
| Framing.ReadsSnoc | src/usart/interup.rs:86-126 | one more read outcome extends the run over the earlier reads by the bytes that read delivered |
| Channel.Slot.constructor | src/usart/interup.rs:31 | an empty channel with empty send and delivery histories |
| Channel.Slot.Send | src/usart/interup.rs:98 | sending into the empty slot fills it with the item and appends it to the send history |
| Channel.Slot.Receive | src/usart/interup.rs:139 | receiving takes the one item out (the oldest one sent) and appends it to the delivery history |
| Channel.AtMostOneInFlight | src/usart/interup.rs:30-31 | with capacity one, at most one item is undelivered, and the items delivered are exactly the oldest items sent, in order |
| InterruptEcho.PayloadsSnoc | src/usart/interup.rs:144 | one more delivered message adds one write of `buf[..len]` |
| InterruptEcho.EchoSession | src/usart/interup.rs:86-154 | the writes of the reader and writer pair over a series of reads are the frames of `Framing.Run` with empty frames suppressed, and the reader's final `buf[..idx]` is its pending frame. The received bytes without delimiters equal the writes followed by the pending bytes. Every write is 1 to 64 bytes |
| BlockingEcho.EchoLoop | src/usart/poll.rs:26-69 | the blocking loop writes exactly the frames of `Framing.Run` with empty frames emitted, and keeps its pending frame. No byte is lost or duplicated and every write is at most 64 bytes. Dropping the empty writes gives exactly what the interrupt-driven echo writes for the same reads |
| BlockingEcho.ZeroCount | src/usart/poll.rs:52 | bound on the helper function that counts delimiters: at most the input length |
| BlockingEcho.EveryDelimiterWrites | src/usart/poll.rs:52-55 | in the blocking loops there are at least as many writes as delimiters, because even an empty buffer is written |
| BlockingEcho.DelimitersOnly | src/usart/alloc_block.rs:64-69 | n delimiters with nothing buffered give n empty writes in the blocking loops and none in the interrupt-driven reader |
| BlockingEcho.Render | src/usart/alloc_block.rs:67 | no contract of its own; the `*b as char` rendering, fixed by `BlockingEcho.RenderCodes` and `BlockingEcho.CodesRender` |
| BlockingEcho.RenderCodes | src/usart/alloc_block.rs:67 | the echoed string has one character per byte, each with the byte's value as its code |
| BlockingEcho.CodesRender | src/usart/alloc_block.rs:67 | every character of the echoed string is below 256 and reading the codes back gives the bytes |
| Common.Received | src/usart/interup.rs:89-90 | bound on the helper function that collects the received bytes: no more bytes than reads |
| Common.FlattenAppend | src/usart/interup.rs:144 | the bytes written for two series of frames are those of each series in turn |
| Common.ReceivedAppend | src/usart/interup.rs:118-124 | the bytes of two series of reads are those of each series in turn; failed reads contribute none |
| Common.StripZeros | src/usart/interup.rs:94 | bound on the helper function that removes the delimiters: it never lengthens the input |
| Utf8.WellFormed | src/bin/dma_888.rs:114 | no contract of its own; the grammar of section 4 of RFC 3629, tied to `from_utf8` by `Utf8.DecodeSucceedsIffWellFormed`, `Utf8.EncodeWellFormed` and `Utf8.WellFormedAppend` |
| Utf8.Decode | src/bin/dma_888.rs:114 | no contract of its own; `core::str::from_utf8`, whose meaning is fixed by `Utf8.DecodeSucceedsIffWellFormed`, `Utf8.DecodeEncode` and `Utf8.EncodeDecode` |
| Utf8.DecodeSucceedsIffWellFormed | src/bin/dma_888.rs:114 | `from_utf8` succeeds exactly on byte strings well formed by the grammar in section 4 of RFC 3629 |
| Utf8.DecodeEncode | src/bin/dma_888.rs:114 | decoding the encoding of any string of Unicode scalar values gives the string back |
| Utf8.EncodeDecode | src/bin/dma_888.rs:114 | a byte string that decodes is the encoding of what it decodes to |
| Utf8.EncodeWellFormed | src/bin/dma_888.rs:114 | every encoding is well formed |
| Utf8.EncodeCharRead | src/bin/dma_888.rs:114 | one character's encoding read from the front of any byte string gives a lead byte of the right length and the same code point |
| Utf8.EncodeDecodeChar | src/bin/dma_888.rs:114 | the character read from the front of a byte string encodes back to exactly the bytes it was read from |
| Utf8.EncodeAppend | src/bin/dma_usart.rs:48-50 | the encoding of joined text is the joined encodings |
| Utf8.WellFormedAppend | src/bin/dma_usart.rs:48-50 | well-formed byte strings joined are well formed |
| Utf8.AsciiWellFormed | src/bin/dma_usart.rs:48 | bytes below 0x80 are well formed |
| Utf8.LeadLength | src/bin/dma_888.rs:114 | a character is 0 (none) to 4 bytes long and never longer than the input |
| Utf8.DecodeChar | src/bin/dma_888.rs:114 | the code point read is a Unicode scalar value |
| Utf8.Encode | src/bin/dma_888.rs:114 | a string's encoding has between one and four bytes per character |
| Command.Contains | src/bin/dma_888.rs:118 | no contract of its own; `str::contains`, characterised by `Command.ContainsAt` (an occurrence at some offset) and `Command.ContainsEncoded` (text and bytes agree) |
| Command.Classify | src/bin/dma_888.rs:114-133 | no contract of its own; the consumer's three-way choice, characterised in terms of the bytes by `Command.ClassifyBytes` and `Command.ReplyOfPayload` |
| Command.HandlerA | src/bin/dma_888.rs:35-37 | no contract of its own; the text "你好！", measured by `Command.HandlerReplies` |
| Command.HandlerB | src/bin/dma_888.rs:40-42 | no contract of its own; the text "您们好！", measured by `Command.HandlerReplies` |
| Command.ReplyOfPayload | src/bin/dma_888.rs:112-133 | the consumer gets no handler text exactly when the bytes are not UTF-8, the text of `a` exactly when they are UTF-8 and contain the bytes of "hello", and the text of `b` exactly when they are UTF-8 and do not |
| Command.ContainsAt | src/bin/dma_888.rs:118 | the recursive search `Contains` finds the pattern exactly when it occurs at some offset |
| Command.KeywordEncoding | src/bin/dma_888.rs:118 | "hello" is ASCII and encodes to the bytes 68 65 6C 6C 6F |
| Command.AsciiPrefix | src/bin/dma_888.rs:118 | an ASCII text is a prefix of a text exactly when its encoding is a prefix of that text's encoding |
| Command.ContainsEncoded | src/bin/dma_888.rs:118 | for an ASCII pattern, searching the text and searching its UTF-8 bytes agree in both directions |
| Command.ClassifyBytes | src/bin/dma_888.rs:112-133 | the raw path is taken exactly when the bytes are not UTF-8; handler `a` exactly when they are UTF-8 and contain the bytes of "hello"; handler `b` exactly when they are UTF-8 and do not |
| Command.HandlerReplies | src/bin/dma_888.rs:34-42 | `a` returns three characters (9 UTF-8 bytes) and `b` four (12 bytes), and both encodings decode back to the texts |
| DmaShared.LockedBuffer.constructor | src/bin/dma_2.rs:151 | the shared buffer starts as 64 zero bytes, unlocked |
| DmaShared.LockedBuffer.Lock | src/bin/dma_888.rs:57 | taking the free mutex gives it to the caller |
| DmaShared.LockedBuffer.Unlock | src/bin/dma_888.rs:137 | dropping the guard frees the mutex |
| DmaShared.LockedBuffer.Fill | src/bin/dma_888.rs:62 | `read_until_idle` overwrites the first n cells with the burst and leaves the rest as they were |
| DmaShared.LockedBuffer.View | src/bin/dma_888.rs:113 | the consumer's slice is the first n bytes of the buffer |
| DmaShared.Notify | src/bin/dma_888.rs:80 | the length is sent only after the producer's guard is dropped, and it fills the channel |
| DmaShared.Process | src/bin/dma_888.rs:112-134 | no contract of its own; nothing for n = 0, otherwise the classification of `buf[..n]`, used as the result of `DmaShared.ConsumerStep` and `DmaShared.DmaSession` |
| DmaShared.ProducerStep | src/bin/dma_888.rs:54-87 | one producer iteration fills the buffer with the burst and releases the lock. It sends the length exactly when the burst is non-empty. A read error releases the lock and sends nothing; the model stores nothing in the buffer on an error (see Left out) |
| DmaShared.ConsumerStep | src/bin/dma_888.rs:98-138 | one consumer iteration takes the length, classifies the first n bytes of the buffer (nothing for n = 0) and releases the lock |
| DmaShared.FallibleConsumerStep | src/bin/dma_2.rs:88-130 | a failed receive skips the iteration without touching the lock or the channel; otherwise it is a consumer iteration |
| DmaShared.ConsumeAfterFailures | src/bin/dma_2.rs:88-96 | any number of failed receives followed by a good one handle the waiting length exactly once |
| DmaShared.Commands | src/bin/dma_888.rs:75-86 | bound on the helper function that lists the consumer's commands: no more commands than bursts |
| DmaShared.CommandsSnoc | src/bin/dma_888.rs:75-86 | one more burst adds a command exactly when it is non-empty |
| DmaShared.DmaSession | src/bin/dma_888.rs:54-138 | in the sequential schedule, the consumer runs exactly one command per non-empty burst, in order: the classification of that very burst. Errors and empty bursts run none |
| DmaShared.FallibleDmaSession | src/bin/dma_2.rs:50-130 | the same for the older variant, whatever number of receive failures precede each good receive |
| DmaRace.StaleReadAsWritten | src/bin/dma_888.rs:54-87 | with both tasks as written, a cooperative schedule of "hello", "hi", "world" lets the consumer read "world" for the length of "hello", and run handler `b` for a frame that asked for `a` |
| DmaRace.StaleScheduleBlockedWithAck | src/bin/dma_888.rs:57 | with the acknowledgement, that schedule cannot run: the producer cannot lock again before the consumer acknowledges |
| DmaRace.AckStep | src/bin/dma_888.rs:54-138 | every action of the acknowledged protocol keeps its invariant: one task at a time holds the buffer, and until the consumer has released it, the buffer holds the last announced burst |
| DmaRace.AckedProtocolReadsWhatWasAnnounced | src/bin/dma_888.rs:54-138 | with the acknowledgement, under every schedule, the consumer reads for each length exactly the burst sent with it, in order |
| DmaEcho.Writes | src/bin/dma_usart.rs:45-53 | no contract of its own; the three writes for one burst, whose meaning is fixed by `DmaEcho.ReplyShape` and `DmaEcho.EchoTask` |
| DmaEcho.ReplyShape | src/bin/dma_usart.rs:45-53 | the reply is empty exactly when the burst is empty or not UTF-8. Otherwise it is "Echo: ", the burst and "\r\n": 8 bytes longer, giving the burst back without prefix and line end, and itself UTF-8 |
| DmaEcho.AllWritesAppend | src/bin/dma_usart.rs:35-55 | no state carries from one burst to the next |
| DmaEcho.EchoTask | src/bin/dma_usart.rs:35-55 | the echo task's writes over a series of bursts are exactly, for each non-empty UTF-8 burst, "Echo: ", the burst, "\r\n" |
| Blink.Next | src/bin/blink.rs:22-29 | no contract of its own; `LedMode::next`, whose meaning is fixed by `Blink.NextCycle` and `Blink.NextNPeriodic` |
| Blink.Duration | src/bin/blink.rs:31-38 | no contract of its own; `LedMode::duration`, whose values `Blink.DurationsDecrease` states |
| Blink.NextCycle | src/bin/blink.rs:22-29 | the modes form one cycle of four starting Slow, Medium, Fast, Off, and no mode is its own successor within it |
| Blink.NextNPeriodic | src/bin/blink.rs:22-29 | only the number of presses modulo four decides the mode |
| Blink.DurationsDecrease | src/bin/blink.rs:31-38 | the durations are exactly Slow 1000 ms, Medium 500 ms, Fast 200 ms and Off 100 ms, so blinking gets strictly faster from Slow to Fast |
| Blink.ButtonStep | src/bin/blink.rs:71-100 | no contract of its own; one poll of the button, whose cases `Blink.ButtonStepCases` states and whose runs `Blink.ModeFollowsSignals` and `Blink.ButtonTask` describe |
| Blink.ButtonStepCases | src/bin/blink.rs:71-100 | edge by edge: a falling edge starts the press timer only; a rising edge records the release time and advances the mode and signals exactly on a short press; no edge changes only the remembered level |
| Blink.ModeFollowsSignals | src/bin/blink.rs:89-94 | the mode is the initial one advanced once per signal |
| Blink.ButtonTask | src/bin/blink.rs:64-103 | the loop ends in the state `RunButton` gives. The mode is Slow advanced once per signal. Any two signals are more than the 50 ms debounce interval apart |
| Blink.LedPlan | src/bin/blink.rs:115-139 | no contract of its own; the levels and waits of one mode, stated exactly by `Blink.LedPlanShape` |
| Blink.LedPlanShape | src/bin/blink.rs:115-139 | the plan is exactly: for Off, one phase with the LED low waiting for the signal; for any other mode, the LED high for the mode's duration, then low for the mode's duration (a period of twice the duration). Off is the only mode that never drives the LED high |
| Scenarios.HelloWorld | src/usart/interup.rs:94-101 | "hello\0world\0" gives exactly the frames "hello" and "world", dispatched to `a` and `b` |
| Scenarios.SeventyBytes | src/usart/interup.rs:107-115 | 70 bytes with no delimiter hand on the first 64 and keep the last 6 pending |
| Scenarios.NotUtf8Frame | src/bin/dma_888.rs:129-133 | the bytes FF FE 00 make one frame that takes the raw path |
| Scenarios.FailedReadsChangeNothing | src/usart/interup.rs:118-124 | failed reads before the rest leave the received bytes as if they had not happened |

## Left out

- Peripheral and executor setup is not modelled: `embassy_stm32::init`, UART construction, pins, interrupt binding, `StaticCell`, the heap allocator, and task spawning. The model starts from the loops inside each task.
- The hardware is represented by inputs:
  - the byte stream and read errors are a sequence of `Common.ReadResult`;
  - each `read_until_idle` result is a `DmaShared.Burst`;
  - button levels and the clock are a sequence of `Blink.Sample`.
- Logging (`info!`, `error!`) is not modelled, and neither is the 100 ms back-off `Timer::after` after a read error or a write error. A failed read leaves the framing state unchanged.
- Write errors are not modelled: every write is assumed to succeed. In `interup.rs` a failed `tx.write` is only logged and followed by the 100 ms back-off, with no retry (src/usart/interup.rs:148-152). Everywhere else a failed write panics; see the `unwrap` exclusions below.
- `unwrap` panics are excluded by these preconditions:
  - `dma_usart.rs` reads never fail (src/bin/dma_usart.rs:41);
  - the blocking writes never fail (`unwrap!(usart.blocking_write(..))` at src/usart/poll.rs:53, src/usart/poll.rs:63, src/usart/alloc_block.rs:65 and src/usart/alloc_block.rs:77);
  - the `dma_usart.rs` echo writes never fail (`.await.unwrap()` at src/bin/dma_usart.rs:48-50);
  - every burst is at most 64 bytes, which `read_until_idle` guarantees on a 64-byte buffer.
- The sequential DMA sessions run producer and consumer in a fixed order; that order is a precondition on each step.
  - DmaShared.ProducerStep: requires the mutex free and the channel empty.
  - DmaShared.ConsumerStep: requires the mutex free and a length waiting.
  - Blocking `lock().await`, `send().await` and `receive().await` are therefore not modelled there. `DmaRace` models their interleaving separately.
- DmaShared.DmaSession: assumes each DMA read leaves the cells beyond n as they were. The model does not depend on those cells.
- DmaShared.ProducerStep: a failed `read_until_idle` is modelled as storing nothing in the buffer, though the hardware may have written part of a burst before the error (src/bin/dma_888.rs:62-69). No length is sent after an error, so the consumer never reads those cells for it.
- DmaShared.DmaSession: nothing in the code makes the producer wait for the consumer between bursts. After `send` it locks the buffer again at once (src/bin/dma_888.rs:54-80), so this strictly alternating schedule is the intended one rather than one the code guarantees. `DmaRace` models the schedules that can arise.
- `dma_2.rs` does not compile as written. For example, `usart.split()` at src/bin/dma_2.rs:157 is noted there as not available, and the `Result` it expects from `send` and `receive` does not exist. The model follows its evident logic: a failed receive skips the iteration.
- The error branch of `send` in src/bin/dma_2.rs:71-73 is not modelled, because the channel's send cannot fail.
- The consumer's handler results are not written anywhere, matching the source, where the writes are commented out (src/bin/dma_888.rs:122-127). `Command.Reply` gives the text each handler returns, and `Command.ReplyOfPayload` relates it to the payload; the consumer steps return only the command.
- The commented-out first version of the blocking loop (src/usart/poll.rs:32-49 and src/usart/alloc_block.rs:44-61) is not modelled. Its overflow branch reset `idx` to 0 and dropped the byte that arrived.
- `led_task`'s `with_timeout` race between the signal and the blink timer is not modelled, nor the mutex around `MODE`. `Blink.LedPlan` gives the levels and waits of one mode; button and LED tasks do not interleave in the model.
- Blink.ButtonTask: the 10 ms polling period is not modelled. Polls are given as timestamped samples whose times never decrease.
- embassy `Duration` ticks are not modelled; times are integer milliseconds. Embassy's `duration_since` underflow is excluded by the same monotone clock.
- Integer widths are not modelled: an index or length never exceeds 64, so `usize` overflow cannot occur.

## Findings

| source | as written | input that shows it | evidently intended | confidence | as-written member | corrected member |
|---|---|---|---|---|---|---|
| src/bin/dma_888.rs:54-87 (and the same loop in src/bin/dma_2.rs:50-78) | after `send(n)` completes, the producer goes straight back to `lock().await` and lets `read_until_idle` overwrite the buffer. A consumer that has received `n` but not yet taken the lock then reads `buf[..n]` from a newer burst. The capacity-one channel orders the lengths, not the buffer contents | bursts "hello", "hi", "world" under a cooperative schedule: the consumer takes 5 while the producer waits in its second read, and gets the lock only when the producer blocks on its third send; it reads "world" for the length of "hello" and calls `b` instead of `a` | the buffer is not refilled until the consumer has released it for the previous length, for example by the consumer sending an acknowledgement that the producer awaits before locking again | not executed | DmaRace.StaleReadAsWritten | DmaRace.AckedProtocolReadsWhatWasAnnounced |
