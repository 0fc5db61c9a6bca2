# raspi-os drivers in Dafny

This project models the driver core of a small Raspberry Pi 3 kernel written in Rust.

- **VideoCore mailbox.** The ARM core passes the firmware a 16-byte aligned buffer of 36 words. It writes the buffer's address, tagged with a channel, to WRITE[0], then polls READ[0] until the same word comes back. Word 1 of the buffer then holds the firmware's response code.
- **Property-tag builders.** Each builder lays out one request in the buffer and makes the call on the ARM-to-VideoCore property channel. It reads its result from fixed offsets.
- **The NullLock ownership cell and the trait defaults of `interface.rs`.**
- **The two serial drivers.** The PL011 UART's `init` is gated on the firmware setting the UART clock to 4 MHz. The mini UART follows a fixed register programme. Both use the same console text handling.
- **The BCM2835 system timer.** It covers the torn-read-safe 64-bit read and the busy wait.
- **The hardware random number generator.** It covers the range reduction and the initialisation.
- **The AArch64 generic-timer wait and the entry point's boot-core choice.**

Hardware is modelled as data, never as effects.
- Each busy-wait loop consumes a finite trace of the values its register reads return, in program order.
- A trace that runs out before the loop's condition holds is the driver still spinning. The source would spin forever there; the model reports `None`, `Spinning` or `Waiting`.
- Register writes are returned as a sequence of `(register, value)` records.
- The firmware is a function from request buffer to response buffer. Its reply on the mailbox is part of the read trace.

Register words are integers bounded to 32 or 64 bits (`Words.u32`, `Words.u64`). Masks and shifts are written out as arithmetic:
- `w & 0xF` is `w % 16`;
- `w & !0xF` is `w - w % 16`;
- bit `k` set is `(w / 2^k) % 2 == 1`;
- the OR of disjoint bit ranges is their sum.

Integer overflow follows a release build: `usize`/`u64` arithmetic wraps, `as u32` keeps the low 32 bits, and a remainder by zero panics.

Modules, one per source file:
- `Results`;
- `Words`;
- `Poll` (bits, busy-wait traces and read-modify-write helpers);
- `Interface`;
- `Sync`;
- `Mailbox`;
- `Mail`;
- `Console` (the text handling both serial drivers share);
- `Uart`;
- `MiniUart`;
- `SysTimer`;
- `Rand`;
- `Arch`.

## Model

| member | source | states |
|---|---|---|
| Mailbox.ResponseFrom | src/bsp/driver/bcm/bcm2xxx_mailbox.rs:48-54 | total: `0x8000_0000` is Success, `0x8000_0001` is Error, and every other word (including 0) is UnknownError, each as an if-and-only-if |
| Mailbox.ResponseFromDiscriminant | src/bsp/driver/bcm/bcm2xxx_mailbox.rs:41-54 | classifying a response's own discriminant gives that response back |
| Mailbox.Complete | src/bsp/driver/bcm/bcm2xxx_mailbox.rs:128-132 | once the reply is in, the outcome is decided by buffer word 1 alone: Ok iff Success, ResponseError iff Error, UnknownError iff any other word |
| Mailbox.ChannelNumber | src/bsp/driver/bcm/bcm2xxx_mailbox/bcm2837_mail.rs:10-23 | every channel's discriminant is below 10, so it fits the low nibble; the property channel is the one numbered 8 |
| Mailbox.ChannelOf | src/bsp/driver/bcm/bcm2xxx_mailbox/bcm2837_mail.rs:10-23 | a number names a channel iff it is below 10, and that channel's discriminant is the number |
| Mailbox.ChannelNumberInjective | src/bsp/driver/bcm/bcm2xxx_mailbox/bcm2837_mail.rs:10-23 | distinct channels have distinct discriminants |
| Mailbox.SendWord | src/bsp/driver/bcm/bcm2xxx_mailbox.rs:107-110 | the word written carries the channel in its low nibble and the buffer's address bits above it |
| Mailbox.ReplyIsEchoOfSend | src/bsp/driver/bcm/bcm2xxx_mailbox.rs:126 | for a 16-byte aligned buffer a READ[0] word is accepted iff it equals the word that was sent |
| Mailbox.MisalignedNeverAnswered | src/bsp/driver/bcm/bcm2xxx_mailbox.rs:126 | a buffer address with a non-zero low nibble is never matched, so such a call could only spin |
| Mailbox.OtherChannelNeverAnswers | src/bsp/driver/bcm/bcm2xxx_mailbox.rs:126 | a reply accepted for one channel is never accepted for another |
| Mailbox.ReadsAppend | src/bsp/driver/bcm/bcm2xxx_mailbox.rs:97-135 | the values a two-part access log reads are the first part's followed by the second's |
| Mailbox.Receive | src/bsp/driver/bcm/bcm2xxx_mailbox.rs:113-134 | the receive phase makes at most one register access per trace reading, and when it returns, the outcome is the one word 1 decides; its ordering and first-match properties are stated by Mailbox.ReceiveMeetsSpec |
| Mailbox.ReceiveMeetsSpec | src/bsp/driver/bcm/bcm2xxx_mailbox.rs:113-134 | the receive phase writes nothing and reads READ[0] exactly after the STATUS readings with EMPTY clear: never otherwise, and always unless the trace ends there; it consumes a prefix of the trace, all of it while still waiting; every reply before the first match is skipped without error; it returns exactly at the first match with the outcome word 1 decides |
| Mailbox.Call | src/bsp/driver/bcm/bcm2xxx_mailbox.rs:96-135 | `MboxInner::call`: at most one register access per trace reading plus the one write, and when it returns, the outcome is the one word 1 decides; the send and receive ordering is stated by Mailbox.CallMeetsSpec |
| Mailbox.CallMeetsSpec | src/bsp/driver/bcm/bcm2xxx_mailbox.rs:97-135 | on top of the receive guarantees: there is at most one write; it carries the send word and comes right after the first STATUS reading with FULL clear, all earlier readings being FULL; a call that never wrote has seen only FULL readings; after the write, every STATUS reading with EMPTY clear is followed by a READ[0] read unless the trace ends there |
| Mailbox.PromptReplyAnswers | src/bsp/driver/bcm/bcm2xxx_mailbox.rs:97-135 | with an aligned buffer and a mailbox that is free, then non-empty, then echoes the sent word, the call returns the outcome of word 1 |
| Mailbox.SendLoop | src/bsp/driver/bcm/bcm2xxx_mailbox.rs:99-110 | the loop that spins on FULL and then writes ends where `Call` says the receive phase starts, having made the same accesses |
| Mailbox.AwaitMail | src/bsp/driver/bcm/bcm2xxx_mailbox.rs:115-121 | the wait for mail stops at the first STATUS reading with EMPTY clear (or the end of the trace) and keeps the accesses in step with `Receive` |
| Mailbox.ReadMail | src/bsp/driver/bcm/bcm2xxx_mailbox.rs:123-133 | one pass after the wait either finishes with exactly the handshake `Receive` describes or skips a non-matching reply and moves strictly forward in the trace |
| Mailbox.ReceiveLoop | src/bsp/driver/bcm/bcm2xxx_mailbox.rs:113-134 | the nested polling loops make exactly the accesses and return exactly the outcome of the receive phase `Receive` |
| Mailbox.CallLoop | src/bsp/driver/bcm/bcm2xxx_mailbox.rs:97-135 | the driver's loops do exactly what `Call` describes |
| Mailbox.NewMbox | src/bsp/driver/bcm/bcm2xxx_mailbox.rs:148-152 | a new mailbox owns its base address through a NullLock |
| Mailbox.MboxCall | src/bsp/driver/bcm/bcm2xxx_mailbox.rs:154-157 | `Mbox::call` returns the inner call's handshake through the lock and leaves the mailbox as it was |
| Mailbox.MboxInit | src/bsp/driver/bcm/bcm2xxx_mailbox.rs:160-164 | the mailbox uses the default `init`, which always succeeds |
| Mail.TagOf | src/bsp/driver/bcm/bcm2xxx_mailbox/bcm2837_mail.rs:27-110 | decoding a tag word names a tag whose value is that word |
| Mail.TagOfTagId | src/bsp/driver/bcm/bcm2xxx_mailbox/bcm2837_mail.rs:27-110 | every tag used decodes from its own value, so the tag values are distinct |
| Mail.ClockId | src/bsp/driver/bcm/bcm2xxx_mailbox/bcm2837_mail.rs:125-139 | clock ids lie in 0..0xC with 0xB unused, and the UART clock is exactly id 2 |
| Mail.PowerId | src/bsp/driver/bcm/bcm2xxx_mailbox/bcm2837_mail.rs:112-123 | power-domain ids lie in 0..8 |
| Mail.IdsInjective | src/bsp/driver/bcm/bcm2xxx_mailbox/bcm2837_mail.rs:112-139 | distinct power domains and distinct clocks have distinct ids |
| Mail.New | src/bsp/driver/bcm/bcm2xxx_mailbox/bcm2837_mail.rs:156-170 | a new buffer is 36 words (by its type), all zero |
| Mail.Frame | src/bsp/driver/bcm/bcm2xxx_mailbox/bcm2837_mail.rs:172-180 | the request layout every builder writes: the end tag follows the value words and every word past it is as it was; the layout parses back through Mail.ParseFrame |
| Mail.ParseRequest | src/bsp/driver/bcm/bcm2xxx_mailbox/bcm2837_mail.rs:172-180 | an independent reading of that layout: it accepts only a request that fits the 36-word buffer and names a real tag, and it is the inverse of Mail.Frame in both directions (Mail.ParseFrame, Mail.FrameParse) |
| Mail.ParseFrame | src/bsp/driver/bcm/bcm2xxx_mailbox/bcm2837_mail.rs:172-180 | a laid-out request parses back to the tag and values it was built from, and the words past the end tag are those of the old buffer |
| Mail.FrameParse | src/bsp/driver/bcm/bcm2xxx_mailbox/bcm2837_mail.rs:150-153 | a buffer that parses as a request is exactly the layout of its tag and values over itself |
| Mail.FrameSizes | src/bsp/driver/bcm/bcm2xxx_mailbox/bcm2837_mail.rs:194-201 | word 0 is 4 × (index of the end tag + 1), word 3 is 4 × the number of value words, and the end tag word is 0 |
| Mail.Transact | src/bsp/driver/bcm/bcm2xxx_mailbox/bcm2837_mail.rs:182-191 | the request written parses as the builder's tag and values and leaves every word past the end tag as it was; the call is made on the property channel with the firmware's word 1; an error is passed on unchanged with nothing decoded; a success decodes from the response buffer |
| Mail.GetBoardSerialOf | src/bsp/driver/bcm/bcm2xxx_mailbox/bcm2837_mail.rs:172-192 | request GetBoardSerial with two zeroed slots; on success the value is word 6 above word 5 |
| Mail.GetFirmwareRevisionOf | src/bsp/driver/bcm/bcm2xxx_mailbox/bcm2837_mail.rs:194-213 | request GetFirmwareRevision with one zeroed slot; on success the value is word 5 |
| Mail.GetBoardModelOf | src/bsp/driver/bcm/bcm2xxx_mailbox/bcm2837_mail.rs:215-234 | request GetBoardModel with one zeroed slot; on success the value is word 5 |
| Mail.GetBoardRevisionOf | src/bsp/driver/bcm/bcm2xxx_mailbox/bcm2837_mail.rs:236-255 | request GetBoardRevision with one zeroed slot; on success the value is word 5 |
| Mail.GetBoardMacOf | src/bsp/driver/bcm/bcm2xxx_mailbox/bcm2837_mail.rs:257-277 | request GetBoardMac with two zeroed slots; on success the value is word 6 above word 5 |
| Mail.GetArmMemoryOf | src/bsp/driver/bcm/bcm2xxx_mailbox/bcm2837_mail.rs:280-300 | request GetArmMemory with two zeroed slots; on success the pair is (word 5, word 6) |
| Mail.GetVcMemoryOf | src/bsp/driver/bcm/bcm2xxx_mailbox/bcm2837_mail.rs:303-323 | request GetVcMemory with two zeroed slots; on success the pair is (word 5, word 6) |
| Mail.GetDmaChannelsOf | src/bsp/driver/bcm/bcm2xxx_mailbox/bcm2837_mail.rs:331-350 | request GetDmaChannels with one zeroed slot; on success the value is word 5 |
| Mail.GetPowerStateOf | src/bsp/driver/bcm/bcm2xxx_mailbox/bcm2837_mail.rs:353-373 | the device id goes to word 5 and word 6 is zeroed; on success the pair is (word 5, word 6) |
| Mail.GetTimingOf | src/bsp/driver/bcm/bcm2xxx_mailbox/bcm2837_mail.rs:375-395 | the device id goes to word 5 and the state to word 6; on success the pair is (word 5, word 6) |
| Mail.SetPowerStateOf | src/bsp/driver/bcm/bcm2xxx_mailbox/bcm2837_mail.rs:399-419 | the device id goes to word 5 and the state to word 6; on success the pair is (word 5, word 6) |
| Mail.GetClockStateOf | src/bsp/driver/bcm/bcm2xxx_mailbox/bcm2837_mail.rs:422-442 | the clock id goes to word 5 and word 6 is zeroed; on success the pair is (word 5, word 6) |
| Mail.SetClockStateOf | src/bsp/driver/bcm/bcm2xxx_mailbox/bcm2837_mail.rs:446-466 | the clock id goes to word 5 and the state to word 6; on success the pair is (word 5, word 6) |
| Mail.GetClockRateOf | src/bsp/driver/bcm/bcm2xxx_mailbox/bcm2837_mail.rs:469-489 | the clock id goes to word 5 and word 6 is zeroed; on success the pair is (word 5, word 6) |
| Mail.SetClockRateOf | src/bsp/driver/bcm/bcm2xxx_mailbox/bcm2837_mail.rs:493-519 | clock id, speed and skip-turbo go to words 5, 6 and 7 under the SetClockRate tag; on success the pair is (word 5, word 6), the same offsets as the getter |
| Mail.BoardSerialRoundTrip | src/bsp/driver/bcm/bcm2xxx_mailbox/bcm2837_mail.rs:172-192 | a firmware that answers with `lo` in word 5 and `hi` in word 6 makes the serial decode to the 64-bit value with those halves |
| Mail.SetClockRateEcho | src/bsp/driver/bcm/bcm2xxx_mailbox/bcm2837_mail.rs:493-519 | a firmware that leaves the request's values in place makes `set_clock_rate` return (clock id, requested speed) |
| Mail.RejectedRequestFails | src/bsp/driver/bcm/bcm2xxx_mailbox/bcm2837_mail.rs:469-489 | a firmware answering with the error code makes the getter fail with ResponseError and decode nothing |
| Sync.New | src/arch/aarch64/sync.rs:11-17 | a new lock wraps exactly the given data |
| Sync.Lock | src/arch/aarch64/sync.rs:22-24 | `lock` applies the closure once to the wrapped data, returns its result unchanged, and keeps the state the closure leaves |
| Sync.LockEach | src/interface.rs:51-57 | a sequence of lock calls yields one result per closure |
| Sync.LockThreadsState | src/arch/aarch64/sync.rs:22-24 | the second `lock` sees the state the first closure left, and its result is the second closure's result on that state |
| Sync.ReadOnlyWorkKeepsState | src/arch/aarch64/sync.rs:22-24 | closures that change nothing leave the lock exactly as it was, however many are run |
| Interface.DefaultInit | src/interface.rs:67-69 | the default driver `init` returns `Ok` |
| Interface.DefaultReadChar | src/interface.rs:32-34 | the default `read_char` returns a space |
| Interface.DefaultCharsWritten | src/interface.rs:38-40 | the default written-character count is 0 |
| Interface.DefaultCharsRead | src/interface.rs:42-44 | the default read-character count is 0 |
| Console.Crlf | src/bsp/driver/bcm/bcm2xxx_uart.rs:196-202 | the output is the input with one character added per line feed |
| Console.UncrlfCrlf | src/bsp/driver/bcm/bcm2xxx_uart.rs:196-202 | dropping each carriage return that precedes a line feed gives back the written text, so nothing is lost or reordered |
| Console.CrlfPrecedesEveryLf | src/bsp/driver/bcm/bcm2xxx_uart.rs:196-202 | every line feed on the wire has a carriage return right before it |
| Console.CrlfAppend | src/bsp/driver/bcm/bcm2xxx_uart.rs:196-202 | writing text in two pieces puts the same characters on the wire as writing it at once |
| Console.CrlfHead | src/bsp/driver/bcm/bcm2xxx_uart.rs:196-202 | the wire stream of non-empty text never starts with a bare line feed |
| Console.Utf8Len | src/bsp/driver/bcm/bcm2xxx_uart.rs:204 | `s.len()` counts UTF-8 bytes: between one and four per character |
| Console.AsciiLen | src/bsp/driver/bcm/bcm2xxx_uart.rs:204 | for ASCII text the count added is the character count, and the inserted carriage returns are not counted |
| Console.ReadChar | src/bsp/driver/bcm/bcm2xxx_uart.rs:183-190 | the character read is the data register's low byte, never a carriage return; it is a line feed iff that byte is 10 or 13 |
| Console.LoopbackRead | src/bsp/driver/bcm/bcm2xxx_uart.rs:168-190 | a Latin-1 character written with `write_char` reads back as itself, a carriage return as a line feed |
| Console.Wire | src/bsp/driver/bcm/bcm2xxx_uart.rs:168 | each character goes to the data register as its scalar value, one word per character |
| Console.Emit | src/bsp/driver/bcm/bcm2xxx_uart.rs:195-202 | the `write_str` loop puts exactly the carriage-return-translated text on the wire |
| Poll.FirstReady | src/bsp/driver/bcm/bcm2xxx_uart.rs:159-165 | a spin loop stops at the first ready reading: that reading is ready and every one before it is not |
| Poll.Spin | src/bsp/driver/bcm/bcm2xxx_uart.rs:159-165 | the spin loop returns iff some reading is ready, after exactly the readings up to the first ready one |
| Poll.SetBit0 | src/bsp/driver/bcm/bcm2835_rand.rs:59 | a read-modify-write setting one bit leaves bit 0 set and every other bit as it was |
| Poll.SetBits01 | src/arch/aarch64.rs:53 | setting ENABLE and IMASK sets bits 0 and 1 and keeps the others |
| Poll.ClearBit0 | src/arch/aarch64.rs:63 | clearing ENABLE clears bit 0 and keeps the others |
| Uart.NewInner | src/bsp/driver/bcm/bcm2xxx_uart.rs:126-131 | a new driver has written no characters |
| Uart.Init | src/bsp/driver/bcm/bcm2xxx_uart.rs:137-154 | CR is cleared first; `init` returns `Ok` iff the firmware accepts the request and reports rate 4 000 000; it halts iff it accepts with another rate, panics iff the call fails, and never returns `Err`; the line is programmed only on success |
| Uart.Programming | src/bsp/driver/bcm/bcm2xxx_uart.rs:146-151 | five programming writes, of which only the last goes to CR: the UART is enabled after ICR, the divisors and LCRH are written |
| Uart.ProgrammingEnables | src/bsp/driver/bcm/bcm2xxx_uart.rs:146-151 | the last control word enables exactly UARTEN, TXE and RXE; the LCRH write selects eight-bit words; the ICR write is `ALL::CLEAR`, the value 0, which sets none of the eleven interrupt-clear bits and so clears no pending interrupt |
| Uart.CrEnabledBit | src/bsp/driver/bcm/bcm2xxx_uart.rs:65-82 | a bit of the enabling control word 0x301 is set iff it is UARTEN (bit 0), TXE (bit 8) or RXE (bit 9) |
| Uart.GateIgnoresRequest | src/bsp/driver/bcm/bcm2xxx_uart.rs:142 | the gate compares against the fixed 4 000 000, not the requested speed: a firmware reporting 4 000 000 passes any request |
| Uart.EchoFirmwareGate | src/bsp/driver/bcm/bcm2xxx_uart.rs:142 | with a firmware that echoes the request, `init` succeeds iff the requested speed is 4 000 000 |
| Uart.RejectedRatePanics | src/bsp/driver/bcm/bcm2xxx_uart.rs:142 | a firmware rejecting the request makes `init` panic through `unwrap` |
| Uart.WriteChar | src/bsp/driver/bcm/bcm2xxx_uart.rs:157-169 | a character is stored iff some FR reading has TXFF clear, and it is stored as its scalar value |
| Uart.ReadChar | src/bsp/driver/bcm/bcm2xxx_uart.rs:172-191 | a character is read iff some FR reading has RXFE clear, and it is the translated low byte of DR |
| Uart.WriteStr | src/bsp/driver/bcm/bcm2xxx_uart.rs:195-207 | the wire gets the carriage-return-translated text; the count grows by the UTF-8 length; the result is always `Ok` |
| Uart.WriteStrRoundTrip | src/bsp/driver/bcm/bcm2xxx_uart.rs:195-202 | the receiving side recovers the written text exactly |
| Uart.New | src/bsp/driver/bcm/bcm2xxx_uart.rs:219-225 | the driver wraps a fresh inner state in a lock |
| Uart.DriverInit | src/bsp/driver/bcm/bcm2xxx_uart.rs:232-235 | `DeviceDriver::init` runs the inner `init` with 4 000 000 through the lock |
| Uart.DriverInitSucceedsWithEcho | src/bsp/driver/bcm/bcm2xxx_uart.rs:232-235 | with an echoing firmware the driver's `init` returns `Ok` |
| Uart.ConsoleWriteChar | src/bsp/driver/bcm/bcm2xxx_uart.rs:239-242 | console `write_char` sends one untranslated character and leaves the count unchanged |
| Uart.ConsoleReadChar | src/bsp/driver/bcm/bcm2xxx_uart.rs:251-254 | console `read_char` is the inner read through the lock |
| Uart.CharsWritten | src/bsp/driver/bcm/bcm2xxx_uart.rs:258-261 | the statistic is the inner counter |
| MiniUart.NewInner | src/bsp/driver/bcm/bcm2xxx_mini_uart.rs:214-219 | a new driver has written no characters |
| MiniUart.Init | src/bsp/driver/bcm/bcm2xxx_mini_uart.rs:225-241 | `init` always returns `Ok`, sets BAUD to 270, enables RX and TX in its eighth write and clears the FIFOs last; before that, every control write is zero; LCR is written with exactly 3, DATA_SIZE = eight-bit and nothing else, and every IER and MCR write is zero |
| MiniUart.ConfiguredBeforeEnabled | src/bsp/driver/bcm/bcm2xxx_mini_uart.rs:227-236 | RX and TX are enabled only after the control register was cleared, LCR was written with exactly DATA_SIZE = eight-bit (BREAK and DLAB clear) and BAUD with 270 |
| MiniUart.WriteChar | src/bsp/driver/bcm/bcm2xxx_mini_uart.rs:243-253 | a character is stored iff some LSR reading has TX_EMPTY set, and it is stored as its scalar value |
| MiniUart.ReadChar | src/bsp/driver/bcm/bcm2xxx_mini_uart.rs:255-271 | a character is read iff some LSR reading has DATA_READY set, and it is the translated low byte of AUX_MU_IO |
| MiniUart.WriteStr | src/bsp/driver/bcm/bcm2xxx_mini_uart.rs:275-287 | the wire gets the carriage-return-translated text; the count grows by the UTF-8 length; the result is always `Ok` |
| MiniUart.New | src/bsp/driver/bcm/bcm2xxx_mini_uart.rs:299-305 | the driver wraps a fresh inner state in a lock |
| MiniUart.DriverInit | src/bsp/driver/bcm/bcm2xxx_mini_uart.rs:312-315 | `DeviceDriver::init` is the inner `init` through the lock, always `Ok` |
| MiniUart.ConsoleWriteChar | src/bsp/driver/bcm/bcm2xxx_mini_uart.rs:319-322 | console `write_char` sends one untranslated character and leaves the count unchanged |
| MiniUart.ConsoleReadChar | src/bsp/driver/bcm/bcm2xxx_mini_uart.rs:331-334 | console `read_char` is the inner read through the lock |
| MiniUart.CharsWritten | src/bsp/driver/bcm/bcm2xxx_mini_uart.rs:338-341 | the statistic is the inner counter |
| SysTimer.GetSysTimer | src/bsp/driver/bcm/bcm2835_systimer.rs:126-136 | the read takes three register reads when the two CHI readings agree and five when they differ; with three the value is the first CHI over the first CLO, with five the second CHI over the second CLO; it is pending only when the trace ends first |
| SysTimer.ConsistentRead | src/bsp/driver/bcm/bcm2835_systimer.rs:126-136 | for a counter that never goes back and moves by less than 2^32 during the read, the value returned is one the counter actually held: the first or the second CLO read |
| SysTimer.SinglePairCanTear | src/bsp/driver/bcm/bcm2835_systimer.rs:130-133 | across a carry, the first CHI with the first CLO gives a value the counter never held, and the re-read corrects it |
| SysTimer.Deadline | src/bsp/driver/bcm/bcm2835_systimer.rs:210 | `t + n` is the sum when it fits in 64 bits and otherwise wraps to below `t` |
| SysTimer.WaitFrom | src/bsp/driver/bcm/bcm2835_systimer.rs:209-213 | the wait starts from the trace's first sample; it returns exactly on a sample past the deadline, every earlier sample is at most the deadline, and a wait that does not return has used up the trace |
| SysTimer.WaitFromTakesSamples | src/bsp/driver/bcm/bcm2835_systimer.rs:209-213 | the wait's samples are the trace's successive `get_systimer` values in order; it returns iff one of them is past the deadline, and a wait that does not return has taken all of them |
| SysTimer.WaitUsec | src/bsp/driver/bcm/bcm2835_systimer.rs:205-215 | a wait that does not return has used up the trace, and one that returns has taken a sample; the deadline and zero-sample behaviour are stated by SysTimer.WaitReturnsPastDeadline and SysTimer.ZeroFirstSampleReturns |
| SysTimer.WaitReturnsPastDeadline | src/bsp/driver/bcm/bcm2835_systimer.rs:205-215 | after a non-zero first sample `t`, a wait that returns has seen a later sample strictly past `t + n` and none earlier |
| SysTimer.ZeroFirstSampleReturns | src/bsp/driver/bcm/bcm2835_systimer.rs:205-208 | a first sample of zero, whether read with three or five register reads, returns at once after that one read |
| SysTimer.WaitUsecLoop | src/bsp/driver/bcm/bcm2835_systimer.rs:205-215 | the driver's loop takes exactly the samples `WaitUsec` describes |
| SysTimer.Init | src/bsp/driver/bcm/bcm2835_systimer.rs:111-116 | four writes, each of zero, to four distinct compare registers; `init` returns `Ok` |
| SysTimer.Set | src/bsp/driver/bcm/bcm2835_systimer.rs:218-264 | setting a compare register changes it to the value and leaves the other three alone |
| SysTimer.InitClearsCompares | src/bsp/driver/bcm/bcm2835_systimer.rs:111-116 | whatever the compare registers held, after `init` all four are zero |
| SysTimer.New | src/bsp/driver/bcm/bcm2835_systimer.rs:189-193 | the driver wraps its base address in a lock |
| SysTimer.DriverGetSysTimer | src/bsp/driver/bcm/bcm2835_systimer.rs:200-203 | the driver's read is the inner read through the lock |
| SysTimer.DriverInit | src/bsp/driver/bcm/bcm2835_systimer.rs:271-276 | `DeviceDriver::init` makes the compare writes through the lock and returns `Ok` |
| Rand.Reduce | src/bsp/driver/bcm/bcm2835_rand.rs:80 | the reduction panics iff the bounds are equal; for `min < max` the result lies in `[min, max)` at offset `v mod (max - min)` |
| Rand.Rand | src/bsp/driver/bcm/bcm2835_rand.rs:65-81 | it spins iff no STATUS reading shows a word; otherwise it panics iff the bounds are equal, and any draw is the reduction of the two DATA words joined |
| Rand.FirstReadIsHigh | src/bsp/driver/bcm/bcm2835_rand.rs:75-78 | the first DATA word is the high half of the value, the second the low half |
| Rand.EveryValueReachable | src/bsp/driver/bcm/bcm2835_rand.rs:75-80 | every value of `[min, max)` is produced by some pair of generator words |
| Rand.ReversedBoundsEscape | src/bsp/driver/bcm/bcm2835_rand.rs:80 | with the bounds reversed, the wrapped subtraction can yield a value outside both bounds |
| Rand.Init | src/bsp/driver/bcm/bcm2835_rand.rs:58-63 | INT_OFF is set first, STATUS gets the warm-up count 0x40000, and ENABLE is set last; each `modify` keeps the register's other bits |
| Rand.EnabledLast | src/bsp/driver/bcm/bcm2835_rand.rs:58-63 | CTRL is written once, by the last write |
| Rand.New | src/bsp/driver/bcm/bcm2835_rand.rs:94-98 | the driver wraps its base address in a lock |
| Rand.DriverRand | src/bsp/driver/bcm/bcm2835_rand.rs:100-103 | `Rng::rand` is the inner draw through the lock, in range whenever `min < max` |
| Rand.DriverInit | src/bsp/driver/bcm/bcm2835_rand.rs:111-116 | `DeviceDriver::init` makes the initialisation writes through the lock and returns `Ok` |
| Arch.TickCount | src/arch/aarch64.rs:44-47 | the tick count never asks for more ticks than the wrapped product `frq * n` holds in millionths; the exact floor is stated by Arch.TickCountExact and the `as u32` cut by Arch.LongWaitTruncates |
| Arch.TickCountExact | src/arch/aarch64.rs:44-47 | when nothing overflows, the tick count is the number of whole ticks in `n` microseconds, short by less than one tick |
| Arch.LongWaitTruncates | src/arch/aarch64.rs:47 | at 19.2 MHz a 224-second wait truncates to fewer ticks than one second has |
| Arch.WaitUsec | src/arch/aarch64.rs:43-64 | `wait_usec` writes the tick count first, and when it returns it has made exactly three writes, the last clearing ENABLE; the full ordering is stated by Arch.WaitUsecMeetsSpec |
| Arch.WaitUsecMeetsSpec | src/arch/aarch64.rs:43-64 | the tick count is written, then the timer is enabled with its interrupt masked; the wait returns iff some poll sees ISTATUS set; the disabling write then clears ENABLE in the reading that follows the first such poll, keeping its other bits |
| Arch.And | src/arch/aarch64.rs:18 | `MPIDR_EL1 & CORE_MASK` as bitwise and on naturals: the result never exceeds either operand; Arch.AndThree gives its value for the board mask |
| Arch.AndThree | src/bsp/rpi3.rs:36 | masking with 0x3 keeps the core number modulo 4 |
| Arch.Start | src/arch/aarch64.rs:15-34 | a core enters runtime init iff `MPIDR_EL1 & CORE_MASK` is the boot core id and the stack pointer reads back non-zero; it then runs on the stack set |
| Arch.OnlyCoreZeroBoots | src/arch/aarch64.rs:18-33 | with the board's constants, a core boots iff its low two MPIDR bits are 0; of cores 0 to 3 only core 0 proceeds |
| Arch.ZeroReadBackParks | src/arch/aarch64.rs:25-29 | a stack pointer reading back as zero parks even the boot core |
| Words.Join | src/bsp/driver/bcm/bcm2835_systimer.rs:135 | `(hi << 32) \| lo` has `hi` as its high word and `lo` as its low word |
| Words.JoinSplit | src/bsp/driver/bcm/bcm2835_systimer.rs:135 | joining a value's two halves gives the value back |
| Words.SplitJoin | src/bsp/driver/bcm/bcm2835_systimer.rs:135 | splitting a joined value gives the two words back |

## Left out

- Register layout and MMIO: the `register_bitfields!` blocks, `RegisterBlock` structs and raw-pointer `Deref` are replaced by read traces and write records.
- The `nop` in each spin loop, real time and timeouts have no counterpart. A loop that would spin forever is a trace that runs out.
- `compiler_fence` and the `UnsafeCell` aliasing inside NullLock: memory ordering and unsafety have no Dafny counterpart. The mailbox model assumes the buffer the firmware sees is the one written.
- Mailbox.Call: the firmware's reply is reduced to the response code it leaves in word 1 (`word1`). What else it writes to the buffer is modelled per builder by the firmware function.
- Mail: only the tags the builders use are modelled; the other `Tag` variants and the `Voltage` enum are not.
- Mail.Transact: the request values are at most three words, which is what every builder passes.
- The driver registry, `bsp::init`, `main.rs`, `panic_wait.rs`, `runtime_init.rs` and the host-side loader are not part of this model.
- `write_fmt` and `core::fmt` formatting: `write_str` is modelled over a string directly.
- Uart.WriteStr: the per-character FR polling inside `write_str` is not modelled. The model gives the words written to DR, assuming each `write_char` gets through.
- MiniUart.WriteStr: the per-character LSR polling inside `write_str` is not modelled, for the same reason.
- Uart.CharsWritten and MiniUart.CharsWritten: the count is an unbounded natural; the `usize` wrap-around after 2^64 bytes is not modelled.
- SysTimer: the C0–C3 getters are plain register reads (modelled by `Get`). `get_cs_register` is not modelled.
- Arch.Start: `BOOT_CORE_ID`, `CORE_MASK` and the stack start are not defined in `aarch64.rs`. They are parameters, and the Raspberry Pi 3 values come from `src/bsp/rpi3.rs`. That file's own `_start` is a stale duplicate and is not modelled separately.
- Arch.WaitUsec: the CNTFRQ_EL0 reading is a parameter. The ISTATUS polls and both `modify` reads come from one trace of CNTP_CTL_EL0 values.
- The stale `src/bsp/rpi3/driver/uart0.rs` and `uart1.rs`, GPIO, AUX and the USB controller are outside the driver core.
- `set_clock_rate` returns (word 5, word 6) of the response. For a firmware that echoes the request this is (clock id 2, 4 000 000) for the UART, as Mail.SetClockRateEcho shows.
