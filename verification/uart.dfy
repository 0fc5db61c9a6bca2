/** The PL011 UART driver (`bcm2xxx_uart.rs`). Its initialisation first
    negotiates the UART clock with the firmware through the property
    mailbox and programs the baud-rate divisors only if the firmware reports
    the rate the divisors were computed for. */
module Uart {
  import opened Results
  import opened Words
  import Sync
  import Interface
  import Mailbox
  import Mail
  import Console
  import Poll

  // ---------------------------------------------------------------------------
  // Registers
  // ---------------------------------------------------------------------------

  /** The registers `init` writes. */
  datatype Reg = Cr | Icr | Ibrd | Fbrd | Lcrh

  datatype RegWrite = RegWrite(reg: Reg, value: u32)

  /** The UART clock rate the hard-coded divisors assume. */
  const REQUIRED_RATE: u32 := 4_000_000

  /** IBRD = 2 and FBRD = 0xB: the divisor pair for 115200 baud at 4 MHz. */
  const IBRD_VALUE: u32 := 2
  const FBRD_VALUE: u32 := 0xB

  /** LCRH.WLEN (bits 5-6) = 0b11: eight-bit words. */
  const LCRH_EIGHT_BIT: u32 := 0x60

  /** CR.UARTEN (bit 0), CR.TXE (bit 8) and CR.RXE (bit 9) set. */
  const CR_ENABLED: u32 := 0x301

  /** `ICR::ALL::CLEAR`: the CLEAR value of the eleven-bit ALL field is 0.
      ICR is write-one-to-clear, so this write sets no clear bit and leaves
      every pending interrupt pending. */
  const ICR_ALL_CLEAR: u32 := 0

  /** FR.TXFF (bit 5): the transmit FIFO is full. */
  predicate TxFull(fr: u32) {
    Poll.BitSet(fr, 5)
  }

  /** FR.RXFE (bit 4): the receive FIFO is empty. */
  predicate RxEmpty(fr: u32) {
    Poll.BitSet(fr, 4)
  }

  // ---------------------------------------------------------------------------
  // The inner driver
  // ---------------------------------------------------------------------------

  /** `UartInner`: the register block's base address and the count of
      characters written through `write_str`. */
  datatype UartInner = UartInner(baseAddr: nat, charsWritten: nat)

  /** `UartInner::new`: nothing written yet. */
  function NewInner(baseAddr: nat): (u: UartInner)
    ensures u.baseAddr == baseAddr && u.charsWritten == 0
  {
    UartInner(baseAddr, 0)
  }

  /** How `init` ends: it returns a driver result, halts in `wait_forever`
      because the firmware reported another rate, panics in `unwrap` because
      the mailbox call failed, or is still waiting for the mailbox. */
  datatype InitOutcome = Returned(result: Interface.DriverResult) | Halted | Panicked | Waiting

  /** What `init` did: the register writes in order, the clock-rate exchange
      with the firmware, and how it ended. */
  datatype InitRun = InitRun(writes: seq<RegWrite>, mail: Mail.Exchange<(u32, u32)>, outcome: InitOutcome)

  /** The writes that program the line once the clock is agreed: write
      `ICR::ALL::CLEAR`, set the divisors, eight-bit words, then enable the UART,
      the transmitter and the receiver. */
  function Programming(): (w: seq<RegWrite>)
    ensures |w| == 5 && w[4].reg == Cr
    ensures forall i | 0 <= i < 4 :: w[i].reg != Cr
  {
    [RegWrite(Icr, ICR_ALL_CLEAR), RegWrite(Ibrd, IBRD_VALUE), RegWrite(Fbrd, FBRD_VALUE),
     RegWrite(Lcrh, LCRH_EIGHT_BIT), RegWrite(Cr, CR_ENABLED)]
  }

  /** `UartInner::init(clock_speed)`: disable the UART, ask the firmware to
      set the UART clock to `clock_speed`, and program the line only if the
      rate the firmware reports back is exactly 4 MHz. `hw`, `bufPtr` and
      `fw` are the mailbox trace, the mail buffer's address and the
      firmware, as in `Mail`. */
  function Init(clockSpeed: u32, hw: seq<u32>, bufPtr: u32, fw: Mail.Buffer -> Mail.Buffer): (r: InitRun)
    ensures r.mail == Mail.SetClockRateOf(Mail.New(), Mail.Uart, clockSpeed, 0, hw, bufPtr, fw)
    ensures r.outcome == Returned(Ok(())) <==>
      r.mail.outcome.Some? && r.mail.outcome.value.Ok? && r.mail.outcome.value.value.1 == REQUIRED_RATE
    ensures r.outcome.Halted? <==>
      r.mail.outcome.Some? && r.mail.outcome.value.Ok? && r.mail.outcome.value.value.1 != REQUIRED_RATE
    ensures r.outcome.Panicked? <==> r.mail.outcome.Some? && r.mail.outcome.value.Err?
    ensures r.outcome.Waiting? <==> r.mail.outcome.None?
    ensures r.outcome != Returned(Err(()))
    ensures |r.writes| >= 1 && r.writes[0] == RegWrite(Cr, 0)
    ensures r.outcome.Returned? <==> |r.writes| > 1
    ensures r.outcome.Returned? ==> r.writes[1..] == Programming()
  {
    var first := [RegWrite(Cr, 0)];
    var mail := Mail.SetClockRateOf(Mail.New(), Mail.Uart, clockSpeed, 0, hw, bufPtr, fw);
    match mail.outcome
    case None => InitRun(first, mail, Waiting)
    case Some(Err(_)) => InitRun(first, mail, Panicked)
    case Some(Ok((_, rate))) =>
      if rate != REQUIRED_RATE then InitRun(first, mail, Halted)
      else InitRun(first + Programming(), mail, Returned(Ok(())))
  }

  /** The final control word turns on exactly the UART, its transmitter and
      its receiver, and the line control selects eight-bit words. The first
      write goes to ICR and sets none of its eleven interrupt-clear bits. */
  lemma ProgrammingEnables()
    ensures Programming()[4].reg == Cr
    ensures forall k: nat | k < 32 :: Poll.BitSet(Programming()[4].value, k) <==> k == 0 || k == 8 || k == 9
    ensures Programming()[3].reg == Lcrh && Programming()[3].value / 32 == 3
    ensures Programming()[0].reg == Icr && forall k: nat | k < 11 :: !Poll.BitSet(Programming()[0].value, k)
  {
    forall k: nat | k < 32
      ensures Poll.BitSet(CR_ENABLED, k) <==> k == 0 || k == 8 || k == 9
    {
      CrEnabledBit(k);
    }
  }

  /** Bit `k` of the enabling control word is set exactly for UARTEN (bit 0),
      TXE (bit 8) and RXE (bit 9). */
  lemma CrEnabledBit(k: nat)
    requires k < 32
    ensures Poll.BitSet(CR_ENABLED, k) <==> k == 0 || k == 8 || k == 9
  {
    if k == 8 {
      assert Poll.Pow2(8) == 256;
    } else if k == 9 {
      assert Poll.Pow2(9) == 512;
    } else if k != 0 {
      HighBitsClear(k);
    }
  }

  lemma HighBitsClear(k: nat)
    requires k < 32 && k != 0 && k != 8 && k != 9
    ensures (0x301 / Poll.Pow2(k)) % 2 == 0
  {
    var p := Poll.Pow2(k);
    if k >= 10 {
      PowMonotone(10, k);
      Pow2Table();
      BelowDivisor(0x301, p);
    } else {
      Pow2Table();
      assert p == 2 || p == 4 || p == 8 || p == 16 || p == 32 || p == 64 || p == 128;
    }
  }

  lemma Pow2Table()
    ensures Poll.Pow2(1) == 2 && Poll.Pow2(2) == 4 && Poll.Pow2(3) == 8 && Poll.Pow2(4) == 16
    ensures Poll.Pow2(5) == 32 && Poll.Pow2(6) == 64 && Poll.Pow2(7) == 128 && Poll.Pow2(10) == 1024
  {
    assert Poll.Pow2(8) == 256;
  }

  lemma BelowDivisor(x: nat, p: nat)
    requires x < p
    ensures x / p == 0
  {
  }

  lemma {:induction false} PowMonotone(j: nat, k: nat)
    requires j <= k
    ensures Poll.Pow2(j) <= Poll.Pow2(k)
    decreases k
  {
    if j < k {
      PowMonotone(j, k - 1);
    }
  }

  /** The gate compares against the fixed rate, not against the rate that
      was asked for: with a firmware that answers at once and reports the
      rate `rate` whatever was requested, `init` succeeds for every
      requested speed exactly when `rate` is 4 MHz, and halts otherwise. */
  lemma GateIgnoresRequest(clockSpeed: u32, rate: u32, bufPtr: u32)
    requires Mailbox.ChannelBits(bufPtr) == 0
    ensures Init(clockSpeed, Mailbox.PromptReply(bufPtr, Mailbox.ArmToVcProperty), bufPtr,
                 b => Mail.Respond(b, Mailbox.SUCCESS_CODE, [2, rate])).outcome
            == (if rate == REQUIRED_RATE then Returned(Ok(())) else Halted)
  {
    var fw := (b: Mail.Buffer) => Mail.Respond(b, Mailbox.SUCCESS_CODE, [2, rate]);
    var r := Init(clockSpeed, Mailbox.PromptReply(bufPtr, Mailbox.ArmToVcProperty), bufPtr, fw);
    Mailbox.PromptReplyAnswers(bufPtr, Mailbox.ArmToVcProperty, r.mail.response[1]);
  }

  /** With a firmware that applies and echoes whatever rate is requested,
      `init` succeeds exactly when 4 MHz was requested. */
  lemma EchoFirmwareGate(clockSpeed: u32, bufPtr: u32)
    requires Mailbox.ChannelBits(bufPtr) == 0
    ensures Init(clockSpeed, Mailbox.PromptReply(bufPtr, Mailbox.ArmToVcProperty), bufPtr,
                 b => Mail.Respond(b, Mailbox.SUCCESS_CODE, [])).outcome
            == (if clockSpeed == REQUIRED_RATE then Returned(Ok(())) else Halted)
  {
    Mail.SetClockRateEcho(Mail.New(), Mail.Uart, clockSpeed, 0, bufPtr);
  }

  /** A firmware that rejects the request makes `init` panic before any
      divisor is written. */
  lemma RejectedRatePanics(clockSpeed: u32, bufPtr: u32)
    requires Mailbox.ChannelBits(bufPtr) == 0
    ensures Init(clockSpeed, Mailbox.PromptReply(bufPtr, Mailbox.ArmToVcProperty), bufPtr,
                 b => Mail.Respond(b, Mailbox.ERROR_CODE, [])).outcome == Panicked
  {
    var fw := (b: Mail.Buffer) => Mail.Respond(b, Mailbox.ERROR_CODE, []);
    var r := Init(clockSpeed, Mailbox.PromptReply(bufPtr, Mailbox.ArmToVcProperty), bufPtr, fw);
    Mailbox.PromptReplyAnswers(bufPtr, Mailbox.ArmToVcProperty, r.mail.response[1]);
  }

  /** `UartInner::write_char`: wait until the transmit FIFO has room, then
      store the character in DR. `fr` is the trace of FR readings; `None`
      means the FIFO never drained. */
  function WriteChar(fr: seq<u32>, c: char): (w: Option<u32>)
    ensures w.Some? <==> exists i | 0 <= i < |fr| :: !TxFull(fr[i])
    ensures w.Some? ==> w.value == c as int
  {
    var k := Poll.FirstReady(fr, (r: u32) => !TxFull(r));
    if k < |fr| then Some(Console.CharWord(c)) else None
  }

  /** `UartInner::read_char`: wait until the receive FIFO holds a byte, then
      read DR. `fr` is the trace of FR readings and `dr` the value DR holds
      once a byte has arrived. */
  function ReadChar(fr: seq<u32>, dr: u32): (c: Option<char>)
    ensures c.Some? <==> exists i | 0 <= i < |fr| :: !RxEmpty(fr[i])
    ensures c.Some? ==> c.value == Console.ReadChar(dr)
  {
    var k := Poll.FirstReady(fr, (r: u32) => !RxEmpty(r));
    if k < |fr| then Some(Console.ReadChar(dr)) else None
  }

  /** `write_str`: the text goes out with a carriage return before every line
      feed, the count grows by the text's length in bytes, and the result is
      always `Ok`. Returns the new state and the words stored in DR. */
  method WriteStr(u: UartInner, s: string) returns (v: UartInner, words: seq<u32>, res: Result<(), ()>)
    ensures words == Console.Wire(Console.Crlf(s))
    ensures v.baseAddr == u.baseAddr && v.charsWritten == u.charsWritten + Console.Utf8Len(s)
    ensures res.Ok?
  {
    words := Console.Emit(s);
    v := u.(charsWritten := u.charsWritten + Console.Utf8Len(s));
    res := Ok(());
  }

  /** The receiver of what `write_str` sent recovers the text exactly. */
  lemma WriteStrRoundTrip(s: string)
    ensures Console.Uncrlf(Console.Crlf(s)) == s
  {
    Console.UncrlfCrlf(s);
  }

  // ---------------------------------------------------------------------------
  // The driver behind its lock
  // ---------------------------------------------------------------------------

  datatype UartDriver = UartDriver(inner: Sync.NullLock<UartInner>)

  const COMPATIBLE: string := "BCM2XXX UART"

  /** `Uart::new`. */
  function New(baseAddr: nat): (d: UartDriver)
    ensures d.inner.data == NewInner(baseAddr)
  {
    UartDriver(Sync.New(NewInner(baseAddr)))
  }

  /** `DeviceDriver::init`: the inner `init` asked for 4 MHz, through the
      lock; the driver state is unchanged. */
  function DriverInit(d: UartDriver, hw: seq<u32>, bufPtr: u32, fw: Mail.Buffer -> Mail.Buffer): (r: (UartDriver, InitRun))
    ensures r.0 == d
    ensures r.1 == Init(REQUIRED_RATE, hw, bufPtr, fw)
  {
    var (l, run) := Sync.Lock(d.inner, (u: UartInner) => (u, Init(REQUIRED_RATE, hw, bufPtr, fw)));
    (UartDriver(l), run)
  }

  /** The driver's own request passes its gate with a firmware that applies
      the requested rate. */
  lemma DriverInitSucceedsWithEcho(d: UartDriver, bufPtr: u32)
    requires Mailbox.ChannelBits(bufPtr) == 0
    ensures DriverInit(d, Mailbox.PromptReply(bufPtr, Mailbox.ArmToVcProperty), bufPtr,
                       b => Mail.Respond(b, Mailbox.SUCCESS_CODE, [])).1.outcome == Returned(Ok(()))
  {
    EchoFirmwareGate(REQUIRED_RATE, bufPtr);
  }

  /** Console `write_char`: one character, no line-ending translation, and
      the written-character count is left alone. */
  function ConsoleWriteChar(d: UartDriver, fr: seq<u32>, c: char): (r: (UartDriver, Option<u32>))
    ensures r.0 == d
    ensures r.1 == WriteChar(fr, c)
  {
    var (l, w) := Sync.Lock(d.inner, (u: UartInner) => (u, WriteChar(fr, c)));
    (UartDriver(l), w)
  }

  /** Console `read_char`. */
  function ConsoleReadChar(d: UartDriver, fr: seq<u32>, dr: u32): (r: (UartDriver, Option<char>))
    ensures r.0 == d
    ensures r.1 == ReadChar(fr, dr)
  {
    var (l, c) := Sync.Lock(d.inner, (u: UartInner) => (u, ReadChar(fr, dr)));
    (UartDriver(l), c)
  }

  /** Console `chars_written`: the inner counter. */
  function CharsWritten(d: UartDriver): (n: nat)
    ensures n == d.inner.data.charsWritten
  {
    Sync.Lock(d.inner, (u: UartInner) => (u, u.charsWritten)).1
  }
}
