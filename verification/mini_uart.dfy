/** The mini UART driver (`bcm2xxx_mini_uart.rs`): a fixed register
    programme with no firmware negotiation, and the same console text
    handling as the PL011 driver. */
module MiniUart {
  import opened Results
  import opened Words
  import Sync
  import Interface
  import Console
  import Poll

  /** The auxiliary mini-UART registers `init` writes. */
  datatype Reg = Ier | Cntl | Lcr | Mcr | Iir | Baud

  datatype RegWrite = RegWrite(reg: Reg, value: u32)

  /** AUX_MU_LCR.DATA_SIZE (bits 0-1) = 0b11: eight-bit mode. */
  const LCR_EIGHT_BIT: u32 := 3
  /** AUX_MU_IIR.FIFO_CLEAR (bits 1-2) = 0b11: clear both FIFOs. */
  const IIR_CLEAR_FIFOS: u32 := 6
  /** AUX_MU_BAUD = 270: 115200 baud from the 250 MHz core clock. */
  const BAUD_115200: u32 := 270
  /** AUX_MU_CNTL.RX_EN (bit 0) and TX_EN (bit 1) set. */
  const CNTL_RX_TX: u32 := 3

  /** AUX_MU_LSR.TX_EMPTY (bit 5): the transmitter can take a byte. */
  predicate TxEmpty(lsr: u32) {
    Poll.BitSet(lsr, 5)
  }

  /** AUX_MU_LSR.DATA_READY (bit 0): the receiver holds a byte. */
  predicate DataReady(lsr: u32) {
    Poll.BitSet(lsr, 0)
  }

  /** `MiniUartInner`: the register block's base address and the count of
      characters written through `write_str`. */
  datatype MiniUartInner = MiniUartInner(baseAddr: nat, charsWritten: nat)

  /** `MiniUartInner::new`: nothing written yet. */
  function NewInner(baseAddr: nat): (u: MiniUartInner)
    ensures u.baseAddr == baseAddr && u.charsWritten == 0
  {
    MiniUartInner(baseAddr, 0)
  }

  /** `MiniUartInner::init`: the register writes in order, and the result,
      which is always `Ok`. The line is left at 115200 baud with both
      directions enabled, and the last write clears the FIFOs once more
      after enabling. */
  function Init(): (r: (seq<RegWrite>, Interface.DriverResult))
    ensures r.1.Ok?
    ensures RegWrite(Baud, BAUD_115200) in r.0
    ensures |r.0| == 9 && r.0[7] == RegWrite(Cntl, CNTL_RX_TX) && r.0[8] == RegWrite(Iir, IIR_CLEAR_FIFOS)
    ensures forall i | 0 <= i < 7 :: r.0[i].reg == Cntl ==> r.0[i].value == 0
    ensures r.0[2] == RegWrite(Lcr, LCR_EIGHT_BIT)
    ensures forall i | 0 <= i < |r.0| :: (r.0[i].reg == Ier || r.0[i].reg == Mcr) ==> r.0[i].value == 0
  {
    ([RegWrite(Ier, 0), RegWrite(Cntl, 0), RegWrite(Lcr, LCR_EIGHT_BIT), RegWrite(Mcr, 0),
      RegWrite(Ier, 0), RegWrite(Iir, IIR_CLEAR_FIFOS), RegWrite(Baud, BAUD_115200),
      RegWrite(Cntl, CNTL_RX_TX), RegWrite(Iir, IIR_CLEAR_FIFOS)],
     Ok(()))
  }

  /** The transmitter and receiver stay disabled until the line is fully
      configured: before the enabling write, the only control write is the
      one that disables both, and eight-bit data (DATA_SIZE, bits 0-1, set
      to 0b11, with BREAK, bit 6, and DLAB, bit 7, clear) and the
      115200-baud divisor are set before it. */
  lemma ConfiguredBeforeEnabled()
    ensures Poll.BitSet(Init().0[7].value, 0) && Poll.BitSet(Init().0[7].value, 1)
    ensures Init().0[1] == RegWrite(Cntl, 0)
    ensures Init().0[2] == RegWrite(Lcr, LCR_EIGHT_BIT) && Init().0[2].value % 4 == 3
    ensures !Poll.BitSet(Init().0[2].value, 6) && !Poll.BitSet(Init().0[2].value, 7)
    ensures Init().0[6] == RegWrite(Baud, BAUD_115200)
  {
    assert Poll.Pow2(1) == 2;
  }

  /** `write_char`: wait until the transmitter is empty, then store the
      character in AUX_MU_IO. `lsr` is the trace of LSR readings. */
  function WriteChar(lsr: seq<u32>, c: char): (w: Option<u32>)
    ensures w.Some? <==> exists i | 0 <= i < |lsr| :: TxEmpty(lsr[i])
    ensures w.Some? ==> w.value == c as int
  {
    var k := Poll.FirstReady(lsr, (r: u32) => TxEmpty(r));
    if k < |lsr| then Some(Console.CharWord(c)) else None
  }

  /** `read_char`: wait until a byte is ready, then read AUX_MU_IO, whose
      value once a byte has arrived is `io`. */
  function ReadChar(lsr: seq<u32>, io: u32): (c: Option<char>)
    ensures c.Some? <==> exists i | 0 <= i < |lsr| :: DataReady(lsr[i])
    ensures c.Some? ==> c.value == Console.ReadChar(io)
  {
    var k := Poll.FirstReady(lsr, (r: u32) => DataReady(r));
    if k < |lsr| then Some(Console.ReadChar(io)) else None
  }

  /** `write_str`: a carriage return before every line feed, the count grows
      by the byte length of the text, and the result is always `Ok`. */
  method WriteStr(u: MiniUartInner, s: string) returns (v: MiniUartInner, words: seq<u32>, res: Result<(), ()>)
    ensures words == Console.Wire(Console.Crlf(s))
    ensures v.baseAddr == u.baseAddr && v.charsWritten == u.charsWritten + Console.Utf8Len(s)
    ensures res.Ok?
  {
    words := Console.Emit(s);
    v := u.(charsWritten := u.charsWritten + Console.Utf8Len(s));
    res := Ok(());
  }

  datatype MiniUartDriver = MiniUartDriver(inner: Sync.NullLock<MiniUartInner>)

  const COMPATIBLE: string := "BCM2XXX MiniUart"

  /** `MiniUart::new`. */
  function New(baseAddr: nat): (d: MiniUartDriver)
    ensures d.inner.data == NewInner(baseAddr)
  {
    MiniUartDriver(Sync.New(NewInner(baseAddr)))
  }

  /** `DeviceDriver::init` through the lock: always `Ok`, state unchanged. */
  function DriverInit(d: MiniUartDriver): (r: (MiniUartDriver, seq<RegWrite>, Interface.DriverResult))
    ensures r.0 == d && r.2.Ok?
    ensures r.1 == Init().0
  {
    var (l, run) := Sync.Lock(d.inner, (u: MiniUartInner) => (u, Init()));
    (MiniUartDriver(l), run.0, run.1)
  }

  /** Console `write_char`: one character, no translation, count unchanged. */
  function ConsoleWriteChar(d: MiniUartDriver, lsr: seq<u32>, c: char): (r: (MiniUartDriver, Option<u32>))
    ensures r.0 == d
    ensures r.1 == WriteChar(lsr, c)
  {
    var (l, w) := Sync.Lock(d.inner, (u: MiniUartInner) => (u, WriteChar(lsr, c)));
    (MiniUartDriver(l), w)
  }

  /** Console `read_char`. */
  function ConsoleReadChar(d: MiniUartDriver, lsr: seq<u32>, io: u32): (r: (MiniUartDriver, Option<char>))
    ensures r.0 == d
    ensures r.1 == ReadChar(lsr, io)
  {
    var (l, c) := Sync.Lock(d.inner, (u: MiniUartInner) => (u, ReadChar(lsr, io)));
    (MiniUartDriver(l), c)
  }

  /** Console `chars_written`: the inner counter. */
  function CharsWritten(d: MiniUartDriver): (n: nat)
    ensures n == d.inner.data.charsWritten
  {
    Sync.Lock(d.inner, (u: MiniUartInner) => (u, u.charsWritten)).1
  }
}
