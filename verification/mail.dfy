/** The property-tag interface (`bcm2837_mail.rs`): a 36-word mail buffer,
    one builder per firmware query, each of which lays out a single tag
    request, runs the mailbox handshake on the property channel and reads
    its result back from fixed word offsets.

    The firmware is a parameter: a function from the request buffer to the
    buffer as it stands when the firmware replies. The mailbox handshake is
    `Mailbox.Call` over a trace of register readings, and its outcome is
    decided by word 1 of that response buffer. */
module Mail {
  import opened Results
  import opened Words
  import Mailbox

  // ---------------------------------------------------------------------------
  // Values on the wire
  // ---------------------------------------------------------------------------

  /** `Tag`: the firmware functions the builders request, and the end tag. */
  datatype Tag =
    | GetFirmwareRevision
    | GetBoardModel
    | GetBoardRevision
    | GetBoardMac
    | GetBoardSerial
    | GetArmMemory
    | GetVcMemory
    | GetDmaChannels
    | GetPowerState
    | GetTiming
    | SetPowerState
    | GetClockState
    | GetClockRate
    | SetClockState
    | SetClockRate
    | End

  function TagId(t: Tag): u32 {
    match t
    case GetFirmwareRevision => 0x0000_0001
    case GetBoardModel => 0x0001_0001
    case GetBoardRevision => 0x0001_0002
    case GetBoardMac => 0x0001_0003
    case GetBoardSerial => 0x0001_0004
    case GetArmMemory => 0x0001_0005
    case GetVcMemory => 0x0001_0006
    case GetDmaChannels => 0x0006_0001
    case GetPowerState => 0x0002_0001
    case GetTiming => 0x0002_0002
    case SetPowerState => 0x0002_8001
    case GetClockState => 0x0003_0001
    case GetClockRate => 0x0003_0002
    case SetClockState => 0x0003_8001
    case SetClockRate => 0x0003_8002
    case End => 0
  }

  /** The tag a word names, if any: the inverse of `TagId`. */
  function TagOf(w: u32): (t: Option<Tag>)
    ensures t.Some? ==> TagId(t.value) == w
  {
    if w == 0x0000_0001 then Some(GetFirmwareRevision)
    else if w == 0x0001_0001 then Some(GetBoardModel)
    else if w == 0x0001_0002 then Some(GetBoardRevision)
    else if w == 0x0001_0003 then Some(GetBoardMac)
    else if w == 0x0001_0004 then Some(GetBoardSerial)
    else if w == 0x0001_0005 then Some(GetArmMemory)
    else if w == 0x0001_0006 then Some(GetVcMemory)
    else if w == 0x0006_0001 then Some(GetDmaChannels)
    else if w == 0x0002_0001 then Some(GetPowerState)
    else if w == 0x0002_0002 then Some(GetTiming)
    else if w == 0x0002_8001 then Some(SetPowerState)
    else if w == 0x0003_0001 then Some(GetClockState)
    else if w == 0x0003_0002 then Some(GetClockRate)
    else if w == 0x0003_8001 then Some(SetClockState)
    else if w == 0x0003_8002 then Some(SetClockRate)
    else if w == 0 then Some(End)
    else None
  }

  /** Every tag is recognised from its own identifier, so distinct tags have
      distinct identifiers. */
  lemma TagOfTagId(t: Tag)
    ensures TagOf(TagId(t)) == Some(t)
  {
  }

  /** `Power`: the devices whose power state the firmware manages. */
  datatype Power = SdCard | Uart0 | Uart1 | UsbHcd | I2c0 | I2c1 | I2c2 | Spi | Ccp2tx

  function PowerId(d: Power): (n: u32)
    ensures n <= 8
  {
    match d
    case SdCard => 0
    case Uart0 => 1
    case Uart1 => 2
    case UsbHcd => 3
    case I2c0 => 4
    case I2c1 => 5
    case I2c2 => 6
    case Spi => 7
    case Ccp2tx => 8
  }

  /** `Clocks`: the clocks the firmware manages. */
  datatype Clock = Reserved | Emmc | Uart | Arm | Core | V3d | H264 | Isp | Sdram | Pixel | Pwm | Emmc2

  function ClockId(c: Clock): (n: u32)
    ensures n <= 0xC && n != 0xB
    ensures c == Uart <==> n == 2
  {
    match c
    case Reserved => 0
    case Emmc => 1
    case Uart => 2
    case Arm => 3
    case Core => 4
    case V3d => 5
    case H264 => 6
    case Isp => 7
    case Sdram => 8
    case Pixel => 9
    case Pwm => 0xA
    case Emmc2 => 0xC
  }

  /** Distinct devices and distinct clocks have distinct identifiers. */
  lemma IdsInjective(d: Power, e: Power, c: Clock, k: Clock)
    ensures PowerId(d) == PowerId(e) ==> d == e
    ensures ClockId(c) == ClockId(k) ==> c == k
  {
  }

  /** `Request::Request`: the request/response code of a request buffer. */
  const REQUEST: u32 := 0

  // ---------------------------------------------------------------------------
  // The buffer
  // ---------------------------------------------------------------------------

  const MAIL_WORDS: nat := 36

  /** `Mail`: 36 words. The source aligns it to 16 bytes, which is what lets
      the handshake recognise its reply; the alignment is a property of its
      address, so it appears as `Mailbox.ChannelBits(bufPtr) == 0` where an
      address is taken. */
  type Buffer = b: seq<u32> | |b| == MAIL_WORDS witness seq(36, i => 0)

  /** `Mail::new`: all words zero. */
  function New(): (b: Buffer)
    ensures forall i | 0 <= i < |b| :: b[i] == 0
  {
    seq(36, i => 0)
  }

  /** A single-tag request: the tag and its value words. */
  datatype Request = Request(tag: Tag, values: seq<u32>)

  /** The index of the end tag in a request with `n` value words. */
  function EndIndex(n: nat): nat {
    5 + n
  }

  /** A request with `n` value words fits the buffer. */
  predicate Fits(n: nat) {
    EndIndex(n) < MAIL_WORDS
  }

  /** Lay a single-tag request over `mail`: total size in bytes, request
      code, tag, value-buffer size in bytes, request indicator 0, the value
      words, and the end tag. Words past the end tag are left as they were. */
  function Frame(mail: Buffer, tag: Tag, values: seq<u32>): (b: Buffer)
    requires Fits(|values|)
    ensures b[EndIndex(|values|)] == TagId(End)
    ensures b[EndIndex(|values|) + 1..] == mail[EndIndex(|values|) + 1..]
  {
    var n := |values|;
    [4 * (n + 6), REQUEST, TagId(tag), 4 * n, 0] + values + [TagId(End)] + mail[EndIndex(n) + 1..]
  }

  /** Read a buffer back as a single-tag request, independently of `Frame`:
      the value count comes from word 3, and every fixed word must say what
      a request says. */
  function ParseRequest(b: Buffer): (r: Option<Request>)
    ensures r.Some? ==> Fits(|r.value.values|) && r.value.tag != End
  {
    if b[3] % 4 != 0 || !Fits(b[3] / 4) then None
    else
      var n := b[3] / 4;
      if b[0] != 4 * (EndIndex(n) + 1) || b[1] != REQUEST || b[4] != 0 || b[EndIndex(n)] != TagId(End) then None
      else match TagOf(b[2])
        case None => None
        case Some(t) => if t == End then None else Some(Request(t, b[5..EndIndex(n)]))
  }

  /** Parsing a laid-out request gives back its tag and value words, and the
      frame leaves every word past the end tag untouched. */
  lemma ParseFrame(mail: Buffer, tag: Tag, values: seq<u32>)
    requires Fits(|values|) && tag != End
    ensures ParseRequest(Frame(mail, tag, values)) == Some(Request(tag, values))
    ensures Frame(mail, tag, values)[EndIndex(|values|) + 1..] == mail[EndIndex(|values|) + 1..]
  {
    var b := Frame(mail, tag, values);
    var n := |values|;
    assert b[3] == 4 * n;
    assert b[EndIndex(n)] == 0;
    assert b[5..EndIndex(n)] == values;
    TagOfTagId(tag);
  }

  /** Conversely, a buffer that parses as a request is exactly the frame of
      that request over itself: the parser misses no word of the layout. */
  lemma FrameParse(b: Buffer)
    requires ParseRequest(b).Some?
    ensures Frame(b, ParseRequest(b).value.tag, ParseRequest(b).value.values) == b
  {
    var r := ParseRequest(b).value;
    var f := Frame(b, r.tag, r.values);
    var n := |r.values|;
    assert n == b[3] / 4;
    forall i | 0 <= i < MAIL_WORDS
      ensures f[i] == b[i]
    {
      if 5 <= i < EndIndex(n) {
        assert f[i] == r.values[i - 5];
      }
    }
  }

  /** Word 0 is the byte size of the request up to and including the end
      tag, and word 3 is the byte size of the value words. */
  lemma FrameSizes(mail: Buffer, tag: Tag, values: seq<u32>)
    requires Fits(|values|)
    ensures Frame(mail, tag, values)[0] == 4 * (EndIndex(|values|) + 1)
    ensures Frame(mail, tag, values)[3] == 4 * |values|
    ensures Frame(mail, tag, values)[EndIndex(|values|)] == 0
  {
  }

  // ---------------------------------------------------------------------------
  // One exchange with the firmware
  // ---------------------------------------------------------------------------

  /** What a builder did: the request it laid out, the buffer as the firmware
      left it, and its outcome (`None` while the handshake is still waiting). */
  datatype Exchange<T> = Exchange(request: Buffer, response: Buffer, outcome: Option<Result<T, Mailbox.MboxError>>)

  /** The outcome `o` of a builder mirrors the handshake's result `c`: it
      waits exactly when the handshake waits, fails exactly when it fails,
      with the same error, and succeeds exactly when it succeeds. */
  ghost predicate Mirrors<T>(o: Option<Result<T, Mailbox.MboxError>>, c: Option<Mailbox.MboxResult>) {
    && (o.None? <==> c.None?)
    && (o.Some? ==> (o.value.Ok? <==> c.value.Ok?))
    && (o.Some? && o.value.Err? ==> c.value == Err(o.value.error))
  }

  /** What every builder guarantees for tag `tag` and value words `values`:
      the request parses as exactly that, every word past the end tag is as
      it was in `mail`, the
      firmware answered that request, and the outcome mirrors a handshake on
      the property channel whose result word 1 of the response decides. */
  ghost predicate Builds<T>(x: Exchange<T>, mail: Buffer, tag: Tag, values: seq<u32>,
                           hw: seq<u32>, bufPtr: u32, fw: Buffer -> Buffer)
  {
    && ParseRequest(x.request) == Some(Request(tag, values))
    && Fits(|values|)
    && x.request[EndIndex(|values|) + 1..] == mail[EndIndex(|values|) + 1..]
    && x.response == fw(x.request)
    && Mirrors(x.outcome, Mailbox.Call(hw, bufPtr, Mailbox.ArmToVcProperty, x.response[1]).result)
  }

  /** Lay out the request, let the firmware answer it, run the handshake on
      the property channel, and decode the response only on success. */
  function Transact<T>(mail: Buffer, tag: Tag, values: seq<u32>, hw: seq<u32>, bufPtr: u32,
                       fw: Buffer -> Buffer, decode: Buffer -> T): (x: Exchange<T>)
    requires 1 <= |values| <= 3 && tag != End
    ensures Builds(x, mail, tag, values, hw, bufPtr, fw)
    ensures x.outcome.Some? && x.outcome.value.Ok? ==> x.outcome.value.value == decode(x.response)
  {
    var request := Frame(mail, tag, values);
    ParseFrame(mail, tag, values);
    var response := fw(request);
    var call := Mailbox.Call(hw, bufPtr, Mailbox.ArmToVcProperty, response[1]);
    var outcome := match call.result
      case None => None
      case Some(Ok(_)) => Some(Ok(decode(response)))
      case Some(Err(e)) => Some(Err(e));
    Exchange(request, response, outcome)
  }

  /** The decoders: one word at offset 5, the pair at offsets 5 and 6, and
      the 64-bit value whose high half is at offset 6 and low half at 5. */
  function Word5(b: Buffer): u32 { b[5] }
  function Pair56(b: Buffer): (u32, u32) { (b[5], b[6]) }
  function Join65(b: Buffer): u64 { Join(b[6], b[5]) }

  // ---------------------------------------------------------------------------
  // The builders
  // ---------------------------------------------------------------------------

  function GetBoardSerialOf(mail: Buffer, hw: seq<u32>, bufPtr: u32, fw: Buffer -> Buffer): (x: Exchange<u64>)
    ensures Builds(x, mail, GetBoardSerial, [0, 0], hw, bufPtr, fw)
    ensures x.outcome.Some? && x.outcome.value.Ok? ==>
      Hi(x.outcome.value.value) == x.response[6] && Lo(x.outcome.value.value) == x.response[5]
  {
    Transact(mail, GetBoardSerial, [0, 0], hw, bufPtr, fw, Join65)
  }

  function GetFirmwareRevisionOf(mail: Buffer, hw: seq<u32>, bufPtr: u32, fw: Buffer -> Buffer): (x: Exchange<u32>)
    ensures Builds(x, mail, GetFirmwareRevision, [0], hw, bufPtr, fw)
    ensures x.outcome.Some? && x.outcome.value.Ok? ==> x.outcome.value.value == x.response[5]
  {
    Transact(mail, GetFirmwareRevision, [0], hw, bufPtr, fw, Word5)
  }

  function GetBoardModelOf(mail: Buffer, hw: seq<u32>, bufPtr: u32, fw: Buffer -> Buffer): (x: Exchange<u32>)
    ensures Builds(x, mail, GetBoardModel, [0], hw, bufPtr, fw)
    ensures x.outcome.Some? && x.outcome.value.Ok? ==> x.outcome.value.value == x.response[5]
  {
    Transact(mail, GetBoardModel, [0], hw, bufPtr, fw, Word5)
  }

  function GetBoardRevisionOf(mail: Buffer, hw: seq<u32>, bufPtr: u32, fw: Buffer -> Buffer): (x: Exchange<u32>)
    ensures Builds(x, mail, GetBoardRevision, [0], hw, bufPtr, fw)
    ensures x.outcome.Some? && x.outcome.value.Ok? ==> x.outcome.value.value == x.response[5]
  {
    Transact(mail, GetBoardRevision, [0], hw, bufPtr, fw, Word5)
  }

  function GetBoardMacOf(mail: Buffer, hw: seq<u32>, bufPtr: u32, fw: Buffer -> Buffer): (x: Exchange<u64>)
    ensures Builds(x, mail, GetBoardMac, [0, 0], hw, bufPtr, fw)
    ensures x.outcome.Some? && x.outcome.value.Ok? ==>
      Hi(x.outcome.value.value) == x.response[6] && Lo(x.outcome.value.value) == x.response[5]
  {
    Transact(mail, GetBoardMac, [0, 0], hw, bufPtr, fw, Join65)
  }

  function GetArmMemoryOf(mail: Buffer, hw: seq<u32>, bufPtr: u32, fw: Buffer -> Buffer): (x: Exchange<(u32, u32)>)
    ensures Builds(x, mail, GetArmMemory, [0, 0], hw, bufPtr, fw)
    ensures x.outcome.Some? && x.outcome.value.Ok? ==> x.outcome.value.value == (x.response[5], x.response[6])
  {
    Transact(mail, GetArmMemory, [0, 0], hw, bufPtr, fw, Pair56)
  }

  function GetVcMemoryOf(mail: Buffer, hw: seq<u32>, bufPtr: u32, fw: Buffer -> Buffer): (x: Exchange<(u32, u32)>)
    ensures Builds(x, mail, GetVcMemory, [0, 0], hw, bufPtr, fw)
    ensures x.outcome.Some? && x.outcome.value.Ok? ==> x.outcome.value.value == (x.response[5], x.response[6])
  {
    Transact(mail, GetVcMemory, [0, 0], hw, bufPtr, fw, Pair56)
  }

  function GetDmaChannelsOf(mail: Buffer, hw: seq<u32>, bufPtr: u32, fw: Buffer -> Buffer): (x: Exchange<u32>)
    ensures Builds(x, mail, GetDmaChannels, [0], hw, bufPtr, fw)
    ensures x.outcome.Some? && x.outcome.value.Ok? ==> x.outcome.value.value == x.response[5]
  {
    Transact(mail, GetDmaChannels, [0], hw, bufPtr, fw, Word5)
  }

  function GetPowerStateOf(mail: Buffer, device: Power, hw: seq<u32>, bufPtr: u32, fw: Buffer -> Buffer): (x: Exchange<(u32, u32)>)
    ensures Builds(x, mail, GetPowerState, [PowerId(device), 0], hw, bufPtr, fw)
    ensures x.outcome.Some? && x.outcome.value.Ok? ==> x.outcome.value.value == (x.response[5], x.response[6])
  {
    Transact(mail, GetPowerState, [PowerId(device), 0], hw, bufPtr, fw, Pair56)
  }

  function GetTimingOf(mail: Buffer, device: Power, state: u32, hw: seq<u32>, bufPtr: u32, fw: Buffer -> Buffer): (x: Exchange<(u32, u32)>)
    ensures Builds(x, mail, GetTiming, [PowerId(device), state], hw, bufPtr, fw)
    ensures x.outcome.Some? && x.outcome.value.Ok? ==> x.outcome.value.value == (x.response[5], x.response[6])
  {
    Transact(mail, GetTiming, [PowerId(device), state], hw, bufPtr, fw, Pair56)
  }

  function SetPowerStateOf(mail: Buffer, device: Power, state: u32, hw: seq<u32>, bufPtr: u32, fw: Buffer -> Buffer): (x: Exchange<(u32, u32)>)
    ensures Builds(x, mail, SetPowerState, [PowerId(device), state], hw, bufPtr, fw)
    ensures x.outcome.Some? && x.outcome.value.Ok? ==> x.outcome.value.value == (x.response[5], x.response[6])
  {
    Transact(mail, SetPowerState, [PowerId(device), state], hw, bufPtr, fw, Pair56)
  }

  function GetClockStateOf(mail: Buffer, clock: Clock, hw: seq<u32>, bufPtr: u32, fw: Buffer -> Buffer): (x: Exchange<(u32, u32)>)
    ensures Builds(x, mail, GetClockState, [ClockId(clock), 0], hw, bufPtr, fw)
    ensures x.outcome.Some? && x.outcome.value.Ok? ==> x.outcome.value.value == (x.response[5], x.response[6])
  {
    Transact(mail, GetClockState, [ClockId(clock), 0], hw, bufPtr, fw, Pair56)
  }

  function SetClockStateOf(mail: Buffer, clock: Clock, state: u32, hw: seq<u32>, bufPtr: u32, fw: Buffer -> Buffer): (x: Exchange<(u32, u32)>)
    ensures Builds(x, mail, SetClockState, [ClockId(clock), state], hw, bufPtr, fw)
    ensures x.outcome.Some? && x.outcome.value.Ok? ==> x.outcome.value.value == (x.response[5], x.response[6])
  {
    Transact(mail, SetClockState, [ClockId(clock), state], hw, bufPtr, fw, Pair56)
  }

  function GetClockRateOf(mail: Buffer, clock: Clock, hw: seq<u32>, bufPtr: u32, fw: Buffer -> Buffer): (x: Exchange<(u32, u32)>)
    ensures Builds(x, mail, GetClockRate, [ClockId(clock), 0], hw, bufPtr, fw)
    ensures x.outcome.Some? && x.outcome.value.Ok? ==> x.outcome.value.value == (x.response[5], x.response[6])
  {
    Transact(mail, GetClockRate, [ClockId(clock), 0], hw, bufPtr, fw, Pair56)
  }

  function SetClockRateOf(mail: Buffer, clock: Clock, speed: u32, skipTurbo: u32, hw: seq<u32>, bufPtr: u32, fw: Buffer -> Buffer): (x: Exchange<(u32, u32)>)
    ensures Builds(x, mail, SetClockRate, [ClockId(clock), speed, skipTurbo], hw, bufPtr, fw)
    ensures x.outcome.Some? && x.outcome.value.Ok? ==> x.outcome.value.value == (x.response[5], x.response[6])
  {
    Transact(mail, SetClockRate, [ClockId(clock), speed, skipTurbo], hw, bufPtr, fw, Pair56)
  }

  // ---------------------------------------------------------------------------
  // Reference firmware and round trips
  // ---------------------------------------------------------------------------

  /** A firmware that answers with response code `code` and the payload
      words `payload` in the value buffer, leaving every other word alone. */
  function Respond(request: Buffer, code: u32, payload: seq<u32>): (b: Buffer)
    requires |payload| <= 3
  {
    request[1 := code][5 := if |payload| > 0 then payload[0] else request[5]]
                      [6 := if |payload| > 1 then payload[1] else request[6]]
                      [7 := if |payload| > 2 then payload[2] else request[7]]
  }

  /** With a firmware that answers at once with success and the words `lo`
      and `hi`, the serial-number query on an aligned buffer returns the
      64-bit value whose halves are exactly those words. */
  lemma BoardSerialRoundTrip(mail: Buffer, bufPtr: u32, lo: u32, hi: u32)
    requires Mailbox.ChannelBits(bufPtr) == 0
    ensures GetBoardSerialOf(mail, Mailbox.PromptReply(bufPtr, Mailbox.ArmToVcProperty), bufPtr,
                             b => Respond(b, Mailbox.SUCCESS_CODE, [lo, hi])).outcome
            == Some(Ok(Join(hi, lo)))
  {
    var fw := (b: Buffer) => Respond(b, Mailbox.SUCCESS_CODE, [lo, hi]);
    var x := GetBoardSerialOf(mail, Mailbox.PromptReply(bufPtr, Mailbox.ArmToVcProperty), bufPtr, fw);
    Mailbox.PromptReplyAnswers(bufPtr, Mailbox.ArmToVcProperty, x.response[1]);
    JoinSplit(x.outcome.value.value);
  }

  /** With a firmware that echoes the request back with success, setting a
      clock rate reports the clock's identifier and the requested rate: the
      decoded pair is the request's own words 5 and 6. */
  lemma SetClockRateEcho(mail: Buffer, clock: Clock, speed: u32, skipTurbo: u32, bufPtr: u32)
    requires Mailbox.ChannelBits(bufPtr) == 0
    ensures SetClockRateOf(mail, clock, speed, skipTurbo, Mailbox.PromptReply(bufPtr, Mailbox.ArmToVcProperty), bufPtr,
                           b => Respond(b, Mailbox.SUCCESS_CODE, [])).outcome
            == Some(Ok((ClockId(clock), speed)))
  {
    var fw := (b: Buffer) => Respond(b, Mailbox.SUCCESS_CODE, []);
    var x := SetClockRateOf(mail, clock, speed, skipTurbo, Mailbox.PromptReply(bufPtr, Mailbox.ArmToVcProperty), bufPtr, fw);
    Mailbox.PromptReplyAnswers(bufPtr, Mailbox.ArmToVcProperty, x.response[1]);
    assert x.request[5..8] == [ClockId(clock), speed, skipTurbo];
    assert x.request[5] == ClockId(clock) && x.request[6] == speed;
  }

  /** A firmware that rejects the request makes every builder fail with
      `ResponseError` and decode nothing; shown for the rate query. */
  lemma RejectedRequestFails(mail: Buffer, clock: Clock, bufPtr: u32)
    requires Mailbox.ChannelBits(bufPtr) == 0
    ensures GetClockRateOf(mail, clock, Mailbox.PromptReply(bufPtr, Mailbox.ArmToVcProperty), bufPtr,
                           b => Respond(b, Mailbox.ERROR_CODE, [])).outcome
            == Some(Err(Mailbox.ResponseError))
  {
    var fw := (b: Buffer) => Respond(b, Mailbox.ERROR_CODE, []);
    var x := GetClockRateOf(mail, clock, Mailbox.PromptReply(bufPtr, Mailbox.ArmToVcProperty), bufPtr, fw);
    Mailbox.PromptReplyAnswers(bufPtr, Mailbox.ArmToVcProperty, x.response[1]);
  }
}
