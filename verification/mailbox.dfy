/** The VideoCore mailbox (`bcm2xxx_mailbox.rs`): the polling handshake that
    hands a property buffer to the firmware and waits for the matching reply.

    The hardware is a finite trace of the values successive register reads
    return, in program order: the program itself decides whether a read goes
    to STATUS or to READ[0]. Every spin loop of the driver consumes readings
    from the trace; a trace that runs out before the reply arrives is the
    driver spinning forever, reported as `None`. */
module Mailbox {
  import opened Results
  import opened Words
  import Sync
  import Interface

  /** STATUS bit 31: the write side of the mailbox is full. */
  predicate IsFull(status: u32) {
    (status / 0x8000_0000) % 2 == 1
  }

  /** STATUS bit 30: the read side of the mailbox is empty. */
  predicate IsEmpty(status: u32) {
    (status / 0x4000_0000) % 2 == 1
  }

  /** `w & 0xF`: the low nibble of a mailbox word, which carries the channel. */
  function ChannelBits(w: u32): u32 {
    w % 16
  }

  /** `w & !0xF`: the upper 28 bits of a mailbox word, which carry the
      buffer address. */
  function AddressBits(w: u32): u32 {
    w - w % 16
  }

  // ---------------------------------------------------------------------------
  // Channels
  // ---------------------------------------------------------------------------

  /** The logical services multiplexed over the one physical mailbox. */
  datatype Channel =
    | PowerManagement
    | Framebuffer
    | VirtualUart
    | Vchiq
    | Leds
    | Buttons
    | TouchScreen
    | Count
    | ArmToVcProperty
    | VcToArmProperty

  /** `channel as u32`: the enum discriminant, 0 to 9 in declaration order.
      Every channel fits the four bits the mailbox word reserves for it. */
  function ChannelNumber(c: Channel): (n: u32)
    ensures n < 10
    ensures c == ArmToVcProperty <==> n == 8
  {
    match c
    case PowerManagement => 0
    case Framebuffer => 1
    case VirtualUart => 2
    case Vchiq => 3
    case Leds => 4
    case Buttons => 5
    case TouchScreen => 6
    case Count => 7
    case ArmToVcProperty => 8
    case VcToArmProperty => 9
  }

  /** The channel a discriminant names, if any. */
  function ChannelOf(n: nat): (c: Option<Channel>)
    ensures c.Some? <==> n < 10
    ensures c.Some? ==> ChannelNumber(c.value) == n
  {
    if n == 0 then Some(PowerManagement)
    else if n == 1 then Some(Framebuffer)
    else if n == 2 then Some(VirtualUart)
    else if n == 3 then Some(Vchiq)
    else if n == 4 then Some(Leds)
    else if n == 5 then Some(Buttons)
    else if n == 6 then Some(TouchScreen)
    else if n == 7 then Some(Count)
    else if n == 8 then Some(ArmToVcProperty)
    else if n == 9 then Some(VcToArmProperty)
    else None
  }

  /** Distinct channels have distinct discriminants. */
  lemma ChannelNumberInjective(c: Channel, d: Channel)
    requires ChannelNumber(c) == ChannelNumber(d)
    ensures c == d
  {
  }

  // ---------------------------------------------------------------------------
  // Response codes
  // ---------------------------------------------------------------------------

  /** The firmware's response codes as the driver classifies them. */
  datatype Response = Success | Error | UnknownError

  const SUCCESS_CODE: u32 := 0x8000_0000
  const ERROR_CODE: u32 := 0x8000_0001

  /** The enum discriminants of `Response`. */
  function Discriminant(r: Response): u32 {
    match r
    case Success => SUCCESS_CODE
    case Error => ERROR_CODE
    case UnknownError => 0
  }

  /** `Response::from`: total; only the two documented codes are recognised,
      every other word is an unknown error. */
  function ResponseFrom(value: u32): (r: Response)
    ensures r.Success? <==> value == SUCCESS_CODE
    ensures r.Error? <==> value == ERROR_CODE
    ensures r.UnknownError? <==> value != SUCCESS_CODE && value != ERROR_CODE
  {
    if value == SUCCESS_CODE then Success
    else if value == ERROR_CODE then Error
    else Response.UnknownError
  }

  /** Classifying a response's own discriminant gives that response back. */
  lemma ResponseFromDiscriminant(r: Response)
    ensures ResponseFrom(Discriminant(r)) == r
  {
  }

  /** `MboxError`: why a mailbox call failed. */
  datatype MboxError = ResponseError | UnknownError

  type MboxResult = Result<(), MboxError>

  /** The outcome of a call once the matching reply has arrived, decided by
      the response-code word (buffer word 1) alone: exactly one of success,
      a rejected request, or an unrecognised code. */
  function Complete(word1: u32): (r: MboxResult)
    ensures r.Ok? <==> word1 == SUCCESS_CODE
    ensures r == Err(ResponseError) <==> word1 == ERROR_CODE
    ensures r == Err(MboxError.UnknownError) <==> word1 != SUCCESS_CODE && word1 != ERROR_CODE
  {
    match ResponseFrom(word1)
    case Success => Ok(())
    case Error => Err(ResponseError)
    case UnknownError => Err(MboxError.UnknownError)
  }

  // ---------------------------------------------------------------------------
  // The words on the wire
  // ---------------------------------------------------------------------------

  /** The word written to WRITE[0]: the buffer address in the upper 28 bits,
      the channel in the low nibble. */
  function SendWord(bufPtr: u32, channel: Channel): (w: u32)
    ensures ChannelBits(w) == ChannelNumber(channel)
    ensures AddressBits(w) == AddressBits(bufPtr)
  {
    // the OR of two disjoint bit ranges is their sum
    AddressBits(bufPtr) + ChannelBits(ChannelNumber(channel))
  }

  /** Whether a word read from READ[0] answers this call: its channel nibble
      is the call's channel and its upper bits are the buffer address. */
  predicate IsReply(resp: u32, channel: Channel, bufPtr: u32) {
    ChannelBits(resp) == ChannelNumber(channel) && AddressBits(resp) == bufPtr
  }

  /** For a 16-byte aligned buffer the reply test is exactly "the firmware
      echoed the word that was sent". */
  lemma ReplyIsEchoOfSend(resp: u32, channel: Channel, bufPtr: u32)
    requires ChannelBits(bufPtr) == 0
    ensures IsReply(resp, channel, bufPtr) <==> resp == SendWord(bufPtr, channel)
  {
  }

  /** A buffer whose address is not 16-byte aligned can never be answered:
      no word has address bits with a non-zero low nibble. The mail buffer's
      alignment is what keeps the call from spinning forever. */
  lemma MisalignedNeverAnswered(resp: u32, channel: Channel, bufPtr: u32)
    requires ChannelBits(bufPtr) != 0
    ensures !IsReply(resp, channel, bufPtr)
  {
  }

  /** A reply for one channel is never taken as the reply for another. */
  lemma OtherChannelNeverAnswers(resp: u32, c: Channel, d: Channel, bufPtr: u32)
    requires c != d && IsReply(resp, c, bufPtr)
    ensures !IsReply(resp, d, bufPtr)
  {
    if ChannelNumber(c) == ChannelNumber(d) {
      ChannelNumberInjective(c, d);
    }
  }

  // ---------------------------------------------------------------------------
  // The handshake
  // ---------------------------------------------------------------------------

  /** One register access of the call, with the value read or written. */
  datatype Access = StatusRead(status: u32) | MailWrite(word: u32) | ReplyRead(word: u32)

  /** What a call did: its result (`None` if it was still spinning when the
      trace ran out) and its register accesses in order. */
  datatype Handshake = Handshake(result: Option<MboxResult>, log: seq<Access>)

  /** The value one access reads: none for the write. */
  function ReadOf(a: Access): seq<u32> {
    match a
    case StatusRead(s) => [s]
    case ReplyRead(w) => [w]
    case MailWrite(_) => []
  }

  /** The values the accesses of a log read, in order. */
  function Reads(log: seq<Access>): (vs: seq<u32>)
    ensures |vs| <= |log|
  {
    if |log| == 0 then [] else ReadOf(log[0]) + Reads(log[1..])
  }

  /** Reading a log in two parts reads each part in turn. */
  lemma {:induction false} ReadsAppend(a: seq<Access>, b: seq<Access>)
    ensures Reads(a + b) == Reads(a) + Reads(b)
    decreases |a|
  {
    if |a| == 0 {
      assert a + b == b;
    } else {
      assert (a + b)[0] == a[0];
      assert (a + b)[1..] == a[1..] + b;
      ReadsAppend(a[1..], b);
      calc {
        Reads(a + b);
        ReadOf(a[0]) + Reads(a[1..] + b);
        ReadOf(a[0]) + (Reads(a[1..]) + Reads(b));
        (ReadOf(a[0]) + Reads(a[1..])) + Reads(b);
      }
    }
  }

  /** Nothing is written to the mailbox while it reports FULL: the one write
      carries `word` and immediately follows the first status reading with
      FULL clear, every earlier access being a FULL status reading. */
  ghost predicate WritesWhenNotFull(log: seq<Access>, word: u32) {
    forall i | 0 <= i < |log| && log[i].MailWrite? ::
      && log[i].word == word
      && 1 <= i && log[i - 1].StatusRead? && !IsFull(log[i - 1].status)
      && (forall j | 0 <= j < i - 1 :: log[j].StatusRead? && IsFull(log[j].status))
      && (forall j | i < j < |log| :: !log[j].MailWrite?)
  }

  ghost predicate NoWrites(log: seq<Access>) {
    forall i | 0 <= i < |log| :: !log[i].MailWrite?
  }

  /** Only FULL status readings: the call is still waiting to send. */
  ghost predicate WaitingToSend(log: seq<Access>) {
    forall i | 0 <= i < |log| :: log[i].StatusRead? && IsFull(log[i].status)
  }

  ghost predicate HasWrite(log: seq<Access>) {
    exists i | 0 <= i < |log| :: log[i].MailWrite?
  }

  /** READ[0] is read only right after a status reading with EMPTY clear. */
  ghost predicate ReadsWhenNotEmpty(log: seq<Access>) {
    forall i | 0 <= i < |log| && log[i].ReplyRead? ::
      1 <= i && log[i - 1].StatusRead? && !IsEmpty(log[i - 1].status)
  }

  /** Conversely, a status reading with EMPTY clear is followed by a read of
      READ[0], unless the log ends there: mail that is present is read. */
  ghost predicate ReadsWhenMail(log: seq<Access>) {
    forall i | 0 <= i < |log| - 1 && log[i].StatusRead? && !IsEmpty(log[i].status) :: log[i + 1].ReplyRead?
  }

  /** After the write, the call reads every mail the status shows present. */
  ghost predicate ReadsMailAfterWrite(log: seq<Access>) {
    forall k | 0 <= k < |log| && log[k].MailWrite? :: ReadsWhenMail(log[k + 1..])
  }

  /** Every reply word in the log was a non-match, consumed and skipped. */
  ghost predicate SkipsOthers(log: seq<Access>, channel: Channel, bufPtr: u32) {
    forall i | 0 <= i < |log| && log[i].ReplyRead? :: !IsReply(log[i].word, channel, bufPtr)
  }

  /** A call that returned: it stopped at the first matching reply, skipping
      every earlier one, and its result is decided by word 1 of the buffer. */
  ghost predicate Answered(h: Handshake, channel: Channel, bufPtr: u32, word1: u32) {
    && |h.log| > 0
    && h.log[|h.log| - 1].ReplyRead?
    && IsReply(h.log[|h.log| - 1].word, channel, bufPtr)
    && SkipsOthers(h.log[..|h.log| - 1], channel, bufPtr)
    && h.result == Some(Complete(word1))
  }

  /** A call that has not returned has skipped every reply it read; one that
      returned is answered. */
  ghost predicate Settled(h: Handshake, channel: Channel, bufPtr: u32, word1: u32) {
    && (h.result.None? ==> SkipsOthers(h.log, channel, bufPtr))
    && (h.result.Some? ==> Answered(h, channel, bufPtr, word1))
  }

  /** The accesses read exactly a prefix of the trace, and all of it when the
      call has not returned. */
  ghost predicate Consumes(h: Handshake, hw: seq<u32>) {
    && Reads(h.log) <= hw
    && (h.result.None? ==> Reads(h.log) == hw)
  }

  /** What the receive phase guarantees of the handshake `h` it produces from
      the trace `hw`: it never writes, reads READ[0] exactly after the status
      readings with EMPTY clear, reads a prefix of the trace (all of it when it
      has not returned), skips every non-matching reply and, when it returns,
      returns at the first matching one with the result word 1 decides. */
  ghost predicate ReceiveSpec(h: Handshake, hw: seq<u32>, channel: Channel, bufPtr: u32, word1: u32) {
    && NoWrites(h.log)
    && ReadsWhenNotEmpty(h.log)
    && ReadsWhenMail(h.log)
    && Consumes(h, hw)
    && Settled(h, channel, bufPtr, word1)
  }

  /** What the whole call guarantees: the receive phase's guarantees, plus
      that the only write carries the send word and comes right after the
      first status reading with FULL clear, and that a call that never wrote
      has seen nothing but FULL status readings, and after the write every
      status reading with EMPTY clear is followed by a read of READ[0]. */
  ghost predicate CallSpec(h: Handshake, hw: seq<u32>, channel: Channel, bufPtr: u32, word1: u32) {
    && WritesWhenNotFull(h.log, SendWord(bufPtr, channel))
    && (!HasWrite(h.log) ==> WaitingToSend(h.log))
    && ReadsWhenNotEmpty(h.log)
    && ReadsMailAfterWrite(h.log)
    && Consumes(h, hw)
    && Settled(h, channel, bufPtr, word1)
  }

  lemma ReadsWhenNotEmptyAppend(a: seq<Access>, b: seq<Access>)
    requires ReadsWhenNotEmpty(a) && ReadsWhenNotEmpty(b)
    ensures ReadsWhenNotEmpty(a + b)
  {
    forall i | 0 <= i < |a + b| && (a + b)[i].ReplyRead?
      ensures 1 <= i && (a + b)[i - 1].StatusRead? && !IsEmpty((a + b)[i - 1].status)
    {
      if i >= |a| {
        assert b[i - |a|].ReplyRead?;
      }
    }
  }

  /** A log that does not end on a status reading with EMPTY clear can be
      put in front of another without leaving such a reading unread. */
  lemma ReadsWhenMailAppend(a: seq<Access>, b: seq<Access>)
    requires ReadsWhenMail(a) && ReadsWhenMail(b)
    requires |a| > 0 ==> !(a[|a| - 1].StatusRead? && !IsEmpty(a[|a| - 1].status))
    ensures ReadsWhenMail(a + b)
  {
    var log := a + b;
    forall i | 0 <= i < |log| - 1 && log[i].StatusRead? && !IsEmpty(log[i].status)
      ensures log[i + 1].ReplyRead?
    {
      if i >= |a| {
        assert log[i] == b[i - |a|];
        assert log[i + 1] == b[i + 1 - |a|];
      } else if i < |a| - 1 {
        assert log[i] == a[i];
        assert log[i + 1] == a[i + 1];
      }
    }
  }

  lemma SettledPrefixed(pre: seq<Access>, h: Handshake, channel: Channel, bufPtr: u32, word1: u32)
    requires SkipsOthers(pre, channel, bufPtr) && Settled(h, channel, bufPtr, word1)
    ensures Settled(Prefixed(pre, h), channel, bufPtr, word1)
  {
    var g := Prefixed(pre, h);
    if h.result.None? {
      forall i | 0 <= i < |g.log| && g.log[i].ReplyRead?
        ensures !IsReply(g.log[i].word, channel, bufPtr)
      {
        if i >= |pre| {
          assert g.log[i] == h.log[i - |pre|];
        }
      }
    } else {
      assert g.log[..|g.log| - 1] == pre + h.log[..|h.log| - 1];
      var skipped := g.log[..|g.log| - 1];
      forall i | 0 <= i < |skipped| && skipped[i].ReplyRead?
        ensures !IsReply(skipped[i].word, channel, bufPtr)
      {
        if i >= |pre| {
          assert skipped[i] == h.log[..|h.log| - 1][i - |pre|];
        }
      }
    }
  }

  lemma ConsumesPrefixed(pre: seq<Access>, h: Handshake, read: seq<u32>, hw: seq<u32>)
    requires Reads(pre) == read && Consumes(h, hw)
    ensures Consumes(Prefixed(pre, h), read + hw)
  {
    ReadsAppend(pre, h.log);
  }

  /** One status reading with EMPTY set, then the rest of the receive phase. */
  lemma ReceiveWaitStep(hw: seq<u32>, rest: Handshake, channel: Channel, bufPtr: u32, word1: u32)
    requires |hw| > 0 && IsEmpty(hw[0])
    requires ReceiveSpec(rest, hw[1..], channel, bufPtr, word1)
    ensures ReceiveSpec(Prefixed([StatusRead(hw[0])], rest), hw, channel, bufPtr, word1)
  {
    var s := hw[0];
    assert [s] + hw[1..] == hw;
    assert Reads([StatusRead(s)]) == [s] by { assert [StatusRead(s)][1..] == []; }
    ReadsWhenNotEmptyAppend([StatusRead(s)], rest.log);
    ReadsWhenMailAppend([StatusRead(s)], rest.log);
    SettledPrefixed([StatusRead(s)], rest, channel, bufPtr, word1);
    ConsumesPrefixed([StatusRead(s)], rest, [s], hw[1..]);
  }

  /** A status reading with EMPTY clear and a reply word that is not ours,
      then the rest of the receive phase. */
  lemma ReceiveSkipStep(hw: seq<u32>, rest: Handshake, channel: Channel, bufPtr: u32, word1: u32)
    requires |hw| > 1 && !IsEmpty(hw[0]) && !IsReply(hw[1], channel, bufPtr)
    requires ReceiveSpec(rest, hw[2..], channel, bufPtr, word1)
    ensures ReceiveSpec(Prefixed([StatusRead(hw[0]), ReplyRead(hw[1])], rest), hw, channel, bufPtr, word1)
  {
    var s, w := hw[0], hw[1];
    assert [s, w] + hw[2..] == hw;
    var pre := [StatusRead(s), ReplyRead(w)];
    assert Reads(pre) == [s, w] by {
      assert pre[1..] == [ReplyRead(w)];
      assert pre[1..][1..] == [];
    }
    ReadsWhenNotEmptyAppend(pre, rest.log);
    ReadsWhenMailAppend(pre, rest.log);
    SettledPrefixed(pre, rest, channel, bufPtr, word1);
    ConsumesPrefixed(pre, rest, [s, w], hw[2..]);
  }

  /** A last status reading with EMPTY clear, and the trace ends before
      READ[0] can be read. */
  lemma ReceiveRunsOut(s: u32, channel: Channel, bufPtr: u32, word1: u32)
    requires !IsEmpty(s)
    ensures ReceiveSpec(Handshake(None, [StatusRead(s)]), [s], channel, bufPtr, word1)
  {
    assert [StatusRead(s)][1..] == [];
  }

  /** A status reading with EMPTY clear and the reply that answers the call. */
  lemma ReceiveAnswered(hw: seq<u32>, channel: Channel, bufPtr: u32, word1: u32)
    requires |hw| > 1 && !IsEmpty(hw[0]) && IsReply(hw[1], channel, bufPtr)
    ensures ReceiveSpec(Handshake(Some(Complete(word1)), [StatusRead(hw[0]), ReplyRead(hw[1])]), hw, channel, bufPtr, word1)
  {
    var s, w := hw[0], hw[1];
    assert [s, w] <= hw;
    var log := [StatusRead(s), ReplyRead(w)];
    assert log[1..] == [ReplyRead(w)];
    assert log[1..][1..] == [];
    assert Reads(log) == [s, w];
    assert log[..|log| - 1] == [StatusRead(s)];
  }

  /** The receive phase: poll STATUS until EMPTY is clear, read READ[0], and
      stop at the first word that answers this call. `word1` is the response
      code the firmware has left in the buffer when its reply arrives. */
  function Receive(hw: seq<u32>, channel: Channel, bufPtr: u32, word1: u32): (h: Handshake)
    ensures |h.log| <= |hw|
    ensures h.result.Some? ==> h.result.value == Complete(word1)
    decreases |hw|
  {
    if |hw| == 0 then Handshake(None, [])
    else if IsEmpty(hw[0]) then
      Prefixed([StatusRead(hw[0])], Receive(hw[1..], channel, bufPtr, word1))
    else if |hw| == 1 then
      Handshake(None, [StatusRead(hw[0])])
    else if IsReply(hw[1], channel, bufPtr) then
      Handshake(Some(Complete(word1)), [StatusRead(hw[0]), ReplyRead(hw[1])])
    else
      Prefixed([StatusRead(hw[0]), ReplyRead(hw[1])], Receive(hw[2..], channel, bufPtr, word1))
  }

  /** The receive phase never writes, reads READ[0] exactly after the status
      readings with EMPTY clear, consumes a prefix of the trace (all of it
      while still waiting), and returns exactly at the first matching reply
      with the outcome word 1 decides. */
  lemma {:induction false} ReceiveMeetsSpec(hw: seq<u32>, channel: Channel, bufPtr: u32, word1: u32)
    ensures ReceiveSpec(Receive(hw, channel, bufPtr, word1), hw, channel, bufPtr, word1)
    decreases |hw|
  {
    var h := Receive(hw, channel, bufPtr, word1);
    if |hw| == 0 {
    } else if IsEmpty(hw[0]) {
      var rest := Receive(hw[1..], channel, bufPtr, word1);
      ReceiveMeetsSpec(hw[1..], channel, bufPtr, word1);
      ReceiveWaitStep(hw, rest, channel, bufPtr, word1);
      assert h == Prefixed([StatusRead(hw[0])], rest);
    } else if |hw| == 1 {
      ReceiveRunsOut(hw[0], channel, bufPtr, word1);
      assert [hw[0]] == hw;
    } else if IsReply(hw[1], channel, bufPtr) {
      ReceiveAnswered(hw, channel, bufPtr, word1);
    } else {
      var rest := Receive(hw[2..], channel, bufPtr, word1);
      ReceiveMeetsSpec(hw[2..], channel, bufPtr, word1);
      ReceiveSkipStep(hw, rest, channel, bufPtr, word1);
      assert h == Prefixed([StatusRead(hw[0]), ReplyRead(hw[1])], rest);
    }
  }

  /** A FULL status reading in front of a log keeps its write discipline,
      and keeps "still waiting to send" when the log has no write. */
  lemma WaitBeforeWrite(s: u32, word: u32, rest: seq<Access>)
    requires IsFull(s)
    requires WritesWhenNotFull(rest, word) && (!HasWrite(rest) ==> WaitingToSend(rest))
    ensures WritesWhenNotFull([StatusRead(s)] + rest, word)
    ensures !HasWrite([StatusRead(s)] + rest) ==> WaitingToSend([StatusRead(s)] + rest)
  {
    var log := [StatusRead(s)] + rest;
    forall i | 0 <= i < |log| && log[i].MailWrite?
      ensures && log[i].word == word
              && 1 <= i && log[i - 1].StatusRead? && !IsFull(log[i - 1].status)
              && (forall j | 0 <= j < i - 1 :: log[j].StatusRead? && IsFull(log[j].status))
              && (forall j | i < j < |log| :: !log[j].MailWrite?)
    {
      assert rest[i - 1].MailWrite?;
      forall j | 0 <= j < i - 1
        ensures log[j].StatusRead? && IsFull(log[j].status)
      {
        if j > 0 {
          assert log[j] == rest[j - 1];
        }
      }
      forall j | i < j < |log|
        ensures !log[j].MailWrite?
      {
        assert log[j] == rest[j - 1];
      }
    }
    if !HasWrite(log) {
      forall i | 0 <= i < |rest|
        ensures !rest[i].MailWrite?
      {
        assert log[i + 1] == rest[i];
      }
      assert WaitingToSend(rest);
      forall i | 0 <= i < |log|
        ensures log[i].StatusRead? && IsFull(log[i].status)
      {
        if i > 0 {
          assert log[i] == rest[i - 1];
        }
      }
    }
  }

  /** A status reading in front of a log moves its write one place on and
      leaves what follows the write as it was. */
  lemma ReadsMailAfterWritePrefixed(s: u32, rest: seq<Access>)
    requires ReadsMailAfterWrite(rest)
    ensures ReadsMailAfterWrite([StatusRead(s)] + rest)
  {
    var log := [StatusRead(s)] + rest;
    forall k | 0 <= k < |log| && log[k].MailWrite?
      ensures ReadsWhenMail(log[k + 1..])
    {
      assert log[k] == rest[k - 1];
      assert log[k + 1..] == rest[k..];
    }
  }

  /** One status reading with FULL set, then the rest of the call. */
  lemma SendWaitStep(hw: seq<u32>, rest: Handshake, channel: Channel, bufPtr: u32, word1: u32)
    requires |hw| > 0 && IsFull(hw[0])
    requires CallSpec(rest, hw[1..], channel, bufPtr, word1)
    ensures CallSpec(Prefixed([StatusRead(hw[0])], rest), hw, channel, bufPtr, word1)
  {
    var s := hw[0];
    assert [s] + hw[1..] == hw;
    assert Reads([StatusRead(s)]) == [s] by { assert [StatusRead(s)][1..] == []; }
    ReadsWhenNotEmptyAppend([StatusRead(s)], rest.log);
    SettledPrefixed([StatusRead(s)], rest, channel, bufPtr, word1);
    ConsumesPrefixed([StatusRead(s)], rest, [s], hw[1..]);
    WaitBeforeWrite(s, SendWord(bufPtr, channel), rest.log);
    ReadsMailAfterWritePrefixed(s, rest.log);
  }

  /** A log that writes `word` once, at index 1, right after a status
      reading with FULL clear, followed by accesses that never write. */
  lemma WriteAtOne(s: u32, word: u32, rest: seq<Access>)
    requires !IsFull(s) && NoWrites(rest)
    ensures WritesWhenNotFull([StatusRead(s), MailWrite(word)] + rest, word)
    ensures HasWrite([StatusRead(s), MailWrite(word)] + rest)
  {
    var log := [StatusRead(s), MailWrite(word)] + rest;
    assert log[1].MailWrite?;
    forall j | 1 < j < |log|
      ensures !log[j].MailWrite?
    {
      assert log[j] == rest[j - 2];
    }
  }

  /** The first status reading with FULL clear, the write, then the receive
      phase. */
  lemma SendWriteStep(hw: seq<u32>, rest: Handshake, channel: Channel, bufPtr: u32, word1: u32)
    requires |hw| > 0 && !IsFull(hw[0])
    requires ReceiveSpec(rest, hw[1..], channel, bufPtr, word1)
    ensures CallSpec(Prefixed([StatusRead(hw[0]), MailWrite(SendWord(bufPtr, channel))], rest), hw, channel, bufPtr, word1)
  {
    var s := hw[0];
    assert [s] + hw[1..] == hw;
    var word := SendWord(bufPtr, channel);
    var pre := [StatusRead(s), MailWrite(word)];
    assert Reads(pre) == [s] by {
      assert pre[1..] == [MailWrite(word)];
      assert pre[1..][1..] == [];
    }
    ReadsWhenNotEmptyAppend(pre, rest.log);
    SettledPrefixed(pre, rest, channel, bufPtr, word1);
    ConsumesPrefixed(pre, rest, [s], hw[1..]);
    WriteAtOne(s, word, rest.log);
    var log := pre + rest.log;
    forall k | 0 <= k < |log| && log[k].MailWrite?
      ensures ReadsWhenMail(log[k + 1..])
    {
      assert k == 1;
      assert log[2..] == rest.log;
    }
  }

  /** `MboxInner::call`: poll STATUS until FULL is clear, write the buffer
      address tagged with the channel, then receive. */
  function Call(hw: seq<u32>, bufPtr: u32, channel: Channel, word1: u32): (h: Handshake)
    ensures |h.log| <= |hw| + 1
    ensures h.result.Some? ==> h.result.value == Complete(word1)
    decreases |hw|
  {
    if |hw| == 0 then Handshake(None, [])
    else if IsFull(hw[0]) then
      Prefixed([StatusRead(hw[0])], Call(hw[1..], bufPtr, channel, word1))
    else
      Prefixed([StatusRead(hw[0]), MailWrite(SendWord(bufPtr, channel))], Receive(hw[1..], channel, bufPtr, word1))
  }

  /** The whole call: it writes once, only after STATUS has reported FULL
      clear, and the word it writes is the buffer address tagged with the
      channel; until then it has seen only FULL readings; afterwards it
      behaves as the receive phase promises. */
  lemma {:induction false} CallMeetsSpec(hw: seq<u32>, bufPtr: u32, channel: Channel, word1: u32)
    ensures CallSpec(Call(hw, bufPtr, channel, word1), hw, channel, bufPtr, word1)
    decreases |hw|
  {
    var h := Call(hw, bufPtr, channel, word1);
    if |hw| == 0 {
    } else if IsFull(hw[0]) {
      var rest := Call(hw[1..], bufPtr, channel, word1);
      CallMeetsSpec(hw[1..], bufPtr, channel, word1);
      SendWaitStep(hw, rest, channel, bufPtr, word1);
      assert h == Prefixed([StatusRead(hw[0])], rest);
    } else {
      var rest := Receive(hw[1..], channel, bufPtr, word1);
      ReceiveMeetsSpec(hw[1..], channel, bufPtr, word1);
      SendWriteStep(hw, rest, channel, bufPtr, word1);
      assert h == Prefixed([StatusRead(hw[0]), MailWrite(SendWord(bufPtr, channel))], rest);
    }
  }

  /** The trace of a firmware that answers at once: STATUS reads FULL clear,
      STATUS reads EMPTY clear, and READ[0] returns the word that was sent. */
  function PromptReply(bufPtr: u32, channel: Channel): seq<u32> {
    [0, 0, SendWord(bufPtr, channel)]
  }

  /** When the firmware answers at once, a call on an aligned buffer sends,
      takes the echo as its reply, and returns what word 1 decides. */
  lemma PromptReplyAnswers(bufPtr: u32, channel: Channel, word1: u32)
    requires ChannelBits(bufPtr) == 0
    ensures Call(PromptReply(bufPtr, channel), bufPtr, channel, word1).result == Some(Complete(word1))
  {
    var hw := PromptReply(bufPtr, channel);
    ReplyIsEchoOfSend(hw[2], channel, bufPtr);
    assert hw[1..] == [0, SendWord(bufPtr, channel)];
    assert hw[1..][1] == hw[2];
  }

  /** Putting two logs in front, one after the other, puts their
      concatenation in front. */
  lemma PrefixedTwice(a: seq<Access>, b: seq<Access>, h: Handshake)
    ensures Prefixed(a, Prefixed(b, h)) == Prefixed(a + b, h)
  {
    assert a + (b + h.log) == (a + b) + h.log;
  }

  lemma CallWaitUnfold(hw: seq<u32>, pos: nat, bufPtr: u32, channel: Channel, word1: u32)
    requires pos < |hw| && IsFull(hw[pos])
    ensures Call(hw[pos..], bufPtr, channel, word1)
         == Prefixed([StatusRead(hw[pos])], Call(hw[pos + 1..], bufPtr, channel, word1))
  {
    assert hw[pos..][1..] == hw[pos + 1..];
  }

  lemma CallWriteUnfold(hw: seq<u32>, pos: nat, bufPtr: u32, channel: Channel, word1: u32)
    requires pos < |hw| && !IsFull(hw[pos])
    ensures Call(hw[pos..], bufPtr, channel, word1)
         == Prefixed([StatusRead(hw[pos]), MailWrite(SendWord(bufPtr, channel))], Receive(hw[pos + 1..], channel, bufPtr, word1))
  {
    assert hw[pos..][1..] == hw[pos + 1..];
  }

  lemma ReceiveWaitUnfold(hw: seq<u32>, pos: nat, channel: Channel, bufPtr: u32, word1: u32)
    requires pos < |hw| && IsEmpty(hw[pos])
    ensures Receive(hw[pos..], channel, bufPtr, word1)
         == Prefixed([StatusRead(hw[pos])], Receive(hw[pos + 1..], channel, bufPtr, word1))
  {
    assert hw[pos..][1..] == hw[pos + 1..];
  }

  lemma ReceiveReadUnfold(hw: seq<u32>, pos: nat, channel: Channel, bufPtr: u32, word1: u32)
    requires pos + 1 < |hw| && !IsEmpty(hw[pos])
    ensures IsReply(hw[pos + 1], channel, bufPtr) ==>
      Receive(hw[pos..], channel, bufPtr, word1)
        == Handshake(Some(Complete(word1)), [StatusRead(hw[pos]), ReplyRead(hw[pos + 1])])
    ensures !IsReply(hw[pos + 1], channel, bufPtr) ==>
      Receive(hw[pos..], channel, bufPtr, word1)
        == Prefixed([StatusRead(hw[pos]), ReplyRead(hw[pos + 1])], Receive(hw[pos + 2..], channel, bufPtr, word1))
  {
    assert hw[pos..][1] == hw[pos + 1];
    assert hw[pos..][2..] == hw[pos + 2..];
  }

  /** The send phase as the driver runs it: spin on FULL, then write. Returns
      the accesses so far and the trace position the receive phase starts
      at, or `None` if the trace ran out first. */
  method SendLoop(hw: seq<u32>, bufPtr: u32, channel: Channel, word1: u32) returns (log: seq<Access>, pos: Option<nat>)
    ensures pos.None? ==> Call(hw, bufPtr, channel, word1) == Handshake(None, log)
    ensures pos.Some? ==> pos.value <= |hw|
    ensures pos.Some? ==> Call(hw, bufPtr, channel, word1) == Prefixed(log, Receive(hw[pos.value..], channel, bufPtr, word1))
  {
    var p := 0;
    log := [];
    // wait until we can write to the mailbox
    while p < |hw| && IsFull(hw[p])
      invariant p <= |hw|
      invariant Call(hw, bufPtr, channel, word1) == Prefixed(log, Call(hw[p..], bufPtr, channel, word1))
    {
      CallWaitUnfold(hw, p, bufPtr, channel, word1);
      PrefixedTwice(log, [StatusRead(hw[p])], Call(hw[p + 1..], bufPtr, channel, word1));
      log := log + [StatusRead(hw[p])];
      p := p + 1;
    }
    if p == |hw| {
      assert log + [] == log;
      return log, None;
    }
    CallWriteUnfold(hw, p, bufPtr, channel, word1);
    PrefixedTwice(log, [StatusRead(hw[p]), MailWrite(SendWord(bufPtr, channel))], Receive(hw[p + 1..], channel, bufPtr, word1));
    log := log + [StatusRead(hw[p]), MailWrite(SendWord(bufPtr, channel))];
    pos := Some(p + 1);
  }

  /** The receive phase as the driver runs it, from trace position `start`:
      an outer loop over reply words with an inner spin on EMPTY. */
  method ReceiveLoop(hw: seq<u32>, start: nat, channel: Channel, bufPtr: u32, word1: u32) returns (h: Handshake)
    requires start <= |hw|
    ensures h == Receive(hw[start..], channel, bufPtr, word1)
  {
    var pos := start;
    var log: seq<Access> := [];
    while true
      invariant start <= pos <= |hw|
      invariant Receive(hw[start..], channel, bufPtr, word1) == Prefixed(log, Receive(hw[pos..], channel, bufPtr, word1))
      decreases |hw| - pos
    {
      // is there a response?
      log, pos := AwaitMail(hw, start, pos, log, channel, bufPtr, word1);
      var done;
      done, h, log, pos := ReadMail(hw, start, pos, log, channel, bufPtr, word1);
      if done {
        return;
      }
    }
  }

  /** One pass of the receive loop after the wait: read the reply and stop
      if it answers this call, or skip it and go round again. */
  method ReadMail(hw: seq<u32>, start: nat, pos0: nat, log0: seq<Access>, channel: Channel, bufPtr: u32, word1: u32)
    returns (done: bool, h: Handshake, log: seq<Access>, pos: nat)
    requires start <= pos0 <= |hw|
    requires pos0 < |hw| ==> !IsEmpty(hw[pos0])
    requires Receive(hw[start..], channel, bufPtr, word1) == Prefixed(log0, Receive(hw[pos0..], channel, bufPtr, word1))
    ensures done ==> h == Receive(hw[start..], channel, bufPtr, word1)
    ensures !done ==> pos0 < pos <= |hw|
    ensures !done ==> Receive(hw[start..], channel, bufPtr, word1) == Prefixed(log, Receive(hw[pos..], channel, bufPtr, word1))
  {
    log, pos := log0, pos0;
    if pos == |hw| {
      assert log + [] == log;
      return true, Handshake(None, log), log, pos;
    }
    if pos + 1 == |hw| {
      assert hw[pos..] == [hw[pos]];
      return true, Handshake(None, log + [StatusRead(hw[pos])]), log, pos;
    }
    var resp := hw[pos + 1];
    ReceiveReadUnfold(hw, pos, channel, bufPtr, word1);
    // is it a response to our message?
    if IsReply(resp, channel, bufPtr) {
      return true, Handshake(Some(Complete(word1)), log + [StatusRead(hw[pos]), ReplyRead(resp)]), log, pos;
    }
    PrefixedTwice(log, [StatusRead(hw[pos]), ReplyRead(resp)], Receive(hw[pos + 2..], channel, bufPtr, word1));
    log := log + [StatusRead(hw[pos]), ReplyRead(resp)];
    pos := pos + 2;
    h := Handshake(None, log);
    done := false;
  }

  /** The receive loop's wait for mail: status readings are logged while
      the mailbox is empty, and the handshake still to come keeps its
      place in `Receive`. */
  method AwaitMail(hw: seq<u32>, start: nat, pos0: nat, log0: seq<Access>, channel: Channel, bufPtr: u32, word1: u32)
    returns (log: seq<Access>, pos: nat)
    requires start <= pos0 <= |hw|
    requires Receive(hw[start..], channel, bufPtr, word1) == Prefixed(log0, Receive(hw[pos0..], channel, bufPtr, word1))
    ensures pos0 <= pos <= |hw|
    ensures pos < |hw| ==> !IsEmpty(hw[pos])
    ensures Receive(hw[start..], channel, bufPtr, word1) == Prefixed(log, Receive(hw[pos..], channel, bufPtr, word1))
  {
    log, pos := log0, pos0;
    while pos < |hw| && IsEmpty(hw[pos])
      invariant pos0 <= pos <= |hw|
      invariant Receive(hw[start..], channel, bufPtr, word1) == Prefixed(log, Receive(hw[pos..], channel, bufPtr, word1))
    {
      ReceiveWaitUnfold(hw, pos, channel, bufPtr, word1);
      PrefixedTwice(log, [StatusRead(hw[pos])], Receive(hw[pos + 1..], channel, bufPtr, word1));
      log := log + [StatusRead(hw[pos])];
      pos := pos + 1;
    }
  }

  /** The handshake as the driver runs it: the send loop, then the receive
      loop. It does exactly what `Call` describes. */
  method CallLoop(hw: seq<u32>, bufPtr: u32, channel: Channel, word1: u32) returns (h: Handshake)
    ensures h == Call(hw, bufPtr, channel, word1)
  {
    var log, pos := SendLoop(hw, bufPtr, channel, word1);
    if pos.None? {
      return Handshake(None, log);
    }
    var rest := ReceiveLoop(hw, pos.value, channel, bufPtr, word1);
    h := Prefixed(log, rest);
  }

  /** `h` with `log` put in front of its accesses. */
  function Prefixed(log: seq<Access>, h: Handshake): Handshake {
    Handshake(h.result, log + h.log)
  }

  // ---------------------------------------------------------------------------
  // The driver
  // ---------------------------------------------------------------------------

  /** `MboxInner`: the register block's base address. */
  datatype MboxInner = MboxInner(baseAddr: nat)

  /** `Mbox`: the mailbox state behind its ownership cell. */
  datatype Mbox = Mbox(inner: Sync.NullLock<MboxInner>)

  const COMPATIBLE: string := "BCM2XXX Mailbox"

  function NewMbox(baseAddr: nat): (m: Mbox)
    ensures m.inner.data.baseAddr == baseAddr
  {
    Mbox(Sync.New(MboxInner(baseAddr)))
  }

  /** `Mbox::call`: the handshake run through the lock. The caller gets the
      handshake's own outcome, and the mailbox state is left as it was. */
  function MboxCall(m: Mbox, hw: seq<u32>, bufPtr: u32, channel: Channel, word1: u32): (r: (Mbox, Handshake))
    ensures r.0 == m
    ensures r.1 == Call(hw, bufPtr, channel, word1)
  {
    var (l, h) := Sync.Lock(m.inner, (inner: MboxInner) => (inner, Call(hw, bufPtr, channel, word1)));
    (Mbox(l), h)
  }

  /** The mailbox needs no setup: it keeps the default `init`. */
  function MboxInit(m: Mbox): (r: Interface.DriverResult)
    ensures r.Ok?
  {
    Interface.DefaultInit()
  }
}
