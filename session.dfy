/** The host side of the MBIM control channel as a value: one field per
    global of the device layer (buffer size, buffer, descriptor, expected reply
    tag, no_close, return_code, the watchdog timer) and one function per
    callback that maps the state before the callback to the state after it.
    The results of system calls and of the command handler are parameters;
    calls out of the device layer are appended to an event trace. */
module MbimSession {
  import opened MbimWire

  /** The deadline the watchdog is armed with after every successful write. */
  const WATCHDOG_MS: nat := 15000

  /** The buffer size used when the capability query fails. */
  const FALLBACK_BUFSIZE: nat := 512

  /** mbim_buffer: released (NULL) or allocated with its bytes. */
  datatype Buffer = Freed | Allocated(bytes: seq<byte>)

  /** The one-shot watchdog `tout`: not pending, or pending with a deadline. */
  datatype Timer = Idle | Armed(ms: nat)

  /** A call out of the device layer. */
  datatype Event =
    | FdAdded(fd: int)      // the descriptor registered with the event loop
    | Write(len: u32)       // write() of len bytes from the buffer
    | TimeoutSet(ms: nat)   // the watchdog armed
    | TimeoutCancel         // the watchdog cancelled
    | Request               // the command handler's request()
    | Response(len: u32)    // the command handler's response() with a payload length
    | CloseMsg              // a close message sent
    | LoopEnd               // the event loop told to stop

  datatype State = State(
    fd: int,
    bufsize: nat,
    buffer: Buffer,
    expected: u32,
    noClose: int,
    returnCode: int,
    tout: Timer,
    trace: seq<Event>)

  /** What holds between callbacks: the size fits the 16-bit capability, an
      allocated buffer has exactly that size, a pending watchdog has the fixed
      deadline, and the expected tag is unset or a reply tag. */
  predicate Inv(s: State)
  {
    && s.bufsize <= 0xFFFF
    && (s.buffer.Allocated? ==> |s.buffer.bytes| == s.bufsize)
    && (s.tout.Armed? ==> s.tout.ms == WATCHDOG_MS)
    && (s.expected == 0 || s.expected >= DONE_BIT)
  }

  /** The events a callback appended. */
  function NewEvents(s: State, r: State): seq<Event>
    requires s.trace <= r.trace
  {
    r.trace[|s.trace|..]
  }

  predicate Writes(events: seq<Event>)
  {
    exists e :: e in events && e.Write?
  }

  predicate ResponseCalled(events: seq<Event>)
  {
    exists e :: e in events && e.Response?
  }

  /** Every write among events asks for at most limit bytes. */
  predicate WritesWithin(events: seq<Event>, limit: int)
  {
    forall e :: e in events && e.Write? ==> e.len <= limit
  }

  /** The globals before mbim_open: no buffer, size 0, nothing expected, the
      watchdog not pending. return_code and no_close belong to other files
      and are given. */
  function Initial(returnCode: int, noClose: int): (s: State)
    ensures Inv(s)
    ensures s.buffer == Freed && s.bufsize == 0 && s.expected == 0 && s.tout == Idle && s.trace == []
  {
    State(0, 0, Freed, 0, noClose, returnCode, Idle, [])
  }

  // ---------------------------------------------------------------- open

  /** A failed open() ends the process; otherwise the device is open. */
  datatype OpenOutcome = Exited | Opened(state: State)

  /** mbim_open, given the results of open(), of the capability ioctl (its
      return value and the 16-bit maximum it reports) and whether malloc()
      returned a buffer. The new buffer's bytes are taken to be zero. */
  function Open(s: State, fd: int, ioctlRc: int, max: u16, mallocOk: bool): (r: OpenOutcome)
    requires Inv(s)
    ensures r.Exited? <==> fd < 1
    ensures r.Opened? ==> Inv(r.state) && s.trace <= r.state.trace
  {
    if fd < 1 then Exited
    else
      var size: nat := if ioctlRc == 0 then max else FALLBACK_BUFSIZE;
      Opened(s.(fd := fd, bufsize := size,
                buffer := if mallocOk then Allocated(seq(size, _ => 0)) else Freed,
                trace := s.trace + [FdAdded(fd)]))
  }

  lemma OpenSizesBuffer(s: State, fd: int, ioctlRc: int, max: u16, mallocOk: bool)
    requires Inv(s) && fd >= 1
    ensures var r := Open(s, fd, ioctlRc, max, mallocOk).state;
      && r.bufsize == (if ioctlRc == 0 then max else 512)
      && (mallocOk ==> r.buffer.Allocated? && |r.buffer.bytes| == r.bufsize)
      && (!mallocOk ==> r.buffer == Freed)
      && r.fd == fd
      && NewEvents(s, r) == [FdAdded(fd)]
      && r.expected == s.expected && r.tout == s.tout
      && r.returnCode == s.returnCode && r.noClose == s.noClose
  {
  }

  // ---------------------------------------------------------------- send

  predicate HasHeader(s: State)
  {
    s.buffer.Allocated? && |s.buffer.bytes| >= HEADER_SIZE
  }

  /** The header the command handler left at the start of the buffer. */
  function FrameHeader(s: State): Header
    requires HasHeader(s)
  {
    DecodeHeader(s.buffer.bytes)
  }

  datatype SendOutcome = SendOutcome(state: State, ret: int)

  /** mbim_send, given what write() returns (at most the length asked for,
      -1 on error). Only a result of exactly 0 counts as a failed write. */
  function Send(s: State, written: int): (r: SendOutcome)
    requires Inv(s) && HasHeader(s)
    requires -1 <= written <= FrameHeader(s).length
    ensures Inv(r.state) && s.trace <= r.state.trace
  {
    var h := FrameHeader(s);
    if h.length > s.bufsize then SendOutcome(s, -1)
    else
      var sent := s.(trace := s.trace + [Write(h.length)]);
      if written == 0 then SendOutcome(sent, written)
      else
        SendOutcome(sent.(expected := DoneTag(h.msgType),
                          tout := Armed(WATCHDOG_MS),
                          trace := sent.trace + [TimeoutSet(WATCHDOG_MS)]),
                    written)
  }

  /** A frame longer than the buffer is refused: -1, no write, nothing changes. */
  lemma SendRefusesOversize(s: State, written: int)
    requires Inv(s) && HasHeader(s) && -1 <= written <= FrameHeader(s).length
    requires FrameHeader(s).length > s.bufsize
    ensures Send(s, written) == SendOutcome(s, -1)
    ensures !Writes(NewEvents(s, Send(s, written).state))
  {
  }

  /** A send that passes the guard issues exactly one write, of the header's
      length, which fits the buffer. */
  lemma {:induction false} SendWritesFrame(s: State, written: int)
    requires Inv(s) && HasHeader(s) && -1 <= written <= FrameHeader(s).length
    requires FrameHeader(s).length <= s.bufsize
    ensures var events := NewEvents(s, Send(s, written).state);
      && events[0] == Write(FrameHeader(s).length)
      && (forall i :: 0 < i < |events| ==> !events[i].Write?)
      && WritesWithin(events, s.bufsize)
  {
    var events := NewEvents(s, Send(s, written).state);
    var len := FrameHeader(s).length;
    assert events == [Write(len)] || events == [Write(len), TimeoutSet(WATCHDOG_MS)];
  }

  /** Any write result other than 0, a negative one included, records the
      reply tag and arms the watchdog; 0 leaves both alone. The result is what
      write() returned. */
  lemma SendArmsWatchdog(s: State, written: int)
    requires Inv(s) && HasHeader(s) && -1 <= written <= FrameHeader(s).length
    requires FrameHeader(s).length <= s.bufsize
    ensures var r := Send(s, written);
      && r.ret == written
      && (written != 0 ==> r.state.expected == DoneTag(FrameHeader(s).msgType) && r.state.tout == Armed(15000))
      && (written == 0 ==> r.state.expected == s.expected && r.state.tout == s.tout)
      && r.state.returnCode == s.returnCode && r.state.noClose == s.noClose
      && r.state.buffer == s.buffer && r.state.bufsize == s.bufsize
  {
  }

  // ---------------------------------------------------------------- receive

  /** What read() can return: at most bufsize bytes; data is what it read
      when it did not fail; nothing can be read into a released buffer. */
  predicate ReadFits(s: State, cnt: int, data: seq<byte>)
  {
    && cnt <= s.bufsize
    && (cnt >= 0 ==> |data| == cnt)
    && (cnt > 0 ==> s.buffer.Allocated?)
  }

  /** The buffer after read() stored data at its start. */
  function Fill(b: Buffer, data: seq<byte>): (r: Buffer)
    requires b.Allocated? ==> |data| <= |b.bytes|
    requires b.Freed? ==> data == []
    ensures r.Allocated? <==> b.Allocated?
    ensures r.Allocated? ==> |r.bytes| == |b.bytes| && r.bytes[..|data|] == data
    ensures r.Allocated? ==> r.bytes[|data|..] == b.bytes[|data|..]
  {
    if b.Freed? then b else Allocated(data + b.bytes[|data|..])
  }

  /** -le32toh(status_code) as the session's return code: the status,
      negated, so that any nonzero status is a failure. */
  function StatusReturnCode(status: u32): (rc: int)
    ensures status != 0 ==> rc < 0
    ensures -rc == status
  {
    -(status as int)
  }

  /** The conversion of an unsigned 32-bit value to a 32-bit int: values
      with bit 31 set wrap to negative ones. */
  function AsInt32(x: u32): (r: int)
    ensures -0x8000_0000 <= r < 0x8000_0000
    ensures (r - x) % 0x1_0000_0000 == 0
  {
    if x < 0x8000_0000 then x else x - 0x1_0000_0000
  }

  /** The return code as mbim-dev.c computes it for a nonzero status
      without payload: the status negated as an unsigned 32-bit value, then
      stored in the int return_code. */
  function StatusReturnCodeAsWritten(status: u32): (rc: int)
    ensures -0x8000_0000 <= rc < 0x8000_0000
  {
    AsInt32((0x1_0000_0000 - status) % 0x1_0000_0000)
  }

  /** Up to 0x80000000 the source's computation is the negated status. */
  lemma AsWrittenAgreesUpToBit31(status: u32)
    requires 0 < status <= 0x8000_0000
    ensures StatusReturnCodeAsWritten(status) == StatusReturnCode(status) < 0
  {
  }

  /** Above 0x80000000 a failure status becomes a positive return code, which
      the COMMAND_DONE branch then takes for success: no_close is kept. */
  lemma AsWrittenFlipsHighStatus(status: u32)
    requires status > 0x8000_0000
    ensures StatusReturnCodeAsWritten(status) == 0x1_0000_0000 - status > 0
    ensures StatusReturnCode(status) < 0
    ensures StatusReturnCodeAsWritten(0x8000_0001) == 0x7FFF_FFFF
  {
  }

  /** The COMMAND_DONE case of the switch, where failure is the return code
      a nonzero status without payload is turned into: response() is called
      unless that is the case, a negative return code clears no_close, and a
      close message follows. */
  function CommandDoneWith(s: State, status: u32, payloadLen: u32, responded: int, failure: int): State
  {
    var answered := !(status != 0 && payloadLen == 0);
    var rc := if answered then responded else failure;
    s.(returnCode := rc,
       noClose := if rc < 0 then 0 else s.noClose,
       trace := s.trace + (if answered then [Response(payloadLen)] else []) + [CloseMsg])
  }

  /** The COMMAND_DONE case as mbim-dev.c has it, with the status negated as
      an unsigned 32-bit value before it is stored. */
  function CommandDoneAsWritten(s: State, status: u32, payloadLen: u32, responded: int): (r: State)
    requires Inv(s)
    ensures Inv(r) && s.trace <= r.trace
  {
    CommandDoneWith(s, status, payloadLen, responded, StatusReturnCodeAsWritten(status))
  }

  /** Up to 0x80000000 the COMMAND_DONE case as written and the corrected one
      the model uses agree. */
  lemma CommandDoneAsWrittenAgrees(s: State, status: u32, payloadLen: u32, requested: int, responded: int)
    requires Inv(s) && status <= 0x8000_0000
    ensures CommandDoneAsWritten(s, status, payloadLen, responded)
         == Dispatch(s, CommandDone, status, payloadLen, requested, responded)
  {
    if status != 0 {
      AsWrittenAgreesUpToBit31(status);
    }
  }

  /** Above 0x80000000 a failure status without payload, handled as written,
      gives a positive return code and keeps no_close, so the failure passes
      for success; the corrected case clears no_close. Status 0x80000001
      gives 0x7FFFFFFF. */
  lemma {:induction false} HighStatusKeepsNoClose(s: State, status: u32, requested: int, responded: int)
    requires Inv(s) && status > 0x8000_0000
    ensures var w := CommandDoneAsWritten(s, status, 0, responded);
      var c := Dispatch(s, CommandDone, status, 0, requested, responded);
      && w.returnCode == 0x1_0000_0000 - status > 0 && w.noClose == s.noClose
      && c.returnCode < 0 && c.noClose == 0
      && w == c.(returnCode := w.returnCode, noClose := w.noClose)
    ensures CommandDoneAsWritten(s, 0x8000_0001, 0, responded).returnCode == 0x7FFF_FFFF
    ensures CommandDoneAsWritten(s, 0x8000_0001, 0, responded).noClose == s.noClose
  {
    AsWrittenFlipsHighStatus(status);
    AsWrittenFlipsHighStatus(0x8000_0001);
  }

  /** The switch of mbim_recv on the received message type. */
  function Dispatch(s: State, k: Kind, status: u32, payloadLen: u32, requested: int, responded: int): (r: State)
    requires Inv(s)
    ensures Inv(r) && s.trace <= r.trace
  {
    match k
    case OpenDone =>
      s.(trace := s.trace + [Request] + (if requested < 0 then [CloseMsg] else []))
    case CommandDone => CommandDoneWith(s, status, payloadLen, responded, StatusReturnCode(status))
    case CloseDone => End(s)
    case FunctionError =>
      s.(noClose := 0, returnCode := -1, trace := s.trace + [CloseMsg])
    case Unrecognised => s
  }

  /** The state once a frame of at least a header has been read: the bytes
      are in the buffer, and the watchdog is cancelled if the frame's type is
      the expected one. */
  function Arrived(s: State, data: seq<byte>): (r: State)
    requires Inv(s) && ReadFits(s, |data|, data) && |data| >= HEADER_SIZE
    ensures Inv(r) && s.trace <= r.trace
  {
    var filled := s.(buffer := Fill(s.buffer, data));
    var t := DecodeHeader(filled.buffer.bytes).msgType;
    if t == s.expected then filled.(tout := Idle, trace := filled.trace + [TimeoutCancel]) else filled
  }

  /** mbim_recv, given what read() returns (cnt and the bytes read), the
      status_code and buffer_length fields of a command-done body, and what
      request() and response() return when they are called. */
  function Receive(s: State, cnt: int, data: seq<byte>, status: u32, payloadLen: u32,
                   requested: int, responded: int): (r: State)
    requires Inv(s) && ReadFits(s, cnt, data)
    ensures Inv(r) && s.trace <= r.trace
  {
    if cnt < 0 then s
    else if cnt < HEADER_SIZE then s.(buffer := Fill(s.buffer, data))
    else
      var arrived := Arrived(s, data);
      Dispatch(arrived, Classify(DecodeHeader(arrived.buffer.bytes).msgType),
               status, payloadLen, requested, responded)
  }

  /** The header mbim_recv decodes from the buffer is the header of the bytes
      just read. */
  lemma {:induction false} ReceivedHeader(s: State, cnt: int, data: seq<byte>)
    requires Inv(s) && ReadFits(s, cnt, data) && cnt >= HEADER_SIZE
    ensures Fill(s.buffer, data).Allocated?
    ensures |Fill(s.buffer, data).bytes| >= HEADER_SIZE
    ensures DecodeHeader(Fill(s.buffer, data).bytes) == DecodeHeader(data)
  {
    var bytes := Fill(s.buffer, data).bytes;
    Le32Window(bytes, 0, data);
    Le32Window(bytes, 4, data[4..]);
    Le32Window(data, 4, data[4..]);
    Le32Window(bytes, 8, data[8..]);
    Le32Window(data, 8, data[8..]);
  }

  /** A well-sized receive is the cancel check followed by the dispatch on
      the type of the bytes read; its events are those of the two in turn. */
  lemma {:induction false} ReceiveSplit(s: State, cnt: int, data: seq<byte>, status: u32, payloadLen: u32,
                                        requested: int, responded: int)
    requires Inv(s) && ReadFits(s, cnt, data) && cnt >= HEADER_SIZE
    ensures var a := Arrived(s, data);
      var r := Receive(s, cnt, data, status, payloadLen, requested, responded);
      && a.buffer.Allocated? && DecodeHeader(a.buffer.bytes) == DecodeHeader(data)
      && r == Dispatch(a, Classify(DecodeHeader(data).msgType), status, payloadLen, requested, responded)
      && NewEvents(s, a) == (if DecodeHeader(data).msgType == s.expected then [TimeoutCancel] else [])
      && NewEvents(s, r) == NewEvents(s, a) + NewEvents(a, r)
  {
    ReceivedHeader(s, cnt, data);
  }

  /** A failed read, or one shorter than a header, changes nothing but the
      bytes read into the buffer; a failed one changes nothing at all. */
  lemma ShortReadIgnored(s: State, cnt: int, data: seq<byte>, status: u32, payloadLen: u32,
                         requested: int, responded: int)
    requires Inv(s) && ReadFits(s, cnt, data) && cnt < HEADER_SIZE
    ensures var r := Receive(s, cnt, data, status, payloadLen, requested, responded);
      && r == s.(buffer := r.buffer)
      && (cnt < 0 ==> r == s)
  {
  }

  /** On a well-sized read the watchdog is cancelled exactly when the
      received type is the expected one; the transaction id plays no part. */
  lemma {:induction false} CancelIffExpected(s: State, cnt: int, data: seq<byte>, status: u32, payloadLen: u32,
                                             requested: int, responded: int)
    requires Inv(s) && ReadFits(s, cnt, data) && cnt >= HEADER_SIZE
    ensures var r := Receive(s, cnt, data, status, payloadLen, requested, responded);
      && (TimeoutCancel in NewEvents(s, r) <==> DecodeHeader(data).msgType == s.expected)
      && (DecodeHeader(data).msgType == s.expected ==> r.tout == Idle)
      && (DecodeHeader(data).msgType != s.expected ==> r.tout == s.tout)
  {
    ReceiveSplit(s, cnt, data, status, payloadLen, requested, responded);
    DispatchCalls(Arrived(s, data), Classify(DecodeHeader(data).msgType), status, payloadLen, requested, responded);
  }

  /** A message of a host-to-device type never cancels the watchdog, since
      the expected tag is always unset or a reply tag. */
  lemma RequestTypeNeverCancels(s: State, cnt: int, data: seq<byte>, status: u32, payloadLen: u32,
                                requested: int, responded: int)
    requires Inv(s) && ReadFits(s, cnt, data) && cnt >= HEADER_SIZE
    requires 0 < DecodeHeader(data).msgType < DONE_BIT
    ensures TimeoutCancel !in NewEvents(s, Receive(s, cnt, data, status, payloadLen, requested, responded))
  {
    CancelIffExpected(s, cnt, data, status, payloadLen, requested, responded);
  }

  // The switch itself acts on the type alone, whatever is expected: the
  // lemmas below are about Dispatch from the state the cancel check left.

  /** OPEN_DONE: request() is called, and a close message follows only when
      it fails; nothing else changes. */
  lemma OpenDoneRequests(s: State, status: u32, payloadLen: u32, requested: int, responded: int)
    requires Inv(s)
    ensures var r := Dispatch(s, OpenDone, status, payloadLen, requested, responded);
      && Request in NewEvents(s, r)
      && (CloseMsg in NewEvents(s, r) <==> requested < 0)
      && !ResponseCalled(NewEvents(s, r))
      && r == s.(trace := r.trace)
  {
    var r := Dispatch(s, OpenDone, status, payloadLen, requested, responded);
    assert NewEvents(s, r) == [Request] + (if requested < 0 then [CloseMsg] else []);
  }

  /** COMMAND_DONE: a nonzero status without payload becomes the negated
      status and response() is not called; otherwise the return code is what
      response() returned for the payload length. A negative return code
      clears no_close, and a close message is always sent. */
  lemma CommandDoneOutcome(s: State, status: u32, payloadLen: u32, requested: int, responded: int)
    requires Inv(s)
    ensures var r := Dispatch(s, CommandDone, status, payloadLen, requested, responded);
      && (status != 0 && payloadLen == 0 ==> r.returnCode == -(status as int) && !ResponseCalled(NewEvents(s, r)))
      && (status == 0 || payloadLen != 0 ==> r.returnCode == responded && Response(payloadLen) in NewEvents(s, r))
      && r.noClose == (if r.returnCode < 0 then 0 else s.noClose)
      && CloseMsg in NewEvents(s, r) && Request !in NewEvents(s, r)
      && r == s.(returnCode := r.returnCode, noClose := r.noClose, trace := r.trace)
  {
    var r := Dispatch(s, CommandDone, status, payloadLen, requested, responded);
    var answered := !(status != 0 && payloadLen == 0);
    var rc := if answered then responded else StatusReturnCode(status);
    assert r == s.(returnCode := rc, noClose := if rc < 0 then 0 else s.noClose,
                   trace := s.trace + (if answered then [Response(payloadLen)] else []) + [CloseMsg]);
    assert NewEvents(s, r) == (if answered then [Response(payloadLen)] else []) + [CloseMsg];
  }

  /** FUNCTION_ERROR: no_close cleared, a close message sent, return code -1. */
  lemma FunctionErrorOutcome(s: State, status: u32, payloadLen: u32, requested: int, responded: int)
    requires Inv(s)
    ensures var r := Dispatch(s, FunctionError, status, payloadLen, requested, responded);
      && r.noClose == 0 && r.returnCode == -1
      && NewEvents(s, r) == [CloseMsg]
      && r == s.(returnCode := -1, noClose := 0, trace := r.trace)
  {
  }

  /** CLOSE_DONE tears the session down. */
  lemma CloseDoneEnds(s: State, status: u32, payloadLen: u32, requested: int, responded: int)
    requires Inv(s)
    ensures Dispatch(s, CloseDone, status, payloadLen, requested, responded) == End(s)
  {
  }

  /** Any other type falls through the switch. */
  lemma UnrecognisedIgnored(s: State, status: u32, payloadLen: u32, requested: int, responded: int)
    requires Inv(s)
    ensures Dispatch(s, Unrecognised, status, payloadLen, requested, responded) == s
  {
  }

  /** The switch itself only calls the command handler, sends a close
      message or stops the loop: it never writes, and never touches the
      watchdog. */
  lemma {:induction false} DispatchCalls(s: State, k: Kind, status: u32, payloadLen: u32, requested: int, responded: int)
    requires Inv(s)
    ensures var r := Dispatch(s, k, status, payloadLen, requested, responded);
      forall e :: e in NewEvents(s, r) ==> e.Request? || e.Response? || e.CloseMsg? || e.LoopEnd?
    ensures Dispatch(s, k, status, payloadLen, requested, responded).tout == s.tout
    ensures Dispatch(s, k, status, payloadLen, requested, responded).expected == s.expected
  {
    var r := Dispatch(s, k, status, payloadLen, requested, responded);
    match k
    case OpenDone => OpenDoneRequests(s, status, payloadLen, requested, responded);
    case CommandDone =>
      var answered := !(status != 0 && payloadLen == 0);
      assert NewEvents(s, r) == (if answered then [Response(payloadLen)] else []) + [CloseMsg];
    case CloseDone =>
    case FunctionError =>
    case Unrecognised => assert NewEvents(s, r) == [];
  }

  /** A receive never writes to the device itself. */
  lemma {:induction false} ReceiveNeverWrites(s: State, cnt: int, data: seq<byte>, status: u32, payloadLen: u32,
                                              requested: int, responded: int)
    requires Inv(s) && ReadFits(s, cnt, data)
    ensures !Writes(NewEvents(s, Receive(s, cnt, data, status, payloadLen, requested, responded)))
  {
    if cnt >= HEADER_SIZE {
      ReceiveSplit(s, cnt, data, status, payloadLen, requested, responded);
      DispatchCalls(Arrived(s, data), Classify(DecodeHeader(data).msgType), status, payloadLen, requested, responded);
    }
  }

  // ---------------------------------------------------------------- teardown

  /** mbim_end: release the buffer if there is one, and stop the loop. */
  function End(s: State): (r: State)
    ensures s.trace <= r.trace && NewEvents(s, r) == [LoopEnd]
    ensures r.buffer == Freed
    ensures Inv(s) ==> Inv(r)
  {
    var released := if s.buffer.Allocated? then s.(buffer := Freed, bufsize := 0) else s;
    released.(trace := released.trace + [LoopEnd])
  }

  /** Teardown is idempotent: a second call only stops the loop once more.
      The size drops to 0 only when a buffer was held. */
  lemma EndIdempotent(s: State)
    ensures End(s).bufsize == (if s.buffer.Allocated? then 0 else s.bufsize)
    ensures End(s) == s.(buffer := Freed, bufsize := End(s).bufsize, trace := s.trace + [LoopEnd])
    ensures End(End(s)) == End(s).(trace := End(s).trace + [LoopEnd])
  {
  }

  /** The watchdog fired: the reactor marks it not pending and runs the
      message-timeout callback, which is mbim_end. */
  function Expire(s: State): (r: State)
    requires Inv(s) && s.tout.Armed?
    ensures Inv(r) && s.trace <= r.trace
  {
    End(s.(tout := Idle))
  }

  /** A timeout tears down without a close message and without touching the
      return code. */
  lemma TimeoutTearsDown(s: State)
    requires Inv(s) && s.tout.Armed?
    ensures var r := Expire(s);
      && r.buffer == Freed && r.tout == Idle
      && NewEvents(s, r) == [LoopEnd]
      && r.returnCode == s.returnCode && r.noClose == s.noClose && r.expected == s.expected
  {
  }

  // ---------------------------------------------------------------- runs

  /** One callback of the single-threaded loop, with its inputs. */
  datatype Op =
    | OpenOp(fd: int, ioctlRc: int, max: u16, mallocOk: bool)
    | SendOp(written: int)
    | RecvOp(cnt: int, data: seq<byte>, status: u32, payloadLen: u32, requested: int, responded: int)
    | TimeoutOp
    | EndOp
    | FrameOp(bytes: seq<byte>)  // the command handler fills mbim_buffer with a frame

  /** The callback can run from s: the send path needs a header in the
      buffer, read results must be possible, only a pending watchdog fires,
      a failed open ends the process, and the handler can only fill a buffer
      that is held. */
  predicate Enabled(s: State, op: Op)
    requires Inv(s)
  {
    match op
    case OpenOp(fd, _, _, _) => fd >= 1
    case SendOp(written) => HasHeader(s) && -1 <= written <= FrameHeader(s).length
    case RecvOp(cnt, data, _, _, _, _) => ReadFits(s, cnt, data)
    case TimeoutOp => s.tout.Armed?
    case EndOp => true
    case FrameOp(bytes) => s.buffer.Allocated? && |bytes| == s.bufsize
  }

  /** The command handler writes a frame into the whole of mbim_buffer; no
      call of the device layer is involved. */
  function Frame(s: State, bytes: seq<byte>): (r: State)
    requires Inv(s) && s.buffer.Allocated? && |bytes| == s.bufsize
    ensures Inv(r) && HasHeader(r) == (|bytes| >= HEADER_SIZE)
    ensures r == s.(buffer := Allocated(bytes))
  {
    s.(buffer := Allocated(bytes))
  }

  /** A frame the handler builds from header h is what the next send writes:
      exactly h's length is written and h's reply tag is awaited. */
  lemma {:induction false} FramedHeaderSent(s: State, h: Header, rest: seq<byte>, written: int)
    requires Inv(s) && s.buffer.Allocated? && HEADER_SIZE + |rest| == s.bufsize
    requires h.length <= s.bufsize && 1 <= written <= h.length
    ensures var f := Frame(s, EncodeHeader(h) + rest);
      && HasHeader(f) && FrameHeader(f) == h
      && var r := Send(f, written);
      && NewEvents(f, r.state) == [Write(h.length), TimeoutSet(WATCHDOG_MS)]
      && r.state.expected == DoneTag(h.msgType) && r.ret == written
  {
    DecodeEncodeHeader(h, rest);
    var f := Frame(s, EncodeHeader(h) + rest);
    assert NewEvents(f, Send(f, written).state) == [Write(h.length), TimeoutSet(WATCHDOG_MS)];
  }

  function Step(s: State, op: Op): (r: State)
    requires Inv(s) && Enabled(s, op)
    ensures Inv(r) && s.trace <= r.trace
  {
    match op
    case OpenOp(fd, ioctlRc, max, mallocOk) => Open(s, fd, ioctlRc, max, mallocOk).state
    case SendOp(written) => Send(s, written).state
    case RecvOp(cnt, data, status, payloadLen, requested, responded) =>
      Receive(s, cnt, data, status, payloadLen, requested, responded)
    case TimeoutOp => Expire(s)
    case EndOp => End(s)
    case FrameOp(bytes) => Frame(s, bytes)
  }

  /** The state after a sequence of callbacks, each run to completion; the
      run stops at the first one that cannot run. Every reachable state keeps
      the invariant and the trace only grows. */
  function Run(s: State, ops: seq<Op>): (r: State)
    requires Inv(s)
    ensures Inv(r) && s.trace <= r.trace
    decreases |ops|
  {
    if ops == [] || !Enabled(s, ops[0]) then s else Run(Step(s, ops[0]), ops[1..])
  }

  /** Each callback writes only frames that fit the buffer it holds. */
  lemma {:induction false} StepWritesFit(s: State, op: Op)
    requires Inv(s) && Enabled(s, op)
    ensures WritesWithin(NewEvents(s, Step(s, op)), s.bufsize)
  {
    match op
    case SendOp(written) =>
      var h := FrameHeader(s);
      if h.length <= s.bufsize {
        SendWritesFrame(s, written);
      }
    case RecvOp(cnt, data, status, payloadLen, requested, responded) =>
      ReceiveNeverWrites(s, cnt, data, status, payloadLen, requested, responded);
    case _ =>
  }

  /** No run ever asks write() for more than the largest buffer the 16-bit
      capability allows. */
  lemma {:induction false} RunWritesFit(s: State, ops: seq<Op>)
    requires Inv(s)
    ensures WritesWithin(NewEvents(s, Run(s, ops)), 0xFFFF)
    decreases |ops|
  {
    if ops != [] && Enabled(s, ops[0]) {
      var next := Step(s, ops[0]);
      StepWritesFit(s, ops[0]);
      RunWritesFit(next, ops[1..]);
      assert NewEvents(s, Run(s, ops)) == NewEvents(s, next) + NewEvents(next, Run(next, ops[1..]));
    }
  }

  /** no_close is only ever cleared: along any run it keeps its first value
      or becomes 0. */
  lemma {:induction false} RunOnlyClearsNoClose(s: State, ops: seq<Op>)
    requires Inv(s)
    ensures Run(s, ops).noClose == s.noClose || Run(s, ops).noClose == 0
    decreases |ops|
  {
    if ops != [] && Enabled(s, ops[0]) {
      var next := Step(s, ops[0]);
      assert next.noClose == s.noClose || next.noClose == 0 by {
        match ops[0]
        case RecvOp(cnt, data, status, payloadLen, requested, responded) =>
        case _ =>
      }
      RunOnlyClearsNoClose(next, ops[1..]);
    }
  }

  // ---------------------------------------------------------------- scenarios

  /** A request whose matching reply arrives: sending a frame of type t
      records the reply tag and arms the watchdog; the reply of that tag
      cancels it and is dispatched on its kind. */
  lemma {:induction false} MatchedReply(s: State, w: int, reply: seq<byte>, status: u32, payloadLen: u32,
                                        requested: int, responded: int)
    requires Inv(s) && HasHeader(s) && FrameHeader(s).length <= s.bufsize
    requires 1 <= w <= FrameHeader(s).length
    requires HEADER_SIZE <= |reply| <= s.bufsize
    requires DecodeHeader(reply).msgType == DoneTag(FrameHeader(s).msgType)
    ensures var sent := Send(s, w).state;
      && sent.expected == DoneTag(FrameHeader(s).msgType) && sent.tout == Armed(15000)
      && ReadFits(sent, |reply|, reply)
      && var r := Receive(sent, |reply|, reply, status, payloadLen, requested, responded);
      && r.tout == Idle
      && r == Dispatch(Arrived(sent, reply), Classify(DecodeHeader(reply).msgType), status, payloadLen, requested, responded)
  {
    SendArmsWatchdog(s, w);
    var sent := Send(s, w).state;
    CancelIffExpected(sent, |reply|, reply, status, payloadLen, requested, responded);
    ReceiveSplit(sent, |reply|, reply, status, payloadLen, requested, responded);
  }

  /** A command exchange with matching replies: the command is sent and its
      COMMAND_DONE arrives with status 0; then the close message the handler
      put in the buffer is sent and CLOSE_DONE arrives. The session ends with
      the handler's response as its return code, the watchdog not pending,
      the buffer released and the loop stopped. */
  lemma {:induction false} CommandExchange(s: State, w1: int, reply: seq<byte>, payloadLen: u32,
                                           responded: int, close: seq<byte>, w2: int, closeReply: seq<byte>)
    requires Inv(s) && HasHeader(s)
    requires FrameHeader(s).msgType == COMMAND_MSG && FrameHeader(s).length <= s.bufsize
    requires 1 <= w1 <= FrameHeader(s).length
    requires HEADER_SIZE <= |reply| <= s.bufsize && DecodeHeader(reply).msgType == COMMAND_DONE
    requires |close| == s.bufsize
    requires DecodeHeader(close).msgType == CLOSE_MSG && DecodeHeader(close).length <= s.bufsize
    requires 1 <= w2 <= DecodeHeader(close).length
    requires HEADER_SIZE <= |closeReply| <= s.bufsize && DecodeHeader(closeReply).msgType == CLOSE_DONE
    ensures var s1 := Receive(Send(s, w1).state, |reply|, reply, 0, payloadLen, 0, responded);
      && s1.returnCode == responded && s1.tout == Idle
      && Enabled(s1, FrameOp(close))
      && var s2 := Step(s1, FrameOp(close));
      && HasHeader(s2) && FrameHeader(s2) == DecodeHeader(close)
      && var s3 := Send(s2, w2).state;
      && ReadFits(s3, |closeReply|, closeReply)
      && var s4 := Receive(s3, |closeReply|, closeReply, 0, 0, 0, responded);
      && s4.returnCode == responded && s4.tout == Idle && s4.buffer == Freed
      && s4.trace[|s4.trace| - 1] == LoopEnd
  {
    ReplyTags();
    MatchedReply(s, w1, reply, 0, payloadLen, 0, responded);
    var sent := Send(s, w1).state;
    CommandDoneOutcome(Arrived(sent, reply), 0, payloadLen, 0, responded);
    var s1 := Receive(sent, |reply|, reply, 0, payloadLen, 0, responded);
    var s2 := Step(s1, FrameOp(close));
    MatchedReply(s2, w2, closeReply, 0, 0, 0, responded);
  }

  /** The device reports 1024 bytes; a 2000-byte frame the handler puts in
      the buffer is refused before any write. */
  lemma {:induction false} OversizeRefused(s: State, fd: int, tid: u32, written: int)
    requires Inv(s) && fd >= 1 && -1 <= written <= 2000
    ensures var ready := Open(s, fd, 0, 1024, true).state;
      && ready.bufsize == 1024
      && var framed := ready.(buffer := Allocated(EncodeHeader(Header(COMMAND_MSG, 2000, tid)) + seq(1024 - HEADER_SIZE, _ => 0)));
      && Inv(framed) && HasHeader(framed) && FrameHeader(framed).length == 2000
      && Send(framed, written) == SendOutcome(framed, -1)
  {
    var ready := Open(s, fd, 0, 1024, true).state;
    var h := Header(COMMAND_MSG, 2000, tid);
    DecodeEncodeHeader(h, seq(1024 - HEADER_SIZE, _ => 0));
  }
}
