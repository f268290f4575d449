/** The device layer as the source has it: module-level globals that each
    callback updates in place. Every method is proved to leave the object in
    the state the matching MbimSession function gives for the state it found,
    so what is proved there about a callback holds of the method. */
module MbimDev {
  import opened MbimWire
  import opened MbimSession

  class Device {
    var fd: int               // mbim_fd.fd
    var bufsize: nat          // mbim_bufsize
    var buffer: array?<byte>  // mbim_buffer, null when released
    var expected: u32         // the reply tag awaited
    var noClose: int          // no_close
    var returnCode: int       // return_code
    var tout: Timer           // the watchdog
    var trace: seq<Event>     // calls out of the device layer, in order

    /** The globals as a value. */
    ghost function Model(): State
      reads this, buffer
    {
      State(fd, bufsize, if buffer == null then Freed else Allocated(buffer[..]),
            expected, noClose, returnCode, tout, trace)
    }

    ghost predicate Valid()
      reads this, buffer
    {
      Inv(Model())
    }

    /** The globals at program start; return_code and no_close are
        initialised by code outside the device layer. */
    constructor (returnCode0: int, noClose0: int)
      ensures Model() == Initial(returnCode0, noClose0)
      ensures Valid()
    {
      fd, bufsize, buffer, expected := 0, 0, null, 0;
      noClose, returnCode := noClose0, returnCode0;
      tout, trace := Idle, [];
    }

    /** mbim_open: open() gave fdResult, the capability ioctl returned ioctlRc
        and reported max, and malloc() succeeded when mallocOk. */
    method Open(fdResult: int, ioctlRc: int, max: u16, mallocOk: bool) returns (exited: bool)
      requires Valid()
      modifies this
      ensures exited <==> MbimSession.Open(old(Model()), fdResult, ioctlRc, max, mallocOk).Exited?
      ensures !exited ==> Model() == MbimSession.Open(old(Model()), fdResult, ioctlRc, max, mallocOk).state
      ensures !exited && buffer != null ==> fresh(buffer)
      ensures Valid()
    {
      fd := fdResult;
      if fdResult < 1 {
        // open failed: the process exits
        return true;
      }
      if ioctlRc == 0 {
        bufsize := max;
      } else {
        bufsize := FALLBACK_BUFSIZE;
      }
      if mallocOk {
        buffer := new byte[bufsize](_ => 0);
        assert buffer[..] == seq(bufsize, _ => 0);
      } else {
        buffer := null;
      }
      trace := trace + [FdAdded(fd)];
      exited := false;
    }

    /** mbim_send, where written is what write() returns. */
    method Send(written: int) returns (ret: int)
      requires Valid() && HasHeader(Model())
      requires -1 <= written <= FrameHeader(Model()).length
      modifies this`expected, this`tout, this`trace
      ensures Model() == MbimSession.Send(old(Model()), written).state
      ensures ret == MbimSession.Send(old(Model()), written).ret
      ensures Valid()
    {
      var h := DecodeHeader(buffer[..]);
      if h.length > bufsize {
        // message too big
        return -1;
      }
      ret := written;
      trace := trace + [Write(h.length)];
      if ret != 0 {
        expected := DoneTag(h.msgType);
        tout := Armed(WATCHDOG_MS);
        trace := trace + [TimeoutSet(WATCHDOG_MS)];
      }
    }

    /** mbim_recv, where read() returned cnt and the bytes data, and status,
        payloadLen, requested and responded are the command-done fields and the
        results of the command handler's calls. */
    method Recv(cnt: int, data: seq<byte>, status: u32, payloadLen: u32, requested: int, responded: int)
      requires Valid() && ReadFits(Model(), cnt, data)
      modifies this`tout, this`trace, this`returnCode, this`noClose, this`buffer, this`bufsize, buffer
      ensures Model() == Receive(old(Model()), cnt, data, status, payloadLen, requested, responded)
      ensures Valid()
    {
      if cnt < 0 {
        return;
      }
      if cnt > 0 {
        forall i | 0 <= i < cnt {
          buffer[i] := data[i];
        }
        assert buffer[..] == data + old(buffer[..])[cnt..];
      }
      if cnt < HEADER_SIZE {
        // failed to read() data
        return;
      }
      var h := DecodeHeader(buffer[..]);
      if h.msgType == expected {
        tout := Idle;
        trace := trace + [TimeoutCancel];
      }
      assert Model() == Arrived(old(Model()), data);
      Dispatch(Classify(h.msgType), status, payloadLen, requested, responded);
    }

    /** The switch of mbim_recv on the kind of the message just read. */
    method Dispatch(k: Kind, status: u32, payloadLen: u32, requested: int, responded: int)
      requires Valid()
      modifies this`trace, this`returnCode, this`noClose, this`buffer, this`bufsize
      ensures Model() == MbimSession.Dispatch(old(Model()), k, status, payloadLen, requested, responded)
      ensures Valid()
    {
      match k
      case OpenDone =>
        trace := trace + [Request];
        if requested < 0 {
          trace := trace + [CloseMsg];
        }
      case CommandDone =>
        if status != 0 && payloadLen == 0 {
          returnCode := StatusReturnCode(status);
        } else {
          trace := trace + [Response(payloadLen)];
          returnCode := responded;
        }
        if returnCode < 0 {
          noClose := 0;
        }
        trace := trace + [CloseMsg];
      case CloseDone =>
        End();
      case FunctionError =>
        noClose := 0;
        trace := trace + [CloseMsg];
        returnCode := -1;
      case Unrecognised =>
    }

    /** mbim_end: release the buffer if there is one, then stop the loop. */
    method End()
      modifies this`buffer, this`bufsize, this`trace
      ensures Model() == MbimSession.End(old(Model()))
    {
      if buffer != null {
        bufsize := 0;
        buffer := null;
      }
      trace := trace + [LoopEnd];
    }

    /** The watchdog fired: the reactor marks it not pending and runs
        mbim_msg_tout_cb, which is mbim_end. */
    method MsgTimeout()
      requires Valid() && tout.Armed?
      modifies this`tout, this`buffer, this`bufsize, this`trace
      ensures Model() == Expire(old(Model()))
      ensures Valid()
    {
      tout := Idle;
      End();
    }
  }
}
