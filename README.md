# umbim device layer, modelled in Dafny

This project models `mbim-dev.c` of umbim. That file is the host side of a USB MBIM control channel. It opens the `cdc-wdm` character device and sizes a single send/receive buffer from the device's maximum-command capability. It then sends control messages from that buffer and reacts to each reply that arrives on the event loop. There is no explicit state variable. The sequencing lives in a handful of globals: `mbim_bufsize`, `mbim_buffer`, the file descriptor, the awaited reply tag `expected`, `no_close`, `return_code` and the watchdog timer `tout`.

The model has three modules:

- `MbimWire` (`wire.dfy`) covers bytes, little-endian 32-bit fields, the 12-byte message header (type, length and transaction id at offsets 0, 4 and 8) and the message-type values of USB MBIM 1.0, section 9.1. It also holds the reply tag `type | 0x80000000` and the classification of received types. A byte is an integer newtype over 0..255 rather than `bv8`: the header fields are read with `le32toh`, which is arithmetic on byte values, and integer arithmetic keeps the round-trip proofs small where 32-bit vector arithmetic does not.
- `MbimSession` (`session.dfy`) models the globals as one value, `State`, with one function per callback: `Open`, `Send`, `Receive` (built from `Arrived` and `Dispatch`), `End` and `Expire`. `Inv` is the invariant that holds between callbacks. The lemmas state what each callback guarantees. `Run` folds any sequence of callbacks, and lemmas over `Run` state what holds along every run.
- `MbimDev` (`device.dfy`) holds the class `Device`. Its fields are the globals and its methods are the file's functions, updating those fields in place. Each method is proved to produce exactly the state that the matching `MbimSession` function gives. So every lemma about those functions also holds of the object.

Everything outside the file is an input or a recorded event:

- The results of `open`, `read`, `write`, `ioctl` and `malloc` are method parameters.
- The results of the command handler's `request()` and `response()` are parameters.
- The `status_code` and `buffer_length` fields of a command-done body are parameters.
- Calls to `request()`, `response()`, `mbim_send_close_msg()`, `uloop_fd_add`, `uloop_timeout_set`, `uloop_timeout_cancel` and `uloop_end`, and every `write`, are appended to an event trace. The watchdog is also kept as a field: idle, or armed with its deadline.

Where the code and its design description differ, the model follows the code:

- A watchdog timeout only runs `mbim_end`. It does not set `return_code`.
- OPEN_DONE, COMMAND_DONE and FUNCTION_ERROR are acted on whatever `expected` holds. Only the watchdog cancel depends on `expected`.
- In `mbim_send`, only a `write()` result of exactly 0 is a failure. A negative result takes the success branch, records the reply tag and arms the watchdog.
- `no_close` is only ever cleared in this file.
- `open()` returning 0 is treated as failure, because the test is `fd < 1`.

## Model

| member | source | states |
|---|---|---|
| MbimWire.DecodeEncodeHeader | mbim-dev.c:49-52 | reading type, length and transaction id with le32toh from their little-endian bytes gives back the header, whatever follows it in the buffer |
| MbimWire.EncodeDecodeHeader | mbim-dev.c:49-52 | the decoded header fields re-encode to exactly the first 12 bytes of the buffer, so decoding loses nothing |
| MbimWire.BytesOfLe32 | mbim-dev.c:52 | le32toh of four bytes re-encodes to those four bytes |
| MbimWire.DoneTag | mbim-dev.c:71 | the recorded reply tag has bit 31 set and keeps the lower 31 bits of the sent type |
| MbimWire.ReplyTags | mbim-dev.c:71 | an open, command, close or host-error message waits for OPEN_DONE, COMMAND_DONE, CLOSE_DONE or FUNCTION_ERROR respectively |
| MbimWire.Classify | mbim-dev.c:105-131 | the switch's four cases are taken exactly for their four type values, all with bit 31 set; every other type is unrecognised |
| MbimSession.Initial | mbim-dev.c:30-44 | before open there is no buffer, the size is 0, nothing is expected and the watchdog is idle; the invariant holds |
| MbimSession.Open | mbim-dev.c:134-153 | a descriptor below 1 ends the process; otherwise the device is open and the invariant holds |
| MbimSession.OpenSizesBuffer | mbim-dev.c:146-152 | the size is the queried 16-bit maximum when the ioctl returns 0 and 512 otherwise; a buffer of exactly that size exists when malloc succeeded; the descriptor is registered; nothing else changes |
| MbimSession.Send | mbim-dev.c:46-75 | sending keeps the invariant and only appends to the trace |
| MbimSession.SendRefusesOversize | mbim-dev.c:52-55 | a header length above the buffer size gives -1, no write, and leaves `expected`, the watchdog and all other state unchanged |
| MbimSession.SendWritesFrame | mbim-dev.c:52-67 | a send that passes the guard issues exactly one write, first, for the header's length bytes, which is at most the buffer size |
| MbimSession.SendArmsWatchdog | mbim-dev.c:67-74 | a nonzero write result, negative included, sets `expected` to the reply tag and arms the watchdog at 15000 ms; a result of 0 changes neither; the return value is the write result |
| MbimSession.Fill | mbim-dev.c:80 | the read stores its bytes at the start of the buffer and leaves the rest and the size alone |
| MbimSession.Receive | mbim-dev.c:77-132 | receiving keeps the invariant and only appends to the trace |
| MbimSession.Arrived | mbim-dev.c:80-103 | after a well-sized read and the expected-type check, the invariant holds and the trace has only grown |
| MbimSession.ReceivedHeader | mbim-dev.c:80-82 | the header decoded from the buffer after a read is the header of the bytes read |
| MbimSession.ReceiveSplit | mbim-dev.c:102-105 | a well-sized receive is the cancel check, which appends a cancel exactly when the type is expected, followed by the switch on the type of the bytes read |
| MbimSession.ShortReadIgnored | mbim-dev.c:85-91 | a failed read changes nothing; a read shorter than a header changes nothing but the bytes read into the buffer: `expected`, return code, `no_close`, watchdog and trace stay |
| MbimSession.CancelIffExpected | mbim-dev.c:102-103 | on a well-sized read the watchdog is cancelled if and only if the received type equals `expected`; otherwise the watchdog is unchanged; the transaction id plays no part |
| MbimSession.RequestTypeNeverCancels | mbim-dev.c:102-103 | a received host-to-device type never cancels the watchdog, because `expected` is always 0 or a reply tag |
| MbimSession.Dispatch | mbim-dev.c:105-131 | the switch keeps the invariant and only appends to the trace |
| MbimSession.OpenDoneRequests | mbim-dev.c:106-109 | OPEN_DONE calls request(), sends a close message if and only if request() is negative, never calls response(), and changes nothing else |
| MbimSession.StatusReturnCode | mbim-dev.c:115-116 | a nonzero status without payload becomes a negative return code from which the status can be read back |
| MbimSession.CommandDoneOutcome | mbim-dev.c:110-122 | nonzero status and zero payload length give return code -status without calling response(); otherwise the return code is response()'s result for that payload length; a negative return code clears `no_close`, otherwise it is kept; a close message is always sent |
| MbimSession.FunctionErrorOutcome | mbim-dev.c:126-130 | FUNCTION_ERROR clears `no_close`, sends exactly one close message and sets the return code to -1, nothing else |
| MbimSession.CloseDoneEnds | mbim-dev.c:123-125 | CLOSE_DONE is exactly the teardown |
| MbimSession.UnrecognisedIgnored | mbim-dev.c:105-131 | any other type leaves the state as the cancel check left it |
| MbimSession.DispatchCalls | mbim-dev.c:105-131 | the switch itself only calls the handler, sends close messages or stops the loop; the switch itself never writes, never touches the watchdog and never changes `expected` (what request() and the close-message helper do inside is not modelled) |
| MbimSession.ReceiveNeverWrites | mbim-dev.c:77-132 | no receive issues a write itself |
| MbimSession.End | mbim-dev.c:155-164 | after teardown the buffer is released and exactly one loop-stop event has been appended; the invariant is kept |
| MbimSession.EndIdempotent | mbim-dev.c:155-164 | teardown sets the size to 0 only when it released a buffer, changes nothing else, and a second teardown only stops the loop again |
| MbimSession.Expire | mbim-dev.c:36-44 | the watchdog firing keeps the invariant |
| MbimSession.TimeoutTearsDown | mbim-dev.c:36-40 | a timeout releases the buffer and stops the loop with no close message, leaving return code, `no_close` and `expected` as they were |
| MbimSession.Step | mbim-dev.c:46-164 | each callback keeps the invariant and only appends to the trace |
| MbimSession.Frame | mbim-dev.c:49 | the handler's frame fills the held buffer and nothing else; the buffer then holds a header exactly when the frame has at least 12 bytes |
| MbimSession.FramedHeaderSent | mbim-dev.c:49-71 | once the handler has framed header h, a send writes exactly h's length, arms the watchdog and awaits h's reply tag |
| MbimSession.Run | mbim-dev.c:46-164 | along any sequence of callbacks, including the handler filling the buffer with frames, the invariant holds and the trace only grows |
| MbimSession.StepWritesFit | mbim-dev.c:52-67 | every write a callback issues is at most the buffer size it held |
| MbimSession.RunWritesFit | mbim-dev.c:146-150 | no run ever asks write() for more than 65535 bytes |
| MbimSession.RunOnlyClearsNoClose | mbim-dev.c:119-127 | along any run `no_close` keeps its initial value or becomes 0 |
| MbimSession.MatchedReply | mbim-dev.c:67-105 | after a successful send, the matching reply cancels the watchdog and is dispatched on its kind |
| MbimSession.CommandExchange | mbim-dev.c:67-125 | command, COMMAND_DONE with status 0, close and CLOSE_DONE end with response()'s result as the return code, the watchdog idle, the buffer released and the loop stopped |
| MbimSession.OversizeRefused | mbim-dev.c:52-55 | with a 1024-byte capability, a 2000-byte frame is refused with -1 before any write |
| MbimSession.AsInt32 | mbim-dev.c:116 | converting an unsigned 32-bit value to int wraps it into the 32-bit signed range, congruent modulo 2^32 |
| MbimSession.StatusReturnCodeAsWritten | mbim-dev.c:116 | the return code computed as written lies in the 32-bit signed range |
| MbimSession.AsWrittenAgreesUpToBit31 | mbim-dev.c:116 | for statuses up to 0x80000000 the code as written yields the negated status |
| MbimSession.AsWrittenFlipsHighStatus | mbim-dev.c:116 | for statuses above 0x80000000 the code as written yields a positive return code, for example 0x7FFFFFFF for 0x80000001 |
| MbimSession.CommandDoneAsWritten | mbim-dev.c:115-121 | the COMMAND_DONE case as written keeps the invariant and only appends to the trace |
| MbimSession.CommandDoneAsWrittenAgrees | mbim-dev.c:115-121 | for statuses up to 0x80000000 the COMMAND_DONE case as written and the corrected case give the same state |
| MbimSession.HighStatusKeepsNoClose | mbim-dev.c:115-121 | for a status above 0x80000000 with no payload, the case as written gives the positive return code 2^32 - status and keeps `no_close`; the corrected case gives a negative code and clears `no_close`; nothing else differs; status 0x80000001 gives 0x7FFFFFFF with `no_close` kept |
| MbimDev.Device.constructor | mbim-dev.c:30-44 | the globals start as `MbimSession.Initial` describes |
| MbimDev.Device.Open | mbim-dev.c:134-153 | updates the globals exactly as `MbimSession.Open`, with a fresh buffer |
| MbimDev.Device.Send | mbim-dev.c:46-75 | updates `expected`, the watchdog and the trace exactly as `MbimSession.Send`, and returns its result |
| MbimDev.Device.Recv | mbim-dev.c:77-104 | reads into the buffer in place and updates the globals exactly as `MbimSession.Receive` |
| MbimDev.Device.Dispatch | mbim-dev.c:105-131 | updates the globals exactly as `MbimSession.Dispatch` |
| MbimDev.Device.End | mbim-dev.c:155-164 | updates the globals exactly as `MbimSession.End` |
| MbimDev.Device.MsgTimeout | mbim-dev.c:36-44 | updates the globals exactly as `MbimSession.Expire` |

## Findings

| source | as written | input that shows it | evidently intended | confidence | as-written member | corrected member |
|---|---|---|---|---|---|---|
| mbim-dev.c:116 | `-le32toh(msg->status_code)` negates an unsigned 32-bit value, and the result is stored into the int `return_code` | status_code 0x80000001 with buffer_length 0 gives return_code 0x7FFFFFFF, a positive value, so `no_close` is kept and the failure looks like success | the return code is the negated status, negative for every nonzero status | medium, not executed; it assumes `return_code` is a 32-bit `int` and the usual wrap-around conversion | MbimSession.HighStatusKeepsNoClose | MbimSession.StatusReturnCode |

`CommandDoneAsWritten` is the COMMAND_DONE case as written. `HighStatusKeepsNoClose` compares it with the corrected case. The rest of the model, `Dispatch` included, uses the corrected `StatusReturnCode`, with `return_code` as an unbounded integer.

## Left out

- The system calls are not modelled: `open`, `read`, `write`, `ioctl`, `malloc` and `free`. Their results are parameters. `perror` and `exit` are left out; a failed open is the `Exited` outcome.
- The bytes of a new buffer are modelled as zeros, though malloc leaves them undefined. Opening twice leaks the old buffer in C; the model simply replaces it.
- Registration with the event loop and the loop itself are left out. Arming, cancelling and stopping are trace events. The watchdog is a flag with a deadline, and there is no real time.
- The verbose hex dumps and prints are left out. They do not affect state.
- The bodies of `request()`, `response()` and `mbim_send_close_msg()` are not part of this model, nor are the declarations of `return_code`, `no_close` and `verbose`. In umbim, request() and the close-message helper build a frame and call `mbim_send`, which changes `expected` and the watchdog. The model records only the call. A caller composes it with `Send`, as `CommandExchange` does.
- `mbim.h` is not part of this model. The message-type values come from USB MBIM 1.0, section 9.1. The `status_code` and `buffer_length` fields of a command-done body are parameters, not decoded from fixed offsets.
- The payload length is passed to `response()` unchecked against the bytes read, as in the source. No bound is claimed.
- `Send` requires an allocated buffer of at least 12 bytes. The source reads the header from the buffer unconditionally, so sending after teardown, or with a capability below 12 bytes, is undefined behaviour that the model excludes.
- `Receive` requires read results the kernel can produce: at most the buffer size, and nothing read into a released buffer.
- `return_code` is an unbounded integer everywhere except in the as-written members of the finding.
- Dispatch: the COMMAND_DONE case negates the status in the corrected form, `StatusReturnCode`. The form as written, where a status above 0x80000000 gives a positive code and keeps `no_close`, is `CommandDoneAsWritten`. `CommandDoneAsWrittenAgrees` shows the two agree up to 0x80000000.
- CommandDoneOutcome: states the corrected return code `-status`. For statuses above 0x80000000 the code as written gives `2^32 - status` instead, as `HighStatusKeepsNoClose` states.
- The handler's frame-building is one `Frame` step that fills the whole buffer with given bytes. How request() and the close-message helper lay out a message body is not modelled.
