# USBTMC/SCPI bridge of pico_scpi_usbtmc_lablib, in Dafny

This project models the bridge in `usb/usbtmc_app.c`. The bridge sits between
TinyUSB's USB Test and Measurement Class (USBTMC) device driver and a SCPI command
interpreter on an RP2040 board.

- The host sends a command in one or more bulk-OUT fragments. The bridge reassembles
  them in a 225-byte buffer. When the final fragment arrives, the bridge hands it to
  the interpreter.
- The interpreter writes its answer back through `setReply` into a 256-byte reply
  buffer. The first write raises MAV (message available) in the IEEE 488.2 status
  byte.
- A cooperative task tick moves the cycle along. When the host has asked for data
  with a bulk-IN request, the tick sends the reply. With no reply, it echoes the
  stored command instead.
- The bulk-IN completion callback clears MAV and returns the bridge to idle.
- The remaining callbacks handle the rest. READ_STATUS_BYTE returns the status byte
  and clears SRQ. A trigger raises SRQ. There are callbacks for clear and abort
  requests, interface open, clear-feature and the indicator pulse.

## How the model is organised

- `StatusByte.dfy`: the status byte bits (QUESTIONABLE 0x08, MAV 0x10, SER 0x20,
  SRQ 0x40, section 11.2 of IEEE 488.2). It also has the two mask operations the
  bridge uses, `stb | mask` and `stb & ~mask`. Each is proved to change exactly the
  masked bits.
- `Usbtmc.dfy`: the file-level variables of the C file as one value `AppState`,
  plus a log of the calls the bridge makes into code that is not modelled:
  - transmit: the bytes sent and the EOM flag;
  - start bus read;
  - interpreter input: the bytes handed over;
  - send SRQ;
  - trigger handler;
  - LED pulse.

  Each callback is a function from the state before it to the state after it, and
  its contract states the callback's rules. The four callbacks that only request a
  bus read share `ReadBus`; the two that change nothing have no function. `AppState.Valid` is the invariant every
  callback keeps:
  - the arrays have their C sizes;
  - `buffer_len <= 224`;
  - `buffer_tx_ix <= buffer_len`;
  - `reply_len <= 256`.
- `UsbtmcApp.dfy`: the bridge as an object. The class `App` has the variables as
  fields, `buffer` and `reply` as arrays updated in place, and a ghost event log.
  It has one method per callback. Each method is proved to perform exactly the
  transition of its function in `Usbtmc`, and to keep the invariant. Its bulk-OUT
  start is the corrected one from the Findings, which also resets the transmit
  cursor; every other method does what the C does. `SendIdn` and `ReplyIdn` are clients that run a `*IDN?` exchange through
  the class using only the method contracts.
- `UsbtmcProperties.dfy`: properties that span several callbacks:
  - reassembly of a fragmented command, and what the interpreter receives;
  - overflow;
  - the served bulk-IN branch, checked against a reference chunking, and the fact
    that the bridge's own echo stops after its first chunk;
  - a full query cycle;
  - a reply written in parts;
  - clear followed by any aborts;
  - idempotence;
  - trigger followed by status reads.
- `CursorFinding.dfy`: the bulk-OUT start callback as written, and the input that
  shows its defect (see Findings).

The SCPI library's STB register is accessed through `getSTB`/`setSTB` in
`scpi/scpi_base.c:120-126`, and is modelled as the plain field `stb`. `SCPI_Write`
(`scpi/scpi_base.c:95-101`) is the caller of `setReply`, and `SCPI_Control` with
SRQ is the caller of `setControlReply`. Interpreter write-backs happen synchronously
inside `scpi_instrument_input`. The model therefore lets them be applied with
`SetReply` after `MsgData`. In the C, `reply_len := 0` and `query_received := true`
happen before the interpreter runs, so the resulting state is the same.

The model keeps these behaviours of the C, which a reader of the USBTMC design might not expect:
- Only the final fragment's bytes reach the interpreter (`usb/usbtmc_app.c:171`),
  not the reassembled buffer.
- A reply longer than the host's request is sent as one transfer of
  `min(reply_len, msgReqLen)` bytes with EOM set. The excess is dropped, not sent in
  later transfers (`usb/usbtmc_app.c:236`).
- A refused fragment resets nothing (`usb/usbtmc_app.c:162`).
- Neither clear callback resets `reply_len`. `initiate_clear` keeps `buffer_len` and
  `buffer_tx_ix`.
- A second NAKed bulk-IN request while one is outstanding fails
  `TU_ASSERT(bulkInStarted == false)`. The callback then returns `false` after
  storing `msgReqLen` (`usb/usbtmc_app.c:201-208`).
- The command echo (a cycle with no reply) sends only its first
  `min(buffer_len, msgReqLen)` bytes. The same tick returns the bridge to idle
  (`usb/usbtmc_app.c:243-249`), so later requests are NAKed (line 206) and the rest
  of the command is never sent.

## Model

| member | source | states |
|---|---|---|
| StatusByte.SetBits | usb/usbtmc_app.c:132-134 | `stb \| mask` sets every bit of the mask and keeps every other bit |
| StatusByte.ClearBits | usb/usbtmc_app.c:181-183 | `stb & ~mask` clears every bit of the mask and keeps every other bit |
| Usbtmc.Initial | usb/usbtmc_app.c:85-94 | the zero-initialised state is idle, empty, has STB 0 and satisfies the invariant |
| Usbtmc.Min | usb/usbtmc_app.c:216 | tu_min32: the result is one of the two arguments and is not above either |
| Usbtmc.Splice | usb/usbtmc_app.c:157 | memcpy into a fixed array: the length is kept, positions `at..at+len` hold the data and every other position is unchanged |
| Usbtmc.MsgBulkOutStart | usb/usbtmc_app.c:139-149 | the corrected start (see Findings): accepted iff TransferSize <= 225; the stored length and the cursor become 0; nothing else changes; the invariant is kept |
| Usbtmc.MsgData | usb/usbtmc_app.c:151-175 | accepted iff len + buffer_len < 225. Refused: the state is unchanged. Accepted: the stored prefix becomes old prefix ++ data, the rest of the array is unchanged, the length grows by len, the state is scpi_cmd_received iff the fragment is final, reply_len is 0, query_received iff final and len >= 1, the log gains the interpreter call (exactly then, with this fragment) and one bus read, and nothing else changes; the invariant is kept |
| Usbtmc.MsgBulkInComplete | usb/usbtmc_app.c:177-192 | when the echo is complete or a query was received: only MAV is cleared, the bridge becomes idle, no request is outstanding, the cursor is 0 and query_received is false. Otherwise only a bus read is logged. A bus read is always logged |
| Usbtmc.MsgBulkInRequest | usb/usbtmc_app.c:196-223 | msgReqLen := TransferSize always. NAK case (idle or cursor 0): nothing is sent, a request becomes outstanding, and the result is false iff one already was. Otherwise the next min(remaining, requested) stored bytes are sent from the cursor with EOM iff they reach buffer_len, the cursor advances by that count, and nothing else changes; cursor <= length is kept |
| Usbtmc.TaskIter | usb/usbtmc_app.c:225-257 | idle: unchanged. scpi_cmd_received: becomes ready_to_reply and nothing else changes. ready_to_reply with a request outstanding and cursor 0: with a reply, sends min(reply_len, msgReqLen) reply bytes with EOM true, then idle, no request, reply_len 0; without one, echoes min(buffer_len, msgReqLen) bytes with EOM iff that is the whole buffer, and sets the cursor to that count. ready_to_reply without a reply always ends idle; ready_to_reply with a reply but no request served is unchanged; the invariant is kept |
| Usbtmc.SetReply | usb/usbtmc_app.c:338-351 | MAV is set, other bits kept, iff reply_len was 0, otherwise STB is unchanged; the bytes land at reply[reply_len..], earlier reply bytes and later array bytes are unchanged, reply_len grows by len; nothing else changes |
| Usbtmc.SetControlReply | usb/usbtmc_app.c:353-355 | only a service request is logged |
| Usbtmc.GetStb | usb/usbtmc_app.c:317-328 | returns the STB as it was before the call; only SRQ is cleared; nothing else changes |
| Usbtmc.MsgTrigger | usb/usbtmc_app.c:122-137 | the trigger handler is called (logged), SRQ is set, other STB bits are kept; nothing else changes |
| Usbtmc.InitiateClear | usb/usbtmc_app.c:259-268 | STB 0, idle, no request outstanding; every other field, buffers and cursors included, is unchanged |
| Usbtmc.CheckClear | usb/usbtmc_app.c:270-282 | as InitiateClear, and buffer_len and buffer_tx_ix become 0; the reply is unchanged |
| Usbtmc.InitiateAbortBulkIn | usb/usbtmc_app.c:283-288 | only the outstanding-request flag is cleared |
| Usbtmc.ReadBus | usb/usbtmc_app.c:289-307 | check_abort_bulk_in, check_abort_bulk_out, open (105-109) and the bulk-OUT clear-feature callback (312-315): only a bus read is logged, no variable changes, the invariant is kept |
| Usbtmc.IndicatorPulse | usb/usbtmc_app.c:330-336 | only the LED pulse is logged |
| UsbtmcApp.MemCopy | usb/usbtmc_app.c:157 | copying into the array in place leaves it equal to Splice of its old contents |
| UsbtmcApp.App.constructor | usb/usbtmc_app.c:85-94 | the fields and arrays equal Initial, with two distinct fresh arrays |
| UsbtmcApp.App.MsgBulkOutStart | usb/usbtmc_app.c:139-149 | the fields and the result are exactly Usbtmc.MsgBulkOutStart of the old state, the corrected start that also resets the cursor; the invariant is kept |
| UsbtmcApp.App.MsgData | usb/usbtmc_app.c:151-175 | the fields, the buffer array and the result are exactly Usbtmc.MsgData of the old state; the invariant is kept |
| Usbtmc.StoreFragment | usb/usbtmc_app.c:157-173 | the accepting branch of the fragment callback: the length grows by len, the stored prefix becomes old prefix ++ data and the rest of the array is unchanged; MsgData's contract states its other effects |
| UsbtmcApp.App.StoreFragment | usb/usbtmc_app.c:157-173 | the fields and the buffer array become Usbtmc.StoreFragment of the old state: memcpy in place, then the field updates and log entries of the accepted case |
| UsbtmcApp.App.MsgBulkInComplete | usb/usbtmc_app.c:177-192 | returns true, and the new fields are Usbtmc.MsgBulkInComplete of the old |
| UsbtmcApp.App.MsgBulkInRequest | usb/usbtmc_app.c:196-223 | the fields and the result are Usbtmc.MsgBulkInRequest of the old state |
| UsbtmcApp.App.TaskIter | usb/usbtmc_app.c:225-257 | the fields are Usbtmc.TaskIter of the old state |
| UsbtmcApp.App.SetReply | usb/usbtmc_app.c:338-351 | the fields and the reply array are Usbtmc.SetReply of the old state |
| UsbtmcApp.App.SetControlReply | usb/usbtmc_app.c:353-355 | the fields are Usbtmc.SetControlReply of the old state |
| UsbtmcApp.App.GetStb | usb/usbtmc_app.c:317-328 | returns the old STB and status success; the fields are Usbtmc.GetStb of the old state |
| UsbtmcApp.App.MsgTrigger | usb/usbtmc_app.c:122-137 | returns true; the fields are Usbtmc.MsgTrigger of the old state |
| UsbtmcApp.App.InitiateClear | usb/usbtmc_app.c:259-268 | returns true and status success; the fields are Usbtmc.InitiateClear of the old state |
| UsbtmcApp.App.CheckClear | usb/usbtmc_app.c:270-282 | returns true, status success and BulkInFifoBytes = 0; the fields are Usbtmc.CheckClear of the old state |
| UsbtmcApp.App.InitiateAbortBulkIn | usb/usbtmc_app.c:283-288 | returns true and status success; the fields are Usbtmc.InitiateAbortBulkIn of the old state |
| UsbtmcApp.App.CheckAbortBulkIn | usb/usbtmc_app.c:289-294 | returns true; the fields are Usbtmc.ReadBus of the old state |
| UsbtmcApp.App.InitiateAbortBulkOut | usb/usbtmc_app.c:296-301 | returns true and status success, and changes nothing |
| UsbtmcApp.App.CheckAbortBulkOut | usb/usbtmc_app.c:302-307 | returns true; the fields are Usbtmc.ReadBus of the old state |
| UsbtmcApp.App.Open | usb/usbtmc_app.c:105-109 | the fields are Usbtmc.ReadBus of the old state |
| UsbtmcApp.App.BulkInClearFeature | usb/usbtmc_app.c:309-311 | changes nothing |
| UsbtmcApp.App.BulkOutClearFeature | usb/usbtmc_app.c:312-315 | the fields are Usbtmc.ReadBus of the old state |
| UsbtmcApp.App.IndicatorPulse | usb/usbtmc_app.c:330-336 | returns true and status success; the fields are Usbtmc.IndicatorPulse of the old state |
| UsbtmcApp.SendIdn | usb/usbtmc_app.c:139-175 | on a fresh bridge, "*ID" then "N?" (final) leave "*IDN?" stored, the log holding one interpreter call with "N?" between two bus reads, a query pending, a cursor of 0 and no reply |
| UsbtmcApp.ReplyIdn | usb/usbtmc_app.c:196-257 | a 12-byte reply and an 8-byte request: the host receives exactly one transfer, of the first 8 reply bytes with EOM, and then MAV is clear, other bits are kept and the bridge is idle |
| UsbtmcProperties.FeedReassembles | usb/usbtmc_app.c:155-166 | fragments that fit are all accepted; the buffer holds the old prefix followed by the fragments in order; the rest of the array is unchanged; the state is scpi_cmd_received and reply_len is 0 |
| UsbtmcProperties.FeedInputsLastFragment | usb/usbtmc_app.c:168-172 | over a whole fragmented transfer, the interpreter is called at most once, with the last fragment alone, and only if that fragment is non-empty |
| UsbtmcProperties.FeedOverflow | usb/usbtmc_app.c:155-163 | fragments that together exceed the buffer make the feed fail; the interpreter is never called, and the bytes stored before the transfer are kept |
| UsbtmcProperties.IdnSplitAcrossFragments | usb/usbtmc_app.c:155-172 | "*ID" + "N?": both are accepted, the buffer holds "*IDN?", and the interpreter receives only "N?" |
| UsbtmcProperties.ChunksWellFormed | usb/usbtmc_app.c:216-219 | the reference chunking has at least one transfer, each of at most the requested size, with EOM on the last only, and together they are the data in order |
| UsbtmcProperties.RequestOnce | usb/usbtmc_app.c:214-220 | a non-NAKed request sends the next min(remaining, size) bytes from the cursor and moves the cursor past them; msgReqLen becomes the requested size; every other field is unchanged |
| UsbtmcProperties.RequestsDrain | usb/usbtmc_app.c:214-220 | the served (non-NAK) branch on its own: from a state with the cursor past 0 and a cycle under way, repeated requests send the rest of the stored command exactly as the reference chunking cuts it, and leave the cursor at buffer_len. The bridge's own echo never reaches such a state |
| UsbtmcProperties.EchoStopsAfterOneChunk | usb/usbtmc_app.c:206-249 | the tick's echo sends min(buffer_len, msgReqLen) bytes and returns the bridge to idle in the same tick; a request before or after the completion is NAKed and sends nothing; if the chunk was partial and no query was recorded, the request stays outstanding and the next one fails the TU_ASSERT |
| UsbtmcProperties.SetReplyInParts | usb/usbtmc_app.c:338-351 | two setReply writes leave the same state as one write of both parts, so MAV is raised once |
| UsbtmcProperties.AbortsKeepQuiescent | usb/usbtmc_app.c:283-307 | from an idle state with STB 0 and an empty buffer, any sequence of abort callbacks keeps it so and changes nothing but the log |
| UsbtmcProperties.AbortsOnlyReadBus | usb/usbtmc_app.c:283-307 | abort callbacks never call the interpreter and never transmit |
| UsbtmcProperties.ClearThenAborts | usb/usbtmc_app.c:270-307 | check_clear and then any aborts: idle, STB 0, an empty command buffer, and the reply unchanged |
| UsbtmcProperties.InitiateClearThenAborts | usb/usbtmc_app.c:259-307 | initiate_clear and then any aborts: idle, STB 0, no request outstanding, buffer length and cursor kept |
| UsbtmcProperties.ClearAbortIdempotent | usb/usbtmc_app.c:259-307 | every clear and abort callback applied twice has the effect of applying it once, apart from the bus reads logged (initiate_abort_bulk_out changes nothing at all) |
| UsbtmcProperties.TriggerThenReadStb | usb/usbtmc_app.c:122-137 | after a trigger, the first status read reports SRQ and clears it, and a second read reports it clear; no other bit changes |
| UsbtmcProperties.QueryCycle | usb/usbtmc_app.c:139-257 | a whole query cycle from idle: MAV is set while the reply waits and cleared at the end, no other STB bit changes; the log shows the interpreter call, a bus read, ONE transfer of the first min(reply, requested) bytes with EOM, and a bus read; the bridge ends idle |
| CursorFinding.MsgBulkOutStartAsWritten | usb/usbtmc_app.c:139-149 | as written: accepted iff TransferSize <= 225, and only buffer_len is reset |
| CursorFinding.TxLenAsWritten | usb/usbtmc_app.c:216 | the echo length with the size_t subtraction: it is the true remaining count while the cursor is within the buffer, and the full request once it is past the end |
| CursorFinding.StaleCursorAsWritten | usb/usbtmc_app.c:142-220 | from idle with the cursor at 0 and every start as written, a concrete input after which the as-written start leaves the cursor at 64 with 0 bytes stored (the invariant broken), while the corrected start keeps the invariant |

## Left out

- The capabilities descriptor and the `rspMsg` header copying
  (`usb/usbtmc_app.c:38-72, 97-103, 198-200`): constant data and transport framing.
- TinyUSB, the SCPI interpreter and the board: transmit, bus reads, service
  requests, the interpreter's input, the trigger handler and the LED pulse are
  events in a log. What they do is not modelled. In particular the interpreter
  reached through `scpi_instrument_input` (`scpi/scpi_base.c:48-50`) and the trigger
  handler touch the reply and the status byte only through `setReply` and
  `setControlReply`, applied as separate calls; any other write they might make to
  the STB register is not modelled, and the STB facts of QueryCycle and
  TriggerThenReadStb rely on that.
- `volatile` and the concurrency remark at `usb/usbtmc_app.c:340-341`: callbacks are
  modelled as sequential, one at a time.
- The `default: TU_ASSERT(false,)` branch of the task tick
  (`usb/usbtmc_app.c:253-255`): it cannot be reached with three query states.
- The LED indicator task in `usb/usb_utils.c` and the SCPI library wrappers in
  `scpi/scpi_base.c`: timing, hardware and code that is not visible. The header
  `include/scpi/scpi_base.h` holds only prototypes and a table macro.
- SetReply: requires `reply_len + len <= 256`. The C does not check this
  (`usb/usbtmc_app.c:349`), and a longer reply would write past `reply`.
- MsgData: `len + buffer_len` is computed in unbounded integers. The C's size_t sum
  could wrap only for a fragment length near 2^32, which TinyUSB cannot deliver.

## Findings

| source | as written | input that shows it | evidently intended | confidence | as-written member | corrected member |
|---|---|---|---|---|---|---|
| usb/usbtmc_app.c:142 | the bulk-OUT start resets `buffer_len` but not `buffer_tx_ix` | a 100-byte transfer whose final fragment is empty (so no query is recorded), a 64-byte bulk-IN request, two ticks (64 bytes echoed), the completion callback (the echo is unfinished, so the cursor stays at 64), then a new 5-byte transfer. `buffer_len` is 0 with `buffer_tx_ix` at 64, so the next served request computes `buffer_len - buffer_tx_ix` in size_t, wraps, grants the whole request and reads from `buffer[64]` past the 225-byte array | a new bulk-OUT transfer also resets the transmit cursor, so that `buffer_tx_ix <= buffer_len` always holds | medium, not executed | CursorFinding.StaleCursorAsWritten | Usbtmc.MsgBulkOutStart |
