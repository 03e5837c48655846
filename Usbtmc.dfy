/** The USBTMC/SCPI bridge of usb/usbtmc_app.c as a state machine over values.

    `AppState` holds the file-level variables of the C file (plus a log of the calls
    the bridge makes into TinyUSB and the SCPI interpreter), and each TinyUSB or SCPI
    callback is one function from the state before the call to the state after it.
    The class in UsbtmcApp is proved to perform exactly these transitions on its
    arrays and fields; the lemmas in UsbtmcProperties are stated over these functions. */
module Usbtmc {
  import opened StatusByte

  /** C `unsigned int` / `uint32_t`: the TransferSize fields and msgReqLen. */
  type uint32 = x: nat | x < 0x1_0000_0000

  /** sizeof(buffer): the command reassembly buffer. */
  const BUFFER_SIZE: nat := 225
  /** sizeof(reply): the SCPI reply buffer. */
  const REPLY_SIZE: nat := 256

  /** t_querystate: where the bridge is in a command/reply cycle. */
  datatype QueryState = ReadyForScpiCmd | ScpiCmdReceived | ReadyToReply

  /** One call out of the bridge into code that is not modelled. */
  datatype Event =
    | Transmit(bytes: seq<bv8>, eom: bool)    // tud_usbtmc_transmit_dev_msg_data(ptr, len, eom, false)
    | StartBusRead                            // tud_usbtmc_start_bus_read()
    | InstrumentInput(command: seq<bv8>)      // scpi_instrument_input(data, len)
    | SendSrq                                 // tud_usbtmc_send_srq()
    | InstrumentTrigger                       // doTrigger()
    | LedPulse                                // led_indicator_pulse()

  /** The file-level state of usbtmc_app.c. `buffer` and `reply` are the whole
      arrays (225 and 256 bytes), not only their used prefixes. */
  datatype AppState = AppState(
    queryState: QueryState,
    bulkInStarted: bool,
    buffer: seq<bv8>,
    bufferLen: nat,
    bufferTxIx: nat,
    reply: seq<bv8>,
    replyLen: nat,
    queryReceived: bool,
    msgReqLen: uint32,
    stb: bv8,
    log: seq<Event>)
  {
    /** The invariant every callback keeps: the arrays have their C sizes, at most
        BUFFER_SIZE - 1 command bytes are stored (the fragment guard is strict), the
        transmit cursor never passes the stored length, and the reply fits. */
    predicate Valid() {
      |buffer| == BUFFER_SIZE && |reply| == REPLY_SIZE &&
      bufferLen < BUFFER_SIZE && bufferTxIx <= bufferLen &&
      replyLen <= REPLY_SIZE
    }
  }

  /** A callback's new state together with the `bool` it returns to TinyUSB. */
  datatype Handled = Handled(next: AppState, ok: bool)

  /** tud_usbtmc_get_stb_cb: the new state and the status byte handed to the host. */
  datatype StbRead = StbRead(next: AppState, stb: bv8)

  /** The state at power-up: C zero-initialises every file-level variable, and the
      SCPI library starts with a zero status byte. */
  function Initial(): (s: AppState)
    ensures s.Valid()
    ensures s.queryState == ReadyForScpiCmd && !s.bulkInStarted && s.stb == 0 && s.log == []
    ensures s.bufferLen == 0 && s.bufferTxIx == 0 && s.replyLen == 0 && !s.queryReceived
  {
    AppState(ReadyForScpiCmd, false, seq(BUFFER_SIZE, _ => 0 as bv8), 0, 0,
             seq(REPLY_SIZE, _ => 0 as bv8), 0, false, 0, 0, [])
  }

  /** tu_min32. */
  function Min(a: nat, b: nat): (m: nat)
    ensures m <= a && m <= b
    ensures m == a || m == b
  {
    if a < b then a else b
  }

  /** `memcpy(&s[at], data, |data|)` on a fixed-size array. */
  function Splice(s: seq<bv8>, at: nat, data: seq<bv8>): (r: seq<bv8>)
    requires at + |data| <= |s|
    ensures |r| == |s|
    ensures forall i | 0 <= i < |s| :: r[i] == if at <= i < at + |data| then data[i - at] else s[i]
  {
    s[..at] + data + s[at + |data|..]
  }

  /** tud_usbtmc_msgBulkOut_start_cb (usb/usbtmc_app.c:139-149): a new bulk-OUT
      transfer empties the command buffer and is accepted iff its announced size fits.
      The C resets only buffer_len; this model also resets the transmit cursor with it
      (see the findings in README.md and CursorFinding). */
  function MsgBulkOutStart(s: AppState, transferSize: uint32): (r: Handled)
    ensures r.ok <==> transferSize <= BUFFER_SIZE
    ensures r.next.bufferLen == 0 && r.next.bufferTxIx == 0
    ensures r.next.(bufferLen := s.bufferLen, bufferTxIx := s.bufferTxIx) == s
    ensures s.Valid() ==> r.next.Valid()
  {
    Handled(s.(bufferLen := 0, bufferTxIx := 0), transferSize <= BUFFER_SIZE)
  }

  /** True when the final fragment of a transfer carries at least one byte: only then
      is the interpreter called (usb/usbtmc_app.c:168). */
  predicate IsQuery(data: seq<bv8>, transferComplete: bool) {
    transferComplete && |data| >= 1
  }

  /** The interpreter call a fragment causes: one, with that fragment, or none. */
  function QueryInput(data: seq<bv8>, transferComplete: bool): seq<Event> {
    if IsQuery(data, transferComplete) then [InstrumentInput(data)] else []
  }

  /** The accepting branch of tud_usbtmc_msg_data_cb (usb/usbtmc_app.c:157-173): the
      fragment is appended after the stored bytes and the rest of the array is left
      alone; the reply is discarded and the interpreter sees the fragment if it ends a
      query. MsgData's contract states the rest of its effect. */
  function StoreFragment(s: AppState, data: seq<bv8>, transferComplete: bool): (r: AppState)
    requires s.bufferLen + |data| <= |s.buffer|
    ensures |r.buffer| == |s.buffer| && r.bufferLen == s.bufferLen + |data|
    ensures r.buffer[..r.bufferLen] == s.buffer[..s.bufferLen] + data
    ensures r.buffer[r.bufferLen..] == s.buffer[r.bufferLen..]
  {
    assert Splice(s.buffer, s.bufferLen, data)[..s.bufferLen + |data|] == s.buffer[..s.bufferLen] + data;
    s.(buffer := Splice(s.buffer, s.bufferLen, data),
       bufferLen := s.bufferLen + |data|,
       queryState := if transferComplete then ScpiCmdReceived else ReadyForScpiCmd,
       replyLen := 0,
       queryReceived := IsQuery(data, transferComplete),
       log := s.log + QueryInput(data, transferComplete) + [StartBusRead])
  }

  /** tud_usbtmc_msg_data_cb (usb/usbtmc_app.c:151-175): one bulk-OUT fragment.
      A fragment is refused, changing nothing, unless it fits with room to spare
      (`len + buffer_len < sizeof(buffer)`). An accepted one is appended to the stored
      command; the interpreter then receives this fragment only, not the reassembled
      buffer, and only when it is the final, non-empty one; a bus read is requested. */
  function MsgData(s: AppState, data: seq<bv8>, transferComplete: bool): (r: Handled)
    requires s.Valid()
    ensures r.next.Valid()
    ensures r.ok <==> |data| + s.bufferLen < BUFFER_SIZE
    ensures !r.ok ==> r.next == s
    ensures r.ok ==> r.next.bufferLen == s.bufferLen + |data|
    ensures r.ok ==> r.next.buffer[..r.next.bufferLen] == s.buffer[..s.bufferLen] + data
    ensures r.ok ==> r.next.buffer[r.next.bufferLen..] == s.buffer[r.next.bufferLen..]
    ensures r.ok ==> (r.next.queryState == ScpiCmdReceived <==> transferComplete)
    ensures r.ok ==> r.next.queryState != ReadyToReply
    ensures r.ok ==> r.next.replyLen == 0
    ensures r.ok ==> (r.next.queryReceived <==> IsQuery(data, transferComplete))
    ensures r.ok ==> r.next.log == s.log + QueryInput(data, transferComplete) + [StartBusRead]
    ensures r.ok ==> r.next.(buffer := s.buffer, bufferLen := s.bufferLen, queryState := s.queryState,
                             replyLen := s.replyLen, queryReceived := s.queryReceived, log := s.log) == s
  {
    if |data| + s.bufferLen < BUFFER_SIZE then
      Handled(StoreFragment(s, data, transferComplete), true)
    else
      Handled(s, false)
  }

  /** The bulk-IN completion test of usb/usbtmc_app.c:179: the echo has been sent in
      full, or the cycle was a query. */
  predicate TransferDone(s: AppState) {
    s.bufferTxIx == s.bufferLen || s.queryReceived
  }

  /** tud_usbtmc_msgBulkIn_complete_cb (usb/usbtmc_app.c:177-192): when the transfer
      is done, MAV is cleared (no other status bit changes) and the bridge returns to
      idle; otherwise nothing but a new bus read happens. */
  function MsgBulkInComplete(s: AppState): (r: AppState)
    ensures s.Valid() ==> r.Valid()
    ensures r.log == s.log + [StartBusRead]
    ensures TransferDone(s) ==>
              r.stb == ClearBits(s.stb, MAV) && r.queryState == ReadyForScpiCmd &&
              !r.bulkInStarted && r.bufferTxIx == 0 && !r.queryReceived
    ensures TransferDone(s) ==>
              r.(stb := s.stb, queryState := s.queryState, bulkInStarted := s.bulkInStarted,
                 bufferTxIx := s.bufferTxIx, queryReceived := s.queryReceived, log := s.log) == s
    ensures !TransferDone(s) ==> r.(log := s.log) == s
  {
    var s' := s.(log := s.log + [StartBusRead]);
    if TransferDone(s) then
      s'.(stb := ClearBits(s.stb, MAV), queryState := ReadyForScpiCmd, bulkInStarted := false,
          bufferTxIx := 0, queryReceived := false)
    else
      s'
  }

  /** The request test of usb/usbtmc_app.c:206: no command expecting a response is in
      progress, or no echo has started; such a request is NAKed, not served. */
  predicate MustNak(s: AppState) {
    s.queryState == ReadyForScpiCmd || s.bufferTxIx == 0
  }

  /** tud_usbtmc_msgBulkIn_request_cb (usb/usbtmc_app.c:196-223). The requested size
      is always stored. A request that must be NAKed (section 3.3 of the USBTMC
      specification: NAK, not stall) sends nothing and marks a request outstanding; a
      second such request while one is outstanding fails the TU_ASSERT and returns
      false. Otherwise the next min(remaining, requested) command bytes are sent, with
      EOM exactly when they reach the stored length, and the cursor moves past them. */
  function MsgBulkInRequest(s: AppState, transferSize: uint32): (r: Handled)
    requires s.Valid()
    ensures r.next.Valid()
    ensures r.next.msgReqLen == transferSize
    ensures MustNak(s) ==> r.ok == !s.bulkInStarted
    ensures MustNak(s) ==> r.next == s.(msgReqLen := transferSize, bulkInStarted := true)
    ensures !MustNak(s) ==> r.ok
    ensures !MustNak(s) ==> s.bufferTxIx <= r.next.bufferTxIx <= s.bufferLen
    ensures !MustNak(s) ==> r.next.bufferTxIx - s.bufferTxIx == Min(s.bufferLen - s.bufferTxIx, transferSize)
    ensures !MustNak(s) ==>
              r.next.log == s.log + [Transmit(s.buffer[s.bufferTxIx..r.next.bufferTxIx],
                                              r.next.bufferTxIx == s.bufferLen)]
    ensures !MustNak(s) ==>
              r.next.(msgReqLen := s.msgReqLen, bufferTxIx := s.bufferTxIx, log := s.log) == s
  {
    var s' := s.(msgReqLen := transferSize);
    if MustNak(s) then
      Handled(s'.(bulkInStarted := true), !s.bulkInStarted)
    else
      var txLen := Min(s.bufferLen - s.bufferTxIx, transferSize);
      var chunk := Transmit(s.buffer[s.bufferTxIx..s.bufferTxIx + txLen], s.bufferTxIx + txLen == s.bufferLen);
      Handled(s'.(bufferTxIx := s.bufferTxIx + txLen, log := s.log + [chunk]), true)
  }

  /** usbtmc_app_task_iter (usb/usbtmc_app.c:225-257): one cooperative tick.
      Idle stays idle; a received command gets one tick for the interpreter to reply;
      then, if a bulk-IN request is outstanding and nothing has been sent, either the
      reply is sent in ONE transfer of min(reply_len, msgReqLen) bytes with EOM forced
      (any excess is dropped) and the cycle ends, or, with no reply, the first
      min(buffer_len, msgReqLen) bytes of the command are echoed. A tick that finds no
      reply always ends in idle; a reply waiting for a request keeps everything as is. */
  function TaskIter(s: AppState): (r: AppState)
    requires s.Valid()
    ensures r.Valid()
    ensures s.queryState == ReadyForScpiCmd ==> r == s
    ensures s.queryState == ScpiCmdReceived ==> r == s.(queryState := ReadyToReply)
    ensures s.queryState == ReadyToReply && s.replyLen == 0 ==> r.queryState == ReadyForScpiCmd
    ensures s.queryState == ReadyToReply && !(s.bulkInStarted && s.bufferTxIx == 0) ==>
              r.(queryState := s.queryState) == s
    ensures s.queryState == ReadyToReply && s.replyLen > 0 && !(s.bulkInStarted && s.bufferTxIx == 0) ==>
              r == s
    ensures s.queryState == ReadyToReply && s.bulkInStarted && s.bufferTxIx == 0 && s.replyLen > 0 ==>
              var n := Min(s.replyLen, s.msgReqLen);
              r.log == s.log + [Transmit(s.reply[..n], true)] &&
              r.queryState == ReadyForScpiCmd && !r.bulkInStarted && r.replyLen == 0 &&
              r.(log := s.log, queryState := s.queryState, bulkInStarted := true, replyLen := s.replyLen) == s
    ensures s.queryState == ReadyToReply && s.bulkInStarted && s.bufferTxIx == 0 && s.replyLen == 0 ==>
              var n := Min(s.bufferLen, s.msgReqLen);
              r.log == s.log + [Transmit(s.buffer[..n], n == s.bufferLen)] && r.bufferTxIx == n &&
              r.(log := s.log, queryState := s.queryState, bufferTxIx := 0) == s
  {
    match s.queryState
    case ReadyForScpiCmd => s
    case ScpiCmdReceived => s.(queryState := ReadyToReply)
    case ReadyToReply =>
      var sent :=
        if s.bulkInStarted && s.bufferTxIx == 0 then
          if s.replyLen != 0 then
            s.(log := s.log + [Transmit(s.reply[..Min(s.replyLen, s.msgReqLen)], true)],
               queryState := ReadyForScpiCmd, bulkInStarted := false, replyLen := 0)
          else
            var n := Min(s.bufferLen, s.msgReqLen);
            s.(bufferTxIx := n, log := s.log + [Transmit(s.buffer[..n], n == s.bufferLen)])
        else
          s;
      if sent.queryState == ReadyToReply && sent.replyLen == 0 then
        sent.(queryState := ReadyForScpiCmd)
      else
        sent
  }

  /** setReply (usb/usbtmc_app.c:338-351), reached from SCPI_Write: the interpreter's
      write-back. The first part of a reply sets MAV (other bits unchanged); the bytes
      are appended after the reply so far. The C does not check capacity; the model
      requires the reply to fit. */
  function SetReply(s: AppState, data: seq<bv8>): (r: AppState)
    requires s.Valid() && s.replyLen + |data| <= REPLY_SIZE
    ensures r.Valid()
    ensures s.replyLen == 0 ==> r.stb & MAV == MAV && r.stb & !MAV == s.stb & !MAV
    ensures s.replyLen != 0 ==> r.stb == s.stb
    ensures r.replyLen == s.replyLen + |data|
    ensures r.reply[..r.replyLen] == s.reply[..s.replyLen] + data
    ensures r.reply[r.replyLen..] == s.reply[r.replyLen..]
    ensures r.(reply := s.reply, replyLen := s.replyLen, stb := s.stb) == s
  {
    var stored := Splice(s.reply, s.replyLen, data);
    assert stored[..s.replyLen + |data|] == s.reply[..s.replyLen] + data;
    s.(stb := if s.replyLen == 0 then SetBits(s.stb, MAV) else s.stb,
       reply := stored,
       replyLen := s.replyLen + |data|)
  }

  /** setControlReply (usb/usbtmc_app.c:353-355), reached from SCPI_Control with
      SCPI_CTRL_SRQ: only a service request is sent; no state changes. */
  function SetControlReply(s: AppState): (r: AppState)
    ensures r.log == s.log + [SendSrq]
    ensures r.(log := s.log) == s
    ensures s.Valid() ==> r.Valid()
  {
    s.(log := s.log + [SendSrq])
  }

  /** tud_usbtmc_get_stb_cb (usb/usbtmc_app.c:317-328): READ_STATUS_BYTE hands the
      host the status byte as it was and clears SRQ, only SRQ (section 4.3.1 of
      USBTMC-USB488). */
  function GetStb(s: AppState): (r: StbRead)
    ensures r.stb == s.stb
    ensures r.next.stb & SRQ == 0
    ensures r.next.stb & !SRQ == s.stb & !SRQ
    ensures r.next.(stb := s.stb) == s
    ensures s.Valid() ==> r.next.Valid()
  {
    StbRead(s.(stb := ClearBits(s.stb, SRQ)), s.stb)
  }

  /** tud_usbtmc_msg_trigger_cb (usb/usbtmc_app.c:122-137): the instrument's trigger
      handler is called, then SRQ is set; no other bit or field changes. */
  function MsgTrigger(s: AppState): (r: AppState)
    ensures r.stb & SRQ == SRQ
    ensures r.stb & !SRQ == s.stb & !SRQ
    ensures r.log == s.log + [InstrumentTrigger]
    ensures r.(stb := s.stb, log := s.log) == s
    ensures s.Valid() ==> r.Valid()
  {
    s.(stb := SetBits(s.stb, SRQ), log := s.log + [InstrumentTrigger])
  }

  /** tud_usbtmc_initiate_clear_cb (usb/usbtmc_app.c:259-268): idle, no request
      outstanding, status byte zero; buffers and cursors are left alone. */
  function InitiateClear(s: AppState): (r: AppState)
    ensures r.stb == 0 && r.queryState == ReadyForScpiCmd && !r.bulkInStarted
    ensures r.(stb := s.stb, queryState := s.queryState, bulkInStarted := s.bulkInStarted) == s
    ensures s.Valid() ==> r.Valid()
  {
    s.(queryState := ReadyForScpiCmd, bulkInStarted := false, stb := 0)
  }

  /** tud_usbtmc_check_clear_cb (usb/usbtmc_app.c:270-282): as InitiateClear, and the
      command buffer and its cursor are emptied; the reply buffer is left alone. */
  function CheckClear(s: AppState): (r: AppState)
    ensures s.Valid() ==> r.Valid()
    ensures r.stb == 0 && r.queryState == ReadyForScpiCmd && !r.bulkInStarted
    ensures r.bufferLen == 0 && r.bufferTxIx == 0
    ensures r.(stb := s.stb, queryState := s.queryState, bulkInStarted := s.bulkInStarted,
               bufferLen := s.bufferLen, bufferTxIx := s.bufferTxIx) == s
  {
    s.(queryState := ReadyForScpiCmd, bulkInStarted := false, stb := 0, bufferTxIx := 0, bufferLen := 0)
  }

  /** tud_usbtmc_initiate_abort_bulk_in_cb (usb/usbtmc_app.c:283-288): only the
      outstanding-request flag is dropped; buffered data and cursors are untouched. */
  function InitiateAbortBulkIn(s: AppState): (r: AppState)
    ensures !r.bulkInStarted
    ensures r.(bulkInStarted := s.bulkInStarted) == s
    ensures s.Valid() ==> r.Valid()
  {
    s.(bulkInStarted := false)
  }

  /** The callbacks whose only effect is tud_usbtmc_start_bus_read(): check_abort_bulk_in
      and check_abort_bulk_out (usb/usbtmc_app.c:289-307), open (105-109) and the
      bulk-OUT clear-feature callback (312-315). The host may send the next bulk-OUT
      transfer; no variable changes. initiate_abort_bulk_out (296-301) and the bulk-IN
      clear-feature callback (309-311) change nothing at all and need no function. */
  function ReadBus(s: AppState): (r: AppState)
    ensures r.log == s.log + [StartBusRead]
    ensures r.(log := s.log) == s
    ensures s.Valid() ==> r.Valid()
  {
    s.(log := s.log + [StartBusRead])
  }

  /** tud_usbtmc_indicator_pulse_cb (usb/usbtmc_app.c:330-336): the board's indicator
      LED is pulsed; the bridge state is untouched. */
  function IndicatorPulse(s: AppState): (r: AppState)
    ensures r.log == s.log + [LedPulse]
    ensures r.(log := s.log) == s
    ensures s.Valid() ==> r.Valid()
  {
    s.(log := s.log + [LedPulse])
  }
}
