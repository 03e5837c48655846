/** The bridge of usb/usbtmc_app.c as an object: its fields are the file-level
    variables, the two fixed-size byte arrays are updated in place, and there is one
    method per callback. The bulk-OUT start method is the corrected one, which also
    resets the transmit cursor (see CursorFinding); every other method does what the C
    does. Calls into TinyUSB and the SCPI interpreter are appended to a
    ghost log instead of being performed. Every method is proved to make exactly the
    transition that its function in module Usbtmc describes (ReadBus for the callbacks
    that only request a bus read; none for the two that change nothing). */
module UsbtmcApp {
  import opened StatusByte
  import opened Usbtmc

  /** The USBTMC status code the callbacks write through `tmcResult`. Of the codes in
      table 16 of the USBTMC specification this bridge only ever reports success, so
      only that one is declared. */
  datatype UsbtmcStatus = StatusSuccess

  /** `memcpy(&dst[at], data, |data|)`. */
  method MemCopy(dst: array<bv8>, at: nat, data: seq<bv8>)
    requires at + |data| <= dst.Length
    modifies dst
    ensures dst[..] == Splice(old(dst[..]), at, data)
  {
    forall i | 0 <= i < |data| {
      dst[at + i] := data[i];
    }
    assert dst[..] == Splice(old(dst[..]), at, data);
  }

  class App {
    var queryState: QueryState
    var bulkInStarted: bool
    /** `uint8_t buffer[225]`: reassembled bulk-OUT command bytes. */
    const buffer: array<bv8>
    var bufferLen: nat
    /** How much of `buffer` has been echoed to the host. */
    var bufferTxIx: nat
    /** `char reply[256]`: what the SCPI interpreter wrote back. */
    const reply: array<bv8>
    var replyLen: nat
    var queryReceived: bool
    /** The size the host asked for in the last bulk-IN request. */
    var msgReqLen: uint32
    /** The SCPI library's STB register, read and written through getSTB/setSTB. */
    var stb: bv8
    /** Calls made into TinyUSB and the interpreter, oldest first. */
    ghost var log: seq<Event>

    /** The object's fields as an Usbtmc.AppState value. */
    ghost function State(): AppState
      reads this, buffer, reply
    {
      AppState(queryState, bulkInStarted, buffer[..], bufferLen, bufferTxIx,
               reply[..], replyLen, queryReceived, msgReqLen, stb, log)
    }

    ghost predicate Valid()
      reads this, buffer, reply
    {
      buffer != reply && State().Valid()
    }

    /** Power-up: every variable zero, as C static storage is. */
    constructor ()
      ensures Valid() && fresh(buffer) && fresh(reply)
      ensures State() == Initial()
    {
      buffer := new bv8[BUFFER_SIZE](_ => 0);
      reply := new bv8[REPLY_SIZE](_ => 0);
      queryState := ReadyForScpiCmd;
      bulkInStarted := false;
      bufferLen := 0;
      bufferTxIx := 0;
      replyLen := 0;
      queryReceived := false;
      msgReqLen := 0;
      stb := 0;
      log := [];
      new;
      assert buffer[..] == Initial().buffer;
      assert reply[..] == Initial().reply;
    }

    /** The corrected start: unlike usb/usbtmc_app.c:142 it also resets the cursor. */
    method MsgBulkOutStart(transferSize: uint32) returns (ok: bool)
      requires Valid()
      modifies this
      ensures Valid()
      ensures Handled(State(), ok) == Usbtmc.MsgBulkOutStart(old(State()), transferSize)
    {
      bufferLen := 0;
      bufferTxIx := 0;
      ok := transferSize <= BUFFER_SIZE;
    }

    method MsgData(data: seq<bv8>, transferComplete: bool) returns (ok: bool)
      requires Valid()
      modifies this, buffer
      ensures Valid()
      ensures Handled(State(), ok) == Usbtmc.MsgData(old(State()), data, transferComplete)
    {
      if |data| + bufferLen < BUFFER_SIZE {
        StoreFragment(data, transferComplete);
        ok := true;
      } else {
        ok := false;  // buffer overflow: nothing is reset
      }
    }

    /** The accepting branch of MsgData. */
    method StoreFragment(data: seq<bv8>, transferComplete: bool)
      requires Valid() && |data| + bufferLen < BUFFER_SIZE
      modifies this, buffer
      ensures Valid()
      ensures State() == Usbtmc.StoreFragment(old(State()), data, transferComplete)
    {
      MemCopy(buffer, bufferLen, data);
      bufferLen := bufferLen + |data|;
      queryState := if transferComplete then ScpiCmdReceived else ReadyForScpiCmd;
      replyLen := 0;
      queryReceived := false;
      if transferComplete && |data| >= 1 {
        queryReceived := true;
        log := log + [InstrumentInput(data)];
      }
      log := log + [StartBusRead];
    }

    method MsgBulkInComplete() returns (ok: bool)
      requires Valid()
      modifies this
      ensures Valid()
      ensures ok && State() == Usbtmc.MsgBulkInComplete(old(State()))
    {
      if bufferTxIx == bufferLen || queryReceived {
        stb := ClearBits(stb, MAV);
        queryState := ReadyForScpiCmd;
        bulkInStarted := false;
        bufferTxIx := 0;
        queryReceived := false;
      }
      log := log + [StartBusRead];
      ok := true;
    }

    method MsgBulkInRequest(transferSize: uint32) returns (ok: bool)
      requires Valid()
      modifies this
      ensures Valid()
      ensures Handled(State(), ok) == Usbtmc.MsgBulkInRequest(old(State()), transferSize)
    {
      msgReqLen := transferSize;
      if queryState == ReadyForScpiCmd || bufferTxIx == 0 {
        if bulkInStarted {
          return false;  // TU_ASSERT(bulkInStarted == false)
        }
        bulkInStarted := true;
      } else {
        var txLen := Min(bufferLen - bufferTxIx, msgReqLen);
        log := log + [Transmit(buffer[bufferTxIx..bufferTxIx + txLen], bufferTxIx + txLen == bufferLen)];
        bufferTxIx := bufferTxIx + txLen;
      }
      ok := true;
    }

    method TaskIter()
      requires Valid()
      modifies this
      ensures Valid()
      ensures State() == Usbtmc.TaskIter(old(State()))
    {
      match queryState
      case ReadyForScpiCmd =>
      case ScpiCmdReceived =>
        queryState := ReadyToReply;
      case ReadyToReply =>
        if bulkInStarted && bufferTxIx == 0 {
          if replyLen != 0 {
            log := log + [Transmit(reply[..Min(replyLen, msgReqLen)], true)];
            queryState := ReadyForScpiCmd;
            bulkInStarted := false;
            replyLen := 0;
          } else {
            bufferTxIx := Min(bufferLen, msgReqLen);
            log := log + [Transmit(buffer[..bufferTxIx], bufferTxIx == bufferLen)];
          }
        }
        if queryState == ReadyToReply && replyLen == 0 {
          queryState := ReadyForScpiCmd;
        }
    }

    method SetReply(data: seq<bv8>)
      requires Valid() && replyLen + |data| <= REPLY_SIZE
      modifies this, reply
      ensures Valid()
      ensures State() == Usbtmc.SetReply(old(State()), data)
    {
      if replyLen == 0 {
        stb := SetBits(stb, MAV);
      }
      MemCopy(reply, replyLen, data);
      replyLen := replyLen + |data|;
    }

    method SetControlReply()
      requires Valid()
      modifies this
      ensures Valid()
      ensures State() == Usbtmc.SetControlReply(old(State()))
    {
      log := log + [SendSrq];
    }

    method GetStb() returns (status: bv8, tmcResult: UsbtmcStatus)
      requires Valid()
      modifies this
      ensures Valid()
      ensures StbRead(State(), status) == Usbtmc.GetStb(old(State()))
      ensures tmcResult == StatusSuccess
    {
      status := stb;
      stb := ClearBits(stb, SRQ);
      tmcResult := StatusSuccess;
    }

    method MsgTrigger() returns (ok: bool)
      requires Valid()
      modifies this
      ensures Valid()
      ensures ok && State() == Usbtmc.MsgTrigger(old(State()))
    {
      log := log + [InstrumentTrigger];
      stb := SetBits(stb, SRQ);
      ok := true;
    }

    method InitiateClear() returns (ok: bool, tmcResult: UsbtmcStatus)
      requires Valid()
      modifies this
      ensures Valid()
      ensures ok && tmcResult == StatusSuccess
      ensures State() == Usbtmc.InitiateClear(old(State()))
    {
      tmcResult := StatusSuccess;
      queryState := ReadyForScpiCmd;
      bulkInStarted := false;
      stb := 0;
      ok := true;
    }

    /** Also answers the host's clear-status query: success, and no bytes left in the
        bulk-IN FIFO. */
    method CheckClear() returns (ok: bool, tmcResult: UsbtmcStatus, bulkInFifoBytes: bool)
      requires Valid()
      modifies this
      ensures Valid()
      ensures ok && tmcResult == StatusSuccess && !bulkInFifoBytes
      ensures State() == Usbtmc.CheckClear(old(State()))
    {
      queryState := ReadyForScpiCmd;
      bulkInStarted := false;
      stb := 0;
      bufferTxIx := 0;
      bufferLen := 0;
      tmcResult := StatusSuccess;
      bulkInFifoBytes := false;
      ok := true;
    }

    method InitiateAbortBulkIn() returns (ok: bool, tmcResult: UsbtmcStatus)
      requires Valid()
      modifies this
      ensures Valid()
      ensures ok && tmcResult == StatusSuccess
      ensures State() == Usbtmc.InitiateAbortBulkIn(old(State()))
    {
      bulkInStarted := false;
      tmcResult := StatusSuccess;
      ok := true;
    }

    method CheckAbortBulkIn() returns (ok: bool)
      requires Valid()
      modifies this
      ensures Valid()
      ensures ok && State() == ReadBus(old(State()))
    {
      log := log + [StartBusRead];
      ok := true;
    }

    method InitiateAbortBulkOut() returns (ok: bool, tmcResult: UsbtmcStatus)
      requires Valid()
      ensures ok && tmcResult == StatusSuccess
      ensures State() == old(State())
    {
      tmcResult := StatusSuccess;
      ok := true;
    }

    method CheckAbortBulkOut() returns (ok: bool)
      requires Valid()
      modifies this
      ensures Valid()
      ensures ok && State() == ReadBus(old(State()))
    {
      log := log + [StartBusRead];
      ok := true;
    }

    method Open()
      requires Valid()
      modifies this
      ensures Valid()
      ensures State() == ReadBus(old(State()))
    {
      log := log + [StartBusRead];
    }

    method BulkInClearFeature()
      requires Valid()
      ensures State() == old(State())
    {
    }

    method BulkOutClearFeature()
      requires Valid()
      modifies this
      ensures Valid()
      ensures State() == ReadBus(old(State()))
    {
      log := log + [StartBusRead];
    }

    method IndicatorPulse() returns (ok: bool, tmcResult: UsbtmcStatus)
      requires Valid()
      modifies this
      ensures Valid()
      ensures ok && tmcResult == StatusSuccess
      ensures State() == Usbtmc.IndicatorPulse(old(State()))
    {
      log := log + [LedPulse];
      tmcResult := StatusSuccess;
      ok := true;
    }
  }

  /** A client of App, first half: "*ID" then "N?" over bulk-OUT into a fresh bridge.
      The interpreter receives only the final fragment, while the buffer holds all five
      bytes for the echo path. */
  method SendIdn() returns (app: App)
    ensures app.Valid()
    ensures app.buffer[..app.bufferLen] == [0x2A, 0x49, 0x44, 0x4E, 0x3F]
    ensures app.log == [StartBusRead, InstrumentInput([0x4E, 0x3F]), StartBusRead]
    ensures app.queryState == ScpiCmdReceived && app.queryReceived
    ensures app.bufferTxIx == 0 && app.replyLen == 0 && !app.bulkInStarted && app.stb == 0
  {
    app := new App();
    var ok := app.MsgBulkOutStart(5);
    ok := app.MsgData([0x2A, 0x49, 0x44], false);
    assert app.buffer[..3] == [0x2A, 0x49, 0x44];
    ok := app.MsgData([0x4E, 0x3F], true);
    assert app.buffer[..5] == app.buffer[..3] + [0x4E, 0x3F];
  }

  /** A client of App, second half: the interpreter writes a 12-byte answer back and the
      host asks for 8 bytes. The host receives one 8-byte transfer flagged
      end-of-message, and the completion callback clears MAV and returns to idle. */
  method ReplyIdn(app: App, answer: seq<bv8>)
    requires app.Valid() && |answer| == 12
    requires app.queryState == ScpiCmdReceived && app.queryReceived
    requires app.bufferTxIx == 0 && app.replyLen == 0 && !app.bulkInStarted
    modifies app, app.reply
    ensures app.Valid()
    ensures app.log == old(app.log) + [Transmit(answer[..8], true), StartBusRead]
    ensures app.stb & MAV == 0 && app.stb & !MAV == old(app.stb) & !MAV
    ensures app.queryState == ReadyForScpiCmd && app.replyLen == 0 && !app.bulkInStarted
  {
    app.SetReply(answer);
    assert app.reply[..8] == answer[..8];
    app.TaskIter();
    var ok := app.MsgBulkInRequest(8);
    assert ok && app.bulkInStarted && app.msgReqLen == 8 && app.replyLen == 12;
    app.TaskIter();
    assert app.log == old(app.log) + [Transmit(answer[..8], true)];
    ok := app.MsgBulkInComplete();
  }
}
