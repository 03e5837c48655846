/** The bulk-OUT start callback as the C writes it, which resets buffer_len but not the
    transmit cursor buffer_tx_ix, and an input sequence after which the cursor points
    past the stored command, so that the next bulk-IN request computes its length with
    a wrapped-around size_t subtraction and reads beyond the buffer. The rest of the
    model uses Usbtmc.MsgBulkOutStart, which resets both. */
module CursorFinding {
  import opened Usbtmc

  /** size_t on the RP2040 is 32 bits wide. */
  const SIZE_T_MODULUS: nat := 0x1_0000_0000

  /** tud_usbtmc_msgBulkOut_start_cb exactly as written (usb/usbtmc_app.c:139-149). */
  function MsgBulkOutStartAsWritten(s: AppState, transferSize: uint32): (r: Handled)
    ensures r.ok <==> transferSize <= BUFFER_SIZE
    ensures r.next.bufferLen == 0 && r.next.(bufferLen := s.bufferLen) == s
  {
    Handled(s.(bufferLen := 0), transferSize <= BUFFER_SIZE)
  }

  /** `tu_min32(buffer_len - buffer_tx_ix, msgReqLen)` (usb/usbtmc_app.c:216) with the
      subtraction done in size_t: once the cursor is past the length, the "remaining"
      count is close to 2^32 and the whole request size is granted. */
  function TxLenAsWritten(bufferLen: nat, bufferTxIx: nat, requested: uint32): (n: nat)
    requires bufferLen < SIZE_T_MODULUS && bufferTxIx < SIZE_T_MODULUS
    ensures n <= requested
    ensures bufferTxIx <= bufferLen ==> n == Min(bufferLen - bufferTxIx, requested)
    ensures bufferTxIx > bufferLen && requested <= SIZE_T_MODULUS - bufferTxIx ==> n == requested
  {
    Min((bufferLen - bufferTxIx) % SIZE_T_MODULUS, requested)
  }

  /** From idle with the cursor at 0, with the start callback as written: a 100-byte
      transfer whose final fragment is empty (so no query is recorded), a 64-byte
      bulk-IN request, two ticks (the second echoes 64 bytes) and the completion
      callback (which does not reset the cursor, since the echo is unfinished and no
      query was received). The host is now stuck: its next request fails the
      TU_ASSERT. A new 5-byte transfer started as written then leaves the cursor at 64
      with 0 bytes stored. For that state the lemma also gives the length a served
      request would then compute as written: a 200-byte request is granted in full,
      which from buffer[64] runs past the end of the 225-byte buffer. The corrected
      start keeps the invariant. */
  lemma StaleCursorAsWritten(s: AppState, cmd: seq<bv8>)
    requires s.Valid() && s.queryState == ReadyForScpiCmd && !s.bulkInStarted && s.bufferTxIx == 0
    requires |cmd| == 100
    ensures var s1 := MsgBulkOutStartAsWritten(s, 100).next;
      var d1 := MsgData(s1, cmd, false).next;
      var d2 := MsgData(d1, [], true).next;
      var q := MsgBulkInRequest(d2, 64).next;
      var echoed := MsgBulkInComplete(TaskIter(TaskIter(q)));
      echoed.bufferLen == 100 && echoed.bufferTxIx == 64 && echoed.bulkInStarted &&
      !MsgBulkInRequest(echoed, 64).ok &&
      var restarted := MsgBulkOutStartAsWritten(echoed, 5).next;
      restarted.bufferLen == 0 && restarted.bufferTxIx == 64 && !restarted.Valid() &&
      MsgBulkOutStart(echoed, 5).next.Valid()
    ensures TxLenAsWritten(5, 64, 200) == 200 && 64 + 200 > BUFFER_SIZE
  {
    var s1 := MsgBulkOutStartAsWritten(s, 100).next;
    assert s1.bufferLen == 0 && s1.bufferTxIx == 0;
    var d1 := MsgData(s1, cmd, false).next;
    assert d1.bufferLen == 100 && d1.bufferTxIx == 0 && d1.queryState == ReadyForScpiCmd && !d1.bulkInStarted;
    var d2 := MsgData(d1, [], true).next;
    assert d2.bufferLen == 100 && d2.bufferTxIx == 0 && d2.queryState == ScpiCmdReceived;
    assert !d2.queryReceived && !d2.bulkInStarted && d2.replyLen == 0;
    var q := MsgBulkInRequest(d2, 64).next;
    assert q.bulkInStarted && q.msgReqLen == 64 && q.bufferTxIx == 0 && q.queryState == ScpiCmdReceived;
    var t1 := TaskIter(q);
    assert t1.queryState == ReadyToReply && t1.bulkInStarted && t1.replyLen == 0 && t1.bufferTxIx == 0;
    var t2 := TaskIter(t1);
    assert t2.bufferTxIx == 64 && t2.bufferLen == 100 && t2.queryState == ReadyForScpiCmd;
    assert t2.bulkInStarted && !t2.queryReceived;
    var echoed := MsgBulkInComplete(t2);
    assert !TransferDone(t2);
  }
}
