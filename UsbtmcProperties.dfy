/** Properties of the bridge that span several callbacks: reassembly of a fragmented
    command, the served branch of the bulk-IN request (usb/usbtmc_app.c:214-220) and the
    one-chunk command echo, a whole query/reply cycle, and
    clear followed by aborts. All are stated over the transition functions of Usbtmc,
    which the class in UsbtmcApp is proved to implement. */
module UsbtmcProperties {
  import opened StatusByte
  import opened Usbtmc

  // ---------------------------------------------------------------------------
  // What the interpreter was given

  /** The commands handed to scpi_instrument_input, in call order. */
  function Inputs(log: seq<Event>): seq<seq<bv8>>
    decreases |log|
  {
    if log == [] then []
    else
      var e := log[|log| - 1];
      Inputs(log[..|log| - 1]) + (if e.InstrumentInput? then [e.command] else [])
  }

  lemma {:induction false} InputsAppend(a: seq<Event>, b: seq<Event>)
    ensures Inputs(a + b) == Inputs(a) + Inputs(b)
    decreases |b|
  {
    if b == [] {
      assert a + b == a;
    } else {
      var b' := b[..|b| - 1];
      assert (a + b)[..|a + b| - 1] == a + b';
      InputsAppend(a, b');
    }
  }

  /** An accepted fragment adds its own bytes to the interpreter's input exactly when
      it is a query, and nothing otherwise. */
  lemma InputsOfFragment(log: seq<Event>, data: seq<bv8>, transferComplete: bool)
    ensures Inputs(log + QueryInput(data, transferComplete) + [StartBusRead]) ==
            Inputs(log) + (if IsQuery(data, transferComplete) then [data] else [])
  {
    var q := QueryInput(data, transferComplete);
    InputsAppend(log + q, [StartBusRead]);
    InputsAppend(log, q);
    assert [StartBusRead][..0] == [];
    if IsQuery(data, transferComplete) {
      assert q[..0] == [];
    }
  }

  // ---------------------------------------------------------------------------
  // Reassembling a fragmented bulk-OUT message

  function Flatten(frags: seq<seq<bv8>>): seq<bv8> {
    if frags == [] then [] else frags[0] + Flatten(frags[1..])
  }

  /** The fragments of one transfer delivered in order, the last one marked
      transfer-complete, stopping at the first fragment the callback refuses. */
  function Feed(s: AppState, frags: seq<seq<bv8>>): (r: Handled)
    requires s.Valid()
    ensures r.next.Valid()
    ensures r.next.bufferLen >= s.bufferLen
    decreases |frags|
  {
    if frags == [] then Handled(s, true)
    else
      var h := MsgData(s, frags[0], |frags| == 1);
      if !h.ok then h else Feed(h.next, frags[1..])
  }

  /** Fragments that fit are all accepted and stored back to back after what the buffer
      held, the rest of the array is untouched, and the transfer ends with a command
      received. */
  lemma {:induction false} FeedReassembles(s: AppState, frags: seq<seq<bv8>>)
    requires s.Valid() && |frags| >= 1
    requires s.bufferLen + |Flatten(frags)| < BUFFER_SIZE
    ensures var r := Feed(s, frags);
      r.ok &&
      r.next.bufferLen == s.bufferLen + |Flatten(frags)| &&
      r.next.buffer[..r.next.bufferLen] == s.buffer[..s.bufferLen] + Flatten(frags) &&
      r.next.buffer[r.next.bufferLen..] == s.buffer[r.next.bufferLen..] &&
      r.next.queryState == ScpiCmdReceived && r.next.replyLen == 0
    decreases |frags|
  {
    var f := frags[0];
    var h := MsgData(s, f, |frags| == 1);
    assert Flatten(frags) == f + Flatten(frags[1..]);
    assert h.ok;
    if |frags| == 1 {
      assert Feed(s, frags) == Feed(h.next, []);
    } else {
      var rest := frags[1..];
      FeedReassembles(h.next, rest);
      var r := Feed(h.next, rest);
      assert Feed(s, frags) == r;
      calc {
        r.next.buffer[..r.next.bufferLen];
        h.next.buffer[..h.next.bufferLen] + Flatten(rest);
        (s.buffer[..s.bufferLen] + f) + Flatten(rest);
        s.buffer[..s.bufferLen] + Flatten(frags);
      }
      assert r.next.buffer[r.next.bufferLen..] == h.next.buffer[h.next.bufferLen..][r.next.bufferLen - h.next.bufferLen..];
    }
  }

  /** When the fragments fit, the interpreter is called at most once, and with the LAST
      fragment alone, not with the reassembled command. */
  lemma {:induction false} FeedInputsLastFragment(s: AppState, frags: seq<seq<bv8>>)
    requires s.Valid() && |frags| >= 1
    requires s.bufferLen + |Flatten(frags)| < BUFFER_SIZE
    ensures var last := frags[|frags| - 1];
      Inputs(Feed(s, frags).next.log) == Inputs(s.log) + (if |last| >= 1 then [last] else [])
    decreases |frags|
  {
    var f := frags[0];
    var h := MsgData(s, f, |frags| == 1);
    assert Flatten(frags) == f + Flatten(frags[1..]);
    assert h.ok;
    InputsOfFragment(s.log, f, |frags| == 1);
    if |frags| == 1 {
      assert Feed(s, frags) == Feed(h.next, []);
    } else {
      var rest := frags[1..];
      FeedInputsLastFragment(h.next, rest);
      assert Feed(s, frags) == Feed(h.next, rest);
      assert rest[|rest| - 1] == frags[|frags| - 1];
    }
  }

  /** Fragments that together do not fit are refused: the feed reports failure and the
      interpreter is never called. The refused fragment does not reset the buffer, so
      whatever was stored before it stays. */
  lemma {:induction false} FeedOverflow(s: AppState, frags: seq<seq<bv8>>)
    requires s.Valid()
    requires s.bufferLen + |Flatten(frags)| >= BUFFER_SIZE
    ensures var r := Feed(s, frags);
      !r.ok && Inputs(r.next.log) == Inputs(s.log) &&
      r.next.buffer[..s.bufferLen] == s.buffer[..s.bufferLen]
    decreases |frags|
  {
    var h := MsgData(s, frags[0], |frags| == 1);
    if h.ok {
      assert |frags| != 1;
      InputsOfFragment(s.log, frags[0], false);
      assert Flatten(frags) == frags[0] + Flatten(frags[1..]);
      FeedOverflow(h.next, frags[1..]);
      assert h.next.buffer[..s.bufferLen] == (h.next.buffer[..h.next.bufferLen])[..s.bufferLen];
    }
  }

  /** "*ID" then "N?" (final) after the bulk-OUT start: the buffer holds "*IDN?", but
      the interpreter receives "N?". */
  lemma IdnSplitAcrossFragments(s: AppState)
    requires s.Valid()
    ensures var start := MsgBulkOutStart(s, 5);
      var r := Feed(start.next, [[0x2A, 0x49, 0x44], [0x4E, 0x3F]]);
      start.ok && r.ok &&
      r.next.buffer[..r.next.bufferLen] == [0x2A, 0x49, 0x44, 0x4E, 0x3F] &&
      Inputs(r.next.log) == Inputs(s.log) + [[0x4E, 0x3F]]
  {
    var frags: seq<seq<bv8>> := [[0x2A, 0x49, 0x44], [0x4E, 0x3F]];
    assert Flatten(frags) == [0x2A, 0x49, 0x44] + Flatten(frags[1..]);
    assert Flatten(frags[1..]) == [0x4E, 0x3F] + Flatten(frags[2..]);
    var start := MsgBulkOutStart(s, 5);
    FeedReassembles(start.next, frags);
    FeedInputsLastFragment(start.next, frags);
  }

  // ---------------------------------------------------------------------------
  // The served branch of the bulk-IN request (usb/usbtmc_app.c:214-220)

  /** The bytes carried by the Transmit events of a log, in order. */
  function Payload(events: seq<Event>): seq<bv8> {
    if events == [] then []
    else (if events[0].Transmit? then events[0].bytes else []) + Payload(events[1..])
  }

  /** Reference chunking: `data` cut into transfers of `size` bytes, the last one
      holding what is left, with EOM on the last only. */
  function Chunks(data: seq<bv8>, size: nat): seq<Event>
    requires size > 0
    decreases |data|
  {
    if |data| <= size then [Transmit(data, true)]
    else [Transmit(data[..size], false)] + Chunks(data[size..], size)
  }

  /** What the chunking promises: at least one transfer, each of at most `size` bytes,
      EOM on the last one only, and together exactly `data`, in order. */
  lemma {:induction false} ChunksWellFormed(data: seq<bv8>, size: nat)
    requires size > 0
    ensures var r := Chunks(data, size);
      |r| >= 1 && Payload(r) == data &&
      forall i | 0 <= i < |r| :: r[i].Transmit? && |r[i].bytes| <= size && (r[i].eom <==> i == |r| - 1)
    decreases |data|
  {
    if |data| > size {
      var rest := Chunks(data[size..], size);
      ChunksWellFormed(data[size..], size);
      var r := [Transmit(data[..size], false)] + rest;
      assert r[1..] == rest;
      assert data == data[..size] + data[size..];
      forall i | 0 <= i < |r|
        ensures r[i].Transmit? && |r[i].bytes| <= size && (r[i].eom <==> i == |r| - 1)
      {
        if i > 0 {
          assert r[i] == rest[i - 1];
        }
      }
    }
  }

  /** `n` bulk-IN requests of `size` bytes in a row. */
  function Requests(s: AppState, size: uint32, n: nat): (r: AppState)
    requires s.Valid()
    ensures r.Valid()
    decreases n
  {
    if n == 0 then s else Requests(MsgBulkInRequest(s, size).next, size, n - 1)
  }

  /** One request in the served branch sends the next min(remaining, size) stored
      bytes and moves the cursor past them; msgReqLen becomes the requested size and
      every other field is unchanged. */
  lemma RequestOnce(s: AppState, size: uint32)
    requires s.Valid() && !MustNak(s)
    ensures var t := MsgBulkInRequest(s, size).next;
      var rest := s.buffer[s.bufferTxIx..s.bufferLen];
      var n := Min(|rest|, size);
      t.Valid() && t.bufferTxIx == s.bufferTxIx + n &&
      t.log == s.log + [Transmit(rest[..n], n == |rest|)] &&
      t.buffer == s.buffer && t.bufferLen == s.bufferLen && t.queryState == s.queryState &&
      t.buffer[t.bufferTxIx..t.bufferLen] == rest[n..] &&
      t.msgReqLen == size && t.(msgReqLen := s.msgReqLen, bufferTxIx := s.bufferTxIx, log := s.log) == s
  {
    var t := MsgBulkInRequest(s, size).next;
    var rest := s.buffer[s.bufferTxIx..s.bufferLen];
    var n := Min(|rest|, size);
    assert s.buffer[s.bufferTxIx..t.bufferTxIx] == rest[..n];
  }

  /** The served (non-NAK) branch of the bulk-IN request on its own: from any state
      with the cursor past 0 and a command cycle under way, repeated requests send the
      rest of the stored command exactly as Chunks cuts it (each transfer at most the
      requested size, EOM only on the last, together the bytes from the cursor to the
      stored length), after which the cursor sits at the stored length. The bridge's
      own echo never reaches such a state: see EchoStopsAfterOneChunk. */
  lemma {:induction false} RequestsDrain(s: AppState, size: uint32)
    requires s.Valid() && s.queryState != ReadyForScpiCmd && s.bufferTxIx > 0 && size > 0
    ensures var chunks := Chunks(s.buffer[s.bufferTxIx..s.bufferLen], size);
      var r := Requests(s, size, |chunks|);
      r.log == s.log + chunks && r.bufferTxIx == s.bufferLen &&
      r.buffer == s.buffer && r.bufferLen == s.bufferLen && r.queryState == s.queryState
    decreases s.bufferLen - s.bufferTxIx
  {
    var rest := s.buffer[s.bufferTxIx..s.bufferLen];
    var t := MsgBulkInRequest(s, size).next;
    RequestOnce(s, size);
    if |rest| <= size {
      assert rest[..|rest|] == rest;
      assert Chunks(rest, size) == [Transmit(rest, true)];
      assert Requests(s, size, 1) == Requests(t, size, 0);
    } else {
      RequestsDrain(t, size);
      var tail := Chunks(rest[size..], size);
      assert Chunks(rest, size) == [Transmit(rest[..size], false)] + tail;
      assert Requests(s, size, 1 + |tail|) == Requests(t, size, |tail|);
    }
  }

  /** The echo a tick starts is never continued. The tick that sends the first
      min(buffer_len, msgReqLen) command bytes also returns the bridge to idle (no
      reply is pending), so a request before or after the completion callback is
      NAKed and transmits nothing. If that first chunk was not the whole command and
      no query was recorded, the completion keeps the request outstanding and every
      later request fails the TU_ASSERT. */
  lemma EchoStopsAfterOneChunk(s: AppState, size: uint32)
    requires s.Valid() && s.queryState == ReadyToReply && s.bulkInStarted
    requires s.bufferTxIx == 0 && s.replyLen == 0
    ensures var n := Min(s.bufferLen, s.msgReqLen);
      var t := TaskIter(s);
      var c := MsgBulkInComplete(t);
      var q := MsgBulkInRequest(c, size);
      t.log == s.log + [Transmit(s.buffer[..n], n == s.bufferLen)] &&
      t.queryState == ReadyForScpiCmd && t.bufferTxIx == n &&
      MustNak(t) && !MsgBulkInRequest(t, size).ok &&
      MustNak(c) && q.next.log == c.log &&
      (n < s.bufferLen && !s.queryReceived ==> c.bulkInStarted && !q.ok)
  {
  }

  // ---------------------------------------------------------------------------
  // Clear, then any aborts

  /** The four abort callbacks a host may issue. */
  datatype AbortRequest = InitiateIn | CheckIn | InitiateOut | CheckOut

  function ApplyAbort(s: AppState, a: AbortRequest): AppState {
    match a
    case InitiateIn => InitiateAbortBulkIn(s)
    case CheckIn => ReadBus(s)
    case InitiateOut => s
    case CheckOut => ReadBus(s)
  }

  function ApplyAborts(s: AppState, aborts: seq<AbortRequest>): AppState
    decreases |aborts|
  {
    if aborts == [] then s else ApplyAborts(ApplyAbort(s, aborts[0]), aborts[1..])
  }

  /** Idle with nothing owed to the host: STB zero, no request outstanding, command
      buffer and cursor empty. */
  predicate Quiescent(s: AppState) {
    s.stb == 0 && s.queryState == ReadyForScpiCmd && !s.bulkInStarted &&
    s.bufferLen == 0 && s.bufferTxIx == 0
  }

  /** Aborts only drop the outstanding request and ask for bus reads: from an idle
      state they keep it idle and leave every field but the log as it was. */
  lemma {:induction false} AbortsKeepQuiescent(s: AppState, aborts: seq<AbortRequest>)
    requires Quiescent(s)
    ensures var r := ApplyAborts(s, aborts);
      Quiescent(r) && r.(log := s.log) == s
    decreases |aborts|
  {
    if aborts != [] {
      var t := ApplyAbort(s, aborts[0]);
      assert t.(log := s.log) == s;
      AbortsKeepQuiescent(t, aborts[1..]);
    }
  }

  /** The only calls aborts make are bus reads: the interpreter is never invoked and
      nothing is transmitted. */
  lemma {:induction false} AbortsOnlyReadBus(s: AppState, aborts: seq<AbortRequest>)
    ensures var r := ApplyAborts(s, aborts);
      |r.log| >= |s.log| && r.log[..|s.log|] == s.log &&
      forall i | |s.log| <= i < |r.log| :: r.log[i] == StartBusRead
    decreases |aborts|
  {
    if aborts != [] {
      var t := ApplyAbort(s, aborts[0]);
      assert t.log == s.log || t.log == s.log + [StartBusRead];
      AbortsOnlyReadBus(t, aborts[1..]);
    }
  }

  /** check_clear followed by any aborts leaves the bridge idle with STB zero and an
      empty command buffer. The reply bytes and reply_len are what they were: neither
      clear callback resets them. */
  lemma ClearThenAborts(s: AppState, aborts: seq<AbortRequest>)
    ensures var r := ApplyAborts(CheckClear(s), aborts);
      Quiescent(r) && r.replyLen == s.replyLen && r.reply == s.reply && r.buffer == s.buffer
    ensures s.Valid() ==> ApplyAborts(CheckClear(s), aborts).Valid()
  {
    AbortsKeepQuiescent(CheckClear(s), aborts);
  }

  /** initiate_clear followed by any aborts: idle, STB zero, no request outstanding, but
      the command buffer length and cursor are kept. */
  lemma {:induction false} InitiateClearThenAborts(s: AppState, aborts: seq<AbortRequest>)
    ensures var r := ApplyAborts(InitiateClear(s), aborts);
      r.stb == 0 && r.queryState == ReadyForScpiCmd && !r.bulkInStarted &&
      r.bufferLen == s.bufferLen && r.bufferTxIx == s.bufferTxIx
    decreases |aborts|
  {
    if aborts != [] {
      var t := ApplyAbort(InitiateClear(s), aborts[0]);
      assert InitiateClear(t) == t;
      InitiateClearThenAborts(t, aborts[1..]);
    }
  }

  /** Every clear and abort callback is idempotent in its effect on the state, apart
      from the bus reads it logs. */
  lemma ClearAbortIdempotent(s: AppState)
    ensures InitiateClear(InitiateClear(s)) == InitiateClear(s)
    ensures CheckClear(CheckClear(s)).(log := s.log) == CheckClear(s)
    ensures InitiateAbortBulkIn(InitiateAbortBulkIn(s)) == InitiateAbortBulkIn(s)
    ensures ReadBus(ReadBus(s)).(log := s.log) == s
  {
  }

  // ---------------------------------------------------------------------------
  // The status byte

  /** A trigger raises SRQ; the host's next READ_STATUS_BYTE reports it and clears it,
      so a second read reports it clear; MAV and every other bit are never touched. */
  lemma TriggerThenReadStb(s: AppState)
    ensures var first := GetStb(MsgTrigger(s));
      var second := GetStb(first.next);
      first.stb & SRQ == SRQ && second.stb & SRQ == 0 &&
      second.stb & !SRQ == s.stb & !SRQ &&
      second.next.log == s.log + [InstrumentTrigger] && second.next.(stb := s.stb, log := s.log) == s
  {
  }

  // ---------------------------------------------------------------------------
  // Replies written in parts

  /** The interpreter may write a reply in several parts: two writes leave the same
      state as one write of both parts together, so MAV is raised once, by the first. */
  lemma SetReplyInParts(s: AppState, first: seq<bv8>, second: seq<bv8>)
    requires s.Valid() && s.replyLen + |first| + |second| <= REPLY_SIZE
    ensures SetReply(SetReply(s, first), second) == SetReply(s, first + second)
  {
    var two := SetReply(SetReply(s, first), second);
    var one := SetReply(s, first + second);
    assert two.reply[..two.replyLen] == one.reply[..one.replyLen];
    assert two.reply == two.reply[..two.replyLen] + two.reply[two.replyLen..];
    assert one.reply == one.reply[..one.replyLen] + one.reply[one.replyLen..];
  }

  // ---------------------------------------------------------------------------
  // One query from command to reply

  /** A whole query cycle from idle: bulk-OUT start, the query in one final fragment,
      the interpreter's reply, a tick, the host's bulk-IN request (NAKed: no data yet),
      a tick that sends the reply, and the transfer-complete callback.
      MAV is set while the reply waits and cleared at the end, no other STB bit moves;
      the host receives ONE transfer with EOM, holding the first min(reply, requested)
      reply bytes (a longer reply is cut, not chunked); the bridge ends idle. */
  lemma QueryCycle(s: AppState, query: seq<bv8>, answer: seq<bv8>, size: uint32)
    requires s.Valid() && !s.bulkInStarted
    requires 1 <= |query| < BUFFER_SIZE && 1 <= |answer| <= REPLY_SIZE
    ensures
      var start := MsgBulkOutStart(s, |query|);
      var data := MsgData(start.next, query, true);
      var replied := SetReply(data.next, answer);
      var ticked := TaskIter(replied);
      var request := MsgBulkInRequest(ticked, size);
      var sent := TaskIter(request.next);
      var done := MsgBulkInComplete(sent);
      start.ok && data.ok && request.ok &&
      replied.stb & MAV == MAV &&
      done.log == s.log + [InstrumentInput(query), StartBusRead,
                           Transmit(answer[..Min(|answer|, size)], true), StartBusRead] &&
      done.stb & MAV == 0 && done.stb & !MAV == s.stb & !MAV &&
      done.queryState == ReadyForScpiCmd && !done.bulkInStarted && !done.queryReceived &&
      done.replyLen == 0 && done.bufferTxIx == 0 &&
      done.buffer[..done.bufferLen] == query
  {
    var start := MsgBulkOutStart(s, |query|);
    var data := MsgData(start.next, query, true);
    assert data.ok && data.next.replyLen == 0 && data.next.queryReceived;
    var replied := SetReply(data.next, answer);
    assert replied.reply[..|answer|] == answer;
    var ticked := TaskIter(replied);
    assert ticked.queryState == ReadyToReply;
    var request := MsgBulkInRequest(ticked, size);
    assert MustNak(ticked) && request.next.bulkInStarted;
    var n := Min(|answer|, size);
    assert request.next.reply[..n] == answer[..n] by {
      assert request.next.reply[..|answer|] == answer;
    }
    var sent := TaskIter(request.next);
    assert sent.log == request.next.log + [Transmit(answer[..Min(|answer|, size)], true)];
  }
}
