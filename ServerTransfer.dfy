/** The server's two transfer functions: receive_file_server (Upload) and
    send_file_server (Download). Each is a method with the source's loop,
    proved equal to a recursive definition of the same loop, about which the
    properties are proved. */
module ServerTransfer {
  import opened Wire

  // ---------------------------------------------------------------------
  // receive_file_server

  /** The payload loop of receive_file_server from a state where
      `total_received == total`: each recv asks for
      min(4096, size - total) bytes; a negative result breaks the loop, any
      other is written to the file and added to the counter. */
  function ReceiveLoop(size: int, total: int, p: Peer): (t: Inbound)
    requires 0 <= total
    decreases |p.inbox|
    ensures t.size == size && t.ending != NotOpened
    ensures total <= t.total <= Max(size, total)
    ensures t.ending == Completed <==> t.total >= size
    ensures t.peer.acks == p.acks && t.peer.calls == p.calls && |t.peer.inbox| <= |p.inbox|
  {
    if total >= size then Inbound(size, total, [], Completed, p)
    else if p.inbox == [] then Inbound(size, total, [], Spinning, p)
    else
      var r := Recv(p, Min(ChunkSize, size - total));
      if r.count < 0 then Inbound(size, total, [], Aborted, r.peer)
      else
        var t := ReceiveLoop(size, total + r.count, r.peer);
        t.(chunks := [r.data] + t.chunks)
  }

  /** The counter counts exactly the bytes written to the file, and no
      write is longer than ChunkSize. */
  lemma {:induction false} ReceiveLoopWrites(size: int, total: int, p: Peer)
    requires 0 <= total
    decreases |p.inbox|
    ensures var t := ReceiveLoop(size, total, p);
      && t.total == total + |Concat(t.chunks)|
      && forall i :: 0 <= i < |t.chunks| ==> |t.chunks[i]| <= ChunkSize
  {
    if total < size && p.inbox != [] {
      var r := Recv(p, Min(ChunkSize, size - total));
      if r.count >= 0 {
        ReceiveLoopWrites(size, total + r.count, r.peer);
        var t := ReceiveLoop(size, total + r.count, r.peer);
        assert ReceiveLoop(size, total, p).chunks == [r.data] + t.chunks;
      }
    }
  }

  /** receive_file_server: open the file (or return), receive the 4-byte
      length, then run the payload loop. */
  function ServerUpload(isOpen: bool, p: Peer): (t: Inbound)
    ensures !isOpen ==> t.ending == NotOpened && t.peer == p && t.chunks == []
    ensures isOpen ==> t.size == PrefixValue(Recv(p, PrefixSize).data)
    ensures isOpen ==> t.ending != NotOpened
    ensures isOpen && p.inbox != [] ==> |t.peer.inbox| < |p.inbox|
    ensures t.peer.acks == p.acks && t.peer.calls == p.calls
    ensures 0 <= t.total == |Concat(t.chunks)| <= Max(t.size, 0)
  {
    if !isOpen then Inbound(0, 0, [], NotOpened, p)
    else
      var len := Recv(p, PrefixSize);
      ReceiveLoopWrites(PrefixValue(len.data), 0, len.peer);
      ReceiveLoop(PrefixValue(len.data), 0, len.peer)
  }

  /** receive_file_server: open the file (or return), receive the 4-byte
      length, then run the payload loop; `file` is what the ofstream holds
      when it is closed. */
  method ReceiveFileServer(isOpen: bool, peer: Peer) returns (file: seq<Byte>, t: Inbound)
    ensures t == ServerUpload(isOpen, peer)
    ensures file == Concat(t.chunks)
  {
    if !isOpen {
      return [], Inbound(0, 0, [], NotOpened, peer);
    }
    var len := Recv(peer, PrefixSize);
    file, t := ReceivePayload(PrefixValue(len.data), len.peer);
  }

  /** The `while (total_received < file_size)` loop of receive_file_server. */
  method ReceivePayload(size: int, peer: Peer) returns (file: seq<Byte>, t: Inbound)
    ensures t == ReceiveLoop(size, 0, peer)
    ensures file == Concat(t.chunks)
  {
    var p := peer;
    var total := 0;
    var chunks: seq<seq<Byte>> := [];
    file := [];
    ghost var goal := ReceiveLoop(size, 0, p);
    AfterWritesNone(goal);
    while total < size
      invariant 0 <= total
      invariant file == Concat(chunks)
      invariant goal == AfterWrites(chunks, ReceiveLoop(size, total, p))
      decreases |p.inbox|
    {
      if p.inbox == [] {
        // The peer has closed: this recv and every later one returns 0.
        t := Inbound(size, total, chunks, Spinning, p);
        AfterWritesEnd(chunks, t);
        return;
      }
      ReceiveLoopUnfold(size, total, p);
      var r := Recv(p, Min(ChunkSize, size - total));
      p := r.peer;
      if r.count < 0 {
        t := Inbound(size, total, chunks, Aborted, p);
        AfterWritesEnd(chunks, t);
        return;
      }
      ghost var next := ReceiveLoop(size, total + r.count, p);
      AfterWritesTwice(chunks, [r.data], next);
      ConcatAppend(chunks, r.data);
      file := file + r.data;
      chunks := chunks + [r.data];
      total := total + r.count;
    }
    t := Inbound(size, total, chunks, Completed, p);
    AfterWritesEnd(chunks, t);
  }

  /** One iteration of the receive loop, spelled out. */
  lemma ReceiveLoopUnfold(size: int, total: int, p: Peer)
    requires 0 <= total < size && p.inbox != []
    ensures var r := Recv(p, Min(ChunkSize, size - total));
      && (r.count < 0 ==> ReceiveLoop(size, total, p) == Inbound(size, total, [], Aborted, r.peer))
      && (r.count >= 0 ==>
            ReceiveLoop(size, total, p) == AfterWrites([r.data], ReceiveLoop(size, total + r.count, r.peer)))
  {
  }

  /** One iteration of the receive loop that reads a whole segment. */
  lemma ReceiveLoopStep(size: int, total: int, c: seq<Byte>, q: Peer, rest: Peer, total': int)
    requires 0 <= total < size && |c| <= size - total && |c| <= ChunkSize
    requires q.inbox != [] && q.inbox[0] == Segment(c) && rest == q.(inbox := q.inbox[1..])
    requires total' == total + |c|
    ensures ReceiveLoop(size, total, q) == AfterWrites([c], ReceiveLoop(size, total', rest))
  {
    ReceiveLoopUnfold(size, total, q);
    var r := Recv(q, Min(ChunkSize, size - total));
    assert r.count == |c| && r.data == c && r.peer == rest;
  }

  /** Replies that are whole chunks, each no longer than ChunkSize and
      together no longer than the bytes still expected, are each received
      whole and written in order; the loop then goes on from
      `last == total + |Concat(cs)|`. */
  lemma {:induction false} ReceiveLoopSegments(size: int, total: int, last: int, cs: seq<seq<Byte>>, p: Peer)
    requires 0 <= total
    requires forall i :: 0 <= i < |cs| ==> 0 < |cs[i]| <= ChunkSize
    requires last == total + |Concat(cs)| <= size
    decreases |cs|, 1
    ensures ReceiveLoop(size, total, p.(inbox := Segments(cs) + p.inbox)) ==
            AfterWrites(cs, ReceiveLoop(size, last, p))
  {
    if cs == [] {
      assert Segments(cs) + p.inbox == p.inbox;
      AfterWritesNone(ReceiveLoop(size, total, p));
    } else {
      var c, cs' := cs[0], cs[1..];
      ChunksTail(cs, cs');
      var q' := p.(inbox := Segments(cs') + p.inbox);
      var q := q'.(inbox := [Segment(c)] + q'.inbox);
      assert p.(inbox := Segments(cs) + p.inbox) == q;
      assert cs == [c] + cs';
      ReceiveLoopSegmentsStep(size, total, last, c, cs', p, q, q', total + |c|);
    }
  }

  lemma {:induction false} ReceiveLoopSegmentsStep(size: int, total: int, last: int, c: seq<Byte>,
      cs': seq<seq<Byte>>, p: Peer, q: Peer, q': Peer, total': int)
    requires 0 <= total && 0 < |c| <= ChunkSize && total' == total + |c|
    requires forall i :: 0 <= i < |cs'| ==> 0 < |cs'[i]| <= ChunkSize
    requires last == total' + |Concat(cs')| <= size
    requires q' == p.(inbox := Segments(cs') + p.inbox) && q == q'.(inbox := [Segment(c)] + q'.inbox)
    decreases |cs'| + 1, 0
    ensures ReceiveLoop(size, total, q) == AfterWrites([c] + cs', ReceiveLoop(size, last, p))
  {
    ReceiveLoopStep(size, total, c, q, q', total');
    ReceiveLoopSegments(size, total', last, cs', p);
    AfterWritesTwice([c], cs', ReceiveLoop(size, last, p));
  }

  /** Whole-chunk replies that add up to the declared size complete the
      transfer, and the file is exactly those chunks concatenated. */
  lemma ReceiveLoopDelivers(size: int, cs: seq<seq<Byte>>, p: Peer)
    requires forall i :: 0 <= i < |cs| ==> 0 < |cs[i]| <= ChunkSize
    requires |Concat(cs)| == size
    ensures var t := ReceiveLoop(size, 0, p.(inbox := Segments(cs) + p.inbox));
      t.ending == Completed && t.total == size && t.chunks == cs &&
      Concat(t.chunks) == Concat(cs) && t.peer == p
  {
    ReceiveLoopSegments(size, 0, |Concat(cs)|, cs, p);
  }

  /** A recv error after some whole chunks ends the loop: the chunks before
      it are written, the error itself writes nothing and is not counted,
      and no reply after it is read. */
  lemma ReceiveLoopStopsAtError(size: int, cs: seq<seq<Byte>>, p: Peer)
    requires forall i :: 0 <= i < |cs| ==> 0 < |cs[i]| <= ChunkSize
    requires |Concat(cs)| < size
    ensures var t := ReceiveLoop(size, 0, p.(inbox := Segments(cs) + [RecvError] + p.inbox));
      t.ending == Aborted && t.total == |Concat(cs)| && t.chunks == cs && t.peer == p
  {
    assert Segments(cs) + [RecvError] + p.inbox == Segments(cs) + ([RecvError] + p.inbox);
    ReceiveLoopSegments(size, 0, |Concat(cs)|, cs, p.(inbox := [RecvError] + p.inbox));
  }

  /** If every reply is a non-empty segment, every recv returns a positive
      count, and the loop falls short of the size only when the peer has
      no more replies; otherwise it completes with `total_received == file_size`. */
  lemma {:induction false} ReceiveLoopPositiveCompletes(size: int, total: int, p: Peer)
    requires 0 <= total
    requires forall i :: 0 <= i < |p.inbox| ==> p.inbox[i].Segment? && p.inbox[i].bytes != []
    decreases |p.inbox|
    ensures var t := ReceiveLoop(size, total, p);
      || (t.ending == Completed && t.total == Max(size, total))
      || (t.ending == Spinning && t.peer.inbox == [])
  {
    if total < size && p.inbox != [] {
      var r := Recv(p, Min(ChunkSize, size - total));
      assert r.count >= 1;
      ReceiveLoopPositiveCompletes(size, total + r.count, r.peer);
    }
  }

  /** A zero-byte recv writes nothing and leaves the counter where it was:
      the iteration makes no progress. */
  lemma ReceiveLoopZeroNoProgress(size: int, total: int, p: Peer)
    requires 0 <= total < size
    requires p.inbox != [] && p.inbox[0] == Segment([])
    ensures ReceiveLoop(size, total, p) ==
            AfterWrites([[]], ReceiveLoop(size, total, p.(inbox := p.inbox[1..])))
  {
  }

  /** A peer that only ever answers 0 (a closed connection) leaves the loop
      spinning with the counter unchanged and nothing written. */
  lemma {:induction false} ReceiveLoopClosedPeerSpins(size: int, total: int, p: Peer)
    requires 0 <= total < size
    requires forall i :: 0 <= i < |p.inbox| ==> p.inbox[i] == Segment([])
    decreases |p.inbox|
    ensures ReceiveLoop(size, total, p).ending == Spinning
    ensures ReceiveLoop(size, total, p).total == total
    ensures Concat(ReceiveLoop(size, total, p).chunks) == []
  {
    if p.inbox != [] {
      ReceiveLoopClosedPeerSpins(size, total, p.(inbox := p.inbox[1..]));
    }
  }

  // ---------------------------------------------------------------------
  // send_file_server

  /** The payload loop of send_file_server from a state where
      `total_sent == total` and the file position is `pos`: each iteration
      reads min(4096, size - total) bytes; gcount bytes were read; if any,
      they are sent, a result <= 0 breaks the loop and a positive one is
      added to the counter. A read of 0 bytes (end of file) changes nothing,
      so the loop spins. */
  function SendLoop(size: int, total: int, source: seq<Byte>, pos: nat, p: Peer): (t: Outbound)
    requires 0 <= total && pos <= |source|
    decreases size - total
    ensures t.size == size && t.ending != NotOpened
    ensures total <= t.total <= Max(size, total)
    ensures t.ending == Completed <==> t.total >= size
    ensures t.peer.inbox == p.inbox
  {
    if total >= size then Outbound(size, total, [], Completed, p)
    else
      var gcount := Min(Min(ChunkSize, size - total), |source| - pos);
      if gcount == 0 then Outbound(size, total, [], Spinning, p)
      else
        var chunk := source[pos..pos + gcount];
        var s := Send(p, chunk);
        if s.count <= 0 then Outbound(size, total, [SendCall(chunk, s.count)], Aborted, s.peer)
        else
          var t := SendLoop(size, total + s.count, source, pos + gcount, s.peer);
          t.(sends := [SendCall(chunk, s.count)] + t.sends)
  }

  /** One iteration of the send loop that read `g > 0` bytes and whose
      send returned a positive count. */
  lemma SendLoopStep(size: int, total: int, source: seq<Byte>, pos: nat, p: Peer, g: nat, s: Sent,
                     total': int, pos': nat, p': Peer)
    requires 0 <= total < size && pos <= |source|
    requires g == Min(Min(ChunkSize, size - total), |source| - pos) && g > 0
    requires s == Send(p, source[pos..pos + g]) && s.count > 0
    requires total' == total + s.count && pos' == pos + g && p' == s.peer
    ensures SendLoop(size, total, source, pos, p) ==
            AfterSends([SendCall(source[pos..pos'], s.count)], SendLoop(size, total', source, pos', p'))
  {
  }

  /** One iteration of the send loop whose send returned 0 or less. */
  lemma SendLoopBreak(size: int, total: int, source: seq<Byte>, pos: nat, p: Peer, g: nat, s: Sent)
    requires 0 <= total < size && pos <= |source|
    requires g == Min(Min(ChunkSize, size - total), |source| - pos) && g > 0
    requires s == Send(p, source[pos..pos + g]) && s.count <= 0
    ensures SendLoop(size, total, source, pos, p) ==
            Outbound(size, total, [SendCall(source[pos..pos + g], s.count)], Aborted, s.peer)
  {
  }

  /** The send loop once the counter has reached the size, or once the
      file is exhausted. */
  lemma SendLoopStops(size: int, total: int, source: seq<Byte>, pos: nat, p: Peer)
    requires 0 <= total && pos <= |source|
    requires total >= size || Min(Min(ChunkSize, size - total), |source| - pos) == 0
    ensures SendLoop(size, total, source, pos, p) ==
            Outbound(size, total, [], if total >= size then Completed else Spinning, p)
  {
  }

  /** The loop's send calls are appended to the connection's log, and it
      takes one acknowledgement per call. */
  lemma {:induction false} SendLoopLog(size: int, total: int, source: seq<Byte>, pos: nat, p: Peer)
    requires 0 <= total && pos <= |source|
    decreases size - total
    ensures var t := SendLoop(size, total, source, pos, p);
      t.peer.calls == p.calls + t.sends
  {
    var g := Min(Min(ChunkSize, size - total), |source| - pos);
    if total < size && g > 0 && Send(p, source[pos..pos + g]).count > 0 {
      var s := Send(p, source[pos..pos + g]);
      SendLoopLog(size, total + s.count, source, pos + g, s.peer);
      SendLoopLogStep(size, total, source, pos, p, g, s, total + s.count, pos + g, s.peer);
    } else {
      SendLoopLogLast(size, total, source, pos, p);
    }
  }

  lemma SendLoopLogStep(size: int, total: int, source: seq<Byte>, pos: nat, p: Peer, g: nat, s: Sent,
                        total': int, pos': nat, p': Peer)
    requires 0 <= total < size && pos <= |source|
    requires g == Min(Min(ChunkSize, size - total), |source| - pos) && g > 0
    requires s == Send(p, source[pos..pos + g]) && s.count > 0
    requires total' == total + s.count && pos' == pos + g && p' == s.peer
    requires var t := SendLoop(size, total', source, pos', p');
      t.peer.calls == p'.calls + t.sends
    ensures var t := SendLoop(size, total, source, pos, p);
      t.peer.calls == p.calls + t.sends
  {
    var c := SendCall(source[pos..pos'], s.count);
    ghost var now, next := SendLoop(size, total, source, pos, p), SendLoop(size, total', source, pos', p');
    assert now.sends == [c] + next.sends && now.peer == next.peer by {
      SendLoopStep(size, total, source, pos, p, g, s, total', pos', p');
    }
    assert p'.calls == p.calls + [c];
    assert p.calls + ([c] + next.sends) == (p.calls + [c]) + next.sends;
  }

  lemma SendLoopLogLast(size: int, total: int, source: seq<Byte>, pos: nat, p: Peer)
    requires 0 <= total && pos <= |source|
    requires var g := Min(Min(ChunkSize, size - total), |source| - pos);
      total >= size || g == 0 || Send(p, source[pos..pos + g]).count <= 0
    ensures var t := SendLoop(size, total, source, pos, p);
      t.peer.calls == p.calls + t.sends
  {
    var g := Min(Min(ChunkSize, size - total), |source| - pos);
    if total >= size || g == 0 {
      SendLoopStops(size, total, source, pos, p);
      assert p.calls + [] == p.calls;
    } else {
      SendLoopBreak(size, total, source, pos, p, g, Send(p, source[pos..pos + g]));
    }
  }

  /** What a run of the send loop from counter `from` to counter `to` did,
      call by call: each call passed the next 1..ChunkSize bytes of `rest`;
      a call that returned a positive count added it to the counter and the
      run went on; one that returned 0 or less was the last, exactly when
      `broke`. */
  predicate SentBy(sends: seq<SendCall>, rest: seq<Byte>, size: int, from: int, to: int, broke: bool)
    decreases |sends|
  {
    if sends == [] then !broke && to == from
    else
      var c := sends[0];
      && 0 < |c.data| == Min(Min(ChunkSize, size - from), |rest|)
      && c.data <= rest && c.result <= |c.data|
      && if c.result <= 0 then broke && to == from && |sends| == 1
         else SentBy(sends[1..], rest[|c.data|..], size, from + c.result, to, broke)
  }

  lemma SentByStep(c: SendCall, tail: seq<SendCall>, rest: seq<Byte>, rest': seq<Byte>,
                   size: int, from: int, to: int, broke: bool)
    requires 0 < |c.data| == Min(Min(ChunkSize, size - from), |rest|) && rest == c.data + rest'
    requires 0 < c.result <= |c.data|
    requires SentBy(tail, rest', size, from + c.result, to, broke)
    ensures SentBy([c] + tail, rest, size, from, to, broke)
  {
    var sends := [c] + tail;
    assert sends[1..] == tail;
    assert rest[|c.data|..] == rest';
  }

  /** SentBy spelled out over the whole run: every call passed
      min(ChunkSize, size - counter) bytes, or the rest of the file if
      fewer, and at least one; every call but the last returned a positive
      count, and the last returned 0 or less exactly when the run broke;
      the calls passed consecutive bytes from the front of `rest`; and the
      counter went up by exactly the bytes that reached the peer. */
  lemma {:induction false} SentByMeans(sends: seq<SendCall>, rest: seq<Byte>, size: int, from: int, to: int,
                                       broke: bool)
    requires SentBy(sends, rest, size, from, to, broke)
    ensures forall i :: 0 <= i < |sends| ==> 0 < |sends[i].data| <= ChunkSize
    ensures forall i :: 0 <= i < |sends| - 1 ==> sends[i].result > 0
    ensures broke <==> sends != [] && sends[|sends| - 1].result <= 0
    ensures Passed(sends) <= rest
    ensures to == from + |Delivered(sends)|
  {
    SentByShape(sends, rest, size, from, to, broke);
    SentByBytes(sends, rest, size, from, to, broke);
  }

  /** The call-by-call half of SentByMeans. */
  lemma {:induction false} SentByShape(sends: seq<SendCall>, rest: seq<Byte>, size: int, from: int, to: int,
                                       broke: bool)
    requires SentBy(sends, rest, size, from, to, broke)
    decreases |sends|
    ensures forall i :: 0 <= i < |sends| ==> 0 < |sends[i].data| <= ChunkSize
    ensures forall i :: 0 <= i < |sends| - 1 ==> sends[i].result > 0
    ensures broke <==> sends != [] && sends[|sends| - 1].result <= 0
  {
    if sends != [] {
      var c, tail := sends[0], sends[1..];
      if c.result <= 0 {
        assert tail == [];
      } else {
        var rest', from' := rest[|c.data|..], from + c.result;
        SentByShape(tail, rest', size, from', to, broke);
        SentByShapeCons(c, tail, sends, broke);
      }
    }
  }

  lemma SentByShapeCons(c: SendCall, tail: seq<SendCall>, sends: seq<SendCall>, broke: bool)
    requires sends == [c] + tail
    requires 0 < |c.data| <= ChunkSize && c.result > 0
    requires forall i :: 0 <= i < |tail| ==> 0 < |tail[i].data| <= ChunkSize
    requires forall i :: 0 <= i < |tail| - 1 ==> tail[i].result > 0
    requires broke <==> tail != [] && tail[|tail| - 1].result <= 0
    ensures forall i :: 0 <= i < |sends| ==> 0 < |sends[i].data| <= ChunkSize
    ensures forall i :: 0 <= i < |sends| - 1 ==> sends[i].result > 0
    ensures broke <==> sends != [] && sends[|sends| - 1].result <= 0
  {
    assert forall i :: 1 <= i < |sends| ==> sends[i] == tail[i - 1];
  }

  /** The byte-counting half of SentByMeans. */
  lemma {:induction false} SentByBytes(sends: seq<SendCall>, rest: seq<Byte>, size: int, from: int, to: int,
                                       broke: bool)
    requires SentBy(sends, rest, size, from, to, broke)
    decreases |sends|
    ensures Passed(sends) <= rest
    ensures to == from + |Delivered(sends)|
  {
    if sends != [] {
      var c, tail := sends[0], sends[1..];
      if c.result <= 0 {
        assert tail == [];
      } else {
        var rest', from' := rest[|c.data|..], from + c.result;
        SentByBytes(tail, rest', size, from', to, broke);
        SentByBytesCons(c, tail, sends, rest, rest', from, from', to);
      }
    }
  }

  lemma SentByBytesCons(c: SendCall, tail: seq<SendCall>, sends: seq<SendCall>, rest: seq<Byte>, rest': seq<Byte>,
                        from: int, from': int, to: int)
    requires sends == [c] + tail && c.data <= rest && rest' == rest[|c.data|..]
    requires 0 < c.result <= |c.data| && from' == from + c.result
    requires Passed(tail) <= rest' && to == from' + |Delivered(tail)|
    ensures Passed(sends) <= rest
    ensures to == from + |Delivered(sends)|
  {
    assert sends[1..] == tail;
    assert rest == c.data + rest';
    assert |Accepted(c)| == c.result;
  }

  /** The loop's calls, as SentBy describes them. */
  lemma {:induction false} SendLoopSentBy(size: int, total: int, source: seq<Byte>, pos: nat, p: Peer)
    requires 0 <= total && pos <= |source|
    decreases size - total, 1
    ensures var t := SendLoop(size, total, source, pos, p);
      SentBy(t.sends, source[pos..], size, total, t.total, t.ending == Aborted)
  {
    var g := Min(Min(ChunkSize, size - total), |source| - pos);
    if total < size && g > 0 && Send(p, source[pos..pos + g]).count > 0 {
      var s := Send(p, source[pos..pos + g]);
      SendLoopSentByStep(size, total, source, pos, p, g, s, total + s.count, pos + g, s.peer);
    } else {
      SendLoopSentByLast(size, total, source, pos, p);
    }
  }

  lemma {:induction false} SendLoopSentByStep(size: int, total: int, source: seq<Byte>, pos: nat, p: Peer,
                                              g: nat, s: Sent, total': int, pos': nat, p': Peer)
    requires 0 <= total < size && pos <= |source|
    requires g == Min(Min(ChunkSize, size - total), |source| - pos) && g > 0
    requires s == Send(p, source[pos..pos + g]) && s.count > 0
    requires total' == total + s.count && pos' == pos + g && p' == s.peer
    decreases size - total, 0
    ensures var t := SendLoop(size, total, source, pos, p);
      SentBy(t.sends, source[pos..], size, total, t.total, t.ending == Aborted)
  {
    SendLoopSentBy(size, total', source, pos', p');
    SendLoopStep(size, total, source, pos, p, g, s, total', pos', p');
    SliceSplit(source, pos, pos');
    SentByAfter(SendLoop(size, total, source, pos, p), SendCall(source[pos..pos'], s.count),
                SendLoop(size, total', source, pos', p'), source[pos..], source[pos'..],
                size, total, total');
  }

  lemma SentByAfter(t: Outbound, c: SendCall, next: Outbound, rest: seq<Byte>, rest': seq<Byte>,
                    size: int, total: int, total': int)
    requires t == AfterSends([c], next)
    requires 0 < |c.data| == Min(Min(ChunkSize, size - total), |rest|) && rest == c.data + rest'
    requires 0 < c.result <= |c.data|
    requires total' == total + c.result
    requires SentBy(next.sends, rest', size, total', next.total, next.ending == Aborted)
    ensures SentBy(t.sends, rest, size, total, t.total, t.ending == Aborted)
  {
    SentByStep(c, next.sends, rest, rest', size, total, next.total, next.ending == Aborted);
  }

  lemma SendLoopSentByLast(size: int, total: int, source: seq<Byte>, pos: nat, p: Peer)
    requires 0 <= total && pos <= |source|
    requires var g := Min(Min(ChunkSize, size - total), |source| - pos);
      total >= size || g == 0 || Send(p, source[pos..pos + g]).count <= 0
    ensures var t := SendLoop(size, total, source, pos, p);
      SentBy(t.sends, source[pos..], size, total, t.total, t.ending == Aborted)
  {
    var g := Min(Min(ChunkSize, size - total), |source| - pos);
    if total >= size || g == 0 {
      SendLoopStops(size, total, source, pos, p);
    } else {
      var s := Send(p, source[pos..pos + g]);
      SendLoopBreak(size, total, source, pos, p, g, s);
      assert source[pos..pos + g] <= source[pos..];
      SentByLast(SendCall(source[pos..pos + g], s.count), source[pos..], size, total);
    }
  }

  lemma SentByLast(c: SendCall, rest: seq<Byte>, size: int, from: int)
    requires 0 < |c.data| == Min(Min(ChunkSize, size - from), |rest|) && c.data <= rest && c.result <= 0
    ensures SentBy([c], rest, size, from, from, true)
  {
  }

  /** What the payload loop of send_file_server does, call by call: each
      file read asks for min(4096, size - total_sent) bytes and the bytes
      read are sent; the calls pass consecutive bytes of the file from the
      current position; `total_sent` is the sum of the positive send
      results, i.e. the bytes that reached the peer; and the first result
      <= 0 is the last call. */
  lemma SendLoopSends(size: int, total: int, source: seq<Byte>, pos: nat, p: Peer)
    requires 0 <= total && pos <= |source|
    ensures var t := SendLoop(size, total, source, pos, p);
      && (forall i :: 0 <= i < |t.sends| ==> 0 < |t.sends[i].data| <= ChunkSize)
      && (forall i :: 0 <= i < |t.sends| - 1 ==> t.sends[i].result > 0)
      && (t.ending == Aborted <==> t.sends != [] && t.sends[|t.sends| - 1].result <= 0)
      && Passed(t.sends) <= source[pos..]
      && t.total == total + |Delivered(t.sends)|
  {
    SendLoopSentBy(size, total, source, pos, p);
    var t := SendLoop(size, total, source, pos, p);
    SentByMeans(t.sends, source[pos..], size, total, t.total, t.ending == Aborted);
  }

  /** If the file holds exactly the bytes still to send and every send
      accepts a whole chunk, the loop completes and passes the file in
      consecutive chunks of ChunkSize bytes, the last possibly shorter. */
  lemma {:induction false} SendLoopFullAcks(size: int, total: int, source: seq<Byte>, pos: nat, p: Peer)
    requires 0 <= total <= size && pos <= |source| && |source| - pos == size - total
    requires FullAcks(p.acks)
    decreases size - total, 1
    ensures var t := SendLoop(size, total, source, pos, p);
      t.ending == Completed && t.total == size && t.sends == FullSends(Chunked(source[pos..]))
  {
    if total < size {
      var g := Min(ChunkSize, size - total);
      var s := Send(p, source[pos..pos + g]);
      SendLoopFullAcksStep(size, total, source, pos, p, g, s, total + g, pos + g, s.peer);
    } else {
      assert source[pos..] == [];
    }
  }

  lemma {:induction false} SendLoopFullAcksStep(size: int, total: int, source: seq<Byte>, pos: nat, p: Peer,
                                                g: nat, s: Sent, total': int, pos': nat, p': Peer)
    requires 0 <= total < size && pos <= |source| && |source| - pos == size - total
    requires FullAcks(p.acks)
    requires g == Min(ChunkSize, size - total) && s == Send(p, source[pos..pos + g])
    requires total' == total + g && pos' == pos + g && p' == s.peer
    decreases size - total, 0
    ensures var t := SendLoop(size, total, source, pos, p);
      t.ending == Completed && t.total == size && t.sends == FullSends(Chunked(source[pos..]))
  {
    assert s.count == g;
    assert FullAcks(p'.acks);
    SendLoopFullAcks(size, total', source, pos', p');
    SendLoopStep(size, total, source, pos, p, g, s, total', pos', p');
    ChunkedCons(source[pos..], g, source[pos'..]);
    assert source[pos..][..g] == source[pos..pos'];
  }

  /** A file shorter than the bytes still to send can never complete the
      loop: each send moves the counter by at most the bytes read, so the
      shortfall never closes; the loop breaks or spins at end of file. */
  lemma {:induction false} SendLoopBehind(size: int, total: int, source: seq<Byte>, pos: nat, p: Peer)
    requires 0 <= total && pos <= |source| && |source| - pos < size - total
    decreases size - total, 1
    ensures SendLoop(size, total, source, pos, p).ending != Completed
  {
    var g := Min(Min(ChunkSize, size - total), |source| - pos);
    if g > 0 && Send(p, source[pos..pos + g]).count > 0 {
      var s := Send(p, source[pos..pos + g]);
      SendLoopBehindStep(size, total, source, pos, p, g, s, total + s.count, pos + g, s.peer);
    } else if g > 0 {
      SendLoopBreak(size, total, source, pos, p, g, Send(p, source[pos..pos + g]));
    } else {
      SendLoopStops(size, total, source, pos, p);
    }
  }

  lemma {:induction false} SendLoopBehindStep(size: int, total: int, source: seq<Byte>, pos: nat, p: Peer,
                                              g: nat, s: Sent, total': int, pos': nat, p': Peer)
    requires 0 <= total < size && pos <= |source| && |source| - pos < size - total
    requires g == Min(Min(ChunkSize, size - total), |source| - pos) && g > 0
    requires s == Send(p, source[pos..pos + g]) && s.count > 0
    requires total' == total + s.count && pos' == pos + g && p' == s.peer
    decreases size - total, 0
    ensures SendLoop(size, total, source, pos, p).ending != Completed
  {
    SendLoopBehind(size, total', source, pos', p');
    SendLoopStep(size, total, source, pos, p, g, s, total', pos', p');
  }

  /** The loop completes only if every send accepted its whole chunk: one
      short send leaves the unsent tail of its chunk behind for good, since
      the next read starts after it. */
  lemma {:induction false} SendLoopWhole(size: int, total: int, source: seq<Byte>, pos: nat, p: Peer)
    requires 0 <= total && pos <= |source| && |source| - pos <= size - total
    decreases size - total, 1
    ensures var t := SendLoop(size, total, source, pos, p);
      t.ending == Completed ==> AllWhole(t.sends)
  {
    var g := Min(Min(ChunkSize, size - total), |source| - pos);
    if total < size && g > 0 && Send(p, source[pos..pos + g]).count > 0 {
      var s := Send(p, source[pos..pos + g]);
      SendLoopWholeStep(size, total, source, pos, p, g, s, total + s.count, pos + g, s.peer);
    } else if total < size && g > 0 {
      SendLoopBreak(size, total, source, pos, p, g, Send(p, source[pos..pos + g]));
    } else {
      SendLoopStops(size, total, source, pos, p);
    }
  }

  lemma {:induction false} SendLoopWholeStep(size: int, total: int, source: seq<Byte>, pos: nat, p: Peer,
                                             g: nat, s: Sent, total': int, pos': nat, p': Peer)
    requires 0 <= total < size && pos <= |source| && |source| - pos <= size - total
    requires g == Min(Min(ChunkSize, size - total), |source| - pos) && g > 0
    requires s == Send(p, source[pos..pos + g]) && s.count > 0
    requires total' == total + s.count && pos' == pos + g && p' == s.peer
    decreases size - total, 0
    ensures var t := SendLoop(size, total, source, pos, p);
      t.ending == Completed ==> AllWhole(t.sends)
  {
    SendLoopStep(size, total, source, pos, p, g, s, total', pos', p');
    if s.count < g {
      SendLoopBehind(size, total', source, pos', p');
    } else {
      SendLoopWhole(size, total', source, pos', p');
      var t' := SendLoop(size, total', source, pos', p');
      if t'.ending == Completed {
        AllWholeCons(SendCall(source[pos..pos'], s.count), t'.sends);
      }
    }
  }

  /** When the file holds no more than the bytes still to send, completing
      the loop means the peer got the rest of the file exactly, in order. */
  lemma SendLoopCompleteDelivers(size: int, total: int, source: seq<Byte>, pos: nat, p: Peer)
    requires 0 <= total && pos <= |source| && |source| - pos <= size - total
    ensures var t := SendLoop(size, total, source, pos, p);
      t.ending == Completed ==> Delivered(t.sends) == source[pos..] && |source| - pos == size - total
  {
    var t := SendLoop(size, total, source, pos, p);
    SendLoopSends(size, total, source, pos, p);
    SendLoopWhole(size, total, source, pos, p);
    if t.ending == Completed {
      AllWholeDelivered(t.sends);
    }
  }

  /** send_file_server: open the file (or return), send its size as a
      4-byte int, then run the payload loop. */
  function ServerDownload(isOpen: bool, source: seq<Byte>, p: Peer): (t: Outbound)
    ensures !isOpen ==> t.ending == NotOpened && t.peer == p && t.sends == []
    ensures isOpen ==> t.size == ToInt32(|source|) && t.ending != NotOpened
    ensures 0 <= t.total <= Max(t.size, 0)
    ensures t.peer.inbox == p.inbox
  {
    if !isOpen then Outbound(0, 0, [], NotOpened, p)
    else
      var size := ToInt32(|source|);
      var len := Send(p, EncodeInt32(size));
      SendLoop(size, 0, source, 0, len.peer)
  }

  /** The length prefix goes out before any payload byte: the connection's
      log gains the 4-byte size, then the loop's calls. */
  lemma ServerDownloadLog(source: seq<Byte>, p: Peer)
    ensures var t := ServerDownload(true, source, p);
      var size := ToInt32(|source|);
      t.peer.calls == p.calls + [SendCall(EncodeInt32(size), Send(p, EncodeInt32(size)).count)] + t.sends
  {
    var size := ToInt32(|source|);
    var len := Send(p, EncodeInt32(size));
    SendLoopLog(size, 0, source, 0, len.peer);
  }

  /** A file of at most Int32Max bytes, sent to a peer that accepts every
      chunk whole, goes out as its 4-byte size followed by the file in
      consecutive chunks of ChunkSize bytes, the last possibly shorter. */
  lemma ServerDownloadFullAcks(source: seq<Byte>, p: Peer)
    requires |source| <= Int32Max && FullAcks(p.acks)
    ensures var t := ServerDownload(true, source, p);
      && t.ending == Completed && t.total == |source| && t.sends == FullSends(Chunked(source))
      && t.peer.calls == p.calls + [SendCall(EncodeInt32(|source|), PrefixSize)] + t.sends
  {
    var size := ToInt32(|source|);
    var len := Send(p, EncodeInt32(size));
    SendFullAck(p, EncodeInt32(size));
    assert source[0..] == source;
    SendLoopFullAcks(size, 0, source, 0, len.peer);
    ServerDownloadLog(source, p);
  }

  /** A download of a file of at most Int32Max bytes completes only if the
      peer got the whole file, in order. */
  lemma ServerDownloadCompleteDelivers(source: seq<Byte>, p: Peer)
    requires |source| <= Int32Max
    ensures var t := ServerDownload(true, source, p);
      t.ending == Completed ==> Delivered(t.sends) == source
  {
    var size := ToInt32(|source|);
    var len := Send(p, EncodeInt32(size));
    assert source[0..] == source;
    SendLoopCompleteDelivers(size, 0, source, 0, len.peer);
  }

  /** `int file_size` keeps the size modulo 2^32: a non-empty file whose
      size is a multiple of 2^32 is announced as 0 bytes and none of it is
      sent. */
  lemma ServerDownloadWrapsToEmpty(source: seq<Byte>, p: Peer)
    requires |source| > 0 && |source| % Two32 == 0
    ensures var t := ServerDownload(true, source, p);
      t.size == 0 && t.ending == Completed && t.sends == [] && Delivered(t.sends) != source
  {
  }

  /** send_file_server; `source` is the file's contents. */
  method SendFileServer(isOpen: bool, source: seq<Byte>, peer: Peer) returns (t: Outbound)
    ensures t == ServerDownload(isOpen, source, peer)
  {
    if !isOpen {
      return Outbound(0, 0, [], NotOpened, peer);
    }
    var size := ToInt32(|source|);
    var len := Send(peer, EncodeInt32(size));
    t := SendPayload(size, source, len.peer);
  }

  /** The `while (total_sent < file_size)` loop of send_file_server. */
  method SendPayload(size: int, source: seq<Byte>, peer: Peer) returns (t: Outbound)
    ensures t == SendLoop(size, 0, source, 0, peer)
  {
    var p := peer;
    var total := 0;
    var pos: nat := 0;
    var sends: seq<SendCall> := [];
    ghost var goal := SendLoop(size, 0, source, 0, p);
    AfterSendsNone(goal);
    while total < size
      invariant 0 <= total && pos <= |source|
      invariant goal == AfterSends(sends, SendLoop(size, total, source, pos, p))
      decreases size - total
    {
      var bytesToRead := Min(ChunkSize, size - total);
      var gcount := Min(bytesToRead, |source| - pos);
      if gcount == 0 {
        // End of file: every later read returns 0 bytes and nothing changes.
        t := Outbound(size, total, sends, Spinning, p);
        AfterSendsEnd(sends, t);
        return;
      }
      var pos' := pos + gcount;
      var chunk := source[pos..pos'];
      var s := Send(p, chunk);
      if s.count <= 0 {
        SendLoopBreak(size, total, source, pos, p, gcount, s);
        t := Outbound(size, total, sends + [SendCall(chunk, s.count)], Aborted, s.peer);
        AfterSendsChain(goal, sends, SendCall(chunk, s.count), SendLoop(size, total, source, pos, p),
                        t.(sends := []));
        AfterSendsEnd(sends + [SendCall(chunk, s.count)], t);
        return;
      }
      var total', p' := total + s.count, s.peer;
      ghost var now, next := SendLoop(size, total, source, pos, p), SendLoop(size, total', source, pos', p');
      SendLoopStep(size, total, source, pos, p, gcount, s, total', pos', p');
      AfterSendsChain(goal, sends, SendCall(chunk, s.count), now, next);
      sends := sends + [SendCall(chunk, s.count)];
      total, pos, p := total', pos', p';
    }
    t := Outbound(size, total, sends, Completed, p);
    AfterSendsEnd(sends, t);
  }
}
