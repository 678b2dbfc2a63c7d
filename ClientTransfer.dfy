/** The client's two transfer functions: send_file_client (Upload) and
    receive_file_client (Download). They mirror the server's loops, but
    their bookkeeping differs: the send loop counts the bytes read from the
    file whatever send returned, and the receive loop adds every recv
    result to its counter, errors included, and never breaks. */
module ClientTransfer {
  import opened Wire

  // ---------------------------------------------------------------------
  // send_file_client

  /** The payload loop of send_file_client from a state where
      `total_sent == total`. The file position is always `total_sent`: both
      start at 0 and both move by gcount. Each iteration reads
      min(4096, size - total) bytes; the gcount bytes read, if any, are sent
      and the result is only logged; gcount is added to the counter. At end
      of file gcount is 0 and nothing changes again: the loop spins. */
  function ClientSendLoop(size: int, total: int, source: seq<Byte>, p: Peer): (t: Outbound)
    requires 0 <= total <= |source|
    decreases size - total
    ensures t.size == size && (t.ending == Completed || t.ending == Spinning)
    ensures total <= t.total <= Max(size, total)
    ensures t.ending == Completed <==> t.total >= size
    ensures t.peer.inbox == p.inbox
  {
    if total >= size then Outbound(size, total, [], Completed, p)
    else
      var gcount := Min(Min(ChunkSize, size - total), |source| - total);
      if gcount == 0 then Outbound(size, total, [], Spinning, p)
      else
        var chunk := source[total..total + gcount];
        var s := Send(p, chunk);
        var t := ClientSendLoop(size, total + gcount, source, s.peer);
        t.(sends := [SendCall(chunk, s.count)] + t.sends)
  }

  /** One iteration of the client send loop that read `g > 0` bytes, whatever
      its send returned. */
  lemma ClientSendLoopStep(size: int, total: int, source: seq<Byte>, p: Peer, g: nat, s: Sent,
                           total': int, p': Peer)
    requires 0 <= total < size && total <= |source|
    requires g == Min(Min(ChunkSize, size - total), |source| - total) && g > 0
    requires s == Send(p, source[total..total + g])
    requires total' == total + g && p' == s.peer
    ensures ClientSendLoop(size, total, source, p) ==
            AfterSends([SendCall(source[total..total'], s.count)], ClientSendLoop(size, total', source, p'))
  {
  }

  /** The client send loop once the counter has reached the size, or at end
      of file. */
  lemma ClientSendLoopStops(size: int, total: int, source: seq<Byte>, p: Peer)
    requires 0 <= total <= |source|
    requires total >= size || Min(Min(ChunkSize, size - total), |source| - total) == 0
    ensures ClientSendLoop(size, total, source, p) ==
            Outbound(size, total, [], if total >= size then Completed else Spinning, p)
  {
  }

  /** The loop's send calls are appended to the connection's log. */
  lemma {:induction false} ClientSendLoopLog(size: int, total: int, source: seq<Byte>, p: Peer)
    requires 0 <= total <= |source|
    decreases size - total, 1
    ensures var t := ClientSendLoop(size, total, source, p);
      t.peer.calls == p.calls + t.sends
  {
    var g := Min(Min(ChunkSize, size - total), |source| - total);
    if total < size && g > 0 {
      var s := Send(p, source[total..total + g]);
      ClientSendLoopLogStep(size, total, source, p, g, s, total + g, s.peer);
    } else {
      ClientSendLoopStops(size, total, source, p);
      assert p.calls + [] == p.calls;
    }
  }

  lemma {:induction false} ClientSendLoopLogStep(size: int, total: int, source: seq<Byte>, p: Peer,
                                                 g: nat, s: Sent, total': int, p': Peer)
    requires 0 <= total < size && total <= |source|
    requires g == Min(Min(ChunkSize, size - total), |source| - total) && g > 0
    requires s == Send(p, source[total..total + g])
    requires total' == total + g && p' == s.peer
    decreases size - total, 0
    ensures var t := ClientSendLoop(size, total, source, p);
      t.peer.calls == p.calls + t.sends
  {
    ClientSendLoopLog(size, total', source, p');
    ClientSendLoopStep(size, total, source, p, g, s, total', p');
    var c := SendCall(source[total..total'], s.count);
    var t := ClientSendLoop(size, total', source, p');
    assert p.calls + ([c] + t.sends) == (p.calls + [c]) + t.sends;
  }

  /** Whatever send returns, the loop passes the file from the current
      position up to min(size, file length) in consecutive chunks of
      ChunkSize bytes, the last possibly shorter; it completes exactly when
      the file is at least `size` bytes long, and spins at end of file
      otherwise. */
  lemma {:induction false} ClientSendLoopChunks(size: int, total: int, source: seq<Byte>, p: Peer)
    requires 0 <= total <= size && total <= |source|
    decreases size - total, 1
    ensures var t := ClientSendLoop(size, total, source, p);
      && t.total == Min(size, |source|)
      && Payloads(t.sends) == Chunked(source[total..t.total])
      && (t.ending == Completed <==> |source| >= size)
  {
    var g := Min(Min(ChunkSize, size - total), |source| - total);
    if g > 0 {
      var s := Send(p, source[total..total + g]);
      ClientSendLoopChunksStep(size, total, source, p, g, s, total + g, s.peer);
    } else {
      ClientSendLoopStops(size, total, source, p);
      assert source[total..Min(size, |source|)] == [];
    }
  }

  lemma {:induction false} ClientSendLoopChunksStep(size: int, total: int, source: seq<Byte>, p: Peer,
                                                    g: nat, s: Sent, total': int, p': Peer)
    requires 0 <= total <= size && total <= |source|
    requires g == Min(Min(ChunkSize, size - total), |source| - total) && g > 0
    requires s == Send(p, source[total..total + g])
    requires total' == total + g && p' == s.peer
    decreases size - total, 0
    ensures var t := ClientSendLoop(size, total, source, p);
      && t.total == Min(size, |source|)
      && Payloads(t.sends) == Chunked(source[total..t.total])
      && (t.ending == Completed <==> |source| >= size)
  {
    var m := Min(size, |source|);
    ClientSendLoopChunks(size, total', source, p');
    ClientSendLoopStep(size, total, source, p, g, s, total', p');
    var next := ClientSendLoop(size, total', source, p');
    PayloadsCons(SendCall(source[total..total'], s.count), next.sends);
    SliceOfSlice(source, total, total', m);
    ChunkedCons(source[total..m], g, source[total'..m]);
  }

  /** With a peer that accepts every chunk whole, each call of the loop is
      accepted in full. */
  lemma {:induction false} ClientSendLoopFullAcks(size: int, total: int, source: seq<Byte>, p: Peer)
    requires 0 <= total <= size && total <= |source|
    requires FullAcks(p.acks)
    decreases size - total, 1
    ensures AllWhole(ClientSendLoop(size, total, source, p).sends)
  {
    var g := Min(Min(ChunkSize, size - total), |source| - total);
    if g > 0 {
      var s := Send(p, source[total..total + g]);
      ClientSendLoopFullAcksStep(size, total, source, p, g, s, total + g, s.peer);
    } else {
      ClientSendLoopStops(size, total, source, p);
    }
  }

  lemma {:induction false} ClientSendLoopFullAcksStep(size: int, total: int, source: seq<Byte>, p: Peer,
                                                      g: nat, s: Sent, total': int, p': Peer)
    requires 0 <= total <= size && total <= |source|
    requires FullAcks(p.acks)
    requires g == Min(Min(ChunkSize, size - total), |source| - total) && g > 0
    requires s == Send(p, source[total..total + g])
    requires total' == total + g && p' == s.peer
    decreases size - total, 0
    ensures AllWhole(ClientSendLoop(size, total, source, p).sends)
  {
    SendFullAck(p, source[total..total + g]);
    ClientSendLoopFullAcks(size, total', source, p');
    ClientSendLoopStep(size, total, source, p, g, s, total', p');
    AllWholeCons(SendCall(source[total..total'], s.count), ClientSendLoop(size, total', source, p').sends);
  }

  /** send_file_client: open the file (or return), send its size as a
      4-byte int (the result is only logged), then run the payload loop. */
  function ClientUpload(isOpen: bool, source: seq<Byte>, p: Peer): (t: Outbound)
    ensures !isOpen ==> t.ending == NotOpened && t.peer == p && t.sends == []
    ensures isOpen ==> t.size == ToInt32(|source|) && (t.ending == Completed || t.ending == Spinning)
    ensures 0 <= t.total <= Max(t.size, 0)
    ensures t.peer.inbox == p.inbox
  {
    if !isOpen then Outbound(0, 0, [], NotOpened, p)
    else
      var size := ToInt32(|source|);
      var len := Send(p, EncodeInt32(size));
      ClientSendLoop(size, 0, source, len.peer)
  }

  /** The size goes out before any payload byte: the connection's log gains
      the 4-byte size, then the loop's calls. */
  lemma ClientUploadLog(source: seq<Byte>, p: Peer)
    ensures var t := ClientUpload(true, source, p);
      var size := ToInt32(|source|);
      t.peer.calls == p.calls + [SendCall(EncodeInt32(size), Send(p, EncodeInt32(size)).count)] + t.sends
  {
    var size := ToInt32(|source|);
    ClientSendLoopLog(size, 0, source, Send(p, EncodeInt32(size)).peer);
  }

  /** Whatever the sends return, the upload of a file of at most Int32Max
      bytes completes with `total_sent == file_size`, and the bytes passed
      to send are the file, in order, in chunks of ChunkSize bytes, the
      last possibly shorter. */
  lemma ClientUploadSendsFile(source: seq<Byte>, p: Peer)
    requires |source| <= Int32Max
    ensures var t := ClientUpload(true, source, p);
      && t.ending == Completed && t.total == |source|
      && Payloads(t.sends) == Chunked(source) && Concat(Payloads(t.sends)) == source
  {
    var q := Send(p, EncodeInt32(|source|)).peer;
    ClientUploadIsLoop(source, p, q);
    ClientSendLoopChunks(|source|, 0, source, q);
    assert source[0..|source|] == source;
  }

  /** For a file of at most Int32Max bytes the announced size is its length. */
  lemma ClientUploadIsLoop(source: seq<Byte>, p: Peer, q: Peer)
    requires |source| <= Int32Max
    requires q == Send(p, EncodeInt32(|source|)).peer
    ensures ClientUpload(true, source, p) == ClientSendLoop(|source|, 0, source, q)
  {
    assert ToInt32(|source|) == |source|;
  }

  /** With a peer that accepts every chunk whole, the upload of a file of at
      most Int32Max bytes puts on the wire its 4-byte size and then the file
      in chunks, each accepted in full. */
  lemma ClientUploadFullAcks(source: seq<Byte>, p: Peer)
    requires |source| <= Int32Max && FullAcks(p.acks)
    ensures var t := ClientUpload(true, source, p);
      && t.sends == FullSends(Chunked(source))
      && t.peer.calls == p.calls + [SendCall(EncodeInt32(|source|), PrefixSize)] + t.sends
  {
    var size := ToInt32(|source|);
    var len := Send(p, EncodeInt32(size));
    SendFullAck(p, EncodeInt32(size));
    ClientUploadSendsFile(source, p);
    ClientSendLoopFullAcks(size, 0, source, len.peer);
    ClientUploadLog(source, p);
    WholeSends(ClientUpload(true, source, p).sends);
  }

  /** send_file_client; `source` is the file's contents. */
  method SendFileClient(isOpen: bool, source: seq<Byte>, peer: Peer) returns (t: Outbound)
    ensures t == ClientUpload(isOpen, source, peer)
  {
    if !isOpen {
      return Outbound(0, 0, [], NotOpened, peer);
    }
    var size := ToInt32(|source|);
    var len := Send(peer, EncodeInt32(size));
    t := ClientSendPayload(size, source, len.peer);
  }

  /** The `while (total_sent < file_size)` loop of send_file_client. */
  method ClientSendPayload(size: int, source: seq<Byte>, peer: Peer) returns (t: Outbound)
    ensures t == ClientSendLoop(size, 0, source, peer)
  {
    var p := peer;
    var total := 0;
    var sends: seq<SendCall> := [];
    ghost var goal := ClientSendLoop(size, 0, source, p);
    AfterSendsNone(goal);
    while total < size
      invariant 0 <= total <= |source|
      invariant goal == AfterSends(sends, ClientSendLoop(size, total, source, p))
      decreases size - total
    {
      var bytesToRead := Min(ChunkSize, size - total);
      var gcount := Min(bytesToRead, |source| - total);
      if gcount == 0 {
        // End of file: every later read returns 0 bytes and nothing changes.
        t := Outbound(size, total, sends, Spinning, p);
        AfterSendsEnd(sends, t);
        return;
      }
      var chunk := source[total..total + gcount];
      // A failed send is only logged.
      var s := Send(p, chunk);
      var total', p' := total + gcount, s.peer;
      ClientSendLoopStep(size, total, source, p, gcount, s, total', p');
      AfterSendsChain(goal, sends, SendCall(chunk, s.count), ClientSendLoop(size, total, source, p),
                      ClientSendLoop(size, total', source, p'));
      sends := sends + [SendCall(chunk, s.count)];
      total, p := total', p';
    }
    t := Outbound(size, total, sends, Completed, p);
    AfterSendsEnd(sends, t);
  }

  // ---------------------------------------------------------------------
  // receive_file_client

  /** `bytes_to_read`: min(4096, int(file_size - received_bytes)), with the
      difference computed in a 32-bit int. It is the plain difference, capped
      at ChunkSize, while that difference fits an int; past Int32Max it
      wraps to a negative value. */
  function BytesToRead(size: int, total: int): (n: int)
    requires total < size
    ensures n <= ChunkSize
    ensures size - total <= Int32Max ==> n == Min(ChunkSize, size - total) > 0
    ensures Int32Max < size - total < Two32 ==> n < 0
  {
    Min(ChunkSize, ToInt32(size - total))
  }

  /** The payload loop of receive_file_client from a state where
      `received_bytes == total`: when `bytes_to_read` is positive a recv
      asks for that many bytes, otherwise no recv is made and the result is
      0; a positive result is written to the file; every result, negative
      ones included, is added to the counter, and the loop goes on. */
  function ClientReceiveLoop(size: int, total: int, p: Peer): (t: Inbound)
    decreases |p.inbox|
    ensures t.size == size && (t.ending == Completed || t.ending == Spinning)
    ensures t.total <= Max(size, total)
    ensures t.ending == Completed <==> t.total >= size
    ensures t.peer.acks == p.acks && t.peer.calls == p.calls && |t.peer.inbox| <= |p.inbox|
  {
    if total >= size then Inbound(size, total, [], Completed, p)
    else if BytesToRead(size, total) <= 0 then Inbound(size, total, [], Spinning, p)
    else if p.inbox == [] then Inbound(size, total, [], Spinning, p)
    else
      var r := Recv(p, BytesToRead(size, total));
      var t := ClientReceiveLoop(size, total + r.count, r.peer);
      if r.count > 0 then t.(chunks := [r.data] + t.chunks) else t
  }

  /** One iteration of the client receive loop, spelled out. */
  lemma ClientReceiveLoopUnfold(size: int, total: int, p: Peer)
    requires total < size && p.inbox != [] && BytesToRead(size, total) > 0
    ensures var r := Recv(p, BytesToRead(size, total));
      var next := ClientReceiveLoop(size, total + r.count, r.peer);
      ClientReceiveLoop(size, total, p) == if r.count > 0 then AfterWrites([r.data], next) else next
  {
  }

  /** An error result writes nothing, lowers the counter by one and the loop
      goes on with the next recv. */
  lemma ClientReceiveLoopErrorLowers(size: int, total: int, p: Peer)
    requires total < size && BytesToRead(size, total) > 0 && p.inbox != [] && p.inbox[0] == RecvError
    ensures ClientReceiveLoop(size, total, p) ==
            ClientReceiveLoop(size, total - 1, p.(inbox := p.inbox[1..]))
  {
  }

  /** A zero-byte result writes nothing and leaves the counter where it
      was: the iteration makes no progress. */
  lemma ClientReceiveLoopZeroNoProgress(size: int, total: int, p: Peer)
    requires total < size && BytesToRead(size, total) > 0 && p.inbox != [] && p.inbox[0] == Segment([])
    ensures ClientReceiveLoop(size, total, p) ==
            ClientReceiveLoop(size, total, p.(inbox := p.inbox[1..]))
  {
  }

  /** The number of error replies among these. */
  function ErrorCount(rs: seq<Reply>): (n: nat)
    ensures n <= |rs|
  {
    if rs == [] then 0 else (if rs[0] == RecvError then 1 else 0) + ErrorCount(rs[1..])
  }

  /** `received_bytes` is the sum of every recv result: the bytes written
      to the file, less one for each error reply the loop consumed. Every
      write is of 1..ChunkSize bytes. */
  lemma {:induction false} ClientReceiveLoopCounts(size: int, total: int, p: Peer)
    decreases |p.inbox|, 1
    ensures var t := ClientReceiveLoop(size, total, p);
      && t.total == total + |Concat(t.chunks)| - (ErrorCount(p.inbox) - ErrorCount(t.peer.inbox))
      && forall i :: 0 <= i < |t.chunks| ==> 0 < |t.chunks[i]| <= ChunkSize
  {
    if total < size && BytesToRead(size, total) > 0 && p.inbox != [] {
      var r := Recv(p, BytesToRead(size, total));
      ClientReceiveLoopCountsStep(size, total, p, r, total + r.count, r.peer);
    }
  }

  lemma {:induction false} ClientReceiveLoopCountsStep(size: int, total: int, p: Peer, r: Received,
                                                       total': int, p': Peer)
    requires total < size && BytesToRead(size, total) > 0 && p.inbox != []
    requires r == Recv(p, BytesToRead(size, total)) && total' == total + r.count && p' == r.peer
    decreases |p.inbox|, 0
    ensures var t := ClientReceiveLoop(size, total, p);
      && t.total == total + |Concat(t.chunks)| - (ErrorCount(p.inbox) - ErrorCount(t.peer.inbox))
      && forall i :: 0 <= i < |t.chunks| ==> 0 < |t.chunks[i]| <= ChunkSize
  {
    ghost var now, next := ClientReceiveLoop(size, total, p), ClientReceiveLoop(size, total', p');
    ClientReceiveLoopCounts(size, total', p');
    ClientReceiveLoopUnfold(size, total, p);
    assert ErrorCount(p.inbox) == (if r.count < 0 then 1 else 0) + ErrorCount(p'.inbox);
    if r.count > 0 {
      assert now == AfterWrites([r.data], next);
      assert now.total == next.total && now.peer == next.peer && now.chunks == [r.data] + next.chunks;
      ChunksCons(r.data, next.chunks, now.chunks);
    } else {
      assert now == next;
    }
  }

  /** One iteration of the client receive loop that reads a whole segment. */
  lemma ClientReceiveLoopStep(size: int, total: int, c: seq<Byte>, q: Peer, rest: Peer, total': int)
    requires total < size <= total + Int32Max && 0 < |c| <= size - total && |c| <= ChunkSize
    requires q.inbox != [] && q.inbox[0] == Segment(c) && rest == q.(inbox := q.inbox[1..])
    requires total' == total + |c|
    ensures ClientReceiveLoop(size, total, q) == AfterWrites([c], ClientReceiveLoop(size, total', rest))
  {
    ClientReceiveLoopUnfold(size, total, q);
    var r := Recv(q, BytesToRead(size, total));
    assert r.count == |c| && r.data == c && r.peer == rest;
  }

  /** Replies that are whole chunks, each of 1..ChunkSize bytes and together
      no longer than the bytes still expected, are each received whole and
      written in order; the loop then goes on from
      `last == total + |Concat(cs)|`. */
  lemma {:induction false} ClientReceiveLoopSegments(size: int, total: int, last: int, cs: seq<seq<Byte>>,
                                                     p: Peer)
    requires forall i :: 0 <= i < |cs| ==> 0 < |cs[i]| <= ChunkSize
    requires last == total + |Concat(cs)| <= size <= total + Int32Max
    decreases |cs|, 1
    ensures ClientReceiveLoop(size, total, p.(inbox := Segments(cs) + p.inbox)) ==
            AfterWrites(cs, ClientReceiveLoop(size, last, p))
  {
    if cs == [] {
      assert Segments(cs) + p.inbox == p.inbox;
      AfterWritesNone(ClientReceiveLoop(size, total, p));
    } else {
      var c, cs' := cs[0], cs[1..];
      ChunksTail(cs, cs');
      var q' := p.(inbox := Segments(cs') + p.inbox);
      var q := q'.(inbox := [Segment(c)] + q'.inbox);
      assert p.(inbox := Segments(cs) + p.inbox) == q;
      assert cs == [c] + cs';
      ClientReceiveLoopSegmentsStep(size, total, last, c, cs', p, q, q', total + |c|);
    }
  }

  lemma {:induction false} ClientReceiveLoopSegmentsStep(size: int, total: int, last: int, c: seq<Byte>,
      cs': seq<seq<Byte>>, p: Peer, q: Peer, q': Peer, total': int)
    requires 0 < |c| <= ChunkSize && total' == total + |c|
    requires forall i :: 0 <= i < |cs'| ==> 0 < |cs'[i]| <= ChunkSize
    requires last == total' + |Concat(cs')| <= size <= total + Int32Max
    requires q' == p.(inbox := Segments(cs') + p.inbox) && q == q'.(inbox := [Segment(c)] + q'.inbox)
    decreases |cs'| + 1, 0
    ensures ClientReceiveLoop(size, total, q) == AfterWrites([c] + cs', ClientReceiveLoop(size, last, p))
  {
    ClientReceiveLoopStep(size, total, c, q, q', total');
    ClientReceiveLoopSegments(size, total', last, cs', p);
    AfterWritesTwice([c], cs', ClientReceiveLoop(size, last, p));
  }

  /** Whole-chunk replies that add up to the declared size complete the
      transfer with `received_bytes == file_size`, and the file is exactly
      those chunks concatenated. */
  lemma ClientReceiveLoopDelivers(size: int, cs: seq<seq<Byte>>, p: Peer)
    requires forall i :: 0 <= i < |cs| ==> 0 < |cs[i]| <= ChunkSize
    requires |Concat(cs)| == size <= Int32Max
    ensures var t := ClientReceiveLoop(size, 0, p.(inbox := Segments(cs) + p.inbox));
      t.ending == Completed && t.total == size && t.chunks == cs && t.peer == p
  {
    ClientReceiveLoopSegments(size, 0, |Concat(cs)|, cs, p);
  }

  /** If every reply is a non-empty segment, every recv returns a positive
      count, and the loop falls short of the size only when the peer has
      no more replies, or when `file_size - received_bytes` does not fit an
      int and `bytes_to_read` is not positive; otherwise it completes with
      `received_bytes == file_size`. The counter never falls, so a loop
      that starts with a difference that fits an int never meets the
      second case. */
  lemma {:induction false} ClientReceiveLoopPositiveCompletes(size: int, total: int, p: Peer)
    requires forall i :: 0 <= i < |p.inbox| ==> p.inbox[i].Segment? && p.inbox[i].bytes != []
    decreases |p.inbox|
    ensures var t := ClientReceiveLoop(size, total, p);
      && t.total >= total
      && (|| (t.ending == Completed && t.total == Max(size, total))
          || (t.ending == Spinning && t.peer.inbox == [])
          || (t.ending == Spinning && size - t.total > Int32Max))
    ensures var t := ClientReceiveLoop(size, total, p);
      size - total <= Int32Max ==>
        (t.ending == Completed && t.total == Max(size, total)) || (t.ending == Spinning && t.peer.inbox == [])
  {
    if total < size && BytesToRead(size, total) > 0 && p.inbox != [] {
      var r := Recv(p, BytesToRead(size, total));
      assert r.count >= 1;
      ClientReceiveLoopPositiveCompletes(size, total + r.count, r.peer);
    }
  }

  /** When `file_size - received_bytes` no longer fits an int, which one
      recv error is enough for on a file of Int32Max bytes, `bytes_to_read`
      is negative: the loop makes no recv, adds 0, and spins with nothing
      more written. */
  lemma ClientReceiveLoopWrapSpins(size: int, total: int, p: Peer)
    requires total < size && Int32Max < size - total < Two32
    ensures var t := ClientReceiveLoop(size, total, p);
      t.ending == Spinning && t.total == total && t.chunks == [] && t.peer == p
  {
  }

  /** One recv error on a file of Int32Max bytes: the counter drops to -1,
      and the loop then spins without reading again. */
  lemma ClientReceiveLoopErrorOnLargestFile(p: Peer)
    requires p.inbox != [] && p.inbox[0] == RecvError
    ensures var t := ClientReceiveLoop(Int32Max, 0, p);
      t.ending == Spinning && t.total == -1 && t.chunks == [] && t.peer == p.(inbox := p.inbox[1..])
  {
    ClientReceiveLoopErrorLowers(Int32Max, 0, p);
    ClientReceiveLoopWrapSpins(Int32Max, -1, p.(inbox := p.inbox[1..]));
  }

  /** A recv error lowers `received_bytes` by one, so the next recv asks for
      one byte more than the file has left: for a file of fewer than 4096
      bytes, an error followed by a segment one byte longer than the file
      completes with `received_bytes == file_size` while one byte more than
      the file is written. */
  lemma ClientReceiveLoopErrorOverwrites(size: int, b: seq<Byte>, rest: seq<Reply>, p: Peer)
    requires 0 < size < ChunkSize && |b| == size + 1
    requires p.inbox == [RecvError, Segment(b)] + rest
    ensures var t := ClientReceiveLoop(size, 0, p);
      t.ending == Completed && t.total == size && Concat(t.chunks) == b && |Concat(t.chunks)| == t.total + 1
  {
    var q := p.(inbox := [Segment(b)] + rest);
    assert p.inbox[1..] == q.inbox;
    ClientReceiveLoopErrorLowers(size, 0, p);
    ClientReceiveLoopStep(size, -1, b, q, q.(inbox := rest), size);
    assert q.inbox[1..] == rest;
    assert Concat([b]) == b;
  }

  /** receive_file_client: open the file (or return), receive the 4-byte
      size, then run the payload loop. */
  function ClientDownload(isOpen: bool, p: Peer): (t: Inbound)
    ensures !isOpen ==> t.ending == NotOpened && t.peer == p && t.chunks == []
    ensures isOpen ==> t.size == PrefixValue(Recv(p, PrefixSize).data)
    ensures isOpen ==> (t.ending == Completed || t.ending == Spinning)
    ensures isOpen && p.inbox != [] ==> |t.peer.inbox| < |p.inbox|
    ensures t.peer.acks == p.acks && t.peer.calls == p.calls
  {
    if !isOpen then Inbound(0, 0, [], NotOpened, p)
    else
      var len := Recv(p, PrefixSize);
      ClientReceiveLoop(PrefixValue(len.data), 0, len.peer)
  }

  /** receive_file_client; `file` is what the ofstream holds when it is
      closed. */
  method ReceiveFileClient(isOpen: bool, peer: Peer) returns (file: seq<Byte>, t: Inbound)
    ensures t == ClientDownload(isOpen, peer)
    ensures file == Concat(t.chunks)
  {
    if !isOpen {
      return [], Inbound(0, 0, [], NotOpened, peer);
    }
    var len := Recv(peer, PrefixSize);
    file, t := ClientReceivePayload(PrefixValue(len.data), len.peer);
  }

  /** One pass of the client's receive loop, in terms of what is left to do. */
  lemma ClientReceivePayloadStep(size: int, total: int, p: Peer, chunks: seq<seq<Byte>>, r: Received)
    requires total < size && p.inbox != [] && BytesToRead(size, total) > 0
    requires r == Recv(p, BytesToRead(size, total))
    ensures AfterWrites(chunks, ClientReceiveLoop(size, total, p))
      == AfterWrites(if r.count > 0 then chunks + [r.data] else chunks,
                     ClientReceiveLoop(size, total + r.count, r.peer))
  {
    ClientReceiveLoopUnfold(size, total, p);
    if r.count > 0 {
      AfterWritesTwice(chunks, [r.data], ClientReceiveLoop(size, total + r.count, r.peer));
    }
  }

  /** The `while (received_bytes < file_size)` loop of receive_file_client. */
  method ClientReceivePayload(size: int, peer: Peer) returns (file: seq<Byte>, t: Inbound)
    ensures t == ClientReceiveLoop(size, 0, peer)
    ensures file == Concat(t.chunks)
  {
    var p := peer;
    var total := 0;
    var chunks: seq<seq<Byte>> := [];
    file := [];
    ghost var goal := ClientReceiveLoop(size, 0, p);
    AfterWritesNone(goal);
    while total < size
      invariant file == Concat(chunks)
      invariant goal == AfterWrites(chunks, ClientReceiveLoop(size, total, p))
      decreases |p.inbox|
    {
      var bytesToRead := BytesToRead(size, total);
      if bytesToRead <= 0 {
        // No recv is made: bytes_read stays 0 and nothing ever changes.
        t := Inbound(size, total, chunks, Spinning, p);
        AfterWritesEnd(chunks, t);
        return;
      }
      if p.inbox == [] {
        // The peer has closed: this recv and every later one returns 0.
        t := Inbound(size, total, chunks, Spinning, p);
        AfterWritesEnd(chunks, t);
        return;
      }
      var r := Recv(p, bytesToRead);
      ClientReceivePayloadStep(size, total, p, chunks, r);
      if r.count > 0 {
        ConcatAppend(chunks, r.data);
        file := file + r.data;
        chunks := chunks + [r.data];
      }
      total := total + r.count;
      p := r.peer;
    }
    t := Inbound(size, total, chunks, Completed, p);
    AfterWritesEnd(chunks, t);
  }
}
