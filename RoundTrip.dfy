/** The two transfer directions end to end: what one side's send loop puts
    on the connection, read back by the other side's receive loop. A send
    call's accepted bytes reach the reader as one recv (see AsReplies). */
module RoundTrip {
  import opened Wire
  import opened Framing
  import opened ServerTransfer
  import opened ClientTransfer
  import opened ServerSession
  import opened ClientSession

  /** The 4-byte size and the chunks, all sent in full, arrive as one
      segment each. */
  lemma PrefixedWire(n: int, cs: seq<seq<Byte>>)
    requires IsInt32(n)
    requires forall i :: 0 <= i < |cs| ==> cs[i] != []
    ensures AsReplies([SendCall(EncodeInt32(n), PrefixSize)] + FullSends(cs)) ==
            [Segment(EncodeInt32(n))] + Segments(cs)
  {
    var e := EncodeInt32(n);
    AsRepliesJoin([SendCall(e, PrefixSize)], FullSends(cs));
    assert Accepted(SendCall(e, PrefixSize)) == e;
    assert AsReplies([SendCall(e, PrefixSize)]) == [Segment(e)];
    FullSendsArrive(cs);
  }

  /** A recv of the 4-byte size that arrives whole yields the size. */
  lemma PrefixedReceive(n: int, rest: seq<Reply>, q: Peer, q': Peer)
    requires IsInt32(n)
    requires q.inbox == [Segment(EncodeInt32(n))] + rest
    requires q' == q.(inbox := rest)
    ensures var len := Recv(q, PrefixSize);
      PrefixValue(len.data) == n && len.peer == q'
  {
    var e := EncodeInt32(n);
    var len := Recv(q, PrefixSize);
    assert q.inbox[0] == Segment(e);
    assert len.data == e[..PrefixSize] == e;
    assert q.inbox[1..] == rest;
    PrefixValueOfEncoding(n);
  }

  /** The calls a prefixed send run appended to a connection's log, all
      accepted whole, reach the other side as the size segment followed by
      one segment per chunk, ahead of whatever was already waiting there. */
  lemma PrefixedLogArrives(n: int, cs: seq<seq<Byte>>, before: seq<SendCall>, after: seq<SendCall>,
                           inbox: seq<Reply>)
    requires IsInt32(n)
    requires forall i :: 0 <= i < |cs| ==> cs[i] != []
    requires after == before + [SendCall(EncodeInt32(n), PrefixSize)] + FullSends(cs)
    ensures |before| <= |after|
    ensures AsReplies(after[|before|..]) + inbox == [Segment(EncodeInt32(n))] + (Segments(cs) + inbox)
  {
    var e := EncodeInt32(n);
    LogTail(before, SendCall(e, PrefixSize), FullSends(cs), after);
    PrefixedWire(n, cs);
    ConsRegroup(Segment(e), Segments(cs), inbox);
  }

  lemma LogTail(before: seq<SendCall>, first: SendCall, sent: seq<SendCall>, after: seq<SendCall>)
    requires after == before + [first] + sent
    ensures |before| <= |after| && after[|before|..] == [first] + sent
  {
  }

  lemma ConsRegroup(x: Reply, a: seq<Reply>, b: seq<Reply>)
    ensures [x] + a + b == [x] + (a + b)
  {
  }

  /** Upload: the client sends a file of at most Int32Max bytes to a server
      that accepts every chunk whole; the server, reading what arrived,
      completes with `total_received == file_size` and writes exactly the
      client's file, reading nothing beyond it. */
  lemma UploadRoundTrip(source: seq<Byte>, c: Peer, s: Peer)
    requires |source| <= Int32Max && FullAcks(c.acks)
    ensures var t := ClientUpload(true, source, c);
      && |c.calls| <= |t.peer.calls|
      && var u := ServerUpload(true, s.(inbox := AsReplies(t.peer.calls[|c.calls|..]) + s.inbox));
      u.ending == Completed && u.total == |source| && Concat(u.chunks) == source && u.peer == s
  {
    var t := ClientUpload(true, source, c);
    var cs := Chunked(source);
    assert t.peer.calls == c.calls + [SendCall(EncodeInt32(|source|), PrefixSize)] + FullSends(cs) by {
      ClientUploadFullAcks(source, c);
    }
    PrefixedLogArrives(|source|, cs, c.calls, t.peer.calls, s.inbox);
    var q := s.(inbox := AsReplies(t.peer.calls[|c.calls|..]) + s.inbox);
    ServerUploadOfWire(|source|, cs, s.inbox, q);
  }

  /** Download: the server sends a file of at most Int32Max bytes to a
      client that accepts every chunk whole; the client, reading what
      arrived, completes with `received_bytes == file_size` and writes
      exactly the server's file, reading nothing beyond it. */
  lemma DownloadRoundTrip(source: seq<Byte>, s: Peer, c: Peer)
    requires |source| <= Int32Max && FullAcks(s.acks)
    ensures var t := ServerDownload(true, source, s);
      && |s.calls| <= |t.peer.calls|
      && var u := ClientDownload(true, c.(inbox := AsReplies(t.peer.calls[|s.calls|..]) + c.inbox));
      u.ending == Completed && u.total == |source| && Concat(u.chunks) == source && u.peer == c
  {
    var t := ServerDownload(true, source, s);
    var cs := Chunked(source);
    assert t.peer.calls == s.calls + [SendCall(EncodeInt32(|source|), PrefixSize)] + FullSends(cs) by {
      ServerDownloadFullAcks(source, s);
    }
    PrefixedLogArrives(|source|, cs, s.calls, t.peer.calls, c.inbox);
    var q := c.(inbox := AsReplies(t.peer.calls[|s.calls|..]) + c.inbox);
    ClientDownloadOfWire(|source|, cs, c.inbox, q);
  }

  /** receive_file_server on a connection that carries the 4-byte size and
      then the file in whole chunks completes, writes those chunks, and
      reads nothing after them. */
  lemma ServerUploadOfWire(n: int, cs: seq<seq<Byte>>, rest: seq<Reply>, q: Peer)
    requires forall i :: 0 <= i < |cs| ==> 0 < |cs[i]| <= ChunkSize
    requires n == |Concat(cs)| <= Int32Max
    requires q.inbox == [Segment(EncodeInt32(n))] + (Segments(cs) + rest)
    ensures var t := ServerUpload(true, q);
      t.ending == Completed && t.chunks == cs && t.peer == q.(inbox := rest)
  {
    var tail := Segments(cs) + rest;
    var len := Recv(q, PrefixSize);
    PrefixedReceive(n, tail, q, q.(inbox := tail));
    assert len.peer == q.(inbox := rest).(inbox := Segments(cs) + rest);
    ReceiveLoopDelivers(n, cs, q.(inbox := rest));
  }

  /** receive_file_client on a connection that carries the 4-byte size and
      then the file in whole chunks completes, writes those chunks, and
      reads nothing after them. */
  lemma ClientDownloadOfWire(n: int, cs: seq<seq<Byte>>, rest: seq<Reply>, q: Peer)
    requires forall i :: 0 <= i < |cs| ==> 0 < |cs[i]| <= ChunkSize
    requires n == |Concat(cs)| <= Int32Max
    requires q.inbox == [Segment(EncodeInt32(n))] + (Segments(cs) + rest)
    ensures var t := ClientDownload(true, q);
      t.ending == Completed && t.total == n && t.chunks == cs && t.peer == q.(inbox := rest)
  {
    var tail := Segments(cs) + rest;
    var len := Recv(q, PrefixSize);
    PrefixedReceive(n, tail, q, q.(inbox := tail));
    assert len.peer == q.(inbox := rest).(inbox := Segments(cs) + rest);
    ClientReceiveLoopDelivers(n, cs, q.(inbox := rest));
  }

  /** The upload turn of a session whose connection carries "Upload", a
      writable name, the size and the file in whole chunks. */
  lemma UploadTurnOfWire(store: Store, p: Peer, name: seq<Byte>, n: int, cs: seq<seq<Byte>>,
                         up: seq<Reply>, mid: seq<Reply>)
    requires 0 < |name| < FrameBufferSize && forall i :: 0 <= i < |name| ==> name[i] != 0
    requires name !in store.unwritable
    requires forall i :: 0 <= i < |cs| ==> 0 < |cs[i]| <= ChunkSize
    requires n == |Concat(cs)| <= Int32Max
    requires up == [Segment(EncodeInt32(n))] + (Segments(cs) + mid)
    requires p.inbox == [Segment(CommandText(Upload)), Segment(name)] + up
    ensures var t := ServerUpload(true, p.(inbox := up));
      && TurnOf(store, p) == Next(UploadRun(name, t), Stored(store, name, t), p.(inbox := mid))
      && t.ending == Completed && t.chunks == cs
  {
    ServeUpload(store, p, name, up);
    ServerUploadOfWire(n, cs, mid, p.(inbox := up));
  }

  /** The download turn of a session whose connection carries "Download"
      and the name of a stored file, for a client that accepts whole
      chunks. */
  lemma DownloadTurnOfFile(store: Store, q: Peer, name: seq<Byte>, source: seq<Byte>, rest: seq<Reply>)
    requires 0 < |name| < FrameBufferSize && forall i :: 0 <= i < |name| ==> name[i] != 0
    requires name in store.files && store.files[name] == source
    requires |source| <= Int32Max && FullAcks(q.acks)
    requires q.inbox == [Segment(CommandText(Download)), Segment(name)] + rest
    ensures var d := ServerDownload(true, source, q.(inbox := rest));
      && TurnOf(store, q) == Next(DownloadRun(name, d), store, d.peer)
      && d.ending == Completed && Delivered(d.sends) == source
  {
    ServeDownload(store, q, name, rest);
    ServerDownloadFullAcks(source, q.(inbox := rest));
    FullSendsArrive(Chunked(source));
  }

  lemma InboxRegroup(x1: Reply, x2: Reply, x3: Reply, s: seq<Reply>, m: seq<Reply>, r: seq<Reply>)
    ensures [x1, x2, x3] + s + m + r == [x1, x2] + ([x3] + (s + (m + r)))
  {
    assert [x1, x2, x3] == [x1, x2] + [x3];
  }

  /** One session that uploads a file under a writable name and then
      downloads the same name: the upload completes and stores the file,
      and the download, to a client that accepts whole chunks, completes
      and delivers exactly the bytes uploaded. */
  lemma ServeUploadThenDownload(store: Store, p: Peer, name: seq<Byte>, source: seq<Byte>, rest: seq<Reply>)
    requires 0 < |name| < FrameBufferSize && forall i :: 0 <= i < |name| ==> name[i] != 0
    requires name !in store.unwritable && |source| <= Int32Max && FullAcks(p.acks)
    requires p.inbox == [Segment(CommandText(Upload)), Segment(name), Segment(EncodeInt32(|source|))]
                        + Segments(Chunked(source))
                        + [Segment(CommandText(Download)), Segment(name)] + rest
    ensures var s := Serve(store, p);
      && |s.transfers| >= 2
      && s.transfers[0].UploadRun? && s.transfers[0].run.ending == Completed
      && Concat(s.transfers[0].run.chunks) == source
      && s.transfers[1].DownloadRun? && s.transfers[1].out.ending == Completed
      && Delivered(s.transfers[1].out.sends) == source
  {
    var cs := Chunked(source);
    var mid := [Segment(CommandText(Download)), Segment(name)] + rest;
    var up := [Segment(EncodeInt32(|source|))] + (Segments(cs) + mid);
    var t := ServerUpload(true, p.(inbox := up));
    var store' := Stored(store, name, t);
    var q := p.(inbox := mid);
    var d := ServerDownload(true, source, q.(inbox := rest));
    assert TurnOf(store, p) == Next(UploadRun(name, t), store', q)
           && t.ending == Completed && Concat(t.chunks) == source by {
      InboxRegroup(Segment(CommandText(Upload)), Segment(name), Segment(EncodeInt32(|source|)),
                   Segments(cs), [Segment(CommandText(Download)), Segment(name)], rest);
      UploadTurnOfWire(store, p, name, |source|, cs, up, mid);
    }
    assert TurnOf(store', q) == Next(DownloadRun(name, d), store', d.peer)
           && d.ending == Completed && Delivered(d.sends) == source by {
      DownloadTurnOfFile(store', q, name, source, rest);
    }
    ServeTwoTurns(store, p, UploadRun(name, t), store', q, DownloadRun(name, d), store', d.peer);
  }
}
