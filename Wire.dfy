/** The connection as the protocol code sees it, the byte helpers shared by
    both sides, and the 4-byte length prefix that precedes every payload. */
module Wire {

  /** An octet on the wire or in a file. */
  newtype Byte = x: int | 0 <= x < 256

  /** BUFFER_SIZE: the most bytes one transfer-loop iteration moves. */
  const ChunkSize: int := 4096
  /** sizeof(command_buffer) and sizeof(file_name_buffer) on the server. */
  const FrameBufferSize: int := 256
  /** sizeof(int): the width of the length prefix. */
  const PrefixSize: int := 4

  const Int32Min: int := -0x8000_0000
  const Int32Max: int := 0x7FFF_FFFF
  const Two32: int := 0x1_0000_0000

  function Min(a: int, b: int): int { if a <= b then a else b }
  function Max(a: int, b: int): int { if a >= b then a else b }

  /** The peer's answer to one recv call: an error (recv returns -1) or a
      segment of bytes (recv returns its length; the empty segment is the
      0 that signals a closed connection). */
  datatype Reply = RecvError | Segment(bytes: seq<Byte>)

  /** One send call: the bytes passed to send and what send returned. */
  datatype SendCall = SendCall(data: seq<Byte>, result: int)

  /** The connection seen from one end.
      inbox: the replies to the coming recv calls, in order; once it is
        empty the peer has closed and every recv returns 0.
      acks: the results of the coming send calls (a negative one is an
        error, otherwise the count accepted, cut to the bytes offered);
        once it is empty the peer accepts everything offered.
      calls: every send made so far, in order. */
  datatype Peer = Peer(inbox: seq<Reply>, acks: seq<int>, calls: seq<SendCall>)

  datatype Received = Received(count: int, data: seq<Byte>, peer: Peer)
  datatype Sent = Sent(count: int, peer: Peer)

  /** recv(socket, buffer, len): the count returned, the bytes written to
      the front of the buffer, and the connection afterwards. */
  function Recv(p: Peer, len: int): (r: Received)
    ensures -1 <= r.count <= Max(len, 0)
    ensures r.count >= 0 ==> |r.data| == r.count
    ensures r.count < 0 ==> r.data == []
    ensures p.inbox == [] ==> r.count == 0 && r.peer == p
    ensures p.inbox != [] ==> r.peer == p.(inbox := p.inbox[1..])
    ensures p.inbox != [] && p.inbox[0].Segment? ==> r.data <= p.inbox[0].bytes
    ensures p.inbox != [] ==> (r.count < 0 <==> p.inbox[0] == RecvError)
  {
    if p.inbox == [] then Received(0, [], p)
    else match p.inbox[0]
      case RecvError => Received(-1, [], p.(inbox := p.inbox[1..]))
      case Segment(b) =>
        var n := Min(|b|, Max(len, 0));
        Received(n, b[..n], p.(inbox := p.inbox[1..]))
  }

  /** Two replies that are each read whole by two recv calls of `len`. */
  lemma RecvTwice(p: Peer, first: Reply, second: Reply, rest: seq<Reply>, len: int)
    requires p.inbox == [first, second] + rest
    ensures Recv(p, len).peer == p.(inbox := [second] + rest)
    ensures Recv(Recv(p, len).peer, len).peer == p.(inbox := rest)
    ensures first.Segment? && |first.bytes| <= len ==> Recv(p, len).count == |first.bytes| && Recv(p, len).data == first.bytes
    ensures second.Segment? && |second.bytes| <= len ==>
              Recv(Recv(p, len).peer, len).count == |second.bytes| && Recv(Recv(p, len).peer, len).data == second.bytes
  {
    assert p.inbox[1..] == [second] + rest;
    assert ([second] + rest)[1..] == rest;
  }

  /** send(socket, data, |data|): the count returned and the connection
      afterwards, which records the call. */
  function Send(p: Peer, data: seq<Byte>): (s: Sent)
    ensures -1 <= s.count <= |data|
    ensures s.peer.inbox == p.inbox
    ensures s.peer.calls == p.calls + [SendCall(data, s.count)]
    ensures p.acks == [] ==> s.count == |data| && s.peer.acks == []
    ensures p.acks != [] ==> s.peer.acks == p.acks[1..]
  {
    if p.acks == [] then Sent(|data|, p.(calls := p.calls + [SendCall(data, |data|)]))
    else
      var n := if p.acks[0] < 0 then -1 else Min(p.acks[0], |data|);
      Sent(n, p.(acks := p.acks[1..], calls := p.calls + [SendCall(data, n)]))
  }

  /** Every coming send accepts a whole chunk: no short or failed send. */
  predicate FullAcks(acks: seq<int>)
  {
    forall i :: 0 <= i < |acks| ==> acks[i] >= ChunkSize
  }

  /** The chunks concatenated in order. */
  function Concat(cs: seq<seq<Byte>>): seq<Byte>
  {
    if cs == [] then [] else cs[0] + Concat(cs[1..])
  }

  lemma {:induction false} ConcatAppend(cs: seq<seq<Byte>>, c: seq<Byte>)
    ensures Concat(cs + [c]) == Concat(cs) + c
  {
    if cs == [] {
      assert [c][1..] == [];
    } else {
      assert (cs + [c])[1..] == cs[1..] + [c];
      ConcatAppend(cs[1..], c);
    }
  }

  /** The bytes passed to each send call, one entry per call. */
  function Payloads(calls: seq<SendCall>): (ps: seq<seq<Byte>>)
    ensures |ps| == |calls|
  {
    if calls == [] then [] else [calls[0].data] + Payloads(calls[1..])
  }

  /** The bytes of one send call that reached the peer. */
  function Accepted(c: SendCall): (a: seq<Byte>)
    ensures a <= c.data
  {
    if c.result <= 0 then [] else c.data[..Min(c.result, |c.data|)]
  }

  /** What the peer reads of these send calls: one segment per call whose
      bytes reached it, in order. A call that moved nothing produces no
      segment. */
  function AsReplies(calls: seq<SendCall>): seq<Reply>
  {
    if calls == [] then []
    else if Accepted(calls[0]) == [] then AsReplies(calls[1..])
    else [Segment(Accepted(calls[0]))] + AsReplies(calls[1..])
  }

  lemma {:induction false} AsRepliesJoin(a: seq<SendCall>, b: seq<SendCall>)
    ensures AsReplies(a + b) == AsReplies(a) + AsReplies(b)
  {
    if a == [] {
      assert a + b == b;
    } else {
      assert (a + b)[1..] == a[1..] + b;
      AsRepliesJoin(a[1..], b);
    }
  }

  /** The bytes that reached the peer, over all these send calls. */
  function Delivered(calls: seq<SendCall>): seq<Byte>
  {
    if calls == [] then [] else Accepted(calls[0]) + Delivered(calls[1..])
  }

  /** The bytes handed to send, over all these send calls. */
  function Passed(calls: seq<SendCall>): seq<Byte>
  {
    if calls == [] then [] else calls[0].data + Passed(calls[1..])
  }

  /** How a transfer function returned. */
  datatype Ending =
    | Completed   // the counter reached the declared size
    | Aborted     // the loop broke on an error result
    | Spinning    // the next iteration would repeat forever: no byte is ever moved again
    | NotOpened   // the file did not open; nothing was sent or received

  /** A receive transfer: the declared size, the final counter, the chunks
      written to the file in order, how it ended and the connection
      afterwards. */
  datatype Inbound = Inbound(size: int, total: int, chunks: seq<seq<Byte>>,
                             ending: Ending, peer: Peer)

  /** A send transfer: the declared size, the final counter, the send calls
      of the payload loop in order, how it ended and the connection
      afterwards. */
  datatype Outbound = Outbound(size: int, total: int, sends: seq<SendCall>,
                               ending: Ending, peer: Peer)

  /** Prepends the chunks already written to a run of the loop. */
  function AfterWrites(chunks: seq<seq<Byte>>, t: Inbound): Inbound
  {
    t.(chunks := chunks + t.chunks)
  }

  lemma AfterWritesNone(t: Inbound)
    ensures AfterWrites([], t) == t
  {
    assert [] + t.chunks == t.chunks;
  }

  lemma AfterWritesTwice(a: seq<seq<Byte>>, b: seq<seq<Byte>>, t: Inbound)
    ensures AfterWrites(a, AfterWrites(b, t)) == AfterWrites(a + b, t)
  {
    assert a + (b + t.chunks) == (a + b) + t.chunks;
  }

  lemma AfterWritesEnd(chunks: seq<seq<Byte>>, t: Inbound)
    requires t.chunks == chunks
    ensures AfterWrites(chunks, t.(chunks := [])) == t
  {
    assert chunks + [] == chunks;
  }

  /** Prepends the send calls already made to a run of the loop. */
  function AfterSends(sends: seq<SendCall>, t: Outbound): Outbound
  {
    t.(sends := sends + t.sends)
  }

  lemma AfterSendsNone(t: Outbound)
    ensures AfterSends([], t) == t
  {
    assert [] + t.sends == t.sends;
  }

  lemma AfterSendsTwice(a: seq<SendCall>, b: seq<SendCall>, t: Outbound)
    ensures AfterSends(a, AfterSends(b, t)) == AfterSends(a + b, t)
  {
    assert a + (b + t.sends) == (a + b) + t.sends;
  }

  lemma AfterSendsEnd(sends: seq<SendCall>, t: Outbound)
    requires t.sends == sends
    ensures AfterSends(sends, t.(sends := [])) == t
  {
    assert sends + [] == sends;
  }

  lemma AfterSendsChain(goal: Outbound, sends: seq<SendCall>, c: SendCall, a: Outbound, b: Outbound)
    requires goal == AfterSends(sends, a) && a == AfterSends([c], b)
    ensures goal == AfterSends(sends + [c], b)
  {
    AfterSendsTwice(sends, [c], b);
  }

  lemma SliceSplit(s: seq<Byte>, i: nat, j: nat)
    requires i <= j <= |s|
    ensures s[i..] == s[i..j] + s[j..]
  {
  }

  lemma SliceOfSlice(s: seq<Byte>, i: nat, k: nat, j: nat)
    requires i <= k <= j <= |s|
    ensures s[i..j][..k - i] == s[i..k] && s[i..j][k - i..] == s[k..j]
  {
  }

  /** A directory: the files it holds, by name, and the names under which
      a file cannot be created for writing. */
  datatype Store = Store(files: map<seq<Byte>, seq<Byte>>, unwritable: set<seq<Byte>>)

  /** The directory after a receive transfer into `name`: an ofstream
      that opened has created or truncated the file, which holds what was
      written. */
  function Stored(store: Store, name: seq<Byte>, t: Inbound): Store
  {
    if t.ending == NotOpened then store
    else store.(files := store.files[name := Concat(t.chunks)])
  }

  /** The segments of a byte string cut into consecutive chunks of
      ChunkSize bytes, the last one possibly shorter: the way a full
      transfer loop moves a payload. */
  function Chunked(s: seq<Byte>): (cs: seq<seq<Byte>>)
    decreases |s|
    ensures Concat(cs) == s
    ensures forall i :: 0 <= i < |cs| ==> 0 < |cs[i]| <= ChunkSize
  {
    if s == [] then []
    else
      var k := Min(ChunkSize, |s|);
      var rest := Chunked(s[k..]);
      assert s == s[..k] + s[k..];
      [s[..k]] + rest
  }

  /** A payload as the peer's replies: one segment per chunk. */
  function Segments(cs: seq<seq<Byte>>): (rs: seq<Reply>)
    ensures |rs| == |cs|
  {
    if cs == [] then [] else [Segment(cs[0])] + Segments(cs[1..])
  }

  /** The chunks after the first, and how they arrive. */
  lemma ChunksTail(cs: seq<seq<Byte>>, cs': seq<seq<Byte>>)
    requires cs != [] && cs' == cs[1..]
    requires forall i :: 0 <= i < |cs| ==> 0 < |cs[i]| <= ChunkSize
    ensures forall i :: 0 <= i < |cs'| ==> 0 < |cs'[i]| <= ChunkSize
    ensures |Concat(cs)| == |cs[0]| + |Concat(cs')|
    ensures Segments(cs) == [Segment(cs[0])] + Segments(cs')
  {
  }

  /** One more chunk in front. */
  lemma ChunksCons(c: seq<Byte>, cs: seq<seq<Byte>>, all: seq<seq<Byte>>)
    requires all == [c] + cs && 0 < |c| <= ChunkSize
    requires forall i :: 0 <= i < |cs| ==> 0 < |cs[i]| <= ChunkSize
    ensures forall i :: 0 <= i < |all| ==> 0 < |all[i]| <= ChunkSize
    ensures |Concat(all)| == |c| + |Concat(cs)|
  {
    assert all[1..] == cs;
  }

  /** Every one of these send calls was accepted in full. */
  predicate AllWhole(calls: seq<SendCall>)
  {
    forall i :: 0 <= i < |calls| ==> calls[i].result == |calls[i].data|
  }

  lemma AllWholeCons(c: SendCall, tail: seq<SendCall>)
    requires c.result == |c.data| && AllWhole(tail)
    ensures AllWhole([c] + tail)
  {
  }

  /** When every call was accepted in full, what reached the peer is what
      was passed to send. */
  lemma {:induction false} AllWholeDelivered(calls: seq<SendCall>)
    requires AllWhole(calls)
    ensures Delivered(calls) == Passed(calls)
  {
    if calls != [] {
      assert AllWhole(calls[1..]) by {
        forall i | 0 <= i < |calls| - 1
          ensures calls[1..][i].result == |calls[1..][i].data|
        {
          assert calls[1..][i] == calls[i + 1];
        }
      }
      AllWholeDelivered(calls[1..]);
    }
  }

  /** A send of at most a chunk to a peer that accepts whole chunks is
      accepted in full, and the peer keeps accepting whole chunks. */
  lemma SendFullAck(p: Peer, data: seq<Byte>)
    requires |data| <= ChunkSize && FullAcks(p.acks)
    ensures Send(p, data).count == |data| && FullAcks(Send(p, data).peer.acks)
  {
  }

  lemma PayloadsCons(c: SendCall, tail: seq<SendCall>)
    ensures Payloads([c] + tail) == [c.data] + Payloads(tail)
  {
    assert ([c] + tail)[1..] == tail;
  }

  /** Calls each accepted in full are the full sends of their payloads. */
  lemma {:induction false} WholeSends(calls: seq<SendCall>)
    requires AllWhole(calls)
    ensures calls == FullSends(Payloads(calls))
  {
    if calls != [] {
      assert AllWhole(calls[1..]) by {
        forall i | 0 <= i < |calls| - 1
          ensures calls[1..][i].result == |calls[1..][i].data|
        {
          assert calls[1..][i] == calls[i + 1];
        }
      }
      WholeSends(calls[1..]);
      assert Payloads(calls)[1..] == Payloads(calls[1..]);
    }
  }

  /** The first chunk of a non-empty byte string, and the rest. */
  lemma ChunkedCons(s: seq<Byte>, k: int, rest: seq<Byte>)
    requires s != [] && k == Min(ChunkSize, |s|) && rest == s[k..]
    ensures Chunked(s) == [s[..k]] + Chunked(rest)
  {
  }

  /** The send calls that pass these chunks, each accepted in full. */
  function FullSends(cs: seq<seq<Byte>>): (ss: seq<SendCall>)
    ensures |ss| == |cs|
  {
    if cs == [] then [] else [SendCall(cs[0], |cs[0]|)] + FullSends(cs[1..])
  }

  /** Non-empty chunks sent in full reach the peer as one segment each, and
      what was passed and what arrived are both their concatenation. */
  lemma {:induction false} FullSendsArrive(cs: seq<seq<Byte>>)
    requires forall i :: 0 <= i < |cs| ==> cs[i] != []
    ensures AsReplies(FullSends(cs)) == Segments(cs)
    ensures Delivered(FullSends(cs)) == Concat(cs) && Passed(FullSends(cs)) == Concat(cs)
  {
    if cs != [] {
      FullSendsArrive(cs[1..]);
      var ss := FullSends(cs);
      assert ss[0] == SendCall(cs[0], |cs[0]|) && ss[1..] == FullSends(cs[1..]);
      assert Accepted(ss[0]) == cs[0];
    }
  }

  predicate IsInt32(x: int) { Int32Min <= x <= Int32Max }

  /** `int file_size = std::filesystem::file_size(...)`: the size kept
      modulo 2^32 as a two's complement 32-bit int. */
  function ToInt32(n: nat): (x: int)
    ensures IsInt32(x)
    ensures x <= n
    ensures n <= Int32Max ==> x == n
    ensures (n - x) % Two32 == 0
  {
    var u := n % Two32;
    if u <= Int32Max then u else u - Two32
  }

  /** The four bytes of a 32-bit int as a little-endian host lays them out
      in memory, the first byte the lowest. */
  function EncodeInt32(x: int): (b: seq<Byte>)
    requires IsInt32(x)
    ensures |b| == PrefixSize
    ensures LittleEndian(b) == if x < 0 then x + Two32 else x
  {
    var u := if x < 0 then x + Two32 else x;
    var q1 := u / 256;
    var q2 := q1 / 256;
    var q3 := q2 / 256;
    var b := [(u % 256) as Byte, (q1 % 256) as Byte, (q2 % 256) as Byte, (q3 % 256) as Byte];
    assert b[3] as int == q3 && b[2] as int + 256 * q3 == q2;
    assert b[1] as int + 256 * q2 == q1 && b[0] as int + 256 * q1 == u;
    b
  }

  /** The unsigned value of four bytes read lowest first. */
  function LittleEndian(b: seq<Byte>): (u: int)
    requires |b| == PrefixSize
    ensures 0 <= u < Two32
  {
    b[0] as int + 256 * (b[1] as int + 256 * (b[2] as int + 256 * (b[3] as int)))
  }

  /** The 32-bit int whose memory holds these four bytes. */
  function DecodeInt32(b: seq<Byte>): (x: int)
    requires |b| == PrefixSize
    ensures IsInt32(x)
    ensures LittleEndian(b) == if x < 0 then x + Two32 else x
  {
    var u := LittleEndian(b);
    if u <= Int32Max then u else u - Two32
  }

  lemma DecodeEncode(x: int)
    requires IsInt32(x)
    ensures DecodeInt32(EncodeInt32(x)) == x
  {
    var e := EncodeInt32(x);
    assert LittleEndian(e) == if x < 0 then x + Two32 else x;
  }

  lemma EncodeDecode(b: seq<Byte>)
    requires |b| == PrefixSize
    ensures EncodeInt32(DecodeInt32(b)) == b
  {
    var b0, b1, b2, b3 := b[0] as int, b[1] as int, b[2] as int, b[3] as int;
    var q2 := b2 + 256 * b3;
    var q1 := b1 + 256 * q2;
    var u := b0 + 256 * q1;
    var x := DecodeInt32(b);
    assert (if x < 0 then x + Two32 else x) == u;
    assert u / 256 == q1 && u % 256 == b0;
    assert q1 / 256 == q2 && q1 % 256 == b1;
    assert q2 / 256 == b3 && q2 % 256 == b2;
    var e := EncodeInt32(x);
    assert e[0] == b[0] && e[1] == b[1] && e[2] == b[2] && e[3] == b[3];
  }

  /** `int file_size = 0; recv(socket, &file_size, 4, 0)`: recv writes the
      bytes it got over the low-order end of an int that starts at 0; the
      bytes it did not get stay 0. */
  function PrefixValue(data: seq<Byte>): (size: int)
    requires |data| <= PrefixSize
    ensures IsInt32(size)
  {
    DecodeInt32(data + seq(PrefixSize - |data|, _ => 0 as Byte))
  }

  lemma PrefixValueOfEncoding(x: int)
    requires IsInt32(x)
    ensures PrefixValue(EncodeInt32(x)) == x
  {
    assert EncodeInt32(x) + seq(0, _ => 0 as Byte) == EncodeInt32(x);
    DecodeEncode(x);
  }
}
