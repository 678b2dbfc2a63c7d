/** handle_client: the server's command loop for one connection. Each turn
    receives a command frame; "Upload" and "Download" then receive a
    filename frame and run a transfer, after which the loop reads the next
    command; "Quit" and anything else end the session. */
module ServerSession {
  import opened Wire
  import opened Framing
  import opened ServerTransfer

  /** One transfer run by the session, with the filename it used. */
  datatype Transfer =
    | UploadRun(name: seq<Byte>, run: Inbound)
    | DownloadRun(name: seq<Byte>, out: Outbound)

  function EndingOf(tr: Transfer): Ending
  {
    match tr
    case UploadRun(_, t) => t.ending
    case DownloadRun(_, t) => t.ending
  }

  /** How a session ended. */
  datatype SessionEnd =
    | Closed                        // a command recv returned <= 0: close(socket) and return
    | QuitReceived                  // "Quit": return, the socket left open
    | InvalidCommand(text: seq<Byte>) // any other command: return, the socket left open
    | BufferOverrun(index: int)     // a NUL written outside a 256-byte buffer
    | Hung                          // a transfer loop that never ends

  /** The transfers in order, how the session ended, the store and the
      connection afterwards. */
  datatype Session = Session(transfers: seq<Transfer>, end: SessionEnd, store: Store, peer: Peer)

  /** What one turn of the loop did: ran a transfer and goes on, or ended
      the session. */
  datatype Turn =
    | Next(transfer: Transfer, store: Store, peer: Peer)
    | Stop(end: SessionEnd, peer: Peer)

  /** One turn of the `while (true)` loop of handle_client. */
  function TurnOf(store: Store, p: Peer): (u: Turn)
    ensures u.Next? ==> |u.peer.inbox| < |p.inbox|
    ensures u.Next? ==> u.store.unwritable == store.unwritable
    ensures u.Stop? && u.end == Closed <==> Recv(p, FrameBufferSize).count <= 0
  {
    var cmd := Recv(p, FrameBufferSize);
    if cmd.count <= 0 then Stop(Closed, cmd.peer)
    else match FrameOf(cmd.count, cmd.data)
      case Overrun(i) => Stop(BufferOverrun(i), cmd.peer)
      case Text(command) =>
        var kind := Classify(command);
        if kind == Quit then Stop(QuitReceived, cmd.peer)
        else if kind == Invalid then Stop(InvalidCommand(command), cmd.peer)
        else
          var fn := Recv(cmd.peer, FrameBufferSize);
          match FrameOf(fn.count, fn.data)
          case Overrun(i) => Stop(BufferOverrun(i), fn.peer)
          case Text(name) =>
            if kind == Upload then
              var t := ServerUpload(name !in store.unwritable, fn.peer);
              Next(UploadRun(name, t), Stored(store, name, t), t.peer)
            else
              var source := if name in store.files then store.files[name] else [];
              var t := ServerDownload(name in store.files, source, fn.peer);
              Next(DownloadRun(name, t), store, t.peer)
  }

  /** The whole session: turns until one ends it, or until a transfer
      never ends. */
  function Serve(store: Store, p: Peer): (s: Session)
    decreases |p.inbox|
    ensures s.end == Hung <==> s.transfers != [] && EndingOf(s.transfers[|s.transfers| - 1]) == Spinning
    ensures forall i :: 0 <= i < |s.transfers| - 1 ==> EndingOf(s.transfers[i]) != Spinning
    ensures s.store.unwritable == store.unwritable
  {
    match TurnOf(store, p)
    case Stop(e, q) => Session([], e, store, q)
    case Next(tr, store', q) =>
      if EndingOf(tr) == Spinning then Session([tr], Hung, store', q)
      else
        var s := Serve(store', q);
        TransfersCons(tr, s.transfers, [tr] + s.transfers);
        s.(transfers := [tr] + s.transfers)
  }

  /** One more transfer that ends, in front. */
  lemma TransfersCons(tr: Transfer, ts: seq<Transfer>, all: seq<Transfer>)
    requires all == [tr] + ts && EndingOf(tr) != Spinning
    requires forall i :: 0 <= i < |ts| - 1 ==> EndingOf(ts[i]) != Spinning
    ensures forall i :: 0 <= i < |all| - 1 ==> EndingOf(all[i]) != Spinning
    ensures EndingOf(all[|all| - 1]) == Spinning <==> ts != [] && EndingOf(ts[|ts| - 1]) == Spinning
  {
    assert forall i :: 1 <= i < |all| ==> all[i] == ts[i - 1];
  }

  /** Prepends the transfers of the turns already run. */
  function AfterTurns(ts: seq<Transfer>, s: Session): Session
  {
    s.(transfers := ts + s.transfers)
  }

  lemma AfterTurnsTwice(a: seq<Transfer>, b: seq<Transfer>, s: Session)
    ensures AfterTurns(a, AfterTurns(b, s)) == AfterTurns(a + b, s)
  {
    assert a + (b + s.transfers) == (a + b) + s.transfers;
  }

  lemma AfterTurnsEnd(ts: seq<Transfer>, s: Session)
    requires s.transfers == ts
    ensures AfterTurns(ts, s.(transfers := [])) == s
  {
    assert ts + [] == ts;
  }

  /** The session after a turn that ended it. */
  lemma ServeStop(store: Store, p: Peer)
    requires TurnOf(store, p).Stop?
    ensures Serve(store, p) == Session([], TurnOf(store, p).end, store, TurnOf(store, p).peer)
  {
  }

  /** The session after a turn that ran a transfer. */
  lemma ServeNext(store: Store, p: Peer, tr: Transfer, store': Store, q: Peer)
    requires TurnOf(store, p) == Next(tr, store', q)
    ensures EndingOf(tr) == Spinning ==> Serve(store, p) == Session([tr], Hung, store', q)
    ensures EndingOf(tr) != Spinning ==> Serve(store, p) == AfterTurns([tr], Serve(store', q))
  {
  }

  /** Two turns that each run a transfer that ends are the session's first
      two transfers. */
  lemma ServeTwoTurns(store: Store, p: Peer, tr1: Transfer, store1: Store, q1: Peer,
                      tr2: Transfer, store2: Store, q2: Peer)
    requires TurnOf(store, p) == Next(tr1, store1, q1) && EndingOf(tr1) != Spinning
    requires TurnOf(store1, q1) == Next(tr2, store2, q2) && EndingOf(tr2) != Spinning
    ensures var s := Serve(store, p);
      |s.transfers| >= 2 && s.transfers[0] == tr1 && s.transfers[1] == tr2
  {
    ServeNext(store, p, tr1, store1, q1);
    ServeNext(store1, q1, tr2, store2, q2);
  }

  /** The store as the given transfers leave it: each upload that opened
      its file replaces that file with what it wrote; downloads change
      nothing. */
  function Replay(store: Store, ts: seq<Transfer>): Store
    decreases |ts|
  {
    if ts == [] then store
    else match ts[0]
      case UploadRun(name, t) => Replay(Stored(store, name, t), ts[1..])
      case DownloadRun(_, _) => Replay(store, ts[1..])
  }

  /** The names the given transfers uploaded to. */
  function UploadNames(ts: seq<Transfer>): set<seq<Byte>>
    decreases |ts|
  {
    if ts == [] then {}
    else match ts[0]
      case UploadRun(name, _) => {name} + UploadNames(ts[1..])
      case DownloadRun(_, _) => UploadNames(ts[1..])
  }

  /** The session changes the store only by its uploads, in order. */
  lemma {:induction false} ServeStore(store: Store, p: Peer)
    decreases |p.inbox|
    ensures Serve(store, p).store == Replay(store, Serve(store, p).transfers)
  {
    match TurnOf(store, p)
    case Stop(_, _) =>
    case Next(tr, store', q) =>
      if EndingOf(tr) != Spinning {
        ServeStore(store', q);
        var s := Serve(store', q);
        assert ([tr] + s.transfers)[1..] == s.transfers;
      } else {
        assert [tr][1..] == [];
      }
  }

  /** A file whose name no transfer uploaded to is as it was, and so is
      the set of unwritable names. */
  lemma {:induction false} ReplayKeeps(store: Store, ts: seq<Transfer>, name: seq<Byte>)
    requires name !in UploadNames(ts)
    decreases |ts|
    ensures Replay(store, ts).unwritable == store.unwritable
    ensures name in Replay(store, ts).files <==> name in store.files
    ensures name in store.files ==> Replay(store, ts).files[name] == store.files[name]
  {
    if ts != [] {
      match ts[0]
      case UploadRun(n, t) => ReplayKeeps(Stored(store, n, t), ts[1..], name);
      case DownloadRun(_, _) => ReplayKeeps(store, ts[1..], name);
    }
  }

  /** A command recv that fails (-1), or reads 0 bytes from a closed peer,
      closes the connection with no transfer; it is the only way the
      session closes the socket. */
  lemma ServeClosed(store: Store, p: Peer)
    ensures TurnOf(store, p) == Stop(Closed, Recv(p, FrameBufferSize).peer) <==>
            (p.inbox == [] || p.inbox[0] == RecvError || p.inbox[0] == Segment([]))
    ensures p.inbox == [] || p.inbox[0] == RecvError || p.inbox[0] == Segment([]) ==>
            Serve(store, p) == Session([], Closed, store, Recv(p, FrameBufferSize).peer)
  {
  }

  /** A "Quit" frame ends the session at once: no filename is read, no
      transfer runs and the socket is left open. */
  lemma ServeQuit(store: Store, p: Peer, rest: seq<Reply>)
    requires p.inbox == [Segment(CommandText(Quit))] + rest
    ensures Serve(store, p) == Session([], QuitReceived, store, p.(inbox := rest))
  {
    QuitFrame();
  }

  lemma QuitFrame()
    ensures FrameOf(|CommandText(Quit)|, CommandText(Quit)) == Text(CommandText(Quit))
    ensures Classify(CommandText(Quit)) == Quit
  {
    FrameOfSentText(CommandText(Quit));
    ClassifyCommandText(Quit, CommandText(Quit));
  }

  /** Any other text frame ends the session the same way. */
  lemma ServeInvalid(store: Store, p: Peer, text: seq<Byte>, rest: seq<Reply>)
    requires 0 < |text| < FrameBufferSize && forall i :: 0 <= i < |text| ==> text[i] != 0
    requires Classify(text) == Invalid
    requires p.inbox == [Segment(text)] + rest
    ensures Serve(store, p) == Session([], InvalidCommand(text), store, p.(inbox := rest))
  {
    var cmd := Recv(p, FrameBufferSize);
    assert cmd.count > 0 && FrameOf(cmd.count, cmd.data) == Text(text) && cmd.peer == p.(inbox := rest) by {
      assert cmd.count == |text| && cmd.data == text;
      FrameOfSentText(text);
    }
    assert TurnOf(store, p) == Stop(InvalidCommand(text), p.(inbox := rest));
  }

  /** An "Upload" frame and a filename frame run receive_file_server on the
      rest of the connection under that name; unless it never ends, the
      session then reads the next command. */
  lemma ServeUpload(store: Store, p: Peer, name: seq<Byte>, rest: seq<Reply>)
    requires 0 < |name| < FrameBufferSize && forall i :: 0 <= i < |name| ==> name[i] != 0
    requires p.inbox == [Segment(CommandText(Upload)), Segment(name)] + rest
    ensures var t := ServerUpload(name !in store.unwritable, p.(inbox := rest));
      TurnOf(store, p) == Next(UploadRun(name, t), Stored(store, name, t), t.peer)
  {
    var cmd := Recv(p, FrameBufferSize);
    var fn := Recv(cmd.peer, FrameBufferSize);
    assert && cmd.count > 0 && FrameOf(cmd.count, cmd.data) == Text(CommandText(Upload))
           && fn.peer == p.(inbox := rest) && FrameOf(fn.count, fn.data) == Text(name) by {
      FrameOfSentText(CommandText(Upload));
      FrameOfSentText(name);
      RecvTwice(p, Segment(CommandText(Upload)), Segment(name), rest, FrameBufferSize);
    }
    ClassifyCommandText(Upload, CommandText(Upload));
  }

  /** A "Download" frame and a filename frame run send_file_server on the
      named file, if the store holds it; the store does not change. */
  lemma ServeDownload(store: Store, p: Peer, name: seq<Byte>, rest: seq<Reply>)
    requires 0 < |name| < FrameBufferSize && forall i :: 0 <= i < |name| ==> name[i] != 0
    requires p.inbox == [Segment(CommandText(Download)), Segment(name)] + rest
    ensures var source := if name in store.files then store.files[name] else [];
      var t := ServerDownload(name in store.files, source, p.(inbox := rest));
      TurnOf(store, p) == Next(DownloadRun(name, t), store, t.peer)
  {
    var cmd := Recv(p, FrameBufferSize);
    var fn := Recv(cmd.peer, FrameBufferSize);
    assert && cmd.count > 0 && FrameOf(cmd.count, cmd.data) == Text(CommandText(Download))
           && fn.peer == p.(inbox := rest) && FrameOf(fn.count, fn.data) == Text(name) by {
      FrameOfSentText(CommandText(Download));
      FrameOfSentText(name);
      RecvTwice(p, Segment(CommandText(Download)), Segment(name), rest, FrameBufferSize);
    }
    ClassifyCommandText(Download, CommandText(Download));
  }

  /** A command recv that fills the whole 256-byte buffer writes the NUL at
      command_buffer[256], one past its end. */
  lemma ServeCommandOverrun(store: Store, p: Peer, b: seq<Byte>)
    requires |b| >= FrameBufferSize && p.inbox != [] && p.inbox[0] == Segment(b)
    ensures Serve(store, p).end == BufferOverrun(FrameBufferSize)
    ensures Serve(store, p).transfers == []
  {
  }

  /** The filename count is never checked: a failed filename recv writes the
      NUL at file_name_buffer[-1]. */
  lemma ServeFilenameErrorOverrun(store: Store, p: Peer, rest: seq<Reply>)
    requires p.inbox == [Segment(CommandText(Upload)), RecvError] + rest
    ensures Serve(store, p) == Session([], BufferOverrun(-1), store, p.(inbox := rest))
  {
    var cmd := Recv(p, FrameBufferSize);
    var fn := Recv(cmd.peer, FrameBufferSize);
    assert && cmd.count > 0 && FrameOf(cmd.count, cmd.data) == Text(CommandText(Upload))
           && fn.peer == p.(inbox := rest) && fn.count == -1 by {
      FrameOfSentText(CommandText(Upload));
      RecvTwice(p, Segment(CommandText(Upload)), RecvError, rest, FrameBufferSize);
    }
    ClassifyCommandText(Upload, CommandText(Upload));
    assert TurnOf(store, p) == Stop(BufferOverrun(-1), p.(inbox := rest));
  }

  /** handle_client on a connection, with the storage directory in `store`. */
  method HandleClient(store0: Store, peer: Peer) returns (s: Session)
    ensures s == Serve(store0, peer)
  {
    var store, p := store0, peer;
    var transfers: seq<Transfer> := [];
    ghost var goal := Serve(store, p);
    assert goal == AfterTurns([], Serve(store, p)) by {
      assert [] + goal.transfers == goal.transfers;
    }
    while true
      invariant goal == AfterTurns(transfers, Serve(store, p))
      decreases |p.inbox|
    {
      var cmd := Recv(p, FrameBufferSize);
      var command: Frame := Text([]);
      if cmd.count > 0 {
        command := ReadFrame(cmd.count, cmd.data);
      }
      if cmd.count <= 0 || command.Overrun? || Classify(command.text) == Quit
         || Classify(command.text) == Invalid {
        // close(client_socket) on the first path only; return on all.
        ServeStop(store, p);
        s := Session(transfers, TurnOf(store, p).end, store, cmd.peer);
        AfterTurnsEnd(transfers, s);
        return;
      }
      var kind := Classify(command.text);
      var fn := Recv(cmd.peer, FrameBufferSize);
      var fileName := ReadFrame(fn.count, fn.data);
      if fileName.Overrun? {
        ServeStop(store, p);
        s := Session(transfers, BufferOverrun(fileName.index), store, fn.peer);
        AfterTurnsEnd(transfers, s);
        return;
      }
      var name := fileName.text;
      var tr: Transfer;
      var store': Store;
      var q: Peer;
      if kind == Upload {
        var file, t := ReceiveFileServer(name !in store.unwritable, fn.peer);
        tr, q := UploadRun(name, t), t.peer;
        store' := if t.ending == NotOpened then store else store.(files := store.files[name := file]);
      } else {
        var source := if name in store.files then store.files[name] else [];
        var t := SendFileServer(name in store.files, source, fn.peer);
        tr, store', q := DownloadRun(name, t), store, t.peer;
      }
      assert TurnOf(store, p) == Next(tr, store', q);
      ServeNext(store, p, tr, store', q);
      if EndingOf(tr) == Spinning {
        s := Session(transfers + [tr], Hung, store', q);
        AfterTurnsEnd(transfers + [tr], s);
        return;
      }
      AfterTurnsTwice(transfers, [tr], Serve(store', q));
      transfers := transfers + [tr];
      store, p := store', q;
    }
  }
}
