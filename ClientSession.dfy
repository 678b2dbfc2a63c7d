/** The command loop of the client's main: read a command word; "Quit" and
    anything unrecognised leave the loop without sending anything; "Upload"
    and "Download" send the command, read and send a filename, then run the
    transfer. */
module ClientSession {
  import opened Wire
  import opened Framing
  import opened ClientTransfer

  /** One transfer run by the client, with the filename it used. */
  datatype ClientTurn =
    | UploadTurn(name: seq<Byte>, out: Outbound)
    | DownloadTurn(name: seq<Byte>, run: Inbound)

  function TurnEnding(turn: ClientTurn): Ending
  {
    match turn
    case UploadTurn(_, t) => t.ending
    case DownloadTurn(_, t) => t.ending
  }

  /** How the command loop ended. */
  datatype ClientEnd =
    | QuitTyped                  // "Quit": break
    | InvalidTyped(text: seq<Byte>) // anything else, an empty word at end of input included: break
    | TransferHung               // a transfer loop that never ends

  /** The transfers in order, how the loop ended, the local directory and
      the connection afterwards. */
  datatype ClientRun = ClientRun(turns: seq<ClientTurn>, end: ClientEnd, local: Store, peer: Peer)

  /** What one turn of the loop did: ran a transfer and goes on with the
      rest of the input, or left the loop. */
  datatype ClientStep =
    | Go(turn: ClientTurn, local: Store, input: seq<seq<Byte>>, peer: Peer)
    | Halt(end: ClientEnd)

  /** The next word of the input; `std::cin >> word` at end of input
      leaves the fresh string empty. */
  function Word(input: seq<seq<Byte>>): seq<Byte>
  {
    if input == [] then [] else input[0]
  }

  function AfterWord(input: seq<seq<Byte>>): (rest: seq<seq<Byte>>)
    ensures input != [] ==> |rest| < |input|
  {
    if input == [] then [] else input[1..]
  }

  /** One turn of the `while (true)` loop of main; `input` holds the words
      still to be read from std::cin. */
  function ClientTurnOf(local: Store, input: seq<seq<Byte>>, p: Peer): (u: ClientStep)
    ensures u.Go? ==> |u.input| < |input|
    ensures u.Halt? <==> Classify(Word(input)) == Quit || Classify(Word(input)) == Invalid
  {
    var command := Word(input);
    var kind := Classify(command);
    if kind == Quit then Halt(QuitTyped)
    else if kind == Invalid then Halt(InvalidTyped(command))
    else
      assert input != [] by {
        assert |Ascii("Upload")| == 6 && |Ascii("Download")| == 8 && |Ascii("Quit")| == 4;
      }
      var c := Send(p, command);
      var rest := AfterWord(input);
      var name := Word(rest);
      var f := Send(c.peer, name);
      if kind == Upload then
        var source := if name in local.files then local.files[name] else [];
        var t := ClientUpload(name in local.files, source, f.peer);
        Go(UploadTurn(name, t), local, AfterWord(rest), t.peer)
      else
        var t := ClientDownload(name !in local.unwritable, f.peer);
        Go(DownloadTurn(name, t), Stored(local, name, t), AfterWord(rest), t.peer)
  }

  /** The whole command loop. */
  function Drive(local: Store, input: seq<seq<Byte>>, p: Peer): (r: ClientRun)
    decreases |input|
    ensures r.end == TransferHung <==> r.turns != [] && TurnEnding(r.turns[|r.turns| - 1]) == Spinning
    ensures forall i :: 0 <= i < |r.turns| - 1 ==> TurnEnding(r.turns[i]) != Spinning
    ensures r.local.unwritable == local.unwritable
  {
    match ClientTurnOf(local, input, p)
    case Halt(e) => ClientRun([], e, local, p)
    case Go(turn, local', input', q) =>
      if TurnEnding(turn) == Spinning then ClientRun([turn], TransferHung, local', q)
      else
        var r := Drive(local', input', q);
        TurnsCons(turn, r.turns, [turn] + r.turns);
        r.(turns := [turn] + r.turns)
  }

  /** One more transfer that ends, in front. */
  lemma TurnsCons(turn: ClientTurn, ts: seq<ClientTurn>, all: seq<ClientTurn>)
    requires all == [turn] + ts && TurnEnding(turn) != Spinning
    requires forall i :: 0 <= i < |ts| - 1 ==> TurnEnding(ts[i]) != Spinning
    ensures forall i :: 0 <= i < |all| - 1 ==> TurnEnding(all[i]) != Spinning
    ensures TurnEnding(all[|all| - 1]) == Spinning <==> ts != [] && TurnEnding(ts[|ts| - 1]) == Spinning
  {
    assert forall i :: 1 <= i < |all| ==> all[i] == ts[i - 1];
  }

  function AfterClientTurns(ts: seq<ClientTurn>, r: ClientRun): ClientRun
  {
    r.(turns := ts + r.turns)
  }

  lemma AfterClientTurnsTwice(a: seq<ClientTurn>, b: seq<ClientTurn>, r: ClientRun)
    ensures AfterClientTurns(a, AfterClientTurns(b, r)) == AfterClientTurns(a + b, r)
  {
    assert a + (b + r.turns) == (a + b) + r.turns;
  }

  lemma AfterClientTurnsEnd(ts: seq<ClientTurn>, r: ClientRun)
    requires r.turns == ts
    ensures AfterClientTurns(ts, r.(turns := [])) == r
  {
    assert ts + [] == ts;
  }

  /** "Quit", an unrecognised word, and the end of the input leave the loop
      at once: nothing is sent and nothing is received. */
  lemma DriveStopsSilently(local: Store, input: seq<seq<Byte>>, p: Peer)
    requires input == [] || Classify(input[0]) == Quit || Classify(input[0]) == Invalid
    ensures var r := Drive(local, input, p);
      && r.turns == [] && r.peer == p && r.local == local
      && (r.end == QuitTyped <==> input != [] && Classify(input[0]) == Quit)
  {
    if input == [] {
      assert Classify([]) == Invalid by {
        assert |Ascii("Upload")| == 6 && |Ascii("Download")| == 8 && |Ascii("Quit")| == 4;
      }
    }
  }

  /** "Upload" sends the command, then the filename, then the 4-byte size
      and the payload of send_file_client, in that order, and the loop
      goes on with the rest of the input. */
  lemma DriveUpload(local: Store, name: seq<Byte>, rest: seq<seq<Byte>>, p: Peer)
    ensures var input := [CommandText(Upload), name] + rest;
      var c := Send(p, CommandText(Upload));
      var f := Send(c.peer, name);
      var source := if name in local.files then local.files[name] else [];
      var t := ClientUpload(name in local.files, source, f.peer);
      && ClientTurnOf(local, input, p) == Go(UploadTurn(name, t), local, rest, t.peer)
      && (name in local.files ==>
            t.peer.calls == p.calls + [SendCall(CommandText(Upload), c.count), SendCall(name, f.count),
                                       SendCall(EncodeInt32(ToInt32(|source|)),
                                                Send(f.peer, EncodeInt32(ToInt32(|source|))).count)]
                                  + t.sends)
  {
    var input := [CommandText(Upload), name] + rest;
    ClassifyCommandText(Upload, CommandText(Upload));
    assert Word(input) == CommandText(Upload) && AfterWord(input) == [name] + rest;
    assert Word([name] + rest) == name && AfterWord([name] + rest) == rest;
    var c := Send(p, CommandText(Upload));
    var f := Send(c.peer, name);
    var source := if name in local.files then local.files[name] else [];
    if name in local.files {
      ClientUploadLog(source, f.peer);
    }
  }

  /** "Download" sends the command, then the filename, then runs
      receive_file_client, which sends nothing; the loop goes on with the
      rest of the input. */
  lemma DriveDownload(local: Store, name: seq<Byte>, rest: seq<seq<Byte>>, p: Peer)
    ensures var input := [CommandText(Download), name] + rest;
      var c := Send(p, CommandText(Download));
      var f := Send(c.peer, name);
      var t := ClientDownload(name !in local.unwritable, f.peer);
      && ClientTurnOf(local, input, p) == Go(DownloadTurn(name, t), Stored(local, name, t), rest, t.peer)
      && t.peer.calls == p.calls + [SendCall(CommandText(Download), c.count), SendCall(name, f.count)]
  {
    var input := [CommandText(Download), name] + rest;
    ClassifyCommandText(Download, CommandText(Download));
    assert Word(input) == CommandText(Download) && AfterWord(input) == [name] + rest;
    assert Word([name] + rest) == name && AfterWord([name] + rest) == rest;
  }

  /** main's command loop over the words of `input`, with the local
      directory in `local`. */
  method ClientMain(local0: Store, input0: seq<seq<Byte>>, peer: Peer) returns (r: ClientRun)
    ensures r == Drive(local0, input0, peer)
  {
    var local, input, p := local0, input0, peer;
    var turns: seq<ClientTurn> := [];
    ghost var goal := Drive(local, input, p);
    assert goal == AfterClientTurns([], Drive(local, input, p)) by {
      assert [] + goal.turns == goal.turns;
    }
    while true
      invariant goal == AfterClientTurns(turns, Drive(local, input, p))
      decreases |input|
    {
      var command := Word(input);
      var kind := Classify(command);
      if kind == Quit || kind == Invalid {
        r := ClientRun(turns, if kind == Quit then QuitTyped else InvalidTyped(command), local, p);
        AfterClientTurnsEnd(turns, r);
        return;
      }
      var c := Send(p, command);               // send_command
      var rest := AfterWord(input);
      var name := Word(rest);
      var f := Send(c.peer, name);              // send_file_name
      var turn: ClientTurn;
      var local': Store;
      var q: Peer;
      if kind == Upload {
        var source := if name in local.files then local.files[name] else [];
        var t := SendFileClient(name in local.files, source, f.peer);
        turn, local', q := UploadTurn(name, t), local, t.peer;
      } else {
        var file, t := ReceiveFileClient(name !in local.unwritable, f.peer);
        turn, q := DownloadTurn(name, t), t.peer;
        local' := if t.ending == NotOpened then local else local.(files := local.files[name := file]);
      }
      assert ClientTurnOf(local, input, p) == Go(turn, local', AfterWord(rest), q);
      if TurnEnding(turn) == Spinning {
        r := ClientRun(turns + [turn], TransferHung, local', q);
        AfterClientTurnsEnd(turns + [turn], r);
        return;
      }
      AfterClientTurnsTwice(turns, [turn], Drive(local', AfterWord(rest), q));
      turns := turns + [turn];
      local, input, p := local', AfterWord(rest), q;
    }
  }
}
