# fileserver_ver04 wire protocol, modelled in Dafny

The file server (`server_side.cpp`) and its interactive client (`client_side.cpp`)
speak a small protocol over one TCP connection:

- the client sends a command word (`Upload`, `Download` or `Quit`) as raw bytes;
- after `Upload` or `Download` it sends a filename the same way;
- the side that has the file sends its size as a 4-byte `int`;
- it then sends the payload in chunks of at most 4096 bytes (`BUFFER_SIZE`).

The server reads each command and filename with a single `recv` into a
256-byte buffer. It writes a NUL after the bytes received and reads the buffer
back as a C string. After a transfer, `handle_client` loops back for the next
command.

This project models that core.

- The connection is a value (`Wire.Peer`). It holds:
  - the replies the peer will give to the coming `recv` calls, one per call;
  - the results of the coming `send` calls;
  - the log of every `send` made so far.
- An exhausted reply list is a closed peer: every further `recv` returns 0.
- An exhausted result list is a peer that accepts every byte offered.

Each transfer function is a `method` with the source's `while` loop. Every such
method is proved equal to a recursive function that defines the same loop, and
the protocol's properties are lemmas about those functions:

- chunk bounds;
- counters that never pass the declared size;
- "the file written is the chunks received, in order";
- what an error, a zero-byte read or a short send does.

The command loops of both sides are modelled the same way:
`ServerSession.HandleClient` and `ClientSession.ClientMain`. A directory is a
`Wire.Store`: a map from names to contents, plus the names that cannot be
opened for writing.

`RoundTrip` joins the two sides. It feeds what one side's send loop puts on the
connection into the other side's receive loop.

A loop iteration that would repeat for ever ends the model's loop with the
ending `Spinning`. Two cases do this:

- a `recv` on a closed peer returns 0;
- a file read at end of file returns 0 bytes.

A session whose transfer spins ends as `Hung`.

The model follows the code as written:

- "Quit" and an invalid command end `handle_client` without closing the socket
  (`server_side.cpp:256-264`). Only a failed command `recv` closes it.
- A failed filename `recv` is not checked at all. Its NUL is written at index -1.
- A zero-byte `recv` mid-transfer makes the loop spin rather than fail.
- The client adds every `recv` result to `received_bytes`, -1 included
  (`client_side.cpp:122-129`). An error therefore makes the next `recv` ask for
  one byte more than the file has left. A download can then complete with one
  byte more written than the declared size
  (`ClientTransfer.ClientReceiveLoopErrorOverwrites`).
- The client computes `bytes_to_read` from `file_size - received_bytes` in a
  32-bit `int` and skips the `recv` when it is not positive
  (`client_side.cpp:117-123`). After one error on a file of `INT_MAX` bytes the
  difference wraps negative, and the loop spins without reading
  (`ClientTransfer.ClientReceiveLoopErrorOnLargestFile`).

## Model

| member | source | states |
|---|---|---|
| Wire.Recv | projects_cpp/fileserver_ver04/server_side.cpp:129 | recv returns -1 (with no data) exactly on an error reply and 0 on a closed peer; otherwise it returns the front of the next segment, at most the requested length, and consumes that one reply |
| Wire.Send | projects_cpp/fileserver_ver04/server_side.cpp:180 | send returns -1 or at most the bytes offered, appends the call and its result to the connection's log and leaves the incoming replies alone; a peer with no scripted results accepts everything |
| Wire.ToInt32 | projects_cpp/fileserver_ver04/server_side.cpp:157 | `int file_size = file_size(...)` keeps the size modulo 2^32 in int32 range, and sizes up to Int32Max are unchanged |
| Wire.EncodeInt32 | projects_cpp/fileserver_ver04/server_side.cpp:161 | the 4 bytes sent for an `int` hold its value modulo 2^32, lowest byte first |
| Wire.DecodeInt32 | projects_cpp/fileserver_ver04/server_side.cpp:119-120 | the `int` read from 4 bytes is the int32 equal, modulo 2^32, to their little-endian value |
| Wire.DecodeEncode | projects_cpp/fileserver_ver04/server_side.cpp:161 | decoding the 4 bytes of an encoded int32 gives the int back |
| Wire.EncodeDecode | projects_cpp/fileserver_ver04/server_side.cpp:120 | encoding a decoded 4-byte prefix gives the same 4 bytes |
| Wire.PrefixValue | projects_cpp/fileserver_ver04/server_side.cpp:119-120 | the size read by `recv(&file_size, 4)` into an int that starts at 0 is always an int32, whether 0 to 4 bytes arrive |
| Wire.PrefixValueOfEncoding | projects_cpp/fileserver_ver04/client_side.cpp:108-109 | a prefix that arrives whole is read as exactly the size that was sent |
| Wire.Chunked | projects_cpp/fileserver_ver04/client_side.cpp:78-91 | the reference cut of a payload into chunks: they concatenate to the payload and each has 1..4096 bytes |
| Wire.FullSendsArrive | projects_cpp/fileserver_ver04/server_side.cpp:178-185 | non-empty chunks each sent in full reach the peer as one segment each; the bytes delivered and the bytes passed are both their concatenation |
| Wire.AllWholeDelivered | projects_cpp/fileserver_ver04/server_side.cpp:180-185 | when every send accepted its whole buffer, the bytes delivered are the bytes passed |
| Wire.WholeSends | projects_cpp/fileserver_ver04/server_side.cpp:180-185 | send calls that were each accepted whole are the full sends of their buffers |
| Framing.CommandText | projects_cpp/fileserver_ver04/client_side.cpp:161-176 | the text of each command, as the client sends it, is 1..255 bytes long |
| Framing.Classify | projects_cpp/fileserver_ver04/server_side.cpp:216-264 | a text classified as a command is exactly that command's text |
| Framing.ClassifyCommandText | projects_cpp/fileserver_ver04/server_side.cpp:216-264 | exact match, both directions: a text is classified as a command if and only if it is that command's text |
| Framing.UpToNul | projects_cpp/fileserver_ver04/server_side.cpp:213 | `std::string(buffer)` is the longest NUL-free prefix of the buffer, stopped by a NUL or by the end |
| Framing.ReadFrame | projects_cpp/fileserver_ver04/server_side.cpp:202-213 | the buffer fill, `buffer[n] = '\0'` and the C-string read over a 256-byte array: it overruns exactly when n is -1 or 256, at index n; otherwise the text is the received bytes up to the first NUL |
| Framing.NulFreePrefix | projects_cpp/fileserver_ver04/server_side.cpp:213 | a NUL-free prefix that ends at a NUL or at the end of the buffer is the C string read |
| Framing.FrameOf | projects_cpp/fileserver_ver04/server_side.cpp:212-213 | the NUL write overruns the 256-byte buffer exactly when the recv result is negative or 256 or more, at that index; otherwise the text is a NUL-free prefix of the bytes received, ended by a NUL or by the end of them |
| Framing.FrameOfSentText | projects_cpp/fileserver_ver04/server_side.cpp:219-230 | a NUL-free text of 1..255 bytes that arrives in one recv is read back unchanged |
| ServerTransfer.ReceiveLoop | projects_cpp/fileserver_ver04/server_side.cpp:127-139 | the receive loop's counter only grows and never passes the declared size; it completes if and only if the counter reaches the size; it makes no send |
| ServerTransfer.ReceiveLoopWrites | projects_cpp/fileserver_ver04/server_side.cpp:124-139 | `total_received` counts exactly the bytes written to the file, and every write is at most 4096 bytes |
| ServerTransfer.ReceiveLoopUnfold | projects_cpp/fileserver_ver04/server_side.cpp:129-138 | one iteration: a negative recv breaks with nothing written; any other result is written and added to the counter, and the loop goes on |
| ServerTransfer.ReceiveLoopSegments | projects_cpp/fileserver_ver04/server_side.cpp:127-139 | chunks of 1..4096 bytes that fit in the bytes still expected are each received whole and written in order |
| ServerTransfer.ReceiveLoopDelivers | projects_cpp/fileserver_ver04/server_side.cpp:124-139 | chunks that add up to the declared size complete the transfer with `total_received == file_size`; the file is their concatenation, and nothing after them is read |
| ServerTransfer.ReceiveLoopStopsAtError | projects_cpp/fileserver_ver04/server_side.cpp:129-137 | a recv error breaks the loop: the chunks before it are written, it adds nothing, and no later reply is read |
| ServerTransfer.ReceiveLoopPositiveCompletes | projects_cpp/fileserver_ver04/server_side.cpp:127-138 | if every recv returns a positive count, the loop either completes with `total_received == file_size` or falls short only because the peer has no more replies |
| ServerTransfer.ReceiveLoopZeroNoProgress | projects_cpp/fileserver_ver04/server_side.cpp:129-138 | a zero-byte recv writes nothing and leaves the counter unchanged |
| ServerTransfer.ReceiveLoopClosedPeerSpins | projects_cpp/fileserver_ver04/server_side.cpp:127-139 | a peer that only answers 0 leaves the loop spinning, with the counter unchanged and nothing written |
| ServerTransfer.ServerUpload | projects_cpp/fileserver_ver04/server_side.cpp:109-139 | a file that does not open reads nothing; otherwise the declared size is the 4-byte prefix, read first; the counter equals the bytes written and is at most the size |
| ServerTransfer.ReceiveFileServer | projects_cpp/fileserver_ver04/server_side.cpp:109-144 | receive_file_server as a method: its run is ServerUpload, and the file holds the chunks written, concatenated |
| ServerTransfer.ReceivePayload | projects_cpp/fileserver_ver04/server_side.cpp:124-139 | the `while (total_received < file_size)` loop as a method: its run is ReceiveLoop, and the file holds the chunks written |
| ServerTransfer.SendLoop | projects_cpp/fileserver_ver04/server_side.cpp:165-187 | the send loop's counter only grows and never passes the size; it completes if and only if the counter reaches the size; it makes no recv |
| ServerTransfer.SendLoopStops | projects_cpp/fileserver_ver04/server_side.cpp:167-176 | once the counter reaches the size the loop ends Completed; when a read returns 0 bytes the loop spins |
| ServerTransfer.SendLoopBreak | projects_cpp/fileserver_ver04/server_side.cpp:180-184 | a send result <= 0 ends the loop Aborted; that call is the last, and the counter is unchanged |
| ServerTransfer.SendLoopLog | projects_cpp/fileserver_ver04/server_side.cpp:165-187 | the loop's send calls are exactly what it appends to the connection's log |
| ServerTransfer.SentByMeans | projects_cpp/fileserver_ver04/server_side.cpp:165-187 | the call-by-call description of a run gives: chunk bounds, positive results for all but the last call, a last result <= 0 exactly when the run broke, consecutive file bytes, and a counter equal to the bytes delivered |
| ServerTransfer.SendLoopSends | projects_cpp/fileserver_ver04/server_side.cpp:165-187 | every call passes 1..4096 bytes; every call but the last returned a positive count; the loop aborted if and only if the last call returned <= 0; the bytes passed are consecutive bytes of the file; `total_sent` is the bytes that reached the peer |
| ServerTransfer.SendLoopFullAcks | projects_cpp/fileserver_ver04/server_side.cpp:165-187 | a file holding exactly the bytes still to send, sent to a peer that accepts whole chunks, completes and is passed in the reference chunks |
| ServerTransfer.SendLoopBehind | projects_cpp/fileserver_ver04/server_side.cpp:167-187 | a file shorter than the bytes still to send never completes the loop |
| ServerTransfer.SendLoopWhole | projects_cpp/fileserver_ver04/server_side.cpp:178-186 | the loop completes only if every send accepted its whole chunk: a short send loses the rest of its chunk for good |
| ServerTransfer.SendLoopCompleteDelivers | projects_cpp/fileserver_ver04/server_side.cpp:165-187 | a completed loop delivered the rest of the file exactly, in order |
| ServerTransfer.ServerDownload | projects_cpp/fileserver_ver04/server_side.cpp:147-187 | a file that does not open sends nothing; otherwise the declared size is the int32 file size; the counter is at most the size; nothing is received |
| ServerTransfer.ServerDownloadLog | projects_cpp/fileserver_ver04/server_side.cpp:157-187 | the 4-byte size is sent before any payload byte; the log gains the size, then the loop's calls |
| ServerTransfer.ServerDownloadFullAcks | projects_cpp/fileserver_ver04/server_side.cpp:157-187 | with whole-chunk acceptance, a file of at most Int32Max bytes goes out as its size, then the file in 4096-byte chunks, and the loop completes |
| ServerTransfer.ServerDownloadCompleteDelivers | projects_cpp/fileserver_ver04/server_side.cpp:157-187 | a completed download of a file of at most Int32Max bytes delivered the whole file, in order |
| ServerTransfer.ServerDownloadWrapsToEmpty | projects_cpp/fileserver_ver04/server_side.cpp:157 | a non-empty file whose size is a multiple of 2^32 is announced as 0 bytes, and none of it is sent |
| ServerTransfer.SendFileServer | projects_cpp/fileserver_ver04/server_side.cpp:147-192 | send_file_server as a method: its run is ServerDownload |
| ServerTransfer.SendPayload | projects_cpp/fileserver_ver04/server_side.cpp:165-187 | the `while (total_sent < file_size)` loop as a method: its run is SendLoop |
| ClientTransfer.ClientSendLoop | projects_cpp/fileserver_ver04/client_side.cpp:78-91 | the client send loop never aborts; it completes if and only if the counter reaches the size, and otherwise spins; the counter never passes the size; it makes no recv |
| ClientTransfer.ClientSendLoopLog | projects_cpp/fileserver_ver04/client_side.cpp:78-91 | the loop's send calls are exactly what it appends to the connection's log |
| ClientTransfer.ClientSendLoopChunks | projects_cpp/fileserver_ver04/client_side.cpp:76-91 | whatever send returns, the loop passes the file up to min(size, length) in the reference chunks; `total_sent` ends at that bound; it completes if and only if the file is at least the size |
| ClientTransfer.ClientSendLoopFullAcks | projects_cpp/fileserver_ver04/client_side.cpp:78-91 | with whole-chunk acceptance, every send call is accepted in full |
| ClientTransfer.ClientUpload | projects_cpp/fileserver_ver04/client_side.cpp:60-91 | a file that does not open sends nothing; otherwise the size is the int32 file size and the upload completes or spins, never aborts |
| ClientTransfer.ClientUploadLog | projects_cpp/fileserver_ver04/client_side.cpp:69-91 | the 4-byte size is sent before any payload byte |
| ClientTransfer.ClientUploadSendsFile | projects_cpp/fileserver_ver04/client_side.cpp:76-92 | an upload of a file of at most Int32Max bytes completes with `total_sent == file_size`; the bytes passed to send are the file, in order, in chunks of at most 4096 bytes |
| ClientTransfer.ClientUploadFullAcks | projects_cpp/fileserver_ver04/client_side.cpp:69-91 | with whole-chunk acceptance the wire carries the size (accepted whole), then the file in reference chunks, each accepted whole |
| ClientTransfer.SendFileClient | projects_cpp/fileserver_ver04/client_side.cpp:60-95 | send_file_client as a method: its run is ClientUpload |
| ClientTransfer.ClientSendPayload | projects_cpp/fileserver_ver04/client_side.cpp:76-91 | the `while (total_sent < file_size)` loop as a method: its run is ClientSendLoop |
| ClientTransfer.ClientReceiveLoop | projects_cpp/fileserver_ver04/client_side.cpp:113-130 | the client receive loop never breaks, and it makes a recv only when `bytes_to_read` is positive; it completes if and only if the counter reaches the size, and the counter never passes it |
| ClientTransfer.ClientReceiveLoopUnfold | projects_cpp/fileserver_ver04/client_side.cpp:117-129 | one iteration: a positive recv is written; every result is added to the counter; the loop goes on |
| ClientTransfer.ClientReceiveLoopErrorLowers | projects_cpp/fileserver_ver04/client_side.cpp:119-129 | a recv error writes nothing, lowers `received_bytes` by one, and the loop continues |
| ClientTransfer.ClientReceiveLoopZeroNoProgress | projects_cpp/fileserver_ver04/client_side.cpp:122-129 | a zero-byte recv writes nothing and leaves the counter unchanged |
| ClientTransfer.ClientReceiveLoopCounts | projects_cpp/fileserver_ver04/client_side.cpp:119-129 | `received_bytes` is the sum of every recv result: the bytes written, less one per error consumed; every write is 1..4096 bytes |
| ClientTransfer.ClientReceiveLoopSegments | projects_cpp/fileserver_ver04/client_side.cpp:115-130 | chunks of 1..4096 bytes that fit in the bytes still expected are each received whole and written in order |
| ClientTransfer.ClientReceiveLoopDelivers | projects_cpp/fileserver_ver04/client_side.cpp:113-131 | chunks that add up to the declared size complete with `received_bytes == file_size`; the file is their concatenation, and nothing after them is read |
| ClientTransfer.ClientReceiveLoopPositiveCompletes | projects_cpp/fileserver_ver04/client_side.cpp:115-130 | if every recv returns a positive count, the counter never falls, and the loop completes with `received_bytes == file_size`, falls short because the peer has no more replies, or stops reading because `file_size - received_bytes` does not fit an int; a loop that starts with a difference that fits an int meets only the first two cases |
| ClientTransfer.BytesToRead | projects_cpp/fileserver_ver04/client_side.cpp:117 | `bytes_to_read` is `min(4096, file_size - received_bytes)` while the difference fits an int, and is negative once the difference wraps past `INT_MAX` |
| ClientTransfer.ClientReceiveLoopWrapSpins | projects_cpp/fileserver_ver04/client_side.cpp:115-129 | when `file_size - received_bytes` does not fit an int, no recv is made, the counter stays put, and the loop spins with nothing written |
| ClientTransfer.ClientReceiveLoopErrorOnLargestFile | projects_cpp/fileserver_ver04/client_side.cpp:115-129 | one recv error on a file of `INT_MAX` bytes drops the counter to -1, and the loop then spins without another recv |
| ClientTransfer.ClientReceiveLoopErrorOverwrites | projects_cpp/fileserver_ver04/client_side.cpp:117-129 | for a file of fewer than 4096 bytes, an error followed by a segment one byte longer than the file completes with `received_bytes == file_size` while one byte more than the file is written |
| ClientTransfer.ClientDownload | projects_cpp/fileserver_ver04/client_side.cpp:98-130 | a file that does not open reads nothing; otherwise the size is the 4-byte prefix, read first, and the download completes or spins, never aborts |
| ClientTransfer.ReceiveFileClient | projects_cpp/fileserver_ver04/client_side.cpp:98-134 | receive_file_client as a method: its run is ClientDownload, and the file holds the chunks written |
| ClientTransfer.ClientReceivePayload | projects_cpp/fileserver_ver04/client_side.cpp:113-130 | the `while (received_bytes < file_size)` loop as a method: its run is ClientReceiveLoop, and the file holds the chunks written |
| ServerSession.TurnOf | projects_cpp/fileserver_ver04/server_side.cpp:199-264 | a turn ends the session with Closed if and only if the command recv returns <= 0; a turn that runs a transfer consumes input and keeps the unwritable names |
| ServerSession.Serve | projects_cpp/fileserver_ver04/server_side.cpp:199-265 | handle_client's command loop: the session is Hung exactly when its last transfer never ends, every earlier transfer ends, and the unwritable names are kept |
| ServerSession.ServeStop | projects_cpp/fileserver_ver04/server_side.cpp:206-264 | a turn that ends the session ends it with no transfer and the store unchanged |
| ServerSession.ServeNext | projects_cpp/fileserver_ver04/server_side.cpp:216-255 | after a transfer the loop reads the next command, unless the transfer never ends |
| ServerSession.ServeStore | projects_cpp/fileserver_ver04/server_side.cpp:216-255 | a session changes the store only by its uploads, in order |
| ServerSession.ReplayKeeps | projects_cpp/fileserver_ver04/server_side.cpp:216-235 | a file that no upload named keeps its contents, and so does the set of unwritable names |
| ServerSession.ServeClosed | projects_cpp/fileserver_ver04/server_side.cpp:203-211 | a failed or zero-byte command recv ends the session with Closed, with no transfer; it is the only path that does |
| ServerSession.ServeQuit | projects_cpp/fileserver_ver04/server_side.cpp:256-259 | a "Quit" frame ends the session with no filename read, no transfer and the store unchanged |
| ServerSession.ServeInvalid | projects_cpp/fileserver_ver04/server_side.cpp:260-264 | any other text ends the session the same way |
| ServerSession.ServeUpload | projects_cpp/fileserver_ver04/server_side.cpp:216-235 | an "Upload" frame then a filename frame run receive_file_server under that name, and the store gains what it wrote |
| ServerSession.ServeDownload | projects_cpp/fileserver_ver04/server_side.cpp:236-255 | a "Download" frame then a filename frame run send_file_server on that file, and the store is unchanged |
| ServerSession.ServeCommandOverrun | projects_cpp/fileserver_ver04/server_side.cpp:203-212 | a command recv that fills all 256 bytes writes its NUL at index 256, past the buffer |
| ServerSession.ServeFilenameErrorOverrun | projects_cpp/fileserver_ver04/server_side.cpp:220-228 | a failed filename recv writes its NUL at index -1 |
| ServerSession.ServeTwoTurns | projects_cpp/fileserver_ver04/server_side.cpp:199-265 | two turns that each run a transfer that ends are the session's first two transfers, in order |
| ServerSession.HandleClient | projects_cpp/fileserver_ver04/server_side.cpp:197-268 | handle_client's `while (true)` loop as a method: its session is Serve |
| ClientSession.ClientTurnOf | projects_cpp/fileserver_ver04/client_side.cpp:154-188 | a turn of main leaves the loop if and only if the word is "Quit" or unrecognised; a turn that goes on consumes input |
| ClientSession.Drive | projects_cpp/fileserver_ver04/client_side.cpp:154-188 | main's command loop: the run ends with a hung transfer exactly when its last transfer never ends, every earlier transfer ends, and the local unwritable names are kept |
| ClientSession.DriveStopsSilently | projects_cpp/fileserver_ver04/client_side.cpp:161-187 | "Quit", unrecognised input and the end of input leave the loop with nothing sent or received; the loop ends with Quit exactly for "Quit" |
| ClientSession.DriveUpload | projects_cpp/fileserver_ver04/client_side.cpp:165-173 | "Upload" sends the command, then the filename, then the 4-byte size and the payload, in that order, and goes on with the rest of the input |
| ClientSession.DriveDownload | projects_cpp/fileserver_ver04/client_side.cpp:174-182 | "Download" sends the command, then the filename, then runs receive_file_client, which sends nothing; the local file is what it wrote |
| ClientSession.ClientMain | projects_cpp/fileserver_ver04/client_side.cpp:154-188 | main's command loop as a method: its run is Drive |
| RoundTrip.PrefixedWire | projects_cpp/fileserver_ver04/client_side.cpp:72-91 | the size and the chunks, all accepted whole, reach the peer as one segment each |
| RoundTrip.PrefixedReceive | projects_cpp/fileserver_ver04/server_side.cpp:119-120 | a size prefix that arrives whole is read as the size sent, and only that reply is consumed |
| RoundTrip.UploadRoundTrip | projects_cpp/fileserver_ver04/client_side.cpp:60-95 | what send_file_client puts on the wire, read by receive_file_server (`server_side.cpp:119-139`), completes with the client's file written exactly, and nothing more is read |
| RoundTrip.DownloadRoundTrip | projects_cpp/fileserver_ver04/server_side.cpp:147-192 | what send_file_server puts on the wire, read by receive_file_client (`client_side.cpp:107-130`), completes with the server's file written exactly, and nothing more is read |
| RoundTrip.ServerUploadOfWire | projects_cpp/fileserver_ver04/server_side.cpp:119-139 | receive_file_server on a connection carrying the size and then the file in whole chunks completes, writes exactly those chunks and reads nothing after them |
| RoundTrip.ClientDownloadOfWire | projects_cpp/fileserver_ver04/client_side.cpp:107-130 | receive_file_client on a connection carrying the size and then the file in whole chunks completes with `received_bytes == file_size`, writes exactly those chunks and reads nothing after them |
| RoundTrip.UploadTurnOfWire | projects_cpp/fileserver_ver04/server_side.cpp:216-235 | an "Upload" turn for a writable name and a whole file completes, writes the chunks, and leaves the connection just after them |
| RoundTrip.DownloadTurnOfFile | projects_cpp/fileserver_ver04/server_side.cpp:236-255 | a "Download" turn for a stored file, to a peer that accepts whole chunks, completes and delivers exactly the file |
| RoundTrip.ServeUploadThenDownload | projects_cpp/fileserver_ver04/server_side.cpp:199-265 | in one session, uploading a file under a writable name and then downloading that name completes both transfers, and the download delivers exactly the bytes uploaded |


## Left out

- Socket creation, bind, listen, accept and connect are OS plumbing. A connection is only the sequence of recv and send results.
- The thread per connection and the accept loop in `start` are left out: one session is modelled at a time, with no concurrent access to the storage directory.
- Filesystem calls are left out. Opening an `ofstream` or `ifstream` is a boolean: a name in `Store.unwritable` for writing, a name in `Store.files` for reading. `std::filesystem::file_size` is the length of the stored contents. An `ifstream` that opens on something without a size (a directory) is not modelled.
- Path strings (`storage_directory + "/" + name`) are left out. A file is named by its filename bytes alone.
- Console logging (`std::cout`) and the prompts are left out. The words the client reads from `std::cin` are a sequence of byte strings, and the end of input reads as an empty word.
- TCP segmentation is left out. Each accepted `send` reaches the peer as exactly one `recv` segment, so a command and a filename never arrive coalesced in one `recv`. A segment longer than the request is cut to the request, and the rest of it is lost rather than kept for the next `recv`.
- The byte order of the `int` size prefix is fixed as little-endian. The code copies host memory, so a big-endian host is not covered.
- Counters (`total_received`, `total_sent`, `received_bytes`) are unbounded integers. On the server, signed overflow of an `int` counter cannot occur for sizes within int32 range. On the client, the 32-bit difference `file_size - received_bytes` is modelled (`ClientTransfer.BytesToRead`). The counter `received_bytes` itself is not wrapped: it would pass below `INT_MIN` only after about 2^31 recv errors, and that overflow is not modelled.
- A loop that would run for ever is cut at the first iteration that cannot change anything again, and is reported as `Spinning`. Examples are a recv of 0 on a closed peer and a read of 0 bytes at end of file. The model does not describe the repetitions themselves.
- Writing a NUL outside a 256-byte buffer is undefined behaviour in C++. The model ends the session there with `BufferOverrun(index)`, rather than modelling memory corruption.
- A download of a name the store does not hold is modelled as a file that does not open (`ServerSession.TurnOf`), because `ifstream` fails on a missing file.
- In `ClientTransfer.ClientSendLoop` the file position is the counter `total_sent`. Both start at 0 and both move by `gcount`, so the two cannot differ in the source.
