# TFTP client transfers, modelled in Dafny

This project models the client side of a TFTP file-transfer system (RFC 1350).
The Java class `TFTPClient` runs two stop-and-wait transfers over one UDP socket:

- **Read transfer (RRQ).** `readFileFromServer` creates or truncates the local
  file. It sends a read request to the server port. It then receives DATA
  packets, appends each payload to the file and acknowledges it with ACK 1, 2,
  3, …, until a DATA packet shorter than 512 bytes has been handled.
- **Write transfer (WRQ).** `writeFileToServer` sends a write request. For each
  block it awaits an ACK, reads up to 512 bytes of the local file and sends
  them as DATA 1, 2, 3, …. It keeps going while the payload just sent was full,
  then awaits one final ACK.

Every datagram the client receives overwrites `responsePort` with its source
port. All ACKs and DATA packets after the request go to that port.

Modules:

- `Wrappers`: `Option`.
- `Packets`: bytes, the 512-byte payload limit, default port 69, abstract
  packets, and what the network delivers. A delivery is `Inbound`: either a
  datagram with its source port, or a failed receive.
- `Transfer`: what a transfer should send and produce, as functions.
  - `Chunks` cuts a file into DATA payloads.
  - `Completes` and `Written` say what a read consumes and writes.
  - `PortAfter` gives the reply port.
  - `Addressed` gives the trace of replies.
  - Lemmas say what these functions mean.
- `Client`: class `TFTPClient`.
  - State: the mutable `responsePort`, the `verbose` flag and a ghost trace
    `sent` of every datagram sent.
  - Each transfer is a method whose loop is proved against the `Transfer`
    functions.

Environment:

- **Network.** Each transfer gets what the network delivers as a finite
  sequence of receives. When that sequence runs out, the next receive waits
  forever, and the outcome is `Blocked`.
- **Local file.** It is a `LocalFile` value: present, readable, writable and
  its bytes.
- **IOExceptions.** `faultAt` says which step throws:
  - step 0 is sending the request;
  - step k is round k of the loop: the local write or the ACK send in a read,
    the local read or the DATA send in a write.
- **Socket and file creation.** Whether `new DatagramSocket()` and
  `createNewFile` succeed are the boolean parameters `socketOk` and `createOk`.

Where the code differs from RFC 1350 or from what a careful TFTP client would do:

- **ACK block number.** RFC 1350 (section 5) has each ACK carry the block number
  of the DATA packet it acknowledges. The read transfer instead acknowledges
  with its own counter 1, 2, 3, …, whatever block number the packet carries.
  The model does the same.
- **Failed receive.** A failed receive returns `null` rather than an error
  outcome, and the result depends on the transfer:
  - In a read, `null` is dereferenced, and the transfer ends with a
    NullPointerException (`Aborted`). The partial file is kept.
  - In a write in quiet mode, the null ACK is never looked at: the loop goes on
    and the reply port is unchanged.
  - In a write in verbose mode, printing the null ACK throws (`Aborted`).
  - The final ACK of a write is never looked at either.
- **Verbose flag.** For these reasons `verbose` is part of the state here. It is
  not only a display setting.
- **Socket never closed.** The socket is never closed. The file streams are not
  closed on the exception paths. The model has no close operation.

## Model

| member | source | states |
|---|---|---|
| Client.TFTPClient.constructor | src/project/TFTPClient.java:29-34 | A new client talks to the given server address and port, starts in quiet mode and has sent nothing. |
| Client.TFTPClient.Local | src/project/TFTPClient.java:25-27 | The default client talks to this host at port 69. |
| Client.TFTPClient.Send | src/project/TFTPClient.java:166-168 | Sending appends exactly one datagram, to the server address at the given port, to the trace. |
| Client.TFTPClient.ReceiveDataPacket | src/project/TFTPClient.java:170-180 | A datagram sets responsePort to its source port and yields its DATA packet. A failed receive yields no packet and leaves the port unchanged. |
| Client.TFTPClient.ReceiveAckPacket | src/project/TFTPClient.java:182-192 | The same for ACK packets. |
| Client.ReadInto | src/project/TFTPClient.java:270 | `fs.read(data)` returns -1 at end of file, otherwise the number of bytes copied, at most 512. The first n bytes of the buffer are the next n bytes of the file; the rest of the buffer is unchanged. |
| Client.TFTPClient.ReadFileFromServer | src/project/TFTPClient.java:194-238 | A present, unwritable file gives NoPermission exactly, and nothing is sent. Otherwise the trace is the RRQ to the server port, then ACK 1..k, each to the port learned from the DATA packet it answers. The transfer is Done exactly when permission, creation and socket succeed, the received DATA packets complete a transfer (Completes) and no IOException is due up to and including the round of the last one. When Done, the file holds exactly the payloads of those packets. SocketFailed holds exactly when the permission and creation checks pass and the socket cannot be opened. IoFailed holds exactly when creation fails, or when the socket opens and the transfer reaches the faulting step (ReadReachesFault); an IOException in the loop comes right after the DATA packet of its round arrived after only full ones, and leaves no file. Blocked and Aborted happen only after full DATA packets with no fault due yet: Blocked when the datagrams run out, Aborted at a failed receive. Both keep the bytes written so far. In every case the reply port is the source of the last datagram consumed. |
| Client.TFTPClient.ReceiveDataBlocks | src/project/TFTPClient.java:219-231 | The do-while read loop. It consumes DATA packets until the first short one, and the written bytes are Written of those receives. When it stops early, every packet consumed was full and no fault was due before: it stops at a failed receive (Aborted), when input runs out (Blocked), or with IoFailed exactly when the faulting round is reached (ReadReachesFault). The sent trace is ACK 1..acked with their learned ports, and the reply port is that of the last datagram received. |
| Client.TFTPClient.ReadRound | src/project/TFTPClient.java:222-230 | One round: receive the next DATA packet; Aborted exactly when the receive failed (port unchanged); IoFailed exactly when it arrived and the round's fault is due (port learned from it); otherwise the payload is that packet's, written bytes, port and ACK trace advance by one packet (ReadLoop), and the round tells whether the read is complete or the full prefix grows. |
| Client.TFTPClient.WriteFileToServer | src/project/TFTPClient.java:240-290 | A missing or unreadable file gives NoPermission exactly, and nothing is sent. Otherwise the trace is the WRQ, then DATA 1..n carrying the file's payloads in order, each to the port learned from the ACK just received. Done holds exactly when the ACK receives number at least L/512+2 for a file of L bytes (one per DATA packet plus the final one), no IOException occurs and, in verbose mode, every ACK before a DATA arrives. When Done, every payload of the file was sent and one more ACK consumed. SocketFailed holds exactly when the file passes the checks and the socket cannot be opened. IoFailed holds exactly when the transfer reaches the faulting step (WriteReachesFault): the request itself, or round k when block k is one of the file's payloads, its ACK receive returns and, in verbose mode, every ACK so far arrived. A fault at the request sends nothing. Blocked and Aborted happen only with no fault due and, in verbose mode, no failed ACK before them. In every case the reply port is the one learned from the ACKs consumed. |
| Client.TFTPClient.SendDataBlocks | src/project/TFTPClient.java:262-280 | The do-while write loop. The DATA packets sent are DATA(i+1, Chunks(file)[i]) for a prefix of the file's payloads, and the reply port is the one learned from the ACKs consumed. A normal end means every payload has been sent, with enough ACKs, no fault due and, in verbose mode, no failed ACK. When it stops early, a payload remains, no fault was due in an earlier round and, in verbose mode, every earlier ACK arrived; IoFailed comes from the fault due in the round just started, after its ACK arrived in verbose mode. |
| Client.TFTPClient.WriteRound | src/project/TFTPClient.java:266-279 | One round: await an ACK, then either abort (null ACK in verbose mode), throw (local fault), or send the next payload of the file as the next DATA block. This keeps the loop invariant WriteLoop. |
| Client.TFTPClient.SendBlock | src/project/TFTPClient.java:270-276 | The read and the DATA send: the payload sent is the next of the file's payloads, of byteUsed bytes. An end-of-stream read sends an empty payload. |
| Transfer.StreamRead | src/project/TFTPClient.java:270-274 | A read returns -1 exactly at end of file, otherwise between 1 and 512 bytes, and a short read leaves nothing behind. |
| Transfer.ChunksStep | src/project/TFTPClient.java:270-280 | One read at position pos yields the next payload, and the loop continues (byteUsed == 512) exactly when more payloads follow. |
| Transfer.ChunksConcat | src/project/TFTPClient.java:262-280 | The DATA payloads of a write, put back together, are exactly the file. |
| Transfer.ChunksCount | src/project/TFTPClient.java:262-280 | A file of L bytes is sent in L/512 + 1 DATA packets. |
| Transfer.ChunksShape | src/project/TFTPClient.java:262-280 | Every payload but the last has 512 bytes; the last is shorter. |
| Transfer.ChunksExactMultiple | src/project/TFTPClient.java:270-280 | A file whose length is a multiple of 512 ends with an empty DATA packet. |
| Transfer.WriteOf1024Bytes | src/project/TFTPClient.java:262-280 | A 1024-byte file is sent as payloads of 512, 512 and 0 bytes. |
| Transfer.DataPacketsSnoc | src/project/TFTPClient.java:264-275 | The next DATA packet carries the block number one past the number of packets sent. |
| Transfer.WriteDataTrace | src/project/TFTPClient.java:266-276 | When every ACK arrives, DATA block i+1 carries the file's i-th payload and goes to the source port of the i-th ACK. |
| Transfer.PortAfterIsLatest | src/project/TFTPClient.java:170-192 | The reply port is the source port of the most recent datagram received. It stays at its old value while every receive fails. |
| Transfer.Completes | src/project/TFTPClient.java:221-231 | When a read completes, it consumes between 1 and the number of receives available. |
| Transfer.CompletesIff | src/project/TFTPClient.java:221-231 | A read completes after n packets exactly when the first n receives are DATA packets and the n-th is the only short one among them. |
| Transfer.CompletesIgnoresRest | src/project/TFTPClient.java:221-231 | Datagrams after the last DATA packet of a read are never consumed. |
| Transfer.CompletesBeyond | src/project/TFTPClient.java:221-231 | While only full packets have arrived, a read that completes needs a further received packet. |
| Transfer.FullBlocksStep | src/project/TFTPClient.java:225-231 | After full packets, a short packet ends the read at that count, and a full one extends the full prefix. |
| Transfer.ReadAckTrace | src/project/TFTPClient.java:222-227 | A completed read acknowledges DATA packet i+1 with ACK i+1, sent to the source port of that packet. |
| Transfer.ReadLength | src/project/TFTPClient.java:221-231 | The file a completed read writes has 512 bytes per packet but the last, plus the last, short, payload. |
| Transfer.WriteThenRead | src/project/TFTPClient.java:221-280 | Round trip: a read that receives the DATA packets a write cuts from a file stops after the last of them and writes back the same file. |

## Left out

- The interactive console is not modelled: the command prompt, the mode toggle, the help text and `main` (`src/project/TFTPClient.java:36-147, 292-295`). It is user interface; the model takes `verbose` as a field.
- Printing is not modelled. Only its one effect on behaviour is: dereferencing a null packet in verbose mode.
- The packet classes (`TFTPRequestPacket`, `TFTPDataPacket`, `TFTPAckPacket`) are not part of this model. Packets are abstract values. The wire encoding, `createFromPacket` and its malformed-packet errors are left out. `isLastDataPacket` is taken to mean "payload shorter than 512 bytes", and the 512 limit comes from `MAX_DATA_LENGTH`.
- Block numbers are unbounded integers. The 16-bit wrap-around belongs to the packet encoding, which is not part of this model.
- Socket I/O is the sequence of receives and the ghost `sent` trace.
  - A receive that never returns is modelled as running out of that sequence (`Blocked`).
  - There are no timeouts and no retransmission, because the client has none.
- The local file system is the `LocalFile` value.
  - Paths and folders are not modelled.
  - A `FileNotFoundException` from a file that disappears between the permission check and the open is not modelled.
  - The code closes the file stream on the normal paths and when the socket cannot be opened, but not on the exception paths, and never closes the socket. The model has no close operation.
- ReadInto: assumes each `FileInputStream.read` returns min(512, remaining) bytes, as it does for a local file. Java only promises at least one byte; a short read in the middle of the file would end the upload early in the code, and the model does not capture that (Transfer.StreamRead carries the same assumption).
- An IOException from a send or a local read or write is represented only by the step index `faultAt`, not by its cause.
- An IOException from closing a file stream is not modelled. In a read, a failing close after the last packet would make the handler delete a fully received file, while the model reports Done. In a write, it would end the transfer after the final ACK without changing what was sent.
- Exceptions thrown by the JVM other than the NullPointerException on a failed receive are not modelled.
